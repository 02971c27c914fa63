/**
 * The job-application record shared by the backend store and the frontend
 * list: five statuses, optional text fields and two timestamps.
 */
module Records {
  import opened Wrappers
  import opened Text

  /** The five values of the status choice list. */
  datatype Status = Prepared | Applied | Interviewed | Offered | Rejected

  /** The stored (lower-case) name of a status. */
  function StatusName(s: Status): (r: string)
    ensures r != [] && NoUpper(r)
  {
    match s
    case Prepared => "prepared"
    case Applied => "applied"
    case Interviewed => "interviewed"
    case Offered => "offered"
    case Rejected => "rejected"
  }

  /** Distinct statuses have distinct names, so a name identifies its status. */
  lemma StatusNameInjective(s: Status, t: Status)
    requires StatusName(s) == StatusName(t)
    ensures s == t
  {
  }

  /**
   * One application. Text fields the client may see as missing are optional;
   * dates are integer timestamps, `applicationDate` optional and `createdAt`
   * always present.
   */
  datatype Application = Application(
    id: int,
    company: Option<string>,
    jobTitle: Option<string>,
    status: Option<Status>,
    stageNotes: Option<string>,
    applicationDate: Option<int>,
    createdAt: int)
}
