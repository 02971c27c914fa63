/**
 * The application endpoints of the backend: the list query with its three
 * optional parameters, the status statistics, and the whitelist applied to a
 * partial update of a job-description text. The store is a sequence of
 * records; a query is a function of it.
 */
module ApplicationViews {
  import opened Wrappers
  import opened Text
  import opened Seqs
  import opened Records
  import opened Values

  // ---------------------------------------------------------------------
  // List query
  // ---------------------------------------------------------------------

  function CreatedKey(): Application -> Key {
    (a: Application) => NumKey(a.createdAt)
  }

  /** The view's base queryset: every record, newest `created_at` first. */
  function BaseOrder(apps: seq<Application>): (r: seq<Application>)
    ensures multiset(r) == multiset(apps)
    ensures Sorted(r, CreatedKey(), false)
  {
    SortBy(apps, CreatedKey(), false)
  }

  /** A query parameter is applied only when present and non-empty. */
  predicate Given(q: Option<string>) {
    q.Some? && q.value != ""
  }

  /** `field__icontains=q`; a missing field holds no text. */
  predicate IContains(field: Option<string>, q: string) {
    Contains(Lower(field.GetOr("")), Lower(q))
  }

  function TitleMatches(q: string): Application -> bool {
    (a: Application) => IContains(a.jobTitle, q)
  }

  function CompanyMatches(q: string): Application -> bool {
    (a: Application) => IContains(a.company, q)
  }

  /** `status=q.lower()`: exact match on the stored name. */
  function StatusMatches(q: string): Application -> bool {
    (a: Application) => a.status.Some? && StatusName(a.status.value) == Lower(q)
  }

  /** A record passes the query when it satisfies every given parameter. */
  predicate QueryKeeps(a: Application, jobTitle: Option<string>, company: Option<string>, status: Option<string>) {
    && (!Given(jobTitle) || IContains(a.jobTitle, jobTitle.value))
    && (!Given(company) || IContains(a.company, company.value))
    && (!Given(status) || (a.status.Some? && StatusName(a.status.value) == Lower(status.value)))
  }

  /** One conditional `qs = qs.filter(...)` step. */
  function Stage(given: bool, p: Application -> bool, qs: seq<Application>): (r: seq<Application>)
    requires Sorted(qs, CreatedKey(), false)
    ensures IsSubseq(r, qs) && Sorted(r, CreatedKey(), false)
    ensures forall a :: multiset(r)[a] == if !given || p(a) then multiset(qs)[a] else 0
  {
    if given then FilterSorted(p, qs, CreatedKey(), false); Filter(p, qs)
    else IsSubseqRefl(qs); qs
  }

  /**
   * `get_queryset`: the records that pass every given parameter, each as
   * often as stored, in the base order.
   */
  function GetQueryset(apps: seq<Application>, jobTitle: Option<string>, company: Option<string>, status: Option<string>): (r: seq<Application>)
    ensures IsSubseq(r, BaseOrder(apps))
    ensures Sorted(r, CreatedKey(), false)
    ensures forall a :: multiset(r)[a] == if QueryKeeps(a, jobTitle, company, status) then multiset(apps)[a] else 0
  {
    var qs := BaseOrder(apps);
    var qs1 := Stage(Given(jobTitle), TitleMatches(jobTitle.GetOr("")), qs);
    var qs2 := Stage(Given(company), CompanyMatches(company.GetOr("")), qs1);
    var qs3 := Stage(Given(status), StatusMatches(status.GetOr("")), qs2);
    IsSubseqTransitive(qs3, qs2, qs1);
    IsSubseqTransitive(qs3, qs1, qs);
    qs3
  }

  /** With no parameter given the query is the base order itself. */
  lemma {:induction false} QueryWithoutParameters(apps: seq<Application>)
    ensures GetQueryset(apps, None, None, None) == BaseOrder(apps)
    ensures GetQueryset(apps, Some(""), Some(""), Some("")) == BaseOrder(apps)
  {
  }

  /** A record kept by the query matches the title case-insensitively. */
  lemma QueryTitleMatch(apps: seq<Application>, q: string, a: Application)
    requires q != ""
    requires a in GetQueryset(apps, Some(q), None, None)
    ensures Contains(Lower(a.jobTitle.GetOr("")), Lower(q))
    ensures a in apps
  {
    var r := GetQueryset(apps, Some(q), None, None);
    assert multiset(r)[a] > 0;
  }

  /** Every stored record that matches all given parameters is returned. */
  lemma QueryKeepsMatches(apps: seq<Application>, jobTitle: Option<string>, company: Option<string>, status: Option<string>, a: Application)
    requires a in apps && QueryKeeps(a, jobTitle, company, status)
    ensures a in GetQueryset(apps, jobTitle, company, status)
  {
    assert multiset(apps)[a] > 0;
    assert multiset(GetQueryset(apps, jobTitle, company, status))[a] > 0;
  }

  // ---------------------------------------------------------------------
  // Statistics
  // ---------------------------------------------------------------------

  function CountStatus(apps: seq<Application>, s: Status): (n: nat)
    ensures n <= |apps|
    decreases |apps|
  {
    if apps == [] then 0
    else (if apps[0].status == Some(s) then 1 else 0) + CountStatus(apps[1..], s)
  }

  function CountUnset(apps: seq<Application>): (n: nat)
    decreases |apps|
  {
    if apps == [] then 0
    else (if apps[0].status.None? then 1 else 0) + CountUnset(apps[1..])
  }

  /** Every record has one status or none, so the five counts and the unset ones add up to the total. */
  lemma {:induction false} StatusCountsPartition(apps: seq<Application>)
    ensures |apps| == CountStatus(apps, Prepared) + CountStatus(apps, Applied) + CountStatus(apps, Interviewed)
                      + CountStatus(apps, Offered) + CountStatus(apps, Rejected) + CountUnset(apps)
    decreases |apps|
  {
    if apps != [] {
      StatusCountsPartition(apps[1..]);
      if apps[0].status.Some? {
        var s := apps[0].status.value;
        assert s == Prepared || s == Applied || s == Interviewed || s == Offered || s == Rejected;
      }
    }
  }

  /** The reply of `get_stats`; prepared records are not reported separately. */
  datatype Stats = Stats(total: nat, applied: nat, rejected: nat, interviewed: nat, offered: nat)

  function GetStats(apps: seq<Application>): (r: Stats)
    ensures r.total == |apps|
    ensures r.applied == CountStatus(apps, Applied) && r.rejected == CountStatus(apps, Rejected)
    ensures r.interviewed == CountStatus(apps, Interviewed) && r.offered == CountStatus(apps, Offered)
    ensures r.applied + r.rejected + r.interviewed + r.offered + CountStatus(apps, Prepared) <= r.total
  {
    StatusCountsPartition(apps);
    Stats(|apps|, CountStatus(apps, Applied), CountStatus(apps, Rejected),
          CountStatus(apps, Interviewed), CountStatus(apps, Offered))
  }

  /** A new record raises the total and exactly the count of its own status. */
  lemma {:induction false} StatsOfAdded(apps: seq<Application>, a: Application)
    ensures GetStats([a] + apps).total == GetStats(apps).total + 1
    ensures GetStats([a] + apps).applied == GetStats(apps).applied + (if a.status == Some(Applied) then 1 else 0)
    ensures GetStats([a] + apps).rejected == GetStats(apps).rejected + (if a.status == Some(Rejected) then 1 else 0)
    ensures GetStats([a] + apps).interviewed == GetStats(apps).interviewed + (if a.status == Some(Interviewed) then 1 else 0)
    ensures GetStats([a] + apps).offered == GetStats(apps).offered + (if a.status == Some(Offered) then 1 else 0)
  {
    assert ([a] + apps)[1..] == apps;
  }

  // ---------------------------------------------------------------------
  // Partial update of a job-description text
  // ---------------------------------------------------------------------

  const AllowedFields: set<string> := {"text"}
  const InvalidFieldsError: string := "Invalid fields for partial update."

  /** Either the 400 reply, or the data handed to the serializer. */
  datatype PatchOutcome = PatchRejected(error: string) | PatchForwarded(data: map<string, Value>)

  /** `partial_update`: reject a body with any key but "text", else forward the allowed keys. */
  function PartialUpdate(body: map<string, Value>): (r: PatchOutcome)
    ensures r.PatchRejected? <==> exists k :: k in body && k != "text"
    ensures r.PatchRejected? ==> r.error == InvalidFieldsError
    ensures r.PatchForwarded? ==> r.data.Keys <= AllowedFields
    ensures r.PatchForwarded? ==> forall k :: k in r.data ==> k in body && r.data[k] == body[k]
  {
    if !(body.Keys <= AllowedFields) then PatchRejected(InvalidFieldsError)
    else PatchForwarded(map k | k in body && k in AllowedFields :: body[k])
  }

  /** Once the check passes, the filtering comprehension keeps the whole body. */
  lemma ForwardedIsBody(body: map<string, Value>)
    requires PartialUpdate(body).PatchForwarded?
    ensures PartialUpdate(body).data == body
  {
  }

  /** The empty body passes, since the empty set is a subset of the allowed fields. */
  lemma EmptyPatchPasses()
    ensures PartialUpdate(map[]) == PatchForwarded(map[])
  {
  }
}
