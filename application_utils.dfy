/**
 * The client-side application list processor: free-text search, three
 * keyword filters, a multi-key stable sort, the pipeline that chains them,
 * and the filter options offered to the user.
 *
 * Every stage is a list-to-list function. Each filter is stated against a
 * "keeps" predicate on one record: the result holds exactly the kept records,
 * each as often as in the input, in input order.
 */
module ApplicationUtils {
  import opened Wrappers
  import opened Text
  import opened Seqs
  import opened Records

  /** `field?.toLowerCase() || ''`: a missing field reads as the empty string. */
  function LowerOr(f: Option<string>): (r: string)
    ensures NoUpper(r)
    ensures f.None? ==> r == ""
  {
    if f.Some? then Lower(f.value) else ""
  }

  /** The status as the client receives it: its stored name, or missing. */
  function StatusField(s: Option<Status>): Option<string> {
    if s.Some? then Some(StatusName(s.value)) else None
  }

  /** A missing or empty selection list imposes nothing. */
  function Selection(sel: Option<seq<string>>): seq<string> {
    if sel.Some? then sel.value else []
  }

  // ---------------------------------------------------------------------
  // Search
  // ---------------------------------------------------------------------

  /** The normalised term matches one of the four searchable fields. */
  predicate Matches(a: Application, term: string) {
    Contains(LowerOr(a.company), term)
    || Contains(LowerOr(a.jobTitle), term)
    || Contains(LowerOr(StatusField(a.status)), term)
    || Contains(LowerOr(a.stageNotes), term)
  }

  /** An absent, empty or whitespace-only term keeps all; otherwise the term must match. */
  predicate SearchKeeps(a: Application, searchTerm: Option<string>) {
    searchTerm.None? || IsBlank(searchTerm.value) || Matches(a, Strip(Lower(searchTerm.value)))
  }

  function MatchesTerm(term: string): Application -> bool {
    (a: Application) => Matches(a, term)
  }

  function SearchApplications(apps: seq<Application>, searchTerm: Option<string>): (r: seq<Application>)
    ensures searchTerm.None? || IsBlank(searchTerm.value) ==> r == apps
    ensures forall a :: multiset(r)[a] == if SearchKeeps(a, searchTerm) then multiset(apps)[a] else 0
    ensures IsSubseq(r, apps)
  {
    if searchTerm.None? || Strip(searchTerm.value) == "" then
      StripBlank(if searchTerm.Some? then searchTerm.value else "");
      IsSubseqRefl(apps);
      apps
    else
      StripBlank(searchTerm.value);
      Filter(MatchesTerm(Strip(Lower(searchTerm.value))), apps)
  }

  /** Searching is case-insensitive in the term. */
  lemma SearchTermCaseInsensitive(apps: seq<Application>, t: string)
    ensures SearchApplications(apps, Some(Lower(t))) == SearchApplications(apps, Some(t))
  {
    var u := Lower(t);
    assert Lower(u) == u by {
      LowerOfNoUpper(u);
    }
    StripBlank(t);
    StripBlank(u);
    StripLowerCommute(t);
    assert (Strip(u) == "") == (Strip(t) == "");
  }

  /** A record whose lower-cased company contains the normalised term is found. */
  lemma SearchFindsCompany(apps: seq<Application>, t: string, i: int)
    requires 0 <= i < |apps|
    requires apps[i].company.Some?
    requires Contains(Lower(apps[i].company.value), Strip(Lower(t)))
    ensures apps[i] in SearchApplications(apps, Some(t))
  {
    var r := SearchApplications(apps, Some(t));
    assert apps[i] in multiset(apps);
    assert SearchKeeps(apps[i], Some(t));
    assert multiset(r)[apps[i]] > 0;
  }

  // ---------------------------------------------------------------------
  // Status, location and role filters
  // ---------------------------------------------------------------------

  predicate StatusKeeps(a: Application, sel: seq<string>) {
    sel == [] || (a.status.Some? && StatusName(a.status.value) in sel)
  }

  function StatusIn(sel: seq<string>): Application -> bool {
    (a: Application) => a.status.Some? && StatusName(a.status.value) in sel
  }

  function FilterByStatus(apps: seq<Application>, sel: Option<seq<string>>): (r: seq<Application>)
    ensures Selection(sel) == [] ==> r == apps
    ensures forall a :: multiset(r)[a] == if StatusKeeps(a, Selection(sel)) then multiset(apps)[a] else 0
    ensures IsSubseq(r, apps)
  {
    if Selection(sel) == [] then
      IsSubseqRefl(apps);
      apps
    else
      Filter(StatusIn(Selection(sel)), apps)
  }

  /** "remote" appears in the lower-cased title, notes or company. */
  predicate HasRemote(a: Application) {
    (a.jobTitle.Some? && Contains(Lower(a.jobTitle.value), "remote"))
    || (a.stageNotes.Some? && Contains(Lower(a.stageNotes.value), "remote"))
    || (a.company.Some? && Contains(Lower(a.company.value), "remote"))
  }

  /** The per-record decision of the location filter, test by test. */
  function LocationTest(sel: seq<string>): Application -> bool {
    (a: Application) =>
      if "remote" in sel && HasRemote(a) then true
      else if "onsite" in sel && !HasRemote(a) then true
      else if "hybrid" in sel then true
      else false
  }

  /** Hybrid keeps everything; remote keeps records that say remote, onsite the others. */
  predicate LocationKeeps(a: Application, sel: seq<string>) {
    sel == []
    || "hybrid" in sel
    || ("remote" in sel && HasRemote(a))
    || ("onsite" in sel && !HasRemote(a))
  }

  function FilterByLocationType(apps: seq<Application>, sel: Option<seq<string>>): (r: seq<Application>)
    ensures Selection(sel) == [] ==> r == apps
    ensures forall a :: multiset(r)[a] == if LocationKeeps(a, Selection(sel)) then multiset(apps)[a] else 0
    ensures IsSubseq(r, apps)
  {
    if Selection(sel) == [] then
      IsSubseqRefl(apps);
      apps
    else
      Filter(LocationTest(Selection(sel)), apps)
  }

  /** With "hybrid" selected the location filter keeps every record. */
  lemma HybridKeepsAll(apps: seq<Application>, sel: seq<string>)
    requires "hybrid" in sel
    ensures FilterByLocationType(apps, Some(sel)) == apps
  {
    FilterAll(LocationTest(sel), apps);
  }

  predicate HasInternship(a: Application) {
    Contains(LowerOr(a.jobTitle), "intern") || Contains(LowerOr(a.stageNotes), "intern")
  }

  predicate HasPartTime(a: Application) {
    var title := LowerOr(a.jobTitle);
    var notes := LowerOr(a.stageNotes);
    Contains(title, "part-time") || Contains(title, "part time")
    || Contains(notes, "part-time") || Contains(notes, "part time")
  }

  /** Full-time is stated explicitly, or is the default when nothing else is. */
  predicate HasFullTime(a: Application) {
    var title := LowerOr(a.jobTitle);
    var notes := LowerOr(a.stageNotes);
    Contains(title, "full-time") || Contains(title, "full time")
    || Contains(notes, "full-time") || Contains(notes, "full time")
    || (!HasInternship(a) && !HasPartTime(a))
  }

  function RoleTest(sel: seq<string>): Application -> bool {
    (a: Application) =>
      if "internship" in sel && HasInternship(a) then true
      else if "part-time" in sel && HasPartTime(a) then true
      else if "full-time" in sel && HasFullTime(a) then true
      else false
  }

  predicate RoleKeeps(a: Application, sel: seq<string>) {
    sel == []
    || ("internship" in sel && HasInternship(a))
    || ("part-time" in sel && HasPartTime(a))
    || ("full-time" in sel && HasFullTime(a))
  }

  function FilterByRoleType(apps: seq<Application>, sel: Option<seq<string>>): (r: seq<Application>)
    ensures Selection(sel) == [] ==> r == apps
    ensures forall a :: multiset(r)[a] == if RoleKeeps(a, Selection(sel)) then multiset(apps)[a] else 0
    ensures IsSubseq(r, apps)
  {
    if Selection(sel) == [] then
      IsSubseqRefl(apps);
      apps
    else
      Filter(RoleTest(Selection(sel)), apps)
  }

  /** Every record falls in at least one role category. */
  lemma RoleCategoriesCover(a: Application)
    ensures HasInternship(a) || HasPartTime(a) || HasFullTime(a)
  {
  }

  /** The "intern" keyword is a plain substring test: it also hits "internal". */
  lemma InternalCountsAsInternship()
    ensures HasInternship(Application(0, None, Some("Internal Tools Engineer"), None, None, None, 0))
  {
    var title := LowerOr(Some("Internal Tools Engineer"));
    assert title[..6] == "intern";
    assert OccursAt(title, "intern", 0);
  }

  // ---------------------------------------------------------------------
  // Sorting
  // ---------------------------------------------------------------------

  datatype SortField = ByDate | ByCompany | ByStatus | ByTitle

  /** The sortBy switch: any unrecognised value sorts by date. */
  function FieldOf(sortBy: string): (f: SortField)
    ensures sortBy == "company" <==> f == ByCompany
    ensures sortBy == "status" <==> f == ByStatus
    ensures sortBy == "title" <==> f == ByTitle
  {
    if sortBy == "company" then ByCompany
    else if sortBy == "status" then ByStatus
    else if sortBy == "title" then ByTitle
    else ByDate
  }

  /** Ascending only on exactly "asc"; a missing order defaults to "desc". */
  function IsAsc(sortOrder: Option<string>): bool {
    sortOrder == Some("asc")
  }

  /** offered > interviewed > applied > prepared > rejected > missing. */
  function StatusPriority(s: Option<Status>): (p: nat)
    ensures p <= 5
    ensures p == 0 <==> s.None?
  {
    match s
    case None => 0
    case Some(Offered) => 5
    case Some(Interviewed) => 4
    case Some(Applied) => 3
    case Some(Prepared) => 2
    case Some(Rejected) => 1
  }

  /** The priority order is strict: distinct statuses get distinct priorities. */
  lemma StatusPriorityInjective(s: Option<Status>, t: Option<Status>)
    requires StatusPriority(s) == StatusPriority(t)
    ensures s == t
  {
  }

  function SortKey(f: SortField, a: Application): Key {
    match f
    case ByDate => NumKey(a.applicationDate.GetOr(a.createdAt))
    case ByCompany => TextKey(LowerOr(a.company))
    case ByStatus => NumKey(StatusPriority(a.status))
    case ByTitle => TextKey(LowerOr(a.jobTitle))
  }

  function KeyOf(f: SortField): Application -> Key {
    (a: Application) => SortKey(f, a)
  }

  /**
   * A sorted permutation of a copy of the input; records with equal keys
   * keep their input order.
   */
  function SortApplications(apps: seq<Application>, sortBy: string, sortOrder: Option<string>): (r: seq<Application>)
    ensures multiset(r) == multiset(apps)
    ensures Sorted(r, KeyOf(FieldOf(sortBy)), IsAsc(sortOrder))
    ensures forall k :: KeyClass(r, KeyOf(FieldOf(sortBy)), k) == KeyClass(apps, KeyOf(FieldOf(sortBy)), k)
  {
    SortBy(apps, KeyOf(FieldOf(sortBy)), IsAsc(sortOrder))
  }

  /** An unknown sort criterion sorts exactly as "date" does. */
  lemma UnknownSortIsDate(apps: seq<Application>, sortBy: string, sortOrder: Option<string>)
    requires sortBy !in ["company", "status", "title"]
    ensures SortApplications(apps, sortBy, sortOrder) == SortApplications(apps, "date", sortOrder)
  {
    assert FieldOf(sortBy) == FieldOf("date");
  }

  /** Sorting by status in the default order puts every offered record first. */
  lemma StatusSortOfferedFirst(apps: seq<Application>, i: int, j: int)
    requires 0 <= i < j < |SortApplications(apps, "status", None)|
    requires SortApplications(apps, "status", None)[j].status == Some(Offered)
    ensures SortApplications(apps, "status", None)[i].status == Some(Offered)
  {
    var r := SortApplications(apps, "status", None);
    assert !Ahead(SortKey(ByStatus, r[j]), SortKey(ByStatus, r[i]), false);
  }

  /** Sorting a sorted list again changes nothing. */
  lemma SortIdempotent(apps: seq<Application>, sortBy: string, sortOrder: Option<string>)
    ensures SortApplications(SortApplications(apps, sortBy, sortOrder), sortBy, sortOrder)
         == SortApplications(apps, sortBy, sortOrder)
  {
    SortBySorted(SortApplications(apps, sortBy, sortOrder), KeyOf(FieldOf(sortBy)), IsAsc(sortOrder));
  }

  // ---------------------------------------------------------------------
  // The pipeline
  // ---------------------------------------------------------------------

  datatype Filters = Filters(
    searchTerm: Option<string>,
    statuses: Option<seq<string>>,
    locationTypes: Option<seq<string>>,
    roleTypes: Option<seq<string>>,
    sortBy: Option<string>,
    sortOrder: Option<string>)

  /** Sorting happens only for a truthy sortBy. */
  predicate SortActive(f: Filters) {
    f.sortBy.Some? && f.sortBy.value != ""
  }

  /** The conjunction of the four filters on one record. */
  predicate KeepAll(a: Application, f: Filters) {
    SearchKeeps(a, f.searchTerm)
    && StatusKeeps(a, Selection(f.statuses))
    && LocationKeeps(a, Selection(f.locationTypes))
    && RoleKeeps(a, Selection(f.roleTypes))
  }

  /** Each stage runs only when its field is truthy (a non-empty term or list). */
  function SearchStage(s: seq<Application>, f: Filters): (r: seq<Application>)
    ensures forall a :: multiset(r)[a] == if SearchKeeps(a, f.searchTerm) then multiset(s)[a] else 0
    ensures IsSubseq(r, s)
  {
    if f.searchTerm.Some? && f.searchTerm.value != "" then SearchApplications(s, f.searchTerm)
    else
      IsSubseqRefl(s);
      s
  }

  function StatusStage(s: seq<Application>, f: Filters): (r: seq<Application>)
    ensures forall a :: multiset(r)[a] == if StatusKeeps(a, Selection(f.statuses)) then multiset(s)[a] else 0
    ensures IsSubseq(r, s)
  {
    if Selection(f.statuses) != [] then FilterByStatus(s, f.statuses)
    else
      IsSubseqRefl(s);
      s
  }

  function LocationStage(s: seq<Application>, f: Filters): (r: seq<Application>)
    ensures forall a :: multiset(r)[a] == if LocationKeeps(a, Selection(f.locationTypes)) then multiset(s)[a] else 0
    ensures IsSubseq(r, s)
  {
    if Selection(f.locationTypes) != [] then FilterByLocationType(s, f.locationTypes)
    else
      IsSubseqRefl(s);
      s
  }

  function RoleStage(s: seq<Application>, f: Filters): (r: seq<Application>)
    ensures forall a :: multiset(r)[a] == if RoleKeeps(a, Selection(f.roleTypes)) then multiset(s)[a] else 0
    ensures IsSubseq(r, s)
  {
    if Selection(f.roleTypes) != [] then FilterByRoleType(s, f.roleTypes)
    else
      IsSubseqRefl(s);
      s
  }

  /** The four filter stages in the pipeline's order. */
  function FilterStages(apps: seq<Application>, f: Filters): (r: seq<Application>)
    ensures forall a :: multiset(r)[a] == if KeepAll(a, f) then multiset(apps)[a] else 0
    ensures IsSubseq(r, apps)
  {
    var s1 := SearchStage(apps, f);
    var s2 := StatusStage(s1, f);
    var s3 := LocationStage(s2, f);
    var s4 := RoleStage(s3, f);
    IsSubseqTransitive(s2, s1, apps);
    IsSubseqTransitive(s3, s2, apps);
    IsSubseqTransitive(s4, s3, apps);
    assert forall a :: multiset(s4)[a] == if KeepAll(a, f) then multiset(apps)[a] else 0 by {
      forall a ensures multiset(s4)[a] == if KeepAll(a, f) then multiset(apps)[a] else 0 {
        assert multiset(s1)[a] == if SearchKeeps(a, f.searchTerm) then multiset(apps)[a] else 0;
        assert multiset(s2)[a] == if StatusKeeps(a, Selection(f.statuses)) then multiset(s1)[a] else 0;
        assert multiset(s3)[a] == if LocationKeeps(a, Selection(f.locationTypes)) then multiset(s2)[a] else 0;
        assert multiset(s4)[a] == if RoleKeeps(a, Selection(f.roleTypes)) then multiset(s3)[a] else 0;
      }
    }
    s4
  }

  /**
   * Search, then status, then location, then role; then the sort when one is
   * requested. The result holds exactly the records every filter keeps, with
   * their multiplicity; sorted when a sort is requested, and otherwise in
   * input order.
   */
  function ProcessApplications(apps: seq<Application>, f: Filters): (r: seq<Application>)
    ensures forall a :: multiset(r)[a] == if KeepAll(a, f) then multiset(apps)[a] else 0
    ensures SortActive(f) ==> Sorted(r, KeyOf(FieldOf(f.sortBy.value)), IsAsc(f.sortOrder))
    ensures !SortActive(f) ==> IsSubseq(r, apps)
    ensures !SortActive(f) ==> r == FilterStages(apps, f)
    ensures SortActive(f) ==> r == SortApplications(FilterStages(apps, f), f.sortBy.value, f.sortOrder)
  {
    var kept := FilterStages(apps, f);
    if SortActive(f) then SortApplications(kept, f.sortBy.value, f.sortOrder) else kept
  }

  /** With nothing selected and no sort, the pipeline is the identity. */
  lemma ProcessNoFilters(apps: seq<Application>)
    ensures ProcessApplications(apps, Filters(None, None, None, None, None, None)) == apps
  {
  }

  /** A search term alone gives exactly the search result. */
  lemma ProcessSearchOnly(apps: seq<Application>, t: string)
    ensures ProcessApplications(apps, Filters(Some(t), None, None, None, None, None))
         == SearchApplications(apps, Some(t))
  {
    var f := Filters(Some(t), None, None, None, None, None);
    var s1 := SearchStage(apps, f);
    if t == "" {
      assert IsBlank(t);
    }
    assert s1 == SearchApplications(apps, Some(t));
    assert StatusStage(s1, f) == s1;
    assert LocationStage(s1, f) == s1;
    assert RoleStage(s1, f) == s1;
    assert FilterStages(apps, f) == s1;
  }

  /** Every filter stage keeps all of a list whose records all pass every filter. */
  lemma FilterStagesKeepKept(s: seq<Application>, f: Filters)
    requires forall i :: 0 <= i < |s| ==> KeepAll(s[i], f)
    ensures FilterStages(s, f) == s
  {
    if f.searchTerm.Some? && f.searchTerm.value != "" {
      StripBlank(f.searchTerm.value);
      if !IsBlank(f.searchTerm.value) {
        FilterAll(MatchesTerm(Strip(Lower(f.searchTerm.value))), s);
      }
    }
    assert SearchStage(s, f) == s;
    if Selection(f.statuses) != [] {
      FilterAll(StatusIn(Selection(f.statuses)), s);
    }
    assert StatusStage(s, f) == s;
    if Selection(f.locationTypes) != [] {
      FilterAll(LocationTest(Selection(f.locationTypes)), s);
    }
    assert LocationStage(s, f) == s;
    if Selection(f.roleTypes) != [] {
      FilterAll(RoleTest(Selection(f.roleTypes)), s);
    }
    assert RoleStage(s, f) == s;
  }

  /** Processing an already processed list with the same filters changes nothing. */
  lemma ProcessIdempotent(apps: seq<Application>, f: Filters)
    ensures ProcessApplications(ProcessApplications(apps, f), f) == ProcessApplications(apps, f)
  {
    var r := ProcessApplications(apps, f);
    forall i | 0 <= i < |r| ensures KeepAll(r[i], f) {
      assert r[i] in multiset(r);
    }
    FilterStagesKeepKept(r, f);
    if SortActive(f) {
      SortBySorted(r, KeyOf(FieldOf(f.sortBy.value)), IsAsc(f.sortOrder));
    }
  }

  // ---------------------------------------------------------------------
  // Filter options
  // ---------------------------------------------------------------------

  datatype SortOption = SortOption(value: string, caption: string)

  datatype FilterOptions = FilterOptions(
    statuses: seq<string>,
    locationTypes: seq<string>,
    roleTypes: seq<string>,
    sortOptions: seq<SortOption>)

  /** The truthy status values of the records, in record order. */
  function PresentStatuses(apps: seq<Application>): (r: seq<string>)
    ensures forall x :: x in r <==> exists a :: a in apps && a.status.Some? && StatusName(a.status.value) == x
    decreases |apps|
  {
    if apps == [] then []
    else
      var rest := PresentStatuses(apps[1..]);
      assert apps == [apps[0]] + apps[1..];
      if apps[0].status.Some? then [StatusName(apps[0].status.value)] + rest else rest
  }

  const SortOptions: seq<SortOption> := [
    SortOption("date", "Application Date"),
    SortOption("company", "Company Name"),
    SortOption("status", "Status Priority"),
    SortOption("title", "Job Title")]

  /**
   * The statuses that occur, each once and in ascending order, next to the
   * fixed location, role and sort choices.
   */
  function GetFilterOptions(apps: seq<Application>): (r: FilterOptions)
    ensures StrictlyIncreasing(r.statuses)
    ensures forall x :: x in r.statuses <==> exists a :: a in apps && a.status.Some? && StatusName(a.status.value) == x
    ensures r.locationTypes == ["remote", "hybrid", "onsite"]
    ensures r.roleTypes == ["full-time", "part-time", "internship"]
    ensures r.sortOptions == SortOptions
  {
    SortDistinctMembers(PresentStatuses(apps));
    FilterOptions(SortStrings(Distinct(PresentStatuses(apps))), ["remote", "hybrid", "onsite"], ["full-time", "part-time", "internship"], SortOptions)
  }

  /** Each offered sort option selects a distinct field of the sort switch. */
  lemma SortOptionsSelectDistinctFields()
    ensures forall i, j :: 0 <= i < j < |SortOptions| ==> FieldOf(SortOptions[i].value) != FieldOf(SortOptions[j].value)
  {
  }

  /** Each offered location and role choice is one the filters test for. */
  lemma OfferedChoicesAreTested(a: Application)
    ensures LocationKeeps(a, ["hybrid"])
    ensures LocationKeeps(a, ["remote"]) <==> HasRemote(a)
    ensures LocationKeeps(a, ["onsite"]) <==> !HasRemote(a)
    ensures RoleKeeps(a, ["internship"]) <==> HasInternship(a)
    ensures RoleKeeps(a, ["part-time"]) <==> HasPartTime(a)
    ensures RoleKeeps(a, ["full-time"]) <==> HasFullTime(a)
  {
  }
}
