/**
 * The filter and sort controls of the application list: toggling a value
 * in one of the three selection lists, the active-filter badge, the
 * `sortBy:sortOrder` value of the sort select, and the display labels.
 */
module ApplicationControls {
  import opened Wrappers
  import opened Text
  import opened Seqs
  import opened Records
  import opened ApplicationUtils

  // ---------------------------------------------------------------------
  // Selection lists
  // ---------------------------------------------------------------------

  function IsNot(v: string): string -> bool {
    (x: string) => x != v
  }

  /**
   * The shared shape of the status, location and role handlers: a value
   * already selected is removed (every occurrence of it), any other value
   * is appended.
   */
  function Toggle(list: seq<string>, v: string): (r: seq<string>)
    ensures forall x :: x in r <==> if x == v then v !in list else x in list
    ensures v in list ==> IsSubseq(r, list) && forall x :: x != v ==> multiset(r)[x] == multiset(list)[x]
    ensures v !in list ==> r == list + [v]
  {
    if v in list then
      var r := Filter(IsNot(v), list);
      forall x ensures x in r <==> x != v && x in list {
        assert x in r <==> multiset(r)[x] > 0;
        assert x in list <==> multiset(list)[x] > 0;
      }
      r
    else
      list + [v]
  }

  /** Selecting a value and then deselecting it restores the list. */
  lemma ToggleTwice(list: seq<string>, v: string)
    requires v !in list
    ensures Toggle(Toggle(list, v), v) == list
  {
    forall i | 0 <= i < |list| ensures IsNot(v)(list[i]) {
      assert list[i] in list;
    }
    FilterAll(IsNot(v), list);
    FilterConcat(IsNot(v), list, [v]);
    assert Filter(IsNot(v), [v]) == [] by {
      assert [v][1..] == [];
    }
  }

  /**
   * Deselecting and then reselecting a selected value does not restore the
   * list: the value moves to the end and its duplicates are gone.
   */
  lemma ToggleTwiceSelected(list: seq<string>, v: string)
    requires v in list
    ensures Toggle(Toggle(list, v), v) == Filter(IsNot(v), list) + [v]
  {
    assert v !in Toggle(list, v);
  }

  lemma CountsNoDups(s: seq<string>)
    requires forall x :: multiset(s)[x] <= 1
    ensures NoDups(s)
  {
    forall i, j | 0 <= i < j < |s| ensures s[i] != s[j] {
      if s[i] == s[j] {
        DupCount(s, i, j);
        assert false;
      }
    }
  }

  /**
   * A list built only by toggling never holds a value twice, and each toggle
   * changes its length by exactly one.
   */
  lemma ToggleKeepsDistinct(list: seq<string>, v: string)
    requires NoDups(list)
    ensures NoDups(Toggle(list, v))
    ensures |Toggle(list, v)| == if v in list then |list| - 1 else |list| + 1
  {
    NoDupsCount(list);
    var r := Toggle(list, v);
    if v in list {
      assert multiset(list)[v] == 1;
      assert multiset(r) + multiset{v} == multiset(list);
      CountsNoDups(r);
    } else {
      assert multiset(r) == multiset(list) + multiset{v};
      CountsNoDups(r);
    }
  }

  /** The badge on the filter button. */
  function ActiveFilterCount(statuses: seq<string>, locations: seq<string>, roles: seq<string>): (n: nat)
    ensures n == |statuses| + |locations| + |roles|
    ensures n == 0 <==> statuses == [] && locations == [] && roles == []
  {
    |statuses| + |locations| + |roles|
  }

  /** Toggling one status moves the badge by one when no status is selected twice. */
  lemma ToggleStatusCount(statuses: seq<string>, locations: seq<string>, roles: seq<string>, v: string)
    requires NoDups(statuses)
    ensures ActiveFilterCount(Toggle(statuses, v), locations, roles)
         == if v in statuses then ActiveFilterCount(statuses, locations, roles) - 1
            else ActiveFilterCount(statuses, locations, roles) + 1
  {
    ToggleKeepsDistinct(statuses, v);
  }

  // ---------------------------------------------------------------------
  // Sort select
  // ---------------------------------------------------------------------

  /**
   * The select's value, `${sortBy}:${sortOrder}`. Decoding it gives the
   * choice back when neither half holds a colon.
   */
  function EncodeSortValue(sortBy: string, sortOrder: string): (r: string)
    ensures ':' !in sortBy && ':' !in sortOrder ==> DecodeSortValue(r) == SortChoice(sortBy, Some(sortOrder))
  {
    if ':' !in sortBy && ':' !in sortOrder then
      assert sortBy + ":" + sortOrder == sortBy + [':'] + sortOrder;
      SplitFirst(sortBy, ':', sortOrder);
      SplitNoSep(sortOrder, ':');
      sortBy + ":" + sortOrder
    else sortBy + ":" + sortOrder
  }

  /**
   * `const [newSortBy, newSortOrder] = value.split(':')`: the first two
   * pieces; a value without a colon leaves the order undefined.
   */
  datatype SortChoice = SortChoice(sortBy: string, sortOrder: Option<string>)

  function DecodeSortValue(value: string): (r: SortChoice)
    ensures ':' !in r.sortBy
    ensures r.sortOrder.Some? ==> ':' !in r.sortOrder.value
    ensures r.sortOrder.None? <==> ':' !in value
  {
    var parts := Split(value, ':');
    SplitSinglePiece(value, ':');
    SortChoice(parts[0], if |parts| > 1 then Some(parts[1]) else None)
  }

  /** A value without a colon is taken whole as the field, with no order. */
  lemma SortValueWithoutOrder(value: string)
    requires ':' !in value
    ensures DecodeSortValue(value) == SortChoice(value, None)
  {
    SplitNoSep(value, ':');
  }

  /** A value with exactly one colon is the encoding of what it decodes to. */
  lemma {:induction false} SortValueEncodesDecoded(value: string)
    requires |Split(value, ':')| == 2
    ensures DecodeSortValue(value).sortOrder.Some?
    ensures EncodeSortValue(DecodeSortValue(value).sortBy, DecodeSortValue(value).sortOrder.value) == value
  {
    var parts := Split(value, ':');
    JoinSplit(value, ':');
    assert Join(parts[1..], ":") == parts[1];
  }

  /** The select's options: for each sort option, its newest-first and oldest-first values. */
  function OfferedSortValues(options: seq<SortOption>): (r: seq<string>)
    ensures |r| == 2 * |options|
    ensures forall i :: 0 <= i < |options| ==>
      r[2 * i] == EncodeSortValue(options[i].value, "desc") && r[2 * i + 1] == EncodeSortValue(options[i].value, "asc")
    decreases |options|
  {
    if options == [] then []
    else
      [EncodeSortValue(options[0].value, "desc"), EncodeSortValue(options[0].value, "asc")]
        + OfferedSortValues(options[1..])
  }

  lemma SortOptionValuesPlain()
    ensures forall i :: 0 <= i < |SortOptions| ==> ':' !in SortOptions[i].value
  {
    assert ':' !in "date" && ':' !in "company";
    assert ':' !in "status" && ':' !in "title";
  }

  /**
   * Every value the select offers decodes to one of the offered sort fields
   * and the order it was built with.
   */
  lemma OfferedSortValuesDecode(i: nat)
    requires i < |OfferedSortValues(SortOptions)|
    ensures DecodeSortValue(OfferedSortValues(SortOptions)[i])
         == SortChoice(SortOptions[i / 2].value, Some(if i % 2 == 0 then "desc" else "asc"))
  {
    SortOptionValuesPlain();
    var k := i / 2;
    assert i == 2 * k || i == 2 * k + 1;
  }

  /** The default choice, date newest first, is one of the offered values. */
  lemma DefaultSortIsOffered()
    ensures EncodeSortValue("date", "desc") in OfferedSortValues(SortOptions)
  {
    assert OfferedSortValues(SortOptions)[0] == EncodeSortValue("date", "desc");
  }

  // ---------------------------------------------------------------------
  // Display labels
  // ---------------------------------------------------------------------

  /** `status.charAt(0).toUpperCase() + status.slice(1)`. */
  function FormatStatusDisplay(status: string): (r: string)
    ensures |r| == |status|
    ensures status != [] ==> r[0] == UpperChar(status[0]) && r[1..] == status[1..]
    ensures Lower(r) == Lower(status)
  {
    if status == [] then "" else [UpperChar(status[0])] + status[1..]
  }

  /** Every stored status is shown with a capital initial. */
  lemma StatusDisplayCapitalised(s: Status)
    ensures IsUpper(FormatStatusDisplay(StatusName(s))[0])
  {
  }

  /** `displayMap[key] || key`: a key with a non-empty label shows the label. */
  function DisplayOr(labels: map<string, string>, key: string): (r: string)
    ensures key in labels && labels[key] != "" ==> r == labels[key]
    ensures key !in labels ==> r == key
  {
    if key in labels && labels[key] != "" then labels[key] else key
  }

  const LocationLabels: map<string, string> := map["remote" := "Remote", "hybrid" := "Hybrid", "onsite" := "On-site"]

  const RoleLabels: map<string, string> := map["full-time" := "Full-time", "part-time" := "Part-time", "internship" := "Internship"]

  /** The three location keys get fixed labels; any other key is shown as it is. */
  function FormatLocationDisplay(location: string): (r: string)
    ensures location == "remote" ==> r == "Remote"
    ensures location == "hybrid" ==> r == "Hybrid"
    ensures location == "onsite" ==> r == "On-site"
    ensures location !in ["remote", "hybrid", "onsite"] ==> r == location
  {
    DisplayOr(LocationLabels, location)
  }

  /** The three role keys get fixed labels; any other key is shown as it is. */
  function FormatRoleDisplay(role: string): (r: string)
    ensures role == "full-time" ==> r == "Full-time"
    ensures role == "part-time" ==> r == "Part-time"
    ensures role == "internship" ==> r == "Internship"
    ensures role !in ["full-time", "part-time", "internship"] ==> r == role
  {
    DisplayOr(RoleLabels, role)
  }

  /** Each location and role choice the controls offer has its own label. */
  lemma OfferedChoicesLabelled(apps: seq<Application>)
    ensures forall i :: 0 <= i < |GetFilterOptions(apps).locationTypes| ==>
      GetFilterOptions(apps).locationTypes[i] in LocationLabels
      && FormatLocationDisplay(GetFilterOptions(apps).locationTypes[i]) == LocationLabels[GetFilterOptions(apps).locationTypes[i]]
    ensures forall i :: 0 <= i < |GetFilterOptions(apps).roleTypes| ==>
      GetFilterOptions(apps).roleTypes[i] in RoleLabels
      && FormatRoleDisplay(GetFilterOptions(apps).roleTypes[i]) == RoleLabels[GetFilterOptions(apps).roleTypes[i]]
  {
    var o := GetFilterOptions(apps);
    assert o.locationTypes == ["remote", "hybrid", "onsite"];
    assert o.roleTypes == ["full-time", "part-time", "internship"];
  }
}
