/**
 * The job-description list page: the search, level and company filters over
 * the loaded list, the company choices offered by the company filter, and the
 * create, update and delete handlers that edit the in-memory list after the
 * server has answered.
 *
 * The server calls are not modelled: each handler takes the server's answer
 * (the record it returned, or a failure) as a parameter.
 */
module JdPage {
  import opened Wrappers
  import opened Text
  import opened Seqs

  /** A job description as the list holds it; the fields the page reads are nullable. */
  datatype JD = JD(
    id: int,
    company: Option<string>,
    role: Option<string>,
    location: Option<string>,
    level: Option<string>)

  /** The create form: every input is a string, "" while untouched. */
  datatype JDForm = JDForm(
    company: string,
    role: string,
    location: string,
    level: string,
    employmentType: string,
    salaryMin: string,
    salaryMax: string)

  const EmptyForm: JDForm := JDForm("", "", "", "", "", "", "")

  /** The four inputs of the create form. */
  datatype FormField = CompanyInput | RoleInput | LocationInput | LevelInput

  function FieldValue(form: JDForm, field: FormField): string {
    match field
    case CompanyInput => form.company
    case RoleInput => form.role
    case LocationInput => form.location
    case LevelInput => form.level
  }

  /** `{...newJD, field: value}`: the edited input holds the value, everything else is kept. */
  function WithField(form: JDForm, field: FormField, value: string): (r: JDForm)
    ensures FieldValue(r, field) == value
    ensures forall g :: g != field ==> FieldValue(r, g) == FieldValue(form, g)
    ensures r.employmentType == form.employmentType && r.salaryMin == form.salaryMin && r.salaryMax == form.salaryMax
  {
    match field
    case CompanyInput => form.(company := value)
    case RoleInput => form.(role := value)
    case LocationInput => form.(location := value)
    case LevelInput => form.(level := value)
  }

  /** The outcome of a server call: the value it resolved with, or a rejection. */
  datatype Reply<T> = Resolved(value: T) | Rejected

  const LoadError: string := "Failed to load job descriptions. Please try again."
  const RequiredError: string := "Company and role are required fields."
  const CreateError: string := "Failed to create job description. Please try again."
  const UpdateError: string := "Failed to update job description. Please try again."
  const DeleteError: string := "Failed to delete job description. Please try again."

  // ---------------------------------------------------------------------
  // filteredJDs
  // ---------------------------------------------------------------------

  /** `field?.toLowerCase().includes(term.toLowerCase())`: a missing field never matches. */
  predicate FieldIncludes(field: Option<string>, term: string) {
    field.Some? && Contains(Lower(field.value), Lower(term))
  }

  /** The search box: the untrimmed term "" shows everything. */
  predicate MatchesSearch(jd: JD, term: string) {
    term == "" || FieldIncludes(jd.company, term) || FieldIncludes(jd.role, term) || FieldIncludes(jd.location, term)
  }

  /** The level and company selects: "" shows everything, otherwise the field must be exactly the choice. */
  predicate MatchesChoice(field: Option<string>, choice: string) {
    choice == "" || field == Some(choice)
  }

  predicate Shown(jd: JD, term: string, level: string, company: string) {
    MatchesSearch(jd, term) && MatchesChoice(jd.level, level) && MatchesChoice(jd.company, company)
  }

  function ShownTest(term: string, level: string, company: string): JD -> bool {
    (jd: JD) => Shown(jd, term, level, company)
  }

  /** The list on screen: the shown records, in list order. */
  function FilteredJDs(list: seq<JD>, term: string, level: string, company: string): (r: seq<JD>)
    ensures IsSubseq(r, list) && |r| <= |list|
    ensures forall jd :: jd in r <==> jd in list && Shown(jd, term, level, company)
    ensures forall jd :: multiset(r)[jd] == if Shown(jd, term, level, company) then multiset(list)[jd] else 0
  {
    var r := Filter(ShownTest(term, level, company), list);
    forall jd ensures jd in r <==> jd in list && Shown(jd, term, level, company) {
      assert jd in r <==> multiset(r)[jd] > 0;
      assert jd in list <==> multiset(list)[jd] > 0;
    }
    r
  }

  /** With all three controls cleared the whole list is shown. */
  lemma FilteredJDsCleared(list: seq<JD>)
    ensures FilteredJDs(list, "", "", "") == list
  {
    FilterAll(ShownTest("", "", ""), list);
  }

  /** The search ignores case in the term. */
  lemma SearchIgnoresTermCase(jd: JD, term: string)
    ensures MatchesSearch(jd, term) <==> MatchesSearch(jd, Lower(term))
  {
    LowerOfNoUpper(Lower(term));
  }

  /** The search term is not trimmed: a lone space only shows records with a space in a searched field. */
  lemma SpaceIsSearched(jd: JD)
    requires jd.company == Some("Acme") && jd.role == None && jd.location == None
    ensures !MatchesSearch(jd, " ")
  {
    var c := Lower("Acme");
    assert Lower(" ") == " ";
    forall i | 0 <= i <= |c| ensures !OccursAt(c, " ", i) {
      if i < |c| {
        assert c[i] != ' ';
      }
    }
  }

  // ---------------------------------------------------------------------
  // uniqueCompanies
  // ---------------------------------------------------------------------

  /** `jdList.map(jd => jd.company).filter(Boolean)`: the present, non-empty companies in list order. */
  function CompanyNames(list: seq<JD>): (r: seq<string>)
    ensures forall c :: c in r <==> c != "" && exists i :: 0 <= i < |list| && list[i].company == Some(c)
    decreases |list|
  {
    if list == [] then []
    else
      var rest := CompanyNames(list[1..]);
      assert forall i :: 1 <= i < |list| ==> list[i] == list[1..][i - 1];
      var c := list[0].company;
      if c.Some? && c.value != "" then [c.value] + rest else rest
  }

  /** `[...new Set(names)]`: each company once, in order of first appearance. */
  function UniqueCompanies(list: seq<JD>): (r: seq<string>)
    ensures NoDups(r)
    ensures forall c :: c in r <==> c in CompanyNames(list)
    ensures forall c :: c in r <==> c != "" && exists i :: 0 <= i < |list| && list[i].company == Some(c)
    ensures forall i, j :: 0 <= i < j < |r| ==> FirstIndex(CompanyNames(list), r[i]) < FirstIndex(CompanyNames(list), r[j])
  {
    Distinct(CompanyNames(list))
  }

  /** Every company offered by the company filter shows at least one record when chosen alone. */
  lemma ChosenCompanyShowsSome(list: seq<JD>, c: string)
    requires c in UniqueCompanies(list)
    ensures FilteredJDs(list, "", "", c) != []
  {
    var i :| 0 <= i < |list| && list[i].company == Some(c);
    assert list[i] in list;
    assert Shown(list[i], "", "", c);
  }

  // ---------------------------------------------------------------------
  // List updates
  // ---------------------------------------------------------------------

  /** `prev.map(jd => jd.id === id ? updated : jd)`. */
  function ReplaceById(list: seq<JD>, id: int, updated: JD): (r: seq<JD>)
    ensures |r| == |list|
    ensures forall i :: 0 <= i < |list| ==> r[i] == if list[i].id == id then updated else list[i]
  {
    seq(|list|, i requires 0 <= i < |list| => if list[i].id == id then updated else list[i])
  }

  /** Replacing an id nobody has changes nothing. */
  lemma ReplaceByIdAbsent(list: seq<JD>, id: int, updated: JD)
    requires forall i :: 0 <= i < |list| ==> list[i].id != id
    ensures ReplaceById(list, id, updated) == list
  {
  }

  /** After a replacement every record with that id is the returned one; the others are where they were. */
  lemma ReplaceByIdResult(list: seq<JD>, id: int, updated: JD)
    ensures forall jd: JD :: jd in ReplaceById(list, id, updated) && jd.id == id ==> jd == updated
    ensures forall i :: 0 <= i < |list| && list[i].id != id ==> ReplaceById(list, id, updated)[i] == list[i]
  {
  }

  function IdIsNot(id: int): JD -> bool {
    (jd: JD) => jd.id != id
  }

  /** `prev.filter(jd => jd.id !== id)`. */
  function RemoveById(list: seq<JD>, id: int): (r: seq<JD>)
    ensures IsSubseq(r, list)
    ensures forall jd :: jd in r <==> jd in list && jd.id != id
    ensures forall jd: JD :: jd.id != id ==> multiset(r)[jd] == multiset(list)[jd]
  {
    var r := Filter(IdIsNot(id), list);
    forall jd ensures jd in r <==> jd in list && jd.id != id {
      assert jd in r <==> multiset(r)[jd] > 0;
      assert jd in list <==> multiset(list)[jd] > 0;
    }
    r
  }

  /** Removing an id nobody has changes nothing. */
  lemma RemoveByIdAbsent(list: seq<JD>, id: int)
    requires forall i :: 0 <= i < |list| ==> list[i].id != id
    ensures RemoveById(list, id) == list
  {
    FilterAll(IdIsNot(id), list);
  }

  /** Removing after replacing the same id is just removing it. */
  lemma {:induction false} RemoveAfterReplace(list: seq<JD>, id: int, updated: JD)
    requires updated.id == id
    ensures RemoveById(ReplaceById(list, id, updated), id) == RemoveById(list, id)
    decreases |list|
  {
    if list != [] {
      var t := list[1..];
      RemoveAfterReplace(t, id, updated);
      assert ReplaceById(list, id, updated)[1..] == ReplaceById(t, id, updated);
    }
  }

  // ---------------------------------------------------------------------
  // The page state
  // ---------------------------------------------------------------------

  /** The page's state variables (the `loading` flag is back to false after every handler and is left out). */
  class JDPageState {
    var jdList: seq<JD>
    var error: Option<string>
    var newJD: JDForm
    var showCreateForm: bool
    var searchTerm: string
    var filterLevel: string
    var filterCompany: string

    /** The initial state of every useState. */
    constructor ()
      ensures jdList == [] && error == None && newJD == EmptyForm && !showCreateForm
      ensures searchTerm == "" && filterLevel == "" && filterCompany == ""
    {
      jdList := [];
      error := None;
      newJD := EmptyForm;
      showCreateForm := false;
      searchTerm := "";
      filterLevel := "";
      filterCompany := "";
    }

    /** The records on screen for the current controls. */
    function Visible(): seq<JD>
      reads this
    {
      FilteredJDs(jdList, searchTerm, filterLevel, filterCompany)
    }

    /** loadJDs: the error is cleared first; the fetched list replaces the old one, or the load error is shown. */
    method LoadJDs(reply: Reply<seq<JD>>)
      modifies this
      ensures reply.Resolved? ==> jdList == reply.value && error == None
      ensures reply.Rejected? ==> jdList == old(jdList) && error == Some(LoadError)
      ensures newJD == old(newJD) && showCreateForm == old(showCreateForm)
      ensures searchTerm == old(searchTerm) && filterLevel == old(filterLevel) && filterCompany == old(filterCompany)
    {
      error := None;
      if reply.Resolved? {
        jdList := reply.value;
      } else {
        error := Some(LoadError);
      }
    }

    /**
     * handleCreateJD. `requested` tells whether the server was asked at all:
     * a form without company or role is refused before any call.
     */
    method HandleCreateJD(reply: Reply<JD>) returns (requested: bool)
      modifies this
      ensures requested <==> old(newJD).company != "" && old(newJD).role != ""
      ensures !requested ==> jdList == old(jdList) && error == Some(RequiredError)
                              && newJD == old(newJD) && showCreateForm == old(showCreateForm)
      ensures requested && reply.Resolved? ==>
        jdList == [reply.value] + old(jdList) && newJD == EmptyForm && !showCreateForm && error == None
      ensures requested && reply.Rejected? ==>
        jdList == old(jdList) && error == Some(CreateError) && newJD == old(newJD) && showCreateForm == old(showCreateForm)
      ensures searchTerm == old(searchTerm) && filterLevel == old(filterLevel) && filterCompany == old(filterCompany)
    {
      if newJD.company == "" || newJD.role == "" {
        error := Some(RequiredError);
        return false;
      }
      requested := true;
      if reply.Resolved? {
        jdList := [reply.value] + jdList;
        newJD := EmptyForm;
        showCreateForm := false;
        error := None;
      } else {
        error := Some(CreateError);
      }
    }

    /** handleUpdateJD: every record with the id becomes the returned one. */
    method HandleUpdateJD(id: int, reply: Reply<JD>)
      modifies this
      ensures reply.Resolved? ==> jdList == ReplaceById(old(jdList), id, reply.value) && error == None
      ensures reply.Rejected? ==> jdList == old(jdList) && error == Some(UpdateError)
      ensures newJD == old(newJD) && showCreateForm == old(showCreateForm)
      ensures searchTerm == old(searchTerm) && filterLevel == old(filterLevel) && filterCompany == old(filterCompany)
    {
      if reply.Resolved? {
        jdList := ReplaceById(jdList, id, reply.value);
        error := None;
      } else {
        error := Some(UpdateError);
      }
    }

    /** handleDeleteJD: nothing happens unless the user confirms; then every record with the id goes. */
    method HandleDeleteJD(id: int, confirmed: bool, reply: Reply<()>) returns (requested: bool)
      modifies this
      ensures requested == confirmed
      ensures !confirmed ==> jdList == old(jdList) && error == old(error)
      ensures confirmed && reply.Resolved? ==> jdList == RemoveById(old(jdList), id) && error == None
      ensures confirmed && reply.Rejected? ==> jdList == old(jdList) && error == Some(DeleteError)
      ensures newJD == old(newJD) && showCreateForm == old(showCreateForm)
      ensures searchTerm == old(searchTerm) && filterLevel == old(filterLevel) && filterCompany == old(filterCompany)
    {
      if !confirmed {
        return false;
      }
      requested := true;
      if reply.Resolved? {
        jdList := RemoveById(jdList, id);
        error := None;
      } else {
        error := Some(DeleteError);
      }
    }

    /** The "Add New JD" / "Cancel" button. */
    method ToggleCreateForm()
      modifies this
      ensures showCreateForm == !old(showCreateForm)
      ensures jdList == old(jdList) && error == old(error) && newJD == old(newJD)
      ensures searchTerm == old(searchTerm) && filterLevel == old(filterLevel) && filterCompany == old(filterCompany)
    {
      showCreateForm := !showCreateForm;
    }

    /** Typing in one input of the create form. */
    method EditForm(field: FormField, value: string)
      modifies this
      ensures newJD == WithField(old(newJD), field, value)
      ensures jdList == old(jdList) && error == old(error) && showCreateForm == old(showCreateForm)
      ensures searchTerm == old(searchTerm) && filterLevel == old(filterLevel) && filterCompany == old(filterCompany)
    {
      newJD := WithField(newJD, field, value);
    }

    /** The form's "Cancel" button and the empty list's "add" button set the flag outright. */
    method SetShowCreateForm(show: bool)
      modifies this
      ensures showCreateForm == show
      ensures jdList == old(jdList) && error == old(error) && newJD == old(newJD)
      ensures searchTerm == old(searchTerm) && filterLevel == old(filterLevel) && filterCompany == old(filterCompany)
    {
      showCreateForm := show;
    }

    /** Typing in the search box or picking a level or company changes the controls only. */
    method SetControls(term: string, level: string, company: string)
      modifies this
      ensures searchTerm == term && filterLevel == level && filterCompany == company
      ensures jdList == old(jdList) && error == old(error) && newJD == old(newJD) && showCreateForm == old(showCreateForm)
    {
      searchTerm := term;
      filterLevel := level;
      filterCompany := company;
    }
  }

  /** A created record is on screen right after creation when the controls are cleared. */
  lemma CreatedIsShown(list: seq<JD>, created: JD)
    ensures created in FilteredJDs([created] + list, "", "", "")
  {
    FilteredJDsCleared([created] + list);
  }

  /** A deleted id is gone from the screen, whatever the controls. */
  lemma DeletedIsHidden(list: seq<JD>, id: int, term: string, level: string, company: string)
    ensures forall jd :: jd in FilteredJDs(RemoveById(list, id), term, level, company) ==> jd.id != id
  {
  }
}
