/** The employee list operations of the dashboard: the summary counts, the search/filter
    pipeline, and the four ways the list is replaced (add, edit, delete, toggle). Each is a
    function from the current list and the user's inputs to the list shown or stored next. */
module EmployeeList {
  import opened ListOps
  import opened Text
  import opened Employees
  import opened Validation

  // ---------------------------------------------------------------------------------
  // Summary counts

  function IsActive(e: Employee): bool { e.isActive }
  function IsInactive(e: Employee): bool { !e.isActive }

  /** `employees.filter((e) => e.isActive).length`. */
  function ActiveCount(es: seq<Employee>): (n: nat)
    ensures n <= |es|
  {
    |Filter(es, IsActive)|
  }

  /** The active card shows the total exactly when every record is active. */
  lemma {:induction false} AllActiveIff(es: seq<Employee>)
    ensures ActiveCount(es) == |es| <==> forall i :: 0 <= i < |es| ==> es[i].isActive
  {
    FilterSplitsLength(es, IsActive, IsInactive);
    if forall i :: 0 <= i < |es| ==> es[i].isActive {
      FilterKeepsAll(es, IsActive);
    } else {
      var i :| 0 <= i < |es| && !es[i].isActive;
      assert IsInactive(es[i]);
      assert es[i] in Filter(es, IsInactive);
    }
  }

  /** `total - activeCount`, which is never negative and is the number of inactive
      records. */
  function InactiveCount(es: seq<Employee>): (n: int)
    ensures 0 <= n <= |es|
    ensures n == |Filter(es, IsInactive)|
  {
    FilterSplitsLength(es, IsActive, IsInactive);
    |es| - ActiveCount(es)
  }

  /** The three summary cards: the counts add up, neither is negative, and the inactive
      card, computed as a difference, is exactly the number of inactive records. */
  lemma {:induction false} SummaryCounts(es: seq<Employee>)
    ensures 0 <= ActiveCount(es) <= |es|
    ensures ActiveCount(es) + InactiveCount(es) == |es|
    ensures InactiveCount(es) == |Filter(es, IsInactive)|
  {
    FilterSplitsLength(es, IsActive, IsInactive);
  }

  // ---------------------------------------------------------------------------------
  // Search and filters

  /** Stage one: the lowered name contains the lowered search text. */
  predicate NameMatches(e: Employee, search: string)
  {
    Includes(Lower(e.name), Lower(search))
  }

  /** Stage two: an empty gender filter accepts everyone, any other value only that gender. */
  predicate GenderMatches(e: Employee, genderFilter: string)
  {
    if genderFilter != "" then e.gender == genderFilter else true
  }

  /** Stage three: "" accepts everyone, "active" the active records, anything else the
      inactive ones. */
  predicate StatusMatches(e: Employee, statusFilter: string)
  {
    if statusFilter == "" then true
    else if statusFilter == "active" then e.isActive
    else !e.isActive
  }

  function ByName(search: string): Employee -> bool { e => NameMatches(e, search) }
  function ByGender(genderFilter: string): Employee -> bool { e => GenderMatches(e, genderFilter) }
  function ByStatus(statusFilter: string): Employee -> bool { e => StatusMatches(e, statusFilter) }

  /** `filteredEmployees`: three `.filter` stages, one after the other. Every record it
      yields is a record of the list that passes all three. */
  function FilteredEmployees(es: seq<Employee>, search: string, genderFilter: string, statusFilter: string): (r: seq<Employee>)
    ensures |r| <= |es|
    ensures forall e :: e in r ==> e in es && Shown(e, search, genderFilter, statusFilter)
  {
    Filter(Filter(Filter(es, ByName(search)), ByGender(genderFilter)), ByStatus(statusFilter))
  }

  /** A record is shown when it passes all three stages. */
  predicate Shown(e: Employee, search: string, genderFilter: string, statusFilter: string)
  {
    NameMatches(e, search) && GenderMatches(e, genderFilter) && StatusMatches(e, statusFilter)
  }

  /** The staged pipeline is one filter by the conjunction of the three conditions. */
  lemma {:induction false} FilteredIsOnePass(es: seq<Employee>, search: string, genderFilter: string, statusFilter: string)
    ensures FilteredEmployees(es, search, genderFilter, statusFilter)
         == Filter(es, e => Shown(e, search, genderFilter, statusFilter))
  {
    var nameAndGender := e => NameMatches(e, search) && GenderMatches(e, genderFilter);
    FilterTwice(es, ByName(search), ByGender(genderFilter), nameAndGender);
    FilterTwice(es, nameAndGender, ByStatus(statusFilter), e => Shown(e, search, genderFilter, statusFilter));
  }

  /** What the table shows: records of the list, in list order; each shown record passes
      the name, gender and status conditions; and every record of the list that passes
      all three is shown. */
  lemma {:induction false} FilteredSoundAndComplete(es: seq<Employee>, search: string, genderFilter: string, statusFilter: string)
    ensures var r := FilteredEmployees(es, search, genderFilter, statusFilter);
      && IsSubsequence(r, es)
      && (forall i :: 0 <= i < |r| ==>
            && r[i] in es
            && Includes(Lower(r[i].name), Lower(search))
            && (genderFilter != "" ==> r[i].gender == genderFilter)
            && (statusFilter == "active" ==> r[i].isActive)
            && (statusFilter != "" && statusFilter != "active" ==> !r[i].isActive))
      && (forall i :: 0 <= i < |es| && Shown(es[i], search, genderFilter, statusFilter) ==> es[i] in r)
  {
    FilteredIsOnePass(es, search, genderFilter, statusFilter);
  }

  /** With the search box empty and both selects on "All", the table is the whole list. */
  lemma {:induction false} NoFilterShowsAll(es: seq<Employee>)
    ensures FilteredEmployees(es, "", "", "") == es
  {
    assert Lower("") == "";
    forall i | 0 <= i < |es| ensures Shown(es[i], "", "", "") {
      IncludesEmpty(Lower(es[i].name));
    }
    FilteredIsOnePass(es, "", "", "");
    FilterKeepsAll(es, e => Shown(e, "", "", ""));
  }

  // ---------------------------------------------------------------------------------
  // Add, edit, delete, toggle

  /** The add branch of `saveEmployee`: the form, under the id `now` read from the clock,
      appended after the existing records, which keep their places. */
  function AddEmployee(es: seq<Employee>, form: Form, now: int): (r: seq<Employee>)
    ensures |r| == |es| + 1 && r[..|es|] == es
    ensures r[|es|].id == now && ToForm(r[|es|]) == form
  {
    es + [WithId(form, now)]
  }

  /** `emp.id === id ? { ...form, id } : emp`: the record with the edited id takes the
      form's fields and keeps its id; any other record is returned as it is. */
  function ReplaceIfId(id: int, form: Form): (replace: Employee -> Employee)
    ensures forall emp: Employee :: replace(emp).id == emp.id
    ensures forall emp: Employee :: emp.id == id ==> ToForm(replace(emp)) == form
    ensures forall emp: Employee :: emp.id != id ==> replace(emp) == emp
  {
    (emp: Employee) => if emp.id == id then WithId(form, id) else emp
  }

  /** The edit branch of `saveEmployee`: every record carrying the edited id becomes the
      form under that id; every other record stays as it is, in its place. */
  function EditEmployee(es: seq<Employee>, id: int, form: Form): (r: seq<Employee>)
    ensures |r| == |es|
    ensures forall i :: 0 <= i < |es| && es[i].id == id ==> r[i] == WithId(form, id)
    ensures forall i :: 0 <= i < |es| && es[i].id != id ==> r[i] == es[i]
  {
    Map(es, ReplaceIfId(id, form))
  }

  function IdIsNot(id: int): Employee -> bool { (e: Employee) => e.id != id }

  /** Filtering out an id no record carries keeps the whole list. */
  lemma {:induction false} FilterAbsentIdKeepsAll(es: seq<Employee>, id: int)
    ensures !HasId(es, id) ==> Filter(es, IdIsNot(id)) == es
  {
    if !HasId(es, id) {
      FilterKeepsAll(es, IdIsNot(id));
    }
  }

  /** `deleteEmployee`: when the user confirms, the records carrying `id` are dropped and
      every copy of every other record is kept, in order; when they cancel, or when no
      record carries `id`, the list is unchanged. */
  function DeleteEmployee(es: seq<Employee>, id: int, confirmed: bool): (r: seq<Employee>)
    ensures !confirmed ==> r == es
    ensures !HasId(es, id) ==> r == es
    ensures confirmed ==> IsSubsequence(r, es) && !HasId(r, id)
    ensures confirmed ==> forall i :: 0 <= i < |es| ==>
      multiset(r)[es[i]] == if es[i].id != id then multiset(es)[es[i]] else 0
  {
    if confirmed then
      FilterAbsentIdKeepsAll(es, id);
      Filter(es, IdIsNot(id))
    else es
  }

  /** `emp.id === id ? { ...emp, isActive: !emp.isActive } : emp`: only the active flag of
      the record with that id changes, and flipping twice gives the record back. */
  function FlipIfId(id: int): (flip: Employee -> Employee)
    ensures forall emp: Employee :: flip(emp).isActive == (if emp.id == id then !emp.isActive else emp.isActive)
    ensures forall emp: Employee :: flip(emp).(isActive := emp.isActive) == emp
    ensures forall emp: Employee :: flip(flip(emp)) == emp
  {
    (emp: Employee) => if emp.id == id then emp.(isActive := !emp.isActive) else emp
  }

  /** `toggleStatus`: the active flag of every record carrying `id` is flipped; no other
      field and no other record changes. */
  function ToggleStatus(es: seq<Employee>, id: int): (r: seq<Employee>)
    ensures |r| == |es|
    ensures forall i :: 0 <= i < |es| ==>
      && r[i].id == es[i].id && r[i].name == es[i].name && r[i].gender == es[i].gender
      && r[i].dob == es[i].dob && r[i].state == es[i].state && r[i].image == es[i].image
      && r[i].isActive == (if es[i].id == id then !es[i].isActive else es[i].isActive)
  {
    Map(es, FlipIfId(id))
  }

  /** `saveEmployee`: nothing is stored when the form fails validation; otherwise the
      record being edited is replaced, or, when no record is being edited, a new one is
      appended under the current time. Records with other ids keep their places. */
  function SaveEmployee(es: seq<Employee>, form: Form, editing: Option<Employee>, now: int): (r: seq<Employee>)
    ensures !FormValid(form) ==> r == es
    ensures |r| == if FormValid(form) && editing.None? then |es| + 1 else |es|
    ensures forall i :: 0 <= i < |es| && (editing.Some? ==> es[i].id != editing.value.id) ==> r[i] == es[i]
    ensures FormValid(form) && editing.None? ==> r[|es|].id == now && ToForm(r[|es|]) == form
    ensures FormValid(form) && editing.Some? ==> forall i :: 0 <= i < |es| && es[i].id == editing.value.id ==>
      r[i] == WithId(form, editing.value.id)
  {
    if !FormValid(form) then es
    else match editing
      case Some(target) => EditEmployee(es, target.id, form)
      case None => AddEmployee(es, form, now)
  }

  // ---------------------------------------------------------------------------------
  // Properties of the list operations

  /** Adding keeps every earlier record in its place and puts the new one last; the new
      record is active exactly when the form says so, and the active count follows. */
  lemma {:induction false} AddAppends(es: seq<Employee>, form: Form, now: int)
    ensures var r := AddEmployee(es, form, now);
      && |r| == |es| + 1 && r[..|es|] == es
      && r[|es|].id == now && ToForm(r[|es|]) == form
      && ActiveCount(r) == ActiveCount(es) + (if form.isActive then 1 else 0)
  {
    FilterAppend(es, [WithId(form, now)], IsActive);
  }

  /** A new record whose id no record has yet keeps the ids unique. */
  lemma {:induction false} AddKeepsIdsUnique(es: seq<Employee>, form: Form, now: int)
    requires UniqueIds(es) && !HasId(es, now)
    ensures UniqueIds(AddEmployee(es, form, now))
  {
    var r := AddEmployee(es, form, now);
    forall i, j | 0 <= i < j < |r| ensures r[i].id != r[j].id {
      if j == |es| {
        assert r[i] == es[i];
      }
    }
  }

  /** Editing changes no id, so the ids stay unique; editing an id no record has leaves the
      list as it was; editing again with the same form changes nothing more. */
  lemma {:induction false} EditProperties(es: seq<Employee>, id: int, form: Form)
    ensures forall i :: 0 <= i < |es| ==> EditEmployee(es, id, form)[i].id == es[i].id
    ensures UniqueIds(es) ==> UniqueIds(EditEmployee(es, id, form))
    ensures !HasId(es, id) ==> EditEmployee(es, id, form) == es
    ensures EditEmployee(EditEmployee(es, id, form), id, form) == EditEmployee(es, id, form)
  {
    var r := EditEmployee(es, id, form);
    var rr := EditEmployee(r, id, form);
    assert |rr| == |r| && forall i :: 0 <= i < |r| ==> rr[i] == r[i];
  }

  /** Toggling the same record twice restores the list. */
  lemma {:induction false} ToggleTwice(es: seq<Employee>, id: int)
    ensures ToggleStatus(ToggleStatus(es, id), id) == es
  {
    var r := ToggleStatus(ToggleStatus(es, id), id);
    assert |r| == |es| && forall i :: 0 <= i < |es| ==> r[i] == es[i];
  }

  /** A list that differs from another in one position has the active count of the other,
      corrected for that position. */
  lemma {:induction false} ActiveCountUpdate(es: seq<Employee>, k: nat, e: Employee)
    requires k < |es|
    ensures ActiveCount(es[k := e]) + (if es[k].isActive then 1 else 0)
         == ActiveCount(es) + (if e.isActive then 1 else 0)
  {
    var t := es[k := e];
    assert es == es[..k] + [es[k]] + es[k + 1..];
    assert t == es[..k] + [e] + es[k + 1..];
    FilterAppend(es[..k] + [es[k]], es[k + 1..], IsActive);
    FilterAppend(es[..k], [es[k]], IsActive);
    FilterAppend(es[..k] + [e], es[k + 1..], IsActive);
    FilterAppend(es[..k], [e], IsActive);
  }

  /** With unique ids, toggling the record at position `k` moves exactly one record
      between the active and the inactive card, and keeps the total and the ids. */
  lemma {:induction false} ToggleMovesOne(es: seq<Employee>, k: nat)
    requires UniqueIds(es) && k < |es|
    ensures var r := ToggleStatus(es, es[k].id);
      && |r| == |es| && UniqueIds(r)
      && ActiveCount(r) == (if es[k].isActive then ActiveCount(es) - 1 else ActiveCount(es) + 1)
  {
    var id := es[k].id;
    var r := ToggleStatus(es, id);
    assert r == es[k := es[k].(isActive := !es[k].isActive)];
    ActiveCountUpdate(es, k, es[k].(isActive := !es[k].isActive));
  }

  /** With unique ids, a confirmed delete of a present id removes exactly one record: the
      list is the old one with that position cut out. */
  lemma {:induction false} DeleteRemovesOne(es: seq<Employee>, k: nat)
    requires UniqueIds(es) && k < |es|
    ensures DeleteEmployee(es, es[k].id, true) == es[..k] + es[k + 1..]
    ensures |DeleteEmployee(es, es[k].id, true)| == |es| - 1
  {
    var keep := IdIsNot(es[k].id);
    assert forall i :: 0 <= i < |es| && i != k ==> keep(es[i]);
    FilterCutsOut(es, keep, k);
  }

  /** Deleting an id a second time finds nothing left to remove, confirmed or not. */
  lemma {:induction false} DeleteTwice(es: seq<Employee>, id: int, confirmed: bool)
    ensures DeleteEmployee(DeleteEmployee(es, id, true), id, confirmed) == DeleteEmployee(es, id, true)
  {
    var r := DeleteEmployee(es, id, true);
    forall i | 0 <= i < |r| ensures IdIsNot(id)(r[i]) {
      assert !HasId(r, id);
    }
    FilterKeepsAll(r, IdIsNot(id));
  }

  /** Deleting keeps the ids unique. */
  lemma {:induction false} DeleteKeepsIdsUnique(es: seq<Employee>, id: int, confirmed: bool)
    requires UniqueIds(es)
    ensures UniqueIds(DeleteEmployee(es, id, confirmed))
  {
    if confirmed {
      SubsequenceKeepsIdsUnique(DeleteEmployee(es, id, confirmed), es);
    }
  }

  lemma {:induction false} SubsequenceKeepsIdsUnique(a: seq<Employee>, b: seq<Employee>)
    requires IsSubsequence(a, b) && UniqueIds(b)
    ensures UniqueIds(a)
    decreases |b|
  {
    if a != [] {
      if a[0] == b[0] && IsSubsequence(a[1..], b[1..]) {
        SubsequenceKeepsIdsUnique(a[1..], b[1..]);
        SubsequenceMembers(a[1..], b[1..]);
        forall j | 0 < j < |a| ensures a[0].id != a[j].id {
          var m :| 0 <= m < |b| - 1 && a[j] == b[1..][m];
          assert b[0].id != b[m + 1].id;
        }
      } else {
        SubsequenceKeepsIdsUnique(a, b[1..]);
      }
    }
  }

  /** Every element of a subsequence is an element of the whole. */
  lemma {:induction false} SubsequenceMembers<T>(a: seq<T>, b: seq<T>)
    requires IsSubsequence(a, b)
    ensures forall i :: 0 <= i < |a| ==> exists m :: 0 <= m < |b| && a[i] == b[m]
    decreases |b|
  {
    if a != [] {
      if a[0] == b[0] && IsSubsequence(a[1..], b[1..]) {
        SubsequenceMembers(a[1..], b[1..]);
        forall i | 0 < i < |a| ensures exists m :: 0 <= m < |b| && a[i] == b[m] {
          var m :| 0 <= m < |b| - 1 && a[1..][i - 1] == b[1..][m];
          assert a[i] == b[m + 1];
        }
        assert a[0] == b[0];
      } else {
        SubsequenceMembers(a, b[1..]);
        forall i | 0 <= i < |a| ensures exists m :: 0 <= m < |b| && a[i] == b[m] {
          var m :| 0 <= m < |b| - 1 && a[i] == b[1..][m];
          assert a[i] == b[m + 1];
        }
      }
    }
  }

  /** A form that fails validation stores nothing. */
  lemma SaveInvalidKeepsList(es: seq<Employee>, form: Form, editing: Option<Employee>, now: int)
    requires !FormValid(form)
    ensures SaveEmployee(es, form, editing, now) == es
  {
  }

  /** Saving keeps the ids unique, as long as a new record's clock reading is an id the
      list does not hold yet. */
  lemma {:induction false} SaveKeepsIdsUnique(es: seq<Employee>, form: Form, editing: Option<Employee>, now: int)
    requires UniqueIds(es)
    requires editing.None? ==> !HasId(es, now)
    ensures UniqueIds(SaveEmployee(es, form, editing, now))
  {
    if FormValid(form) {
      match editing
      case Some(target) => EditProperties(es, target.id, form);
      case None => AddKeepsIdsUnique(es, form, now);
    }
  }

  /** A worked example: of Asha (female, active) and Ravi (male, inactive), searching "a"
      with status "active" shows only Asha, although both names contain an "a". */
  lemma SearchExample()
    ensures var asha := Employee(1, "Asha", "Female", "2000-01-01", "Kerala", "", true);
      var ravi := Employee(2, "Ravi", "Male", "1999-05-05", "Karnataka", "", false);
      FilteredEmployees([asha, ravi], "a", "", "active") == [asha]
  {
    var asha := Employee(1, "Asha", "Female", "2000-01-01", "Kerala", "", true);
    var ravi := Employee(2, "Ravi", "Male", "1999-05-05", "Karnataka", "", false);
    var shown := e => Shown(e, "a", "", "active");
    assert Lower("a") == "a";
    assert Lower("Asha") == "asha";
    assert StartsWith("asha", "a");
    assert shown(asha);
    assert !shown(ravi);
    assert Filter([ravi], shown) == [];
    assert [asha, ravi][1..] == [ravi];
    assert Filter([asha, ravi], shown) == [asha] + Filter([ravi], shown);
    FilteredIsOnePass([asha, ravi], "a", "", "active");
  }
}
