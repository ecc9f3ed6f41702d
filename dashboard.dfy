/** The dashboard component's state and its event handlers. `employees` is the list held by
    the employee context, `errors` the per-field messages under the form, `showModal`
    whether the add/edit dialog is open. Every handler replaces the whole list at once. */
module DashboardComponent {
  import opened Employees
  import opened Validation
  import EmployeeList

  class Dashboard {
    var employees: seq<Employee>
    var errors: map<Field, string>
    var showModal: bool

    /** The dashboard as it first renders over the list read back from storage. */
    constructor (stored: seq<Employee>)
      ensures employees == stored && errors == map[] && !showModal
    {
      employees := stored;
      errors := map[];
      showModal := false;
    }

    /** `validateForm`: the messages for the missing fields replace the previous ones, and
        the answer is whether there are none. */
    method ValidateForm(form: Form) returns (ok: bool)
      modifies this`errors
      ensures forall f: Field :: f in errors <==> Missing(form, f)
      ensures forall f :: f in errors ==> errors[f] == Message(f)
      ensures ok <==> FormValid(form)
    {
      var newErrors := BuildErrors(form);
      errors := newErrors;
      ok := |newErrors| == 0;
    }

    /** `saveEmployee`, with `now` the clock reading `Date.now()` would give. An invalid
        form leaves the list and the dialog as they were and shows its messages; a valid
        one stores the edited or the new record, closes the dialog and clears the
        messages. Unique ids stay unique when a new record's clock reading is not an id
        already in the list. */
    method SaveEmployee(form: Form, editEmployee: Option<Employee>, now: int)
      modifies this`employees, this`errors, this`showModal
      ensures employees == EmployeeList.SaveEmployee(old(employees), form, editEmployee, now)
      ensures !FormValid(form) ==> employees == old(employees) && showModal == old(showModal)
      ensures !FormValid(form) ==> forall f: Field :: f in errors <==> Missing(form, f)
      ensures !FormValid(form) ==> forall f :: f in errors ==> errors[f] == Message(f)
      ensures FormValid(form) ==> !showModal && errors == map[]
      ensures UniqueIds(old(employees)) && (editEmployee.None? ==> !HasId(old(employees), now))
        ==> UniqueIds(employees)
    {
      var ok := ValidateForm(form);
      if !ok {
        return;
      }
      match editEmployee {
        case Some(target) =>
          employees := EmployeeList.EditEmployee(employees, target.id, form);
        case None =>
          employees := EmployeeList.AddEmployee(employees, form, now);
      }
      showModal := false;
      errors := map[];
      ghost var before := old(employees);
      assert UniqueIds(before) && (editEmployee.None? ==> !HasId(before, now)) ==> UniqueIds(employees) by {
        if UniqueIds(before) && (editEmployee.None? ==> !HasId(before, now)) {
          EmployeeList.SaveKeepsIdsUnique(before, form, editEmployee, now);
        }
      }
    }

    /** `deleteEmployee`, with `confirmed` the answer to the confirmation prompt. */
    method DeleteEmployee(id: int, confirmed: bool)
      modifies this`employees
      ensures employees == EmployeeList.DeleteEmployee(old(employees), id, confirmed)
      ensures !confirmed ==> employees == old(employees)
      ensures confirmed ==> !HasId(employees, id)
      ensures UniqueIds(old(employees)) ==> UniqueIds(employees)
    {
      assert UniqueIds(employees) ==> UniqueIds(EmployeeList.DeleteEmployee(employees, id, confirmed)) by {
        if UniqueIds(employees) {
          EmployeeList.DeleteKeepsIdsUnique(employees, id, confirmed);
        }
      }
      if confirmed {
        employees := EmployeeList.DeleteEmployee(employees, id, true);
      }
    }

    /** `toggleStatus`: flips the active flag of the record carrying `id`; the ids, and
        so their uniqueness, are kept. */
    method ToggleStatus(id: int)
      modifies this`employees
      ensures employees == EmployeeList.ToggleStatus(old(employees), id)
      ensures |employees| == |old(employees)|
      ensures UniqueIds(old(employees)) ==> UniqueIds(employees)
    {
      employees := EmployeeList.ToggleStatus(employees, id);
    }
  }
}
