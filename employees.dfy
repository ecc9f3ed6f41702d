/** The employee record and the form the dashboard edits it through. */
module Employees {

  datatype Option<T> = None | Some(value: T)

  /** One row of the employee list. `id` is the creation time in milliseconds that was
      current when the record was added; `image` is an opaque data URL, "" when absent. */
  datatype Employee = Employee(
    id: int,
    name: string,
    gender: string,
    dob: string,
    state: string,
    image: string,
    isActive: bool)

  /** The add/edit form: every field of a record but its id. */
  datatype Form = Form(
    name: string,
    gender: string,
    dob: string,
    state: string,
    image: string,
    isActive: bool)

  /** The form blank, as the add dialog opens it: every text field empty, active ticked. */
  const EmptyForm := Form("", "", "", "", "", true)

  /** `{ ...form, id: id }`: the form's fields under the given id. */
  function WithId(form: Form, id: int): (e: Employee)
    ensures e.id == id && ToForm(e) == form
  {
    Employee(id, form.name, form.gender, form.dob, form.state, form.image, form.isActive)
  }

  /** The form filled from a record, as the edit dialog opens it. */
  function ToForm(e: Employee): Form
  {
    Form(e.name, e.gender, e.dob, e.state, e.image, e.isActive)
  }

  /** A record and its form, with the id put back, are the same record; a form given an
      id and read back is the same form. */
  lemma FormRoundTrip(e: Employee, form: Form, id: int)
    ensures WithId(ToForm(e), e.id) == e
    ensures ToForm(WithId(form, id)) == form && WithId(form, id).id == id
  {
  }

  /** Some record in the list carries `id`. */
  predicate HasId(es: seq<Employee>, id: int)
  {
    exists i :: 0 <= i < |es| && es[i].id == id
  }

  /** No two records in the list share an id. */
  predicate UniqueIds(es: seq<Employee>)
  {
    forall i, j :: 0 <= i < j < |es| ==> es[i].id != es[j].id
  }
}
