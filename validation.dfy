/** The presence checks the add/edit form must pass before a record is saved. */
module Validation {
  import opened Employees
  import opened Text

  /** The form fields that can carry an error message. */
  datatype Field = NameField | GenderField | DobField | StateField

  /** The label of a field, as the message names it. */
  function Label(f: Field): string
  {
    match f
    case NameField => "Full Name"
    case GenderField => "Gender"
    case DobField => "Date of Birth"
    case StateField => "State"
  }

  /** The message shown under a field that is missing: the field's label followed by
      " is required". */
  function Message(f: Field): (m: string)
    ensures |m| > |" is required"| && m[|m| - |" is required"|..] == " is required"
  {
    var m := Label(f) + " is required";
    assert m[|Label(f)|..] == " is required";
    m
  }

  /** The field fails its check: the name trims to the empty string, or one of the other
      three is the empty string (both are falsy in JavaScript). */
  function Missing(form: Form, f: Field): (missing: bool)
    ensures f == NameField ==> (missing <==> !HasContent(form.name))
  {
    match f
    case NameField => Trim(form.name) == ""
    case GenderField => form.gender == ""
    case DobField => form.dob == ""
    case StateField => form.state == ""
  }

  /** The form may be saved: the name has a character other than whitespace, and gender,
      date of birth and state are all filled in. This holds exactly when none of the four
      fields is missing. */
  predicate FormValid(form: Form)
    ensures FormValid(form) <==> forall f: Field :: !Missing(form, f)
  {
    ValidIffNothingMissing(form);
    HasContent(form.name) && form.gender != "" && form.dob != "" && form.state != ""
  }

  /** The four presence conditions all hold exactly when none of the four fields is
      missing. */
  lemma {:induction false} ValidIffNothingMissing(form: Form)
    ensures (HasContent(form.name) && form.gender != "" && form.dob != "" && form.state != "")
       <==> forall f: Field :: !Missing(form, f)
  {
    if !(HasContent(form.name) && form.gender != "" && form.dob != "" && form.state != "") {
      if !HasContent(form.name) {
        assert Missing(form, NameField);
      } else if form.gender == "" {
        assert Missing(form, GenderField);
      } else if form.dob == "" {
        assert Missing(form, DobField);
      } else {
        assert Missing(form, StateField);
      }
    }
  }

  /** The blank form the add dialog opens with fails all four checks. */
  lemma BlankFormFailsAll()
    ensures forall f: Field :: Missing(EmptyForm, f)
    ensures !FormValid(EmptyForm)
  {
    assert !HasContent(EmptyForm.name);
  }

  lemma EmptyIffNoKey(m: map<Field, string>)
    ensures |m| == 0 <==> forall f: Field :: f !in m
  {
    if |m| != 0 {
      var f :| f in m;
    }
  }

  /** The error object `validateForm` builds, one `if` per field. It holds a key for
      exactly the fields that are missing, each with that field's message, and is empty
      exactly when the form is valid. */
  method BuildErrors(form: Form) returns (newErrors: map<Field, string>)
    ensures forall f: Field :: f in newErrors <==> Missing(form, f)
    ensures forall f :: f in newErrors ==> newErrors[f] == Message(f)
    ensures |newErrors| == 0 <==> FormValid(form)
  {
    newErrors := map[];
    if Trim(form.name) == "" {
      newErrors := newErrors[NameField := Message(NameField)];
    }
    if form.gender == "" {
      newErrors := newErrors[GenderField := Message(GenderField)];
    }
    if form.dob == "" {
      newErrors := newErrors[DobField := Message(DobField)];
    }
    if form.state == "" {
      newErrors := newErrors[StateField := Message(StateField)];
    }
    forall f: Field
      ensures f in newErrors <==> Missing(form, f)
      ensures f in newErrors ==> newErrors[f] == Message(f)
    {
      match f {
        case NameField =>
        case GenderField =>
        case DobField =>
        case StateField =>
      }
    }
    ValidIffNothingMissing(form);
    EmptyIffNoKey(newErrors);
  }
}
