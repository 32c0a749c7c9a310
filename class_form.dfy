/** The add/edit class dialog (components/ClassModal.tsx). */
module ClassForm {
  import opened Types
  import opened Text

  /** The dialog's field and its error line. */
  datatype Form = Form(name: string, error: string)

  const NameRequired: string := "Class name is required."

  /** The reset effect: only while the dialog is open, the field takes the
      edited class's name (`''` when adding) and the error is cleared. */
  function OpenForm(isOpen: bool, classToEdit: Option<Class>, current: Form): (f: Form)
    ensures !isOpen ==> f == current
    ensures isOpen ==> f.error == [] && f.name == if classToEdit.Some? then classToEdit.value.name else []
  {
    if !isOpen then current
    else Form(if classToEdit.Some? then classToEdit.value.name else "", "")
  }

  /** handleSubmit: refused when the trimmed name is empty; otherwise the
      name as typed goes on with the edited class's id, none when adding. */
  function Submit(form: Form, classToEdit: Option<Class>): (r: Result<ClassData, string>)
    ensures r.Err? <==> AllSpace(form.name)
    ensures r.Err? ==> r.error == NameRequired
    ensures r.Ok? ==> r.value.name == form.name
    ensures r.Ok? ==> r.value.id == if classToEdit.Some? then Some(classToEdit.value.id) else None
  {
    if Trim(form.name) == [] then Err(NameRequired)
    else Ok(ClassData(if classToEdit.Some? then Some(classToEdit.value.id) else None, form.name))
  }

  /** Opening the dialog on a class whose name is not blank and submitting
      it unchanged hands the class back as it was. */
  lemma ResubmitUnchanged(c: Class, current: Form)
    requires !AllSpace(c.name)
    ensures Submit(OpenForm(true, Some(c), current), Some(c)) == Ok(ClassData(Some(c.id), c.name))
  {
  }
}
