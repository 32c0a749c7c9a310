/** The add/edit student dialog (components/StudentModal.tsx): the fields it
    opens with, and the checks `handleSubmit` makes before handing the data on. */
module StudentForm {
  import opened Types
  import opened Text

  /** The dialog's fields and its error line. */
  datatype Form = Form(name: string, rollNumber: string, error: string)

  /** Why a submission is refused. */
  datatype FormError =
    | MissingFields
    | DuplicateRoll(rollNumber: string, holder: Student)

  /** The text shown for a refusal. */
  function Message(e: FormError): string {
    match e
    case MissingFields => "Both name and roll number are required."
    case DuplicateRoll(roll, holder) => "Roll number \"" + roll + "\" is already assigned to " + holder.name + "."
  }

  /** The reset effect: the fields of the student being edited, or blank
      fields when adding; the error is cleared either way. */
  function OpenForm(student: Option<Student>): (f: Form)
    ensures f.error == []
    ensures student.Some? ==> f.name == student.value.name && f.rollNumber == student.value.rollNumber
    ensures student.None? ==> f.name == [] && f.rollNumber == []
  {
    match student
    case Some(s) => Form(s.name, s.rollNumber, "")
    case None => Form("", "", "")
  }

  /** `s.id !== student?.id`: when adding nobody is excluded. */
  predicate IsOther(s: Student, editing: Option<int>) {
    editing.None? || s.id != editing.value
  }

  /** A student other than the one being edited with roll number `roll` up to case. */
  predicate Clashes(s: Student, roll: string, editing: Option<int>) {
    Lower(s.rollNumber) == Lower(roll) && IsOther(s, editing)
  }

  /** Nobody in `existing` clashes with `roll`. */
  predicate Unclaimed(existing: seq<Student>, roll: string, editing: Option<int>) {
    forall s | s in existing :: !Clashes(s, roll, editing)
  }

  /** Student `k` clashes and none before it does. */
  predicate FirstClash(existing: seq<Student>, k: int, roll: string, editing: Option<int>)
    requires 0 <= k < |existing|
  {
    Clashes(existing[k], roll, editing) && forall j | 0 <= j < k :: !Clashes(existing[j], roll, editing)
  }

  /** `existingStudents.find(...)`: the first clashing student in list order. */
  function FindDuplicate(existing: seq<Student>, roll: string, editing: Option<int>): (r: Option<Student>)
    ensures r.None? <==> Unclaimed(existing, roll, editing)
    ensures r.Some? ==> exists k | 0 <= k < |existing| :: existing[k] == r.value && FirstClash(existing, k, roll, editing)
  {
    if existing == [] then None
    else if Clashes(existing[0], roll, editing) then Some(existing[0])
    else
      var r := FindDuplicate(existing[1..], roll, editing);
      assert forall s | s in existing :: s == existing[0] || s in existing[1..];
      if r.Some? then
        var k :| 0 <= k < |existing[1..]| && existing[1..][k] == r.value && FirstClash(existing[1..], k, roll, editing);
        assert existing[k + 1] == r.value;
        assert FirstClash(existing, k + 1, roll, editing) by {
          forall j | 0 <= j < k + 1 ensures !Clashes(existing[j], roll, editing) {
            if j > 0 {
              assert existing[j] == existing[1..][j - 1];
            }
          }
        }
        r
      else r
  }

  /** handleSubmit: refused when the trimmed name or roll number is empty, or
      when another student holds the trimmed roll number up to case (the error
      names the first such student); otherwise the edited student's id (none
      when adding), the name as typed and the trimmed roll number go on. */
  function Submit(form: Form, editing: Option<Student>, existing: seq<Student>): (r: Result<StudentData, FormError>)
    ensures r == Err(MissingFields) <==> Trim(form.name) == [] || Trim(form.rollNumber) == []
    ensures r.Err? && r.error.DuplicateRoll? ==>
      r.error.rollNumber == Trim(form.rollNumber)
      && FindDuplicate(existing, Trim(form.rollNumber), EditingId(editing)) == Some(r.error.holder)
    ensures r.Ok? <==> (Trim(form.name) != [] && Trim(form.rollNumber) != []
                        && Unclaimed(existing, Trim(form.rollNumber), EditingId(editing)))
    ensures r.Ok? ==> r.value == StudentData(EditingId(editing), form.name, Trim(form.rollNumber))
  {
    if Trim(form.name) == [] || Trim(form.rollNumber) == [] then Err(MissingFields)
    else
      var roll := Trim(form.rollNumber);
      match FindDuplicate(existing, roll, EditingId(editing))
      case Some(holder) => Err(DuplicateRoll(roll, holder))
      case None => Ok(StudentData(EditingId(editing), form.name, roll))
  }

  /** `student?.id` */
  function EditingId(editing: Option<Student>): Option<int> {
    if editing.Some? then Some(editing.value.id) else None
  }

  /** No two students of the roster share a roll number up to case. */
  predicate RollsUnique(existing: seq<Student>) {
    forall i, j | 0 <= i < j < |existing| :: Lower(existing[i].rollNumber) != Lower(existing[j].rollNumber)
  }

  /** The student being edited never counts as its own duplicate. */
  lemma OwnRecordNeverClashes(s: Student, roll: string)
    ensures !Clashes(s, roll, Some(s.id))
  {
  }

  /** Opening the dialog on a student of a roster whose roll numbers are
      unique and submitting it unchanged is accepted, and hands on the
      student's own id, name and roll number. */
  lemma ResubmitUnchangedAccepted(s: Student, existing: seq<Student>)
    requires s in existing && RollsUnique(existing)
    requires !AllSpace(s.name) && s.rollNumber != [] && IsTrimmed(s.rollNumber)
    ensures Submit(OpenForm(Some(s)), Some(s), existing) == Ok(StudentData(Some(s.id), s.name, s.rollNumber))
  {
    TrimmedIsFixed(s.rollNumber);
    NobodyElseHoldsRoll(s, existing);
    var f := OpenForm(Some(s));
    assert f.name == s.name && Trim(f.rollNumber) == s.rollNumber;
    assert Trim(f.name) != [] && Trim(f.rollNumber) != [];
    assert EditingId(Some(s)) == Some(s.id);
    assert Unclaimed(existing, Trim(f.rollNumber), EditingId(Some(s)));
    assert Submit(f, Some(s), existing).Ok?;
  }

  /** In a roster with unique roll numbers, nobody but `s` holds its roll number. */
  lemma NobodyElseHoldsRoll(s: Student, existing: seq<Student>)
    requires s in existing && RollsUnique(existing)
    ensures Unclaimed(existing, s.rollNumber, Some(s.id))
  {
    var k :| 0 <= k < |existing| && existing[k] == s;
    forall t | t in existing ensures !Clashes(t, s.rollNumber, Some(s.id)) {
      var j :| 0 <= j < |existing| && existing[j] == t;
      assert j != k ==> Lower(existing[j].rollNumber) != Lower(existing[k].rollNumber);
    }
  }

  /** Adding a student whose roll number, up to case, is already taken is refused and names the holder. */
  lemma AddingTakenRollRefused(form: Form, existing: seq<Student>, t: Student)
    requires !AllSpace(form.name) && !AllSpace(form.rollNumber)
    requires t in existing && Lower(t.rollNumber) == Lower(Trim(form.rollNumber))
    ensures Submit(form, None, existing).Err?
    ensures Submit(form, None, existing).error.DuplicateRoll?
  {
    var roll := Trim(form.rollNumber);
    assert Clashes(t, roll, None);
    assert EditingId(None) == None;
    assert !Unclaimed(existing, roll, EditingId(None));
  }
}
