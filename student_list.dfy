/** The student table (components/StudentList.tsx): the empty state, the
    select-all check box and what each row is given. */
module StudentListView {
  import opened Types

  /** `students.length > 0 && students.every(s => selectedStudents.includes(s.id))` */
  predicate AllSelected(students: seq<Student>, selected: seq<int>) {
    |students| > 0 && forall s | s in students :: s.id in selected
  }

  /** What one row is given: the student, `records[student.id]` (absent
      when the record has no entry), whether it is selected, whether it is last. */
  datatype RowView = RowView(student: Student, status: Option<AttendanceStatus>, isSelected: bool, isLast: bool)

  datatype ListView = EmptyState | Table(allSelected: bool, rows: seq<RowView>)

  function StatusFor(records: AttendanceRecord, id: int): Option<AttendanceStatus> {
    if id in records then Some(records[id]) else None
  }

  /** The rendered list: the empty state for no students, otherwise the
      select-all state and one row per student in order. */
  function Render(students: seq<Student>, records: AttendanceRecord, selected: seq<int>): (v: ListView)
    ensures v.EmptyState? <==> students == []
    ensures v.Table? ==> v.allSelected == AllSelected(students, selected) && |v.rows| == |students|
    ensures v.Table? ==> forall i | 0 <= i < |v.rows| ::
      v.rows[i] == RowView(students[i], StatusFor(records, students[i].id),
                           students[i].id in selected, i == |students| - 1)
  {
    if students == [] then EmptyState
    else Table(AllSelected(students, selected),
               seq(|students|, i requires 0 <= i < |students| =>
                 RowView(students[i], StatusFor(records, students[i].id),
                         students[i].id in selected, i == |students| - 1)))
  }

  /** The select-all box is checked exactly when there are rows and every row is checked. */
  lemma AllSelectedIffEveryRowSelected(students: seq<Student>, records: AttendanceRecord, selected: seq<int>)
    requires students != []
    ensures var v := Render(students, records, selected);
      v.allSelected <==> forall i | 0 <= i < |v.rows| :: v.rows[i].isSelected
  {
    var v := Render(students, records, selected);
    if forall i | 0 <= i < |v.rows| :: v.rows[i].isSelected {
      forall s | s in students ensures s.id in selected {
        var i :| 0 <= i < |students| && students[i] == s;
        assert v.rows[i].isSelected;
      }
    }
  }

  /** Exactly one row, the final one, is marked last. */
  lemma OnlyFinalRowIsLast(students: seq<Student>, records: AttendanceRecord, selected: seq<int>)
    requires students != []
    ensures var v := Render(students, records, selected);
      v.rows[|v.rows| - 1].isLast && forall i | 0 <= i < |v.rows| - 1 :: !v.rows[i].isLast
  {
  }

  /** After select-all (the ids of the displayed students become the
      selection) the select-all box is checked for any list that is not empty. */
  lemma SelectAllChecksBox(students: seq<Student>)
    requires students != []
    ensures AllSelected(students, IdsOf(students))
  {
    forall s | s in students ensures s.id in IdsOf(students) {
      var i :| 0 <= i < |students| && students[i] == s;
      assert IdsOf(students)[i] == s.id;
    }
  }

  /** After deselect-all no row is selected and the box is unchecked. */
  lemma DeselectAllClearsRows(students: seq<Student>, records: AttendanceRecord)
    ensures var v := Render(students, records, []);
      v.Table? ==> !v.allSelected && forall i | 0 <= i < |v.rows| :: !v.rows[i].isSelected
  {
    if students != [] {
      assert students[0] in students;
    }
  }
}
