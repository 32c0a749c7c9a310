/** The application state of App.tsx and its handlers. The derived views are
    functions of the state; each handler is a method on AppState that
    replaces the affected fields, proved equal to a function of the old state. */
module App {
  import opened Types
  import opened Seqs
  import opened Text
  import opened Attendance

  // Predicates handed to Filter, one per `filter` callback of the source.

  function InClass(classId: int): Student -> bool { (s: Student) => s.classId == classId }
  function NotInClass(classId: int): Student -> bool { (s: Student) => s.classId != classId }
  function IdIsNot(id: int): Student -> bool { (s: Student) => s.id != id }
  function IdNotIn(ids: seq<int>): Student -> bool { (s: Student) => s.id !in ids }
  function ClassIdIsNot(id: int): Class -> bool { (c: Class) => c.id != id }
  function IsNot(id: int): int -> bool { (x: int) => x != id }
  function MatchesQuery(lowerQuery: string): Student -> bool {
    (s: Student) => Contains(Lower(s.name), lowerQuery) || Contains(Lower(s.rollNumber), lowerQuery)
  }

  /** The roster a first-time user starts with (App.tsx:35-45). */
  function DefaultClasses(): seq<Class> {
    [Class(1, "Sample Class")]
  }

  function DefaultStudents(): seq<Student> {
    [Student(1, "Alice Johnson", "S001", 1), Student(2, "Bob Williams", "S002", 1)]
  }

  /** `studentsInClass`: the students of the selected class, in roster order;
      none when no class is selected (a selected id of 0 counts as none). */
  function StudentsInClass(students: seq<Student>, selected: Option<int>): (r: seq<Student>)
    ensures !Truthy(selected) ==> r == []
    ensures SubList(r, students)
    ensures forall s :: s in r <==> Truthy(selected) && s in students && s.classId == selected.value
  {
    if !Truthy(selected) then []
    else
      FilterIsSubList(students, InClass(selected.value));
      Filter(students, InClass(selected.value))
  }

  /** `filteredStudents`: an empty query shows the whole class; otherwise the
      students whose lowercased name or roll number contains the lowercased query. */
  function FilteredStudents(inClass: seq<Student>, query: string): (r: seq<Student>)
    ensures query == [] ==> r == inClass
    ensures SubList(r, inClass)
    ensures forall s :: s in r <==>
      s in inClass && (query == [] || Contains(Lower(s.name), Lower(query)) || Contains(Lower(s.rollNumber), Lower(query)))
  {
    if query == [] then
      SubListReflexive(inClass);
      inClass
    else
      FilterIsSubList(inClass, MatchesQuery(Lower(query)));
      Filter(inClass, MatchesQuery(Lower(query)))
  }

  /** `currentRecords`: one record per student of the class, read from the
      selected date's bucket and defaulting to Unmarked. */
  method CurrentRecords(history: AttendanceHistory, date: string, inClass: seq<Student>) returns (records: AttendanceRecord)
    ensures records.Keys == IdSet(inClass)
    ensures forall id | id in records :: records[id] == StatusOf(history, date, id)
  {
    var bucket := Bucket(history, date);
    records := map[];
    for i := 0 to |inClass|
      invariant records.Keys == IdSet(inClass[..i])
      invariant forall id | id in records :: records[id] == StatusOf(history, date, id)
    {
      var s := inClass[i];
      records := records[s.id := if s.id in bucket then bucket[s.id] else Unmarked];
      assert inClass[..i + 1] == inClass[..i] + [s];
    }
    assert inClass[..|inClass|] == inClass;
  }

  /** `isAttendanceComplete` over the records shown for the class. */
  predicate IsAttendanceComplete(records: AttendanceRecord, inClass: seq<Student>) {
    |inClass| > 0 &&
    forall s | s in inClass :: s.id in records && (records[s.id] == Present || records[s.id] == Absent)
  }

  /** On the records of `currentRecords`, attendance is complete exactly when
      the class is not empty and nobody in it reads as Unmarked. */
  lemma CompleteIffNoneUnmarked(history: AttendanceHistory, date: string, inClass: seq<Student>, records: AttendanceRecord)
    requires records.Keys == IdSet(inClass)
    requires forall id | id in records :: records[id] == StatusOf(history, date, id)
    ensures IsAttendanceComplete(records, inClass) <==>
      |inClass| > 0 && forall s | s in inClass :: StatusOf(history, date, s.id) != Unmarked
  {
    assert forall s | s in inClass :: s.id in records;
  }

  /** The selection rule run whenever the class list changes (App.tsx:95-99):
      no classes gives none; a selection that is 0, none or names no class
      falls back to the first class; otherwise the selection is kept. */
  function FallbackSelection(classes: seq<Class>, selected: Option<int>): (r: Option<int>)
    ensures r.None? <==> |classes| == 0
    ensures r.Some? ==> r.value in ClassIds(classes)
    ensures Truthy(selected) && selected.value in ClassIds(classes) ==> r == selected
    ensures |classes| > 0 && !(Truthy(selected) && selected.value in ClassIds(classes)) ==> r == Some(classes[0].id)
  {
    if |classes| == 0 then None
    else if !Truthy(selected) || selected.value !in ClassIds(classes) then Some(classes[0].id)
    else selected
  }

  /** `Math.max(...ids)` */
  function MaxId(ids: seq<int>): (m: int)
    requires |ids| > 0
    ensures m in ids
    ensures forall i | i in ids :: i <= m
  {
    if |ids| == 1 then ids[0]
    else
      var rest := MaxId(ids[1..]);
      assert ids == [ids[0]] + ids[1..];
      if ids[0] > rest then ids[0] else rest
  }

  /** The largest existing id, or 0 for an empty roster (App.tsx:282-283). */
  function NextIdBase(students: seq<Student>): (base: int)
    ensures forall s | s in students :: s.id <= base
    ensures students == [] ==> base == 0
    ensures students != [] ==> exists s | s in students :: s.id == base
  {
    if |students| > 0 then
      assert forall s | s in students :: s.id in IdsOf(students);
      MaxId(IdsOf(students))
    else 0
  }

  /** The students a bulk import creates: row `i` gets id `base + i + 1` and the class `classId`. */
  function ImportedStudents(rows: seq<ParsedStudent>, base: int, classId: int): (r: seq<Student>)
    ensures |r| == |rows|
    ensures forall i | 0 <= i < |r| ::
      r[i] == Student(base + i + 1, rows[i].name, rows[i].rollNumber, classId)
  {
    seq(|rows|, i requires 0 <= i < |rows| => Student(base + i + 1, rows[i].name, rows[i].rollNumber, classId))
  }

  /** Imported ids are above every existing id and increase along the rows, so
      importing keeps the ids of the roster distinct. */
  lemma ImportedIdsFresh(students: seq<Student>, rows: seq<ParsedStudent>, classId: int)
    ensures var added := ImportedStudents(rows, NextIdBase(students), classId);
      && (forall s, n | s in students && n in added :: s.id < n.id)
      && (forall i, j | 0 <= i < j < |added| :: added[i].id < added[j].id)
      && (DistinctIds(students) ==> DistinctIds(students + added))
  {
    var added := ImportedStudents(rows, NextIdBase(students), classId);
    var all := students + added;
    if DistinctIds(students) {
      forall i, j | 0 <= i < j < |all| ensures all[i].id != all[j].id {
        if j >= |students| {
          assert all[j] in added;
          if i < |students| {
            assert all[i] in students;
          }
        }
      }
    }
  }

  /** Editing a student: every student with that id gets the new name and roll
      number; ids, classes and order are kept. */
  function EditStudent(students: seq<Student>, id: int, name: string, rollNumber: string): (r: seq<Student>)
    ensures |r| == |students| && IdsOf(r) == IdsOf(students)
    ensures forall i | 0 <= i < |r| :: r[i].classId == students[i].classId
    ensures forall i | 0 <= i < |r| :: if students[i].id == id
      then r[i].name == name && r[i].rollNumber == rollNumber
      else r[i] == students[i]
  {
    seq(|students|, i requires 0 <= i < |students| =>
      if students[i].id == id then students[i].(name := name, rollNumber := rollNumber) else students[i])
  }

  /** Editing a class renames every class with that id; ids and order are kept. */
  function EditClass(classes: seq<Class>, id: int, name: string): (r: seq<Class>)
    ensures |r| == |classes|
    ensures forall i | 0 <= i < |r| :: r[i].id == classes[i].id
    ensures forall i | 0 <= i < |r| :: r[i].name == if classes[i].id == id then name else classes[i].name
  {
    seq(|classes|, i requires 0 <= i < |classes| =>
      if classes[i].id == id then classes[i].(name := name) else classes[i])
  }

  /** The inner loop of the student-deleting handlers: each id of `ids` is
      deleted from one date's records. */
  method RemoveIds(bucket: AttendanceRecord, ids: seq<int>) returns (r: AttendanceRecord)
    ensures r == bucket - (set i | i in ids)
  {
    r := bucket;
    for j := 0 to |ids|
      invariant r == bucket - (set k | 0 <= k < j :: ids[k])
    {
      if ids[j] in r {
        r := r - {ids[j]};
      }
      assert (set k | 0 <= k < j + 1 :: ids[k]) == (set k | 0 <= k < j :: ids[k]) + {ids[j]};
    }
    assert (set k | 0 <= k < |ids| :: ids[k]) == (set i | i in ids) by {
      forall x | x in ids ensures x in (set k | 0 <= k < |ids| :: ids[k]) {
        var k :| 0 <= k < |ids| && ids[k] == x;
      }
    }
  }

  /** The nested `forEach` of the delete handlers: for every date, delete the
      entry of every id in `ids`. */
  method RemoveFromEveryDate(history: AttendanceHistory, ids: seq<int>) returns (r: AttendanceHistory)
    ensures r == Purge(history, set i | i in ids)
  {
    var removed := set i | i in ids;
    r := history;
    var dates := history.Keys;
    while dates != {}
      invariant dates <= history.Keys && r.Keys == history.Keys
      invariant forall d | d in history :: r[d] == if d in dates then history[d] else history[d] - removed
      decreases |dates|
    {
      var d :| d in dates;
      var bucket := RemoveIds(r[d], ids);
      r := r[d := bucket];
      dates := dates - {d};
    }
  }

  /** The body of the confirmed mark-all: create the date's bucket if it is
      missing, then set each student's entry in it. */
  method MarkDate(history: AttendanceHistory, date: string, inClass: seq<Student>, status: AttendanceStatus)
    returns (r: AttendanceHistory)
    ensures r == MarkAll(history, date, IdSet(inClass), status)
  {
    var bucket := if date in history then history[date] else map[];
    for i := 0 to |inClass|
      invariant bucket == WithAll(Bucket(history, date), IdSet(inClass[..i]), status)
    {
      assert inClass[..i + 1] == inClass[..i] + [inClass[i]];
      IdSetSnoc(inClass[..i], inClass[i]);
      WithAllAddOne(Bucket(history, date), IdSet(inClass[..i]), inClass[i].id, status);
      bucket := bucket[inClass[i].id := status];
    }
    assert inClass[..|inClass|] == inClass;
    r := history[date := bucket];
  }

  /** `b` with every id of `ids` set to `status`. */
  function WithAll(b: AttendanceRecord, ids: set<int>, status: AttendanceStatus): AttendanceRecord {
    b + map k | k in ids :: status
  }

  lemma WithAllAddOne(b: AttendanceRecord, ids: set<int>, id: int, status: AttendanceStatus)
    ensures WithAll(b, ids, status)[id := status] == WithAll(b, ids + {id}, status)
  {
  }

  /** The `markedCount` filter of handleClearStatus. */
  function IsMarkedIn(records: AttendanceRecord): Student -> bool {
    (s: Student) => s.id in records && (records[s.id] == Present || records[s.id] == Absent)
  }

  /** Every student of `inClass` reads as Unmarked on `date`. */
  predicate NoneMarked(history: AttendanceHistory, date: string, inClass: seq<Student>) {
    forall s | s in inClass :: StatusOf(history, date, s.id) == Unmarked
  }

  /** The history after a confirmed clear: unchanged when the class is empty
      or nobody in it is marked on the date, otherwise the class's entries on
      the date are deleted. */
  function ClearedHistory(history: AttendanceHistory, date: string, inClass: seq<Student>): AttendanceHistory {
    if inClass == [] || NoneMarked(history, date, inClass) then history
    else Clear(history, date, IdSet(inClass))
  }

  lemma ClearedHistoryKeepsNoUnmarked(history: AttendanceHistory, date: string, inClass: seq<Student>)
    requires NoUnmarked(history)
    ensures NoUnmarked(ClearedHistory(history, date, inClass))
  {
    ClearKeepsNoUnmarked(history, date, IdSet(inClass));
  }

  /** handleClearStatus's body: the marked count of the class decides whether
      the date is touched at all. */
  method ClearClass(history: AttendanceHistory, date: string, inClass: seq<Student>) returns (r: AttendanceHistory)
    ensures r == ClearedHistory(history, date, inClass)
  {
    r := history;
    if inClass != [] {
      var records := CurrentRecords(history, date, inClass);
      var marked := Filter(inClass, IsMarkedIn(records));
      NoneMarkedIffAllUnmarked(history, date, inClass, records);
      if |marked| != 0 {
        r := ClearDate(history, date, inClass);
      }
    }
  }

  /** On the records of `currentRecords`, the marked count is zero exactly when
      every student of the class reads as Unmarked on the date. */
  lemma NoneMarkedIffAllUnmarked(history: AttendanceHistory, date: string, inClass: seq<Student>, records: AttendanceRecord)
    requires records.Keys == IdSet(inClass)
    requires forall id | id in records :: records[id] == StatusOf(history, date, id)
    ensures |Filter(inClass, IsMarkedIn(records))| == 0 <==> NoneMarked(history, date, inClass)
  {
    var marked := Filter(inClass, IsMarkedIn(records));
    assert forall s | s in inClass :: s.id in records;
    if |marked| != 0 {
      assert marked[0] in marked;
    }
  }

  /** The body of the confirmed clear: when the date has a bucket, delete each
      student's entry from it, then drop the bucket if it is left empty. */
  method ClearDate(history: AttendanceHistory, date: string, inClass: seq<Student>) returns (r: AttendanceHistory)
    ensures r == Clear(history, date, IdSet(inClass))
  {
    r := history;
    if date in r {
      var bucket := r[date];
      for i := 0 to |inClass|
        invariant bucket == history[date] - IdSet(inClass[..i])
      {
        assert inClass[..i + 1] == inClass[..i] + [inClass[i]];
        IdSetSnoc(inClass[..i], inClass[i]);
        bucket := bucket - {inClass[i].id};
      }
      assert inClass[..|inClass|] == inClass;
      if |bucket| == 0 {
        r := r - {date};
      } else {
        r := r[date := bucket];
      }
    }
  }

  class AppState {
    var classes: seq<Class>
    var selectedClassId: Option<int>
    var students: seq<Student>
    var selectedDate: string
    var searchQuery: string
    var history: AttendanceHistory
    var selectedStudents: seq<int>

    /** The history stores Present and Absent only. */
    ghost predicate Valid()
      reads this
    {
      NoUnmarked(history)
    }

    /** A first start: the default roster, an empty history, class 1 selected,
        `today` as the date, no query and no selection. */
    constructor (today: string)
      ensures Valid()
      ensures classes == DefaultClasses() && students == DefaultStudents()
      ensures history == map[] && selectedClassId == Some(1)
      ensures selectedDate == today && searchQuery == [] && selectedStudents == []
    {
      classes := DefaultClasses();
      students := DefaultStudents();
      history := map[];
      selectedClassId := Some(1);
      selectedDate := today;
      searchQuery := [];
      selectedStudents := [];
    }

    /** handleStatusChange. The row buttons only ever pass Present or Absent,
        and those keep the history free of stored Unmarked entries. */
    method HandleStatusChange(studentId: int, status: AttendanceStatus)
      requires Valid()
      modifies this`history
      ensures status != Unmarked ==> Valid()
      ensures history == SetStatus(old(history), selectedDate, studentId, status)
    {
      if status != Unmarked {
        SetStatusKeepsNoUnmarked(history, selectedDate, studentId, status);
      }
      var newHistory := history;
      if selectedDate !in newHistory {
        newHistory := newHistory[selectedDate := map[]];
      }
      newHistory := newHistory[selectedDate := newHistory[selectedDate][studentId := status]];
      history := newHistory;
    }

    /** handleMarkAllPresent and handleMarkAllAbsent, confirmed: nothing for an
        empty class, otherwise every student of the class gets `status`. */
    method HandleMarkAll(status: AttendanceStatus)
      requires Valid() && (status == Present || status == Absent)
      modifies this`history
      ensures Valid()
      ensures var inClass := StudentsInClass(students, selectedClassId);
        history == if inClass == [] then old(history)
                   else MarkAll(old(history), selectedDate, IdSet(inClass), status)
    {
      var inClass := StudentsInClass(students, selectedClassId);
      if inClass == [] {
        return;
      }
      MarkAllKeepsNoUnmarked(history, selectedDate, IdSet(inClass), status);
      history := MarkDate(history, selectedDate, inClass, status);
    }

    /** handleClearStatus, confirmed: nothing when the class is empty or nobody
        in it is marked; otherwise the class's entries on the date are deleted. */
    method HandleClearStatus()
      requires Valid()
      modifies this`history
      ensures Valid()
      ensures history == ClearedHistory(old(history), selectedDate, StudentsInClass(students, selectedClassId))
    {
      var inClass := StudentsInClass(students, selectedClassId);
      ClearedHistoryKeepsNoUnmarked(history, selectedDate, inClass);
      history := ClearClass(history, selectedDate, inClass);
    }

    /** handleSaveStudent: refused without a selected class; an id edits that
        student, no id (or 0) appends a new student of the selected class. */
    method HandleSaveStudent(data: StudentData, freshId: int) returns (accepted: bool)
      modifies this`students
      ensures accepted == Truthy(selectedClassId)
      ensures students == if !accepted then old(students)
        else if Truthy(data.id) then EditStudent(old(students), data.id.value, data.name, data.rollNumber)
        else old(students) + [Student(freshId, data.name, data.rollNumber, selectedClassId.value)]
    {
      if !Truthy(selectedClassId) {
        return false;
      }
      if Truthy(data.id) {
        students := EditStudent(students, data.id.value, data.name, data.rollNumber);
      } else {
        students := students + [Student(freshId, data.name, data.rollNumber, selectedClassId.value)];
      }
      return true;
    }

    /** handleDeleteStudent, confirmed: the student leaves the roster and every date. */
    method HandleDeleteStudent(studentId: int)
      requires Valid()
      modifies this`students, this`history
      ensures Valid()
      ensures students == Filter(old(students), IdIsNot(studentId))
      ensures history == Purge(old(history), {studentId})
    {
      students := Filter(students, IdIsNot(studentId));
      PurgeKeepsNoUnmarked(history, {studentId});
      history := RemoveFromEveryDate(history, [studentId]);
      assert (set i | i in [studentId]) == {studentId};
    }

    /** handleBulkImport: refused without a selected class; otherwise the rows
        are appended as new students of the selected class with fresh ids. */
    method HandleBulkImport(rows: seq<ParsedStudent>) returns (accepted: bool)
      modifies this`students
      ensures accepted == Truthy(selectedClassId)
      ensures students == if !accepted then old(students)
        else old(students) + ImportedStudents(rows, NextIdBase(old(students)), selectedClassId.value)
    {
      if !Truthy(selectedClassId) {
        return false;
      }
      var base := NextIdBase(students);
      students := students + ImportedStudents(rows, base, selectedClassId.value);
      return true;
    }

    /** handleSelectStudent: checking appends the id, unchecking removes every copy of it. */
    method HandleSelectStudent(studentId: int, checked: bool)
      modifies this`selectedStudents
      ensures selectedStudents == if checked then old(selectedStudents) + [studentId]
                                  else Filter(old(selectedStudents), IsNot(studentId))
    {
      if checked {
        selectedStudents := selectedStudents + [studentId];
      } else {
        selectedStudents := Filter(selectedStudents, IsNot(studentId));
      }
    }

    /** handleSelectAll: select the ids of the displayed list, or nothing. */
    method HandleSelectAll(checked: bool)
      modifies this`selectedStudents
      ensures selectedStudents == if checked
        then IdsOf(FilteredStudents(StudentsInClass(students, selectedClassId), searchQuery))
        else []
    {
      if checked {
        selectedStudents := IdsOf(FilteredStudents(StudentsInClass(students, selectedClassId), searchQuery));
      } else {
        selectedStudents := [];
      }
    }

    /** handleBulkDelete, confirmed: nothing for an empty selection; otherwise
        the selected students leave the roster and every date, and the
        selection is cleared. */
    method HandleBulkDelete()
      requires Valid()
      modifies this`students, this`history, this`selectedStudents
      ensures Valid()
      ensures old(selectedStudents) == [] ==>
        students == old(students) && history == old(history) && selectedStudents == []
      ensures old(selectedStudents) != [] ==>
        && students == Filter(old(students), IdNotIn(old(selectedStudents)))
        && history == Purge(old(history), set i | i in old(selectedStudents))
        && selectedStudents == []
    {
      if selectedStudents == [] {
        return;
      }
      var ids := selectedStudents;
      students := Filter(students, IdNotIn(ids));
      PurgeKeepsNoUnmarked(history, set i | i in ids);
      history := RemoveFromEveryDate(history, ids);
      selectedStudents := [];
    }

    /** handleSelectClass */
    method HandleSelectClass(id: int)
      modifies this`selectedClassId
      ensures selectedClassId == Some(id)
    {
      selectedClassId := Some(id);
    }

    /** The effect that runs after every change of the class list. */
    method SyncSelection()
      modifies this`selectedClassId
      ensures selectedClassId == FallbackSelection(classes, old(selectedClassId))
    {
      if |classes| == 0 {
        selectedClassId := None;
      } else if !Truthy(selectedClassId) || selectedClassId.value !in ClassIds(classes) {
        selectedClassId := Some(classes[0].id);
      }
    }

    /** handleSaveClass followed by the selection effect: an id renames that
        class; no id (or 0) appends a new class and selects it. */
    method HandleSaveClass(data: ClassData, freshId: int)
      modifies this`classes, this`selectedClassId
      ensures classes == if Truthy(data.id) then EditClass(old(classes), data.id.value, data.name)
                         else old(classes) + [Class(freshId, data.name)]
      ensures selectedClassId == FallbackSelection(classes,
        if Truthy(data.id) then old(selectedClassId) else Some(freshId))
      ensures selectedClassId.None? <==> classes == []
      ensures selectedClassId.Some? ==> selectedClassId.value in ClassIds(classes)
      ensures !Truthy(data.id) && freshId != 0 ==> selectedClassId == Some(freshId)
    {
      if Truthy(data.id) {
        classes := EditClass(classes, data.id.value, data.name);
      } else {
        classes := classes + [Class(freshId, data.name)];
        selectedClassId := Some(freshId);
      }
      SyncSelection();
    }

    /** handleDeleteClass, confirmed, followed by the selection effect: the
        class, its students and all their entries go; the selection is none
        exactly when no class is left, and otherwise names a remaining class. */
    method HandleDeleteClass(classId: int)
      requires Valid()
      modifies this`classes, this`students, this`history, this`selectedClassId
      ensures Valid()
      ensures classes == Filter(old(classes), ClassIdIsNot(classId))
      ensures students == Filter(old(students), NotInClass(classId))
      ensures history == Purge(old(history), IdSet(Filter(old(students), InClass(classId))))
      ensures selectedClassId == FallbackSelection(classes, old(selectedClassId))
      ensures selectedClassId.None? <==> classes == []
      ensures selectedClassId.Some? ==> selectedClassId.value in ClassIds(classes)
    {
      var toDelete := IdsOf(Filter(students, InClass(classId)));
      assert (set i | i in toDelete) == IdSet(Filter(students, InClass(classId))) by {
        var gone := Filter(students, InClass(classId));
        forall i | i in toDelete ensures i in IdSet(gone) {
          var k :| 0 <= k < |toDelete| && toDelete[k] == i;
          assert gone[k] in gone;
        }
        forall i | i in IdSet(gone) ensures i in toDelete {
          var s :| s in gone && s.id == i;
          var k :| 0 <= k < |gone| && gone[k] == s;
          assert toDelete[k] == i;
        }
      }
      classes := Filter(classes, ClassIdIsNot(classId));
      students := Filter(students, NotInClass(classId));
      PurgeKeepsNoUnmarked(history, set i | i in toDelete);
      history := RemoveFromEveryDate(history, toDelete);
      SyncSelection();
    }
  }
}
