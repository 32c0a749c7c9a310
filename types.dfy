/** The entities of the roster (types.ts) and the values passed between the
    forms and the application. */
module Types {

  datatype Option<+T> = None | Some(value: T)

  datatype Result<+T, +E> = Ok(value: T) | Err(error: E)

  datatype AttendanceStatus = Present | Absent | Unmarked

  datatype Class = Class(id: int, name: string)

  datatype Student = Student(id: int, name: string, rollNumber: string, classId: int)

  /** Status per student id on one date. */
  type AttendanceRecord = map<int, AttendanceStatus>

  /** Date key (an ISO `YYYY-MM-DD` string) to that date's record. */
  type AttendanceHistory = map<string, AttendanceRecord>

  /** A row read from an import file: a student without id and class. */
  datatype ParsedStudent = ParsedStudent(rollNumber: string, name: string)

  /** What the student form hands to the application; `id` is absent when adding. */
  datatype StudentData = StudentData(id: Option<int>, name: string, rollNumber: string)

  /** What the class form hands to the application; `id` is absent when adding. */
  datatype ClassData = ClassData(id: Option<int>, name: string)

  /** JavaScript truthiness of a `number | null | undefined`: null, undefined and 0 are false. */
  predicate Truthy(n: Option<int>) {
    n.Some? && n.value != 0
  }

  /** `students.map(s => s.id)` */
  function IdsOf(students: seq<Student>): (ids: seq<int>)
    ensures |ids| == |students|
    ensures forall i :: 0 <= i < |students| ==> ids[i] == students[i].id
  {
    seq(|students|, i requires 0 <= i < |students| => students[i].id)
  }

  function IdSet(students: seq<Student>): set<int> {
    set s | s in students :: s.id
  }

  lemma IdSetSnoc(students: seq<Student>, s: Student)
    ensures IdSet(students + [s]) == IdSet(students) + {s.id}
  {
    assert forall t | t in students + [s] :: t in students || t == s;
  }

  function ClassIds(classes: seq<Class>): set<int> {
    set c | c in classes :: c.id
  }

  /** No two students share an id. */
  predicate DistinctIds(students: seq<Student>) {
    forall i, j :: 0 <= i < j < |students| ==> students[i].id != students[j].id
  }
}
