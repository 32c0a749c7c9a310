/** The three counters of the attendance summary (components/AttendanceSummary.tsx). */
module Summary {
  import opened Types

  /** The students of `records` whose status is `st`. */
  function WithStatus(records: AttendanceRecord, st: AttendanceStatus): set<int> {
    set k | k in records && records[k] == st
  }

  /** The students counted by the `default` branch: neither Present nor Absent. */
  function Others(records: AttendanceRecord): set<int> {
    set k | k in records && records[k] != Present && records[k] != Absent
  }

  /** The `summary` memo: one pass over the records, Present and Absent each
      counted, anything else counted as unmarked. The counts are those of the
      students with each status. */
  method Summarize(records: AttendanceRecord) returns (present: nat, absent: nat, unmarked: nat)
    ensures present == |WithStatus(records, Present)|
    ensures absent == |WithStatus(records, Absent)|
    ensures unmarked == |Others(records)|
  {
    present, absent, unmarked := 0, 0, 0;
    var todo := records.Keys;
    ghost var done: set<int> := {};
    while todo != {}
      invariant done <= records.Keys && todo == records.Keys - done
      invariant Counted(records, done, present, absent, unmarked)
      decreases |todo|
    {
      NonEmptyHasElement(todo);
      var id :| id in todo;
      VisitOne(records, done, id, present, absent, unmarked);
      var status := records[id];
      if status == Present {
        present := present + 1;
      } else if status == Absent {
        absent := absent + 1;
      } else {
        unmarked := unmarked + 1;
      }
      todo := todo - {id};
      done := done + {id};
    }
    VisitedAll(records, done, present, absent, unmarked);
  }

  /** The counters hold the counts among the visited records `done`. */
  predicate Counted(records: AttendanceRecord, done: set<int>, present: nat, absent: nat, unmarked: nat) {
    && present == |WithStatus(records, Present) * done|
    && absent == |WithStatus(records, Absent) * done|
    && unmarked == |Others(records) * done|
  }

  /** Visiting one more record adds it to the count of its own status only. */
  lemma VisitOne(records: AttendanceRecord, done: set<int>, id: int, present: nat, absent: nat, unmarked: nat)
    requires id in records && id !in done
    requires Counted(records, done, present, absent, unmarked)
    ensures Counted(records, done + {id},
                    present + (if records[id] == Present then 1 else 0),
                    absent + (if records[id] == Absent then 1 else 0),
                    unmarked + (if records[id] != Present && records[id] != Absent then 1 else 0))
  {
    CountStep(WithStatus(records, Present), done, id);
    CountStep(WithStatus(records, Absent), done, id);
    CountStep(Others(records), done, id);
  }

  /** Once every record is visited the counts are complete. */
  lemma VisitedAll(records: AttendanceRecord, done: set<int>, present: nat, absent: nat, unmarked: nat)
    requires done == records.Keys
    requires Counted(records, done, present, absent, unmarked)
    ensures present == |WithStatus(records, Present)|
    ensures absent == |WithStatus(records, Absent)|
    ensures unmarked == |Others(records)|
  {
    assert WithStatus(records, Present) * done == WithStatus(records, Present);
    assert WithStatus(records, Absent) * done == WithStatus(records, Absent);
    assert Others(records) * done == Others(records);
  }

  /** Adding one more visited key counts it when it has the status. */
  lemma CountStep(matching: set<int>, done: set<int>, id: int)
    requires id !in done
    ensures |matching * (done + {id})| == |matching * done| + if id in matching then 1 else 0
  {
    if id in matching {
      assert matching * (done + {id}) == matching * done + {id};
    } else {
      assert matching * (done + {id}) == matching * done;
    }
  }

  /** Every record is counted exactly once: the three counts add up to the
      number of records. */
  lemma CountsPartition(records: AttendanceRecord)
    ensures |WithStatus(records, Present)| + |WithStatus(records, Absent)| + |Others(records)| == |records|
  {
    var p, a, o := WithStatus(records, Present), WithStatus(records, Absent), Others(records);
    assert p !! a && (p + a) !! o;
    assert p + a + o == records.Keys;
    assert |p + a| == |p| + |a|;
    assert |p + a + o| == |p + a| + |o|;
  }

  /** Since every status is Present, Absent or Unmarked, the unmarked count is
      the number of records equal to Unmarked. */
  lemma OthersAreUnmarked(records: AttendanceRecord)
    ensures Others(records) == WithStatus(records, Unmarked)
  {
    forall k | k in Others(records) ensures k in WithStatus(records, Unmarked) {
      assert records[k].Unmarked?;
    }
  }

  /** A set that is not empty has an element. */
  lemma NonEmptyHasElement(s: set<int>)
    requires s != {}
    ensures exists x :: x in s
  {
    if forall x :: x !in s {
      assert false;
    }
  }

  /** An empty record map gives three zero counts. */
  lemma EmptyRecordsCountZero()
    ensures |WithStatus(map[], Present)| == 0 && |WithStatus(map[], Absent)| == 0 && |Others(map[])| == 0
  {
    assert WithStatus(map[], Present) == {};
    assert WithStatus(map[], Absent) == {};
    assert Others(map[]) == {};
  }

  /** One student present, one absent: counts 1, 1 and 0. */
  lemma OnePresentOneAbsent()
    ensures var records := map[1 := Present, 2 := Absent];
      |WithStatus(records, Present)| == 1 && |WithStatus(records, Absent)| == 1 && |Others(records)| == 0
  {
    var records := map[1 := Present, 2 := Absent];
    assert WithStatus(records, Present) == {1};
    assert WithStatus(records, Absent) == {2};
    assert Others(records) == {};
  }
}
