/** The per-student history list (components/StudentHistoryModal.tsx): one
    entry for every date on which the student has a stored, marked status,
    newest first. */
module HistoryView {
  import opened Types

  datatype HistoryEntry = HistoryEntry(date: string, status: AttendanceStatus)

  /** String order, character by character; on ISO `YYYY-MM-DD` keys it is
      the order of the dates. */
  predicate Before(a: string, b: string) {
    if a == [] then b != []
    else if b == [] then false
    else if a[0] != b[0] then a[0] < b[0]
    else Before(a[1..], b[1..])
  }

  lemma {:induction false} BeforeIrreflexive(a: string)
    ensures !Before(a, a)
  {
    if a != [] {
      BeforeIrreflexive(a[1..]);
    }
  }

  lemma {:induction false} BeforeTransitive(a: string, b: string, c: string)
    requires Before(a, b) && Before(b, c)
    ensures Before(a, c)
  {
    if a != [] && b != [] && c != [] && a[0] == b[0] && b[0] == c[0] {
      BeforeTransitive(a[1..], b[1..], c[1..]);
    }
  }

  /** Two different strings are ordered one way or the other. */
  lemma {:induction false} BeforeTotal(a: string, b: string)
    requires a != b
    ensures Before(a, b) || Before(b, a)
  {
    if a != [] && b != [] && a[0] == b[0] {
      assert a == [a[0]] + a[1..] && b == [b[0]] + b[1..];
      BeforeTotal(a[1..], b[1..]);
    }
  }

  /** `d` is not before any date of `ds`. */
  predicate IsLatest(d: string, ds: set<string>) {
    d in ds && forall e | e in ds :: !Before(d, e)
  }

  /** A finite set of dates that is not empty has a latest one. */
  lemma {:induction false} LatestExists(ds: set<string>)
    requires ds != {}
    ensures exists d :: IsLatest(d, ds)
    decreases |ds|
  {
    var x :| x in ds;
    var rest := ds - {x};
    if rest == {} {
      assert ds == {x};
      BeforeIrreflexive(x);
      assert IsLatest(x, ds);
    } else {
      LatestExists(rest);
      var m :| IsLatest(m, rest);
      if Before(m, x) {
        forall e | e in ds ensures !Before(x, e) {
          if e == x {
            BeforeIrreflexive(x);
          } else if Before(x, e) {
            BeforeTransitive(m, x, e);
          }
        }
        assert IsLatest(x, ds);
      } else {
        assert IsLatest(m, ds);
      }
    }
  }

  /** The latest of a set of dates. */
  ghost function Latest(ds: set<string>): (d: string)
    requires ds != {}
    ensures IsLatest(d, ds)
  {
    LatestExists(ds);
    var d :| IsLatest(d, ds); d
  }

  /** Strictly newest first: every earlier entry is after every later one. */
  predicate NewestFirst(dates: seq<string>) {
    forall i, j | 0 <= i < j < |dates| :: Before(dates[j], dates[i])
  }

  /** The dates of `ds`, newest first. */
  ghost function SortNewestFirst(ds: set<string>): (r: seq<string>)
    ensures forall d :: d in r <==> d in ds
    ensures NewestFirst(r)
    ensures |r| == |ds|
    decreases |ds|
  {
    if ds == {} then []
    else
      var d := Latest(ds);
      var rest := SortNewestFirst(ds - {d});
      assert forall e | e in rest :: Before(e, d) by {
        forall e | e in rest ensures Before(e, d) {
          BeforeTotal(e, d);
        }
      }
      [d] + rest
  }

  /** The dates on which the student has a stored status other than Unmarked:
      `records[id] || Unmarked` followed by the filter. */
  function MarkedDates(history: AttendanceHistory, id: int): set<string> {
    set d | d in history && id in history[d] && history[d][id] != Unmarked
  }

  /** `e` is what the history holds for the student on `e.date`, and it is not Unmarked. */
  predicate IsStoredMark(history: AttendanceHistory, id: int, e: HistoryEntry) {
    e.date in history && id in history[e.date] && e.status == history[e.date][id] && e.status != Unmarked
  }

  /** `studentHistory`: one entry for each date with a marked status for the
      student, carrying that status, none Unmarked, each date once, newest first. */
  ghost function StudentHistory(history: AttendanceHistory, id: int): (r: seq<HistoryEntry>)
    ensures forall e | e in r :: IsStoredMark(history, id, e)
    ensures forall d | d in history && id in history[d] && history[d][id] != Unmarked ::
      HistoryEntry(d, history[d][id]) in r
    ensures forall i, j | 0 <= i < j < |r| :: Before(r[j].date, r[i].date)
    ensures |r| <= |history|
  {
    var dates := SortNewestFirst(MarkedDates(history, id));
    assert forall k | 0 <= k < |dates| :: dates[k] in MarkedDates(history, id);
    var r := seq(|dates|, k requires 0 <= k < |dates| => HistoryEntry(dates[k], history[dates[k]][id]));
    forall d | d in history && id in history[d] && history[d][id] != Unmarked
      ensures HistoryEntry(d, history[d][id]) in r
    {
      assert d in MarkedDates(history, id);
      assert d in dates;
      var k :| 0 <= k < |dates| && dates[k] == d;
      assert r[k] == HistoryEntry(d, history[d][id]);
    }
    assert MarkedDates(history, id) <= history.Keys;
    SubsetCard(MarkedDates(history, id), history.Keys);
    r
  }

  lemma SubsetCard(a: set<string>, b: set<string>)
    requires a <= b
    ensures |a| <= |b|
  {
    assert b == a + (b - a);
  }

  /** No date appears twice in the history. */
  lemma HistoryDatesUnique(history: AttendanceHistory, id: int)
    ensures var r := StudentHistory(history, id);
      forall i, j | 0 <= i < j < |r| :: r[i].date != r[j].date
  {
    var r := StudentHistory(history, id);
    forall i, j | 0 <= i < j < |r| ensures r[i].date != r[j].date {
      BeforeIrreflexive(r[i].date);
    }
  }

  /** A student with no marked entry has an empty history. */
  lemma NoMarksNoHistory(history: AttendanceHistory, id: int)
    requires forall d | d in history && id in history[d] :: history[d][id] == Unmarked
    ensures StudentHistory(history, id) == []
  {
  }
}
