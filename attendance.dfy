/** The attendance history as a map of maps, and the updates the application's
    handlers make to it (App.tsx), each stated by its effect on every
    (date, student id) entry. The handlers in module App are loops proved to
    compute exactly these functions. */
module Attendance {
  import opened Types

  /** `history[date] || {}` */
  function Bucket(h: AttendanceHistory, date: string): AttendanceRecord {
    if date in h then h[date] else map[]
  }

  /** The entry stored for a student on a date, if any. */
  function Entry(h: AttendanceHistory, date: string, id: int): Option<AttendanceStatus> {
    if date in h && id in h[date] then Some(h[date][id]) else None
  }

  /** The status as read back: a missing entry reads as Unmarked. */
  function StatusOf(h: AttendanceHistory, date: string, id: int): AttendanceStatus {
    match Entry(h, date, id)
    case Some(st) => st
    case None => Unmarked
  }

  /** Unmarked is never stored: it is only the reading of a missing entry. */
  ghost predicate NoUnmarked(h: AttendanceHistory) {
    forall d, id | d in h && id in h[d] :: h[d][id] != Unmarked
  }

  /** handleStatusChange: upsert `history[date][id] = status`, creating the bucket. */
  function SetStatus(h: AttendanceHistory, date: string, id: int, status: AttendanceStatus): (r: AttendanceHistory)
    ensures r.Keys == h.Keys + {date}
    ensures Entry(r, date, id) == Some(status)
    ensures forall d, i | d != date || i != id :: Entry(r, d, i) == Entry(h, d, i)
  {
    h[date := Bucket(h, date)[id := status]]
  }

  /** Setting the same status twice is the same as setting it once. */
  lemma SetStatusIdempotent(h: AttendanceHistory, date: string, id: int, status: AttendanceStatus)
    ensures SetStatus(SetStatus(h, date, id, status), date, id, status) == SetStatus(h, date, id, status)
  {
    var once := SetStatus(h, date, id, status);
    assert Bucket(once, date)[id := status] == Bucket(once, date);
  }

  lemma SetStatusKeepsNoUnmarked(h: AttendanceHistory, date: string, id: int, status: AttendanceStatus)
    requires NoUnmarked(h) && status != Unmarked
    ensures NoUnmarked(SetStatus(h, date, id, status))
  {
    var r := SetStatus(h, date, id, status);
    forall d, i | d in r && i in r[d] ensures r[d][i] != Unmarked {
      assert Entry(r, d, i) == Some(r[d][i]);
      if d != date || i != id {
        assert Entry(h, d, i) == Some(r[d][i]);
      }
    }
  }

  /** handleMarkAllPresent / handleMarkAllAbsent: every id in `ids` gets
      `status` on `date`; every other entry is kept. */
  function MarkAll(h: AttendanceHistory, date: string, ids: set<int>, status: AttendanceStatus): (r: AttendanceHistory)
    ensures r.Keys == h.Keys + {date}
    ensures forall i | i in ids :: Entry(r, date, i) == Some(status)
    ensures forall d, i | d != date || i !in ids :: Entry(r, d, i) == Entry(h, d, i)
  {
    h[date := Bucket(h, date) + map i | i in ids :: status]
  }

  lemma MarkAllKeepsNoUnmarked(h: AttendanceHistory, date: string, ids: set<int>, status: AttendanceStatus)
    requires NoUnmarked(h) && status != Unmarked
    ensures NoUnmarked(MarkAll(h, date, ids, status))
  {
    var r := MarkAll(h, date, ids, status);
    forall d, i | d in r && i in r[d] ensures r[d][i] != Unmarked {
      assert Entry(r, d, i) == Some(r[d][i]);
      if d != date || i !in ids {
        assert Entry(h, d, i) == Some(r[d][i]);
      }
    }
  }

  /** handleClearStatus: the entries of `ids` on `date` are deleted, and the
      date's bucket is deleted when that leaves it empty. */
  function Clear(h: AttendanceHistory, date: string, ids: set<int>): (r: AttendanceHistory)
    ensures forall i | i in ids :: Entry(r, date, i) == None
    ensures forall d, i | d != date || i !in ids :: Entry(r, d, i) == Entry(h, d, i)
    ensures date in r <==> date in h && h[date].Keys - ids != {}
    ensures forall d | d != date :: d in r <==> d in h
  {
    if date in h then
      var b := h[date] - ids;
      assert b.Keys == h[date].Keys - ids;
      assert |b| == 0 <==> b.Keys == {} by {
        assert |b| == |b.Keys|;
      }
      if |b| == 0 then h - {date} else h[date := b]
    else h
  }

  lemma ClearKeepsNoUnmarked(h: AttendanceHistory, date: string, ids: set<int>)
    requires NoUnmarked(h)
    ensures NoUnmarked(Clear(h, date, ids))
  {
    var r := Clear(h, date, ids);
    forall d, i | d in r && i in r[d] ensures r[d][i] != Unmarked {
      assert Entry(r, d, i) == Some(r[d][i]);
      assert Entry(h, d, i) == Some(r[d][i]);
    }
  }

  /** The student-deleting handlers: the entries of `ids` are deleted from
      every date; a bucket left empty stays in the history. */
  function Purge(h: AttendanceHistory, ids: set<int>): (r: AttendanceHistory)
    ensures r.Keys == h.Keys
    ensures forall d, i :: Entry(r, d, i) == if i in ids then None else Entry(h, d, i)
  {
    map d | d in h :: h[d] - ids
  }

  lemma PurgeKeepsNoUnmarked(h: AttendanceHistory, ids: set<int>)
    requires NoUnmarked(h)
    ensures NoUnmarked(Purge(h, ids))
  {
    var r := Purge(h, ids);
    forall d, i | d in r && i in r[d] ensures r[d][i] != Unmarked {
      assert Entry(r, d, i) == Some(r[d][i]);
    }
  }
}
