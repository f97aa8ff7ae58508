/**
 * The per-user attendance calendar, dashboard/src/components/shared/AttendaceCalender.tsx:
 * the day-to-status map built from the fetched records, the dot drawn on each tile and the
 * label under the calendar. `dayKey` stands for `new Date(date).toDateString()`, which
 * depends on the browser's time zone.
 */
module AttendanceCalendar {
  import opened Ids
  import AttendanceModel

  /** The two fields of a fetched record the calendar reads. */
  datatype CalendarRecord = CalendarRecord(date: Millis, status: string)

  /** Some record falls on day `key`. */
  predicate OnDay(records: seq<CalendarRecord>, i: int, key: string, dayKey: Millis -> string) {
    0 <= i < |records| && dayKey(records[i].date) == key
  }

  /** Record `i` is the last one on day `key`. */
  predicate LastOnDay(records: seq<CalendarRecord>, i: int, key: string, dayKey: Millis -> string) {
    OnDay(records, i, key, dayKey) && forall j | i < j < |records| :: dayKey(records[j].date) != key
  }

  /**
   * `m` is the calendar's map of `records`: its keys are the days some record falls on,
   * and each day maps to the status of the last record on it.
   */
  ghost predicate Describes(m: map<string, string>, records: seq<CalendarRecord>, dayKey: Millis -> string) {
    && (forall key :: key in m <==> exists i :: OnDay(records, i, key, dayKey))
    && (forall key | key in m :: exists i :: LastOnDay(records, i, key, dayKey) && m[key] == records[i].status)
  }

  /**
   * `new Map(data.map(...))`: each record's day mapped to its status, a later record of
   * the same day replacing an earlier one.
   */
  function AttendanceMap(records: seq<CalendarRecord>, dayKey: Millis -> string): (m: map<string, string>)
    ensures Describes(m, records, dayKey)
  {
    if records == [] then map[]
    else
      var n := |records| - 1;
      var prior := AttendanceMap(records[..n], dayKey);
      DescribesStep(prior, records, dayKey);
      prior[dayKey(records[n].date) := records[n].status]
  }

  /** Writing the last record's day over the map of the others describes all of them. */
  lemma DescribesStep(prior: map<string, string>, records: seq<CalendarRecord>, dayKey: Millis -> string)
    requires records != [] && Describes(prior, records[..|records| - 1], dayKey)
    ensures var n := |records| - 1;
      Describes(prior[dayKey(records[n].date) := records[n].status], records, dayKey)
  {
    var n := |records| - 1;
    var front := records[..n];
    var m := prior[dayKey(records[n].date) := records[n].status];
    assert forall i | 0 <= i < n :: records[i] == front[i];
    assert LastOnDay(records, n, dayKey(records[n].date), dayKey);
    forall key | key in m && key != dayKey(records[n].date)
      ensures exists i :: LastOnDay(records, i, key, dayKey) && m[key] == records[i].status
    {
      var i :| LastOnDay(front, i, key, dayKey) && prior[key] == front[i].status;
      assert LastOnDay(records, i, key, dayKey);
    }
    forall key, i | OnDay(records, i, key, dayKey) ensures key in m {
      if i < n {
        assert OnDay(front, i, key, dayKey);
      }
    }
    forall key | key in m ensures exists i :: OnDay(records, i, key, dayKey) {
      if key != dayKey(records[n].date) {
        var i :| OnDay(front, i, key, dayKey);
        assert OnDay(records, i, key, dayKey);
      } else {
        assert OnDay(records, n, key, dayKey);
      }
    }
  }

  /** Of two records on the same day, the later one is what the calendar shows. */
  lemma LaterRecordWins(records: seq<CalendarRecord>, r: CalendarRecord, dayKey: Millis -> string)
    ensures AttendanceMap(records + [r], dayKey)[dayKey(r.date)] == r.status
  {
    assert (records + [r])[..|records|] == records;
  }

  /** The dot of a tile: none, or a dot titled with the status, green or red. */
  datatype Dot = NoDot | Dot(green: bool, title: string)

  /** `tileContent`: a dot when the day's status is truthy, green exactly for "present". */
  function TileContent(m: map<string, string>, key: string): (d: Dot)
    ensures d.Dot? <==> key in m && m[key] != ""
    ensures d.Dot? ==> d.title == m[key] && (d.green <==> m[key] == "present")
  {
    if key in m && m[key] != "" then Dot(m[key] == "present", m[key]) else NoDot
  }

  const NoRecord: string := "No Record"

  /** The label of the selected day: its status, or "No Record" when that is missing or empty. */
  function Label(m: map<string, string>, key: string): (s: string)
    ensures s != ""
    ensures key in m && m[key] != "" ==> s == m[key]
    ensures key !in m || m[key] == "" ==> s == NoRecord
  {
    if key in m && m[key] != "" then m[key] else NoRecord
  }

  /** The label names the status the tile's dot is titled with, and "No Record" exactly where there is no dot. */
  lemma LabelAgreesWithTile(m: map<string, string>, key: string)
    ensures TileContent(m, key).Dot? ==> Label(m, key) == TileContent(m, key).title
    ensures TileContent(m, key).NoDot? ==> Label(m, key) == NoRecord
  {
  }

  /** Every record holds one of the names the attendance schema stores. */
  predicate LedgerStatuses(records: seq<CalendarRecord>) {
    forall i | 0 <= i < |records| :: AttendanceModel.ParseStatus(records[i].status).Some?
  }

  /**
   * The ledger stores "PRESENT", "LATE" and "ABSENT", while the tile compares against
   * "present": on records from the ledger every dot is red, attendance or not.
   */
  lemma LedgerDotsAreRed(records: seq<CalendarRecord>, dayKey: Millis -> string, key: string)
    requires LedgerStatuses(records)
    ensures TileContent(AttendanceMap(records, dayKey), key).Dot? <==> exists i :: OnDay(records, i, key, dayKey)
    ensures TileContent(AttendanceMap(records, dayKey), key).Dot? ==> !TileContent(AttendanceMap(records, dayKey), key).green
  {
    var m := AttendanceMap(records, dayKey);
    if key in m {
      var i :| LastOnDay(records, i, key, dayKey) && m[key] == records[i].status;
      assert AttendanceModel.ParseStatus(records[i].status).Some?;
    }
  }

  /** A present day from the ledger, in particular, is drawn red. */
  lemma PresentDrawnRed(dayKey: Millis -> string, day: Millis)
    ensures TileContent(AttendanceMap([CalendarRecord(day, AttendanceModel.StatusName(AttendanceModel.Present))], dayKey), dayKey(day))
            == Dot(false, "PRESENT")
  {
    assert OnDay([CalendarRecord(day, "PRESENT")], 0, dayKey(day), dayKey);
    LaterRecordWins([], CalendarRecord(day, "PRESENT"), dayKey);
  }
}
