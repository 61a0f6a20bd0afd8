/**
 * The post-processing of the query results in `EventService.getMachineStats`
 * and `EventService.getTopDefectLines` (service/EventService.java).
 */
module Stats {
  import opened Wrappers
  import opened Entity
  import opened Repo
  import opened Responses

  /** At this many defects per hour, or more, a machine is in `Warning`. */
  const WARNING_RATE := 2.0

  /** `Duration.between(start, end).toSeconds()` for millisecond instants: whole seconds, rounded down. */
  function WindowSeconds(start: int, end: int): (seconds: int)
    ensures seconds * 1000 <= end - start < seconds * 1000 + 1000
  {
    (end - start) / 1000
  }

  /** `defectsCount / windowHours` when the window has positive length, else 0; exact, not rounded. */
  function AvgDefectRate(defects: int, seconds: int): (rate: real)
    ensures seconds <= 0 ==> rate == 0.0
    ensures seconds > 0 ==> rate * (seconds as real) == (defects * 3600) as real
  {
    var hours := seconds as real / 3600.0;
    if hours > 0.0 then
      var rate := defects as real / hours;
      assert rate * hours == defects as real;
      assert seconds as real == hours * 3600.0;
      assert rate * (seconds as real) == (rate * hours) * 3600.0;
      rate
    else 0.0
  }

  /** `Healthy` below two defects per hour, `Warning` from there on. */
  function StatusFor(rate: real): (status: HealthStatus)
    ensures status == Healthy <==> rate < 2.0
    ensures status == Warning <==> rate >= 2.0
  {
    if rate < WARNING_RATE then Healthy else Warning
  }

  /** Scaling by a positive factor keeps the sign. */
  lemma ScaleKeepsSign(x: real, s: real)
    requires s > 0.0
    ensures x >= 0.0 <==> x * s >= 0.0
  {
    if x >= 0.0 {
      assert x * s >= 0.0;
    } else {
      assert x * s < 0.0;
    }
  }

  /** The threshold in integers: `Warning` exactly when the window is positive and `defects * 3600 >= 2 * seconds`. */
  lemma WarningThreshold(defects: int, seconds: int)
    ensures StatusFor(AvgDefectRate(defects, seconds)) == Warning
        <==> seconds > 0 && defects * 3600 >= 2 * seconds
  {
    var rate := AvgDefectRate(defects, seconds);
    if seconds > 0 {
      var s := seconds as real;
      ScaleKeepsSign(rate - 2.0, s);
      assert (rate - 2.0) * s == rate * s - 2.0 * s;
      assert rate * s == (defects * 3600) as real;
    }
  }

  /** `getMachineStats` after the query: a missing row or a NULL column reads as 0. */
  function MachineStats(rows: seq<StatsRow>, machineId: string, start: int, end: int): (r: StatsResponse)
    ensures r.machineId == machineId
    ensures rows == [] ==> r.eventsCount == 0 && r.defectsCount == 0
    ensures rows != [] ==> r.eventsCount == rows[0].count && r.defectsCount == rows[0].defectSum.GetOr(0)
    ensures r.status == Warning
        <==> WindowSeconds(start, end) > 0 && r.defectsCount * 3600 >= 2 * WindowSeconds(start, end)
    ensures WindowSeconds(start, end) > 0 ==>
      r.avgDefectRate * (WindowSeconds(start, end) as real) == (r.defectsCount * 3600) as real
    ensures WindowSeconds(start, end) <= 0 ==> r.avgDefectRate == 0.0 && r.status == Healthy
    ensures r.avgDefectRate == AvgDefectRate(r.defectsCount, WindowSeconds(start, end))
  {
    var eventsCount := if rows != [] then rows[0].count else 0;
    var defectsCount := if rows != [] then rows[0].defectSum.GetOr(0) else 0;
    var seconds := WindowSeconds(start, end);
    var rate := AvgDefectRate(defectsCount, seconds);
    WarningThreshold(defectsCount, seconds);
    StatsResponse(machineId, eventsCount, defectsCount, rate, StatusFor(rate))
  }

  /** The exact rate in integers: times the window's seconds it is 3600 times the defects. */
  lemma RateIsExact(defects: int, seconds: int, rate: real)
    requires rate == AvgDefectRate(defects, seconds)
    ensures seconds > 0 ==> rate * (seconds as real) == (defects * 3600) as real
    ensures seconds <= 0 ==> rate == 0.0
  {
  }

  /** Defects per 100 events, 0 for a group without events; exact, not rounded. */
  function DefectsPercent(totalDefects: int, eventCount: int): (p: real)
    ensures eventCount <= 0 ==> p == 0.0
    ensures eventCount > 0 ==> p * (eventCount as real) == (totalDefects * 100) as real
  {
    if eventCount > 0 then (totalDefects * 100) as real / eventCount as real else 0.0
  }

  /** One query row as a response: a NULL sum reads as 0, the percent is exact. */
  function ToResponse(row: LineRow): (r: TopDefectLineResponse)
    ensures r.lineId == row.lineId && r.eventCount == row.eventCount
    ensures r.totalDefects == (if row.defectSum.Some? then row.defectSum.value else 0)
    ensures r.defectsPercent == DefectsPercent(r.totalDefects, r.eventCount)
    ensures r.eventCount <= 0 ==> r.defectsPercent == 0.0
    ensures r.eventCount > 0 ==> r.defectsPercent * (r.eventCount as real) == (r.totalDefects * 100) as real
  {
    var totalDefects := row.defectSum.GetOr(0);
    TopDefectLineResponse(row.lineId, totalDefects, row.eventCount, DefectsPercent(totalDefects, row.eventCount))
  }

  /** `getTopDefectLines` after the query: the first `limit` rows, in query order, a NULL sum read as 0. */
  function TopDefectLines(rows: seq<LineRow>, limit: int): (r: seq<TopDefectLineResponse>)
    requires limit >= 0
    ensures |r| == if limit < |rows| then limit else |rows|
    ensures forall i :: 0 <= i < |r| ==>
      && r[i].lineId == rows[i].lineId
      && r[i].totalDefects == (if rows[i].defectSum.Some? then rows[i].defectSum.value else 0)
      && r[i].eventCount == rows[i].eventCount
    ensures forall i :: 0 <= i < |r| ==> r[i].defectsPercent == DefectsPercent(r[i].totalDefects, r[i].eventCount)
    ensures forall i :: 0 <= i < |r| && r[i].eventCount <= 0 ==> r[i].defectsPercent == 0.0
    ensures forall i :: 0 <= i < |r| && r[i].eventCount > 0 ==>
      r[i].defectsPercent * (r[i].eventCount as real) == (r[i].totalDefects * 100) as real
  {
    var n := if limit < |rows| then limit else |rows|;
    seq(n, i requires 0 <= i < n => ToResponse(rows[i]))
  }

  /** Cutting the sorted, line-distinct rows at `limit` keeps the order and the distinct lines. */
  lemma {:induction false} TruncationKeepsOrder(rows: seq<LineRow>, limit: int)
    requires limit >= 0 && SortedByDefects(rows) && LinesDistinct(rows)
    ensures var r := TopDefectLines(rows, limit);
      && (forall i, j :: 0 <= i < j < |r| ==> r[i].totalDefects >= r[j].totalDefects)
      && (forall i, j :: 0 <= i < j < |r| ==> r[i].lineId != r[j].lineId)
  {
    var r := TopDefectLines(rows, limit);
    forall i, j | 0 <= i < j < |r|
      ensures r[i].totalDefects >= r[j].totalDefects && r[i].lineId != r[j].lineId
    {
      assert r[i].totalDefects == RowKey(rows[i]) && r[j].totalDefects == RowKey(rows[j]);
    }
  }

  /** Each returned line is a group of the filtered table and carries that group's totals. */
  lemma TopLinesAreGroups(t: seq<Event>, factoryId: string, from: int, to: int, limit: int)
    requires limit >= 0
    ensures var r := TopDefectLines(FindTopDefectLines(t, factoryId, from, to), limit);
      forall i :: 0 <= i < |r| ==>
        var group := Select(Select(t, FactoryWindow(factoryId, from, to)), OnLine(r[i].lineId));
        && group != []
        && r[i].totalDefects == Measure(group, DefectTotal)
        && r[i].eventCount == |group|
  {
    var filtered := Select(t, FactoryWindow(factoryId, from, to));
    var rows := FindTopDefectLines(t, factoryId, from, to);
    var r := TopDefectLines(rows, limit);
    forall i | 0 <= i < |r|
      ensures Select(filtered, OnLine(r[i].lineId)) != []
      ensures r[i].totalDefects == Measure(Select(filtered, OnLine(r[i].lineId)), DefectTotal)
      ensures r[i].eventCount == |Select(filtered, OnLine(r[i].lineId))|
    {
      assert rows[i] in rows;
      var e :| e in filtered && e.lineId == rows[i].lineId;
      assert e in Select(filtered, OnLine(r[i].lineId));
    }
  }

  /** Fewer than `limit` lines come back only when every line of the filtered table is among them. */
  lemma TopLinesComplete(t: seq<Event>, factoryId: string, from: int, to: int, limit: int)
    requires limit >= 0
    ensures var r := TopDefectLines(FindTopDefectLines(t, factoryId, from, to), limit);
      |r| < limit ==>
        forall e :: e in Select(t, FactoryWindow(factoryId, from, to)) ==>
          exists i :: 0 <= i < |r| && r[i].lineId == e.lineId
  {
    var filtered := Select(t, FactoryWindow(factoryId, from, to));
    var rows := FindTopDefectLines(t, factoryId, from, to);
    var r := TopDefectLines(rows, limit);
    forall e | |r| < limit && e in filtered
      ensures exists i :: 0 <= i < |r| && r[i].lineId == e.lineId
    {
      var row :| row in rows && row.lineId == e.lineId;
      var i :| 0 <= i < |rows| && rows[i] == row;
      assert r[i].lineId == e.lineId;
    }
  }

  /** A query row at or beyond the cut has no larger sum than the last row kept. */
  lemma RowPastCutIsNoLarger(rows: seq<LineRow>, limit: int, j: int)
    requires limit >= 0 && SortedByDefects(rows)
    requires 0 < |TopDefectLines(rows, limit)| <= j < |rows|
    ensures RowKey(rows[j]) <= TopDefectLines(rows, limit)[|TopDefectLines(rows, limit)| - 1].totalDefects
  {
    var r := TopDefectLines(rows, limit);
    var last := |r| - 1;
    assert RowKey(rows[last]) >= RowKey(rows[j]);
    assert r[last].totalDefects == RowKey(rows[last]);
  }

  /** The lines returned are the top ones: a line left out has no larger group sum than the last line returned. */
  lemma TopLinesAreTop(t: seq<Event>, factoryId: string, from: int, to: int, limit: int)
    requires limit >= 0
    ensures var filtered := Select(t, FactoryWindow(factoryId, from, to));
      var r := TopDefectLines(FindTopDefectLines(t, factoryId, from, to), limit);
      forall e :: e in filtered && |r| > 0 && (forall i :: 0 <= i < |r| ==> r[i].lineId != e.lineId) ==>
        Measure(Select(filtered, OnLine(e.lineId)), DefectTotal) <= r[|r| - 1].totalDefects
  {
    var filtered := Select(t, FactoryWindow(factoryId, from, to));
    var rows := FindTopDefectLines(t, factoryId, from, to);
    var r := TopDefectLines(rows, limit);
    forall e | e in filtered && |r| > 0 && (forall i :: 0 <= i < |r| ==> r[i].lineId != e.lineId)
      ensures Measure(Select(filtered, OnLine(e.lineId)), DefectTotal) <= r[|r| - 1].totalDefects
    {
      var row :| row in rows && row.lineId == e.lineId;
      var j :| 0 <= j < |rows| && rows[j] == row;
      assert j >= |r|;
      assert RowKey(row) == Measure(Select(filtered, OnLine(e.lineId)), DefectTotal);
      RowPastCutIsNoLarger(rows, limit, j);
    }
  }

  /**
   * `getTopDefectLines` over a table of records: at most `limit` distinct
   * lines of the factory in `[from, to)`, largest defect sum first, each with
   * its group's totals and percent; no line left out beats the last one
   * returned, and when fewer than `limit` come back, every line is there.
   */
  function TopLinesOf(t: seq<Event>, factoryId: string, from: int, to: int, limit: int): (r: seq<TopDefectLineResponse>)
    requires limit >= 0
    ensures |r| <= limit
    ensures forall i, j :: 0 <= i < j < |r| ==> r[i].totalDefects >= r[j].totalDefects
    ensures forall i, j :: 0 <= i < j < |r| ==> r[i].lineId != r[j].lineId
    ensures forall i :: 0 <= i < |r| ==>
      var group := Select(Select(t, FactoryWindow(factoryId, from, to)), OnLine(r[i].lineId));
      && group != []
      && r[i].totalDefects == Measure(group, DefectTotal)
      && r[i].eventCount == |group|
    ensures |r| < limit ==>
      forall e :: e in Select(t, FactoryWindow(factoryId, from, to)) ==>
        exists i :: 0 <= i < |r| && r[i].lineId == e.lineId
    ensures forall e ::
      e in Select(t, FactoryWindow(factoryId, from, to)) && |r| > 0 && (forall i :: 0 <= i < |r| ==> r[i].lineId != e.lineId) ==>
      Measure(Select(Select(t, FactoryWindow(factoryId, from, to)), OnLine(e.lineId)), DefectTotal)
        <= r[|r| - 1].totalDefects
    ensures forall i :: 0 <= i < |r| ==> r[i].defectsPercent == DefectsPercent(r[i].totalDefects, r[i].eventCount)
  {
    var rows := FindTopDefectLines(t, factoryId, from, to);
    TopLinesAreTop(t, factoryId, from, to, limit);
    TruncationKeepsOrder(rows, limit);
    TopLinesAreGroups(t, factoryId, from, to, limit);
    TopLinesComplete(t, factoryId, from, to, limit);
    TopDefectLines(rows, limit)
  }
}
