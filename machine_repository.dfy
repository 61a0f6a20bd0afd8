/**
 * The meaning of the two JPQL queries of repo/MachineRepository.java, as
 * functions over the rows of the `MachineEvent` table, and of the table
 * itself as the values of the store keyed by `eventId`.
 */
module Repo {
  import opened Wrappers
  import opened Entity

  /** `defectCount = -1` means "unknown": counted as an event, never summed. */
  const UNKNOWN_DEFECTS := -1

  /** Result row of `getStatsData`: `COUNT(e)` and a `SUM` that is NULL over no rows. */
  datatype StatsRow = StatsRow(count: int, defectSum: Option<int>)

  /** Result row of `findTopDefectLines`: `lineId`, the `SUM` and `COUNT(e)` of its group. */
  datatype LineRow = LineRow(lineId: string, defectSum: Option<int>, eventCount: int)

  /** The WHERE clauses of the two queries, and the group predicate of `GROUP BY e.lineId`. */
  datatype Filter =
    | MachineWindow(machineId: string, start: int, end: int)
    | FactoryWindow(factoryId: string, from: int, to: int)
    | OnLine(lineId: string)

  /** The aggregates the queries select: `COUNT(e)` and the sentinel-aware `SUM`. */
  datatype Metric = EventCount | DefectTotal

  /** The half-open window `[start, end)`: `eventTime >= :start AND eventTime < :end`. */
  predicate InWindow(t: int, start: int, end: int): (inside: bool)
    ensures inside ==> start < end
    ensures t == start ==> (inside <==> start < end)
    ensures t == end ==> !inside
  {
    start <= t && t < end
  }

  /** The WHERE clauses: machine or factory equality with the half-open window, or line equality. */
  predicate Matches(e: Event, f: Filter): (keep: bool)
    ensures f.MachineWindow? ==> (keep <==> e.machineId == f.machineId && f.start <= e.eventTime < f.end)
    ensures f.FactoryWindow? ==> (keep <==> e.factoryId == f.factoryId && f.from <= e.eventTime < f.to)
    ensures f.OnLine? ==> (keep <==> e.lineId == f.lineId)
  {
    match f
    case MachineWindow(m, start, end) => e.machineId == m && InWindow(e.eventTime, start, end)
    case FactoryWindow(fid, from, to) => e.factoryId == fid && InWindow(e.eventTime, from, to)
    case OnLine(g) => e.lineId == g
  }

  /** The rows a WHERE clause keeps, in table order. */
  function Select(t: seq<Event>, f: Filter): (r: seq<Event>)
    ensures |r| <= |t|
    ensures forall e :: e in r <==> e in t && Matches(e, f)
  {
    if t == [] then []
    else (if Matches(t[0], f) then [t[0]] else []) + Select(t[1..], f)
  }

  /** What one row adds to an aggregate: 1 to `COUNT`, `CASE WHEN defectCount != -1 THEN defectCount ELSE 0 END` to `SUM`. */
  function Weight(e: Event, m: Metric): (w: int)
    ensures m == EventCount ==> w == 1
    ensures m == DefectTotal && e.defectCount == UNKNOWN_DEFECTS ==> w == 0
    ensures m == DefectTotal && e.defectCount != UNKNOWN_DEFECTS ==> w == e.defectCount as int
    ensures m == DefectTotal && e.defectCount >= UNKNOWN_DEFECTS ==> w >= 0
  {
    match m
    case EventCount => 1
    case DefectTotal => if e.defectCount != UNKNOWN_DEFECTS then e.defectCount as int else 0
  }

  /** An aggregate over a sequence of rows. */
  function Measure(t: seq<Event>, m: Metric): (total: int)
    ensures m == EventCount ==> total == |t|
    ensures m == DefectTotal && (forall i :: 0 <= i < |t| ==> t[i].defectCount >= UNKNOWN_DEFECTS) ==> total >= 0
  {
    if t == [] then 0 else Weight(t[0], m) + Measure(t[1..], m)
  }

  lemma {:induction false} MeasureCountsRows(t: seq<Event>)
    ensures Measure(t, EventCount) == |t|
  {
    if t != [] {
      MeasureCountsRows(t[1..]);
    }
  }

  lemma {:induction false} MeasureAppend(a: seq<Event>, b: seq<Event>, m: Metric)
    ensures Measure(a + b, m) == Measure(a, m) + Measure(b, m)
  {
    if a == [] {
      assert a + b == b;
    } else {
      assert (a + b)[1..] == a[1..] + b;
      MeasureAppend(a[1..], b, m);
    }
  }

  lemma {:induction false} SelectAppend(a: seq<Event>, b: seq<Event>, f: Filter)
    ensures Select(a + b, f) == Select(a, f) + Select(b, f)
  {
    if a == [] {
      assert a + b == b;
    } else {
      assert (a + b)[1..] == a[1..] + b;
      SelectAppend(a[1..], b, f);
    }
  }

  /**
   * Adding one row to the table changes an aggregate of a query exactly by
   * that row's weight when the row passes the filter, and not at all otherwise.
   */
  lemma AddedRowCountsIffMatched(t: seq<Event>, e: Event, f: Filter, m: Metric)
    ensures Measure(Select(t + [e], f), m)
         == Measure(Select(t, f), m) + (if Matches(e, f) then Weight(e, m) else 0)
  {
    SelectAppend(t, [e], f);
    assert Select([e], f) == (if Matches(e, f) then [e] else []) by {
      assert [e][1..] == [];
    }
    MeasureAppend(Select(t, f), Select([e], f), m);
    assert Measure([e], m) == Weight(e, m) by {
      assert [e][1..] == [];
    }
  }

  /**
   * Window exactness: an event of the machine at exactly `start` is counted
   * (when the window is not empty), one at exactly `end` is not.
   */
  lemma WindowIsHalfOpen(t: seq<Event>, e: Event, machineId: string, start: int, end: int)
    requires e.machineId == machineId
    ensures e.eventTime == start && start < end ==>
      |Select(t + [e], MachineWindow(machineId, start, end))|
        == |Select(t, MachineWindow(machineId, start, end))| + 1
    ensures e.eventTime == end ==>
      Select(t + [e], MachineWindow(machineId, start, end))
        == Select(t, MachineWindow(machineId, start, end))
  {
    var f := MachineWindow(machineId, start, end);
    SelectAppend(t, [e], f);
    assert Select([e], f) == (if Matches(e, f) then [e] else []) by {
      assert [e][1..] == [];
    }
    if e.eventTime == end {
      assert Select(t, f) + [] == Select(t, f);
    }
  }

  /** The sentinel: a matching row with `defectCount = -1` adds 1 to COUNT and 0 to SUM, in either query. */
  lemma SentinelCountedNotSummed(t: seq<Event>, e: Event, f: Filter)
    requires e.defectCount == UNKNOWN_DEFECTS && Matches(e, f)
    ensures Measure(Select(t + [e], f), EventCount) == Measure(Select(t, f), EventCount) + 1
    ensures Measure(Select(t + [e], f), DefectTotal) == Measure(Select(t, f), DefectTotal)
  {
    AddedRowCountsIffMatched(t, e, f, EventCount);
    AddedRowCountsIffMatched(t, e, f, DefectTotal);
  }

  /**
   * `getStatsData`: one row holding the count and the sentinel-aware defect
   * sum of the machine's events in `[start, end)`; SQL's SUM is NULL when no
   * row matches.
   */
  function GetStatsData(t: seq<Event>, machineId: string, start: int, end: int): (rows: seq<StatsRow>)
    ensures |rows| == 1
    ensures rows[0].count == |Select(t, MachineWindow(machineId, start, end))|
    ensures rows[0].defectSum.None? <==> Select(t, MachineWindow(machineId, start, end)) == []
    ensures rows[0].defectSum.Some? ==>
      rows[0].defectSum.value == Measure(Select(t, MachineWindow(machineId, start, end)), DefectTotal)
  {
    var hits := Select(t, MachineWindow(machineId, start, end));
    MeasureCountsRows(hits);
    [StatsRow(Measure(hits, EventCount), if hits == [] then None else Some(Measure(hits, DefectTotal)))]
  }

  // ---- GROUP BY e.lineId ----

  predicate Distinct(ids: seq<string>) {
    forall i, j :: 0 <= i < j < |ids| ==> ids[i] != ids[j]
  }

  /** The distinct line ids of the filtered rows: the groups of `GROUP BY e.lineId`. */
  function DistinctLines(t: seq<Event>): (ids: seq<string>)
    ensures Distinct(ids)
    ensures forall e :: e in t ==> e.lineId in ids
    ensures forall g :: g in ids ==> exists e :: e in t && e.lineId == g
  {
    if t == [] then []
    else
      var rest := DistinctLines(t[1..]);
      assert forall e :: e in t[1..] ==> e in t;
      if t[0].lineId in rest then rest else [t[0].lineId] + rest
  }

  /** The result row of one group: its line, its sentinel-aware sum and its number of rows. */
  function GroupRow(t: seq<Event>, g: string): (r: LineRow)
    ensures r.lineId == g
    ensures r.defectSum == Some(Measure(Select(t, OnLine(g)), DefectTotal))
    ensures r.eventCount == |Select(t, OnLine(g))|
  {
    var group := Select(t, OnLine(g));
    MeasureCountsRows(group);
    LineRow(g, Some(Measure(group, DefectTotal)), Measure(group, EventCount))
  }

  function GroupRows(t: seq<Event>, ids: seq<string>): (rows: seq<LineRow>)
    ensures |rows| == |ids|
    ensures forall i :: 0 <= i < |ids| ==> rows[i] == GroupRow(t, ids[i])
  {
    if ids == [] then [] else [GroupRow(t, ids[0])] + GroupRows(t, ids[1..])
  }

  /** The value a result row carries for a metric (a NULL sum read as 0). */
  function RowValue(r: LineRow, m: Metric): int {
    match m
    case EventCount => r.eventCount
    case DefectTotal => r.defectSum.GetOr(0)
  }

  function SumRows(rows: seq<LineRow>, m: Metric): int {
    if rows == [] then 0 else RowValue(rows[0], m) + SumRows(rows[1..], m)
  }

  lemma {:induction false} GroupRowsOfEmpty(ids: seq<string>, m: Metric)
    ensures SumRows(GroupRows([], ids), m) == 0
  {
    if ids != [] {
      GroupRowsOfEmpty(ids[1..], m);
    }
  }

  /** Putting one more row in front of the table adds its weight to exactly one group, if its line is listed. */
  lemma {:induction false} GroupRowsCons(e: Event, t: seq<Event>, ids: seq<string>, m: Metric)
    requires Distinct(ids)
    ensures SumRows(GroupRows([e] + t, ids), m)
         == SumRows(GroupRows(t, ids), m) + (if e.lineId in ids then Weight(e, m) else 0)
  {
    if ids != [] {
      var g := ids[0];
      assert ([e] + t)[1..] == t;
      assert Select([e] + t, OnLine(g)) == (if e.lineId == g then [e] else []) + Select(t, OnLine(g));
      MeasureAppend(if e.lineId == g then [e] else [], Select(t, OnLine(g)), m);
      assert Measure([e], m) == Weight(e, m) by {
        assert [e][1..] == [];
      }
      assert Distinct(ids[1..]) by {
        forall i, j | 0 <= i < j < |ids[1..]|
          ensures ids[1..][i] != ids[1..][j]
        {
          assert ids[1..][i] == ids[i + 1] && ids[1..][j] == ids[j + 1];
        }
      }
      forall j | 0 <= j < |ids[1..]|
        ensures ids[1..][j] != g
      {
        assert ids[1..][j] == ids[j + 1];
      }
      assert e.lineId in ids <==> e.lineId == g || e.lineId in ids[1..];
      GroupRowsCons(e, t, ids[1..], m);
    }
  }

  /** The groups partition the filtered rows: over all groups, counts and sums add up to the totals. */
  lemma {:induction false} GroupsPartition(t: seq<Event>, ids: seq<string>, m: Metric)
    requires Distinct(ids)
    requires forall e :: e in t ==> e.lineId in ids
    ensures SumRows(GroupRows(t, ids), m) == Measure(t, m)
  {
    if t == [] {
      GroupRowsOfEmpty(ids, m);
    } else {
      assert t == [t[0]] + t[1..];
      GroupsPartition(t[1..], ids, m);
      GroupRowsCons(t[0], t[1..], ids, m);
    }
  }

  // ---- ORDER BY SUM(...) DESC ----

  /** The sort key: the group's defect sum. */
  function RowKey(r: LineRow): int {
    r.defectSum.GetOr(0)
  }

  predicate SortedByDefects(rows: seq<LineRow>) {
    forall i, j :: 0 <= i < j < |rows| ==> RowKey(rows[i]) >= RowKey(rows[j])
  }

  predicate LinesDistinct(rows: seq<LineRow>) {
    forall i, j :: 0 <= i < j < |rows| ==> rows[i].lineId != rows[j].lineId
  }

  function InsertByDefects(r: LineRow, s: seq<LineRow>): (out: seq<LineRow>)
    ensures |out| == |s| + 1
    ensures multiset(out) == multiset(s) + multiset{r}
  {
    if s == [] || RowKey(r) >= RowKey(s[0]) then [r] + s
    else
      assert s == [s[0]] + s[1..];
      [s[0]] + InsertByDefects(r, s[1..])
  }

  /** `ORDER BY SUM(...) DESC` as an insertion sort; the order of ties is not promised. */
  function SortByDefects(rows: seq<LineRow>): (out: seq<LineRow>)
    ensures |out| == |rows|
    ensures multiset(out) == multiset(rows)
  {
    if rows == [] then []
    else
      assert rows == [rows[0]] + rows[1..];
      InsertByDefects(rows[0], SortByDefects(rows[1..]))
  }

  lemma SortedTail(s: seq<LineRow>)
    requires s != [] && SortedByDefects(s)
    ensures SortedByDefects(s[1..])
    ensures forall x :: x in s[1..] ==> RowKey(s[0]) >= RowKey(x)
  {
    forall x | x in s[1..] ensures RowKey(s[0]) >= RowKey(x) {
      var k :| 0 <= k < |s[1..]| && s[1..][k] == x;
      assert s[1..][k] == s[k + 1];
    }
  }

  lemma DistinctTail(s: seq<LineRow>)
    requires s != [] && LinesDistinct(s)
    ensures LinesDistinct(s[1..])
    ensures forall x :: x in s[1..] ==> x.lineId != s[0].lineId
  {
    forall x | x in s[1..] ensures x.lineId != s[0].lineId {
      var k :| 0 <= k < |s[1..]| && s[1..][k] == x;
      assert s[1..][k] == s[k + 1];
    }
  }

  /** A row no smaller than every row of a sorted list can go in front of it. */
  lemma ConsSorted(x: LineRow, rest: seq<LineRow>)
    requires SortedByDefects(rest)
    requires forall y :: y in rest ==> RowKey(x) >= RowKey(y)
    ensures SortedByDefects([x] + rest)
  {
    var out := [x] + rest;
    forall i, j | 0 <= i < j < |out| ensures RowKey(out[i]) >= RowKey(out[j]) {
      assert out[j] == rest[j - 1] && rest[j - 1] in rest;
      if i > 0 {
        assert out[i] == rest[i - 1];
      }
    }
  }

  /** A row whose line no row of a line-distinct list has can go in front of it. */
  lemma ConsDistinct(x: LineRow, rest: seq<LineRow>)
    requires LinesDistinct(rest)
    requires forall y :: y in rest ==> y.lineId != x.lineId
    ensures LinesDistinct([x] + rest)
  {
    var out := [x] + rest;
    forall i, j | 0 <= i < j < |out| ensures out[i].lineId != out[j].lineId {
      assert out[j] == rest[j - 1] && rest[j - 1] in rest;
      if i > 0 {
        assert out[i] == rest[i - 1];
      }
    }
  }

  /** Insertion adds exactly the one row. */
  lemma {:induction false} InsertMembers(r: LineRow, s: seq<LineRow>)
    ensures forall x :: x in InsertByDefects(r, s) <==> x == r || x in s
  {
    if s != [] && RowKey(r) < RowKey(s[0]) {
      InsertMembers(r, s[1..]);
      assert s == [s[0]] + s[1..];
    }
  }

  lemma {:induction false} InsertKeepsSorted(r: LineRow, s: seq<LineRow>)
    requires SortedByDefects(s)
    ensures SortedByDefects(InsertByDefects(r, s))
  {
    if s == [] || RowKey(r) >= RowKey(s[0]) {
      forall x | x in s ensures RowKey(r) >= RowKey(x) {
        var k :| 0 <= k < |s| && s[k] == x;
        assert k == 0 || RowKey(s[0]) >= RowKey(s[k]);
      }
      ConsSorted(r, s);
    } else {
      SortedTail(s);
      InsertKeepsSorted(r, s[1..]);
      InsertMembers(r, s[1..]);
      ConsSorted(s[0], InsertByDefects(r, s[1..]));
    }
  }

  lemma {:induction false} InsertAddsValue(r: LineRow, s: seq<LineRow>, m: Metric)
    ensures SumRows(InsertByDefects(r, s), m) == RowValue(r, m) + SumRows(s, m)
  {
    var out := InsertByDefects(r, s);
    if s == [] || RowKey(r) >= RowKey(s[0]) {
      assert out[1..] == s;
    } else {
      InsertAddsValue(r, s[1..], m);
      assert out[1..] == InsertByDefects(r, s[1..]);
    }
  }

  lemma {:induction false} InsertKeepsDistinct(r: LineRow, s: seq<LineRow>)
    requires LinesDistinct(s)
    requires forall x :: x in s ==> x.lineId != r.lineId
    ensures LinesDistinct(InsertByDefects(r, s))
  {
    if s == [] || RowKey(r) >= RowKey(s[0]) {
      ConsDistinct(r, s);
    } else {
      DistinctTail(s);
      InsertKeepsDistinct(r, s[1..]);
      InsertMembers(r, s[1..]);
      ConsDistinct(s[0], InsertByDefects(r, s[1..]));
    }
  }

  lemma {:induction false} SortIsSorted(rows: seq<LineRow>)
    ensures SortedByDefects(SortByDefects(rows))
  {
    if rows != [] {
      SortIsSorted(rows[1..]);
      InsertKeepsSorted(rows[0], SortByDefects(rows[1..]));
    }
  }

  lemma {:induction false} SortKeepsTotals(rows: seq<LineRow>, m: Metric)
    ensures SumRows(SortByDefects(rows), m) == SumRows(rows, m)
  {
    if rows != [] {
      SortKeepsTotals(rows[1..], m);
      InsertAddsValue(rows[0], SortByDefects(rows[1..]), m);
    }
  }

  lemma {:induction false} SortKeepsDistinct(rows: seq<LineRow>)
    requires LinesDistinct(rows)
    ensures LinesDistinct(SortByDefects(rows))
  {
    if rows != [] {
      DistinctTail(rows);
      SortKeepsDistinct(rows[1..]);
      var rest := SortByDefects(rows[1..]);
      forall x | x in rest ensures x.lineId != rows[0].lineId {
        assert x in multiset(rest);
        assert x in rows[1..];
      }
      InsertKeepsDistinct(rows[0], rest);
    }
  }

  lemma GroupRowsDistinct(t: seq<Event>, ids: seq<string>)
    requires Distinct(ids)
    ensures LinesDistinct(GroupRows(t, ids))
  {
  }

  /** Each group row belongs to a line of the table and carries that group's sum and count. */
  lemma GroupRowsAreGroups(t: seq<Event>)
    ensures forall r :: r in GroupRows(t, DistinctLines(t)) ==>
      && (exists e :: e in t && e.lineId == r.lineId)
      && r.defectSum == Some(Measure(Select(t, OnLine(r.lineId)), DefectTotal))
      && r.eventCount == |Select(t, OnLine(r.lineId))|
  {
    var ids := DistinctLines(t);
    var groups := GroupRows(t, ids);
    forall r | r in groups
      ensures (exists e :: e in t && e.lineId == r.lineId)
      ensures r.defectSum == Some(Measure(Select(t, OnLine(r.lineId)), DefectTotal))
      ensures r.eventCount == |Select(t, OnLine(r.lineId))|
    {
      var k :| 0 <= k < |groups| && groups[k] == r;
      var g := ids[k];
      assert g in ids;
      assert r == GroupRow(t, g);
    }
  }

  /** Every line of the table has a group row. */
  lemma GroupRowsCoverLines(t: seq<Event>)
    ensures forall e :: e in t ==> exists r :: r in GroupRows(t, DistinctLines(t)) && r.lineId == e.lineId
  {
    var ids := DistinctLines(t);
    var groups := GroupRows(t, ids);
    forall e | e in t
      ensures exists r :: r in groups && r.lineId == e.lineId
    {
      var k :| 0 <= k < |ids| && ids[k] == e.lineId;
      assert groups[k] in groups;
    }
  }

  /** Sorting the rows keeps them, their distinct lines and their totals. */
  lemma SortKeepsRows(rows: seq<LineRow>)
    requires LinesDistinct(rows)
    ensures SortedByDefects(SortByDefects(rows)) && LinesDistinct(SortByDefects(rows))
    ensures forall r :: r in SortByDefects(rows) <==> r in rows
    ensures SumRows(SortByDefects(rows), EventCount) == SumRows(rows, EventCount)
    ensures SumRows(SortByDefects(rows), DefectTotal) == SumRows(rows, DefectTotal)
  {
    var sorted := SortByDefects(rows);
    SortIsSorted(rows);
    SortKeepsDistinct(rows);
    SortKeepsTotals(rows, EventCount);
    SortKeepsTotals(rows, DefectTotal);
    forall r
      ensures r in sorted <==> r in rows
    {
      assert r in sorted <==> r in multiset(sorted);
      assert r in rows <==> r in multiset(rows);
    }
  }

  /**
   * `findTopDefectLines`: one row per distinct `lineId` among the factory's
   * events in `[from, to)`, carrying the group's sentinel-aware defect sum
   * and its event count, ordered by the sum, largest first.
   */
  function FindTopDefectLines(t: seq<Event>, factoryId: string, from: int, to: int): (rows: seq<LineRow>)
    ensures SortedByDefects(rows)
    ensures LinesDistinct(rows)
    ensures forall r :: r in rows ==>
      && (exists e :: e in Select(t, FactoryWindow(factoryId, from, to)) && e.lineId == r.lineId)
      && r.defectSum == Some(Measure(Select(Select(t, FactoryWindow(factoryId, from, to)), OnLine(r.lineId)), DefectTotal))
      && r.eventCount == |Select(Select(t, FactoryWindow(factoryId, from, to)), OnLine(r.lineId))|
    ensures forall e :: e in Select(t, FactoryWindow(factoryId, from, to)) ==>
      exists r :: r in rows && r.lineId == e.lineId
    ensures SumRows(rows, EventCount) == |Select(t, FactoryWindow(factoryId, from, to))|
    ensures SumRows(rows, DefectTotal) == Measure(Select(t, FactoryWindow(factoryId, from, to)), DefectTotal)
  {
    var filtered := Select(t, FactoryWindow(factoryId, from, to));
    var ids := DistinctLines(filtered);
    var groups := GroupRows(filtered, ids);
    GroupRowsDistinct(filtered, ids);
    GroupsPartition(filtered, ids, EventCount);
    GroupsPartition(filtered, ids, DefectTotal);
    MeasureCountsRows(filtered);
    GroupRowsAreGroups(filtered);
    GroupRowsCoverLines(filtered);
    SortKeepsRows(groups);
    SortByDefects(groups)
  }

  // ---- The table behind the store ----

  ghost function PickKey(store: map<string, Event>): (k: string)
    requires store != map[]
    ensures k in store
  {
    var k :| k in store; k
  }

  /** The rows of the table: every stored record once, in some order. */
  ghost function TableOf(store: map<string, Event>): (t: seq<Event>)
    ensures |t| == |store|
    decreases |store|
  {
    if store == map[] then []
    else
      var k := PickKey(store);
      assert (store - {k}).Keys == store.Keys - {k};
      [store[k]] + TableOf(store - {k})
  }

  /** The table holds exactly the stored records: each one is a row and each row is one. */
  lemma {:induction false} TableHoldsStore(store: map<string, Event>)
    ensures forall k :: k in store ==> store[k] in TableOf(store)
    ensures forall e :: e in TableOf(store) ==> e in store.Values
    decreases |store|
  {
    if store != map[] {
      var k := PickKey(store);
      var rest := store - {k};
      assert rest.Keys == store.Keys - {k};
      TableHoldsStore(rest);
      var t := TableOf(store);
      assert t == [store[k]] + TableOf(rest);
      forall k' | k' in store
        ensures store[k'] in t
      {
        if k' != k {
          assert k' in rest && rest[k'] == store[k'];
        }
      }
      forall e | e in t
        ensures e in store.Values
      {
        if e != store[k] {
          assert e in TableOf(rest);
          var k' :| k' in rest && rest[k'] == e;
          assert store[k'] == e;
        }
      }
    }
  }

  /** The ids of the stored records a filter keeps. */
  ghost function MatchingIds(store: map<string, Event>, f: Filter): set<string> {
    set id | id in store && Matches(store[id], f)
  }

  lemma MatchingIdsSplit(store: map<string, Event>, k: string, f: Filter)
    requires k in store
    ensures MatchingIds(store, f)
         == MatchingIds(store - {k}, f) + (if Matches(store[k], f) then {k} else {})
  {
    var rest := store - {k};
    forall id ensures id in MatchingIds(store, f) <==> id in MatchingIds(rest, f) || (id == k && Matches(store[k], f)) {
      if id != k && id in store {
        assert rest[id] == store[id];
      }
    }
  }

  /** A query over the table keeps exactly one row per stored record that passes the filter. */
  lemma {:induction false} SelectCountsStoredMatches(store: map<string, Event>, f: Filter)
    ensures |Select(TableOf(store), f)| == |MatchingIds(store, f)|
    decreases |store|
  {
    if store == map[] {
      assert MatchingIds(store, f) == {};
    } else {
      var k := PickKey(store);
      var rest := store - {k};
      assert rest.Keys == store.Keys - {k};
      var t := TableOf(store);
      assert t[1..] == TableOf(rest);
      assert |Select(t, f)| == (if Matches(store[k], f) then 1 else 0) + |Select(t[1..], f)|;
      SelectCountsStoredMatches(rest, f);
      MatchingIdsSplit(store, k, f);
      assert k !in MatchingIds(rest, f);
    }
  }
}
