/**
 * `EventService` (service/EventService.java) over a store of events keyed
 * by `eventId`: batch ingestion, machine statistics and top defect lines.
 */
module Service {
  import opened Entity
  import opened BatchResponses
  import opened Ingestion
  import opened Repo
  import opened Stats
  import opened Responses

  class EventService {
    /** The `MachineEvent` table: the repository's records by primary key. */
    var store: map<string, Event>

    ghost predicate Valid()
      reads this
    {
      Keyed(store)
    }

    constructor (initial: map<string, Event>)
      requires Keyed(initial)
      ensures Valid() && store == initial
    {
      store := initial;
    }

    /** The summary reports exactly the verdicts of `steps`. */
    ghost predicate Reports(summary: BatchResponse, steps: seq<Step>)
      reads summary
    {
      && summary.Valid()
      && summary.accepted == Tally(steps, AcceptedKind)
      && summary.deduped == Tally(steps, DedupedKind)
      && summary.updated == Tally(steps, UpdatedKind)
      && summary.rejected == Tally(steps, RejectedKind)
      && summary.rejections == Rejections(steps)
    }

    /**
     * One pass of the `processBatch` loop body on `steps[i]`'s event: the
     * event is checked, enriched, stamped and classified against `existing`;
     * the summary gets the matching counter or rejection and a staged event
     * joins `toSave`. `ev` is the event as the setters leave it.
     */
    method ProcessOne(event: Event, existing: map<string, Event>, now: int,
                      summary: BatchResponse, toSave: seq<Event>, ghost steps: seq<Step>, ghost i: nat)
      returns (toSave': seq<Event>, ev: Event)
      requires i < |steps| && steps[i] == Process(event, existing, now)
      requires Reports(summary, steps[..i]) && toSave == SaveList(steps[..i])
      modifies summary
      ensures Reports(summary, steps[..i + 1]) && toSave' == SaveList(steps[..i + 1])
      ensures ev == steps[i].event
    {
      PrefixSnoc(steps, i);
      toSave' := toSave;
      ev := event;
      if ev.durationMs < 0 || ev.durationMs > MAX_DURATION_MS {
        assert steps[i] == Step(Rejected(INVALID_DURATION), ev);
        summary.AddRejection(ev.eventId, INVALID_DURATION);
        return;
      }
      ev := Enrich(ev);
      if ev.eventTime > now + FUTURE_TOLERANCE_MS {
        assert steps[i] == Step(Rejected(FUTURE_EVENT_TIME), ev);
        summary.AddRejection(ev.eventId, FUTURE_EVENT_TIME);
        return;
      }
      ev := ev.(receivedTime := now);
      if ev.eventId !in existing {
        assert steps[i] == Step(Accepted, ev);
        toSave' := toSave' + [ev];
        summary.IncrementAccepted();
      } else if IsIdentical(existing[ev.eventId], ev) {
        assert steps[i] == Step(Deduped, ev);
        summary.IncrementDeduped();
      } else {
        assert steps[i] == Step(Updated, ev);
        toSave' := toSave' + [ev];
        summary.IncrementUpdated();
      }
    }

    /**
     * `processBatch`: every event is classified against the records fetched
     * before the loop; one upsert writes the accepted and updated events.
     * `seen` is the caller's list of events as the setters leave it.
     */
    method ProcessBatch(events: seq<Event>, now: int) returns (summary: BatchResponse, seen: seq<Event>)
      requires Valid()
      modifies this
      ensures Valid()
      ensures fresh(summary) && summary.Valid()
      ensures var steps := Steps(events, old(store), now);
              && summary.accepted == Tally(steps, AcceptedKind)
              && summary.deduped == Tally(steps, DedupedKind)
              && summary.updated == Tally(steps, UpdatedKind)
              && summary.rejected == Tally(steps, RejectedKind)
              && summary.rejections == Rejections(steps)
              && store == Upsert(old(store), SaveList(steps))
              && |seen| == |events|
              && (forall i :: 0 <= i < |events| ==> seen[i] == steps[i].event)
      ensures summary.accepted + summary.deduped + summary.updated + summary.rejected == |events|
    {
      summary := new BatchResponse();
      var existing := FetchById(store, events);
      ghost var steps := Steps(events, store, now);
      FetchedSnapshotSuffices(events, store, existing, now);
      var toSave: seq<Event> := [];
      seen := [];
      for i := 0 to |events|
        invariant store == old(store)
        invariant Reports(summary, steps[..i]) && toSave == SaveList(steps[..i])
        invariant seen == EventsOf(steps[..i])
      {
        assert steps[i] == Process(events[i], existing, now);
        var event;
        toSave, event := ProcessOne(events[i], existing, now, summary, toSave, steps, i);
        PrefixSnoc(steps, i);
        seen := seen + [event];
      }
      assert steps[..|events|] == steps;
      UpsertKeepsKeyed(store, toSave);
      store := Upsert(store, toSave);
      TallyPartition(steps);
    }

    /**
     * `getMachineStats`: the count is the number of stored records of the
     * machine in `[start, end)`, the defect sum skips the sentinel, the rate
     * is the exact defects per hour, and the status follows it.
     */
    ghost function GetMachineStats(machineId: string, start: int, end: int): (r: StatsResponse)
      reads this
      ensures r.machineId == machineId
      ensures r.eventsCount == |MatchingIds(store, MachineWindow(machineId, start, end))|
      ensures r.defectsCount == Measure(Select(TableOf(store), MachineWindow(machineId, start, end)), DefectTotal)
      ensures r.status == Warning
          <==> WindowSeconds(start, end) > 0 && r.defectsCount * 3600 >= 2 * WindowSeconds(start, end)
      ensures r.avgDefectRate == AvgDefectRate(r.defectsCount, WindowSeconds(start, end))
      ensures WindowSeconds(start, end) <= 0 ==> r.avgDefectRate == 0.0
    {
      SelectCountsStoredMatches(store, MachineWindow(machineId, start, end));
      MachineStats(GetStatsData(TableOf(store), machineId, start, end), machineId, start, end)
    }

    /**
     * `getTopDefectLines`: at most `limit` distinct lines of the factory in
     * `[from, to)`, largest defect sum first, each with its group's totals
     * and percent; no line left out beats the last one returned, and when
     * fewer than `limit` come back, every such line is there.
     */
    ghost function GetTopDefectLines(factoryId: string, from: int, to: int, limit: int): (r: seq<TopDefectLineResponse>)
      requires limit >= 0
      reads this
      ensures |r| <= limit
      ensures forall i, j :: 0 <= i < j < |r| ==> r[i].totalDefects >= r[j].totalDefects
      ensures forall i, j :: 0 <= i < j < |r| ==> r[i].lineId != r[j].lineId
      ensures forall i :: 0 <= i < |r| ==>
        var group := Select(Select(TableOf(store), FactoryWindow(factoryId, from, to)), OnLine(r[i].lineId));
        && group != []
        && r[i].totalDefects == Measure(group, DefectTotal)
        && r[i].eventCount == |group|
      ensures |r| < limit ==>
        forall e :: e in Select(TableOf(store), FactoryWindow(factoryId, from, to)) ==>
          exists i :: 0 <= i < |r| && r[i].lineId == e.lineId
      ensures forall e ::
        e in Select(TableOf(store), FactoryWindow(factoryId, from, to)) && |r| > 0 && (forall i :: 0 <= i < |r| ==> r[i].lineId != e.lineId) ==>
        Measure(Select(Select(TableOf(store), FactoryWindow(factoryId, from, to)), OnLine(e.lineId)), DefectTotal)
          <= r[|r| - 1].totalDefects
      ensures forall i :: 0 <= i < |r| ==> r[i].defectsPercent == DefectsPercent(r[i].totalDefects, r[i].eventCount)
    {
      TopLinesOf(TableOf(store), factoryId, from, to, limit)
    }
  }

  /** The rate `getMachineStats` reports, in integers: times the window's whole seconds it is 3600 times the defect sum. */
  lemma MachineStatsRateIsExact(svc: EventService, machineId: string, start: int, end: int,
                                seconds: int, defects: int, rate: real)
    requires seconds == WindowSeconds(start, end)
    requires defects == svc.GetMachineStats(machineId, start, end).defectsCount
    requires rate == svc.GetMachineStats(machineId, start, end).avgDefectRate
    ensures seconds > 0 ==> rate * (seconds as real) == (defects * 3600) as real
    ensures seconds <= 0 ==> rate == 0.0
  {
    RateIsExact(defects, seconds, rate);
  }
}
