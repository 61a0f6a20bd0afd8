/**
 * The per-event rules of `EventService.processBatch` (service/EventService.java):
 * validation, enrichment, classification against the records fetched before
 * the loop, the save list and the single upsert, as functions over values.
 */
module Ingestion {
  import opened Entity
  import opened BatchResponses

  /** Six hours, the largest duration accepted. */
  const MAX_DURATION_MS := 21_600_000
  /** An event may lie at most 15 minutes in the future. */
  const FUTURE_TOLERANCE_MS := 15 * 60 * 1000

  const INVALID_DURATION := "INVALID_DURATION"
  const FUTURE_EVENT_TIME := "FUTURE_EVENT_TIME"

  const FACTORY_ID := "F01"
  const LINE_ONE := "LINE-01"
  const LINE_TWO := "LINE-02"
  /** Machine ids up to this one, in string order, belong to line one. */
  const LAST_LINE_ONE_MACHINE := "M-010"

  // ---- Enrichment ----

  /** Java's `String.compareTo`: the difference of the first differing characters, else of the lengths. */
  function CompareTo(a: string, b: string): (r: int)
    ensures r == 0 <==> a == b
  {
    if a == [] || b == [] then |a| - |b|
    else if a[0] != b[0] then a[0] as int - b[0] as int
    else
      assert a == [a[0]] + a[1..] && b == [b[0]] + b[1..];
      CompareTo(a[1..], b[1..])
  }

  /** Lexicographic order, defined directly: `a` is a prefix of `b`, or is smaller at the first difference. */
  ghost predicate LexLessEq(a: string, b: string) {
    a <= b || exists k :: 0 <= k < |a| && k < |b| && a[..k] == b[..k] && a[k] < b[k]
  }

  /** A first difference after a common first character is a first difference of the rests. */
  lemma LexLessEqTailDown(a: string, b: string)
    requires a != [] && b != [] && a[0] == b[0]
    ensures LexLessEq(a, b) ==> LexLessEq(a[1..], b[1..])
  {
    var a', b' := a[1..], b[1..];
    if a <= b {
      assert a' <= b';
    } else if LexLessEq(a, b) {
      var k :| 0 <= k < |a| && k < |b| && a[..k] == b[..k] && a[k] < b[k];
      assert k > 0;
      assert a'[..k - 1] == a[..k][1..] && b'[..k - 1] == b[..k][1..];
      assert a'[k - 1] == a[k] && b'[k - 1] == b[k];
    }
  }

  /** A first difference of the rests, after a common first character, is one of the whole strings. */
  lemma LexLessEqTailUp(a: string, b: string)
    requires a != [] && b != [] && a[0] == b[0]
    ensures LexLessEq(a[1..], b[1..]) ==> LexLessEq(a, b)
  {
    var a', b' := a[1..], b[1..];
    assert a == [a[0]] + a' && b == [b[0]] + b';
    if a' <= b' {
      assert a <= b;
    } else if LexLessEq(a', b') {
      var k :| 0 <= k < |a'| && k < |b'| && a'[..k] == b'[..k] && a'[k] < b'[k];
      assert a[..k + 1] == [a[0]] + a'[..k] && b[..k + 1] == [b[0]] + b'[..k];
      assert a[k + 1] == a'[k] && b[k + 1] == b'[k];
    }
  }

  /** With equal first characters the order is decided by the rests. */
  lemma LexLessEqTail(a: string, b: string)
    requires a != [] && b != [] && a[0] == b[0]
    ensures LexLessEq(a, b) <==> LexLessEq(a[1..], b[1..])
  {
    LexLessEqTailDown(a, b);
    LexLessEqTailUp(a, b);
  }

  /** With different first characters the order is decided by them. */
  lemma LexLessEqHead(a: string, b: string)
    requires a != [] && b != [] && a[0] != b[0]
    ensures LexLessEq(a, b) <==> a[0] < b[0]
  {
    assert !(a <= b);
    if a[0] < b[0] {
      assert a[..0] == b[..0];
    } else {
      forall k | 0 < k <= |a| && k <= |b|
        ensures a[..k][0] == a[0] && b[..k][0] == b[0]
      {
      }
    }
  }

  lemma {:induction false} CompareToIsLexOrder(a: string, b: string)
    ensures CompareTo(a, b) <= 0 <==> LexLessEq(a, b)
  {
    if a == [] {
      assert a <= b;
    } else if b == [] {
      assert !(a <= b);
    } else if a[0] != b[0] {
      LexLessEqHead(a, b);
    } else {
      CompareToIsLexOrder(a[1..], b[1..]);
      LexLessEqTail(a, b);
    }
  }

  /** The line of a machine: `LINE-01` up to `M-010` in string order, `LINE-02` after it. */
  function LineFor(machineId: string): (line: string)
    ensures line == LINE_ONE || line == LINE_TWO
    ensures line == LINE_ONE <==> LexLessEq(machineId, LAST_LINE_ONE_MACHINE)
  {
    CompareToIsLexOrder(machineId, LAST_LINE_ONE_MACHINE);
    if CompareTo(machineId, LAST_LINE_ONE_MACHINE) <= 0 then LINE_ONE else LINE_TWO
  }

  /** `enrichEventData`: the derived fields are overwritten, nothing else is touched. */
  function Enrich(e: Event): (r: Event)
    ensures r.factoryId == FACTORY_ID
    ensures r.lineId == LINE_ONE <==> LexLessEq(e.machineId, LAST_LINE_ONE_MACHINE)
    ensures r.lineId == LINE_ONE || r.lineId == LINE_TWO
    ensures r.(lineId := e.lineId, factoryId := e.factoryId) == e
  {
    e.(factoryId := FACTORY_ID, lineId := LineFor(e.machineId))
  }

  /** How the sample machine ids of the fixed mapping land. */
  lemma SampleMachineLines()
    ensures LineFor("M-001") == LINE_ONE
    ensures LineFor("M-010") == LINE_ONE
    ensures LineFor("M-011") == LINE_TWO
    ensures LineFor("M-1") == LINE_TWO
    ensures LineFor("M1") == LINE_TWO
  {
  }

  // ---- Reconciliation ----

  /** `isIdentical`: only the payload fields the client controls are compared. */
  predicate IsIdentical(existing: Event, incoming: Event) {
    && existing.machineId == incoming.machineId
    && existing.durationMs == incoming.durationMs
    && existing.defectCount == incoming.defectCount
    && existing.eventTime == incoming.eventTime
  }

  /** Identical means equal up to the id and the fields the server derives or assigns. */
  lemma IdenticalIsPayloadEquality(existing: Event, incoming: Event)
    ensures IsIdentical(existing, incoming)
        <==> existing.(eventId := incoming.eventId, lineId := incoming.lineId,
                       factoryId := incoming.factoryId, receivedTime := incoming.receivedTime) == incoming
  {
  }

  /** Changing only `lineId`, `factoryId` or `receivedTime`, on either side, never changes the comparison. */
  lemma IdenticalIgnoresDerivedFields(existing: Event, incoming: Event,
                                      line: string, factory: string, received: int,
                                      line': string, factory': string, received': int)
    ensures IsIdentical(existing.(lineId := line, factoryId := factory, receivedTime := received),
                        incoming.(lineId := line', factoryId := factory', receivedTime := received'))
        == IsIdentical(existing, incoming)
  {
  }

  // ---- One event ----

  /** The duration check of the loop: accepted exactly from 0 to six hours, both ends included. */
  predicate ValidDuration(durationMs: int): (ok: bool)
    ensures ok <==> 0 <= durationMs <= 6 * 60 * 60 * 1000
  {
    !(durationMs < 0 || durationMs > MAX_DURATION_MS)
  }

  /** The future-time check: an event more than 15 minutes ahead of `now` is refused. */
  predicate IsFuture(eventTime: int, now: int): (future: bool)
    ensures !future <==> eventTime - now <= 15 * 60 * 1000
  {
    eventTime > now + FUTURE_TOLERANCE_MS
  }

  /** The four outcomes; each bumps exactly one counter of the summary. */
  datatype Verdict = Rejected(reason: string) | Accepted | Deduped | Updated

  datatype Kind = AcceptedKind | DedupedKind | UpdatedKind | RejectedKind

  function KindOf(v: Verdict): Kind {
    match v
    case Rejected(_) => RejectedKind
    case Accepted => AcceptedKind
    case Deduped => DedupedKind
    case Updated => UpdatedKind
  }

  /** The verdict on one event and the event as the loop leaves it (the setters mutate it in place). */
  datatype Step = Step(verdict: Verdict, event: Event)

  /** New and diverged events go to the save list. */
  predicate Staged(s: Step) {
    s.verdict.Accepted? || s.verdict.Updated?
  }

  /**
   * One iteration of the loop: duration check, enrichment, future-time check,
   * `receivedTime := now`, then classification against `existing`.
   */
  function Process(e: Event, existing: map<string, Event>, now: int): (s: Step)
    ensures s.event.eventId == e.eventId && s.event.machineId == e.machineId
    ensures s.event.eventTime == e.eventTime
    ensures s.event.durationMs == e.durationMs && s.event.defectCount == e.defectCount
  {
    if !ValidDuration(e.durationMs) then
      Step(Rejected(INVALID_DURATION), e)
    else
      var enriched := Enrich(e);
      if IsFuture(enriched.eventTime, now) then
        Step(Rejected(FUTURE_EVENT_TIME), enriched)
      else
        var stamped := enriched.(receivedTime := now);
        if stamped.eventId !in existing then Step(Accepted, stamped)
        else if IsIdentical(existing[stamped.eventId], stamped) then Step(Deduped, stamped)
        else Step(Updated, stamped)
  }

  /** Duration bounds are exact: `-1` and `21600001` are rejected, `0` and `21600000` pass; a rejected event is left as it came. */
  lemma DurationRejection(e: Event, existing: map<string, Event>, now: int)
    ensures Process(e, existing, now).verdict == Rejected(INVALID_DURATION)
        <==> e.durationMs < 0 || e.durationMs > 21_600_000
    ensures Process(e, existing, now).verdict == Rejected(INVALID_DURATION)
        ==> Process(e, existing, now).event == e
  {
  }

  /**
   * The future bound is exact: rejected when later than `now + 15 min`, not at it.
   * Such an event has been enriched already.
   */
  lemma FutureRejection(e: Event, existing: map<string, Event>, now: int)
    ensures Process(e, existing, now).verdict == Rejected(FUTURE_EVENT_TIME)
        <==> ValidDuration(e.durationMs) && e.eventTime > now + 900_000
    ensures Process(e, existing, now).verdict == Rejected(FUTURE_EVENT_TIME)
        ==> Process(e, existing, now).event == Enrich(e)
  {
  }

  /** Classification of an event that passed both checks. */
  lemma Classification(e: Event, existing: map<string, Event>, now: int)
    requires ValidDuration(e.durationMs) && !IsFuture(e.eventTime, now)
    ensures Process(e, existing, now).event == Enrich(e).(receivedTime := now)
    ensures Process(e, existing, now).verdict == Accepted <==> e.eventId !in existing
    ensures Process(e, existing, now).verdict == Deduped
        <==> e.eventId in existing && IsIdentical(existing[e.eventId], e)
    ensures Process(e, existing, now).verdict == Updated
        <==> e.eventId in existing && !IsIdentical(existing[e.eventId], e)
  {
  }

  /**
   * What the client sends in `lineId`, `factoryId` and `receivedTime`, and
   * what the stored record holds there, never changes a verdict.
   */
  lemma VerdictIgnoresDerivedFields(e: Event, existing: map<string, Event>, now: int,
                                    line: string, factory: string, received: int,
                                    line': string, factory': string, received': int)
    requires e.eventId in existing
    ensures Process(e.(lineId := line, factoryId := factory, receivedTime := received),
                    existing[e.eventId := existing[e.eventId].(lineId := line', factoryId := factory', receivedTime := received')],
                    now).verdict
         == Process(e, existing, now).verdict
  {
  }

  /** Whether and why an event is rejected does not depend on the stored records. */
  lemma RejectionIgnoresStore(e: Event, m1: map<string, Event>, m2: map<string, Event>, now: int)
    ensures Process(e, m1, now).verdict.Rejected? <==> Process(e, m2, now).verdict.Rejected?
    ensures Process(e, m1, now).verdict.Rejected? ==> Process(e, m2, now).verdict == Process(e, m1, now).verdict
  {
    if ValidDuration(e.durationMs) && !IsFuture(e.eventTime, now) {
      Classification(e, m1, now);
      Classification(e, m2, now);
    }
  }

  /** Only the record under the event's own id matters. */
  lemma ProcessLooksOnlyAtOwnId(e: Event, m1: map<string, Event>, m2: map<string, Event>, now: int)
    requires e.eventId in m1 <==> e.eventId in m2
    requires e.eventId in m1 ==> m1[e.eventId] == m2[e.eventId]
    ensures Process(e, m1, now) == Process(e, m2, now)
  {
  }

  // ---- The batch ----

  /** Every event of the batch classified against the same snapshot, in input order. */
  function Steps(events: seq<Event>, existing: map<string, Event>, now: int): (steps: seq<Step>)
    ensures |steps| == |events|
    ensures forall i :: 0 <= i < |events| ==> steps[i] == Process(events[i], existing, now)
  {
    if events == [] then []
    else Steps(events[..|events| - 1], existing, now) + [Process(events[|events| - 1], existing, now)]
  }

  /** How many steps have a verdict of kind `k`. */
  function Tally(steps: seq<Step>, k: Kind): (n: nat)
    ensures n <= |steps|
  {
    if steps == [] then 0
    else Tally(steps[..|steps| - 1], k) + (if KindOf(steps[|steps| - 1].verdict) == k then 1 else 0)
  }

  /** The rejection list: one entry per rejected step, in input order. */
  function Rejections(steps: seq<Step>): (rs: seq<Rejection>)
    ensures |rs| == Tally(steps, RejectedKind)
  {
    if steps == [] then []
    else
      var last := steps[|steps| - 1];
      Rejections(steps[..|steps| - 1])
        + (if last.verdict.Rejected? then [Rejection(last.event.eventId, last.verdict.reason)] else [])
  }

  /** `toSave`: the events of the staged steps, in input order. */
  function SaveList(steps: seq<Step>): (saved: seq<Event>)
    ensures |saved| == Tally(steps, AcceptedKind) + Tally(steps, UpdatedKind)
  {
    if steps == [] then []
    else
      var last := steps[|steps| - 1];
      SaveList(steps[..|steps| - 1]) + (if Staged(last) then [last.event] else [])
  }

  /** The events as the loop leaves them, one per step, in input order. */
  function EventsOf(steps: seq<Step>): (es: seq<Event>)
    ensures |es| == |steps|
    ensures forall i :: 0 <= i < |steps| ==> es[i] == steps[i].event
  {
    if steps == [] then []
    else EventsOf(steps[..|steps| - 1]) + [steps[|steps| - 1].event]
  }

  /** `saveAll`: each saved event overwrites or creates the record under its id, in list order. */
  function Upsert(store: map<string, Event>, saved: seq<Event>): (r: map<string, Event>)
    ensures store.Keys <= r.Keys
  {
    if saved == [] then store
    else
      var last := saved[|saved| - 1];
      Upsert(store, saved[..|saved| - 1])[last.eventId := last]
  }

  /** `saveAll` deletes nothing: the stored ids afterwards are the old ones and those of the saved events. */
  lemma {:induction false} UpsertKeys(store: map<string, Event>, saved: seq<Event>)
    ensures Upsert(store, saved).Keys == store.Keys + (set e | e in saved :: e.eventId)
  {
    if saved != [] {
      var last := saved[|saved| - 1];
      var front := saved[..|saved| - 1];
      UpsertKeys(store, front);
      assert saved == front + [last];
      assert (set e | e in saved :: e.eventId) == (set e | e in front :: e.eventId) + {last.eventId};
    }
  }

  /** Extending a prefix of the steps by one extends each fold by that step's contribution. */
  lemma PrefixSnoc(steps: seq<Step>, i: nat)
    requires i < |steps|
    ensures Tally(steps[..i + 1], AcceptedKind)
         == Tally(steps[..i], AcceptedKind) + (if steps[i].verdict.Accepted? then 1 else 0)
    ensures Tally(steps[..i + 1], DedupedKind)
         == Tally(steps[..i], DedupedKind) + (if steps[i].verdict.Deduped? then 1 else 0)
    ensures Tally(steps[..i + 1], UpdatedKind)
         == Tally(steps[..i], UpdatedKind) + (if steps[i].verdict.Updated? then 1 else 0)
    ensures Tally(steps[..i + 1], RejectedKind)
         == Tally(steps[..i], RejectedKind) + (if steps[i].verdict.Rejected? then 1 else 0)
    ensures Rejections(steps[..i + 1])
         == Rejections(steps[..i])
            + (if steps[i].verdict.Rejected? then [Rejection(steps[i].event.eventId, steps[i].verdict.reason)] else [])
    ensures SaveList(steps[..i + 1]) == SaveList(steps[..i]) + (if Staged(steps[i]) then [steps[i].event] else [])
    ensures EventsOf(steps[..i + 1]) == EventsOf(steps[..i]) + [steps[i].event]
  {
    assert steps[..i + 1][..i] == steps[..i];
  }

  /** Input order is kept: the rejections of a batch are those of its first part, then those of the rest. */
  lemma {:induction false} RejectionsAppend(a: seq<Step>, b: seq<Step>)
    ensures Rejections(a + b) == Rejections(a) + Rejections(b)
  {
    if b == [] {
      assert a + b == a;
    } else {
      var b' := b[..|b| - 1];
      assert (a + b)[..|a + b| - 1] == a + b';
      assert (a + b)[|a + b| - 1] == b[|b| - 1];
      RejectionsAppend(a, b');
    }
  }

  /** Input order is kept: the save list of a batch is that of its first part, then that of the rest. */
  lemma {:induction false} SaveListAppend(a: seq<Step>, b: seq<Step>)
    ensures SaveList(a + b) == SaveList(a) + SaveList(b)
  {
    if b == [] {
      assert a + b == a;
    } else {
      var b' := b[..|b| - 1];
      assert (a + b)[..|a + b| - 1] == a + b';
      assert (a + b)[|a + b| - 1] == b[|b| - 1];
      SaveListAppend(a, b');
    }
  }

  /** Every event is counted under exactly one of the four counters. */
  lemma {:induction false} TallyPartition(steps: seq<Step>)
    ensures Tally(steps, AcceptedKind) + Tally(steps, DedupedKind)
          + Tally(steps, UpdatedKind) + Tally(steps, RejectedKind) == |steps|
  {
    if steps != [] {
      TallyPartition(steps[..|steps| - 1]);
    }
  }

  /** Everything written has passed both checks, is enriched and carries `receivedTime = now`. */
  lemma {:induction false} SavedEventsAreStamped(events: seq<Event>, existing: map<string, Event>, now: int)
    ensures forall e :: e in SaveList(Steps(events, existing, now)) ==>
      && ValidDuration(e.durationMs) && !IsFuture(e.eventTime, now)
      && e.factoryId == FACTORY_ID && e.lineId == LineFor(e.machineId)
      && e.receivedTime == now
  {
    if events != [] {
      var prefix := events[..|events| - 1];
      SavedEventsAreStamped(prefix, existing, now);
      var steps := Steps(events, existing, now);
      assert steps[..|steps| - 1] == Steps(prefix, existing, now);
      StagedIsStamped(events[|events| - 1], existing, now);
    }
  }

  /** A staged event passed both checks, is enriched and carries `receivedTime = now`. */
  lemma StagedIsStamped(e: Event, existing: map<string, Event>, now: int)
    ensures var s := Process(e, existing, now);
      Staged(s) ==>
        && ValidDuration(s.event.durationMs) && !IsFuture(s.event.eventTime, now)
        && s.event.factoryId == FACTORY_ID && s.event.lineId == LineFor(s.event.machineId)
        && s.event.receivedTime == now
  {
    if ValidDuration(e.durationMs) && !IsFuture(e.eventTime, now) {
      Classification(e, existing, now);
    }
  }

  /** The upsert keeps every record under its own id. */
  lemma {:induction false} UpsertKeepsKeyed(store: map<string, Event>, saved: seq<Event>)
    requires Keyed(store)
    ensures Keyed(Upsert(store, saved))
  {
    if saved != [] {
      UpsertKeepsKeyed(store, saved[..|saved| - 1]);
    }
  }

  /** The save list of one more step, and what the upsert does with it. */
  lemma SaveListSnoc(steps: seq<Step>, store: map<string, Event>)
    requires steps != []
    ensures var prefix := steps[..|steps| - 1];
            var last := steps[|steps| - 1];
            && SaveList(steps) == SaveList(prefix) + (if Staged(last) then [last.event] else [])
            && Upsert(store, SaveList(steps))
               == if Staged(last) then Upsert(store, SaveList(prefix))[last.event.eventId := last.event]
                  else Upsert(store, SaveList(prefix))
  {
    var prefix := steps[..|steps| - 1];
    var last := steps[|steps| - 1];
    var saved := SaveList(steps);
    if Staged(last) {
      assert saved[..|saved| - 1] == SaveList(prefix);
      assert saved[|saved| - 1] == last.event;
    } else {
      assert saved == SaveList(prefix);
    }
  }

  /** A key no staged step names is left exactly as it was. */
  lemma {:induction false} UnstagedKeyUnchanged(steps: seq<Step>, store: map<string, Event>, k: string)
    requires forall j :: 0 <= j < |steps| && Staged(steps[j]) ==> steps[j].event.eventId != k
    ensures k in Upsert(store, SaveList(steps)) <==> k in store
    ensures k in store ==> Upsert(store, SaveList(steps))[k] == store[k]
  {
    if steps != [] {
      var prefix := steps[..|steps| - 1];
      assert forall j :: 0 <= j < |prefix| ==> prefix[j] == steps[j];
      UnstagedKeyUnchanged(prefix, store, k);
      SaveListSnoc(steps, store);
    }
  }

  /** The last staged event with a given id is what the store holds under that id afterwards. */
  lemma {:induction false} LastStagedWins(steps: seq<Step>, store: map<string, Event>, j: nat)
    requires j < |steps| && Staged(steps[j])
    requires forall l :: j < l < |steps| && Staged(steps[l]) ==> steps[l].event.eventId != steps[j].event.eventId
    ensures steps[j].event.eventId in Upsert(store, SaveList(steps))
    ensures Upsert(store, SaveList(steps))[steps[j].event.eventId] == steps[j].event
  {
    var prefix := steps[..|steps| - 1];
    SaveListSnoc(steps, store);
    if j < |steps| - 1 {
      assert forall l :: 0 <= l < |prefix| ==> prefix[l] == steps[l];
      LastStagedWins(prefix, store, j);
    }
  }

  predicate DistinctIds(events: seq<Event>) {
    forall i, j :: 0 <= i < j < |events| ==> events[i].eventId != events[j].eventId
  }

  /** One event of a resubmitted batch of distinct ids that was not rejected the first time is deduplicated. */
  lemma ResubmittedEventDeduped(events: seq<Event>, store: map<string, Event>, now: int, now': int, i: nat)
    requires DistinctIds(events) && now <= now'
    requires i < |events| && !Steps(events, store, now)[i].verdict.Rejected?
    ensures Process(events[i], Upsert(store, SaveList(Steps(events, store, now))), now').verdict == Deduped
  {
    var first := Steps(events, store, now);
    var e := events[i];
    if Staged(first[i]) {
      forall l | i < l < |first| && Staged(first[l])
        ensures first[l].event.eventId != first[i].event.eventId
      {
        assert events[l].eventId != events[i].eventId;
      }
      LastStagedWins(first, store, i);
    } else {
      forall j | 0 <= j < |first| && Staged(first[j])
        ensures first[j].event.eventId != e.eventId
      {
        assert j != i;
        assert j < i ==> events[j].eventId != events[i].eventId;
        assert j > i ==> events[i].eventId != events[j].eventId;
      }
      UnstagedKeyUnchanged(first, store, e.eventId);
    }
  }

  /** The second verdict on one event of a resubmitted batch. */
  lemma ResubmittedVerdict(events: seq<Event>, store: map<string, Event>, now: int, now': int, i: nat)
    requires DistinctIds(events) && now <= now' && i < |events|
    ensures var first := Process(events[i], store, now);
            var second := Process(events[i], Upsert(store, SaveList(Steps(events, store, now))), now');
            && (!first.verdict.Rejected? ==> second.verdict == Deduped)
            && (first.verdict == Rejected(INVALID_DURATION) ==> second.verdict == Rejected(INVALID_DURATION))
            && (now' == now && first.verdict.Rejected? ==> second.verdict == first.verdict)
            && (now' == now ==> !Staged(second))
  {
    var e := events[i];
    var store1 := Upsert(store, SaveList(Steps(events, store, now)));
    if !Process(e, store, now).verdict.Rejected? {
      ResubmittedEventDeduped(events, store, now, now', i);
    } else {
      DurationRejection(e, store, now);
      DurationRejection(e, store1, now');
      if now' == now {
        RejectionIgnoresStore(e, store, store1, now);
      }
    }
  }

  /** At a later clock, an event of a resubmitted batch is written again only if it was rejected as a future event. */
  lemma ResubmittedStagedWasFuture(events: seq<Event>, store: map<string, Event>, now: int, now': int, i: nat)
    requires DistinctIds(events) && now <= now' && i < |events|
    ensures Staged(Process(events[i], Upsert(store, SaveList(Steps(events, store, now))), now'))
        ==> Process(events[i], store, now).verdict == Rejected(FUTURE_EVENT_TIME)
  {
    var e := events[i];
    var store1 := Upsert(store, SaveList(Steps(events, store, now)));
    if !Process(e, store, now).verdict.Rejected? {
      ResubmittedEventDeduped(events, store, now, now', i);
    } else if !ValidDuration(e.durationMs) {
      DurationRejection(e, store1, now');
    } else {
      DurationRejection(e, store, now);
      FutureRejection(e, store, now);
      if !IsFuture(e.eventTime, now) {
        Classification(e, store, now);
        assert false;
      }
    }
  }

  /**
   * Resubmission is idempotent: submitting a batch of distinct ids again
   * leaves every event that was not rejected deduplicated and a rejected
   * one rejected for the same reason when the clock has not moved; then
   * nothing is written and the store is unchanged. At a later clock
   * everything that was not rejected the first time is still deduplicated.
   */
  lemma ResubmissionIsIdempotent(events: seq<Event>, store: map<string, Event>, now: int, now': int)
    requires DistinctIds(events)
    requires now <= now'
    ensures var first := Steps(events, store, now);
            var store1 := Upsert(store, SaveList(first));
            var second := Steps(events, store1, now');
            && (forall i :: 0 <= i < |events| && !first[i].verdict.Rejected? ==> second[i].verdict == Deduped)
            && (forall i :: 0 <= i < |events| && first[i].verdict == Rejected(INVALID_DURATION) ==>
                  second[i].verdict == Rejected(INVALID_DURATION))
            && (now' == now ==> (forall i :: 0 <= i < |events| && first[i].verdict.Rejected? ==>
                  second[i].verdict == first[i].verdict))
            && (now' == now ==> SaveList(second) == [] && Upsert(store1, SaveList(second)) == store1)
  {
    var first := Steps(events, store, now);
    var store1 := Upsert(store, SaveList(first));
    var second := Steps(events, store1, now');
    forall i | 0 <= i < |events|
      ensures !first[i].verdict.Rejected? ==> second[i].verdict == Deduped
      ensures first[i].verdict == Rejected(INVALID_DURATION) ==> second[i].verdict == Rejected(INVALID_DURATION)
      ensures now' == now && first[i].verdict.Rejected? ==> second[i].verdict == first[i].verdict
      ensures now' == now ==> !Staged(second[i])
    {
      ResubmittedVerdict(events, store, now, now', i);
    }
    if now' == now {
      NothingStagedNothingSaved(second);
    }
  }

  /**
   * A resubmission at a later clock writes only events that were first
   * rejected as lying in the future; when there were none, it writes nothing
   * and the store is unchanged.
   */
  lemma ResubmissionAtLaterClock(events: seq<Event>, store: map<string, Event>, now: int, now': int)
    requires DistinctIds(events)
    requires now <= now'
    ensures var first := Steps(events, store, now);
            var store1 := Upsert(store, SaveList(first));
            var second := Steps(events, store1, now');
            && (forall i :: 0 <= i < |events| && Staged(second[i]) ==> first[i].verdict == Rejected(FUTURE_EVENT_TIME))
            && ((forall i :: 0 <= i < |events| ==> first[i].verdict != Rejected(FUTURE_EVENT_TIME)) ==>
                  SaveList(second) == [] && Upsert(store1, SaveList(second)) == store1)
  {
    var first := Steps(events, store, now);
    var store1 := Upsert(store, SaveList(first));
    var second := Steps(events, store1, now');
    forall i | 0 <= i < |events|
      ensures Staged(second[i]) ==> first[i].verdict == Rejected(FUTURE_EVENT_TIME)
    {
      assert first[i] == Process(events[i], store, now);
      assert second[i] == Process(events[i], store1, now');
      ResubmittedStagedWasFuture(events, store, now, now', i);
    }
    if forall i :: 0 <= i < |events| ==> first[i].verdict != Rejected(FUTURE_EVENT_TIME) {
      forall i | 0 <= i < |second|
        ensures !Staged(second[i])
      {
        assert first[i].verdict != Rejected(FUTURE_EVENT_TIME);
      }
      NothingStagedNothingSaved(second);
    }
  }

  lemma {:induction false} NothingStagedNothingSaved(steps: seq<Step>)
    requires forall i :: 0 <= i < |steps| ==> !Staged(steps[i])
    ensures SaveList(steps) == []
  {
    if steps != [] {
      NothingStagedNothingSaved(steps[..|steps| - 1]);
    }
  }

  /**
   * Classification uses the snapshot taken before the loop: two valid events
   * with the same new id in one batch are both accepted, and the later wins.
   */
  lemma RepeatedIdInOneBatch(a: Event, b: Event, store: map<string, Event>, now: int)
    requires a.eventId == b.eventId && a.eventId !in store
    requires ValidDuration(a.durationMs) && !IsFuture(a.eventTime, now)
    requires ValidDuration(b.durationMs) && !IsFuture(b.eventTime, now)
    ensures var steps := Steps([a, b], store, now);
            && steps[0].verdict == Accepted && steps[1].verdict == Accepted
            && Upsert(store, SaveList(steps))[a.eventId] == Enrich(b).(receivedTime := now)
  {
    var steps := Steps([a, b], store, now);
    LastStagedWins(steps, store, 1);
  }

  /**
   * The update path: a valid resubmission of a stored id whose duration or
   * defect count changed is counted as updated, and the store then holds it.
   */
  lemma UpdatePath(e: Event, store: map<string, Event>, now: int)
    requires e.eventId in store
    requires ValidDuration(e.durationMs) && !IsFuture(e.eventTime, now)
    requires store[e.eventId].durationMs != e.durationMs || store[e.eventId].defectCount != e.defectCount
    ensures var steps := Steps([e], store, now);
            && steps[0].verdict == Updated
            && Tally(steps, UpdatedKind) == 1
            && Upsert(store, SaveList(steps))[e.eventId] == Enrich(e).(receivedTime := now)
  {
    var step := Process(e, store, now);
    Classification(e, store, now);
    assert !IsIdentical(store[e.eventId], e);
    SingleStep(e, store, now);
    SingleStepFolds(step, store);
  }

  /** A batch of one event is one step. */
  lemma SingleStep(e: Event, store: map<string, Event>, now: int)
    ensures Steps([e], store, now) == [Process(e, store, now)]
  {
    assert [e][..0] == [];
  }

  /** The folds over a single step. */
  lemma SingleStepFolds(s: Step, store: map<string, Event>)
    ensures Tally([s], UpdatedKind) == if s.verdict.Updated? then 1 else 0
    ensures SaveList([s]) == if Staged(s) then [s.event] else []
    ensures Upsert(store, [s.event]) == store[s.event.eventId := s.event]
  {
    assert [s][..0] == [];
    assert [s.event][..0] == [];
  }

  /** `findAllById` on the batch's ids: exactly the stored records whose id occurs in the batch. */
  function FetchById(store: map<string, Event>, events: seq<Event>): (fetched: map<string, Event>)
    ensures forall i :: 0 <= i < |events| ==> (events[i].eventId in fetched <==> events[i].eventId in store)
    ensures forall id :: id in fetched ==> id in store && fetched[id] == store[id]
    ensures forall id :: id in fetched ==> exists e :: e in events && e.eventId == id
  {
    var incomingIds := set e | e in events :: e.eventId;
    map id | id in store && id in incomingIds :: store[id]
  }

  /** The loop only ever looks at ids of the batch, so fetching just those records is enough. */
  lemma {:induction false} FetchedSnapshotSuffices(events: seq<Event>, store: map<string, Event>,
                                                   fetched: map<string, Event>, now: int)
    requires forall i :: 0 <= i < |events| ==>
      (events[i].eventId in fetched <==> events[i].eventId in store)
    requires forall id :: id in fetched ==> id in store && fetched[id] == store[id]
    ensures Steps(events, fetched, now) == Steps(events, store, now)
  {
    forall i | 0 <= i < |events|
      ensures Process(events[i], fetched, now) == Process(events[i], store, now)
    {
      ProcessLooksOnlyAtOwnId(events[i], fetched, store, now);
    }
  }
}
