# Buyogo machine-event ingestion, in Dafny

This project models the core of Buyogo, a Spring service for factory machine events. Clients post batches of `MachineEvent` records. The service does four things with each event:

- validates its duration and its event time;
- derives the factory and the production line from the machine id;
- stamps the arrival time;
- classifies the event against the records already stored, as accepted (new id), deduplicated (same id, same payload) or updated (same id, different payload).

It then saves the new and diverged events with one upsert and returns a `BatchResponse` with four counters and a list of rejections. Two read queries aggregate the stored events over a half-open time window `[start, end)`:

- machine statistics: the event count, the defect sum and a Healthy/Warning status;
- the top defect lines of a factory: grouped by line, ordered by defect sum, limited.

A defect count of `-1` means "unknown": it is counted as an event but adds nothing to a sum.

Modules, one per file:

- `Wrappers` (wrappers.dfy): an `Option` type, used for nullable SQL sums.
- `Entity` (entity.dfy): the `MachineEvent` record as the datatype `Event`, and the store invariant `Keyed`. Instants are whole milliseconds.
- `BatchResponses` (batch_response.dfy): the mutable summary, as a class with the invariant `rejected == |rejections|`.
- `Ingestion` (ingestion.dfy): the per-event rules as functions.
  - `Process` is one loop iteration. `Steps` is the whole batch against one snapshot.
  - Folds over the steps give the counters (`Tally`), the rejection list (`Rejections`), the save list (`SaveList`) and the upsert (`Upsert`).
  - Lemmas state what these promise.
- `Repo` (machine_repository.dfy): the two JPQL queries as functions over the rows of the table. `TableOf` turns the store into such rows.
- `Responses` and `Stats` (responses.dfy, stats.dfy): the response records, and the post-processing of the query results in the service.
- `Service` (event_service.dfy): the class `EventService`, holding the store as a `map<string, Event>`.
  - `ProcessBatch` is the imperative loop, proved against `Steps`. Its loop body is the method `ProcessOne`.
  - The two read operations are functions of the store.

The clock is a parameter `now`. One value stands for both readings of `Instant.now()` in `processBatch`.

Where the project's documented design and its code disagree, the model follows the code:

- The machine-to-line mapping is an inline comparison, not a replaceable strategy.
- Ties in the top-lines order are not broken by any rule, so the model promises only a non-increasing defect sum.

## Model

Source paths are relative to the repository root.

| member | source | states |
|---|---|---|
| BatchResponses.BatchResponse.constructor | src/main/java/com/AyushToCode/Buyogo/utility/BatchResponse.java:7-11 | a new summary has all four counters at 0, an empty rejection list, and satisfies `rejected == \|rejections\|` |
| BatchResponses.BatchResponse.AddRejection | src/main/java/com/AyushToCode/Buyogo/utility/BatchResponse.java:14-17 | appends exactly `Rejection(eventId, reason)` at the end, raises `rejected` by one, leaves the other counters alone, keeps the invariant, and decreases nothing |
| BatchResponses.BatchResponse.IncrementAccepted | src/main/java/com/AyushToCode/Buyogo/utility/BatchResponse.java:20 | raises `accepted` by one and changes no other counter and not the list; keeps the invariant |
| BatchResponses.BatchResponse.IncrementDeduped | src/main/java/com/AyushToCode/Buyogo/utility/BatchResponse.java:21 | raises `deduped` by one and changes nothing else; keeps the invariant |
| BatchResponses.BatchResponse.IncrementUpdated | src/main/java/com/AyushToCode/Buyogo/utility/BatchResponse.java:22 | raises `updated` by one and changes nothing else; keeps the invariant |
| BatchResponses.BatchResponse.GetAccepted | src/main/java/com/AyushToCode/Buyogo/utility/BatchResponse.java:24 | returns the current `accepted` and modifies nothing |
| BatchResponses.BatchResponse.GetDeduped | src/main/java/com/AyushToCode/Buyogo/utility/BatchResponse.java:25 | returns the current `deduped` and modifies nothing |
| BatchResponses.BatchResponse.GetUpdated | src/main/java/com/AyushToCode/Buyogo/utility/BatchResponse.java:26 | returns the current `updated` and modifies nothing |
| BatchResponses.BatchResponse.GetRejected | src/main/java/com/AyushToCode/Buyogo/utility/BatchResponse.java:27 | returns `rejected`, which under the invariant is the length of the rejection list |
| BatchResponses.BatchResponse.GetRejections | src/main/java/com/AyushToCode/Buyogo/utility/BatchResponse.java:28 | returns the current rejection list and modifies nothing |
| Ingestion.CompareTo | src/main/java/com/AyushToCode/Buyogo/service/EventService.java:96 | Java's `String.compareTo` is 0 exactly when the strings are equal |
| Ingestion.CompareToIsLexOrder | src/main/java/com/AyushToCode/Buyogo/service/EventService.java:96 | `compareTo(a, b) <= 0` holds exactly when `a` is lexicographically at most `b` (a prefix, or smaller at the first difference) |
| Ingestion.LexLessEqTail | src/main/java/com/AyushToCode/Buyogo/service/EventService.java:96 | with equal first characters, lexicographic order is that of the rests, both ways |
| Ingestion.LexLessEqTailDown | src/main/java/com/AyushToCode/Buyogo/service/EventService.java:96 | with equal first characters, order of the strings implies order of the rests |
| Ingestion.LexLessEqTailUp | src/main/java/com/AyushToCode/Buyogo/service/EventService.java:96 | with equal first characters, order of the rests implies order of the strings |
| Ingestion.LexLessEqHead | src/main/java/com/AyushToCode/Buyogo/service/EventService.java:96 | with different first characters, lexicographic order is that of those characters |
| Ingestion.LineFor | src/main/java/com/AyushToCode/Buyogo/service/EventService.java:96-100 | the line is `LINE-01` or `LINE-02`, and `LINE-01` exactly when the machine id is lexicographically at most `M-010` |
| Ingestion.Enrich | src/main/java/com/AyushToCode/Buyogo/service/EventService.java:90-101 | sets `factoryId = "F01"` and the line by the rule above, and changes no other field |
| Ingestion.SampleMachineLines | src/main/java/com/AyushToCode/Buyogo/service/EventService.java:91-100 | `M-001` and `M-010` go to line one; `M-011` goes to line two, and so do `M-1` and `M1` under string order |
| Ingestion.IdenticalIgnoresDerivedFields | src/main/java/com/AyushToCode/Buyogo/service/EventService.java:83-88 | changing `lineId`, `factoryId` or `receivedTime`, on either side, never changes `isIdentical` |
| Ingestion.IdenticalIsPayloadEquality | src/main/java/com/AyushToCode/Buyogo/service/EventService.java:83-88 | `isIdentical` holds exactly when the two records are equal once the id, `lineId`, `factoryId` and `receivedTime` are disregarded |
| Ingestion.ValidDuration | src/main/java/com/AyushToCode/Buyogo/service/EventService.java:44 | a duration passes exactly when it is between 0 and 6 hours in milliseconds, both bounds included |
| Ingestion.IsFuture | src/main/java/com/AyushToCode/Buyogo/service/EventService.java:53 | an event is not in the future exactly when it is at most 15 minutes, in milliseconds, after `now` |
| Ingestion.Process | src/main/java/com/AyushToCode/Buyogo/service/EventService.java:42-76 | one iteration never changes the id, machine, event time, duration or defect count of the event |
| Ingestion.DurationRejection | src/main/java/com/AyushToCode/Buyogo/service/EventService.java:44-47 | rejected with `INVALID_DURATION` exactly when the duration is below 0 or above 21600000 (both bounds pass), and such an event is left untouched |
| Ingestion.FutureRejection | src/main/java/com/AyushToCode/Buyogo/service/EventService.java:50-56 | rejected with `FUTURE_EVENT_TIME` exactly when the duration is valid and the event time is strictly after `now + 900000`; such an event has already been enriched |
| Ingestion.Classification | src/main/java/com/AyushToCode/Buyogo/service/EventService.java:58-75 | a valid event is enriched and stamped with `now`; it is accepted exactly when its id is not in the snapshot, deduplicated exactly when the stored record is identical, updated exactly when it differs |
| Ingestion.VerdictIgnoresDerivedFields | src/main/java/com/AyushToCode/Buyogo/service/EventService.java:61-75 | the client's `lineId`, `factoryId` and `receivedTime`, and the stored record's, never change a verdict |
| Ingestion.RejectionIgnoresStore | src/main/java/com/AyushToCode/Buyogo/service/EventService.java:44-56 | whether and why an event is rejected does not depend on the stored records |
| Ingestion.ProcessLooksOnlyAtOwnId | src/main/java/com/AyushToCode/Buyogo/service/EventService.java:61 | a verdict depends only on the snapshot's entry under the event's own id |
| Ingestion.Steps | src/main/java/com/AyushToCode/Buyogo/service/EventService.java:42-76 | one step per event, in input order, each classified against the same snapshot |
| Ingestion.Rejections | src/main/java/com/AyushToCode/Buyogo/service/EventService.java:45-54 | the rejection list has one entry per rejected step |
| Ingestion.SaveList | src/main/java/com/AyushToCode/Buyogo/service/EventService.java:65-73 | the save list has one entry per accepted or updated step |
| Ingestion.EventsOf | src/main/java/com/AyushToCode/Buyogo/service/EventService.java:50-59 | the caller's events as the setters leave them, one per step, in input order |
| Ingestion.Tally | src/main/java/com/AyushToCode/Buyogo/service/EventService.java:42-76 | a counter never exceeds the number of iterations |
| Ingestion.Upsert | src/main/java/com/AyushToCode/Buyogo/service/EventService.java:79 | `saveAll` never removes a stored id |
| Ingestion.UpsertKeys | src/main/java/com/AyushToCode/Buyogo/service/EventService.java:79 | after `saveAll` the stored ids are the old ones plus the ids of the saved events, and no others |
| Ingestion.PrefixSnoc | src/main/java/com/AyushToCode/Buyogo/service/EventService.java:42-76 | one more iteration adds to each counter, to the rejection list and to the save list exactly that event's contribution |
| Ingestion.RejectionsAppend | src/main/java/com/AyushToCode/Buyogo/service/EventService.java:45-54 | rejections keep input order: those of a batch are those of its first part followed by those of the rest |
| Ingestion.SaveListAppend | src/main/java/com/AyushToCode/Buyogo/service/EventService.java:40-73 | the save list keeps input order: that of a batch is that of its first part followed by that of the rest |
| Ingestion.TallyPartition | src/main/java/com/AyushToCode/Buyogo/service/EventService.java:42-76 | every event is counted under exactly one of the four counters, so they add up to the batch length |
| Ingestion.StagedIsStamped | src/main/java/com/AyushToCode/Buyogo/service/EventService.java:44-73 | an event that is staged for saving passed both checks, carries `F01` and its machine's line, and has `receivedTime = now` |
| Ingestion.SavedEventsAreStamped | src/main/java/com/AyushToCode/Buyogo/service/EventService.java:44-73 | everything written passed both checks, carries `F01` and its machine's line, and has `receivedTime = now` |
| Ingestion.UpsertKeepsKeyed | src/main/java/com/AyushToCode/Buyogo/service/EventService.java:79 | `saveAll` keeps every record under its own id |
| Ingestion.SaveListSnoc | src/main/java/com/AyushToCode/Buyogo/service/EventService.java:65-79 | a staged last event is appended to the save list and written over its id; an unstaged one changes neither |
| Ingestion.UnstagedKeyUnchanged | src/main/java/com/AyushToCode/Buyogo/service/EventService.java:79 | a key that no staged event names is exactly as before the upsert, so rejected and deduplicated events are never written |
| Ingestion.LastStagedWins | src/main/java/com/AyushToCode/Buyogo/service/EventService.java:65-79 | after the upsert, a staged id maps to its incoming event unless a later staged event has the same id |
| Ingestion.ResubmittedEventDeduped | src/main/java/com/AyushToCode/Buyogo/service/EventService.java:61-70 | in a batch of distinct ids, an event that was not rejected is deduplicated when the batch is submitted again, at any later clock |
| Ingestion.ResubmittedVerdict | src/main/java/com/AyushToCode/Buyogo/service/EventService.java:44-75 | the second verdict on one event of a resubmitted batch: deduplicated if first not rejected, the same duration rejection, and the same verdict and nothing staged when the clock has not moved |
| Ingestion.ResubmissionIsIdempotent | src/main/java/com/AyushToCode/Buyogo/service/EventService.java:42-79 | resubmitting a batch of distinct ids deduplicates everything not rejected the first time; with the same clock it repeats every rejection, saves nothing and leaves the store unchanged (a later clock is the next row) |
| Ingestion.ResubmittedStagedWasFuture | src/main/java/com/AyushToCode/Buyogo/service/EventService.java:44-79 | in a batch of distinct ids resubmitted at the same or a later clock, an event staged the second time was rejected as a future event the first time |
| Ingestion.ResubmissionAtLaterClock | src/main/java/com/AyushToCode/Buyogo/service/EventService.java:42-79 | resubmitting a batch of distinct ids at any later clock saves only events that were first rejected as future events; when there were none it saves nothing and leaves the store unchanged |
| Ingestion.NothingStagedNothingSaved | src/main/java/com/AyushToCode/Buyogo/service/EventService.java:65-79 | with no accepted or updated event the save list is empty |
| Ingestion.RepeatedIdInOneBatch | src/main/java/com/AyushToCode/Buyogo/service/EventService.java:36-66 | two valid events with the same new id in one batch are both accepted, because the snapshot predates the loop, and the later one is stored |
| Ingestion.SingleStep | src/main/java/com/AyushToCode/Buyogo/service/EventService.java:42-79 | a batch of one event has exactly that event's verdict as its only step |
| Ingestion.SingleStepFolds | src/main/java/com/AyushToCode/Buyogo/service/EventService.java:71-79 | a batch of one step counts one update exactly when that step is an update, saves its event exactly when it is staged, and upserting one event overwrites its id |
| Ingestion.UpdatePath | src/main/java/com/AyushToCode/Buyogo/service/EventService.java:71-79 | a valid resubmission of a stored id with a changed duration or defect count is counted as updated, and the store then holds the new version |
| Ingestion.FetchById | src/main/java/com/AyushToCode/Buyogo/service/EventService.java:31-38 | the snapshot holds exactly the stored records whose id occurs in the batch, unchanged |
| Ingestion.FetchedSnapshotSuffices | src/main/java/com/AyushToCode/Buyogo/service/EventService.java:31-61 | classifying against the fetched records gives the same steps as classifying against the whole store |
| Repo.Select | src/main/java/com/AyushToCode/Buyogo/repo/MachineRepository.java:16-25 | a WHERE clause keeps exactly the matching rows and no more rows than the table has |
| Repo.InWindow | src/main/java/com/AyushToCode/Buyogo/repo/MachineRepository.java:16 | `t >= start AND t < end`: an instant at `start` is inside exactly when the window is non-empty, one at `end` never is, and an empty window holds nothing |
| Repo.Matches | src/main/java/com/AyushToCode/Buyogo/repo/MachineRepository.java:16-26 | each WHERE clause, stated per query: the machine and `[start, end)`, the factory and `[from, to)`, or the line of a group |
| Repo.Weight | src/main/java/com/AyushToCode/Buyogo/repo/MachineRepository.java:14 | a row weighs 1 in `COUNT(e)`; in the defect sum, 0 for the sentinel `-1` and its defect count otherwise |
| Repo.Measure | src/main/java/com/AyushToCode/Buyogo/repo/MachineRepository.java:14-23 | `COUNT(e)` is the number of rows, and the defect sum is never negative when no count is below the sentinel |
| Repo.MeasureCountsRows | src/main/java/com/AyushToCode/Buyogo/repo/MachineRepository.java:14-23 | `COUNT(e)` is the number of rows |
| Repo.MeasureAppend | src/main/java/com/AyushToCode/Buyogo/repo/MachineRepository.java:14-22 | an aggregate of two row sequences is the sum of the aggregates |
| Repo.SelectAppend | src/main/java/com/AyushToCode/Buyogo/repo/MachineRepository.java:16-25 | filtering distributes over concatenation and keeps row order |
| Repo.AddedRowCountsIffMatched | src/main/java/com/AyushToCode/Buyogo/repo/MachineRepository.java:14-25 | one more row changes an aggregate by that row's weight when it passes the filter, and not at all otherwise |
| Repo.WindowIsHalfOpen | src/main/java/com/AyushToCode/Buyogo/repo/MachineRepository.java:16 | a machine's event at exactly `start` is counted in a non-empty window; one at exactly `end` is not |
| Repo.SentinelCountedNotSummed | src/main/java/com/AyushToCode/Buyogo/repo/MachineRepository.java:14-22 | in either query a row with `defectCount = -1` adds 1 to the count and 0 to the sum |
| Repo.GetStatsData | src/main/java/com/AyushToCode/Buyogo/repo/MachineRepository.java:14-19 | one row whose count is the number of the machine's rows in `[start, end)`; its sum is NULL exactly when there are none, otherwise their sentinel-aware total |
| Repo.DistinctLines | src/main/java/com/AyushToCode/Buyogo/repo/MachineRepository.java:26 | the groups of `GROUP BY e.lineId`: distinct, covering every row's line, each with at least one row |
| Repo.GroupRow | src/main/java/com/AyushToCode/Buyogo/repo/MachineRepository.java:21-26 | a group's row carries its line, the sentinel-aware sum of the group and its number of rows |
| Repo.GroupRows | src/main/java/com/AyushToCode/Buyogo/repo/MachineRepository.java:21-26 | one result row per group, in group order |
| Repo.GroupRowsOfEmpty | src/main/java/com/AyushToCode/Buyogo/repo/MachineRepository.java:21-26 | over no rows, every group totals 0 |
| Repo.GroupRowsCons | src/main/java/com/AyushToCode/Buyogo/repo/MachineRepository.java:21-26 | one more row adds its weight to exactly one group, if its line is listed |
| Repo.GroupsPartition | src/main/java/com/AyushToCode/Buyogo/repo/MachineRepository.java:21-26 | the groups partition the filtered rows: over all groups, counts and sums add up to the totals |
| Repo.GroupRowsDistinct | src/main/java/com/AyushToCode/Buyogo/repo/MachineRepository.java:26 | distinct groups give rows with distinct lines |
| Repo.GroupRowsAreGroups | src/main/java/com/AyushToCode/Buyogo/repo/MachineRepository.java:21-26 | each result row belongs to a line of the table and carries that group's sum and count |
| Repo.GroupRowsCoverLines | src/main/java/com/AyushToCode/Buyogo/repo/MachineRepository.java:26 | every line of the filtered rows has a result row |
| Repo.InsertByDefects | src/main/java/com/AyushToCode/Buyogo/repo/MachineRepository.java:27 | insertion adds exactly the one row, as a multiset |
| Repo.SortByDefects | src/main/java/com/AyushToCode/Buyogo/repo/MachineRepository.java:27 | the ordered rows are a permutation of the groups |
| Repo.ConsSorted | src/main/java/com/AyushToCode/Buyogo/repo/MachineRepository.java:27 | a row at least as large as every row of a descending list can be put in front of it |
| Repo.ConsDistinct | src/main/java/com/AyushToCode/Buyogo/repo/MachineRepository.java:26 | a row with a new line can be put in front of a line-distinct list |
| Repo.InsertMembers | src/main/java/com/AyushToCode/Buyogo/repo/MachineRepository.java:27 | the rows after insertion are the old rows and the new one |
| Repo.InsertKeepsSorted | src/main/java/com/AyushToCode/Buyogo/repo/MachineRepository.java:27 | insertion keeps the defect sums non-increasing |
| Repo.InsertAddsValue | src/main/java/com/AyushToCode/Buyogo/repo/MachineRepository.java:22-27 | insertion adds the row's count and sum to the totals |
| Repo.InsertKeepsDistinct | src/main/java/com/AyushToCode/Buyogo/repo/MachineRepository.java:26-27 | inserting a row with a new line keeps the lines distinct |
| Repo.SortedTail | src/main/java/com/AyushToCode/Buyogo/repo/MachineRepository.java:27 | the rest of a descending list is descending and no larger than its head |
| Repo.DistinctTail | src/main/java/com/AyushToCode/Buyogo/repo/MachineRepository.java:26 | the rest of a line-distinct list is line-distinct and avoids its head's line |
| Repo.SortIsSorted | src/main/java/com/AyushToCode/Buyogo/repo/MachineRepository.java:27 | `ORDER BY SUM(...) DESC`: the defect sums are non-increasing |
| Repo.SortKeepsTotals | src/main/java/com/AyushToCode/Buyogo/repo/MachineRepository.java:22-27 | ordering keeps the total count and the total sum |
| Repo.SortKeepsDistinct | src/main/java/com/AyushToCode/Buyogo/repo/MachineRepository.java:26-27 | ordering keeps the lines distinct |
| Repo.SortKeepsRows | src/main/java/com/AyushToCode/Buyogo/repo/MachineRepository.java:26-27 | ordering keeps exactly the same rows, their distinct lines and their totals, and sorts them |
| Repo.FindTopDefectLines | src/main/java/com/AyushToCode/Buyogo/repo/MachineRepository.java:21-30 | one row per distinct line among the factory's events in `[from, to)`, with that group's sentinel-aware sum and count, ordered by sum descending; counts and sums add up to the filtered totals |
| Repo.PickKey | src/main/java/com/AyushToCode/Buyogo/repo/MachineRepository.java:11 | some stored id, when the store is not empty |
| Repo.TableOf | src/main/java/com/AyushToCode/Buyogo/repo/MachineRepository.java:11 | the table has as many rows as the store has ids (which rows they are is the next row) |
| Repo.TableHoldsStore | src/main/java/com/AyushToCode/Buyogo/repo/MachineRepository.java:11 | every stored record is a row of the table, and every row is a stored record |
| Repo.MatchingIdsSplit | src/main/java/com/AyushToCode/Buyogo/repo/MachineRepository.java:11 | the matching ids of a store are those of the store without one id, plus that id when its record matches |
| Repo.SelectCountsStoredMatches | src/main/java/com/AyushToCode/Buyogo/repo/MachineRepository.java:11-25 | a query over the table keeps exactly one row per stored record that passes the filter: each id is counted once |
| Stats.AvgDefectRate | src/main/java/com/AyushToCode/Buyogo/service/EventService.java:141-144 | the rate is 0 for a window under one second; otherwise rate times seconds equals defects times 3600 |
| Stats.RateIsExact | src/main/java/com/AyushToCode/Buyogo/service/EventService.java:141-144 | for any rate computed by the rule: 0 when the window is under one second, else rate times seconds equals defects times 3600 |
| Stats.WindowSeconds | src/main/java/com/AyushToCode/Buyogo/service/EventService.java:141 | `toSeconds` rounds down to whole seconds, for negative windows too: `seconds * 1000 <= end - start < seconds * 1000 + 1000` |
| Stats.StatusFor | src/main/java/com/AyushToCode/Buyogo/service/EventService.java:147 | `Healthy` exactly when the rate is below 2.0, `Warning` exactly when it is 2.0 or more |
| Stats.WarningThreshold | src/main/java/com/AyushToCode/Buyogo/service/EventService.java:141-147 | `Warning` exactly when the window has a positive number of seconds and `defects * 3600 >= 2 * seconds` |
| Stats.MachineStats | src/main/java/com/AyushToCode/Buyogo/service/EventService.java:129-155 | no row gives 0 events and 0 defects and a NULL sum reads as 0; the status is `Warning` exactly at the integer threshold; a non-positive window gives rate 0 and `Healthy` |
| Stats.DefectsPercent | src/main/java/com/AyushToCode/Buyogo/service/EventService.java:114-116 | 0 without events; otherwise the percent times the event count is 100 times the defects |
| Stats.ToResponse | src/main/java/com/AyushToCode/Buyogo/service/EventService.java:108-124 | a row's line and count are kept, a NULL sum reads as 0, and the percent is `DefectsPercent` of the row, so it follows the rule above |
| Stats.TopDefectLines | src/main/java/com/AyushToCode/Buyogo/service/EventService.java:106-125 | the first `min(limit, rows)` rows in query order, each converted as above, with the percent of its own sum and count |
| Stats.TruncationKeepsOrder | src/main/java/com/AyushToCode/Buyogo/service/EventService.java:106-107 | cutting at `limit` keeps the descending order and the distinct lines |
| Stats.TopLinesAreGroups | src/main/java/com/AyushToCode/Buyogo/service/EventService.java:104-111 | each returned line is a non-empty group of the filtered table with that group's totals |
| Stats.TopLinesComplete | src/main/java/com/AyushToCode/Buyogo/service/EventService.java:104-107 | fewer than `limit` lines come back only when every line of the filtered events is among them |
| Stats.RowPastCutIsNoLarger | src/main/java/com/AyushToCode/Buyogo/service/EventService.java:106-107 | in a descending result, a row cut off by `limit` has a sum no larger than the last one kept |
| Stats.TopLinesAreTop | src/main/java/com/AyushToCode/Buyogo/service/EventService.java:103-107 | a line of the filtered events that is not returned has a group sum no larger than the last returned line |
| Stats.TopLinesOf | src/main/java/com/AyushToCode/Buyogo/service/EventService.java:103-126 | at most `limit` distinct lines, largest defect sum first, each with its group's totals and their percent; every line left out has a sum no larger than the last returned one; when fewer than `limit` come back, every line is there |
| Service.EventService.constructor | src/main/java/com/AyushToCode/Buyogo/service/EventService.java:22-24 | the service starts over a store keyed by `eventId` |
| Service.EventService.ProcessOne | src/main/java/com/AyushToCode/Buyogo/service/EventService.java:43-75 | one loop iteration leaves the summary reporting, and the save list holding, exactly the steps so far plus this event's step |
| Service.EventService.ProcessBatch | src/main/java/com/AyushToCode/Buyogo/service/EventService.java:27-81 | the counters are the tallies of the steps against the pre-batch store; the rejections are listed in input order; the store is the old one upserted with the accepted and updated events; the events are left as the setters leave them; the counters add up to the batch length; the store stays keyed |
| Service.EventService.GetMachineStats | src/main/java/com/AyushToCode/Buyogo/service/EventService.java:128-156 | the count is the number of stored records of the machine in `[start, end)`, the defect sum skips the sentinel, the rate is `AvgDefectRate` of that sum and the whole seconds of the window (0 for a window under one second), and the status is `Warning` exactly at the integer threshold |
| Service.MachineStatsRateIsExact | src/main/java/com/AyushToCode/Buyogo/service/EventService.java:141-144 | the service's rate is 0 for a window under one second; otherwise rate times seconds is the defect sum times 3600 |
| Service.EventService.GetTopDefectLines | src/main/java/com/AyushToCode/Buyogo/service/EventService.java:103-126 | over the stored records: at most `limit` distinct lines, largest sum first, each with its group's totals and their percent; every line left out has a sum no larger than the last returned one; all lines when fewer than `limit` come back |

## Left out

- The HTTP controller and the Spring bootstrap are transport and wiring, and so is the controller's default `limit` of 10.
- `@Transactional`, the JPA persistence context and dirty checking are not modelled; `saveAll` is one map upsert (`Ingestion.Upsert`).
- Concurrency between requests is not modelled: Dafny has no way to state the thread-safety the concurrent test exercises. The performance test measures wall-clock time and is left out too.
- `Instant.now()` is a parameter. The model does not capture drift between the two readings in `processBatch`, and instants are whole milliseconds with no sub-millisecond precision.
- Floating point is left out. The window in hours, the rate and the percent are exact `real`s, and the rounding to two decimals is not modelled.
- Stats.AvgDefectRate: gives the exact rational rate, not the rounded double the response carries.
- Stats.DefectsPercent: gives the exact rational percent, not the rounded double the response carries.
- The debug `System.out.println` in the deduplication branch is I/O and is left out.
- The `start` and `end` fields of `StatsResponse` are never set by the service and are not modelled.
- `Stream.limit` with a negative argument throws; `Stats.TopDefectLines` and the functions above it require `limit >= 0`.
- Lombok-generated accessors, builders and `equals` are plain datatype fields and value equality here.
- Java nulls (a missing `machineId`, `eventTime` or `eventId` in a request) are not modelled: every field has a value.
- Ingestion.Tally: counters are unbounded naturals, so the 32-bit `int` wrap-around of `BatchResponse` counters after 2^31 events is not modelled. Sums and counts of the queries are unbounded as well, not `long`.
- Ingestion.CompareTo: compares Dafny characters, not UTF-16 code units. The two agree for characters of the Basic Multilingual Plane.
- Aliasing is not modelled. `getRejections` returns the live list in Java but a copy here; mutated event objects are returned as the values `seen`, not shared references.
- Repo.SortByDefects: is one fixed order among those the database may return. Only non-increasing sums are promised, because `ORDER BY` leaves ties unordered.
- Repo.TableOf: fixes one order of the stored rows. The queries' results do not depend on it, except for the order of tied groups.
- The repository method `findAllByEventIdIn` is declared but never called; `findAllById` is `Ingestion.FetchById`.
