# Verified models of the operational scripts

This project models the maintenance and gate logic of the backend as Dafny programs and proves what
that logic keeps, loses and guarantees. Code that changes tables or lists step by step is a class
with fields or a method with loops, proved against a function of the state; the main results are
lemmas about those functions, over every input and every history.

Check it with `dafny verify dfyconfig.toml`.

| file | subject |
|---|---|
| `Rows`, `KeepNewest`, `PruneHistory` | `ORDER BY at, id LIMIT n` deletes; `row_number() > K` pruning, of one table and over time |
| `OrderbookRetention`, `OrderbookRuns`, `OrderbookConservation`, `DurableHistory` | hourly compaction of orderbook snapshots as a state machine |
| `RetentionJob` | the retention script: statements as methods, `main` as a method over three tables |
| `AuditPruning` | exact-duplicate pruning of account audit events and the hygiene report's counts |
| `FundingCancellation` | all-or-nothing cancellation of abandoned funding intents |
| `SequentialRename`, `CanonicalRewrite` | the transactional rewrite of canonical market ids |
| `AtomicUnits` | decimal text of on-chain amounts, hex quantities, balance call data |
| `FundingGates`, `RouteGates`, `GateMeaning`, `GateRefinement` | the four funding gates, what they read, and how they relate |
| `LatencyBaseline` | nearest-rank percentiles, grouped summaries, rankings |
| `OpinionCuration`, `CuratedMerge`, `HtmlEscape`, `SensitiveScan` | smaller algorithms |
| `Arithmetic`, `Ascii`, `FiniteSets`, `Sequences`, `Sorting`, `Wrappers` | shared helpers |

## What the proofs found

- `docs/runbooks/vps-migration-runbook.md:1212` calls the hourly table durable history. It is one
  exactly when every run keeps it so (`HistoryCountsIff`, for any cutoffs, limits and arrivals): no row
  is late, no compaction rewrites a bucket that already gave rows to a delete, and each delete takes
  only whole buckets. Draining runs do (`HistoryIsDurable`: no late row, no bucket left half deleted),
  and so do runs with cutoffs on the hour and a limit above the backlog
  (`DisciplinedHistoryIsDurable`). The script enforces none of these. The upsert replaces aggregates
  instead of merging them, so under every configuration samples can vanish (`EveryConfigurationLoses`,
  with concrete tables): when a batch limit splits a bucket (`LimitBelowBacklogLoses`), when the cutoff
  `now() - N days` lies inside an hour (`CutoffInsideHourLoses`), when a row arrives late
  (`LateArrivalLoses`), and when a row ages past the cutoff between the two statements of one run
  (`TwoCutoffsLose`).
- The compaction groups by event id, which its conflict key lacks. Two events in one bucket
  (`ConflictExists`, for every cutoff) make the statement fail, and then no later run removes any
  snapshot of any market (`ConflictStopsRetention`).
- The cancellation does not look at readiness again inside its transaction: it cancels a ready intent
  exactly when a planned one became ready after the load (`InterferenceHarms`); `InterferenceExists`
  is an accepted request and such a state.
- The UUID check ignores letter case, but a stored id is reported missing exactly when the request
  writes a capital letter in it (`CapitalLettersReportedMissing`; `CapitalLettersExist` is such a
  request).
- The venue summary does not raise its age limit to one hour, the other gates do. With a limit below
  one hour it fails artifacts that the pair gate accepts (`VenueRefinesIff`). The route gate, unlike the
  strict gates, takes a time stamp in the future as fresh (`FutureStampAccepted`; `StrictIsRoutePlus`
  lists all differences).
- A second evaluation of the accepted market's id is neither accepted nor rejected, and an ambiguous
  entry drops its inexact candidates (`AllAccountedFor`, exactly when; `NamesakeIsLost` and
  `AmbiguityDropsInexact` show both).

## Model

| member | source | states |
|---|---|---|
| KeepNewest.RankIsRowNumber | scripts/db/compact-db-retention.ts:284-311 | ranks number the rows of a group 1, 2, ... from newest to oldest, ties by id |
| KeepNewest.NewerRanksFirst | scripts/db/compact-db-retention.ts:286-290 | of two rows of a group the one created later, or with the larger id at the same time, has the smaller row number |
| KeepNewest.RankCountsNewer | scripts/db/compact-db-retention.ts:286-290 | the row number is one more than the number of rows of the group created later, or at the same time with a larger id |
| KeepNewest.EligibleMeans | scripts/db/compact-db-retention.ts:294-301 | a row may be deleted iff it is in scope, old, and at least K rows of its group in scope are newer |
| KeepNewest.NewestCount | scripts/db/compact-db-retention.ts:284-311 | exactly k rows of a group have rank at most k, when it has that many |
| KeepNewest.EligibleAfterDelete | scripts/db/compact-db-retention.ts:279-312 | deleting any eligible rows leaves exactly the other eligible rows eligible |
| KeepNewest.BatchKeeps | scripts/db/compact-db-retention.ts:344-385 | a batch keeps every row out of scope, every row not yet old and the K newest of each group, with their ranks |
| KeepNewest.DeletedHasNewer | scripts/db/compact-db-retention.ts:279-312 | every row a batch deletes is in scope and old, and K newer rows of its group in scope are still stored |
| KeepNewest.DeletedComeFirst | scripts/db/compact-db-retention.ts:298-299 | what a batch deletes was created before every eligible row it leaves, or at the same time with a smaller id |
| KeepNewest.RankedDeleteMeans | scripts/db/compact-db-retention.ts:279-312 | a ranked delete takes min(limit, n) of the n old rows with K newer ones, earliest first; each leaves K newer rows behind, and with room for all none is left |
| KeepNewest.BatchesAreOneDelete | scripts/db/compact-db-retention.ts:279-312 | any series of batches deletes the oldest eligible rows of the start table, as many as the limits add up to |
| KeepNewest.BatchesConverge | scripts/db/compact-db-retention.ts:344-385 | a series of batches reaches the unlimited delete iff its limits add up to the eligible count, and that is a fixed point |
| KeepNewest.CountsAgree | scripts/reports/report-db-hygiene.ts:119-127 | the sum of max(rows - K, 0) over groups is the number of rows with row number above K |
| KeepNewest.GroupsSurvive | scripts/db/compact-db-retention.ts:284-311 | removing all surplus keeps every group and leaves no surplus |
| PruneHistory.SparedRowsSurvive | scripts/db/compact-db-retention.ts:344-385 | over any interleaving of recordings and batches, each batch with its own scope, age limit, number to keep and limit, a row that every batch leaves out, finds too young or ranks among its newest of all rows ever recorded is still stored |
| PruneHistory.NewestEverStored | scripts/db/compact-db-retention.ts:279-312 | whatever batches that keep at least K rows run between the recordings, each row with fewer than K newer rows of its group ever recorded is still stored |
| OrderbookRetention.DeletedRowsStayBacked | scripts/db/compact-db-retention.ts:225-258 | in every history of inserts, compactions and deletes, each deleted row has an hourly row with its key, and hourly rows are never removed |
| OrderbookRetention.SameKeyMeans | scripts/db/compact-db-retention.ts:160-169 | two snapshots share a bucket iff market, venue, venue market, the outcomes with NULL as empty text, and the hour of 3600000 ms agree |
| OrderbookRetention.ClashMeans | scripts/db/compact-db-retention.ts:189-204 | the upsert fails iff two rows before the cutoff share a bucket and differ in event |
| OrderbookRetention.StepLossless | scripts/db/compact-db-retention.ts:144-258 | after one statement every deleted row is among the rows its bucket aggregates, iff this held before and the step is safe |
| OrderbookRetention.HistoryLossless | scripts/db/compact-db-retention.ts:144-258 | over a whole history no deleted sample drops out of its bucket, iff every step was safe |
| OrderbookRetention.StepConserved | scripts/db/compact-db-retention.ts:144-258 | after one statement or insert the buckets of deleted rows aggregate all rows ever inserted for them, iff they did before and the step is conserving |
| OrderbookRetention.HistoryConserved | scripts/db/compact-db-retention.ts:197-219 | over any history of single statements and inserts the buckets of deleted rows aggregate all rows ever inserted for them, iff no insert is late, every compaction wrote only intact buckets and every delete took only from complete ones |
| OrderbookRuns.RunDeletesPrefix | scripts/db/compact-db-retention.ts:230-247 | one run deletes the first min(limit, n) old rows in (received_at, id) order and nothing else |
| Rows.OldestNComesFirst | scripts/db/compact-db-retention.ts:246-247 | what `ORDER BY at, id LIMIT n` takes is earlier than all it leaves, or as early with a smaller id |
| OrderbookRuns.PartialBucketsShareHour | scripts/db/compact-db-retention.ts:230-247 | all buckets that one run deletes only in part lie in one hour |
| OrderbookRuns.DrainTakesExactly | scripts/db/compact-db-retention.ts:461-466 | with a fixed cutoff and no inserts the backlog is gone after exactly ceil(n / limit) runs and not before; after each number of runs max(0, n - runs * limit) rows are left, and the next run deletes min(limit, rest) of them |
| OrderbookRuns.RunLossless | scripts/db/compact-db-retention.ts:461-466 | after one run with two clock readings and arrivals in between no deleted row has dropped out of its bucket iff none had before, it compacts only intact buckets and deletes only rows that their buckets count |
| OrderbookRuns.RunLosslessOneCutoff | scripts/db/compact-db-retention.ts:461-466 | with one clock reading and newer arrivals the last condition is free |
| OrderbookRuns.OneRunConserved | scripts/db/compact-db-retention.ts:461-466 | one run, whatever its cutoff and limit, conserves iff it compacts only intact buckets and every row sharing a bucket with a deleted one is older than the cutoff |
| OrderbookRuns.ScriptRunConserved | scripts/db/compact-db-retention.ts:461-466 | the same with two clock readings and arrivals in between: no late arrival, only intact buckets compacted, only whole buckets taken from |
| OrderbookConservation.RunsConservedIff | scripts/db/compact-db-retention.ts:461-466 | over any series of runs, any cutoffs, limits and arrivals, failed compactions included: the buckets of deleted rows account for all rows ever inserted iff they did before and every run kept it |
| OrderbookConservation.RunsConservedForward | scripts/db/compact-db-retention.ts:461-466 | when the clock does not go back, or each run has one clock reading, the condition is about rows, cutoffs and limits alone: each bucket a run takes from was seen whole by its compaction |
| OrderbookConservation.DrainedIff | scripts/db/compact-db-retention.ts:230-247 | a run leaves no bucket half deleted iff the rows it takes are whole buckets |
| OrderbookConservation.DrainingConserves | scripts/db/compact-db-retention.ts:461-466 | whatever the cutoffs and limits, runs with one clock reading that get no late row and leave no bucket half deleted conserve every bucket |
| OrderbookConservation.DisciplineConserves | scripts/db/compact-db-retention.ts:461-466 | a corollary: cutoffs on the hour with a limit above the backlog drain, so they conserve, and no row before the last cutoff is left |
| OrderbookConservation.HalfDeletedBucketLoses | scripts/db/compact-db-retention.ts:197-219 | compacting a bucket that already gave rows to a delete loses them |
| OrderbookConservation.LimitBelowBacklogLoses | scripts/db/compact-db-retention.ts:231-247 | a backlog of one bucket above the batch limit loses samples in two runs |
| OrderbookConservation.LimitBelowBacklogExists | scripts/db/compact-db-retention.ts:442 | the loss at a concrete table, one sample above the limit in one hour, for every limit the option allows |
| OrderbookConservation.CutoffInsideHourLoses | scripts/db/compact-db-retention.ts:160-175 | a cutoff between two rows of one bucket and a later one past both lose samples, whatever the limit |
| OrderbookConservation.CutoffInsideHourExists | scripts/db/compact-db-retention.ts:160-175 | the loss at a concrete table of two samples, for every cutoff that is not on the hour and every limit |
| OrderbookConservation.LateArrivalLoses | scripts/db/compact-db-retention.ts:144-223 | a late row for a bucket that already gave rows to a delete makes the next run lose those rows |
| OrderbookConservation.LateArrivalExists | scripts/db/compact-db-retention.ts:144-223 | that loss at a concrete table, with cutoffs on the hour and every limit |
| OrderbookConservation.TwoCutoffsLose | scripts/db/compact-db-retention.ts:461-466 | a row that ages past the cutoff between the two statements is deleted without ever having been compacted |
| OrderbookConservation.TwoCutoffsExist | scripts/db/compact-db-retention.ts:461-466 | that loss at a concrete table, for every two readings inside an hour one millisecond apart |
| DurableHistory.AfterIsScriptRun | scripts/db/compact-db-retention.ts:461-466 | a run of the series is what the script's two statements do: active or not, with a failed compaction, or with a statement the database refuses |
| DurableHistory.RunAmongArrivals | scripts/db/compact-db-retention.ts:461-466 | the statements with the live recorder writing before and between them leave the state after the run |
| DurableHistory.CountsTell | scripts/db/compact-db-retention.ts:206-219 | the stored sample counts of all deleted samples' buckets are right iff the buckets conserve them |
| DurableHistory.HistoryCountsIff | docs/runbooks/vps-migration-runbook.md:1211-1212 | over any series of runs the stored sample count of every deleted sample's bucket is the number of samples ever recorded for it iff it was before and every run keeps it so |
| DurableHistory.HistoryIsDurable | docs/runbooks/vps-migration-runbook.md:1211-1212 | whatever the cutoffs and limits, after draining runs without late rows each deleted sample has an hourly row whose count and aggregates are those of all samples ever recorded for the bucket |
| DurableHistory.DisciplinedHistoryIsDurable | docs/runbooks/vps-migration-runbook.md:1211-1212 | with cutoffs on the hour and a limit above the backlog this holds for every sample recorded before the last cutoff |
| DurableHistory.EveryConfigurationLoses | scripts/db/compact-db-retention.ts:437-443 | every configuration of the script loses samples of concrete tables in each of the four ways |
| DurableHistory.ConflictStopsRetention | scripts/db/compact-db-retention.ts:189-204 | once two old rows of one bucket have different events, no later run compacts or deletes anything |
| DurableHistory.ConflictExists | scripts/db/compact-db-retention.ts:189-204 | a valid table of two samples with such a conflict, for every cutoff |
| RetentionJob.IntArg | scripts/db/compact-db-retention.ts:70-77 | the nearest allowed integer to the parsed option, the fallback when there is none |
| RetentionJob.ConfigureMeans | scripts/db/compact-db-retention.ts:437-443 | each setting follows its own option, with its own fallback and bounds |
| RetentionJob.AggregateMeans | scripts/db/compact-db-retention.ts:175-186 | an hourly row in terms of its source rows: count, first and last time, largest bid depth, number of blocked rows, midpoint of a latest row that has one |
| RetentionJob.AggregatesAgree | scripts/db/compact-db-retention.ts:176-196 | the aggregates of a group are determined by its rows, up to which of several simultaneous midpoints is kept |
| RetentionJob.Aggregate | scripts/db/compact-db-retention.ts:175-186 | count, first, last, latest non-null midpoint, maximal bid depth and blocker count of a group, over its rows in any order |
| RetentionJob.SnapshotTables.CompactOldOrderbookRows | scripts/db/compact-db-retention.ts:144-223 | one compaction: the bucket of every row before the cutoff is rewritten with the aggregates of all its rows before the cutoff, and no other bucket; or it fails as a whole and changes nothing, exactly when two events share a key |
| RetentionJob.SnapshotTables.DeleteCompactedOrderbookRows | scripts/db/compact-db-retention.ts:225-258 | takes rows before the cutoff that have an hourly row, each earlier than every such row it leaves or as early with a smaller id, at most the limit; returns how many |
| RetentionJob.DeleteTakesEarliest | scripts/db/compact-db-retention.ts:225-258 | the same for one delete step of the state machine; when fewer rows than the limit go, no row before the cutoff with an hourly row is left |
| RetentionJob.RankedTable.DeleteRanked | scripts/db/compact-db-retention.ts:279-312 | one ranked batch delete: min(limit, n) of the n old rows with K newer ones of their group, earliest first by (created_at, id), each leaving K newer rows behind; returns the number removed |
| RetentionJob.ReconciliationKept | scripts/db/compact-db-retention.ts:350-384 | a record that is unsuccessful in any respect, not old, or among the K newest of its leg and venue is not pruned |
| RetentionJob.SnapshotRunMeans | scripts/db/compact-db-retention.ts:461-466 | the snapshot statements of a run take rows as the delete does, judged by the hourly rows after the compaction, and none when the delete is not executed |
| RetentionJob.AuditBatchMeans | scripts/db/compact-db-retention.ts:279-312 | the audit statement removes only rows before its cutoff that leave a newer row of the same intent, leg, type and payload, so no group disappears, and with room for all no old duplicate is left |
| RetentionJob.ReconBatchMeans | scripts/db/compact-db-retention.ts:344-385 | the reconciliation statement removes only successful records before its cutoff that leave `keepPerLeg` newer successful ones of their leg and venue, and with room for all none such is left |
| RetentionJob.CountsMean | scripts/db/compact-db-retention.ts:262-277 | the first counts are those of old snapshots, old duplicates, and old successful records with `keepPerLeg` newer ones |
| RetentionJob.RunRetention | scripts/db/compact-db-retention.ts:434-505 | a dry run changes nothing; an applied run does the guarded statements in order with their clock readings and cutoffs; each table has exactly the rows the statement leaves, of which the audit table keeps a row of every group and loses only old duplicates, the reconciliation table only superseded successful records; the first statement that raises ends the run and what came before it stays; every figure of the report is that of the tables |
| AuditPruning.UserRanks | scripts/db/prune-user-venue-account-audit-events.ts:75-91 | ranking one user's rows alone gives the row numbers of the whole table |
| AuditPruning.UserByUserIsAll | scripts/db/prune-user-venue-account-audit-events.ts:93-115 | pruning user by user, in any order and with repetitions, is pruning without a filter |
| AuditPruning.DuplicatesMean | scripts/db/prune-user-venue-account-audit-events.ts:75-91 | the duplicates are the user's events with a later copy, or one as late with a larger id, of the same user, account, type and payload |
| AuditPruning.DuplicateGroupsMean | scripts/reports/report-db-hygiene.ts:119-127 | the groups counted are those with two different rows |
| AuditPruning.PruneAccounting | scripts/reports/report-db-hygiene.ts:119-127 | report and script count the same duplicates; deleting them leaves one row of every group, and both counts become zero |
| AuditPruning.EventTable.RunPrune | scripts/db/prune-user-venue-account-audit-events.ts:131-156 | the four figures of the summary; exactly the user's events with a newer copy are removed; other users' rows untouched; a second count of zero |
| FundingCancellation.ReadyCountFansOut | scripts/admin/cancel-abandoned-funding-intents.ts:142-159 | the joins multiply the number of ready records by max(1, targets) and max(1, legs) |
| FundingCancellation.ReadyCountVerdict | scripts/admin/cancel-abandoned-funding-intents.ts:142-181 | the count is positive iff the intent has a ready record |
| FundingCancellation.BlockerIffNotCancellable | scripts/admin/cancel-abandoned-funding-intents.ts:161-181 | an id is blocked iff it is missing, of another user, ready to trade or backed by ready evidence |
| FundingCancellation.ResultMeans | scripts/admin/cancel-abandoned-funding-intents.ts:161-181 | every field of a result, and which blocker it names: missing, else wrong user, else READY_TO_TRADE, else ready evidence |
| FundingCancellation.AcceptedMeans | scripts/admin/cancel-abandoned-funding-intents.ts:72-91 | a request proceeds iff its ids are distinct, stored, of the expected user, not READY_TO_TRADE, and without ready records |
| FundingCancellation.AppliedMeans | scripts/admin/cancel-abandoned-funding-intents.ts:95-105 | the shown result is newly cancelled iff the intent was not CANCELLED before |
| FundingCancellation.UuidMeans | scripts/admin/cancel-abandoned-funding-intents.ts:129-131 | the pattern is five dash-joined groups of 8, 4, 4, 4 and 12 hexadecimal digits of either case |
| FundingCancellation.CapitalLettersReportedMissing | scripts/admin/cancel-abandoned-funding-intents.ts:69-86 | a stored id is loaded however it is written, and reported missing iff the request has a capital letter in it |
| FundingCancellation.CapitalLettersExist | scripts/admin/cancel-abandoned-funding-intents.ts:69-91 | a well-formed request that is refused although it is accepted in small letters |
| FundingCancellation.CancelAllCommits | scripts/admin/cancel-abandoned-funding-intents.ts:183-229 | the exact frame of a commit: requested intents CANCELLED with one new audit id each, their legs and targets LEG_CANCELLED unless ready, failed or cancelled, everything else as before |
| FundingCancellation.CommitWritesLegs | scripts/admin/cancel-abandoned-funding-intents.ts:183-199 | legs and targets of requested intents that are LEG_READY_TO_TRADE, LEG_FAILED or LEG_CANCELLED stay as they are; the others become LEG_CANCELLED, a leg with its own error reason or else the given one; rows of other intents stay |
| FundingCancellation.CommitWritesIntents | scripts/admin/cancel-abandoned-funding-intents.ts:201-228 | requested intents are CANCELLED and name one more event; there is one FUNDING_CANCELLED event with the reason for each; all other intents, events and records stay |
| FundingCancellation.RunSafe | scripts/admin/cancel-abandoned-funding-intents.ts:69-117 | an uninterrupted run newly cancels no ready intent and leaves every requested one CANCELLED |
| FundingCancellation.RerunMutatesNothing | scripts/admin/cancel-abandoned-funding-intents.ts:95-105 | the same request again is accepted and changes nothing |
| FundingCancellation.InterferenceHarms | scripts/admin/cancel-abandoned-funding-intents.ts:95-105 | the commit cancels an intent that is ready by then iff a planned intent became ready after the load |
| FundingCancellation.InterferenceExists | scripts/admin/cancel-abandoned-funding-intents.ts:95-105 | an accepted request and a state at the commit in which its intent is ready and gets cancelled |
| FundingCancellation.NoInterferenceSafe | scripts/admin/cancel-abandoned-funding-intents.ts:95-105 | without other writers on the requested intents the commit cancels no ready intent |
| FundingCancellation.RunKeepsLinks | scripts/admin/cancel-abandoned-funding-intents.ts:201-228 | every audit id an intent names stays an event about that intent, named once |
| FundingCancellation.Database.CommitResults | scripts/admin/cancel-abandoned-funding-intents.ts:93-110 | with a fault at any statement the tables are as before; without one all pending intents are cancelled, with the exact frame of a commit |
| FundingCancellation.FoundSize | scripts/admin/cancel-abandoned-funding-intents.ts:88-89 | the size test refuses exactly the requests with a repeated id |
| FundingCancellation.Run | scripts/admin/cancel-abandoned-funding-intents.ts:69-117 | which outcome a request has, and that only an applied run changes the tables, to the state after the commit |
| SequentialRename.SequentialIsAtOnceIff | scripts/batch/rewrite-canonical-exact-markets.ts:70-119 | for distinct old and distinct new names the update loop is one simultaneous renaming of every row iff no new name is a later old name |
| SequentialRename.ChaseIs | scripts/batch/rewrite-canonical-exact-markets.ts:70-119 | a row is untouched or carries the new name of the first rename that hit it |
| SequentialRename.CheckedIs | scripts/batch/rewrite-canonical-exact-markets.ts:92-117 | the loop with row-count checks succeeds iff every rename matches one row of the start table |
| SequentialRename.CheckedChangesOneRow | scripts/batch/rewrite-canonical-exact-markets.ts:92-117 | on success each target changed exactly one row, which no other target touched |
| SequentialRename.CheckedKeepsOthers | scripts/batch/rewrite-canonical-exact-markets.ts:92-117 | on success every row that no target matches is as before |
| SequentialRename.ScopesStay | scripts/batch/rewrite-canonical-exact-markets.ts:70-119 | the rows of each event stay the rows of that event |
| CanonicalRewrite.KeyIgnoresOrder | scripts/batch/rewrite-canonical-exact-markets.ts:50-51 | the stored row has the event, market and version of its definition; its pair does not depend on argument order and identifies the unordered pair |
| CanonicalRewrite.UpsertAllIs | scripts/batch/rewrite-canonical-exact-markets.ts:127-174 | the last definition of a row decides its content, rows without a definition stay |
| CanonicalRewrite.OtherAssessmentsKept | scripts/batch/rewrite-canonical-exact-markets.ts:121-174 | assessments of other markets that no definition is about survive unchanged |
| CanonicalRewrite.NoBrokenAssessmentsLeft | scripts/batch/rewrite-canonical-exact-markets.ts:121-197 | no assessment of a broken market is left iff no definition is about one |
| CanonicalRewrite.AssessmentsAfter | scripts/batch/rewrite-canonical-exact-markets.ts:121-197 | after a run each assessment is that of its last definition, or was there before and its market is no old id of the spec |
| CanonicalRewrite.StatesAfter | scripts/batch/rewrite-canonical-exact-markets.ts:70-81 | for a straight spec each state row of a definition's event and old id ends with its legacy id, and every other row is as before |
| CanonicalRewrite.ProfilesAfter | scripts/batch/rewrite-canonical-exact-markets.ts:90-117 | for a straight spec the profile loop succeeds iff each target has exactly one row of its event, venue and old id; that row ends with the target's market and text, and every other row is as before |
| CanonicalRewrite.StraightRenames | scripts/batch/rewrite-canonical-exact-markets.ts:70-119 | distinct old ids per event, distinct venues per definition and no new id that is a later old id make both loops straight |
| CanonicalRewrite.Database.RewriteMarkets | scripts/batch/rewrite-canonical-exact-markets.ts:53-218 | any error leaves all three tables as before, with the reason of each error; a commit did both loops, the purge and the upserts, each assessment with profiles of its own event, market and venues; for a straight spec every old row carries its new id and no other row changed |
| CanonicalRewrite.CommittedRewrite | scripts/batch/rewrite-canonical-exact-markets.ts:70-119 | for a straight spec both loops are simultaneous renamings, checked against the start table; rows no target matches stay; events keep their states, events and venues their profiles |
| AtomicUnits.PrintThenRead | src/ops-read-service.ts:303-318 | a negative amount is refused; the text of every other amount is canonical and reads back as the amount |
| AtomicUnits.PrintInjective | src/ops-read-service.ts:303-318 | two amounts print the same iff they are equal |
| AtomicUnits.NumeralMeans | src/ops-read-service.ts:303-318 | the decimal digits, and that appending one multiplies the number by ten and adds it |
| AtomicUnits.ReadThenPrint | src/ops-read-service.ts:303-318 | every canonical text is the text of the amount it denotes, so printing is a bijection |
| AtomicUnits.BalanceKeepsAmount | src/ops-read-service.ts:504 | from a node's hex word to balance text and back the amount is kept |
| AtomicUnits.ParseHexMeans | src/ops-read-service.ts:296-301 | a result is read iff it is "0x" and at least one hexadecimal digit; a bare "0x" is a syntax error, anything else, such as no text, a malformed response |
| AtomicUnits.HexNumeralMeans | src/ops-read-service.ts:296-301 | the hexadecimal digits in either case, and what appending one does |
| AtomicUnits.PaddedWordReads | src/ops-read-service.ts:296-301 | a quantity written in hex with any zero padding reads back |
| AtomicUnits.CallCarriesAddress | src/ops-read-service.ts:293-294 | the call data is 0x70a08231 and one 32-byte word holding the address's number, with or without prefix and in any case |
| AtomicUnits.SameCallIffSameAddress | src/ops-read-service.ts:293-294 | two addresses give the same call iff they differ in letter case only |
| Ascii.LowerMeans | src/ops-read-service.ts:294 | each capital letter becomes its small one, and any other character stays |
| Sorting.SortedEqualIffSameElements | scripts/dev/validate-pair-funding-readiness-gate.ts:76-82 | comparing two lists after sorting compares them as multisets |
| FundingGates.StrictRun.ValidateArtifact | scripts/dev/validate-pair-funding-readiness-gate.ts:84-142 | the failures pushed are exactly those that are due; none iff the gate accepts |
| RouteGates.RouteRun.ValidateRouteArtifact | scripts/dev/validate-funding-route-enforcement-readiness.ts:217-268 | the blockers pushed are exactly those that are due; none iff the route gate accepts |
| RouteGates.ValidateVenue | scripts/reports/report-funding-venue-readiness-gate-summary.ts:121-199 | MISSING, STALE, PASSED or FAILED exactly when, and the blockers are exactly those that are due |
| GateMeaning.RouteAcceptsMeans | scripts/dev/validate-funding-route-enforcement-readiness.ts:217-268 | the route gate accepts iff every field is right and for each venue the first leg of the venue is ready and confirmed and some evidence row is of the venue and ready to trade |
| GateMeaning.RouteLegBlockersMean | scripts/dev/validate-funding-route-enforcement-readiness.ts:251-267 | per venue: missing leg, incomplete first leg, and no evidence row that is ready to trade, the latter two when there is a leg |
| GateMeaning.VenuePassesMeans | scripts/reports/report-funding-venue-readiness-gate-summary.ts:90-199 | a PASSED row likewise, with its own age limit; its evidence and leg blockers; when the artifact is fresh |
| GateMeaning.HasReadyEvidenceMeans | scripts/reports/report-funding-venue-readiness-gate-summary.ts:118-119 | evidence is a row with that venue and readyToTrade true |
| GateMeaning.LegReadyMeans | scripts/reports/report-funding-venue-readiness-gate-summary.ts:111-116 | it is the first leg of the venue that has to be ready and confirmed |
| GateMeaning.StrictAcceptsMeans | scripts/dev/validate-pair-funding-readiness-gate.ts:84-142 | the strict gates accept iff every field is right, the stamp is neither in the future nor too old, each venue has as many ready rows as the gate names it, and its first leg is ready and confirmed |
| GateMeaning.StrictFailuresMean | scripts/dev/validate-pair-funding-readiness-gate.ts:55-82 | when a failure about time, path, row count or evidence is reported |
| GateMeaning.StrictFlagFailuresMean | scripts/dev/validate-pair-funding-readiness-gate.ts:107-121 | no safety failure iff enforcement, LI.FI, broadcast and live submission are off and the run is scoped to the script |
| GateMeaning.StrictLegFailuresMean | scripts/dev/validate-pair-funding-readiness-gate.ts:128-141 | per venue: missing leg, and what is wrong with the first one |
| GateMeaning.StrictLanes | scripts/dev/validate-pair-funding-readiness-gate.ts:39-41 | the lane, row count and venues of the pair gate and of a single-venue gate |
| GateRefinement.StrictIsRoutePlus | scripts/dev/validate-funding-route-enforcement-readiness.ts:217-268 | a strict gate is the route gate plus: no future stamp, an exact row count, no surplus ready evidence |
| GateRefinement.FutureStampAccepted | scripts/dev/validate-funding-route-enforcement-readiness.ts:112-126 | a flawless artifact stamped in the future: the route gate accepts it, the strict gate does not |
| GateRefinement.PairAccepted | scripts/dev/validate-pair-funding-readiness-gate.ts:84-142 | what the pair gate accepts raises no route blocker, passes for both venues, and no single-venue gate accepts it |
| GateRefinement.VenueAccepted | scripts/dev/validate-venue-funding-readiness-gate.ts:96-154 | what a single-venue gate accepts raises no route blocker and passes for its venue |
| GateRefinement.StrictImpliesRoute | scripts/dev/validate-funding-route-enforcement-readiness.ts:161-268 | the same for any lane, any order of the venues and any larger age limit |
| GateRefinement.VenueRefinesIff | scripts/reports/report-funding-venue-readiness-gate-summary.ts:121-199 | the summary passes all artifacts a strict gate accepts iff its age limit covers the gate's, raised to one hour |
| GateRefinement.RouteRefinesIff | scripts/dev/validate-funding-route-enforcement-readiness.ts:112-126 | the route gate lets pass all artifacts a strict gate accepts iff its raised age limit covers the gate's |
| LatencyBaseline.NearestRank | scripts/reports/report-latency-baseline.ts:208-214 | the selected value is a sample with at least ceil(n p) samples at or below and n - ceil(n p) + 1 at or above |
| LatencyBaseline.PercentilesOrdered | scripts/reports/report-latency-baseline.ts:208-218 | percentiles are ordered after rounding and do not exceed the rounded maximum |
| LatencyBaseline.RoundNear | scripts/reports/report-latency-baseline.ts:216-218 | figures are the nearest thousandth, the upper one of two equally near |
| LatencyBaseline.SummaryOrdered | scripts/reports/report-latency-baseline.ts:153-162 | p50 <= p95 <= p99 <= max, all present iff there is a finite sample, and max is the rounded largest sample |
| LatencyBaseline.SummaryRanks | scripts/reports/report-latency-baseline.ts:153-162 | p50, p95 and p99 are each a rounded sample with at least 50, 95 or 99 percent of the samples at or below it and fewer than that below it |
| LatencyBaseline.SummarizeBy | scripts/reports/report-latency-baseline.ts:164-178 | one summary per non-empty key, of that key's samples |
| LatencyBaseline.SummariesMean | scripts/reports/report-latency-baseline.ts:164-178 | a group exists iff a sample has its key and the key is not empty; it holds each finite duration as often as the key's samples do |
| LatencyBaseline.GroupsConserveSamples | scripts/reports/report-latency-baseline.ts:164-178 | the counts of all groups add up to the number of finite samples with a key |
| LatencyBaseline.RankBy | scripts/reports/report-latency-baseline.ts:180-193 | min(10, n) distinct groups with their figures, in falling order of p99 with a missing one as -1, and no omitted group has a larger p99 than a listed one |
| OpinionCuration.BuildEntry | scripts/batch/generate-opinion-exact-match-curation.ts:202-363 | evaluates the considered candidates in pool order, ranks them and decides |
| OpinionCuration.PoolMeans | scripts/batch/generate-opinion-exact-match-curation.ts:192-200 | the pool holds the candidates of the category as often as listed, by id, those of one id by title |
| OpinionCuration.EvaluationsMean | scripts/batch/generate-opinion-exact-match-curation.ts:230-250 | each candidate judged is evaluated as often as it is listed, with its judgement |
| OpinionCuration.RankMeans | scripts/batch/generate-opinion-exact-match-curation.ts:252-256 | the ranked list holds the evaluations, highest score first, those of one score by market id |
| OpinionCuration.AcceptsIffOneExact | scripts/batch/generate-opinion-exact-match-curation.ts:252-322 | an entry accepts a candidate iff exactly one evaluation is exact, and accepts that one; when each other status applies, and which near misses are listed |
| OpinionCuration.DecisionMeans | scripts/batch/generate-opinion-exact-match-curation.ts:257-330 | by classification: accepted iff exactly one evaluation is historical or live-only exact, and that one; ambiguous iff several are; near exact only iff none is and some evaluation is near |
| OpinionCuration.RejectedMeans | scripts/batch/generate-opinion-exact-match-curation.ts:262-363 | rejected are the evaluations of other markets beside an accepted one, the exact ones when ambiguous, and all otherwise |
| OpinionCuration.AllAccountedFor | scripts/batch/generate-opinion-exact-match-curation.ts:262-363 | accepted plus rejected is the evaluated multiset iff no other evaluation has the accepted id and no ambiguous entry has inexact candidates |
| OpinionCuration.NamesakeIsLost | scripts/batch/generate-opinion-exact-match-curation.ts:286-288 | two evaluations of one market, one exact: the other is neither accepted nor rejected |
| OpinionCuration.AmbiguityDropsInexact | scripts/batch/generate-opinion-exact-match-curation.ts:308-330 | two exact evaluations and an inexact one: the inexact one is not rejected |
| OpinionCuration.InventoryOrderIrrelevant | scripts/batch/generate-opinion-exact-match-curation.ts:192-200 | the pool does not depend on the order of the inventory |
| OpinionCuration.EvaluationOrderIrrelevant | scripts/batch/generate-opinion-exact-match-curation.ts:252-256 | with distinct market ids the ranking and the decision do not depend on evaluation order |
| OpinionCuration.CountsPartition | scripts/batch/generate-opinion-exact-match-curation.ts:432-441 | accepted, unresolved and rejected counts add up to the entries, and mean what their names say |
| CuratedMerge.MergeCuratedMarkets | scripts/admin/seed-frontend-curated-markets.ts:421-433 | sorted by (category, key), one market per key, the one the loop kept |
| CuratedMerge.MergeKeepsKeys | scripts/admin/seed-frontend-curated-markets.ts:421-433 | output keys are the input keys, once each; each kept market is the earliest of maximal evidence |
| CuratedMerge.MergeOrder | scripts/admin/seed-frontend-curated-markets.ts:429-432 | the output goes by category, within a category by key |
| CuratedMerge.MergeUnique | scripts/admin/seed-frontend-curated-markets.ts:429-432 | the result is determined by the kept markets, not by the Map's order |
| CuratedMerge.MergeInParts | scripts/admin/seed-frontend-curated-markets.ts:421-433 | merge(merge(a) + b), merge(a + merge(b)) and merge(a + b) are the same list |
| HtmlEscape.SequentialIsSimultaneousIff | scripts/reports/report-db-schema-visualizer.ts:88-94 | for any passes with distinct targets and longer replacements, running them in turn is one table look-up per character iff no pass rewrites what an earlier one wrote |
| HtmlEscape.EscapeIsPerCharacter | scripts/reports/report-db-schema-visualizer.ts:88-94 | the five replacements are one table look-up per character |
| HtmlEscape.EscapeMeans | scripts/reports/report-db-schema-visualizer.ts:88-94 | what is written for each of the five characters, and that any other is written as it is |
| HtmlEscape.AmpersandFirst | scripts/reports/report-db-schema-visualizer.ts:88-94 | in another order they are iff the ampersand goes first |
| HtmlEscape.UnescapeRecovers | scripts/reports/report-db-schema-visualizer.ts:88-94 | reading the character references back recovers every text |
| HtmlEscape.EscapedIsSafe | scripts/reports/report-db-schema-visualizer.ts:88-94 | the output has no markup character, and every ampersand starts one of the five references |
| SensitiveScan.FindSensitiveValues | scripts/admin/admin-api-smoke.ts:191-208 | the recursive loop returns the scan's findings, below the given path, in order |
| SensitiveScan.PopulatedMeans | scripts/admin/admin-api-smoke.ts:201 | null, empty and redacted values do not count, objects do, a list does unless it is empty or its only entry does not |
| SensitiveScan.ScanFindsOutermost | scripts/admin/admin-api-smoke.ts:191-208 | a path is found iff it leads to a populated, unredacted sensitive key that is not inside another |
| SensitiveScan.CleanIffNothingExposed | scripts/admin/admin-api-smoke.ts:191-208 | no findings iff no populated, unredacted sensitive key occurs anywhere |
| SensitiveScan.FindingsDistinct | scripts/admin/admin-api-smoke.ts:191-208 | no key is reported twice |
| SensitiveScan.NoFindingInsideAnother | scripts/admin/admin-api-smoke.ts:191-208 | no finding is a proper prefix of another |

## Left out

- SQL text and three-valued logic: a statement is its effect on sets and maps of rows; a NULL in a grouping column is an option value equal to itself.
- Row ids are naturals and times are integer milliseconds; an index on the renamed tables and other statement errors of the rewrite are not part of this model.
- RetentionJob.Aggregate: averages, best bid and ask, ask depth and `updated_at` of the hourly row are not computed; count, extremes, one maximum, one filtered count and the latest midpoint stand for them.
- OrderbookRetention.HistoryConserved: for single statements in any order the condition of a delete is that its buckets are complete; `RunsConservedForward` gives it in rows, cutoffs and limits for whole runs.
- OrderbookConservation.RunsConservedForward: leaves out series in which a run with two clock readings has an earlier compaction cutoff than a run before it; `RunsConservedIff` covers them.
- RetentionJob.RunRetention: other writers during one run are left to the state machine in `OrderbookRetention`, whose histories interleave inserts with the statements in any order.
- FundingCancellation.Run: changes by others are placed between load and commit; writers interleaved with the statements of the transaction are not part of this model.
- CanonicalRewrite.Database.RewriteMarkets: the rewrite spec is a parameter; its own file is not part of this model, nor are `updated_at` and the returned report rows.
- AtomicUnits.EncodeBalanceOf: surrounding blanks of the wallet address are taken as removed.
- LatencyBaseline.SummarizeBy: the result is a map, so the order of its keys is not stated; the source sorts them, and a JavaScript object then lists integer-like keys first.
- Percentiles are computed over exact rationals and reals; binary floating point is not part of this model.
- `localeCompare` is any total order on text, and the default `sort()` compares code points, not UTF-16 units.
- OpinionCuration.BuildEntry: which candidates are looked at and how they are judged (`shouldConsiderLooseCandidate`, `evaluateOpinionCandidate`) is an arbitrary function; texts of reasons and sources are left out.
- SensitiveScan.FindSensitiveValues: finding paths are sequences, because the rendered strings can collide; the key patterns are an arbitrary predicate.
- HtmlEscape.EscapeHtml: takes a text; `String(value ?? "")` is applied before.
- The gates' artifact loading, Markdown output, the database-backed rows of the venue summary, `validateSummary`, `inferVenues` and `normalizeVenueList`: input plumbing around the validators.
- A max age or day count that fails to parse as a number in the gates is excluded; in the retention options it is modelled.
- Services, HTTP routes, clients, relays and start-up wiring: they would only add easy members.
