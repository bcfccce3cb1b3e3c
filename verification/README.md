# A verified model of the learned-index store

The repository is an embedded SQL store. Rows live in a *gapped array*, a sorted array with holes
whose lookups start at the slot a piecewise linear model predicts; writes go through a
write-ahead log with checkpoints; tables and secondary indexes are packed into one key space; and
a classic B+-tree and two cache policies stand beside it for comparison. This project models those
parts in Dafny and proves what they are for. Code that changes state is modelled by classes and
loops proved against specification functions; what the specification functions promise is then
proved for all inputs, all runs and all crash points.

`dafny verify dfyconfig.toml` checks everything.

| part | files |
|---|---|
| segmentation | `Geometry`, `FitLines`, `HullSide`, `OptimalSegmenter`, `Segments`, `PinnedModel`, `OptimalModel`, `SegmentSearch` |
| gapped array | `Slots`, `SlotSearch`, `EvenLayout`, `Drift`, `Coverage`, `SlotShift`, `Regions`, `Relays`, `Refreshes`, `GappedArray`, `ArrayRuns` |
| durability | `Bytes`, `Crc32`, `WriteAheadLog`, `Snapshot`, `ApplyLog`, `StoreMachine`, `StoreRuns`, `StoreLosses`, `DurableStore` |
| tables and SQL statements | `TableKey`, `RowFormat`, `TableView`, `Catalog`, `Database`, `Selection`, `UpdateRows`, `Executor` |
| B+-tree | `BPlusTree` |
| cache policies | `CacheRuns`, `Belady`, `LruCache` |

## How it is modelled

- Keys and positions are unbounded integers; byte formats use `int64` and `uint32` explicitly.
  Doubles are exact reals, and the segmenter's 128-bit cross products are exact integers.
- A key is any integer below `EMPTY_SLOT` (`INT64_MAX`), the value the array uses for a hole.
- A gapped array's abstract state is the map from keys to values; every operation is specified by
  what it does to that map. Each segment carries, for the proof only, the set of keys it was fit on;
  the invariant bounds how far those have drifted, and how many other keys the segment owns.
- What a layout, a refresh and an insert make of slots, segments and counts is settled by what they
  were before, so two short runs can be followed call by call (`ArrayRuns`).
- The durability protocol is a state machine. Its steps are the bytes of an append reaching the
  system, the fsync, the update in memory, the rename of a snapshot, the truncation of the log, and
  recovery; a process crash or a power loss is possible between any two. A power loss keeps any
  prefix of a file that holds at least what was fsync'd, and may undo a rename or a truncation that
  was not fsync'd. `Durable.DurableStore` is the code as a class: each method records the steps it
  takes, and `TrailsContinueRuns` shows that those are steps of the machine.
- The CRC is an arbitrary function in every theorem about the log and the snapshot. `Crc32` proves
  what the real one computes.
- The executor works on a gapped array of encoded rows. The index invariant speaks about the map the
  array is, read table by table.
- The B+-tree is a heap of nodes. Each node carries, for the proof only, its height and the interval
  of keys it is responsible for.

## What the proofs turned up

- **Checkpoints and power loss.** The comment on batched fsync (cpp/write_ahead_log.h:39-43) says the
  log is synced before a checkpoint empties it; the code does not do so. A power loss during a
  checkpoint leaves a state of the history in every run without process crashes exactly when
  `sync_every` is 1 or 2 (`StoreLosses.PowerSafeExactly`); from 3 on it can leave a state the store
  was never in.
- **Restarts and power loss.** Opening a log does not fsync it, and the new process counts unsynced
  records from 0. With `sync_every` of 2 or more, process crashes followed by one power loss can
  therefore lose any number of acknowledged writes, not only `sync_every - 1`
  (`StoreLosses.RestartsCanLoseMore`). With `sync_every` of 1 and both kinds of crash, what
  counts is how many appends process crashes have cut off right before their fsync, with nothing
  fsync'd since: if that number never exceeds `c`, every power loss leaves a state of the history
  with all acknowledged writes exactly when `c` is at most 1 (`StoreLosses.CutsSafeExactly`). After
  two, a power loss during a checkpoint can leave a state the store was never in
  (`StoreLosses.TwoCutsRun`).
- **UPDATE of the primary key.** Matches are collected before any row changes. An index is right
  after an UPDATE that moves several rows to one key exactly when no later match holds that key,
  or the column is assigned too, or the value of the match before it comes again
  (`UpdateRows.IndexRightExactly`).
- **Prediction clamp.** A prediction is clamped to the next segment's stored anchor position, and a
  remove may take that anchor out of the array. In runs without removes all but fewer than eps keys of
  every segment are predicted less than 2 * eps slots off (`ArrayRuns.BuildAndInsert`). In any run, a
  key its segment was fit on is exactly when the next segment's stored position, rounded, is not
  further left (`GappedArray.GappedArray.PredictionCloseExactly`). Laying out seven keys with eps 1,
  removing four and inserting one leaves a fitted key predicted four slots off (`ArrayRuns.ClampMisses`).
- **Refresh countdown.** A widened refresh can merge earlier segments, after which the countdown's
  next index is past the end of the count list. Whether it will be can be told before the refresh, from
  the narrowest window with room and the number of segments its keys are split into
  (`Refreshes.NextIndexInRange`). Laying out eight keys with eps 1, removing two, and inserting two does
  it (`ArrayRuns.CountdownOutruns`).
- **Inverted search window.** For an absent key the window of the segmented search can end before it
  begins; exactly when is `SegmentSearch.WindowOkExactly`.
- **4 GiB values.** Log records, snapshot rows and row texts survive their round trips exactly when
  values are shorter than 4 GiB, the width of the length field.
- **Belady's capacity 0.** The eviction loop finds no victim in an empty cache and inserts anyway, so
  capacity 0 behaves like capacity 1 in both cache policies.

## Model

| member | source | states |
|---|---|---|
| `OptimalSegmenter.Segmenter.constructor` | cpp/segmented_model.h:212 | A new segmenter has no points. |
| `OptimalSegmenter.Segmenter.Add` | cpp/segmented_model.h:217-277 | A point further right is accepted exactly when some real line passes within eps of it and of every point so far, although only the pruned hulls are scanned; a refusal changes nothing. |
| `OptimalSegmenter.Segmenter.LineFrom` | cpp/segmented_model.h:281-304 | The line halfway between the two extreme ones passes within eps of every point added. |
| `OptimalSegmenter.Segmenter.Reset` | cpp/segmented_model.h:306 | Back to no points. |
| `OptimalSegmenter.ScanLower` | cpp/segmented_model.h:244-248 | The scan that stops at the first worse endpoint finds the least slope to the new upper endpoint over the whole remaining hull. |
| `OptimalSegmenter.ScanUpper` | cpp/segmented_model.h:261-265 | Its mirror image, with the endpoint directly above the new one treated as a vertical drop. |
| `OptimalSegmenter.CutTests` | cpp/segmented_model.h:237-260 | The four integer slope comparisons say on which side of the extreme lines the new endpoints are. |
| `FitLines.NextPointFits` | cpp/segmented_model.h:237-238 | A further point can be fitted exactly when its interval reaches between the shallowest and the steepest line. |
| `FitLines.Pivot` | cpp/segmented_model.h:243-250 | The steep line through the new upper endpoint and the best lower endpoint fits everything and is extreme. |
| `HullSide.TrimKeepsCover` | cpp/segmented_model.h:252-255 | Popping hull points that do not turn and appending the new one loses no earlier constraint. |
| `HullSide.RetargetKeepsSide` | cpp/segmented_model.h:251 | Hull points before the new contact point can never matter again. |
| `OptimalModel.GreedyStaysAhead` | cpp/segmented_model.h:328-335 | The k-th run of a greedy split starts no earlier than the k-th run of any split into runs that can be fitted. |
| `OptimalModel.GreedyIsFewest` | cpp/segmented_model.h:328-335 | So no eps-bounded split into consecutive runs has fewer runs. |
| `OptimalModel.BuildOptimalSegmentedModel` | cpp/segmented_model.h:319-338 | For eps >= 1 the model keeps every point within eps and has the fewest segments possible; below 1 it is the pinned model. |
| `OptimalModel.CompareBuilders` | cpp/segmented_model.h:319-338 | It never has more segments than the pinned builder's model, whatever that builder's cap. |
| `PinnedModel.FitSegment` | cpp/segmented_model.h:61-94 | One segment hits its anchor exactly, keeps its run within eps and under the cap, and ends only where no slope through the anchor, or the cap, allows the next key. |
| `PinnedModel.BuildSegmentedModel` | cpp/segmented_model.h:52-98 | The segments split the keys into consecutive such runs, all of them; when positions never fall, no line does. |
| `PinnedModel.StartsAreDetermined` | cpp/segmented_model.h:61-94 | Where the runs start can be read off the points, eps and the cap: each takes keys until the first that no slope reaches. |
| `PinnedModel.PinnedServes` | cpp/segmented_model.h:52-98 | With eps >= 0 such a model is one of the bounded splits. |
| `Segments.FindSegmentIndex` | cpp/segmented_model.h:117-126 | The branchless search finds the last start at or below the key, or the first segment. |
| `Segments.RouteFindsRun` | cpp/segmented_model.h:117-126 | A key the model was fit on is routed to the segment of its own run, whose line passes within eps of it. |
| `SegmentSearch.StoredKeyInWindow` | cpp/segmented_model.h:134-139 | For a stored key the window is a range of the array and holds the key's index. |
| `SegmentSearch.SegmentedSearch` | cpp/segmented_model.h:128-149 | Every stored key is found at its own index, and whatever is found is the key. |
| `SegmentSearch.WindowOkExactly` | cpp/segmented_model.h:138-142 | The window is a range of the array exactly when the prediction is within eps of its bounds. |
| `SegmentSearch.AbsentKeyCanInvertWindow` | cpp/segmented_model.h:138-143 | The pinned model of three keys, and an absent key for which the window is inverted. |
| `Slots.EntriesSorted` | cpp/gapped_array.h:289-304 | The entries in the slots of a sorted array are strictly increasing. |
| `Slots.InsertIsUpdate` | cpp/gapped_array.h:197-204 | A new entry between its neighbours is a map update. |
| `Slots.DeleteIsRemoval` | cpp/gapped_array.h:127-143 | Dropping a key's entry is a map deletion. |
| `Slots.RangeIsRestriction` | cpp/gapped_array.h:180-195 | The entries in a key range are the map restricted to it. |
| `SlotSearch.ReachedFlipsOnce` | cpp/gapped_array.h:456-461 | `reaches` is false before one slot and true from it on, whatever the gaps. |
| `SlotSearch.Reaches` | cpp/gapped_array.h:462-471 | Skipping gaps decides whether every real key from the slot on is at least the target. |
| `SlotSearch.Gallop` | cpp/gapped_array.h:479-518 | From any slot it finds the first real key at or above the target, with at most 2 * log2(d + 1) + 2 calls to `reaches`, d being the distance to the flip. |
| `SlotSearch.Locate` | cpp/gapped_array.h:425-454 | From any predicted slot, inside the array or not, it finds the first real key at or above the target. |
| `SlotSearch.FindNearestGap` | cpp/gapped_array.h:520-529 | The gap nearest to the insertion point, the right one first, with no gap in between; none only if there is none within reach. |
| `EvenLayout.PlacesSpread` | cpp/gapped_array.h:546-557 | Neighbouring keys are the floor or the ceiling of slots per key apart, inside the stretch, and never on one slot. |
| `EvenLayout.PlaceEnds` | cpp/gapped_array.h:730-743 | The first key takes the first slot, and the place after the last key is the end. |
| `EvenLayout.PlaceEvenly` | cpp/gapped_array.h:541-557 | The placing loop, nudge and end clamp included, puts every key with its value at its computed place: neither correction ever fires. |
| `Drift.ShiftKeepsDrift` | cpp/gapped_array.h:254-270 | A shift counted against the segments it touched keeps every fitted key within eps plus its segment's count of the line. |
| `Drift.FreshFit` | cpp/gapped_array.h:559-562 | A fresh pinned fit starts with no drift, sorted starts and every key routed to its own run. |
| `Drift.SpliceKeepsDrift` | cpp/gapped_array.h:745-750 | Replacing the segments of a relaid region keeps routing and the drift bound everywhere. |
| `Drift.WithinTwiceEps` | cpp/gapped_array.h:563-570 | With every count below the threshold a fitted key is less than 2 * eps slots from its line. |
| `Drift.ClampedExactly` | cpp/gapped_array.h:376-385 | When a line is within d slots of a key's slot, the clamped, rounded prediction is too exactly when the next segment's stored anchor position, rounded, is not further left. |
| `Drift.ClampedWithinTwiceEps` | cpp/gapped_array.h:563-570 | So with every count below the threshold a fitted key is predicted less than 2 * eps slots off while the next segment's anchor is a key that segment was fit on. |
| `Coverage.InsertKeepsCover` | cpp/gapped_array.h:254-269 | No segment ever owns more keys it was not fit on than its count: an insert counts its key against the owner. |
| `Coverage.SpliceKeepsCover` | cpp/gapped_array.h:745-750 | Replacing the segments of a relaid region keeps that everywhere, and every relaid key is one its segment was fit on. |
| `Coverage.FewFarKeys` | cpp/gapped_array.h:563-570 | With every count below the threshold, fewer keys of a segment than that are 2 * eps slots or more from its line. |
| `Coverage.FewFarPredictions` | cpp/gapped_array.h:563-570 | The same for clamped predictions while every segment's anchor is in the array and a key it was fit on. |
| `SlotShift.ShiftEntries` | cpp/gapped_array.h:245-251 | Shifting toward a gap on either side and writing the slot inserts one entry at the insertion point and moves every value with its key. |
| `SlotShift.ShiftSorted` | cpp/gapped_array.h:213-251 | Inserting at the lower bound keeps the slots sorted. |
| `SlotShift.ShiftIsCounted` | cpp/gapped_array.h:254-269 | Every key the shift moved belongs to one of the segments the insert is counted against. |
| `Regions.RegionHoldsItsKeys` | cpp/gapped_array.h:678-691 | The slots of a region hold exactly the keys its segments own. |
| `Regions.WindowContains` | cpp/gapped_array.h:662-672 | Every aligned window contains its segment, and a wide enough one is the whole array, so widening ends. |
| `Regions.SegmentCapWithinLimit` | cpp/gapped_array.h:753-760 | The equalised cap is at least 1 and at most the limit on keys per segment. |
| `Regions.Extract` | cpp/gapped_array.h:717-727 | Reads exactly the entries of a stretch, in order, and leaves gaps. |
| `Relays.Spread` | cpp/gapped_array.h:536-559 | A full layout: as many slots as the density asks for, each key at its even place and no other, and the pinned model of exactly these points, which fits every key. |
| `Relays.RelayRegion` | cpp/gapped_array.h:716-746 | The same for a region's own keys over its slots; the slots outside, and all entries, stay. |
| `Refreshes.NextIndexInRange` | cpp/gapped_array.h:610-617 | After a refresh the countdown's next index is on the list exactly when, before it, the last region is filled, or the narrowest window with room starts at most as many segments before the refreshed one as its keys are split into plus those after it. |
| `Refreshes.WantedHasRoom` | cpp/gapped_array.h:644 | The slots a grown last region gets leave a free one and are no denser than the target. |
| `Refreshes.InsertsAtOnce` | cpp/gapped_array.h:221-268 | Where an insert of an absent key goes, which gap it takes and which segments it is counted against are each settled by the slots and segments. |
| `Refreshes.NarrowestDecides` | cpp/gapped_array.h:660-673 | The narrowest window under its limit, if there is one, is what a refresh re-lays; it never rebuilds everything then. |
| `GappedArray.GappedArray.Build` | cpp/gapped_array.h:82-104 | A valid array holding exactly the given entries, each key at its even place, with the pinned model of exactly these points; every key is one its segment was fit on, every anchor among them. |
| `GappedArray.GappedArray.Layout` | cpp/gapped_array.h:536-571 | The same for the array's own fields; every count starts at 0. |
| `GappedArray.GappedArray.LowerBoundIndex` | cpp/gapped_array.h:164-167 | The first real key at or above the target. |
| `GappedArray.GappedArray.LowerBoundFrom` | cpp/gapped_array.h:169-178 | The search may start at any slot: the first real key not below the target. |
| `GappedArray.GappedArray.Search` | cpp/gapped_array.h:111-116 | Found exactly when the key is in the map, at its slot. |
| `GappedArray.GappedArray.Get` | cpp/gapped_array.h:118-125 | Map lookup. |
| `GappedArray.GappedArray.RangeScan` | cpp/gapped_array.h:189-195 | The map restricted to the range, in key order. |
| `GappedArray.GappedArray.Size` | cpp/gapped_array.h:273 | The number of keys in the map. |
| `GappedArray.GappedArray.Insert` | cpp/gapped_array.h:204-271 | Map update; sorted slots, parallel arrays, strictly increasing starts, the drift bound, the count of other keys and every count below its threshold are kept, and so are the anchors. When a gap is within reach, the new slots, segments and counts are the old ones with the key shifted in, the shift counted and the due segments refreshed. |
| `GappedArray.GappedArray.Remove` | cpp/gapped_array.h:127-143 | Map deletion that empties the key's slot, changes no other and touches no model; says whether the key was there. |
| `GappedArray.GappedArray.ShiftToGap` | cpp/gapped_array.h:245-251 | The two shifting loops, as one function of the old slots. |
| `GappedArray.GappedArray.TouchedSegments` | cpp/gapped_array.h:261-268 | The first and last segment the shift changed, read off the slot the gap was in. |
| `GappedArray.GappedArray.Rebalance` | cpp/gapped_array.h:587-593 | The full rebuild is a layout of the stored keys: it keeps the entries and fits every key. |
| `GappedArray.GappedArray.RebalanceWith` | cpp/gapped_array.h:595-605 | The full rebuild with a new key is a map update. |
| `GappedArray.GappedArray.Region` | cpp/gapped_array.h:686-691 | The slots of a range of segments. |
| `GappedArray.GappedArray.Relay` | cpp/gapped_array.h:714-751 | Re-laying a region puts its keys at their even places, touches no other slot, replaces exactly its segments by the fit of those points and zeroes exactly their counts; every relaid key is one its new segment was fit on, and all entries stay. |
| `GappedArray.GappedArray.IsTooDense` | cpp/gapped_array.h:705-712 | The density test with its limit falling from one segment to the whole array. |
| `GappedArray.GappedArray.ChooseWindow` | cpp/gapped_array.h:660-673 | The narrowest aligned window around the segment that is under its limit: every narrower one is over; gives up only when the whole array is over too. |
| `GappedArray.GappedArray.GrowAndRelay` | cpp/gapped_array.h:643-659 | The last region gets at least the slots the target density asks for, and a free one, without moving any other key. |
| `GappedArray.GappedArray.LocalRebalance` | cpp/gapped_array.h:638-676 | Only the layout changes, as one refresh step of the old slots, segments and counts: the last region grown when it is filled, else the narrowest window with room re-laid, else everything rebuilt. One window's counts become 0, it has room, all its keys are fitted, the anchors stay, and the countdown's next index is on the list exactly under the condition of NextIndexInRange. |
| `GappedArray.GappedArray.RefreshSegments` | cpp/gapped_array.h:607-617 | Afterwards every count is below its threshold, the entries and the anchors are the same, and slots, segments and counts are what refreshing the due segments one by one, highest first, makes of the old ones. |
| `GappedArray.GappedArray.LinesStayClose` | cpp/gapped_array.h:563-570 | In every state between operations all but fewer than max(1, eps) of the keys a segment owns lie less than 2 * eps slots from its line. |
| `GappedArray.GappedArray.PredictionsStayClose` | cpp/gapped_array.h:376-385 | While the anchors are held, all but fewer than eps of them are predicted less than 2 * eps slots off. |
| `GappedArray.GappedArray.PredictionCloseExactly` | cpp/gapped_array.h:376-385 | Whatever was removed, a fitted key's prediction is less than 2 * eps slots off exactly when the next segment's stored anchor position, rounded, does not lie further left. |
| `ArrayRuns.BuildAndInsert` | cpp/gapped_array.h:563-570 | A layout followed by any inserts keeps the anchors, so all but fewer than eps of every segment's keys are predicted less than 2 * eps slots off. |
| `ArrayRuns.ClampMisses` | cpp/gapped_array.h:376-385 | A layout, four removes and an insert after which a key its segment was fit on is predicted more than 2 * eps slots off. |
| `ArrayRuns.CountdownOutruns` | cpp/gapped_array.h:610-617 | A layout, two removes and an insert after which the next insert counts its shift against segments 1 and 2, and refreshing segment 2 leaves one segment, so that the countdown's index 1 is past the end of the list. |
| `Crc32.BuildTable` | cpp/write_ahead_log.h:77-85 | Every entry is eight bitwise shifts of its index. |
| `Crc32.EightAtOnce` | cpp/write_ahead_log.h:87 | Eight shifts of any register are a table entry for the low byte and the rest moved down. |
| `Crc32.Checksum` | cpp/write_ahead_log.h:76-89 | The table-driven loop equals bit-at-a-time division of the message (section 8 of RFC 1952), on every message. |
| `Crc32.ChangedByteIsSeen` | cpp/write_ahead_log.h:240-244 | Changing one byte of a message, whatever surrounds it, always changes its checksum. |
| `WriteAheadLog.RecordRoundTrip` | cpp/write_ahead_log.h:234-251 | A written record reads back as itself exactly when its value is shorter than 4 GiB. |
| `WriteAheadLog.TornRecordIsBad` | cpp/write_ahead_log.h:233-246 | No proper prefix of a record is read as a record. |
| `WriteAheadLog.ParsePrefix` | cpp/write_ahead_log.h:232-252 | Scanning any byte prefix of written records returns exactly those wholly inside it. |
| `WriteAheadLog.WholeRecordsIsLongest` | cpp/write_ahead_log.h:221-224 | Those are the longest run of records that fits. |
| `WriteAheadLog.CutThenContinue` | cpp/write_ahead_log.h:221-254 | For arbitrary bytes and any CRC: cutting after the last good record and going on with anything parses as the good records and whatever the rest parses to. |
| `WriteAheadLog.CutIsStable` | cpp/write_ahead_log.h:209-218 | Rescanning the cut file gives the same records and nothing more to cut. |
| `WriteAheadLog.AppendAfterCut` | cpp/write_ahead_log.h:267-289 | A record appended to a cut file adds exactly that record. |
| `WriteAheadLog.ScanFile` | cpp/write_ahead_log.h:225-255 | The parsing loop, refusal included, is the scan function. |
| `WriteAheadLog.RecoverKeepsRecords` | cpp/write_ahead_log.h:188-219 | Opening any log that is not refused keeps exactly the scanned records, and opening it again changes nothing. |
| `WriteAheadLog.AppendToRecovered` | cpp/write_ahead_log.h:188-219 | A recovered log that gets another record holds the old ones and the new one. |
| `WriteAheadLog.ScanPrefix` | cpp/write_ahead_log.h:188-255 | Any byte prefix of a log, down to a torn header, opens and recovers the wholly contained records. |
| `Snapshot.WriteSnapshot` | cpp/snapshot.h:33-45 | The appending loop produces the snapshot of its rows. |
| `Snapshot.ReadSnapshot` | cpp/snapshot.h:74-118 | The cursor loop is the reading function, with each of the six refusals in its order. |
| `Snapshot.ReadsExactly` | cpp/snapshot.h:74-118 | A file loads as these rows exactly when they are sorted, short enough, and the file is their snapshot, for any CRC. |
| `ApplyLog.LastWriteWins` | cpp/durable_store.h:160-166 | After replaying a log each key holds what its last record says, or what it held. |
| `ApplyLog.ReplayTwice` | cpp/durable_store.h:104-110 | Replaying a log on its own result changes nothing. |
| `ApplyLog.StableOrder` | cpp/durable_store.h:169-172 | The record numbers sorted by key, records of one key in log order. |
| `ApplyLog.ApplyLog` | cpp/durable_store.h:167-202 | The sort and merge give strictly increasing keys and exactly the table that the records applied one by one give. |
| `ApplyLog.MergeTwice` | cpp/durable_store.h:167-202 | Merging the same log into its own result gives it back row for row. |
| `StoreMachine.ReplayOverNewer` | cpp/durable_store.h:104-110 | Replaying a log, or all of it but the last record, on a snapshot that already holds it ends in a state the old snapshot and log could have ended in. |
| `StoreMachine.DiskMeansHistory` | cpp/durable_store.h:58-72 | In every reachable state the files on disk load as the whole history. |
| `StoreMachine.ProgramStepInv` | cpp/durable_store.h:86-117 | Every step of put, remove, checkpoint, sync and recovery keeps the protocol's invariant. |
| `StoreMachine.PowerLossInv` | cpp/durable_store.h:104-117 | So does a power loss when enough of every file that may come back is fsync'd, and what is left is a state of the history. |
| `StoreRuns.ProcessCrashesLoseNothing` | cpp/write_ahead_log.h:43-45 | In every run with process crashes between any two steps and any sync_every, startup loads every operation whose record is whole, all acknowledged ones among them. |
| `StoreRuns.OnlyInFlightUnacked` | cpp/durable_store.h:83-85 | And beyond those only operations in flight at a crash, at most one for each crash. |
| `StoreRuns.PowerLossesKeepPrefix` | cpp/write_ahead_log.h:39-47 | In every run with power losses outside checkpoints (anywhere, for sync_every up to 2) and no process crash, what is left is the state after a prefix that misses at most sync_every - 1 acknowledged operations. |
| `StoreRuns.SyncedWritesSurvive` | cpp/durable_store.h:83-117 | With sync_every = 1 and process crashes and power losses mixed, every power loss leaves a state of the history with all acknowledged operations, as long as no more than one append at a time has been cut off by a process crash and not fsync'd since. |
| `StoreLosses.PowerSafeExactly` | cpp/durable_store.h:104-116 | Power losses at any moment always leave a state of the history exactly when sync_every is at most 2. |
| `StoreLosses.CheckpointCanMix` | cpp/durable_store.h:111-116 | For sync_every of 3 or more, a run whose checkpoint is cut short in a state the store was never in. |
| `StoreLosses.RestartsCanLoseMore` | cpp/write_ahead_log.h:188-219 | For sync_every of 2 or more and any number, a run with process crashes after which one power loss loses more acknowledged operations than that number. |
| `StoreLosses.CutsSafeExactly` | cpp/write_ahead_log.h:188-219 | With sync_every = 1 and both kinds of crash, all runs in which at most c appends at a time are cut off and not fsync'd since are safe exactly when c is at most 1. |
| `StoreLosses.TwoCutsRun` | cpp/durable_store.h:111-116 | A run with two such appends whose checkpoint renames its snapshot over a log most of which is not fsync'd. |
| `StoreLosses.HalfSyncedCanMix` | cpp/durable_store.h:111-116 | After which a power loss can leave a table the store never held. |
| `Durable.ReadFiles` | cpp/durable_store.h:58-71 | What startup makes of any two files: which it refuses, and otherwise the recovered log and the snapshot's rows with the log applied, sorted. |
| `Durable.DurableStore.Open` | cpp/durable_store.h:58-72 | Files left by a crash, in any state that keeps the protocol's invariant, are never refused, and the store holds the state after the whole history. |
| `Durable.DurableStore.Append` | cpp/write_ahead_log.h:271-289 | The record joins the history before the index changes, fsync'd when enough have gathered. |
| `Durable.DurableStore.Put` | cpp/durable_store.h:86-90 | Map update, one more acknowledged operation in the history, by steps of the protocol. |
| `Durable.DurableStore.Remove` | cpp/durable_store.h:92-102 | Map deletion, logged only if the key is there; an absent key writes nothing. |
| `Durable.DurableStore.AfterWrite` | cpp/durable_store.h:156-158 | The automatic checkpoint changes neither the table nor the history. |
| `Durable.DurableStore.Checkpoint` | cpp/durable_store.h:104-116 | The snapshot file holds the whole table, the log only its header, and the history stays. |
| `Durable.DurableStore.Sync` | cpp/write_ahead_log.h:149-155 | Afterwards the whole log is fsync'd, if any record was counted unsynced. |
| `Durable.DurableStore.Get` | cpp/durable_store.h:121 | What a key holds is what the history last said about it. |
| `Durable.DurableStore.RangeScan` | cpp/durable_store.h:127-134 | The table restricted to the range, in key order. |
| `Durable.TrailsContinueRuns` | cpp/durable_store.h:83-117 | The steps a store takes continue any run that led to its start, so the crash theorems hold between any two of them. |
| `TableKey.PackIsBits` | cpp/table_key.h:21-23 | The shift, mask and or of a packed key are arithmetic on 64-bit words. |
| `TableKey.CompositeIsBits` | cpp/table_key.h:46-48 | So are those of a composite. |
| `TableKey.Unpacks` | cpp/table_key.h:25-29 | Unpacking undoes packing. |
| `TableKey.PackOrder` | cpp/table_key.h:1-13 | Packing is injective and orders rows by table and then by primary key. |
| `TableKey.PackedRange` | cpp/table_key.h:1-13 | The keys between two packed keys of a table are exactly that table's keys in between. |
| `TableKey.CompositeOrder` | cpp/table_key.h:31-48 | Composites are injective on what they pack and ordered by value and then by primary key. |
| `TableKey.CompositeRange` | cpp/executor.h:230-232 | The composites between a value's first and last are exactly the ones with that value. |
| `RowFormat.EncodeRow` | cpp/row_format.h:28-41 | The appending loop is the encoding. |
| `RowFormat.DecodeRow` | cpp/row_format.h:43-67 | The cursor loop is the decoding, with its three errors. |
| `RowFormat.RowRoundTrip` | cpp/row_format.h:28-67 | Decoding undoes encoding exactly for rows whose texts are all shorter than 4 GiB. |
| `TableView.ScanLists` | cpp/catalog.h:149-152 | A range scan between two packed keys lists exactly the table's rows in the range, in order. |
| `TableCatalog.Catalog.LoadExisting` | cpp/catalog.h:148-180 | From the rows any earlier catalog left, the same names, schemas and indexes and the same next id. |
| `TableCatalog.Catalog.CreateTable` | cpp/catalog.h:55-65 | A free name gets the next id and a row that records it; a taken one changes nothing. |
| `TableCatalog.Catalog.CreateIndex` | cpp/catalog.h:67-79 | The same for an index and its storage id. |
| `TableCatalog.RecordTable` | cpp/catalog.h:122-133 | The row written keeps the store a record of the catalog, so any run of creates can be reloaded. |
| `TableCatalog.RecordIndex` | cpp/catalog.h:135-146 | The same for an index's row. |
| `TableCatalog.UptoAll` | cpp/catalog.h:148-180 | Loading every recorded id below the next one gives back the whole catalog. |
| `TableCatalog.Catalog.GetTable` | cpp/catalog.h:81-85 | The schema of a name, if there is one. |
| `TableCatalog.Catalog.FindIndexForColumn` | cpp/catalog.h:87-95 | An index on exactly that column, if there is one. |
| `TableCatalog.Catalog.IndexesForTable` | cpp/catalog.h:97-105 | Every index on the table, each once. |
| `Selection.ScanSelects` | cpp/executor.h:490-507 | Filtering a scan finds exactly the table's rows in the range that match, in primary-key order. |
| `Selection.RangeIsBetween` | cpp/executor.h:484-486 | BETWEEN on the primary key, bounds of any size, means the clamped range of keys. |
| `Selection.PointIsEquality` | cpp/executor.h:476-483 | Equality on the primary key means at most the one row with that key. |
| `Selection.IndexSelects` | cpp/executor.h:228-238 | Following the entries of a right index finds exactly the rows with that value, in primary-key order. |
| `Selection.EqualityIsValue` | cpp/executor.h:536-560 | Equality on an INT column means that value. |
| `Executor.Executor.CollectMatches` | cpp/executor.h:490-507 | Exactly the matching rows in the range, for bounds of any size. |
| `Executor.Executor.FindMatches` | cpp/executor.h:472-488 | Point lookup, range scan and filtered scan each give exactly the matching rows. |
| `Executor.Executor.PointLookup` | cpp/executor.h:190-208 | The row with that key, if any; a key no table can hold finds nothing. |
| `Executor.Executor.IndexLookup` | cpp/executor.h:228-238 | Exactly the rows with the value. |
| `Executor.Executor.Select` | cpp/executor.h:163-257 | Whichever access path is taken, the rows are those of the full scan filtered by the clause, in the same order. |
| `Executor.Executor.CheckValue` | cpp/executor.h:65-92 | Accepts a value exactly when its type and the bits it is packed into fit. |
| `Executor.Executor.SyncIndexes` | cpp/executor.h:516-534 | Every index on the table loses the old version's entry and gains the new one's, and nothing else changes. |
| `Executor.PutKeeps` | cpp/executor.h:149-160 | Putting a row, new or overwriting, and syncing keeps every row and index right. |
| `Executor.RemoveKeeps` | cpp/executor.h:384-387 | Removing a row and syncing keeps them right. |
| `Executor.Executor.Insert` | cpp/executor.h:130-161 | Succeeds exactly when the statement's values fit; sets exactly that row; every index stays right; a failure changes nothing. |
| `Executor.Executor.Delete` | cpp/executor.h:371-391 | Removes exactly the matching rows and counts them; every index stays right. |
| `Executor.Executor.Update` | cpp/executor.h:319-369 | Succeeds exactly when the statement is good; the rows become what taking the matches one by one makes of them; an index stays right exactly when nothing stale is left, always when at most one row moves. |
| `UpdateRows.AssignedColumn` | cpp/executor.h:343-347 | A column holds its last assigned value, or what it held. |
| `UpdateRows.InPlace` | cpp/executor.h:340-367 | An UPDATE that leaves the primary key alone keeps every index right. |
| `UpdateRows.MatchesCollapse` | cpp/executor.h:348-364 | Rows moved to one key fold into the last of them, in place of whatever row held the key. |
| `UpdateRows.IndexRightExactly` | cpp/executor.h:340-367 | After moving rows to one key an index is right exactly when no stale entry is left, a condition on the collected matches. |
| `UpdateRows.StaleExample` | cpp/executor.h:340-367 | Two rows that leave one. |
| `Executor.Executor.CreateTable` | cpp/executor.h:108-128 | Succeeds exactly for a free name, an INT first column and distinct names; the new table is empty and no other changes. |
| `Executor.Executor.CreateIndex` | cpp/executor.h:393-457 | Succeeds exactly when every row fits; then the new index's entries are exactly the packed pairs of the rows; a refusal leaves nothing behind. |
| `BPlusTree.BPlusTree.constructor` | cpp/bplus_tree.h:16 | The empty tree is the empty map. |
| `BPlusTree.BPlusTree.Search` | cpp/bplus_tree.h:18-27 | Map lookup. |
| `BPlusTree.BPlusTree.Insert` | cpp/bplus_tree.h:29-43 | Map update; all leaves at one depth, separators bounding their subtrees, 32 to 64 keys in every node but the root, and the leaf links are kept. |
| `BPlusTree.BPlusTree.Size` | cpp/bplus_tree.h:45 | The number of keys. |
| `BPlusTree.LeafChanged` | cpp/bplus_tree.h:96-106 | Writing one key into its leaf changes the map there and disturbs nothing else in the tree. |
| `BPlusTree.BPlusTree.SplitLeafAndPropagate` | cpp/bplus_tree.h:108-151 | Splitting an overfull leaf, and every ancestor that overflows, makes the tree whole again and keeps the map. |
| `BPlusTree.LeafHalves` | cpp/bplus_tree.h:109-118 | The two halves of a leaf hold its entries, 32 and 33 of them, linked in order and separated by the key that goes up. |
| `BPlusTree.InternalHalves` | cpp/bplus_tree.h:132-140 | The halves of an internal node share its children at the key that goes up. |
| `BPlusTree.SplitDone` | cpp/bplus_tree.h:108-140 | After any split all is right but for the parent that has to take the new node in. |
| `BPlusTree.OnlyParent` | cpp/bplus_tree.h:121-128 | A node has one parent and one place in it, so the recorded path names the node to fix. |
| `BPlusTree.ParentTakes` | cpp/bplus_tree.h:124-130 | The parent with the new separator and child makes the tree whole, but perhaps one key too full. |
| `BPlusTree.RootGrows` | cpp/bplus_tree.h:145-150 | A split root under a new one is a tree one level taller. |
| `BPlusTree.LeavesAtOneDepth` | cpp/bplus_tree.h:29-37 | Every path from the root to a leaf has the same length. |
| `BPlusTree.WalkListsAll` | cpp/bplus_tree.h:115-116 | Following the links from a leaf lists, in order, every key of the map from there on. |
| `Belady.NextUseIsFirstUse` | cpp/belady.h:18-20 | The specification's next use is the first later access to the key. |
| `Belady.NextOccurrenceIndex` | cpp/belady.h:21-31 | The backward pass stores every position's true next use. |
| `Belady.DominanceStep` | cpp/belady.h:41-61 | One access keeps the farthest-use cache ahead of any other, for every horizon, with the lead adjusted by the two outcomes. |
| `Belady.FarthestRunIsBest` | cpp/belady.h:1-8 | A farthest-use run has the most hits of all demand runs on every trace, however it breaks ties. |
| `Belady.Access` | cpp/belady.h:41-61 | One access of the simulation, with the scan for the victim in any order. |
| `Belady.AccessIsFarthestStep` | cpp/belady.h:46-60 | It is a farthest-use step, and the stored next uses stay exact. |
| `Belady.BeladyHits` | cpp/belady.h:36-63 | The simulation's hit count is the most any demand policy can get, and some policy gets it. |
| `LruCache.LRUCache.Access` | cpp/lru_cache.h:19-38 | A hit refreshes, a miss on a full cache evicts an oldest key. |
| `LruCache.AccessIsDemand` | cpp/lru_cache.h:19-38 | That is a demand step. |
| `LruCache.LruHits` | cpp/lru_cache.h:19-38 | LRU never gets more hits than the best demand policy. |

## Left out

- Durable.DurableStore.Put: requires a value shorter than 4 GiB; a longer one is written with a truncated length, as RecordRoundTrip shows. Its key must not be the value used for holes, which the index cannot store.
- Durable.DurableStore.Open: starts on files a run of the protocol left; what startup does with arbitrary files is ReadFiles.
- StoreRuns.PowerLossesKeepPrefix: for sync_every of 3 or more only power losses outside a checkpoint, since the others can leave a mixed state.
- StoreMachine.PowerLossInv: requires SafeToLose, a condition on the protocol's bookkeeping; SyncedWritesSurvive, PowerLossesKeepPrefix and CutsSafeExactly discharge it from what a run's crashes were.
- Drift.ClampedWithinTwiceEps: the condition on the next anchor is sufficient, for runs without removes; the exact condition is ClampedExactly.
- GappedArray.GappedArray.RefreshSegments: checks the countdown's index against the count list before reading it, which the source does not do; NextIndexInRange says exactly when the source would read past the list, and CountdownOutruns is a run that does.
- SegmentSearch.SegmentedSearch: requires the window to be a range of the array, which the source takes for granted and StoredKeyInWindow proves for stored keys.
- Executor.Executor.Insert: requires texts shorter than 4 GiB, as the row format does; Update asks the same of assigned values.
- TableCatalog.Catalog.CreateTable: ids stop at 32766, so that every packed key is a positive int64 below the value used for holes; the format allows 65536 tables, where packing reaches the sign bit.
- LruCache.LRUCache.Access: the time must be below the largest size, as it is when it counts accesses; a larger one could never be chosen as oldest.
- Floating point: slopes, predictions, densities and layout positions are exact reals; rounding and the conversion limits of `llround` are not modelled, and neither is overflow of int64 sums and differences.
- Files: errors from the operating system, short writes, and a failed rename or fsync; fsync of the directory is taken to work. The log's header is there when the state machine starts; recovery of a torn header is ScanPrefix.
- A power loss keeps a prefix of a file's bytes; reordered or garbled sectors are the CRC's business, and the theorems hold for any CRC.
- The executor runs over the gapped array directly, without the log in between; its statements are not atomic across a crash, in the source either.
- `std::upper_bound`, `std::lower_bound`, `std::sort` and `std::stable_sort` are loops written for this project with the library's specification. Keys and values in parallel vectors are pairs where only pairs are passed on.
- Matches of UPDATE and DELETE carry primary keys where the source carries packed keys.
- ORDER BY, LIMIT, COUNT and SUM, EXPLAIN texts and error wording: the rows before them are modelled, in order.
- The SQL tokenizer and parser: statements are given as values.
- Iteration order of hash maps: any order, as an arbitrary choice.
- Vector capacities, memory accounting, statistics counters, `search_explain`, key-only gapped arrays and timing.
- The hit rate's division by the trace length; the counts are compared instead.
- Bloom filters, the single linear model, the Hawkeye-style cache, the B+-tree library used as a baseline, data generators and benchmarks: statistical or thin.
