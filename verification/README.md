# Incidence map video pipeline — a Dafny model

This project models the core of the map-video service of an RKI COVID-19 API
(TypeScript). The service turns case histories into a video of coloured maps,
with one frame per day:

- **Classify.** `ColorsPerDay` turns the case histories of all districts or
  all states into a *colour snapshot*. For every day, the snapshot holds:
  - the colour of each region's 7-day incidence;
  - the colours of the day's minimum, average and maximum incidence.
- **Store.** The snapshot is stored under the reference date. The region's
  *ready* flag in the status ledger is cleared when a new snapshot is
  written.
- **Validate.** The `:days` and `:duration` route parameters are checked. The
  frame rate and the first frame number are derived from them.
- **Diff.** The new snapshot is compared with the previous snapshot file. A
  day needs a new frame when it is new, or when one of its region colours
  changed.
- **Render.** Only those days are rendered. Each frame is numbered by its
  distance in days from the first day. Its legend groups the min/avg/max
  lines by colour band. The region is then marked ready.
- **Retain.** The per-region video list keeps only the five newest videos of
  the current reference date. The snapshot files of a region are cut back to
  the newest two.

The model also covers three smaller parts:

- the state id ↔ abbreviation tables;
- the `getStateById` lookup with its delta defaulting;
- the loops that group flat upstream history rows into one history per
  state.

Modules, one per file:

| module | file | models |
|---|---|---|
| `Wrappers` | wrappers.dfy | `Option`, `Result` |
| `Text` | text.dfy | `includes`, string `>`, `toString`, `padStart` |
| `Sorting` | sorting.dfy | sorting a set of distinct keys by a strict total order |
| `StateCodes` | state_codes.dfy | the two `switch` tables of src/utils.ts |
| `States` | states.dfy | `getStateById`, deltas, history grouping (src/responses/states.ts) |
| `Snapshot` | snapshot.dfy | `ColorsPerDay` and its reference semantics |
| `SnapshotOrder` | snapshot_order.dfy | `ColorsPerDay` does not depend on the key order of `Object.keys` |
| `DiffEngine` | diff_engine.dfy | chronological keys, `isDiffernd`, the diff loop |
| `Frames` | frames.dfy | frame numbers, the frame store, the `mAM` / `mAMG` legend |
| `Request` | request.dfy | the `:days` / `:duration` checks, frame rate, first frame |
| `Retention` | retention.dfy | video names, the video ledger, snapshot-file retention |
| `Pipeline` | pipeline.dfy | one request end to end, the ready flag, the diff base |

Modelling choices:

- **Dates.** Dates are integer day numbers. The source uses ISO strings and
  `getTime()`. On midnight-UTC dates, ordering by date, ordering by name and
  day differences agree. This rests on one assumption: reference dates are
  fixed-width `YYYY-MM-DD` strings, so their string order is their day order.
  `Retention.SnapshotNameOrder` proves the file-name half of this: snapshot
  file names sort like their reference-date strings whenever the dates have
  equal length.
- **Incidence and colours.** The incidence `sum / population * 100000` is a
  function parameter `(sum, population) -> real`. `getColorForValue` is a
  parameter `real -> Color`. The average uses exact `real` arithmetic.
- **Snapshot files.** A region's stored snapshots are a map from reference
  date to snapshot.
- **Cache hit.** Whether the requested video file already exists is a
  boolean parameter.
- **Route parameters.** A parameter is an integer or `NaN`.
- **`Math.floor`.** `Math.floor(n / d)` is modelled with its JavaScript
  values for `d == 0`: `Infinity`, `-Infinity` or `NaN`. Comparisons with
  `NaN` are false.

Behaviour of mapvideo.ts worth noting:

- **Snapshot clean-up.** The clean-up of snapshot files runs only at the end
  of a successful video request (mapvideo.ts:631-641), not right after a new
  snapshot is written.
- **Cache check.** The lookup of an existing video comes after
  validation (mapvideo.ts:335).
- **Frame rate.** The frame rate is not always in [5, 25]: see Findings.
- **Ready flag.** The ready flag does not always mean every day has its
  current frame: see Findings.

## Model

| member | source | states |
|---|---|---|
| StateCodes.AbbreviationById | src/utils.ts:1-38 | defined exactly for ids 1 to 16, giving the id-th abbreviation of the table |
| StateCodes.IdByAbbreviation | src/utils.ts:40-77 | any id it returns is in 1..16 and its table entry is the given abbreviation |
| StateCodes.IdDefinedExactlyForCodes | src/utils.ts:40-77 | an id is returned exactly for the 16 abbreviations and for nothing else |
| StateCodes.CodesDistinct | src/utils.ts:1-38 | the 16 abbreviations are pairwise different |
| StateCodes.IdOfCode | src/utils.ts:40-77 | the abbreviation at table index i maps to id i + 1 |
| StateCodes.IdRoundTrip | src/utils.ts:1-77 | id → abbreviation → id is the identity on 1..16 |
| StateCodes.AbbreviationRoundTrip | src/utils.ts:1-77 | abbreviation → id → abbreviation is the identity on the 16 codes |
| StateCodes.AbbreviationInjective | src/utils.ts:1-38 | two ids with the same abbreviation are equal |
| States.FindById | src/responses/states.ts:24-29 | `None` exactly when no element has the id; otherwise the first element that has it |
| States.DeltaOrZero | src/responses/states.ts:37-38 | the count of the first row with the id, and 0 when no row has it |
| States.StatesResponse | src/responses/states.ts:31-41 | one entry per state, in order, with the state unchanged; each delta is the count of the first row with the state's id, or 0 when there is none |
| States.GroupHistories | src/responses/states.ts:73-86 | every record's key has a group, and every group has at least one history entry |
| States.GroupHistoriesCorrect | src/responses/states.ts:73-86 | the groups are exactly the keys of the records; each group's history is its records' entries in input order; id and name come from the group's first record |
| States.RecordInItsGroup | src/responses/states.ts:73-86 | every record's entry appears in the history of its own key's group |
| States.GroupSizesAddUp | src/responses/states.ts:73-86 | the group histories together hold exactly as many entries as there are records |
| Snapshot.SumDownIsWindow | src/responses/mapvideo.ts:142-144 | the count-down loop adds exactly the entries of the index window it walks |
| Snapshot.WeekSumIsWindow | src/responses/mapvideo.ts:139-145 | the sum for index i covers exactly the seven entries i-6..i |
| Snapshot.SlotIdDefined | src/responses/mapvideo.ts:131-134 | a district key is used as it is; a state key resolves exactly when it is one of the 16 abbreviations |
| Snapshot.ResolveSlots | src/responses/mapvideo.ts:129-138 | succeeds exactly when every key resolves, and then keeps every region in order under its resolved key |
| Snapshot.ColorsPerDay | src/responses/mapvideo.ts:106-199 | fails exactly when some state key is not a known abbreviation |
| Snapshot.UpdateSummarizes | src/responses/mapvideo.ts:168-185 | updating a day's record with one more value keeps it the count, sum, mean, least and greatest of the day's values |
| Snapshot.FoldDays | src/responses/mapvideo.ts:150-187 | after the loops, both objects have the same days, exactly those some value was contributed for |
| Snapshot.FoldAggregates | src/responses/mapvideo.ts:157-187 | every day's record summarises the values contributed on that day |
| Snapshot.FoldColors | src/responses/mapvideo.ts:150-156 | a region entry exists on a day exactly when that region wrote the day, and it has the colour of the value written last |
| Snapshot.DayValuesNonEmpty | src/responses/mapvideo.ts:139-157 | a day has values exactly when some region's history reaches it at index 6 or later |
| Snapshot.SnapshotDays | src/responses/mapvideo.ts:150-192 | the snapshot's days are exactly the classified days, and each has min, avg and max entries |
| Snapshot.SnapshotAggregates | src/responses/mapvideo.ts:157-192 | a day's min and max entries are the colours of a least and a greatest incidence of the day, and avg is the colour of their mean |
| Snapshot.SnapshotRegionEntries | src/responses/mapvideo.ts:150-156 | a region entry is present exactly when a region with that key classified the day, with the colour of its last value |
| SnapshotOrder.RealSumPermutation | src/responses/mapvideo.ts:172-174 | the running sum does not depend on the order of the values |
| SnapshotOrder.SummarizesUnique | src/responses/mapvideo.ts:157-187 | two records summarising the same multiset of values are equal |
| SnapshotOrder.DayValuesPermutation | src/responses/mapvideo.ts:129-157 | reordering the regions permutes each day's values |
| SnapshotOrder.LastWriteByRegion | src/responses/mapvideo.ts:150-156 | with distinct keys, the last write for a key is that of the one region with that key |
| SnapshotOrder.LastWritePermutation | src/responses/mapvideo.ts:150-156 | with distinct keys, the last write for a key does not depend on the region order |
| SnapshotOrder.FoldPermutation | src/responses/mapvideo.ts:129-187 | the loops give the same two objects for any order of distinct-key regions |
| SnapshotOrder.SlotIdInjective | src/responses/mapvideo.ts:131-134 | two keys that resolve to the same id are equal |
| SnapshotOrder.ResolvePermutation | src/responses/mapvideo.ts:129-138 | resolving a permutation of the regions gives a permutation of the result |
| SnapshotOrder.ResolveDistinct | src/responses/mapvideo.ts:129-138 | resolution keeps keys distinct |
| SnapshotOrder.ColorsPerDayOrderIndependent | src/responses/mapvideo.ts:129-192 | the snapshot is the same for every iteration order of the `Object.keys` of a region object |
| DiffEngine.Chronological | src/responses/mapvideo.ts:276-278 | every date exactly once, in strictly increasing order |
| DiffEngine.ChronologicalUnique | src/responses/mapvideo.ts:276-278 | any increasing listing of the dates is the sorted key list |
| DiffEngine.SortedDates | src/responses/mapvideo.ts:276-278 | the snapshot's days, each once, earliest first |
| DiffEngine.Diff | src/responses/mapvideo.ts:402-421 | the loop with its early `break` collects exactly the stale days in key order |
| DiffEngine.StaleDatesMembers | src/responses/mapvideo.ts:393-421 | a day is in the diff exactly when it is a key and either is missing from the old snapshot or has a key whose colour is missing or different there |
| DiffEngine.StaleDatesSorted | src/responses/mapvideo.ts:402-421 | the diff of chronological keys is chronological |
| DiffEngine.DiffNewAndUnchanged | src/responses/mapvideo.ts:404-419 | a new day is always in the diff; a day whose colours all match the old snapshot never is |
| DiffEngine.DiffAgainstNothing | src/responses/mapvideo.ts:380-406 | with no previous snapshot every day is in the diff |
| DiffEngine.DiffAgainstItself | src/responses/mapvideo.ts:393-421 | a snapshot has an empty diff against itself |
| DiffEngine.DiffIgnoresDroppedKeys | src/responses/mapvideo.ts:409-419 | keys that only the old snapshot has never affect the diff |
| Frames.FrameNumber | src/responses/mapvideo.ts:431-438 | frame 1 is exactly the first day, and the number is positive exactly for days on or after it |
| Frames.KeysSpread | src/responses/mapvideo.ts:431-438 | on chronological keys the i-th key lies at least i days after the first |
| Frames.FrameNumbersOfKeys | src/responses/mapvideo.ts:431-438 | the first day is frame 1, key i has frame number at least i + 1, and later days have strictly larger numbers |
| Frames.ContiguousFrameNumbers | src/responses/mapvideo.ts:431-438 | when the keys are consecutive days, key i is frame i + 1 |
| Frames.RenderFrames | src/responses/mapvideo.ts:429-442 | every rendered day's frame is that day's colours; all other frames stay as they were |
| Frames.IncrementalRender | src/responses/mapvideo.ts:402-442 | if the frames showed the old snapshot, rendering only the diff makes them show the new one |
| Frames.FullRender | src/responses/mapvideo.ts:429-442 | rendering every key makes the frames show the snapshot, whatever was stored before |
| Frames.MinAvgMax | src/responses/mapvideo.ts:462-476 | three differently named lines min, avg, max, in that order, with the day's min, avg and max colours |
| Frames.LegendGroups | src/responses/mapvideo.ts:490-516 | every line's colour has a group, and no group is empty |
| Frames.FindIndex | src/responses/mapvideo.ts:479-489 | -1 exactly when the colour is not a range colour; otherwise the first index with that colour |
| Frames.LegendGroupsCorrect | src/responses/mapvideo.ts:490-516 | one group per colour used, holding exactly the lines of that colour, in line order |
| Frames.LineInOneGroup | src/responses/mapvideo.ts:490-516 | each legend line is in exactly one group, the group of its colour |
| Frames.LegendOfDay | src/responses/mapvideo.ts:463-516 | a day's groups are keyed by its min, avg and max colours, and each of the three lines appears once, in its own colour's group |
| Request.FloorDiv | src/responses/mapvideo.ts:305-306 | `Math.floor(n / d)`: the floor quotient for d ≠ 0; Infinity, -Infinity or NaN for d = 0 by the sign of n |
| Request.FrameCount | src/responses/mapvideo.ts:284-297 | an omitted `days` is the whole history; NaN fails; an integer must lie between 100 and the number of keys |
| Request.ValidateAsWritten | src/responses/mapvideo.ts:284-324 | on success the frame count is the validated days, the duration is a non-negative number, a finite frame rate is in [5, 25], and the first frame is total - days + 1 ≥ 1 |
| Request.Validate | src/responses/mapvideo.ts:284-324 | on success the frame rate is an integer in [5, 25] with rate·duration ≤ days < (rate+1)·duration |
| Request.DurationBoundsExact | src/responses/mapvideo.ts:304-315 | a duration is accepted exactly when it lies between the bounds the error message reports |
| Request.ValidateRefinesAsWritten | src/responses/mapvideo.ts:284-324 | whatever the corrected validation accepts the source accepts with the same plan; the source's acceptances with a finite rate are accepted by it; where the source fails it fails too, and both or neither report a duration error |
| Request.DurationMessageOverstatesMinimum | src/responses/mapvideo.ts:304-314 | with 100 days a 4-second video is accepted, yet a 3-second request is told the minimum is 5 |
| Request.NaNFrameRateAccepted | src/responses/mapvideo.ts:304-324 | with no keys and duration 0 the source accepts with frame rate NaN; the corrected validation rejects |
| Retention.PaddedNumber | src/responses/mapvideo.ts:327-328 | a padded number is all digits and reads back as the number |
| Retention.VideoFileName | src/responses/mapvideo.ts:326-330 | the name starts with the region's video prefix and contains the reference date |
| Retention.VideoFileNameInjective | src/responses/mapvideo.ts:327-331 | a video name determines its days and duration |
| Retention.VideoFileNameMentionsDate | src/responses/mapvideo.ts:331 | a video's name contains its reference date, so the date filter keeps current videos |
| Retention.SortNewestFirst | src/responses/mapvideo.ts:620 | the result is ordered newest first and is a permutation of the input |
| Retention.FilterByDate | src/responses/mapvideo.ts:610-616 | keeps exactly the entries whose name does (or does not) contain the date |
| Retention.FilterSplits | src/responses/mapvideo.ts:610-616 | the two filters together partition the list |
| Retention.DropOldest | src/responses/mapvideo.ts:621-624 | the pop loop keeps the first min(5, n) entries and removes exactly the rest |
| Retention.RecordVideo | src/responses/mapvideo.ts:607-624 | kept videos mention the date and are newest first, min(5, current count) of them; kept + deleted is the old list plus the new video; every deleted video is stale or no newer than any kept one |
| Retention.RecordNewestVideo | src/responses/mapvideo.ts:607-624 | a video newer than all listed ones is kept, at the front |
| Retention.Descending | src/responses/mapvideo.ts:379 | the comparator `a > b ? -1 : 1` is a strict total order on names |
| Retention.NewestFirstNames | src/responses/mapvideo.ts:376-379 | the matching names, each once, in descending order |
| Retention.SnapshotFileName | src/responses/mapvideo.ts:244 | the name contains the reference date, the colour-snapshot pattern and the clean-up pattern, so both filters see it |
| Retention.SnapshotNameOrder | src/responses/mapvideo.ts:376-379 | for equal-length dates, two snapshot file names compare as their reference dates do |
| Retention.PreviousSnapshotFile | src/responses/mapvideo.ts:376-383 | a name exactly when two or more snapshot files match; then the second greatest |
| Retention.SnapshotFilesToDelete | src/responses/mapvideo.ts:631-641 | deletes only matching files, keeps min(2, count) of them, and every deleted name is smaller than every kept one |
| Text.NatToStringRoundTrip | src/responses/mapvideo.ts:327-328 | `toString` of a natural number is all digits and reads back as the number |
| Text.PadStart | src/responses/mapvideo.ts:327-328 | `padStart` gives length max(len, width), keeps the string as a suffix, and fills only with the pad character |
| Pipeline.PreviousAsWritten | src/responses/mapvideo.ts:376-390 | the empty snapshot when fewer than two are stored; otherwise the snapshot of the greatest date below the latest |
| Pipeline.Render | src/responses/mapvideo.ts:402-442 | nothing changes when no day is stale; every stale day's frame becomes that day's colours under its frame number; no frame is removed and every frame no stale day maps to is unchanged |
| Pipeline.VideoResponseAsWritten | src/responses/mapvideo.ts:201-647 | the result is the source's validation on the stored (or new) snapshot; a failed or cached request only stores the snapshot and leaves the frames alone; an uncached success ends ready with only the two newest snapshots; every snapshot kept is the old one or today's for the reference date |
| Pipeline.VideoResponse | src/responses/mapvideo.ts:201-647 | the same facts for the corrected request with the corrected validation; after an uncached success from a region not showing the reference date, the basis is the reference date |
| Pipeline.Latest | src/responses/mapvideo.ts:376-379 | the greatest stored reference date |
| Pipeline.SecondLatest | src/responses/mapvideo.ts:376-383 | exists exactly when there are two dates; it is the greatest date below the latest |
| Pipeline.LatestTwo | src/responses/mapvideo.ts:636-640 | the two greatest dates (all when fewer), and every other date is smaller |
| Pipeline.StoreSnapshot | src/responses/mapvideo.ts:243-273 | an already stored date leaves everything unchanged (lines 245-246); otherwise the date is stored with today's snapshot and ready is cleared (lines 249-268); earlier snapshots and the frames are never touched and no other date appears |
| Pipeline.KeepNewestTwo | src/responses/mapvideo.ts:631-641 | exactly the two newest snapshots survive, unchanged |
| Pipeline.AnchoredKeys | src/responses/mapvideo.ts:431 | the chronological keys of a snapshot starting on `first` start with `first` |
| Pipeline.RenderBringsUpToDate | src/responses/mapvideo.ts:429-442 | rendering against the snapshot the frames show makes them show the current one |
| Pipeline.AsWrittenRendersDiff | src/responses/mapvideo.ts:372-442 | for a region that is not ready once the snapshot is stored, an uncached successful request renders the diff against the second newest snapshot: frames that showed that snapshot end up showing the reference date's snapshot |
| Pipeline.VideoShowsLastDays | src/responses/mapvideo.ts:573-575 | for a valid request, the frames from the first frame number on are exactly the last `days` days |
| Pipeline.InitiallyConsistent | src/responses/mapvideo.ts:229-240 | the initial state is consistent |
| Pipeline.StoreConsistent | src/responses/mapvideo.ts:243-273 | storing a snapshot of a date no earlier than the stored ones keeps consistency and makes it the newest |
| Pipeline.RenderConsistent | src/responses/mapvideo.ts:372-567 | rendering a region that is not ready against its basis makes it ready and shows the newest snapshot |
| Pipeline.CleanupConsistent | src/responses/mapvideo.ts:631-641 | the snapshot clean-up keeps a ready region consistent |
| Pipeline.VideoResponseConsistent | src/responses/mapvideo.ts:201-647 | the corrected request keeps consistency; after a successful uncached request the region is ready and shows the reference date's snapshot |
| Pipeline.MiddleSnapshotIsBase | src/responses/mapvideo.ts:376-383 | with three stored snapshots the source diffs against the middle one |
| Pipeline.RenderAgainstItself | src/responses/mapvideo.ts:402-433 | diffing a snapshot against itself renders nothing |
| Pipeline.FailedRequestStores | src/responses/mapvideo.ts:243-293 | a request rejected for its `days` still stores the new snapshot and clears ready |
| Pipeline.RepeatedSnapshotMarksReady | src/responses/mapvideo.ts:372-562 | the next request, diffing against that unrendered snapshot, renders nothing and sets ready |
| Pipeline.StaleFramesMarkedReady | src/responses/mapvideo.ts:243-562 | after those two requests the region is ready although its frames do not show the current snapshot |
| Pipeline.CorrectedFailedRequestStores | src/responses/mapvideo.ts:243-293 | the corrected request with bad `days` stores the snapshot and keeps the rendered basis |
| Pipeline.StaleFramesCorrected | src/responses/mapvideo.ts:243-562 | the corrected request on the same two calls leaves frames that show the current snapshot |
| Pipeline.StaleFramesExample | src/responses/mapvideo.ts:243-562 | on a concrete two-day run, a request with `days` NaN fails, the next succeeds and sets ready, and the frames do not show the stored snapshot |
| Pipeline.StaleFramesCorrectedExample | src/responses/mapvideo.ts:243-562 | on the same concrete run the corrected request leaves frames that show the stored snapshot |

## Left out

- Upstream requests are left out: `getMetaData`, the case histories, the district and state data, and the reference date (mapvideo.ts:110-125, 207-210). They are inputs of the model.
- Incidence arithmetic is an opaque parameter, because it is floating point in the source. So is `getColorForValue` with the colour ranges. Their values are taken as given.
- The `weekIncidence` and `casesPer100k` fields of the states response (states.ts:34-35) are left out, because they are floating point.
- Files, JSON parsing and serialisation, and the status-file initialisation (mapvideo.ts:229-240) are left out. The ledger and the snapshot store are values.
- Lock files and their polling loops are left out, as are concurrent requests (mapvideo.ts:220-228, 254-264, 340-359, 548-566, 594-604, 643-644). Each request is modelled as running alone.
- Drawing the map is left out (mapvideo.ts:444-460, 518-546): the SVG fill attributes, the headline, and the `sharp` composition. A frame is modelled as the day's colours.
- Video encoding with ffmpeg is left out (mapvideo.ts:577-593). Its failure path is left out too; the model takes every render and encode to succeed.
- Logging and timing are left out.
- Fractional or negative `:days` and fractional durations are not modelled. A route parameter is an integer or NaN.
- The `created` timestamp of a video is a parameter, not the wall clock.
- Whether the video file already exists is a boolean parameter, at both cache checks (mapvideo.ts:335-337 and 353-355).
- Snapshot.ColorsPerDay: a key with no matching district or state record makes the source throw once that region has a seventh day (mapvideo.ts:135-145). The model takes the population as part of each region's history instead, so this failure is not modelled.
- States.GroupHistoriesCorrect: cites the cases loop only. The deaths and recovered loops (states.ts:107-120, 141-154) are the same loop over a different count field.
- Retention.SortNewestFirst: does not state that the sort is stable. Stability matters only among videos with equal timestamps.
- Retention.FilterByDate: states which entries are kept, not that their order is preserved. The order is restored by the sort that follows.
- Pipeline.VideoShowsLastDays: assumes one key per consecutive day. With gaps in the history the frame numbers skip, and the source's first-frame arithmetic no longer selects exactly the last `days` days.
- SnapshotOrder.RealSumPermutation: order independence is proved for exact sums only. The source's `temp.sum += incidence` adds doubles, which is not associative, so the sum can depend on the order of `Object.keys`.
- SnapshotOrder.ColorsPerDayOrderIndependent: proved for exact sums only. With double-precision sums (mapvideo.ts:172-175) the average, and so `avgColor`, can depend on the key order when the mean lies at a colour-band boundary.
- Dates: the model does not prove that ISO date strings and day numbers order alike. It takes fixed-width `YYYY-MM-DD` reference dates as given.
- Pipeline.VideoResponseConsistent: assumes that all snapshots start on the same first day and that reference dates never decrease. These are facts about the upstream data.

## Findings

| source | as written | input that shows it | evidently intended | confidence | as-written member | corrected member |
|---|---|---|---|---|---|---|
| src/responses/mapvideo.ts:304-314 | the error message gives `floor(n/25) + 1` as the shortest duration | n = 100 frames: duration 4 is accepted (rate 25), but duration 3 is told the minimum is 5 | report the true shortest accepted duration `floor(n/26) + 1` | not executed; high | Request.DurationMessageOverstatesMinimum | Request.DurationBoundsExact |
| src/responses/mapvideo.ts:304-324 | `Math.floor(n / d)` is compared with `< 5` and `> 25`, and NaN passes both | no `:days`, an empty snapshot, duration 0: `0/0` is NaN, the request is accepted, and the frame rate is NaN | a quotient that is not a finite number in [5, 25] is a range error | not executed; low (needs an empty history) | Request.NaNFrameRateAccepted | Request.Validate |
| src/responses/mapvideo.ts:376-390 | the diff base is the second greatest snapshot file, taken to be what the frames show | a request that fails validation after storing a new snapshot leaves that snapshot unrendered; the next day's request diffs against it, renders nothing, and sets ready (mapvideo.ts:562) while the frames still show an older snapshot | diff against the snapshot the frames were last rendered from | not executed; medium | Pipeline.StaleFramesMarkedReady | Pipeline.VideoResponseConsistent |
