# WalkTrack core in Dafny

A model of the CSV-to-walks pipeline of the WalkTrack app (`src/libWalkTrack.js`).
The app receives a text of GPS samples. Line 0 is a header, and every later line is
`timestamp;latitude;longitude;altitude;horizontalAccuracy;verticalaccuracy;speed;course`.
The pipeline decodes each data line into a record and cuts the ordered records into
*walks*: a new walk starts whenever the gap from the previous record is not strictly
below `minThreshold` minutes (10 by default). Each walk is then summarised by its
distance, its duration in seconds and its average speed.

Files:

- `js_string.dfy` (module `JsString`): the JavaScript string built-ins the pipeline relies on.
  These are `split` with a one-character separator, its inverse `join`, `substring(0, n)`,
  and `replace` with a one-character pattern.
- `segmentation.dfy` (module `Segmentation`): the run-cutting rule of the `parseCsvdata` loop as a
  specification function `Groups(near, rows, n)`, the groups formed from the first `n` rows. It is
  stated for any "near" relation between neighbours. The module also holds the rule's properties:
  non-empty groups, partition, gaps inside and between groups, group count, and uniqueness.
- `walk_track.dfy` (module `WalkTrack`): records, `csvrowToJson` (`DecodeRow`), the string step of
  `parseTimestamp` (`NormaliseTimestamp`), `calculateWalk`, the time-gap relation `Continues`,
  and `parseCsvdata` as the imperative method `ParseCsvData`. Its loop is proved against
  `CsvWalks`.
- `walk_properties.dfy` (module `WalkProperties`): decoding by position, timestamp truncation,
  the properties of the walks of a CSV text, header skipping, and two concrete scenarios.

Foreign code enters as function parameters:

- `dateParse: string -> int` stands for `Date.parse` on the normalised timestamp. It gives
  milliseconds since the epoch.
- `pathLength: seq<GpsRecord> -> real` stands for `geolib.getPathLength`. It gives metres.

The source pushes onto the array `aWalk` and stores that same array as a walk's `gps`. After a
walk is closed, `aWalk` is bound to a fresh array, so no stored `gps` changes afterwards. The model
therefore keeps `aWalk` and `allWalks` as sequence values.

JavaScript numbers are modelled as exact `real`s. The numeric columns are carried as their text,
because `parseFloat` is not modelled.

## Model

| member | source | states |
|---|---|---|
| `JsString.Split` | src/libWalkTrack.js:16 | `split` gives at least one piece. No piece contains the separator, and joining the pieces gives the input back. The first piece is the text before the first separator, and there is a single piece exactly when the input has no separator. |
| `JsString.SplitJoin` | src/libWalkTrack.js:16 | Splitting a join of separator-free parts gives those parts back, so the pieces are determined by position. |
| `JsString.SplitAfterPiece` | src/libWalkTrack.js:29 | Splitting `a + sep + b`, with `a` separator-free, gives `a` followed by the pieces of `b`. |
| `JsString.Truncate` | src/libWalkTrack.js:75 | `substring(0, n)` is a prefix of length `min(|s|, n)`, so a shorter string is kept whole. |
| `JsString.ReplaceFirst` | src/libWalkTrack.js:75 | `replace(" ", "T")` keeps the length. Only the first occurrence of the pattern becomes the replacement, and every other character is unchanged. |
| `WalkTrack.DecodeRow` | src/libWalkTrack.js:15-25 | The timestamp is a `;`-free prefix of the row. It is the whole row when there is no `;`, and otherwise it is followed by the first `;`. |
| `WalkTrack.NormaliseTimestamp` | src/libWalkTrack.js:74-76 | The result has `min(|ts|, 19)` characters. Character `i` is `'T'` where `ts[i]` is the first space and is `ts[i]` everywhere else. |
| `WalkTrack.CalculateWalk` | src/libWalkTrack.js:64-72 | `gps` is the group unchanged and `distance` is its path length. `duration * 1000` is last minus first timestamp in milliseconds. When `duration > 0`, `speed * duration == distance`; otherwise `speed == 0`, whatever the distance. |
| `WalkTrack.Summaries` | src/libWalkTrack.js:50-60 | There is one summary per group. |
| `WalkTrack.PassExtend` | src/libWalkTrack.js:44-47 | When record `n` is closer than the threshold to record `n - 1`, appending it to the open group and leaving the closed walks alone gives the pass state after `n + 1` records. This keeps the loop invariant. |
| `WalkTrack.PassClose` | src/libWalkTrack.js:48-56 | When record `n` is at or beyond the threshold, the open group is non-empty. Appending its summary and opening the group `[record n]` gives the pass state after `n + 1` records. |
| `WalkTrack.PassFinish` | src/libWalkTrack.js:58-61 | At the end the open group is non-empty, and appending its summary yields the summaries of all groups. |
| `WalkTrack.ParseCsvData` | src/libWalkTrack.js:28-62 | The loop from line 1 returns at least one walk, and the walks are exactly `CsvWalks`: the summaries of `Groups` over the decoded lines after the header. |
| `Segmentation.Groups` | src/libWalkTrack.js:34-57 | The pass over the first `n` rows forms at least one group. |
| `Segmentation.GroupsLast` | src/libWalkTrack.js:37-56 | The open (last) group is non-empty and ends with the newest row, which is `prev` in the loop. |
| `Segmentation.GroupsNonEmpty` | src/libWalkTrack.js:37-56 | Every group is non-empty, because a group is only opened with a row in it. |
| `Segmentation.GroupsPartition` | src/libWalkTrack.js:34-60 | Concatenating the groups in order gives exactly the first `n` rows: none dropped, duplicated or reordered. |
| `Segmentation.GroupsGapsWithin` | src/libWalkTrack.js:43-47 | Adjacent records in one group are near each other. |
| `Segmentation.GroupsGapsBetween` | src/libWalkTrack.js:48-56 | The last record of a group is not near the first record of the next group. |
| `Segmentation.GroupsCount` | src/libWalkTrack.js:50-60 | The number of groups is 1 plus the number of adjacent pairs that are not near. |
| `Segmentation.GroupsIsRunPartition` | src/libWalkTrack.js:34-60 | The groups satisfy all four properties: non-empty, partition, near inside, not near across. |
| `Segmentation.RunPartitionUnique` | src/libWalkTrack.js:34-60 | Any grouping of the first `n` rows with those four properties is `Groups`, so the gap rule determines the walks. |
| `WalkProperties.DecodeColumns` | src/libWalkTrack.js:15-25 | A row of `;`-free columns decodes by position: the timestamp is column 0, and fields 1..7 are latitude, longitude, altitude, horizontalAccuracy, verticalaccuracy, speed and course. Any field past the end of the row is `Missing`. |
| `WalkProperties.DecodeFullRow` | src/libWalkTrack.js:15-25 | An eight-column row decodes with every numeric field present, holding its own column's text. |
| `WalkProperties.TimestampFirst19` | src/libWalkTrack.js:74-76 | Two timestamps that share their first 19 characters normalise, and parse, identically. |
| `WalkProperties.TimestampTruncation` | src/libWalkTrack.js:74-76 | A timestamp and its 19-character truncation parse to the same milliseconds. |
| `WalkProperties.NormaliseDateTime` | src/libWalkTrack.js:75 | `"YYYY-MM-DD HH:MM:SS" + suffix` normalises to the ISO 8601 date-time form `"YYYY-MM-DDTHH:MM:SS"`. |
| `WalkProperties.SameWalkMillis` | src/libWalkTrack.js:43-44 | The source's test `ms / 1000 / 60 < minThreshold` is equivalent to `ms < minThreshold * 60000`. |
| `WalkProperties.SingleSampleWalk` | src/libWalkTrack.js:64-69 | A one-record walk has duration 0 and speed 0. |
| `WalkProperties.SummariesGps` | src/libWalkTrack.js:50-60 | The `gps` fields of the summaries are the groups, in order. |
| `WalkProperties.SummariesAt` | src/libWalkTrack.js:50-60 | Walk `i` is `calculateWalk` of group `i`. |
| `WalkProperties.CsvWalksGroups` | src/libWalkTrack.js:28-62 | The walks' `gps` fields are the groups of the data rows, in order. There is one walk more than there are boundary gaps. |
| `WalkProperties.CsvWalksPartition` | src/libWalkTrack.js:28-62 | Every walk is non-empty, and the walks' `gps` concatenated is exactly the decoded data rows. |
| `WalkProperties.CsvWalksGaps` | src/libWalkTrack.js:43-56 | Inside a walk, every gap between neighbours is `< minThreshold` minutes. Between the last record of a walk and the first of the next it is not, so a gap equal to the threshold splits. |
| `WalkProperties.CsvWalksSummaries` | src/libWalkTrack.js:50-72 | Every walk is non-empty and is `calculateWalk` of its own records. |
| `WalkProperties.CsvWalksUnique` | src/libWalkTrack.js:28-62 | Any cut of the data rows with those gap properties is the walks' `gps` grouping. |
| `WalkProperties.DataRowsSkipHeader` | src/libWalkTrack.js:29-35 | The records are the decoded lines after the first line. |
| `WalkProperties.HeaderIgnored` | src/libWalkTrack.js:29-35 | Replacing the header line never changes the walks. |
| `WalkProperties.SampleInstant` | src/libWalkTrack.js:74-76 | A `"date time"` timestamp parses to `Date.parse("dateTtime")`. |
| `WalkProperties.ScenarioTwoWalks` | src/libWalkTrack.js:43-56 | Records at 10:00, 10:05 and 10:25 with threshold 10 form the walks `[10:00, 10:05]` and `[10:25]`. |
| `WalkProperties.ScenarioGapEqualToThreshold` | src/libWalkTrack.js:43-56 | Records exactly 10 minutes apart with threshold 10 form three single-record walks. |

## Left out

- `fetchData` (src/libWalkTrack.js:3-13) is network I/O. The model starts from the CSV text. A failed fetch returns `null`. The only caller (src/WalkTrackApp.js:25-28) returns before `parseCsvdata` when the text is falsy, so neither `null` nor `""` reaches the core.
- `twoDecimals` (src/libWalkTrack.js:78-80) is display rounding only. It is not part of this model.
- `parseFloat` is not modelled. Numeric columns are carried as their text (`Present`), or as `Missing` where the row is too short (`undefined`). Not-a-number values are therefore not modelled. An example is the row decoded from the empty line after a trailing newline.
- `Date.parse` is the parameter `dateParse` and always yields an integer. Its local-timezone interpretation and its not-a-number result for text it cannot read are not modelled. A not-a-number gap fails the `<` test and so would open a new walk.
- `geolib.getPathLength` is the parameter `pathLength`. Its great-circle arithmetic is not modelled.
- `WalkTrack.CalculateWalk` does not state that a one-record walk has distance 0. That follows from `geolib`, not from this file.
- JavaScript doubles are modelled as exact reals. Rounding in `/ 1000 / 60`, in `(end - start) / 1000` and in `distance / duration` is not modelled.
- The `async` wrapper on `parseCsvdata` does not suspend anywhere. The model is synchronous.
- Input with no line break has no data row. It is the only input that reaches the faulting path below, because the caller already filters out `null` and `""`. The source then calls `calculateWalk([])`, which reads `aWalk[0].timestamp` of an empty array and faults. `ParseCsvData` and `CsvWalks` therefore require a line break. Returning an empty sequence would be the gentler behaviour, but the model follows the code.
- `JsString.Truncate` counts Unicode scalar values, because a Dafny `char` is one. JavaScript's `substring` counts UTF-16 code units. A timestamp with a character outside the Basic Multilingual Plane among its first 19 therefore keeps one character more in the model than in the source. Lone surrogates, which JavaScript strings can hold, cannot be represented. Timestamps of the form `YYYY-MM-DD HH:MM:SS` are ASCII, where the two counts agree.
- `src/WalkTrackApp.js` is React Native state and rendering with no logic of its own. It is not part of this model.
