/** The CSV-to-walks pipeline of src/libWalkTrack.js: decoding one CSV row
    into a GPS record, normalising its timestamp, cutting the ordered records
    into walks wherever the time gap reaches a threshold, and summarising each
    walk by distance, duration and average speed.

    Two collaborators are foreign code and enter as parameters:
    `dateParse` stands for `Date.parse` (normalised text to milliseconds) and
    `pathLength` for `geolib.getPathLength` (a group of records to metres). */
module WalkTrack {
  import JsString
  import Segmentation

  datatype Option<T> = None | Some(value: T)

  /** A numeric column as the row carries it: its text, or `Missing` when the
      row has too few columns (JavaScript's `undefined`). The number
      `parseFloat` reads from it is not part of this model. */
  datatype Field = Present(text: string) | Missing

  /** One decoded CSV row, with the source's column names. */
  datatype GpsRecord = GpsRecord(
    timestamp: string,
    latitude: Field,
    longitude: Field,
    altitude: Field,
    horizontalAccuracy: Field,
    verticalaccuracy: Field,
    speed: Field,
    course: Field)

  /** A summarised walk; `gps` is the group of records it was computed from. */
  datatype Walk = Walk(distance: real, duration: real, speed: real, gps: seq<GpsRecord>)

  const COLUMN_SEPARATOR: char := ';'
  const LINE_SEPARATOR: char := '\n'
  /** Length of "YYYY-MM-DD HH:MM:SS", the part of a timestamp that is parsed. */
  const TIMESTAMP_LENGTH: nat := 19
  /** The threshold, in minutes, used when the caller gives none. */
  const DEFAULT_MIN_THRESHOLD: real := 10.0

  /** Column `k` of a split row, `Missing` past its end. */
  function FieldAt(columns: seq<string>, k: nat): Field
  {
    if k < |columns| then Present(columns[k]) else Missing
  }

  /** csvrowToJson: split on ';' and name the columns by position. The
      timestamp is the text before the first ';' (the whole row when there
      is none). */
  function DecodeRow(row: string): (r: GpsRecord)
    ensures r.timestamp <= row && COLUMN_SEPARATOR !in r.timestamp
    ensures COLUMN_SEPARATOR !in row ==> r.timestamp == row
    ensures COLUMN_SEPARATOR in row ==> r.timestamp + [COLUMN_SEPARATOR] <= row
  {
    var columns := JsString.Split(row, COLUMN_SEPARATOR);
    GpsRecord(columns[0], FieldAt(columns, 1), FieldAt(columns, 2), FieldAt(columns, 3),
              FieldAt(columns, 4), FieldAt(columns, 5), FieldAt(columns, 6), FieldAt(columns, 7))
  }

  /** Every line decoded, in order. */
  function DecodeRows(lines: seq<string>): seq<GpsRecord>
  {
    seq(|lines|, k requires 0 <= k < |lines| => DecodeRow(lines[k]))
  }

  /** The string step of parseTimestamp: keep at most 19 characters and turn
      the first space into 'T', the date-time separator of ISO 8601. */
  function NormaliseTimestamp(timestamp: string): (r: string)
    ensures |r| == if |timestamp| < TIMESTAMP_LENGTH then |timestamp| else TIMESTAMP_LENGTH
    ensures forall i :: 0 <= i < |r| ==>
              r[i] == if timestamp[i] == ' ' && ' ' !in timestamp[..i] then 'T' else timestamp[i]
  {
    var cut := JsString.Truncate(timestamp, TIMESTAMP_LENGTH);
    assert forall i :: 0 <= i < |cut| ==> cut[..i] == timestamp[..i];
    JsString.ReplaceFirst(cut, ' ', 'T')
  }

  /** parseTimestamp: milliseconds since the epoch. */
  function ParseTimestamp(dateParse: string -> int, timestamp: string): int
  {
    dateParse(NormaliseTimestamp(timestamp))
  }

  /** The gap in minutes from `prev` to `next`, computed as the source does:
      milliseconds divided by 1000 and then by 60. */
  function MinutesBetween(dateParse: string -> int, prev: GpsRecord, next: GpsRecord): real
  {
    (ParseTimestamp(dateParse, next.timestamp) - ParseTimestamp(dateParse, prev.timestamp)) as real
      / 1000.0 / 60.0
  }

  /** `next` extends the walk that ends in `prev`: the gap is strictly below the threshold. */
  predicate SameWalk(dateParse: string -> int, minThreshold: real, prev: GpsRecord, next: GpsRecord)
  {
    MinutesBetween(dateParse, prev, next) < minThreshold
  }

  /** calculateWalk: duration in seconds from the first to the last timestamp,
      speed as distance over duration when the duration is positive and 0
      otherwise, and the group itself kept as `gps`. An empty group makes the
      source read `aWalk[0]` of an empty array and fault. */
  function CalculateWalk(dateParse: string -> int, pathLength: seq<GpsRecord> -> real,
                         aWalk: seq<GpsRecord>): (w: Walk)
    requires |aWalk| >= 1
    ensures w.gps == aWalk
    ensures w.distance == pathLength(aWalk)
    ensures w.duration * 1000.0
         == (ParseTimestamp(dateParse, aWalk[|aWalk| - 1].timestamp)
             - ParseTimestamp(dateParse, aWalk[0].timestamp)) as real
    ensures w.duration > 0.0 ==> w.speed * w.duration == w.distance
    ensures w.duration <= 0.0 ==> w.speed == 0.0
  {
    var start := ParseTimestamp(dateParse, aWalk[0].timestamp);
    var end := ParseTimestamp(dateParse, aWalk[|aWalk| - 1].timestamp);
    var distance := pathLength(aWalk);
    var duration := (end - start) as real / 1000.0;
    var speed := if duration > 0.0 then distance / duration else 0.0;
    Walk(distance, duration, speed, aWalk)
  }

  /** The gap rule as a relation between consecutive records, the `near`
      relation by which the pass cuts the rows (see module Segmentation). */
  function Continues(dateParse: string -> int, minThreshold: real): (GpsRecord, GpsRecord) -> bool
  {
    (prev: GpsRecord, next: GpsRecord) => SameWalk(dateParse, minThreshold, prev, next)
  }

  /** The summary of each group, in order. */
  function Summaries(dateParse: string -> int, pathLength: seq<GpsRecord> -> real,
                     gs: seq<seq<GpsRecord>>): (ws: seq<Walk>)
    requires Segmentation.NonEmptyGroups(gs)
    ensures |ws| == |gs|
    decreases |gs|
  {
    if |gs| == 0 then []
    else Summaries(dateParse, pathLength, gs[..|gs| - 1])
         + [CalculateWalk(dateParse, pathLength, gs[|gs| - 1])]
  }

  /** The data rows of a CSV text: every line after the header, decoded. */
  function DataRows(csvdata: string): (rows: seq<GpsRecord>)
    ensures LINE_SEPARATOR in csvdata ==> |rows| >= 1
  {
    DecodeRows(JsString.Split(csvdata, LINE_SEPARATOR)[1..])
  }

  /** What parseCsvdata returns for `csvdata`: the summaries of the groups
      the gap rule cuts the data rows into. */
  function CsvWalks(dateParse: string -> int, pathLength: seq<GpsRecord> -> real,
                    csvdata: string, minThreshold: real): seq<Walk>
    requires LINE_SEPARATOR in csvdata
  {
    var rows := DataRows(csvdata);
    var near := Continues(dateParse, minThreshold);
    Segmentation.GroupsNonEmpty(near, rows, |rows|);
    Summaries(dateParse, pathLength, Segmentation.Groups(near, rows, |rows|))
  }

  /** The summaries of one more group end in that group's summary. */
  lemma SummariesStep(dateParse: string -> int, pathLength: seq<GpsRecord> -> real,
                      gs: seq<seq<GpsRecord>>, g: seq<GpsRecord>)
    requires Segmentation.NonEmptyGroups(gs)
    requires |g| >= 1
    ensures Segmentation.NonEmptyGroups(gs + [g])
    ensures Summaries(dateParse, pathLength, gs + [g])
            == Summaries(dateParse, pathLength, gs) + [CalculateWalk(dateParse, pathLength, g)]
  {
  }

  /** The state of the segmentation pass after the first `n` records of
      `rows`: `aWalk` is the open (last) group and `allWalks` summarises
      every closed group. */
  ghost predicate PassState(dateParse: string -> int, pathLength: seq<GpsRecord> -> real,
                            minThreshold: real, rows: seq<GpsRecord>, n: nat,
                            aWalk: seq<GpsRecord>, allWalks: seq<Walk>)
    requires 1 <= n <= |rows|
  {
    var gs := Segmentation.Groups(Continues(dateParse, minThreshold), rows, n);
    var closed := gs[..|gs| - 1];
    aWalk == gs[|gs| - 1]
    && Segmentation.NonEmptyGroups(closed)
    && allWalks == Summaries(dateParse, pathLength, closed)
  }

  /** A record close enough to the previous one extends the open group. */
  lemma PassExtend(dateParse: string -> int, pathLength: seq<GpsRecord> -> real,
                   minThreshold: real, rows: seq<GpsRecord>, n: nat,
                   aWalk: seq<GpsRecord>, allWalks: seq<Walk>)
    requires 1 <= n < |rows|
    requires PassState(dateParse, pathLength, minThreshold, rows, n, aWalk, allWalks)
    requires SameWalk(dateParse, minThreshold, rows[n - 1], rows[n])
    ensures PassState(dateParse, pathLength, minThreshold, rows, n + 1, aWalk + [rows[n]], allWalks)
  {
  }

  /** A record too far from the previous one closes the open group, whose
      summary is appended, and opens a group of its own. */
  lemma PassClose(dateParse: string -> int, pathLength: seq<GpsRecord> -> real,
                  minThreshold: real, rows: seq<GpsRecord>, n: nat,
                  aWalk: seq<GpsRecord>, allWalks: seq<Walk>)
    requires 1 <= n < |rows|
    requires PassState(dateParse, pathLength, minThreshold, rows, n, aWalk, allWalks)
    requires !SameWalk(dateParse, minThreshold, rows[n - 1], rows[n])
    ensures |aWalk| >= 1
    ensures PassState(dateParse, pathLength, minThreshold, rows, n + 1, [rows[n]],
                      allWalks + [CalculateWalk(dateParse, pathLength, aWalk)])
  {
  }

  /** Closing the open group at the end of the pass summarises every group. */
  lemma PassFinish(dateParse: string -> int, pathLength: seq<GpsRecord> -> real,
                   minThreshold: real, rows: seq<GpsRecord>, n: nat,
                   aWalk: seq<GpsRecord>, allWalks: seq<Walk>)
    requires 1 <= n <= |rows|
    requires PassState(dateParse, pathLength, minThreshold, rows, n, aWalk, allWalks)
    ensures |aWalk| >= 1
    ensures Segmentation.NonEmptyGroups(Segmentation.Groups(Continues(dateParse, minThreshold), rows, n))
    ensures allWalks + [CalculateWalk(dateParse, pathLength, aWalk)]
            == Summaries(dateParse, pathLength, Segmentation.Groups(Continues(dateParse, minThreshold), rows, n))
  {
  }

  /** parseCsvdata: one forward pass over the lines after the header that
      keeps the open group `aWalk` and the previous record `prev`, and closes
      the open group whenever the gap from `prev` is not below the threshold.
      Text without a line break has no data row, and the source then faults
      in calculateWalk on the empty group. */
  method ParseCsvData(dateParse: string -> int, pathLength: seq<GpsRecord> -> real,
                      csvdata: string, minThreshold: real := DEFAULT_MIN_THRESHOLD)
    returns (allWalks: seq<Walk>)
    requires LINE_SEPARATOR in csvdata
    ensures |allWalks| >= 1
    ensures allWalks == CsvWalks(dateParse, pathLength, csvdata, minThreshold)
  {
    var csvlist := JsString.Split(csvdata, LINE_SEPARATOR);
    ghost var rows := DataRows(csvdata);
    var aWalk: seq<GpsRecord> := [];
    allWalks := [];
    var prev: Option<GpsRecord> := None;
    for i := 1 to |csvlist|
      invariant i == 1 ==> prev == None && aWalk == [] && allWalks == []
      invariant i > 1 ==> prev == Some(rows[i - 2])
      invariant i > 1 ==> PassState(dateParse, pathLength, minThreshold, rows, i - 1, aWalk, allWalks)
    {
      var gpsJson := DecodeRow(csvlist[i]);
      assert gpsJson == rows[i - 1];
      if prev == None {
        aWalk := [gpsJson];
        prev := Some(gpsJson);
      } else if SameWalk(dateParse, minThreshold, prev.value, gpsJson) {
        PassExtend(dateParse, pathLength, minThreshold, rows, i - 1, aWalk, allWalks);
        aWalk := aWalk + [gpsJson];
        prev := Some(gpsJson);
      } else {
        PassClose(dateParse, pathLength, minThreshold, rows, i - 1, aWalk, allWalks);
        var walkData := CalculateWalk(dateParse, pathLength, aWalk);
        allWalks := allWalks + [walkData];
        aWalk := [gpsJson];
        prev := Some(gpsJson);
      }
    }
    PassFinish(dateParse, pathLength, minThreshold, rows, |rows|, aWalk, allWalks);
    var walkData := CalculateWalk(dateParse, pathLength, aWalk);
    allWalks := allWalks + [walkData];
  }
}
