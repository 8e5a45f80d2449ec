/** What src/libWalkTrack.js promises about decoding, timestamps, walk
    summaries and the walks of a CSV text, proved of the model in module
    WalkTrack. */
module WalkProperties {
  import JsString
  import Segmentation
  import opened WalkTrack

  /** The group of records behind each walk. */
  function GpsOf(walks: seq<Walk>): seq<seq<GpsRecord>>
  {
    seq(|walks|, i requires 0 <= i < |walks| => walks[i].gps)
  }

  // ---------------------------------------------------------------- rows

  /** Columns are taken by position: a row made of separator-free columns
      decodes to its first column as timestamp and to the next seven as the
      numeric fields, `Missing` where the row is short, extra columns ignored. */
  lemma DecodeColumns(columns: seq<string>)
    requires |columns| >= 1
    requires forall i :: 0 <= i < |columns| ==> COLUMN_SEPARATOR !in columns[i]
    ensures var r := DecodeRow(JsString.Join(columns, COLUMN_SEPARATOR));
            r.timestamp == columns[0]
            && r.latitude == FieldAt(columns, 1)
            && r.longitude == FieldAt(columns, 2)
            && r.altitude == FieldAt(columns, 3)
            && r.horizontalAccuracy == FieldAt(columns, 4)
            && r.verticalaccuracy == FieldAt(columns, 5)
            && r.speed == FieldAt(columns, 6)
            && r.course == FieldAt(columns, 7)
  {
    JsString.SplitJoin(columns, COLUMN_SEPARATOR);
  }

  /** A full row of eight columns decodes with every field present. */
  lemma DecodeFullRow(timestamp: string, lat: string, lon: string, alt: string,
                      hAcc: string, vAcc: string, speed: string, course: string)
    requires forall c :: c in [timestamp, lat, lon, alt, hAcc, vAcc, speed, course] ==>
               COLUMN_SEPARATOR !in c
    ensures DecodeRow(JsString.Join([timestamp, lat, lon, alt, hAcc, vAcc, speed, course], COLUMN_SEPARATOR))
            == GpsRecord(timestamp, Present(lat), Present(lon), Present(alt),
                         Present(hAcc), Present(vAcc), Present(speed), Present(course))
  {
    var columns := [timestamp, lat, lon, alt, hAcc, vAcc, speed, course];
    assert forall i :: 0 <= i < |columns| ==> columns[i] in columns;
    DecodeColumns(columns);
  }

  // ---------------------------------------------------------- timestamps

  /** Only the first 19 characters of a timestamp matter. */
  lemma TimestampFirst19(dateParse: string -> int, a: string, b: string)
    requires |a| >= TIMESTAMP_LENGTH && |b| >= TIMESTAMP_LENGTH
    requires a[..TIMESTAMP_LENGTH] == b[..TIMESTAMP_LENGTH]
    ensures NormaliseTimestamp(a) == NormaliseTimestamp(b)
    ensures ParseTimestamp(dateParse, a) == ParseTimestamp(dateParse, b)
  {
    assert forall i :: 0 <= i < TIMESTAMP_LENGTH ==> a[..i] == b[..i];
  }

  /** A timestamp and its 19-character truncation parse to the same instant. */
  lemma TimestampTruncation(dateParse: string -> int, timestamp: string)
    requires |timestamp| >= TIMESTAMP_LENGTH
    ensures ParseTimestamp(dateParse, timestamp)
            == ParseTimestamp(dateParse, timestamp[..TIMESTAMP_LENGTH])
  {
    TimestampFirst19(dateParse, timestamp, timestamp[..TIMESTAMP_LENGTH]);
  }

  /** "YYYY-MM-DD HH:MM:SS" followed by anything becomes the ISO 8601 form
      "YYYY-MM-DDTHH:MM:SS": the suffix is dropped and only the separating
      space changes. */
  lemma NormaliseDateTime(date: string, time: string, suffix: string)
    requires |date| == 10 && |time| == 8 && ' ' !in date
    ensures NormaliseTimestamp(date + " " + time + suffix) == date + "T" + time
  {
    var ts := date + " " + time + suffix;
    var r := NormaliseTimestamp(ts);
    forall i | 0 <= i < |r| ensures r[i] == (date + "T" + time)[i] {
      if i < 10 {
        assert ts[i] == date[i];
      } else if i > 10 {
        assert ts[10] == ' ' && ts[10] in ts[..i];
      } else {
        assert ts[..i] == date;
      }
    }
  }

  /** The source's gap test, milliseconds divided by 1000 and by 60 and
      compared with the threshold, is the same as comparing the difference
      in milliseconds with the threshold times 60000. */
  lemma SameWalkMillis(dateParse: string -> int, minThreshold: real, prev: GpsRecord, next: GpsRecord)
    ensures SameWalk(dateParse, minThreshold, prev, next)
            <==> (ParseTimestamp(dateParse, next.timestamp)
                  - ParseTimestamp(dateParse, prev.timestamp)) as real < minThreshold * 60000.0
  {
  }

  // -------------------------------------------------------------- walks

  /** A walk of one record lasts 0 seconds and has speed 0, whatever its distance. */
  lemma SingleSampleWalk(dateParse: string -> int, pathLength: seq<GpsRecord> -> real, rec: GpsRecord)
    ensures var w := CalculateWalk(dateParse, pathLength, [rec]);
            w.duration == 0.0 && w.speed == 0.0 && w.gps == [rec]
  {
  }

  /** Each summary keeps its group as `gps`, in order. */
  lemma {:induction false} SummariesGps(dateParse: string -> int, pathLength: seq<GpsRecord> -> real,
                                        gs: seq<seq<GpsRecord>>)
    requires Segmentation.NonEmptyGroups(gs)
    ensures GpsOf(Summaries(dateParse, pathLength, gs)) == gs
    decreases |gs|
  {
    if |gs| > 0 {
      SummariesGps(dateParse, pathLength, gs[..|gs| - 1]);
      var ws := Summaries(dateParse, pathLength, gs);
      assert ws[..|gs| - 1] == Summaries(dateParse, pathLength, gs[..|gs| - 1]);
      assert GpsOf(ws)[..|gs| - 1] == GpsOf(ws[..|gs| - 1]);
    }
  }

  /** Every walk is the summary of its own group. */
  lemma {:induction false} SummariesAt(dateParse: string -> int, pathLength: seq<GpsRecord> -> real,
                                       gs: seq<seq<GpsRecord>>, i: nat)
    requires Segmentation.NonEmptyGroups(gs) && i < |gs|
    ensures Summaries(dateParse, pathLength, gs)[i] == CalculateWalk(dateParse, pathLength, gs[i])
    decreases |gs|
  {
    if i < |gs| - 1 {
      SummariesAt(dateParse, pathLength, gs[..|gs| - 1], i);
    }
  }

  // --------------------------------------------------------- CSV to walks

  /** The walks of a CSV text are its data rows cut by the gap rule: each
      walk's `gps` is the matching group, and there is one walk more than
      there are boundary gaps. */
  lemma CsvWalksGroups(dateParse: string -> int, pathLength: seq<GpsRecord> -> real,
                       csvdata: string, minThreshold: real)
    requires LINE_SEPARATOR in csvdata
    ensures var walks := CsvWalks(dateParse, pathLength, csvdata, minThreshold);
            var rows := DataRows(csvdata);
            GpsOf(walks) == Segmentation.Groups(Continues(dateParse, minThreshold), rows, |rows|)
            && |walks| == 1 + Segmentation.Breaks(Continues(dateParse, minThreshold), rows, |rows|)
  {
    var near := Continues(dateParse, minThreshold);
    var rows := DataRows(csvdata);
    Segmentation.GroupsCount(near, rows, |rows|);
    Segmentation.GroupsNonEmpty(near, rows, |rows|);
    SummariesGps(dateParse, pathLength, Segmentation.Groups(near, rows, |rows|));
  }

  /** Partition: every walk of a CSV text is non-empty, and the walks'
      records concatenated in order are exactly its data rows. */
  lemma CsvWalksPartition(dateParse: string -> int, pathLength: seq<GpsRecord> -> real,
                          csvdata: string, minThreshold: real)
    requires LINE_SEPARATOR in csvdata
    ensures var walks := CsvWalks(dateParse, pathLength, csvdata, minThreshold);
            (forall i :: 0 <= i < |walks| ==> |walks[i].gps| >= 1)
            && Segmentation.Flatten(GpsOf(walks)) == DataRows(csvdata)
  {
    var near := Continues(dateParse, minThreshold);
    var rows := DataRows(csvdata);
    var gs := Segmentation.Groups(near, rows, |rows|);
    var walks := CsvWalks(dateParse, pathLength, csvdata, minThreshold);
    CsvWalksGroups(dateParse, pathLength, csvdata, minThreshold);
    assert GpsOf(walks) == gs;
    Segmentation.GroupsPartition(near, rows, |rows|);
    Segmentation.GroupsNonEmpty(near, rows, |rows|);
    assert rows[..|rows|] == rows;
    forall i | 0 <= i < |walks| ensures |walks[i].gps| >= 1 {
      assert GpsOf(walks)[i] == walks[i].gps;
      assert |gs[i]| >= 1;
    }
  }

  /** Neighbours inside a walk are closer than the threshold; the last
      record of a walk and the first of the next are not, so a gap equal to
      the threshold separates two walks. */
  lemma CsvWalksGaps(dateParse: string -> int, pathLength: seq<GpsRecord> -> real,
                     csvdata: string, minThreshold: real)
    requires LINE_SEPARATOR in csvdata
    ensures var walks := CsvWalks(dateParse, pathLength, csvdata, minThreshold);
            (forall i, k :: 0 <= i < |walks| && 1 <= k < |walks[i].gps| ==>
               SameWalk(dateParse, minThreshold, walks[i].gps[k - 1], walks[i].gps[k]))
            && (forall i, j :: 0 <= i && j == i + 1 && j < |walks| ==>
                  |walks[i].gps| >= 1 && |walks[j].gps| >= 1
                  && !SameWalk(dateParse, minThreshold, Segmentation.Last(walks[i].gps), walks[j].gps[0]))
  {
    var near := Continues(dateParse, minThreshold);
    var rows := DataRows(csvdata);
    var gs := Segmentation.Groups(near, rows, |rows|);
    CsvWalksGroups(dateParse, pathLength, csvdata, minThreshold);
    Segmentation.GroupsGapsWithin(near, rows, |rows|);
    Segmentation.GroupsGapsBetween(near, rows, |rows|);
    var walks := CsvWalks(dateParse, pathLength, csvdata, minThreshold);
    forall i | 0 <= i < |walks| ensures walks[i].gps == gs[i] {
      assert GpsOf(walks)[i] == walks[i].gps;
    }
    forall i, j | 0 <= i && j == i + 1 && j < |walks|
      ensures |walks[i].gps| >= 1 && |walks[j].gps| >= 1
      ensures !SameWalk(dateParse, minThreshold, Segmentation.Last(walks[i].gps), walks[j].gps[0])
    {
      assert !near(Segmentation.Last(gs[j - 1]), gs[j][0]);
    }
  }

  /** Every walk of a CSV text is the summary of its own records. */
  lemma CsvWalksSummaries(dateParse: string -> int, pathLength: seq<GpsRecord> -> real,
                          csvdata: string, minThreshold: real)
    requires LINE_SEPARATOR in csvdata
    ensures var walks := CsvWalks(dateParse, pathLength, csvdata, minThreshold);
            forall i :: 0 <= i < |walks| ==>
              |walks[i].gps| >= 1 && walks[i] == CalculateWalk(dateParse, pathLength, walks[i].gps)
  {
    var near := Continues(dateParse, minThreshold);
    var rows := DataRows(csvdata);
    Segmentation.GroupsNonEmpty(near, rows, |rows|);
    var gs := Segmentation.Groups(near, rows, |rows|);
    var walks := Summaries(dateParse, pathLength, gs);
    forall i | 0 <= i < |walks|
      ensures |walks[i].gps| >= 1 && walks[i] == CalculateWalk(dateParse, pathLength, walks[i].gps)
    {
      SummariesAt(dateParse, pathLength, gs, i);
    }
  }

  /** The grouping of the walks is the only one with those properties:
      any cut of the data rows into non-empty groups, with every inner gap
      below the threshold and every boundary gap at or above it, is the
      cut parseCsvdata makes. */
  lemma CsvWalksUnique(dateParse: string -> int, pathLength: seq<GpsRecord> -> real,
                       csvdata: string, minThreshold: real, gs: seq<seq<GpsRecord>>)
    requires LINE_SEPARATOR in csvdata
    requires Segmentation.IsRunPartition(Continues(dateParse, minThreshold), DataRows(csvdata), gs)
    ensures GpsOf(CsvWalks(dateParse, pathLength, csvdata, minThreshold)) == gs
  {
    var near := Continues(dateParse, minThreshold);
    var rows := DataRows(csvdata);
    assert rows[..|rows|] == rows;
    Segmentation.RunPartitionUnique(near, rows, |rows|, gs);
    SummariesGps(dateParse, pathLength, gs);
  }

  /** The data rows are the lines after the first, whatever that header says. */
  lemma DataRowsSkipHeader(header: string, body: string)
    requires LINE_SEPARATOR !in header
    ensures DataRows(header + [LINE_SEPARATOR] + body)
            == DecodeRows(JsString.Split(body, LINE_SEPARATOR))
  {
    JsString.SplitAfterPiece(header, LINE_SEPARATOR, body);
    assert ([header] + JsString.Split(body, LINE_SEPARATOR))[1..] == JsString.Split(body, LINE_SEPARATOR);
  }

  /** The header line is never decoded: replacing it leaves the walks unchanged. */
  lemma HeaderIgnored(dateParse: string -> int, pathLength: seq<GpsRecord> -> real,
                      header1: string, header2: string, body: string, minThreshold: real)
    requires LINE_SEPARATOR !in header1 && LINE_SEPARATOR !in header2
    ensures CsvWalks(dateParse, pathLength, header1 + [LINE_SEPARATOR] + body, minThreshold)
         == CsvWalks(dateParse, pathLength, header2 + [LINE_SEPARATOR] + body, minThreshold)
  {
    DataRowsSkipHeader(header1, body);
    DataRowsSkipHeader(header2, body);
  }

  // ------------------------------------------------------------ scenarios

  /** A record carrying only the timestamp "`date` `time`". */
  function Sample(date: string, time: string): GpsRecord
  {
    GpsRecord(date + " " + time, Missing, Missing, Missing, Missing, Missing, Missing, Missing)
  }

  /** The instant of a "`date` `time`" timestamp is what `Date.parse` gives for "`date`T`time`". */
  lemma SampleInstant(dateParse: string -> int, date: string, time: string)
    requires |date| == 10 && |time| == 8 && ' ' !in date
    ensures ParseTimestamp(dateParse, Sample(date, time).timestamp) == dateParse(date + "T" + time)
  {
    NormaliseDateTime(date, time, "");
    assert date + " " + time + "" == date + " " + time;
  }

  /** On any day, records at 10:00, 10:05 and 10:25 with the default
      threshold of ten minutes form two walks: the first two records, then
      the third alone. */
  lemma ScenarioTwoWalks(dateParse: string -> int, date: string)
    requires |date| == 10 && ' ' !in date
    requires dateParse(date + "T" + "10:05:00") == dateParse(date + "T" + "10:00:00") + 300000
    requires dateParse(date + "T" + "10:25:00") == dateParse(date + "T" + "10:00:00") + 1500000
    ensures var a, b, c := Sample(date, "10:00:00"), Sample(date, "10:05:00"), Sample(date, "10:25:00");
            Segmentation.Groups(Continues(dateParse, DEFAULT_MIN_THRESHOLD), [a, b, c], 3) == [[a, b], [c]]
  {
    var a, b, c := Sample(date, "10:00:00"), Sample(date, "10:05:00"), Sample(date, "10:25:00");
    SampleInstant(dateParse, date, "10:00:00");
    SampleInstant(dateParse, date, "10:05:00");
    SampleInstant(dateParse, date, "10:25:00");
    var near := Continues(dateParse, DEFAULT_MIN_THRESHOLD);
    assert near(a, b) && !near(b, c);
    var rows := [a, b, c];
    assert rows[0] == a && rows[1] == b && rows[2] == c;
    assert Segmentation.Groups(near, rows, 1) == [[a]];
    assert near(rows[0], rows[1]);
    assert [a] + [b] == [a, b];
    assert [[a]][..0] + [[a, b]] == [[a, b]];
    assert Segmentation.Groups(near, rows, 2) == [[a, b]];
  }

  /** On any day, records exactly ten minutes apart with a threshold of ten
      minutes form one walk each: a gap equal to the threshold closes the walk. */
  lemma ScenarioGapEqualToThreshold(dateParse: string -> int, date: string)
    requires |date| == 10 && ' ' !in date
    requires dateParse(date + "T" + "10:10:00") == dateParse(date + "T" + "10:00:00") + 600000
    requires dateParse(date + "T" + "10:20:00") == dateParse(date + "T" + "10:00:00") + 1200000
    ensures var a, b, c := Sample(date, "10:00:00"), Sample(date, "10:10:00"), Sample(date, "10:20:00");
            Segmentation.Groups(Continues(dateParse, DEFAULT_MIN_THRESHOLD), [a, b, c], 3) == [[a], [b], [c]]
  {
    var a, b, c := Sample(date, "10:00:00"), Sample(date, "10:10:00"), Sample(date, "10:20:00");
    SampleInstant(dateParse, date, "10:00:00");
    SampleInstant(dateParse, date, "10:10:00");
    SampleInstant(dateParse, date, "10:20:00");
    var near := Continues(dateParse, DEFAULT_MIN_THRESHOLD);
    assert !near(a, b) && !near(b, c);
    var rows := [a, b, c];
    assert rows[0] == a && rows[1] == b && rows[2] == c;
    assert Segmentation.Groups(near, rows, 1) == [[a]];
    assert Segmentation.Groups(near, rows, 2) == [[a], [b]];
  }
}
