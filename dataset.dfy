/**
 * `main`: expand the date range, make sure images are present, then merge
 * the meteoblue rows with the cloud cover of their images. The fixed start
 * and end dates of the script are parameters here.
 */
module Dataset {
  import opened Wrappers
  import opened Digits
  import opened Calendar
  import opened Timestamp
  import opened SkyImage
  import opened DateRange
  import opened RecordMerger
  import opened Acquisition

  /** The whole run: the rows written, and the downloader called at most once. */
  method GenerateDataset<C>(dir: ImageDirectory, start: Date, end: Date, fetched: seq<string>,
                            rows: seq<Row>, cover: string -> Option<C>, fmtCell: C -> string)
    returns (out: seq<Row>)
    requires dir.Valid() && IsDate(start) && IsDate(end)
    modifies dir
    ensures out == Merged(rows, DateSpan(start, end), cover, fmtCell)
    ensures dir.Valid() && dir.present
    ensures dir.downloads == old(dir.downloads)
              + (if HasAnyJpg(old(dir.names)) then [] else [DownloadCall(IsoFormat(start), IsoFormat(end))])
    ensures dir.names == old(dir.names) + (if HasAnyJpg(old(dir.names)) then [] else fetched)
  {
    var dates := ExpandDates(start, end);
    dir.EnsureImagesDownloaded(start, end, fetched);
    out := MergeRows(rows, dates, cover, fmtCell);
  }

  /** A data row dated outside [start, end] is never written, not even with blank cells. */
  lemma OutOfRangeDropped<C>(row: Row, start: Date, end: Date, cover: string -> Option<C>, fmtCell: C -> string)
    requires IsDate(start) && IsDate(end)
    requires |row| > 0 && row[0] !in MetadataKeys && Parse(row[0]).Some?
    requires var d := DateOf(Parse(row[0]).value); Before(d, start) || Before(end, d)
    ensures MergeRow(row, DateSpan(start, end), cover, fmtCell) == None
  {
    var d := DateOf(Parse(row[0]).value);
    DateSpanMembership(start, end, d);
    OrdinalOrder(d, start);
    OrdinalOrder(end, d);
    RowClassification(row, DateSpan(start, end), cover, fmtCell);
  }

  /**
   * Every row written keeps its original cells as a prefix and has three
   * more: a metadata row gets the three labels; any other row has a first
   * cell that parses to a date within [start, end] at a whole hour from
   * 09:00 to 15:00, and its cells are those of the images at minutes 00,
   * 05 and 10 of that hour.
   */
  lemma {:induction false} WrittenRow<C>(rows: seq<Row>, start: Date, end: Date,
                                          cover: string -> Option<C>, fmtCell: C -> string, k: nat)
    requires IsDate(start) && IsDate(end)
    requires k < |Merged(rows, DateSpan(start, end), cover, fmtCell)|
    ensures |Merged(rows, DateSpan(start, end), cover, fmtCell)[k]| >= 4
    ensures var r := Merged(rows, DateSpan(start, end), cover, fmtCell)[k];
            var row := r[..|r| - 3];
            && (row[0] in MetadataKeys ==> r[|row|..] == CoverLabels)
            && (row[0] !in MetadataKeys ==>
                  && Parse(row[0]).Some?
                  && var dt := Parse(row[0]).value;
                  && AtMost(start, DateOf(dt)) && AtMost(DateOf(dt), end)
                  && IsObservationTime(dt)
                  && forall j :: 0 <= j < 3 ==>
                       r[|row| + j] == FormatCover(cover(Filename(DateTime(dt.year, dt.month, dt.day, dt.hour, 5 * j))), fmtCell))
  {
    var dates := DateSpan(start, end);
    var out := Merged(rows, dates, cover, fmtCell);
    var idx := MergedSelection(rows, dates, cover, fmtCell);
    var src := rows[idx[k]];
    var r := out[k];
    assert MergeRow(src, dates, cover, fmtCell) == Some(r);
    assert r[..|r| - 3] == src;
    RowClassification(src, dates, cover, fmtCell);
    if src[0] !in MetadataKeys {
      DateSpanMembership(start, end, DateOf(Parse(src[0]).value));
    }
  }

  lemma ScenarioCell()
    ensures Parse("20190523T0900") == Some(DateTime(2019, 5, 23, 9, 0))
  {
    var dt := DateTime(2019, 5, 23, 9, 0);
    assert Pad2(20) == "20" && Pad2(19) == "19" && Pad2(5) == "05" && Pad2(23) == "23";
    assert Pad2(9) == "09" && Pad2(0) == "00";
    assert Format13(dt) == "20190523T0900";
    ParseFormat(dt, "");
    assert "20190523T0900" + "" == "20190523T0900";
  }

  lemma ScenarioFile(minute: nat, mm: string)
    requires minute < 60 && mm == Pad2(minute)
    ensures Filename(DateTime(2019, 5, 23, 9, minute)) == "2019-05-23-09-" + mm + "-0.jpg"
  {
    assert Pad4(2019) == "2019" by {
      assert Pad2(20) == "20" && Pad2(19) == "19";
    }
    assert Pad2(5) == "05" && Pad2(23) == "23" && Pad2(9) == "09";
  }

  lemma ScenarioFile00()
    ensures Filename(DateTime(2019, 5, 23, 9, 0)) == "2019-05-23-09-00-0.jpg"
  {
    assert Pad2(0) == "00";
    ScenarioFile(0, "00");
  }

  lemma ScenarioFile05()
    ensures Filename(DateTime(2019, 5, 23, 9, 5)) == "2019-05-23-09-05-0.jpg"
  {
    assert Pad2(5) == "05";
    ScenarioFile(5, "05");
  }

  lemma ScenarioFile10()
    ensures Filename(DateTime(2019, 5, 23, 9, 10)) == "2019-05-23-09-10-0.jpg"
  {
    assert Pad2(10) == "10";
    ScenarioFile(10, "10");
  }

  /** A header row of the feed is written with the three column labels after its own cells. */
  lemma HeaderScenario<C>(data: string, dates: seq<Date>, cover: string -> Option<C>, fmtCell: C -> string)
    ensures MergeRow(["variable", data], dates, cover, fmtCell)
              == Some(["variable", data, "cloud_cover_t", "cloud_cover_t+5m", "cloud_cover_t+10m"])
  {
    var header := ["variable", data];
    RowClassification(header, dates, cover, fmtCell);
    assert header + CoverLabels == ["variable", data, "cloud_cover_t", "cloud_cover_t+5m", "cloud_cover_t+10m"];
  }

  /** A data row kept by the filter is written with the cells of its hour's images at minutes 00, 05 and 10. */
  lemma KeptDataRow<C>(row: Row, dt: DateTime, dates: seq<Date>, cover: string -> Option<C>, fmtCell: C -> string)
    requires |row| > 0 && row[0] !in MetadataKeys && Parse(row[0]) == Some(dt)
    requires DateOf(dt) in dates && IsObservationTime(dt)
    ensures MergeRow(row, dates, cover, fmtCell)
              == Some(row + [FormatCover(cover(Filename(DateTime(dt.year, dt.month, dt.day, dt.hour, 0))), fmtCell),
                             FormatCover(cover(Filename(DateTime(dt.year, dt.month, dt.day, dt.hour, 5))), fmtCell),
                             FormatCover(cover(Filename(DateTime(dt.year, dt.month, dt.day, dt.hour, 10))), fmtCell)])
  {
    RowClassification(row, dates, cover, fmtCell);
    var r := MergeRow(row, dates, cover, fmtCell).value;
    var n := |row|;
    assert r[n + 0] == FormatCover(cover(Filename(DateTime(dt.year, dt.month, dt.day, dt.hour, 5 * 0))), fmtCell);
    assert r[n + 1] == FormatCover(cover(Filename(DateTime(dt.year, dt.month, dt.day, dt.hour, 5 * 1))), fmtCell);
    assert r[n + 2] == FormatCover(cover(Filename(DateTime(dt.year, dt.month, dt.day, dt.hour, 5 * 2))), fmtCell);
    assert |r| == n + 3 && r[..n] == row;
    assert r[n..] == [r[n], r[n + 1], r[n + 2]];
    assert r == r[..n] + r[n..];
  }

  /** Whenever 2019-05-23 is listed, the 09:00 row of that day gets the cells of its three images. */
  lemma ScenarioRow<C>(data: string, dates: seq<Date>, cover: string -> Option<C>, fmtCell: C -> string)
    requires Date(2019, 5, 23) in dates
    ensures MergeRow(["20190523T0900", data], dates, cover, fmtCell)
              == Some(["20190523T0900", data,
                       FormatCover(cover("2019-05-23-09-00-0.jpg"), fmtCell),
                       FormatCover(cover("2019-05-23-09-05-0.jpg"), fmtCell),
                       FormatCover(cover("2019-05-23-09-10-0.jpg"), fmtCell)])
  {
    ScenarioCell();
    ScenarioFile00();
    ScenarioFile05();
    ScenarioFile10();
    var row := ["20190523T0900", data];
    KeptDataRow(row, DateTime(2019, 5, 23, 9, 0), dates, cover, fmtCell);
    var a := FormatCover(cover("2019-05-23-09-00-0.jpg"), fmtCell);
    var b := FormatCover(cover("2019-05-23-09-05-0.jpg"), fmtCell);
    var c := FormatCover(cover("2019-05-23-09-10-0.jpg"), fmtCell);
    assert row + [a, b, c] == ["20190523T0900", data, a, b, c];
  }

  /**
   * The run over 2019-05-23 alone: the 09:00 row gets the cells of the
   * 09:00, 09:05 and 09:10 images, blank where an image gives no value.
   */
  lemma OneDayScenario<C>(data: string, cover: string -> Option<C>, fmtCell: C -> string)
    ensures MergeRow(["20190523T0900", data], DateSpan(Date(2019, 5, 23), Date(2019, 5, 23)), cover, fmtCell)
              == Some(["20190523T0900", data,
                       FormatCover(cover("2019-05-23-09-00-0.jpg"), fmtCell),
                       FormatCover(cover("2019-05-23-09-05-0.jpg"), fmtCell),
                       FormatCover(cover("2019-05-23-09-10-0.jpg"), fmtCell)])
  {
    var day := Date(2019, 5, 23);
    DateSpanMembership(day, day, day);
    ScenarioRow(data, DateSpan(day, day), cover, fmtCell);
  }
}
