/**
 * The row loop of `main`: each meteoblue row is dropped, passed through with
 * the three column labels (metadata rows), or passed through with three
 * cloud-cover cells for t, t+5m and t+10m (data rows at an observation time
 * on a date of interest).
 *
 * The cloud-cover value of an image is an oracle `cover` from image file
 * name to an optional value (absent when the file is missing or cannot be
 * processed), and the six-decimal rendering of a value is `fmtCell`.
 */
module RecordMerger {
  import opened Wrappers
  import opened Digits
  import opened Calendar
  import opened Timestamp
  import opened SkyImage

  /** One CSV row: its cells in order. */
  type Row = seq<string>

  /** First cells of the header rows that are passed through. */
  const MetadataKeys: set<string> := {"variable", "unit", "level"}

  /** The labels the header rows get for the three new columns. */
  const CoverLabels: Row := ["cloud_cover_t", "cloud_cover_t+5m", "cloud_cover_t+10m"]

  /** The observation times kept, as `%H%M` strings. */
  const ObservationTimes: set<string> := {"0900", "1000", "1100", "1200", "1300", "1400", "1500"}

  /** Minutes after t of the three images per row. */
  const Offsets: seq<nat> := [0, 5, 10]

  /** `dt.strftime("%H%M")`: four digits, the hour's two then the minute's two. */
  function HourMinute(dt: DateTime): (s: string)
    requires IsDatetime(dt)
    ensures |s| == 4 && AllDigits(s[..2]) && AllDigits(s[2..])
    ensures DecimalValue(s[..2]) == dt.hour && DecimalValue(s[2..]) == dt.minute
  {
    Pad2Decodes(dt.hour);
    Pad2Decodes(dt.minute);
    var s := Pad2(dt.hour) + Pad2(dt.minute);
    assert s[..2] == Pad2(dt.hour) && s[2..] == Pad2(dt.minute);
    s
  }

  /** Whole hours from 09:00 to 15:00. */
  predicate IsObservationTime(dt: DateTime) {
    9 <= dt.hour <= 15 && dt.minute == 0
  }

  /** The allow-set of `%H%M` strings is exactly the whole hours from 09:00 to 15:00. */
  lemma ObservationTimeIff(dt: DateTime)
    requires IsDatetime(dt)
    ensures HourMinute(dt) in ObservationTimes <==> IsObservationTime(dt)
  {
    var hm := HourMinute(dt);
    assert hm[..2] == Pad2(dt.hour) && hm[2..] == Pad2(dt.minute);
    if hm in ObservationTimes {
      Pad2Injective(dt.minute, 0);
      if hm == "0900" { Pad2Injective(dt.hour, 9); }
      else if hm == "1000" { Pad2Injective(dt.hour, 10); }
      else if hm == "1100" { Pad2Injective(dt.hour, 11); }
      else if hm == "1200" { Pad2Injective(dt.hour, 12); }
      else if hm == "1300" { Pad2Injective(dt.hour, 13); }
      else if hm == "1400" { Pad2Injective(dt.hour, 14); }
      else { Pad2Injective(dt.hour, 15); }
    }
    if IsObservationTime(dt) {
      assert Pad2(0) == "00";
      if dt.hour == 9 { assert Pad2(9) == "09"; assert hm == "0900"; }
      else if dt.hour == 10 { assert Pad2(10) == "10"; assert hm == "1000"; }
      else if dt.hour == 11 { assert Pad2(11) == "11"; assert hm == "1100"; }
      else if dt.hour == 12 { assert Pad2(12) == "12"; assert hm == "1200"; }
      else if dt.hour == 13 { assert Pad2(13) == "13"; assert hm == "1300"; }
      else if dt.hour == 14 { assert Pad2(14) == "14"; assert hm == "1400"; }
      else { assert Pad2(15) == "15"; assert hm == "1500"; }
    }
  }

  /** `fmt`: an absent value becomes the empty cell, a present one its rendering. */
  function FormatCover<C>(x: Option<C>, fmtCell: C -> string): (cell: string)
    ensures x == None ==> cell == ""
    ensures x.Some? ==> cell == fmtCell(x.value)
  {
    match x
    case None => ""
    case Some(c) => fmtCell(c)
  }

  /** A rendering that is never the empty string, as `f"{x:.6f}"` never is. */
  ghost predicate NeverBlank<C(!new)>(fmtCell: C -> string) {
    forall c :: fmtCell(c) != ""
  }

  /**
   * The image name for the k-th offset after `dt`: at an
   * observation time the offsets never carry, so the three images are those
   * of the same date and hour at minutes 00, 05 and 10.
   */
  function CoverFile(dt: DateTime, k: nat): (name: string)
    requires IsDatetime(dt) && IsObservationTime(dt) && k < 3
    ensures name == Filename(DateTime(dt.year, dt.month, dt.day, dt.hour, 5 * k))
  {
    NoCarry(dt, Offsets[k]);
    Filename(AddMinutes(dt, Offsets[k]))
  }

  /** The three formatted cover cells of a data row at `dt`, for t, t+5m and t+10m in that order. */
  function CoverCells<C>(dt: DateTime, cover: string -> Option<C>, fmtCell: C -> string): (cells: Row)
    requires IsDatetime(dt) && IsObservationTime(dt)
    ensures |cells| == 3
  {
    seq(3, k requires 0 <= k < 3 => FormatCover(cover(CoverFile(dt, k)), fmtCell))
  }

  /** What the loop body does with one row: None when the row is skipped, else the row written. */
  function MergeRow<C>(row: Row, dates: seq<Date>, cover: string -> Option<C>, fmtCell: C -> string): (r: Option<Row>)
    ensures r.Some? ==> |r.value| == |row| + 3 && r.value[..|row|] == row
  {
    if |row| == 0 then None
    else if row[0] in MetadataKeys then Some(row + CoverLabels)
    else
      match Parse(row[0])
      case None => None
      case Some(dt) =>
        if DateOf(dt) !in dates || HourMinute(dt) !in ObservationTimes then None
        else
          ObservationTimeIff(dt);
          Some(row + CoverCells(dt, cover, fmtCell))
  }

  function Emitted(r: Option<Row>): seq<Row> {
    match r
    case None => []
    case Some(x) => [x]
  }

  /** The rows written for `rows`, in order. */
  function Merged<C>(rows: seq<Row>, dates: seq<Date>, cover: string -> Option<C>, fmtCell: C -> string): seq<Row>
  {
    if rows == [] then []
    else Merged(rows[..|rows| - 1], dates, cover, fmtCell) + Emitted(MergeRow(rows[|rows| - 1], dates, cover, fmtCell))
  }

  /**
   * How each row is treated: an empty row is skipped; a metadata row is
   * written with exactly the three labels appended and no timestamp logic;
   * any other row is written if and only if its first cell parses to a
   * date of interest at an observation time, and then with the cells for
   * the images of minutes 00, 05 and 10 of that hour, in that order.
   */
  lemma RowClassification<C>(row: Row, dates: seq<Date>, cover: string -> Option<C>, fmtCell: C -> string)
    ensures |row| == 0 ==> MergeRow(row, dates, cover, fmtCell) == None
    ensures |row| > 0 && row[0] in MetadataKeys ==> MergeRow(row, dates, cover, fmtCell) == Some(row + CoverLabels)
    ensures |row| > 0 && row[0] !in MetadataKeys ==>
              (MergeRow(row, dates, cover, fmtCell).Some? <==>
                 Parse(row[0]).Some? && DateOf(Parse(row[0]).value) in dates && IsObservationTime(Parse(row[0]).value))
    ensures |row| > 0 && row[0] !in MetadataKeys && MergeRow(row, dates, cover, fmtCell).Some? ==>
              var dt := Parse(row[0]).value;
              forall k :: 0 <= k < 3 ==>
                MergeRow(row, dates, cover, fmtCell).value[|row| + k]
                  == FormatCover(cover(Filename(DateTime(dt.year, dt.month, dt.day, dt.hour, 5 * k))), fmtCell)
  {
    if |row| > 0 && row[0] !in MetadataKeys && Parse(row[0]).Some? {
      var dt := Parse(row[0]).value;
      ObservationTimeIff(dt);
      if MergeRow(row, dates, cover, fmtCell).Some? {
        var cells := CoverCells(dt, cover, fmtCell);
        assert MergeRow(row, dates, cover, fmtCell).value == row + cells;
        forall k | 0 <= k < 3
          ensures cells[k] == FormatCover(cover(Filename(DateTime(dt.year, dt.month, dt.day, dt.hour, 5 * k))), fmtCell)
        {
          assert cells[k] == FormatCover(cover(CoverFile(dt, k)), fmtCell);
        }
      }
    }
  }

  /** A cover cell is blank exactly when the image gave no value; a value is never written as a blank. */
  lemma BlankIffAbsent<C(!new)>(x: Option<C>, fmtCell: C -> string)
    requires NeverBlank(fmtCell)
    ensures FormatCover(x, fmtCell) == "" <==> x == None
  {
  }

  /**
   * The output is an order-preserving selection of the input rows: `idx`
   * lists, in increasing order, the positions of exactly the rows that are
   * written, and the k-th output row is what the k-th of them becomes.
   */
  lemma {:induction false} MergedSelection<C>(rows: seq<Row>, dates: seq<Date>, cover: string -> Option<C>, fmtCell: C -> string)
    returns (idx: seq<nat>)
    ensures var out := Merged(rows, dates, cover, fmtCell);
            && |idx| == |out|
            && (forall k :: 0 <= k < |idx| ==> idx[k] < |rows| && MergeRow(rows[idx[k]], dates, cover, fmtCell) == Some(out[k]))
            && (forall k, l :: 0 <= k < l < |idx| ==> idx[k] < idx[l])
            && (forall i :: 0 <= i < |rows| && MergeRow(rows[i], dates, cover, fmtCell).Some? ==> i in idx)
  {
    if rows == [] {
      idx := [];
    } else {
      var n := |rows| - 1;
      var init := rows[..n];
      var prevIdx := MergedSelection(init, dates, cover, fmtCell);
      var prev := Merged(init, dates, cover, fmtCell);
      var last := MergeRow(rows[n], dates, cover, fmtCell);
      assert Merged(rows, dates, cover, fmtCell) == prev + Emitted(last);
      forall k | 0 <= k < |prevIdx|
        ensures prevIdx[k] < n && rows[prevIdx[k]] == init[prevIdx[k]]
      {
      }
      if last.Some? {
        idx := prevIdx + [n];
        assert Merged(rows, dates, cover, fmtCell) == prev + [last.value];
      } else {
        idx := prevIdx;
        assert Merged(rows, dates, cover, fmtCell) == prev;
      }
      forall i | 0 <= i < |rows| && MergeRow(rows[i], dates, cover, fmtCell).Some?
        ensures i in idx
      {
        if i < n {
          assert init[i] == rows[i];
          assert i in prevIdx;
        }
      }
    }
  }

  /** `covers`: for each offset of 0, 5 and 10 minutes, look up the cloud cover of that minute's image. */
  method ComputeCovers<C>(dt: DateTime, cover: string -> Option<C>) returns (covers: seq<Option<C>>)
    requires IsDatetime(dt) && IsObservationTime(dt)
    ensures |covers| == 3
    ensures forall k :: 0 <= k < 3 ==>
              covers[k] == cover(Filename(DateTime(dt.year, dt.month, dt.day, dt.hour, 5 * k)))
  {
    covers := [];
    for k := 0 to |Offsets|
      invariant |covers| == k
      invariant forall j :: 0 <= j < k ==> covers[j] == cover(CoverFile(dt, j))
    {
      var minutes := Offsets[k];
      NoCarry(dt, minutes);
      var dtI := AddMinutes(dt, minutes);
      covers := covers + [cover(Filename(dtI))];
    }
  }

  lemma MergedStep<C>(rows: seq<Row>, i: nat, dates: seq<Date>, cover: string -> Option<C>, fmtCell: C -> string)
    requires i < |rows|
    ensures Merged(rows[..i + 1], dates, cover, fmtCell)
              == Merged(rows[..i], dates, cover, fmtCell) + Emitted(MergeRow(rows[i], dates, cover, fmtCell))
  {
    assert rows[..i + 1][..i] == rows[..i];
  }

  /** The row loop: reads `rows` in order and returns the rows written. */
  method MergeRows<C>(rows: seq<Row>, dates: seq<Date>, cover: string -> Option<C>, fmtCell: C -> string)
    returns (out: seq<Row>)
    ensures out == Merged(rows, dates, cover, fmtCell)
  {
    out := [];
    for i := 0 to |rows|
      invariant out == Merged(rows[..i], dates, cover, fmtCell)
    {
      MergedStep(rows, i, dates, cover, fmtCell);
      var row := rows[i];
      if |row| == 0 {
        continue;
      }
      if row[0] in MetadataKeys {
        out := out + [row + CoverLabels];
        continue;
      }
      var parsed := Parse(row[0]);
      if parsed.None? {
        continue;
      }
      var dt := parsed.value;
      if DateOf(dt) !in dates {
        continue;
      }
      var hhmm := HourMinute(dt);
      if hhmm !in ObservationTimes {
        continue;
      }
      ObservationTimeIff(dt);
      var covers := ComputeCovers(dt, cover);
      var cells := seq(|covers|, k requires 0 <= k < |covers| => FormatCover(covers[k], fmtCell));
      assert cells == CoverCells(dt, cover, fmtCell) by {
        forall k | 0 <= k < 3 ensures cells[k] == CoverCells(dt, cover, fmtCell)[k] {
          assert covers[k] == cover(CoverFile(dt, k));
        }
      }
      assert MergeRow(row, dates, cover, fmtCell) == Some(row + cells);
      out := out + [row + cells];
    }
    assert rows[..|rows|] == rows;
  }
}
