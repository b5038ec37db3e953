/**
 * `_sky_image_filename`: the name under which the image downloader stores
 * the sky-camera capture taken at a given minute, `YYYY-MM-DD-HH-MM-0.jpg`.
 */
module SkyImage {
  import opened Digits
  import opened Calendar

  /** The image name: zero-padded year, month, day, hour and minute joined by hyphens, then `-0.jpg`. */
  function Filename(dt: DateTime): (name: string)
    requires IsDatetime(dt)
    ensures |name| == 22 && name[16..] == "-0.jpg"
  {
    Pad4(dt.year) + "-" + Pad2(dt.month) + "-" + Pad2(dt.day) + "-"
      + Pad2(dt.hour) + "-" + Pad2(dt.minute) + "-0.jpg"
  }

  /**
   * The name reads back, field by field in year-month-day-hour-minute order,
   * as zero-padded digit fields separated by hyphens.
   */
  lemma {:induction false} FilenameFields(dt: DateTime)
    requires IsDatetime(dt)
    ensures var name := Filename(dt);
            && name[4] == '-' && name[7] == '-' && name[10] == '-' && name[13] == '-'
            && AllDigits(name[..4]) && DecimalValue(name[..4]) == dt.year
            && AllDigits(name[5..7]) && DecimalValue(name[5..7]) == dt.month
            && AllDigits(name[8..10]) && DecimalValue(name[8..10]) == dt.day
            && AllDigits(name[11..13]) && DecimalValue(name[11..13]) == dt.hour
            && AllDigits(name[14..16]) && DecimalValue(name[14..16]) == dt.minute
  {
    var name := Filename(dt);
    var date := Pad4(dt.year) + "-" + Pad2(dt.month) + "-" + Pad2(dt.day) + "-";
    var time := Pad2(dt.hour) + "-" + Pad2(dt.minute) + "-0.jpg";
    assert name == date + time;
    assert name[..4] == date[..4] && name[5..7] == date[5..7] && name[8..10] == date[8..10];
    assert name[11..13] == time[..2];
    assert name[14..16] == time[3..5];
    assert name[..4] == Pad4(dt.year);
    assert name[5..7] == Pad2(dt.month);
    assert name[8..10] == Pad2(dt.day);
    assert name[11..13] == Pad2(dt.hour);
    assert name[14..16] == Pad2(dt.minute);
    Pad4Decodes(dt.year);
    Pad2Decodes(dt.month);
    Pad2Decodes(dt.day);
    Pad2Decodes(dt.hour);
    Pad2Decodes(dt.minute);
  }

  /** Distinct capture minutes never share an image name. */
  lemma FilenameInjective(a: DateTime, b: DateTime)
    requires IsDatetime(a) && IsDatetime(b) && Filename(a) == Filename(b)
    ensures a == b
  {
    FilenameFields(a);
    FilenameFields(b);
  }
}
