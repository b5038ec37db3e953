/**
 * `_ensure_images_downloaded`: create the image directory if needed and call
 * the downloader for the whole date range unless some file in the directory
 * already has a `.jpg` extension (in any letter case).
 *
 * The downloader is foreign code; its effect is modelled by the names it
 * adds to the directory (`fetched`) and by a record of each call made to it.
 */
module Acquisition {
  import opened Digits
  import opened Calendar

  function LowerChar(c: char): char {
    if 'A' <= c <= 'Z' then (c as int + 32) as char else c
  }

  /** `s.lower()` on ASCII letters. */
  function Lower(s: string): (r: string)
    ensures |r| == |s|
  {
    seq(|s|, i requires 0 <= i < |s| => LowerChar(s[i]))
  }

  /** Whether a listed name, lower-cased, ends with the `.jpg` extension. */
  predicate IsJpgName(name: string): (r: bool)
    ensures r ==> |name| >= 4 && name[|name| - 4] == '.'
  {
    var l := Lower(name);
    assert |l| >= 4 ==> l[|l| - 4] == l[|l| - 4..][0];
    |l| >= 4 && l[|l| - 4..] == ".jpg"
  }

  /** Whether any listed name is a `.jpg` image. */
  predicate HasAnyJpg(names: seq<string>): (r: bool)
    ensures names == [] ==> !r
    ensures r ==> exists i :: 0 <= i < |names| && |names[i]| >= 4 && names[i][|names[i]| - 4] == '.'
  {
    exists i :: 0 <= i < |names| && IsJpgName(names[i])
  }

  /** A name counts as an image exactly when it ends in a dot and j, p, g, each in either case. */
  lemma IsJpgNameIff(name: string)
    ensures IsJpgName(name) <==>
              && |name| >= 4 && name[|name| - 4] == '.'
              && (name[|name| - 3] == 'j' || name[|name| - 3] == 'J')
              && (name[|name| - 2] == 'p' || name[|name| - 2] == 'P')
              && (name[|name| - 1] == 'g' || name[|name| - 1] == 'G')
  {
    var l := Lower(name);
    if |name| >= 4 {
      var n := |name|;
      assert l[n - 4..] == [l[n - 4], l[n - 3], l[n - 2], l[n - 1]];
    }
  }

  /** Upper-case extensions count; other extensions and a bare `jpg` do not. */
  lemma JpgNameExamples()
    ensures IsJpgName("2019-05-23-09-00-0.jpg") && IsJpgName("X.JPG")
    ensures !IsJpgName("x.jpeg") && !IsJpgName("jpg")
  {
    IsJpgNameIff("2019-05-23-09-00-0.jpg");
    IsJpgNameIff("X.JPG");
    IsJpgNameIff("x.jpeg");
  }

  /** Once an image is listed, it stays listed whatever else the downloader adds. */
  lemma {:induction false} JpgStaysPresent(names: seq<string>, fetched: seq<string>)
    requires HasAnyJpg(names) || HasAnyJpg(fetched)
    ensures HasAnyJpg(names + fetched)
  {
    if HasAnyJpg(names) {
      var i :| 0 <= i < |names| && IsJpgName(names[i]);
      assert (names + fetched)[i] == names[i];
    } else {
      var i :| 0 <= i < |fetched| && IsJpgName(fetched[i]);
      assert (names + fetched)[|names| + i] == fetched[i];
    }
  }

  /** `date.isoformat()`: `YYYY-MM-DD`. */
  function IsoFormat(d: Date): (s: string)
    requires IsDate(d)
    ensures |s| == 10 && s[4] == '-' && s[7] == '-'
  {
    Pad4(d.year) + "-" + Pad2(d.month) + "-" + Pad2(d.day)
  }

  /** The ISO string reads back as the date: zero-padded year, month and day between the hyphens. */
  lemma IsoFormatFields(d: Date)
    requires IsDate(d)
    ensures var s := IsoFormat(d);
            && |s| == 10 && s[4] == '-' && s[7] == '-'
            && AllDigits(s[..4]) && DecimalValue(s[..4]) == d.year
            && AllDigits(s[5..7]) && DecimalValue(s[5..7]) == d.month
            && AllDigits(s[8..]) && DecimalValue(s[8..]) == d.day
  {
    var s := IsoFormat(d);
    assert s[..4] == Pad4(d.year);
    assert s[5..7] == Pad2(d.month);
    assert s[8..] == Pad2(d.day);
    Pad4Decodes(d.year);
    Pad2Decodes(d.month);
    Pad2Decodes(d.day);
  }

  /** Different dates are passed to the downloader as different strings. */
  lemma IsoFormatInjective(a: Date, b: Date)
    requires IsDate(a) && IsDate(b)
    ensures IsoFormat(a) == IsoFormat(b) <==> a == b
  {
    IsoFormatFields(a);
    IsoFormatFields(b);
  }

  /** One call `download_sky_camera_images(start, end)`. */
  datatype DownloadCall = DownloadCall(start: string, end: string)

  /** The image directory, as far as the acquisition decision sees it. */
  class ImageDirectory {
    /** Whether the directory exists. */
    var present: bool
    /** What `os.listdir` returns. */
    var names: seq<string>
    /** Every call made to the downloader so far, oldest first. */
    var downloads: seq<DownloadCall>

    /** A missing directory lists nothing. */
    ghost predicate Valid()
      reads this
    {
      !present ==> names == []
    }

    constructor (present: bool, names: seq<string>)
      requires present || names == []
      ensures Valid()
      ensures this.present == present && this.names == names && downloads == []
    {
      this.present := present;
      this.names := names;
      this.downloads := [];
    }

    /**
     * `_ensure_images_downloaded(start, end)`: afterwards the directory
     * exists; the downloader was called once with the ISO dates, and its
     * names added, exactly when no listed name was a `.jpg` before.
     */
    method EnsureImagesDownloaded(start: Date, end: Date, fetched: seq<string>)
      requires Valid() && IsDate(start) && IsDate(end)
      modifies this
      ensures Valid() && present
      ensures HasAnyJpg(old(names)) ==> names == old(names) && downloads == old(downloads)
      ensures !HasAnyJpg(old(names)) ==>
                && names == old(names) + fetched
                && downloads == old(downloads) + [DownloadCall(IsoFormat(start), IsoFormat(end))]
    {
      present := true;
      var hasAny := HasAnyJpg(names);
      if hasAny {
        return;
      }
      downloads := downloads + [DownloadCall(IsoFormat(start), IsoFormat(end))];
      names := names + fetched;
    }
  }

  /**
   * Running the acquisition twice has the effect of running it once when
   * the first run leaves an image behind (it found one, or the downloader
   * stored one): the second run calls nothing and changes nothing.
   */
  method EnsureTwice(dir: ImageDirectory, start: Date, end: Date, first: seq<string>, second: seq<string>)
    requires dir.Valid() && IsDate(start) && IsDate(end)
    requires HasAnyJpg(dir.names) || HasAnyJpg(first)
    modifies dir
    ensures dir.Valid() && dir.present
    ensures dir.downloads == old(dir.downloads)
              + (if HasAnyJpg(old(dir.names)) then [] else [DownloadCall(IsoFormat(start), IsoFormat(end))])
    ensures dir.names == old(dir.names) + (if HasAnyJpg(old(dir.names)) then [] else first)
  {
    dir.EnsureImagesDownloaded(start, end, first);
    assert HasAnyJpg(dir.names) by {
      if !HasAnyJpg(old(dir.names)) {
        JpgStaysPresent(old(dir.names), first);
      } else {
        assert old(dir.names) + [] == old(dir.names);
      }
    }
    dir.EnsureImagesDownloaded(start, end, second);
  }
}