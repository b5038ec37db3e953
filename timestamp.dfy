/**
 * The meteoblue timestamp cell `YYYYMMDDTHHMM` (e.g. `20190523T0900`):
 * the `represents_int` pre-filter, the strict `strptime` parse and the
 * parser `_parse_meteoblue_datetime` that combines them.
 */
module Timestamp {
  import opened Wrappers
  import opened Digits
  import opened Calendar

  // ---------------------------------------------------------------------
  // represents_int: does Python's int() accept the string?
  // ---------------------------------------------------------------------

  /** The ASCII characters `str.isspace()` accepts, which `int()` strips around a number. */
  predicate IsSpace(c: char) {
    c as int == 32 || 9 <= c as int <= 13 || 28 <= c as int <= 31
  }

  function StripLeading(s: string): string {
    if |s| > 0 && IsSpace(s[0]) then StripLeading(s[1..]) else s
  }

  function StripTrailing(s: string): string {
    if |s| > 0 && IsSpace(s[|s| - 1]) then StripTrailing(s[..|s| - 1]) else s
  }

  /** Stripping leading blanks leaves a suffix, and only blanks were dropped. */
  lemma {:induction false} StripLeadingSuffix(s: string)
    ensures var r := StripLeading(s);
            && |r| <= |s| && r == s[|s| - |r|..]
            && forall i :: 0 <= i < |s| - |r| ==> IsSpace(s[i])
  {
    if |s| > 0 && IsSpace(s[0]) {
      StripLeadingSuffix(s[1..]);
      var r := StripLeading(s);
      forall i | 1 <= i < |s| - |r| ensures IsSpace(s[i]) {
        assert s[i] == s[1..][i - 1];
      }
    }
  }

  /** Stripping trailing blanks leaves a prefix, and only blanks were dropped. */
  lemma {:induction false} StripTrailingPrefix(s: string)
    ensures var r := StripTrailing(s);
            && |r| <= |s| && r == s[..|r|]
            && forall i :: |r| <= i < |s| ==> IsSpace(s[i])
  {
    if |s| > 0 && IsSpace(s[|s| - 1]) {
      var p := s[..|s| - 1];
      StripTrailingPrefix(p);
      var r := StripTrailing(s);
      assert r == p[..|r|];
      forall i | |r| <= i < |s| - 1 ensures IsSpace(s[i]) {
        assert s[i] == p[i];
      }
    }
  }

  /** Decimal digits in groups joined by single underscores, as `int("1_000")` accepts. */
  predicate IsDigitGroups(u: string) {
    && |u| > 0
    && IsDigit(u[0])
    && IsDigit(u[|u| - 1])
    && (forall i :: 0 <= i < |u| ==> IsDigit(u[i]) || u[i] == '_')
    && (forall i :: 0 <= i < |u| - 1 ==> u[i] == '_' ==> u[i + 1] != '_')
  }

  /** `represents_int(s)`: `int(s)` succeeds, i.e. surrounding whitespace, an optional sign, then digit groups. */
  predicate RepresentsInt(s: string) {
    var t := StripTrailing(StripLeading(s));
    var u := if |t| > 0 && (t[0] == '+' || t[0] == '-') then t[1..] else t;
    IsDigitGroups(u)
  }

  /**
   * What `int()` accepts holds at least one digit, and nothing but digits,
   * blanks, signs and underscores.
   */
  lemma RepresentsIntChars(s: string)
    requires RepresentsInt(s)
    ensures exists i :: 0 <= i < |s| && IsDigit(s[i])
    ensures forall i :: 0 <= i < |s| ==> IsIntChar(s[i])
  {
    var l := StripLeading(s);
    var t := StripTrailing(l);
    var u := if |t| > 0 && (t[0] == '+' || t[0] == '-') then t[1..] else t;
    StripLeadingSuffix(s);
    StripTrailingPrefix(l);
    var a := |s| - |l|;
    var k := |t| - |u|;
    assert s[a + k] == u[0];
    forall i | 0 <= i < |s| ensures IsIntChar(s[i]) {
      if i < a {
      } else if i < a + |t| {
        assert s[i] == l[i - a] == t[i - a];
        if i - a >= k {
          assert t[i - a] == u[i - a - k];
        }
      } else {
        assert s[i] == l[i - a];
      }
    }
  }

  /** The characters an int literal may hold: digits, blanks, a sign, underscores. */
  predicate IsIntChar(c: char) {
    IsDigit(c) || IsSpace(c) || c == '+' || c == '-' || c == '_'
  }

  // ---------------------------------------------------------------------
  // strptime(cell[:13], "%Y%m%dT%H%M")
  // ---------------------------------------------------------------------

  /** The format's literal `T`; strptime matches it ignoring case. */
  predicate IsSeparator(c: char) { c == 'T' || c == 't' }

  /** The two characters `%d` can consume: two digits, or a blank and a non-zero digit. */
  predicate IsDayField(f: string)
    requires |f| == 2
  {
    AllDigits(f) || (f[0] == ' ' && '1' <= f[1] <= '9')
  }

  function DayFieldValue(f: string): nat
    requires |f| == 2 && IsDayField(f)
  {
    if f[0] == ' ' then DigitValue(f[1]) else DecimalValue(f)
  }

  /** The only way the format's pattern can consume all thirteen characters. */
  predicate IsLayout(t: string)
    requires |t| == 13
  {
    && AllDigits(t[..4])
    && AllDigits(t[4..6])
    && IsDayField(t[6..8])
    && IsSeparator(t[8])
    && AllDigits(t[9..11])
    && AllDigits(t[11..])
  }

  /**
   * `datetime.strptime(t, "%Y%m%dT%H%M")` on a 13-character string: the
   * fields must fill the string exactly, the month be 01-12, the day exist
   * in that month of that year, the hour be 00-23, the minute 00-59 and the
   * year at least 1; anything else is a ValueError, here None.
   */
  function Strptime13(t: string): (r: Option<DateTime>)
    requires |t| == 13
    ensures r.Some? ==> IsDatetime(r.value)
  {
    if !IsLayout(t) then None
    else
      Pad4OfDecimal(t[..4]);
      var dt := DateTime(DecimalValue(t[..4]), DecimalValue(t[4..6]), DayFieldValue(t[6..8]),
                         DecimalValue(t[9..11]), DecimalValue(t[11..]));
      if ValidDateTime(dt) then Some(dt) else None
  }

  // ---------------------------------------------------------------------
  // _parse_meteoblue_datetime
  // ---------------------------------------------------------------------

  /** `_parse_meteoblue_datetime(cell)`: None for every malformed cell, never an exception. */
  function Parse(cell: string): (r: Option<DateTime>)
    ensures |cell| < 13 ==> r == None
    ensures |cell| >= 13 && !RepresentsInt(cell[..8]) ==> r == None
    ensures r.Some? ==> IsDatetime(r.value)
  {
    if |cell| == 0 || |cell| < 13 then None
    else if !RepresentsInt(cell[..8]) then None
    else Strptime13(cell[..13])
  }

  /** The canonical cell for a date-time: `f"{dt:%Y%m%dT%H%M}"`. */
  function Format13(dt: DateTime): (s: string)
    requires IsDatetime(dt)
    ensures |s| == 13
  {
    Pad4(dt.year) + Pad2(dt.month) + Pad2(dt.day) + "T" + Pad2(dt.hour) + Pad2(dt.minute)
  }

  // ---------------------------------------------------------------------
  // Properties
  // ---------------------------------------------------------------------

  /** A non-empty run of plain digits is always an int to Python. */
  lemma DigitsRepresentInt(s: string)
    requires |s| > 0 && AllDigits(s)
    ensures RepresentsInt(s)
  {
    assert StripLeading(s) == s;
    assert StripTrailing(s) == s;
  }

  /** A blank inside the digits is not an int to Python, though `%d` would accept it. */
  lemma {:induction false} SpacePaddedDayIsNotInt(s: string)
    requires |s| == 8 && AllDigits(s[..6]) && s[6] == ' ' && IsDigit(s[7])
    ensures !RepresentsInt(s)
  {
    assert IsDigit(s[..6][0]);
    assert StripLeading(s) == s;
    assert StripTrailing(s) == s;
  }

  /**
   * The pre-filter only matters in one way: a cell whose date part is not
   * eight digits is rejected even where strptime alone would accept it.
   * Whatever else `int()` tolerates (signs, blanks, underscores) strptime
   * rejects anyway.
   */
  lemma {:induction false} PrefilterEffect(s: string)
    requires |s| >= 13
    ensures Parse(s) == if AllDigits(s[..8]) then Strptime13(s[..13]) else None
  {
    var t := s[..13];
    assert t[..8] == s[..8];
    if AllDigits(s[..8]) {
      DigitsRepresentInt(s[..8]);
    } else if Strptime13(t).Some? {
      assert IsLayout(t);
      var f := t[6..8];
      if AllDigits(f) {
        forall i | 0 <= i < 8 ensures IsDigit(s[i]) {
          if i < 4 { assert s[i] == t[..4][i]; }
          else if i < 6 { assert s[i] == t[4..6][i - 4]; }
          else { assert s[i] == f[i - 6]; }
        }
        assert false;
      } else {
        forall i | 0 <= i < 6 ensures IsDigit(s[..8][..6][i]) {
          if i < 4 { assert s[i] == t[..4][i]; }
          else { assert s[i] == t[4..6][i - 4]; }
        }
        assert s[..8][6] == f[0] && s[..8][7] == f[1];
        SpacePaddedDayIsNotInt(s[..8]);
      }
    }
  }

  /** The strict parse of a cell whose layout is the canonical one. */
  lemma {:induction false} Strptime13Fields(t: string)
    requires |t| == 13 && AllDigits(t[..8]) && IsSeparator(t[8]) && AllDigits(t[9..])
    ensures IsLayout(t)
    ensures var dt := DateTime(DecimalValue(t[..4]), DecimalValue(t[4..6]), DecimalValue(t[6..8]),
                               DecimalValue(t[9..11]), DecimalValue(t[11..]));
            Strptime13(t) == if ValidDateTime(dt) then Some(dt) else None
  {
    assert t[..4] == t[..8][..4] && t[4..6] == t[..8][4..6] && t[6..8] == t[..8][6..];
    assert t[9..11] == t[9..][..2] && t[11..] == t[9..][2..];
  }

  /** Where each field sits in the canonical cell. */
  lemma Format13Fields(dt: DateTime)
    requires IsDatetime(dt)
    ensures var f := Format13(dt);
            && f[..4] == Pad4(dt.year) && f[4..6] == Pad2(dt.month) && f[6..8] == Pad2(dt.day)
            && f[8] == 'T' && f[9..11] == Pad2(dt.hour) && f[11..] == Pad2(dt.minute)
  {
  }

  /** Whatever the parser accepts is a canonical cell, up to the separator's case, followed by anything. */
  lemma {:induction false} ParseSound(s: string)
    requires Parse(s).Some?
    ensures var dt := Parse(s).value;
            && IsDatetime(dt) && |s| >= 13 && IsSeparator(s[8])
            && Format13(dt)[..8] == s[..8] && Format13(dt)[9..] == s[9..13]
  {
    var dt := Parse(s).value;
    PrefilterEffect(s);
    var t := s[..13];
    assert t[..8] == s[..8] && t[9..] == s[9..13] && t[8] == s[8];
    assert AllDigits(t[..8]) && IsLayout(t);
    assert AllDigits(t[6..8]) by {
      forall i | 0 <= i < 2 ensures IsDigit(t[6..8][i]) {
        assert t[6..8][i] == t[..8][i + 6];
      }
    }
    assert AllDigits(t[9..]) by {
      forall i | 0 <= i < 4 ensures IsDigit(t[9..][i]) {
        if i < 2 { assert t[9..][i] == t[9..11][i]; }
        else { assert t[9..][i] == t[11..][i - 2]; }
      }
    }
    Strptime13Fields(t);
    Pad4OfDecimal(t[..4]);
    Pad2OfDecimal(t[4..6]);
    Pad2OfDecimal(t[6..8]);
    Pad2OfDecimal(t[9..11]);
    Pad2OfDecimal(t[11..]);
    Format13Fields(dt);
    var f := Format13(dt);
    assert f[..8] == f[..4] + f[4..6] + f[6..8];
    assert t[..8] == t[..4] + t[4..6] + t[6..8];
    assert f[9..] == f[9..11] + f[11..];
    assert t[9..] == t[9..11] + t[11..];
  }

  /** The fields of a canonical 13-character cell are digits that read back as the date-time's fields. */
  lemma CanonicalCellFields(t: string, dt: DateTime)
    requires IsDatetime(dt) && |t| == 13
    requires Format13(dt)[..8] == t[..8] && Format13(dt)[9..] == t[9..]
    ensures AllDigits(t[..8]) && AllDigits(t[9..])
    ensures DecimalValue(t[..4]) == dt.year && DecimalValue(t[4..6]) == dt.month
    ensures DecimalValue(t[6..8]) == dt.day && DecimalValue(t[9..11]) == dt.hour
    ensures DecimalValue(t[11..]) == dt.minute
  {
    var f := Format13(dt);
    Format13Fields(dt);
    assert f[..8] == Pad4(dt.year) + Pad2(dt.month) + Pad2(dt.day);
    assert f[9..] == Pad2(dt.hour) + Pad2(dt.minute);
    assert t[..4] == t[..8][..4] == f[..8][..4] == f[..4];
    assert t[4..6] == t[..8][4..6] == f[..8][4..6] == f[4..6];
    assert t[6..8] == t[..8][6..] == f[..8][6..] == f[6..8];
    assert t[9..11] == t[9..][..2] == f[9..][..2] == f[9..11];
    assert t[11..] == t[9..][2..] == f[9..][2..] == f[11..];
    Pad4Decodes(dt.year);
    Pad2Decodes(dt.month);
    Pad2Decodes(dt.day);
    Pad2Decodes(dt.hour);
    Pad2Decodes(dt.minute);
  }

  /** Every canonical cell, with either separator case and any suffix, is accepted with its own value. */
  lemma {:induction false} ParseComplete(s: string, dt: DateTime)
    requires IsDatetime(dt) && |s| >= 13 && IsSeparator(s[8])
    requires Format13(dt)[..8] == s[..8] && Format13(dt)[9..] == s[9..13]
    ensures Parse(s) == Some(dt)
  {
    var t := s[..13];
    assert t[..8] == s[..8] && t[9..] == s[9..13] && t[8] == s[8];
    CanonicalCellFields(t, dt);
    PrefilterEffect(s);
    Strptime13Fields(t);
  }

  /**
   * What the parser accepts, exactly: `Parse(s)` is `dt` if and only if `dt`
   * is a datetime and `s` starts with `dt`'s canonical 13-character cell, up
   * to the case of the separator; the characters after the 13th are ignored.
   */
  lemma ParseCharacterization(s: string, dt: DateTime)
    ensures Parse(s) == Some(dt) <==>
              && IsDatetime(dt) && |s| >= 13 && IsSeparator(s[8])
              && Format13(dt)[..8] == s[..8] && Format13(dt)[9..] == s[9..13]
  {
    if Parse(s) == Some(dt) {
      ParseSound(s);
    } else if IsDatetime(dt) && |s| >= 13 && IsSeparator(s[8])
              && Format13(dt)[..8] == s[..8] && Format13(dt)[9..] == s[9..13] {
      ParseComplete(s, dt);
    }
  }

  /** Round trip: a formatted cell, followed by anything, parses back to the same date-time. */
  lemma ParseFormat(dt: DateTime, suffix: string)
    requires IsDatetime(dt)
    ensures Parse(Format13(dt) + suffix) == Some(dt)
  {
    var s := Format13(dt) + suffix;
    assert s[..8] == Format13(dt)[..8] && s[9..13] == Format13(dt)[9..] && s[8] == 'T';
    ParseCharacterization(s, dt);
  }

  /**
   * A cell laid out as eight digits, a separator and four digits is accepted
   * exactly when its fields make a datetime: month 01-12, a day that exists
   * in that month (leap years included), hour 00-23, minute 00-59, year from
   * 0001; month 13, 30 February 2019, hour 24, minute 60 and year 0000 are
   * all turned away.
   */
  lemma {:induction false} ParseDigitCell(s: string)
    requires |s| >= 13 && IsSeparator(s[8])
    requires AllDigits(s[..4]) && AllDigits(s[4..6]) && AllDigits(s[6..8])
    requires AllDigits(s[9..11]) && AllDigits(s[11..13])
    ensures var dt := DateTime(DecimalValue(s[..4]), DecimalValue(s[4..6]), DecimalValue(s[6..8]),
                               DecimalValue(s[9..11]), DecimalValue(s[11..13]));
            Parse(s) == if ValidDateTime(dt) then Some(dt) else None
  {
    assert AllDigits(s[..8]) by {
      forall i | 0 <= i < 8 ensures IsDigit(s[i]) {
        if i < 4 { assert s[i] == s[..4][i]; }
        else if i < 6 { assert s[i] == s[4..6][i - 4]; }
        else { assert s[i] == s[6..8][i - 6]; }
      }
    }
    assert AllDigits(s[9..13]) by {
      forall i | 9 <= i < 13 ensures IsDigit(s[i]) {
        if i < 11 { assert s[i] == s[9..11][i - 9]; }
        else { assert s[i] == s[11..13][i - 11]; }
      }
    }
    PrefilterEffect(s);
    var t := s[..13];
    assert t[..8] == s[..8] && t[9..] == s[9..13];
    Strptime13Fields(t);
    assert t[..4] == s[..4] && t[4..6] == s[4..6] && t[6..8] == s[6..8];
    assert t[9..11] == s[9..11] && t[11..] == s[11..13];
  }

  /** Strptime alone reads a blank-padded day as that day. */
  lemma BlankDayStrptime()
    ensures Strptime13("201905 5T0900") == Some(DateTime(2019, 5, 5, 9, 0))
  {
    var s := "201905 5T0900";
    assert s[..4] == "2019" && s[4..6] == "05" && s[6..8] == " 5" && s[9..11] == "09" && s[11..] == "00";
    DecimalValue4("2019");
    assert "2019"[..2] == "20" && "2019"[2..] == "19";
    DecimalValue2("20");
    DecimalValue2("19");
    DecimalValue2("05");
    DecimalValue2("09");
    DecimalValue2("00");
    assert IsLayout(s);
  }

  /** A blank-padded day, which strptime alone accepts, is turned away by the pre-filter. */
  lemma PrefilterRejectsBlankDay()
    ensures Strptime13("201905 5T0900") == Some(DateTime(2019, 5, 5, 9, 0))
    ensures Parse("201905 5T0900") == None
  {
    BlankDayStrptime();
    var s := "201905 5T0900";
    assert !AllDigits(s[..8]) by { assert !IsDigit(s[..8][6]); }
    PrefilterEffect(s);
  }
}
