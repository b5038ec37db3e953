/**
 * The inclusive date range of `main`: starting from the first date, the
 * loop appends the current date and steps one day on while it is not past
 * the last date.
 */
module DateRange {
  import opened Calendar

  /** How many dates the inclusive range holds; none when it is empty. */
  function SpanLength(start: Date, end: Date): nat
    requires ValidDate(start) && ValidDate(end)
  {
    if Ordinal(start) <= Ordinal(end) then Ordinal(end) - Ordinal(start) + 1 else 0
  }

  /** The first n days from `start` on, one day apart. */
  function DaysFrom(start: Date, n: nat): seq<Date>
    requires ValidDate(start)
  {
    if n == 0 then [] else DaysFrom(start, n - 1) + [AddDays(start, n - 1)]
  }

  /** Every date from `start` through `end`, in order. */
  function DateSpan(start: Date, end: Date): seq<Date>
    requires ValidDate(start) && ValidDate(end)
  {
    DaysFrom(start, SpanLength(start, end))
  }

  lemma {:induction false} DaysFromAt(start: Date, n: nat, i: nat)
    requires ValidDate(start) && i < n
    ensures |DaysFrom(start, n)| == n && DaysFrom(start, n)[i] == AddDays(start, i)
  {
    if i < n - 1 {
      DaysFromAt(start, n - 1, i);
    } else if n > 1 {
      DaysFromAt(start, n - 1, 0);
    }
  }

  /** The range has the expected length, and its i-th date is i days after `start`. */
  lemma DateSpanOrdinals(start: Date, end: Date)
    requires ValidDate(start) && ValidDate(end)
    ensures var s := DateSpan(start, end);
            && |s| == SpanLength(start, end)
            && (forall i :: 0 <= i < |s| ==> ValidDate(s[i]) && Ordinal(s[i]) == Ordinal(start) + i)
  {
    var s := DateSpan(start, end);
    var n := SpanLength(start, end);
    if n > 0 {
      DaysFromAt(start, n, 0);
      forall i | 0 <= i < n
        ensures ValidDate(s[i]) && Ordinal(s[i]) == Ordinal(start) + i
      {
        DaysFromAt(start, n, i);
        AddDaysOrdinal(start, i);
      }
    }
  }

  /** The i-th date of the range is `start` plus i days, so each is the day after the one before it. */
  lemma DateSpanSteps(start: Date, end: Date)
    requires ValidDate(start) && ValidDate(end)
    ensures var s := DateSpan(start, end);
            && (forall i :: 0 <= i < |s| ==> s[i] == AddDays(start, i))
            && (forall i :: 0 < i < |s| ==> s[i] == NextDay(s[i - 1]))
  {
    var s := DateSpan(start, end);
    var n := SpanLength(start, end);
    if n > 0 {
      DaysFromAt(start, n, 0);
      forall i | 0 <= i < n
        ensures s[i] == AddDays(start, i)
      {
        DaysFromAt(start, n, i);
      }
    }
  }

  /**
   * The range, element by element: the i-th date is i days after `start`,
   * the first is `start`, the last is `end`, each is the day after the one
   * before it, and the dates strictly increase.
   */
  lemma DateSpanShape(start: Date, end: Date)
    requires ValidDate(start) && ValidDate(end)
    ensures var s := DateSpan(start, end);
            && |s| == SpanLength(start, end)
            && (forall i :: 0 <= i < |s| ==> ValidDate(s[i]) && Ordinal(s[i]) == Ordinal(start) + i)
            && (|s| > 0 ==> s[0] == start && s[|s| - 1] == end)
            && (forall i :: 0 < i < |s| ==> s[i] == NextDay(s[i - 1]))
            && (forall i, j :: 0 <= i < j < |s| ==> Before(s[i], s[j]))
  {
    var s := DateSpan(start, end);
    DateSpanOrdinals(start, end);
    DateSpanSteps(start, end);
    var n := |s|;
    if n > 0 {
      OrdinalOrder(s[0], start);
      OrdinalOrder(s[n - 1], end);
    }
    forall i, j | 0 <= i < j < n
      ensures Before(s[i], s[j])
    {
      OrdinalOrder(s[i], s[j]);
    }
  }

  /** A date is in the range exactly when it lies between `start` and `end`, both included. */
  lemma {:induction false} DateSpanMembership(start: Date, end: Date, d: Date)
    requires ValidDate(start) && ValidDate(end)
    ensures d in DateSpan(start, end) <==> ValidDate(d) && AtMost(start, d) && AtMost(d, end)
  {
    var s := DateSpan(start, end);
    DateSpanShape(start, end);
    if d in s {
      var i :| 0 <= i < |s| && s[i] == d;
      OrdinalOrder(start, d);
      OrdinalOrder(d, end);
    } else if ValidDate(d) && AtMost(start, d) && AtMost(d, end) {
      OrdinalOrder(start, d);
      OrdinalOrder(d, end);
      var i := Ordinal(d) - Ordinal(start);
      OrdinalOrder(s[i], d);
      assert false;
    }
  }

  /** The date loop: while the current date is not past `end`, record it and step one day on. */
  method ExpandDates(start: Date, end: Date) returns (dates: seq<Date>)
    requires ValidDate(start) && ValidDate(end)
    ensures dates == DateSpan(start, end)
    ensures dates == [] <==> Before(end, start)
    ensures |dates| > 0 ==> dates[0] == start && dates[|dates| - 1] == end
  {
    dates := [];
    var cur := start;
    OrdinalOrder(cur, end);
    while AtMost(cur, end)
      invariant ValidDate(cur)
      invariant cur == AddDays(start, |dates|)
      invariant dates == DaysFrom(start, |dates|)
      invariant |dates| <= SpanLength(start, end)
      invariant Ordinal(cur) == Ordinal(start) + |dates|
      decreases Ordinal(end) - Ordinal(cur)
    {
      OrdinalOrder(cur, end);
      dates := dates + [cur];
      NextDayOrdinal(cur);
      cur := NextDay(cur);
    }
    OrdinalOrder(cur, end);
    OrdinalOrder(end, start);
    DateSpanShape(start, end);
  }
}
