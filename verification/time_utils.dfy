/**
  TimeUtils.java: durations in milliseconds (a Java long) as text such as
  "10 minutes and 6 seconds". The two largest units that apply are shown,
  the second one only when it is not zero.

  The date, clock, sleep and calendar helpers of the class are calls into
  the Java library and are not part of this model; a Date is represented
  by its getTime() value, and a null Date by None.
 */
module TimeUtils {
  import opened Nullable
  import opened Text

  /** Java's long division, which truncates toward zero. */
  function Quot(a: int, b: int): int
    requires b > 0
  {
    if a >= 0 then a / b else -((-a) / b)
  }

  /** The "s" added to a unit unless its count is exactly 1. */
  function Plural(n: int): string
  {
    if n != 1 then "s" else ""
  }

  /** A count and its unit, such as "3 seconds". */
  function Amount(n: int, unit: string): string
  {
    IntToString(n) + " " + unit + Plural(n)
  }

  /** A larger unit and, when its count is not zero, " and " a smaller one. */
  function Pair(a: int, aUnit: string, b: int, bUnit: string): string
  {
    if b > 0 then Amount(a, aUnit) + " and " + Amount(b, bUnit) else Amount(a, aUnit)
  }

  /**
    getExecutionDurationString(durInMillis): hours and minutes from one
    hour on, minutes and seconds from one minute on, seconds and
    milliseconds from one second on, and otherwise the milliseconds alone,
    where the plural test reads a variable that is still 0.
   */
  function Duration(d: int): string
  {
    var hours := Quot(Quot(Quot(d, 1000), 60), 60);
    if hours > 0 then
      Pair(hours, "hour", Quot(Quot(d, 1000), 60) - hours * 60, "minute")
    else if Quot(Quot(d, 1000), 60) > 0 then
      var minutes := Quot(Quot(d, 1000), 60);
      Pair(minutes, "minute", Quot(d, 1000) - minutes * 60, "second")
    else if Quot(d, 1000) > 0 then
      var seconds := Quot(d, 1000);
      Pair(seconds, "second", d - seconds * 1000, "millisecond")
    else
      var milliseconds := 0;
      IntToString(d) + " millisecond" + Plural(milliseconds)
  }

  /** The same text with the plural of the last branch decided by the count shown. */
  function DurationIntended(d: int): string
  {
    if Quot(d, 1000) > 0 then Duration(d) else IntToString(d) + " millisecond" + Plural(d)
  }

  /** d milliseconds as hours, minutes, seconds and milliseconds. */
  predicate Parts(d: int, h: nat, m: nat, s: nat, ms: nat)
  {
    m < 60 && s < 60 && ms < 1000 && d == ((h * 60 + m) * 60 + s) * 1000 + ms
  }

  lemma Div1000(a: int, q: int, r: int)
    requires a == q * 1000 + r && 0 <= r < 1000
    ensures a / 1000 == q
  {
  }

  lemma Div60(a: int, q: int, r: int)
    requires a == q * 60 + r && 0 <= r < 60
    ensures a / 60 == q
  {
  }

  /** The truncating quotients of a non-negative duration are its parts. */
  lemma QuotParts(d: int, h: nat, m: nat, s: nat, ms: nat)
    requires Parts(d, h, m, s, ms)
    ensures Quot(d, 1000) == (h * 60 + m) * 60 + s
    ensures Quot(Quot(d, 1000), 60) == h * 60 + m
    ensures Quot(Quot(Quot(d, 1000), 60), 60) == h
  {
    Div1000(d, (h * 60 + m) * 60 + s, ms);
    Div60((h * 60 + m) * 60 + s, h * 60 + m, s);
    Div60(h * 60 + m, h, m);
  }

  /** "n unit" when n is 1, "n units" otherwise. */
  function Counted(n: int, unit: string): string
  {
    if n == 1 then IntToString(n) + " " + unit else IntToString(n) + " " + unit + "s"
  }

  /** A pair of units, in terms of Counted. */
  lemma PairCounted(a: int, aUnit: string, b: int, bUnit: string)
    ensures Pair(a, aUnit, b, bUnit) == Counted(a, aUnit) + (if b > 0 then " and " + Counted(b, bUnit) else "")
  {
    assert Amount(a, aUnit) == Counted(a, aUnit);
    assert Amount(b, bUnit) == Counted(b, bUnit);
  }

  /** Which branch a duration takes, by its parts. */
  lemma DurationBranches(d: int, h: nat, m: nat, s: nat, ms: nat)
    requires Parts(d, h, m, s, ms)
    ensures h > 0 ==> Duration(d) == Pair(h, "hour", m, "minute")
    ensures h == 0 && m > 0 ==> Duration(d) == Pair(m, "minute", s, "second")
    ensures h == 0 && m == 0 && s > 0 ==> Duration(d) == Pair(s, "second", ms, "millisecond")
    ensures h == 0 && m == 0 && s == 0 ==> Duration(d) == IntToString(ms) + " milliseconds"
  {
    QuotParts(d, h, m, s, ms);
  }

  /**
    The forms of the text for a duration of h hours, m minutes, s seconds
    and ms milliseconds: the two largest units from the first one that is
    not zero, the smaller one left out when it is zero, each unit singular
    exactly when its count is 1 -- except below one second, where the text
    is always plural.
   */
  lemma DurationForms(d: int, h: nat, m: nat, s: nat, ms: nat)
    requires Parts(d, h, m, s, ms)
    ensures h > 0 ==> Duration(d) == Counted(h, "hour") + (if m > 0 then " and " + Counted(m, "minute") else "")
    ensures h == 0 && m > 0 ==> Duration(d) == Counted(m, "minute") + (if s > 0 then " and " + Counted(s, "second") else "")
    ensures h == 0 && m == 0 && s > 0 ==>
      Duration(d) == Counted(s, "second") + (if ms > 0 then " and " + Counted(ms, "millisecond") else "")
    ensures h == 0 && m == 0 && s == 0 ==> Duration(d) == IntToString(ms) + " milliseconds"
  {
    DurationBranches(d, h, m, s, ms);
    if h > 0 {
      PairCounted(h, "hour", m, "minute");
    } else if m > 0 {
      PairCounted(m, "minute", s, "second");
    } else if s > 0 {
      PairCounted(s, "second", ms, "millisecond");
    }
  }

  /** A negative duration (end before start) is shown as a negative number of milliseconds. */
  lemma NegativeDuration(d: int)
    requires d < 0
    ensures Duration(d) == IntToString(d) + " milliseconds"
  {
  }

  /** The corrected text: below one second, too, the unit is singular exactly for a count of 1. */
  lemma IntendedForms(d: int, h: nat, m: nat, s: nat, ms: nat)
    requires Parts(d, h, m, s, ms)
    ensures h + m + s > 0 ==> DurationIntended(d) == Duration(d)
    ensures h == 0 && m == 0 && s == 0 ==> DurationIntended(d) == Counted(ms, "millisecond")
  {
    QuotParts(d, h, m, s, ms);
    if h + m + s == 0 {
      assert d == ms;
      SubSecondCounted(ms);
    }
  }

  /** Below one second the corrected text counts the milliseconds. */
  lemma SubSecondCounted(d: nat)
    requires d < 1000
    ensures DurationIntended(d) == Counted(d, "millisecond")
  {
    assert Quot(d, 1000) == 0;
    var n := IntToString(d);
    assert n + " " + "millisecond" == n + " millisecond";
  }

  /** The two texts differ for exactly one duration: a single millisecond. */
  lemma IntendedDiffersOnlyAtOne(d: int)
    ensures DurationIntended(d) != Duration(d) <==> d == 1
  {
    if d == 1 {
      assert Duration(d) == "1" + " milliseconds";
      assert DurationIntended(d) == "1" + " millisecond";
      assert Duration(d)[13] == 's';
      assert |DurationIntended(d)| == 13;
    }
  }

  /** As written, a single millisecond reads "1 milliseconds". */
  lemma OneMillisecondPlural(d: int)
    requires d == 1
    ensures Duration(d) == "1 milliseconds"
    ensures DurationIntended(d) == "1 millisecond"
  {
    assert Quot(d, 1000) == 0;
    assert IntToString(1) == "1";
  }

  /** A count below ten is written as its one digit. */
  lemma CountedDigit(n: nat, unit: string)
    requires n < 10
    ensures Counted(n, unit) == [DigitChar(n)] + " " + unit + (if n == 1 then "" else "s")
  {
    assert IntToString(n) == [DigitChar(n)];
  }

  /**
    getApproxExecutionDurationString(durInMillis): the milliseconds are
    dropped, and so are the seconds when the duration is more than two
    minutes (counting the hours in minutes); the rest is formatted.
   */
  function Approx(d: int): string
  {
    Duration(ApproxMillis(d))
  }

  /** The duration getApproxExecutionDurationString formats, computed with its own arithmetic. */
  function ApproxMillis(d: int): int
  {
    var hours := Quot(Quot(Quot(d, 1000), 60), 60);
    var minutes := Quot(Quot(d, 1000), 60) - hours * 60;
    var seconds := Quot(d, 1000) - hours * 60 * 60 - minutes * 60;
    var millis := d - hours * 1000 * 60 * 60 - minutes * 1000 * 60 - seconds * 1000;
    var whole := d - millis;
    if hours * 60 + minutes > 2 then whole - seconds * 1000 else whole
  }

  /**
    The approximate text is the exact text of the duration cut down to
    whole seconds, or to whole minutes beyond two minutes; so it never
    shows milliseconds, and from three minutes on no seconds either.
   */
  lemma ApproxForms(d: int, h: nat, m: nat, s: nat, ms: nat)
    requires Parts(d, h, m, s, ms)
    ensures h * 60 + m > 2 ==> Approx(d) == Duration((h * 60 + m) * 60 * 1000)
    ensures h * 60 + m <= 2 ==> Approx(d) == Duration(((h * 60 + m) * 60 + s) * 1000)
    ensures h == 0 && m > 2 ==> Approx(d) == Counted(m, "minute")
    ensures h == 0 && m == 0 && s == 0 ==> Approx(d) == "0 milliseconds"
  {
    ApproxCut(d, h, m, s, ms);
    if h * 60 + m > 2 {
      ApproxMinutes((h * 60 + m) * 60 * 1000, h, m);
    } else if h == 0 && m == 0 && s == 0 {
      ZeroDuration(0);
    }
  }

  /** Beyond two minutes the text is whole minutes: "m minutes" below an hour. */
  lemma ApproxMinutes(cut: int, h: nat, m: nat)
    requires m < 60 && cut == (h * 60 + m) * 60 * 1000
    ensures h == 0 && m > 2 ==> Duration(cut) == Counted(m, "minute")
  {
    if h == 0 && m > 2 {
      DurationForms(cut, h, m, 0, 0);
      assert Counted(m, "minute") + "" == Counted(m, "minute");
    }
  }

  /** No time at all reads "0 milliseconds". */
  lemma ZeroDuration(d: int)
    requires d == 0
    ensures Duration(d) == "0 milliseconds"
  {
    assert IntToString(d) == "0";
  }

  /** Approximating cuts the duration down to whole seconds, or whole minutes beyond two minutes. */
  lemma ApproxCut(d: int, h: nat, m: nat, s: nat, ms: nat)
    requires Parts(d, h, m, s, ms)
    ensures ApproxMillis(d) == if h * 60 + m > 2 then (h * 60 + m) * 60 * 1000 else ((h * 60 + m) * 60 + s) * 1000
  {
    QuotParts(d, h, m, s, ms);
  }

  /** The main driver: 1 minute, 3 seconds and 4 milliseconds read "1 minute and 3 seconds". */
  lemma MainExample(d: int)
    requires d == 0 * 60 * 60 * 1000 + 1 * 60 * 1000 + 3 * 1000 + 4
    ensures Approx(d) == "1 minute and 3 seconds"
  {
    ApproxShort(d, 1, 3, 4);
    CountedDigit(1, "minute");
    CountedDigit(3, "second");
    assert DigitChar(1) == '1' && DigitChar(3) == '3';
    Spelled("1 minute", "3 seconds");
  }

  /** The two counts of the example, spelled out. */
  lemma Spelled(a: string, b: string)
    requires a == "1 minute" && b == "3 seconds"
    ensures a == ['1'] + " " + "minute" + "" && b == ['3'] + " " + "second" + "s"
    ensures a + " and " + b == "1 minute and 3 seconds"
  {
  }

  /** Up to two minutes, the approximate text shows the minutes and the seconds. */
  lemma ApproxShort(d: int, m: nat, s: nat, ms: nat)
    requires Parts(d, 0, m, s, ms) && 0 < m <= 2 && s > 0
    ensures Approx(d) == Counted(m, "minute") + " and " + Counted(s, "second")
  {
    ApproxForms(d, 0, m, s, ms);
    var whole := (m * 60 + s) * 1000;
    assert Parts(whole, 0, m, s, 0);
    DurationForms(whole, 0, m, s, 0);
  }

  /**
    getExecutionDurationString(startDate, endDate): "unknown" when either
    date is null, otherwise the text of endDate - startDate.
   */
  function Between(start: Option<int>, end: Option<int>): string
  {
    if start.None? || end.None? then "unknown" else Duration(end.value - start.value)
  }

  /** The text of a duration starts with the sign or the first digit of a number. */
  lemma StartsWithNumber(d: int)
    ensures |Duration(d)| > 0
    ensures Duration(d)[0] == '-' || '0' <= Duration(d)[0] <= '9'
  {
    var q := Quot(d, 1000);
    if q > 0 {
      var hours := Quot(Quot(q, 60), 60);
      var minutes := Quot(q, 60);
      if hours > 0 {
        PairStarts(hours, "hour", minutes - hours * 60, "minute");
      } else if minutes > 0 {
        PairStarts(minutes, "minute", q - minutes * 60, "second");
      } else {
        PairStarts(q, "second", d - q * 1000, "millisecond");
      }
    } else {
      var n := IntToString(d);
      assert Duration(d) == n + (" millisecond" + Plural(0));
      assert Duration(d)[0] == n[0];
    }
  }

  /** A pair of units starts with the count of the larger one. */
  lemma PairStarts(a: int, aUnit: string, b: int, bUnit: string)
    ensures |Pair(a, aUnit, b, bUnit)| > 0
    ensures Pair(a, aUnit, b, bUnit)[0] == IntToString(a)[0]
  {
    var n := IntToString(a);
    assert Amount(a, aUnit) == n + (" " + aUnit + Plural(a));
    assert Amount(a, aUnit)[0] == n[0];
    if b > 0 {
      assert Pair(a, aUnit, b, bUnit) == Amount(a, aUnit) + (" and " + Amount(b, bUnit));
    }
  }

  /** "unknown" is never a duration's text, so it appears exactly when a date is missing. */
  lemma BetweenUnknown(start: Option<int>, end: Option<int>)
    ensures Between(start, end) == "unknown" <==> start.None? || end.None?
    ensures start.Some? && end.Some? ==> Between(start, end) == Duration(end.value - start.value)
  {
    if start.Some? && end.Some? {
      var d := end.value - start.value;
      assert Between(start, end) == Duration(d);
      NotUnknown(d);
    }
  }

  /** Dates 1 ms apart read "1 milliseconds", the plural of the overload as written. */
  lemma BetweenOneMillisecond(start: Option<int>, end: Option<int>)
    requires start.Some? && end.Some? && end.value - start.value == 1
    ensures Between(start, end) == "1 milliseconds"
  {
  }

  /** A duration's text starts with a sign or a digit, so it is not "unknown". */
  lemma NotUnknown(d: int)
    ensures Duration(d) != "unknown"
  {
    StartsWithNumber(d);
    assert "unknown"[0] == 'u';
  }
}
