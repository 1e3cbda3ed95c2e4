/** format_timestamp of app.py (lines 45-52): an SRT time stamp for a
    duration. Python's timedelta(seconds=x) first rounds x to whole
    microseconds, so a duration is modelled here as a non-negative number of
    microseconds, and the float arithmetic of the source as exact integer
    arithmetic on that number (1_000_000 microseconds to the second, 86400
    seconds to the day). */
module Timestamp {
  import opened Text
  import opened Wrappers

  /** "%02d" % n for the values str(timedelta) pads, which are below 60. */
  function Pad2(n: nat): (r: string)
    requires n < 100
    ensures |r| == 2 && IsDigit(r[0]) && IsDigit(r[1])
    ensures DigitValue(r[0]) * 10 + DigitValue(r[1]) == n
  {
    [DigitChar(n / 10), DigitChar(n % 10)]
  }

  /** f"{n:03d}" for the millisecond count, which is below 1000. */
  function Pad3(n: nat): (r: string)
    requires n < 1000
    ensures |r| == 3 && IsDigit(r[0]) && IsDigit(r[1]) && IsDigit(r[2])
    ensures DigitValue(r[0]) * 100 + DigitValue(r[1]) * 10 + DigitValue(r[2]) == n
  {
    [DigitChar(n / 100), DigitChar(n / 10 % 10), DigitChar(n % 10)]
  }

  /** The "D day, " or "D days, " prefix that str(timedelta) puts in front
      of the clock from one day on ("s" unless the day count is 1). */
  function DayPrefix(days: nat): string {
    Decimal(days) + (if days == 1 then " day, " else " days, ")
  }

  /** The ":MM:SS,mmm" that follows the hours in a stamp: minutes and
      seconds within the hour, and the milliseconds. */
  function ClockTail(secs: nat, ms: nat): (r: string)
    requires ms < 1000
    ensures |r| == 10 && r[0] == ':'
  {
    ":" + Pad2(secs / 60 % 60) + ":" + Pad2(secs % 60) + "," + Pad3(ms)
  }

  /** The "H:MM:SS" clock of str(timedelta) for the seconds within one
      day: the hours NOT zero-padded, minutes and seconds padded to two
      digits. */
  function Clock(secs: nat): string {
    Decimal(secs / 3600) + ":" + Pad2(secs / 60 % 60) + ":" + Pad2(secs % 60)
  }

  /** str(timedelta(seconds=total)) for a whole, non-negative number of
      seconds: the clock of the seconds within the day, preceded by the day
      prefix when the duration is at least one day. */
  function DurationString(total: nat): string {
    var days := total / 86400;
    if days == 0 then Clock(total % 86400) else DayPrefix(days) + Clock(total % 86400)
  }

  /** len(s.split(sep)): the number of fields s has around sep. */
  function FieldCount(s: string, sep: char): (n: nat)
    ensures n >= 1
  {
    Count(s, sep) + 1
  }

  /** The string format_timestamp builds before its "00:" test: the
      rendering of the whole seconds, a comma, and the sub-second part
      truncated to milliseconds as three digits. */
  function Rendered(us: nat): string {
    DurationString(us / 1_000_000) + "," + Pad3(us % 1_000_000 / 1000)
  }

  /** format_timestamp. The result always has exactly three
      colon-separated fields, so the "00:" prefix branch is dead code. */
  function FormatTimestamp(us: nat): (r: string)
    ensures Count(r, ':') == 2
    ensures r == Rendered(us)
  {
    RenderedColons(us);
    var formatted := Rendered(us);
    if FieldCount(formatted, ':') == 2 then "00:" + formatted else formatted
  }

  lemma DigitsHaveNoColon(s: string)
    requires AllDigits(s)
    ensures Count(s, ':') == 0
  {
  }

  lemma ClockColons(secs: nat)
    ensures Count(Clock(secs), ':') == 2
  {
    var h, m, s := Decimal(secs / 3600), Pad2(secs / 60 % 60), Pad2(secs % 60);
    DigitsHaveNoColon(h);
    assert Count(m, ':') == 0 && Count(s, ':') == 0;
    CountConcat(h, ":", ':');
    CountConcat(h + ":", m, ':');
    CountConcat(h + ":" + m, ":", ':');
    CountConcat(h + ":" + m + ":", s, ':');
  }

  lemma DurationColons(total: nat)
    ensures Count(DurationString(total), ':') == 2
  {
    var days := total / 86400;
    ClockColons(total % 86400);
    if days != 0 {
      var suffix := if days == 1 then " day, " else " days, ";
      assert Count(suffix, ':') == 0;
      DigitsHaveNoColon(Decimal(days));
      CountConcat(Decimal(days), suffix, ':');
      CountConcat(DayPrefix(days), Clock(total % 86400), ':');
    }
  }

  /** The clock has two colons, the day prefix and the milliseconds none. */
  lemma RenderedColons(us: nat)
    ensures FieldCount(Rendered(us), ':') == 3
  {
    var d := DurationString(us / 1_000_000);
    var ms := Pad3(us % 1_000_000 / 1000);
    DurationColons(us / 1_000_000);
    assert Count(ms, ':') == 0;
    CountConcat(d, ",", ':');
    CountConcat(d + ",", ms, ':');
  }

  /** The last four characters are a comma and three digits that give the
      sub-second part truncated (not rounded) to milliseconds, 0..999. */
  lemma {:induction false} MillisecondField(us: nat)
    ensures var r := FormatTimestamp(us);
      && |r| >= 4 && r[|r| - 4] == ','
      && DigitsBetween(r, |r| - 3, |r|)
      && RangeValue(r, |r| - 3, |r|) == us % 1_000_000 / 1000 <= 999
  {
    var r := FormatTimestamp(us);
    var ms := Pad3(us % 1_000_000 / 1000);
    var d := DurationString(us / 1_000_000) + ",";
    assert r == d + ms;
    assert r[|r| - 4] == ',' && r[|r| - 3] == ms[0] && r[|r| - 2] == ms[1] && r[|r| - 1] == ms[2];
    ThreeDigits(r, |r| - 3);
  }

  /** The day prefix, if any, followed by the clock. */
  lemma DurationParts(total: nat)
    ensures var days := total / 86400;
      DurationString(total) == (if days == 0 then [] else DayPrefix(days)) + Clock(total % 86400)
  {
    if total / 86400 == 0 {
      assert [] + Clock(total % 86400) == Clock(total % 86400);
    }
  }

  /** Regroups the concatenation of Rendered into the day prefix, the
      hours and the tail. Stated over plain strings so that the step is
      proved once, apart from the definitions of its parts. */
  lemma Regroup(p: string, h: string, m: string, s: string, ms: string)
    ensures p + (h + ":" + m + ":" + s) + "," + ms == p + (h + (":" + m + ":" + s + "," + ms))
  {
  }

  /** The stamp split into its head, the day prefix and the unpadded hours,
      and its ten-character tail ":MM:SS,mmm". */
  lemma StampParts(us: nat)
    ensures var total := us / 1_000_000;
      var days, secs := total / 86400, total % 86400;
      FormatTimestamp(us)
        == (if days == 0 then [] else DayPrefix(days)) + (Decimal(secs / 3600) + ClockTail(secs, us % 1_000_000 / 1000))
  {
    var total := us / 1_000_000;
    var days, secs := total / 86400, total % 86400;
    DurationParts(total);
    Regroup(if days == 0 then [] else DayPrefix(days), Decimal(secs / 3600),
            Pad2(secs / 60 % 60), Pad2(secs % 60), Pad3(us % 1_000_000 / 1000));
    assert ClockTail(secs, us % 1_000_000 / 1000)
           == ":" + Pad2(secs / 60 % 60) + ":" + Pad2(secs % 60) + "," + Pad3(us % 1_000_000 / 1000);
  }

  /** Hours are not zero-padded: below ten hours the stamp is eleven
      characters long, with a colon at index 1. */
  lemma {:induction false} SingleDigitHours(us: nat)
    requires us < 36000 * 1_000_000
    ensures |FormatTimestamp(us)| == 11 && FormatTimestamp(us)[1] == ':'
  {
    var total := us / 1_000_000;
    assert total / 86400 == 0 && total % 86400 == total;
    StampParts(us);
    assert Decimal(total / 3600) == [DigitChar(total / 3600)];
    var h := Decimal(total / 3600);
    var tail := ClockTail(total, us % 1_000_000 / 1000);
    assert FormatTimestamp(us) == [] + (h + tail);
    assert |h| == 1;
    assert (h + tail)[1] == tail[0];
  }

  /** Below one day a stamp is the unpadded hours and the tail. */
  lemma StampNoDay(us: nat)
    requires us / 1_000_000 / 86400 == 0
    ensures var secs := us / 1_000_000 % 86400;
      FormatTimestamp(us) == Decimal(secs / 3600) + ClockTail(secs, us % 1_000_000 / 1000)
  {
    var secs := us / 1_000_000 % 86400;
    StampParts(us);
    var clock := Decimal(secs / 3600) + ClockTail(secs, us % 1_000_000 / 1000);
    assert [] + clock == clock;
  }

  /** From one day on a stamp is the day prefix, the hours and the tail. */
  lemma StampDays(us: nat)
    requires us / 1_000_000 / 86400 != 0
    ensures var secs := us / 1_000_000 % 86400;
      FormatTimestamp(us) == DayPrefix(us / 1_000_000 / 86400) + (Decimal(secs / 3600) + ClockTail(secs, us % 1_000_000 / 1000))
  {
    StampParts(us);
  }

  lemma ZeroTail()
    ensures ClockTail(0, 0) == ":00:00,000"
  {
    assert Pad2(0) == "00" && Pad3(0) == "000";
  }

  /** The concatenation of the two literals of Zero. Stated over plain
      strings: proved next to the definitions of Decimal and ClockTail the
      same step runs out of resources. */
  lemma Join(a: string, b: string, ab: string)
    requires a == "0" && b == ":00:00,000" && ab == "0:00:00,000"
    ensures a + b == ab
  {
  }

  /** The stamp of a zero duration: hours not padded. */
  lemma Zero()
    ensures FormatTimestamp(0) == "0:00:00,000"
  {
    var secs, ms := 0 / 1_000_000 % 86400, 0 % 1_000_000 / 1000;
    assert secs == 0 && ms == 0 && secs / 3600 == 0;
    StampNoDay(0);
    assert Decimal(0) == "0";
    ZeroTail();
    Join(Decimal(secs / 3600), ClockTail(secs, ms), "0:00:00,000");
  }

  /** Reads the ":MM:SS,mmm" at index i of t as minutes, seconds and
      milliseconds, in milliseconds; None when it is not of that shape. */
  function ParseClockTail(t: string, i: nat): Option<nat>
    requires i + 10 <= |t|
  {
    if t[i] == ':' && t[i + 3] == ':' && t[i + 6] == ','
       && IsDigit(t[i + 1]) && IsDigit(t[i + 2]) && IsDigit(t[i + 4]) && IsDigit(t[i + 5])
       && IsDigit(t[i + 7]) && IsDigit(t[i + 8]) && IsDigit(t[i + 9])
    then
      var minutes := DigitValue(t[i + 1]) * 10 + DigitValue(t[i + 2]);
      var seconds := DigitValue(t[i + 4]) * 10 + DigitValue(t[i + 5]);
      var millis := DigitValue(t[i + 7]) * 100 + DigitValue(t[i + 8]) * 10 + DigitValue(t[i + 9]);
      Some((minutes * 60 + seconds) * 1000 + millis)
    else None
  }

  /** Reads the "H:MM:SS,mmm" clock that fills t from index i to its end,
      as a number of milliseconds. */
  function ParseClock(t: string, i: nat): Option<nat>
    requires i <= |t|
  {
    var k := DigitRun(t, i);
    if k == 0 || |t| != i + k + 10 then None
    else
      DigitRunDigits(t, i);
      match ParseClockTail(t, i + k)
      case None => None
      case Some(rest) => Some(RangeValue(t, i, i + k) * 3_600_000 + rest)
  }

  /** The length of the " day, " or " days, " separator at index i of t, or
      0 when there is none. */
  function DaySeparator(t: string, i: nat): (n: nat)
    requires i <= |t|
    ensures n == 0 || n == 6 || n == 7
    ensures i + n <= |t|
  {
    if i + 6 <= |t| && t[i] == ' ' && t[i + 1] == 'd' && t[i + 2] == 'a' && t[i + 3] == 'y' then
      if t[i + 4] == ',' && t[i + 5] == ' ' then 6
      else if i + 7 <= |t| && t[i + 4] == 's' && t[i + 5] == ',' && t[i + 6] == ' ' then 7
      else 0
    else 0
  }

  /** Reads a stamp of the shape FormatTimestamp produces, with or without
      its day prefix, back into a number of milliseconds. */
  function ParseTimestamp(t: string): Option<nat> {
    var k := DigitRun(t, 0);
    if k != 0 && DaySeparator(t, k) != 0 then DigitRunDigits(t, 0); ParseDays(t, k) else ParseClock(t, 0)
  }

  /** Reads a stamp whose first k characters are the day count, followed by
      a day separator and a clock. */
  function ParseDays(t: string, k: nat): Option<nat>
    requires DigitsBetween(t, 0, k)
  {
    match ParseClock(t, k + DaySeparator(t, k))
    case None => None
    case Some(c) => Some(RangeValue(t, 0, k) * 86_400_000 + c)
  }

  /** Days, hours, minutes, seconds and milliseconds add up to the duration
      in whole milliseconds. */
  lemma Recompose(us: nat, days: nat, secs: nat)
    requires days == us / 1_000_000 / 86400
    requires secs == us / 1_000_000 % 86400
    ensures days * 86_400_000 + secs / 3600 * 3_600_000 + (secs / 60 % 60 * 60 + secs % 60) * 1000
            + us % 1_000_000 / 1000 == us / 1000
  {
    var total := us / 1_000_000;
    assert secs / 3600 * 3600 + secs / 60 % 60 * 60 + secs % 60 == secs;
    assert total == days * 86400 + secs;
    assert us == total * 1_000_000 + us % 1_000_000;
  }

  /** The tail of a stamp reads back as its minutes, seconds and
      milliseconds. */
  lemma TailRoundTrip(secs: nat, ms: nat)
    requires ms < 1000
    ensures ParseClockTail(ClockTail(secs, ms), 0) == Some((secs / 60 % 60 * 60 + secs % 60) * 1000 + ms)
  {
    var pm, ps, pms := Pad2(secs / 60 % 60), Pad2(secs % 60), Pad3(ms);
    var r := ClockTail(secs, ms);
    assert r == ":" + pm + ":" + ps + "," + pms;
    assert r[1] == pm[0] && r[2] == pm[1] && r[3] == ':' && r[4] == ps[0] && r[5] == ps[1];
    assert r[6] == ',' && r[7] == pms[0] && r[8] == pms[1] && r[9] == pms[2];
  }

  /** A tail r copied into t at index j reads as r does. */
  lemma TailAt(t: string, j: nat, r: string, rest: nat)
    requires |r| == 10 && |t| == j + 10 && ParseClockTail(r, 0) == Some(rest)
    requires t[j] == r[0] && t[j + 1] == r[1] && t[j + 2] == r[2] && t[j + 3] == r[3] && t[j + 4] == r[4]
    requires t[j + 5] == r[5] && t[j + 6] == r[6] && t[j + 7] == r[7] && t[j + 8] == r[8] && t[j + 9] == r[9]
    ensures ParseClockTail(t, j) == Some(rest)
  {
  }

  /** A clock whose hour digits at o..o+k have value hours and whose tail
      reads as rest. */
  lemma ClockFromParts(t: string, o: nat, k: nat, hours: nat, rest: nat)
    requires 1 <= k && |t| == o + k + 10 && DigitRun(t, o) == k
    requires DigitsBetween(t, o, o + k) && RangeValue(t, o, o + k) == hours
    requires ParseClockTail(t, o + k) == Some(rest)
    ensures ParseClock(t, o) == Some(hours * 3_600_000 + rest)
  {
  }

  /** A clock made of the hour digits h and a tail r, after any prefix p,
      reads as the hours and the value of the tail. */
  lemma ClockAt(t: string, p: string, o: nat, h: string, r: string, hours: nat, rest: nat)
    requires t == p + (h + r) && o == |p|
    requires |h| >= 1 && AllDigits(h) && DigitsValue(h) == hours
    requires |r| == 10 && ParseClockTail(r, 0) == Some(rest)
    ensures ParseClock(t, o) == Some(hours * 3_600_000 + rest)
  {
    var j := o + |h|;
    assert forall x :: o <= x < j ==> t[x] == h[x - o];
    assert DigitsBetween(t, o, j);
    assert t[j] == r[0] && t[j + 1] == r[1] && t[j + 2] == r[2] && t[j + 3] == r[3] && t[j + 4] == r[4];
    assert t[j + 5] == r[5] && t[j + 6] == r[6] && t[j + 7] == r[7] && t[j + 8] == r[8] && t[j + 9] == r[9];
    DigitRunExact(t, o, |h|);
    RangeValueShift(t, o, h, 0, |h|);
    TailAt(t, j, r, rest);
    ClockFromParts(t, o, |h|, hours, rest);
  }

  /** The digits d at the front of t, followed by a non-digit, are its
      leading digit run. */
  lemma LeadingRun(t: string, d: string, u: string)
    requires t == d + u && |d| >= 1 && AllDigits(d) && |u| >= 1 && !IsDigit(u[0])
    ensures DigitRun(t, 0) == |d| && DigitsBetween(t, 0, |d|)
    ensures RangeValue(t, 0, |d|) == DigitsValue(d) && t[|d|] == u[0]
  {
    assert forall x :: 0 <= x < |d| ==> t[x] == d[x];
    assert DigitsBetween(t, 0, |d|);
    DigitRunExact(t, 0, |d|);
    RangeValueShift(t, 0, d, 0, |d|);
  }

  /** A stamp whose leading run of k digits is not followed by a day
      separator is read as a clock. */
  lemma NoDayFromParts(t: string, k: nat, v: nat)
    requires 1 <= k <= |t| && DigitRun(t, 0) == k && DaySeparator(t, k) == 0
    requires ParseClock(t, 0) == Some(v)
    ensures ParseTimestamp(t) == Some(v)
  {
  }

  /** A stamp without a day prefix is read as its clock. */
  lemma NoDayRoundTrip(t: string, h: string, r: string, hours: nat, rest: nat, v: nat)
    requires t == h + r && |h| >= 1 && AllDigits(h) && DigitsValue(h) == hours
    requires |r| == 10 && ParseClockTail(r, 0) == Some(rest)
    requires v == hours * 3_600_000 + rest
    ensures ParseTimestamp(t) == Some(v)
  {
    assert ParseClock(t, 0) == Some(v) by {
      assert t == [] + (h + r);
      ClockAt(t, [], 0, h, r, hours, rest);
    }
    assert DigitRun(t, 0) == |h| && DaySeparator(t, |h|) == 0 by {
      LeadingRun(t, h, r);
    }
    NoDayFromParts(t, |h|, v);
  }

  /** The " day, " or " days, " separator that follows the day digits d. */
  lemma SeparatorAfter(t: string, d: string, suffix: string, u: string)
    requires suffix == " day, " || suffix == " days, "
    requires t == d + (suffix + u)
    ensures DaySeparator(t, |d|) == |suffix|
  {
    var k := |d|;
    assert t[k] == suffix[0] && t[k + 1] == suffix[1] && t[k + 2] == suffix[2];
    assert t[k + 3] == suffix[3] && t[k + 4] == suffix[4] && t[k + 5] == suffix[5];
    if |suffix| == 7 {
      assert t[k + 6] == suffix[6];
    }
  }

  /** A stamp whose leading k digits give days, followed by a separator of
      length skip and a clock reading c. */
  lemma DaysFromParts(t: string, k: nat, days: nat, skip: nat, c: nat)
    requires 1 <= k <= |t| && DigitRun(t, 0) == k
    requires DigitsBetween(t, 0, k) && RangeValue(t, 0, k) == days
    requires DaySeparator(t, k) == skip != 0 && ParseClock(t, k + skip) == Some(c)
    ensures ParseTimestamp(t) == Some(days * 86_400_000 + c)
  {
  }

  /** A stamp with a day prefix, the day digits d and a separator, is read
      as its day count and its clock. */
  lemma DayRoundTrip(t: string, d: string, suffix: string, h: string, r: string, days: nat, hours: nat, rest: nat, v: nat)
    requires suffix == " day, " || suffix == " days, "
    requires t == (d + suffix) + (h + r) && |d| >= 1 && AllDigits(d) && DigitsValue(d) == days
    requires |h| >= 1 && AllDigits(h) && DigitsValue(h) == hours
    requires |r| == 10 && ParseClockTail(r, 0) == Some(rest)
    requires v == days * 86_400_000 + (hours * 3_600_000 + rest)
    ensures ParseTimestamp(t) == Some(v)
  {
    var k := |d|;
    assert ParseClock(t, k + |suffix|) == Some(hours * 3_600_000 + rest) by {
      ClockAt(t, d + suffix, k + |suffix|, h, r, hours, rest);
    }
    assert DigitRun(t, 0) == k && DigitsBetween(t, 0, k) && RangeValue(t, 0, k) == days
        && DaySeparator(t, k) == |suffix| by {
      var u := suffix + (h + r);
      assert t == d + u;
      LeadingRun(t, d, u);
      SeparatorAfter(t, d, suffix, h + r);
    }
    DaysFromParts(t, k, days, |suffix|, hours * 3_600_000 + rest);
  }

  /** The round trip for a stamp below one day. */
  lemma ParseFormatNoDay(us: nat)
    requires us / 1_000_000 / 86400 == 0
    ensures ParseTimestamp(FormatTimestamp(us)) == Some(us / 1000)
  {
    var secs, ms := us / 1_000_000 % 86400, us % 1_000_000 / 1000;
    var hours, rest := secs / 3600, (secs / 60 % 60 * 60 + secs % 60) * 1000 + ms;
    var h, r := Decimal(hours), ClockTail(secs, ms);
    assert ParseClockTail(r, 0) == Some(rest) by {
      TailRoundTrip(secs, ms);
    }
    assert hours * 3_600_000 + rest == us / 1000 by {
      Recompose(us, 0, secs);
    }
    assert FormatTimestamp(us) == h + r by {
      StampNoDay(us);
    }
    NoDayRoundTrip(FormatTimestamp(us), h, r, hours, rest, us / 1000);
  }

  /** The round trip for a stamp of one day or more. */
  lemma ParseFormatDays(us: nat)
    requires us / 1_000_000 / 86400 != 0
    ensures ParseTimestamp(FormatTimestamp(us)) == Some(us / 1000)
  {
    var days, secs, ms := us / 1_000_000 / 86400, us / 1_000_000 % 86400, us % 1_000_000 / 1000;
    var hours, rest := secs / 3600, (secs / 60 % 60 * 60 + secs % 60) * 1000 + ms;
    var h, r := Decimal(hours), ClockTail(secs, ms);
    var d, suffix := Decimal(days), if days == 1 then " day, " else " days, ";
    assert ParseClockTail(r, 0) == Some(rest) by {
      TailRoundTrip(secs, ms);
    }
    assert days * 86_400_000 + (hours * 3_600_000 + rest) == us / 1000 by {
      Recompose(us, days, secs);
    }
    assert FormatTimestamp(us) == (d + suffix) + (h + r) by {
      StampDays(us);
      assert DayPrefix(days) == d + suffix;
    }
    DayRoundTrip(FormatTimestamp(us), d, suffix, h, r, days, hours, rest, us / 1000);
  }

  /** Round trip: parsing a formatted stamp gives back the duration,
      truncated to whole milliseconds. */
  lemma ParseFormat(us: nat)
    ensures ParseTimestamp(FormatTimestamp(us)) == Some(us / 1000)
  {
    if us / 1_000_000 / 86400 == 0 {
      ParseFormatNoDay(us);
    } else {
      ParseFormatDays(us);
    }
  }

  /** Two durations get the same stamp exactly when they agree to the
      millisecond. */
  lemma SameStamp(us1: nat, us2: nat)
    ensures FormatTimestamp(us1) == FormatTimestamp(us2) <==> us1 / 1000 == us2 / 1000
  {
    ParseFormat(us1);
    ParseFormat(us2);
    if us1 / 1000 == us2 / 1000 {
      MillisEnough(us1, us2);
    }
  }

  /** The stamp depends on the duration only through its whole milliseconds. */
  lemma MillisEnough(us1: nat, us2: nat)
    requires us1 / 1000 == us2 / 1000
    ensures FormatTimestamp(us1) == FormatTimestamp(us2)
  {
    assert us1 / 1_000_000 == us2 / 1_000_000;
    assert us1 % 1_000_000 / 1000 == us2 % 1_000_000 / 1000;
  }
}
