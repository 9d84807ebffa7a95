/**
 * How `Application.show` turns the seconds of a GitLab `time_stats` record
 * into a compact string such as "2h15m": an hour segment when the whole
 * hours are positive, then a minute segment when the minutes within the hour
 * are positive, with no separator and nothing for the leftover seconds.
 *
 * All durations are non-negative, so Python's floor division and modulo
 * coincide with Dafny's Euclidean `/` and `%`.
 */
module Durations {
  import opened Wrappers

  const SecondsPerMinute: nat := 60
  const MinutesPerHour: nat := 60
  const SecondsPerHour: nat := 3600

  // ---------------------------------------------------------------------
  // Decimal numerals: Python's f'{n}' for a non-negative integer

  predicate IsDigit(c: char) {
    '0' <= c <= '9'
  }

  /** A non-empty string of decimal digits. */
  predicate IsNumeral(s: string) {
    |s| > 0 && forall i :: 0 <= i < |s| ==> IsDigit(s[i])
  }

  function DigitValue(c: char): (d: nat)
    ensures IsDigit(c) ==> d < 10
  {
    if IsDigit(c) then c as int - '0' as int else 0
  }

  function DigitChar(d: nat): (c: char)
    requires d < 10
    ensures IsDigit(c) && DigitValue(c) == d
  {
    ('0' as int + d) as char
  }

  /** The decimal numeral of `n`, without leading zeros. */
  function DecimalString(n: nat): (s: string)
    ensures IsNumeral(s)
    ensures s[0] == '0' <==> n == 0
    ensures n == 0 ==> s == "0"
    decreases n
  {
    if n < 10 then [DigitChar(n)]
    else DecimalString(n / 10) + [DigitChar(n % 10)]
  }

  /** The number a string of decimal digits denotes (most significant first). */
  function DecimalValue(s: string): nat
  {
    if s == [] then 0
    else DecimalValue(s[..|s| - 1]) * 10 + DigitValue(s[|s| - 1])
  }

  /** Reading back a rendered numeral gives the number that was rendered. */
  lemma {:induction false} DecimalRoundTrip(n: nat)
    ensures DecimalValue(DecimalString(n)) == n
    decreases n
  {
    var s := DecimalString(n);
    if n < 10 {
      assert s[..|s| - 1] == [];
    } else {
      assert s[..|s| - 1] == DecimalString(n / 10);
      DecimalRoundTrip(n / 10);
    }
  }

  /** A numeral contains no non-digit character, such as 'h' or 'm'. */
  lemma NumeralExcludes(s: string, c: char)
    requires IsNumeral(s) && !IsDigit(c)
    ensures c !in s
  {
    forall i | 0 <= i < |s| ensures s[i] != c {
      assert IsDigit(s[i]);
    }
  }

  // ---------------------------------------------------------------------
  // Splitting seconds into whole hours and minutes within the hour

  /** `seconds // 3600`: the whole hours. */
  function HoursOf(seconds: nat): (h: nat)
    ensures h * SecondsPerHour <= seconds < (h + 1) * SecondsPerHour
  {
    seconds / SecondsPerHour
  }

  /** `seconds // 60 % 60`: the whole minutes left over after the hours. */
  function MinutesOf(seconds: nat): (m: nat)
    ensures m < MinutesPerHour
  {
    seconds / SecondsPerMinute % MinutesPerHour
  }

  /** The hours are the whole minutes divided by 60, so that hours and
      minutes are the quotient and remainder of the whole minutes. */
  lemma HoursFromWholeMinutes(seconds: nat)
    ensures HoursOf(seconds) == seconds / SecondsPerMinute / MinutesPerHour
  {
    var q, r := seconds / 60, seconds % 60;
    var h, m := q / 60, q % 60;
    assert seconds == 3600 * h + (60 * m + r);
    assert 0 <= 60 * m + r < 3600;
  }

  /** Hours, minutes and leftover seconds add up to the original duration. */
  lemma SplitDecomposes(seconds: nat)
    ensures HoursOf(seconds) * SecondsPerHour + MinutesOf(seconds) * SecondsPerMinute
            + seconds % SecondsPerMinute == seconds
  {
    HoursFromWholeMinutes(seconds);
    var q := seconds / 60;
    assert q == 60 * (q / 60) + q % 60;
    assert seconds == 60 * q + seconds % 60;
  }

  /** Adding one hour leaves the minutes within the hour as they were. */
  lemma MinutesSkipHour(seconds: nat)
    ensures MinutesOf(seconds + SecondsPerHour) == MinutesOf(seconds)
  {
    var q := seconds / 60;
    assert seconds + 3600 == 60 * (q + 60) + seconds % 60;
    assert (seconds + 3600) / 60 == q + 60;
  }

  /** Adding any number of whole hours leaves the minutes as they were. */
  lemma {:induction false} MinutesSkipHours(seconds: nat, k: nat)
    ensures MinutesOf(seconds + SecondsPerHour * k) == MinutesOf(seconds)
    decreases k
  {
    if k > 0 {
      MinutesSkipHours(seconds, k - 1);
      assert seconds + SecondsPerHour * k == (seconds + SecondsPerHour * (k - 1)) + SecondsPerHour;
      MinutesSkipHour(seconds + SecondsPerHour * (k - 1));
    }
  }

  // ---------------------------------------------------------------------
  // Rendering

  /** The string `show` builds from an hour part and a minute part: start
      with '', set it to '{hour}h' when hour > 0, then append '{minute}m'
      when minute > 0. */
  function Segments(hour: nat, minute: nat): (r: string)
    ensures r == "" <==> hour == 0 && minute == 0
  {
    (if hour > 0 then DecimalString(hour) + "h" else "")
    + (if minute > 0 then DecimalString(minute) + "m" else "")
  }

  /** The rendering of the estimate (`time_estimate_show`); it is empty
      exactly for durations under one minute. */
  function RenderDuration(seconds: nat): (r: string)
    ensures r == "" <==> seconds < SecondsPerMinute
  {
    SplitDecomposes(seconds);
    Segments(HoursOf(seconds), MinutesOf(seconds))
  }

  /** The rendering of the time spent (`time_spent_show`) AS WRITTEN: the
      minute part comes from the spent seconds, but the hour part is the
      estimate's minute part divided by 60. */
  function RenderSpent(estimateSeconds: nat, spentSeconds: nat): (r: string)
    ensures r == "" <==> MinutesOf(spentSeconds) == 0
  {
    Segments(MinutesOf(estimateSeconds) / MinutesPerHour, MinutesOf(spentSeconds))
  }

  // ---------------------------------------------------------------------
  // Reading a rendering back

  /** Index of the first occurrence of `c` in `s`. */
  function IndexOf(s: string, c: char): (i: nat)
    requires c in s
    ensures i < |s| && s[i] == c && c !in s[..i]
  {
    if s[0] == c then 0
    else
      assert c in s[1..] by { var j :| 0 <= j < |s| && s[j] == c; assert s[1..][j - 1] == c; }
      var i := 1 + IndexOf(s[1..], c);
      assert s[..i] == [s[0]] + s[1..][..i - 1];
      i
  }

  /** The first `c` of `a + [c] + b` sits right after `a` when `a` has none. */
  lemma {:induction false} IndexAfterPrefix(a: string, c: char, b: string)
    requires c !in a
    ensures c in a + [c] + b && IndexOf(a + [c] + b, c) == |a|
    decreases |a|
  {
    var s := a + [c] + b;
    assert s[|a|] == c;
    if a != [] {
      assert s[0] == a[0];
      assert s[1..] == a[1..] + [c] + b;
      IndexAfterPrefix(a[1..], c, b);
    }
  }

  /** The minute segment: '' means zero minutes, otherwise a numeral and 'm'. */
  function ParseMinutes(t: string): Option<nat> {
    if t == [] then Some(0)
    else if t[|t| - 1] == 'm' && IsNumeral(t[..|t| - 1]) then Some(DecimalValue(t[..|t| - 1]))
    else None
  }

  /** Recovers (hours, minutes) from a rendering "{h}h{m}m", "{h}h",
      "{m}m" or "", and rejects anything else. */
  function ParseDuration(s: string): Option<(nat, nat)> {
    if 'h' in s then
      var i := IndexOf(s, 'h');
      if !IsNumeral(s[..i]) then None
      else match ParseMinutes(s[i + 1..])
        case None => None
        case Some(m) => Some((DecimalValue(s[..i]), m))
    else
      match ParseMinutes(s)
      case None => None
      case Some(m) => Some((0, m))
  }

  lemma ParseMinuteSegment(minute: nat)
    ensures ParseMinutes(if minute > 0 then DecimalString(minute) + "m" else "") == Some(minute)
  {
    if minute > 0 {
      var t := DecimalString(minute) + "m";
      assert t[..|t| - 1] == DecimalString(minute);
      DecimalRoundTrip(minute);
    }
  }

  /** Every pair of parts is recovered from its segments. */
  lemma ParseSegments(hour: nat, minute: nat)
    ensures ParseDuration(Segments(hour, minute)) == Some((hour, minute))
  {
    var tail := if minute > 0 then DecimalString(minute) + "m" else "";
    ParseMinuteSegment(minute);
    assert 'h' !in tail by {
      if minute > 0 {
        NumeralExcludes(DecimalString(minute), 'h');
        assert tail == DecimalString(minute) + ['m'];
      }
    }
    if hour > 0 {
      var head := DecimalString(hour);
      NumeralExcludes(head, 'h');
      var s := head + ['h'] + tail;
      assert Segments(hour, minute) == s;
      IndexAfterPrefix(head, 'h', tail);
      assert s[..|head|] == head;
      assert s[|head| + 1..] == tail;
      DecimalRoundTrip(hour);
    } else {
      assert Segments(hour, minute) == tail;
    }
  }

  // ---------------------------------------------------------------------
  // What the estimate rendering promises

  /** The estimate rendering determines the hours and the minutes. */
  lemma RenderDurationRoundTrip(seconds: nat)
    ensures ParseDuration(RenderDuration(seconds)) == Some((HoursOf(seconds), MinutesOf(seconds)))
  {
    ParseSegments(HoursOf(seconds), MinutesOf(seconds));
  }

  /** The 'h' segment appears exactly from one hour on, the 'm' segment
      exactly when the minutes within the hour are positive, and with both
      present the string is hours, 'h', minutes, 'm' with no separator. */
  lemma RenderDurationSegments(seconds: nat)
    ensures 'h' in RenderDuration(seconds) <==> seconds >= SecondsPerHour
    ensures 'm' in RenderDuration(seconds) <==> MinutesOf(seconds) > 0
    ensures seconds >= SecondsPerHour && MinutesOf(seconds) > 0 ==>
      RenderDuration(seconds) == DecimalString(HoursOf(seconds)) + "h" + DecimalString(MinutesOf(seconds)) + "m"
  {
    var h, m := HoursOf(seconds), MinutesOf(seconds);
    var head := if h > 0 then DecimalString(h) + "h" else "";
    var tail := if m > 0 then DecimalString(m) + "m" else "";
    var r := RenderDuration(seconds);
    assert r == head + tail;
    NumeralExcludes(DecimalString(h), 'h');
    NumeralExcludes(DecimalString(h), 'm');
    NumeralExcludes(DecimalString(m), 'h');
    NumeralExcludes(DecimalString(m), 'm');
    assert 'h' !in tail && 'm' !in head by {
      if m > 0 { assert tail == DecimalString(m) + ['m']; }
      if h > 0 { assert head == DecimalString(h) + ['h']; }
    }
    if h > 0 {
      assert r[|head| - 1] == 'h';
    } else {
      assert r == tail;
    }
    if m > 0 {
      assert r[|r| - 1] == 'm';
    } else {
      assert r == head;
    }
  }

  /** Two durations render alike exactly when they have the same number of
      whole minutes: leftover seconds below a minute never show. */
  lemma RenderDurationInjective(a: nat, b: nat)
    ensures RenderDuration(a) == RenderDuration(b) <==> a / SecondsPerMinute == b / SecondsPerMinute
  {
    HoursFromWholeMinutes(a);
    HoursFromWholeMinutes(b);
    var qa, qb := a / 60, b / 60;
    assert qa == 60 * (qa / 60) + qa % 60;
    assert qb == 60 * (qb / 60) + qb % 60;
    if RenderDuration(a) == RenderDuration(b) {
      RenderDurationRoundTrip(a);
      RenderDurationRoundTrip(b);
    }
  }

  // ---------------------------------------------------------------------
  // What the spent rendering, as written, does

  /** The spent hour part is always 0, so the spent rendering is '' or
      '{m}m' with m the spent minutes within the hour, whatever the estimate. */
  lemma RenderSpentMinutesOnly(estimateSeconds: nat, spentSeconds: nat)
    ensures var m := MinutesOf(spentSeconds);
      RenderSpent(estimateSeconds, spentSeconds) == (if m > 0 then DecimalString(m) + "m" else "")
    ensures 'h' !in RenderSpent(estimateSeconds, spentSeconds)
  {
    var m := MinutesOf(spentSeconds);
    if m > 0 {
      NumeralExcludes(DecimalString(m), 'h');
      assert DecimalString(m) + "m" == DecimalString(m) + ['m'];
    }
  }

  /** Two spent renderings are equal exactly when the spent minutes within
      the hour are equal; the estimate plays no part. */
  lemma RenderSpentDeterminedByMinutes(e1: nat, s1: nat, e2: nat, s2: nat)
    ensures RenderSpent(e1, s1) == RenderSpent(e2, s2) <==> MinutesOf(s1) == MinutesOf(s2)
  {
    if RenderSpent(e1, s1) == RenderSpent(e2, s2) {
      ParseSegments(MinutesOf(e1) / 60, MinutesOf(s1));
      ParseSegments(MinutesOf(e2) / 60, MinutesOf(s2));
    }
  }

  /** Spent durations that differ by whole hours render identically. */
  lemma RenderSpentIgnoresWholeHours(estimateSeconds: nat, spentSeconds: nat, k: nat)
    ensures RenderSpent(estimateSeconds, spentSeconds + SecondsPerHour * k)
         == RenderSpent(estimateSeconds, spentSeconds)
  {
    MinutesSkipHours(spentSeconds, k);
  }

  /** The as-written spent rendering agrees with the rendering the same
      seconds get as an estimate exactly below one hour: from one hour on the
      hours are lost (7200 s spent shows as '' where "2h" is meant). */
  lemma RenderSpentLosesHours(estimateSeconds: nat, spentSeconds: nat)
    ensures RenderSpent(estimateSeconds, spentSeconds) == RenderDuration(spentSeconds)
            <==> spentSeconds < SecondsPerHour
  {
    RenderSpentMinutesOnly(estimateSeconds, spentSeconds);
    RenderDurationSegments(spentSeconds);
    if spentSeconds < SecondsPerHour {
      assert HoursOf(spentSeconds) == 0;
      assert MinutesOf(estimateSeconds) / MinutesPerHour == 0;
    }
  }

  /** The spent rendering as evidently intended: the same rendering as the
      estimate, applied to the spent seconds, so that hours are kept. */
  function RenderSpentCorrected(spentSeconds: nat): (r: string)
    ensures ParseDuration(r) == Some((HoursOf(spentSeconds), MinutesOf(spentSeconds)))
    ensures 'h' in r <==> spentSeconds >= SecondsPerHour
  {
    RenderDurationRoundTrip(spentSeconds);
    RenderDurationSegments(spentSeconds);
    RenderDuration(spentSeconds)
  }
}
