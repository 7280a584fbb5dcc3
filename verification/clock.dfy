/**
  `org.gradle.util.Clock`: a stopwatch over an abstract time provider. The
  provider's current time (milliseconds) is passed in as `now`; the only state
  is the start time captured by construction or `reset`.
 */
module Clock {
  import opened Wrappers
  import Text

  const MS_PER_MINUTE: int := 60000
  const MS_PER_HOUR: int := MS_PER_MINUTE * 60

  datatype Clock = Clock(start: int)

  /** Elapsed milliseconds since the start (`getTimeInMs`). */
  function TimeInMs(c: Clock, now: int): (r: int)
    ensures r == 0 <==> now == c.start
    ensures now > c.start ==> r > 0
  {
    now - c.start
  }

  /** `reset`: restart from the provider's current time. */
  function Reset(c: Clock, now: int): (r: Clock)
    ensures TimeInMs(r, now) == 0
    ensures forall later :: TimeInMs(r, later) == later - now
  {
    Clock(now)
  }

  /** The constructor resets a fresh clock. */
  function New(now: int): (c: Clock)
    ensures TimeInMs(c, now) == 0
    ensures forall later :: TimeInMs(c, later) == later - now
  {
    Reset(Clock(0), now)
  }

  /** The elapsed time grows exactly as the provider's time does, whatever the start. */
  lemma ElapsedTracksProvider(c: Clock, t1: int, t2: int)
    ensures TimeInMs(c, t2) - TimeInMs(c, t1) == t2 - t1
  {
  }

  // ---------------------------------------------------------------- Java arithmetic

  /** Java's `long` division: the quotient is truncated toward zero. */
  function JavaDiv(a: int, b: int): int
    requires b > 0
  {
    if a >= 0 then a / b else -((-a) / b)
  }

  /** Java's `%`: the remainder takes the sign of the dividend. */
  function JavaRem(a: int, b: int): (r: int)
    requires b > 0
    ensures a == JavaDiv(a, b) * b + r
    ensures -b < r < b
    ensures a >= 0 ==> 0 <= r
    ensures a <= 0 ==> r <= 0
  {
    EuclidNat(if a >= 0 then a else -a, b);
    if a >= 0 then a % b else -((-a) % b)
  }

  lemma EuclidNat(a: nat, b: int)
    requires b > 0
    ensures a == a / b * b + a % b && 0 <= a % b < b
  {
  }

  // ---------------------------------------------------------------- getTime

  /** The numbers `getTime` prints: optional hours, optional minutes and the
      milliseconds behind the seconds value. */
  datatype Segments = Segments(hours: Option<int>, minutes: Option<int>, secondMillis: int)

  /** The segments of `getTime` as written, with strict `>` thresholds. */
  function TimeSegments(t: int): (s: Segments)
    ensures s.hours.Some? <==> t > MS_PER_HOUR
    ensures s.hours.Some? ==> s.hours.value >= 1 && s.hours.value * MS_PER_HOUR <= t
    ensures s.minutes.Some? <==> t > MS_PER_MINUTE
    ensures s.minutes.Some? ==> 0 <= s.minutes.value < 60
    ensures -MS_PER_MINUTE < s.secondMillis < MS_PER_MINUTE
    ensures t >= 0 ==> 0 <= s.secondMillis
    ensures t < MS_PER_MINUTE ==> s.secondMillis == JavaRem(t, MS_PER_MINUTE)
  {
    Segments(
      if t > MS_PER_HOUR then Some(JavaDiv(t, MS_PER_HOUR)) else None,
      if t > MS_PER_MINUTE then Some(JavaDiv(JavaRem(t, MS_PER_HOUR), MS_PER_MINUTE)) else None,
      JavaRem(t, MS_PER_MINUTE))
  }

  /** The time the printed segments add up to, an absent segment counting zero. */
  function Recombine(s: Segments): int {
    s.hours.GetOr(0) * MS_PER_HOUR + s.minutes.GetOr(0) * MS_PER_MINUTE + s.secondMillis
  }

  lemma RemainderOfHourThenMinute(t: nat)
    ensures (t % MS_PER_HOUR) % MS_PER_MINUTE == t % MS_PER_MINUTE
    ensures (t % MS_PER_HOUR) / MS_PER_MINUTE * MS_PER_MINUTE + t % MS_PER_MINUTE == t % MS_PER_HOUR
  {
    var h := t / MS_PER_HOUR;
    var r := t % MS_PER_HOUR;
    assert t == h * MS_PER_HOUR + r;
    assert h * MS_PER_HOUR == (h * 60) * MS_PER_MINUTE;
    assert t == (h * 60) * MS_PER_MINUTE + r;
    var q := r / MS_PER_MINUTE;
    var m := r % MS_PER_MINUTE;
    assert r == q * MS_PER_MINUTE + m;
    assert t == (h * 60 + q) * MS_PER_MINUTE + m;
  }

  /**
    For a non-negative elapsed time the printed segments add back up to it
    exactly unless it is exactly one minute or exactly one hour: there the strict
    comparison drops the segment that should hold the whole amount.
   */
  lemma RecombineAsWritten(t: int)
    requires t >= 0
    ensures Recombine(TimeSegments(t)) == t <==> t != MS_PER_MINUTE && t != MS_PER_HOUR
  {
    RemainderOfHourThenMinute(t);
    if t == MS_PER_MINUTE || t == MS_PER_HOUR {
      assert Recombine(TimeSegments(t)) == 0;
    } else if t > MS_PER_HOUR {
      assert t == t / MS_PER_HOUR * MS_PER_HOUR + t % MS_PER_HOUR;
    }
  }

  /** The concrete boundary inputs: one minute and one hour both add up to nothing. */
  lemma BoundaryLosesTime()
    ensures TimeSegments(MS_PER_MINUTE) == Segments(None, None, 0)
    ensures TimeSegments(MS_PER_HOUR) == Segments(None, Some(0), 0)
    ensures Recombine(TimeSegments(MS_PER_MINUTE)) == 0
    ensures Recombine(TimeSegments(MS_PER_HOUR)) == 0
  {
  }

  /** The segments with inclusive `>=` thresholds, which the printing evidently intends. */
  function TimeSegmentsCorrected(t: int): (s: Segments)
    ensures s.hours.Some? <==> t >= MS_PER_HOUR
    ensures s.minutes.Some? <==> t >= MS_PER_MINUTE
    ensures s.minutes.Some? ==> 0 <= s.minutes.value < 60
    ensures -MS_PER_MINUTE < s.secondMillis < MS_PER_MINUTE
  {
    Segments(
      if t >= MS_PER_HOUR then Some(JavaDiv(t, MS_PER_HOUR)) else None,
      if t >= MS_PER_MINUTE then Some(JavaDiv(JavaRem(t, MS_PER_HOUR), MS_PER_MINUTE)) else None,
      JavaRem(t, MS_PER_MINUTE))
  }

  /** With inclusive thresholds every non-negative elapsed time is printed in full. */
  lemma RecombineCorrected(t: int)
    requires t >= 0
    ensures Recombine(TimeSegmentsCorrected(t)) == t
  {
    RemainderOfHourThenMinute(t);
    if t >= MS_PER_HOUR {
      assert t == t / MS_PER_HOUR * MS_PER_HOUR + t % MS_PER_HOUR;
    }
  }

  /** The two thresholds differ only at the two boundary values. */
  lemma CorrectedDiffersOnlyAtBoundaries(t: int)
    ensures TimeSegmentsCorrected(t) != TimeSegments(t) <==> t == MS_PER_MINUTE || t == MS_PER_HOUR
  {
  }

  // ---------------------------------------------------------------- rendering

  /** The digits after the decimal point of `f` thousandths, trailing zeros
      dropped but at least one digit kept. */
  function FractionDigits(f: nat): (s: string)
    requires f < 1000
    ensures 1 <= |s| <= 3 && Text.AllDigits(s)
    ensures |s| > 1 ==> s[|s| - 1] != '0'
  {
    var d := [Text.Digit(f / 100), Text.Digit(f / 10 % 10), Text.Digit(f % 10)];
    if f % 100 == 0 then d[..1] else if f % 10 == 0 then d[..2] else d
  }

  /** `Double.toString(ms / 1000.0)` for a millisecond count under one minute:
      plain decimal notation of the exact value. */
  function SecondsText(ms: int): string
    requires -MS_PER_MINUTE < ms < MS_PER_MINUTE
  {
    var a := if ms < 0 then -ms else ms;
    (if ms < 0 then "-" else "") + Text.NatToString(a / 1000) + "." + FractionDigits(a % 1000)
  }

  function Render(s: Segments): string
    requires -MS_PER_MINUTE < s.secondMillis < MS_PER_MINUTE
  {
    (if s.hours.Some? then Text.IntToString(s.hours.value) + " hrs " else "")
    + (if s.minutes.Some? then Text.IntToString(s.minutes.value) + " mins " else "")
    + SecondsText(s.secondMillis) + " secs"
  }

  /** `getTime`: the elapsed time as text. */
  function GetTime(c: Clock, now: int): (r: string)
    ensures |r| >= 8 && r[|r| - 5..] == " secs"
    ensures TimeInMs(c, now) > MS_PER_HOUR ==>
      var h := Text.IntToString(TimeInMs(c, now) / MS_PER_HOUR) + " hrs ";
      |h| <= |r| && r[..|h|] == h
  {
    Render(TimeSegments(TimeInMs(c, now)))
  }

  /** Up to one minute inclusive `getTime` prints only seconds. */
  lemma GetTimeSecondsBand(c: Clock, now: int)
    requires 0 <= TimeInMs(c, now) <= MS_PER_MINUTE
    ensures GetTime(c, now) == SecondsText(TimeInMs(c, now) % MS_PER_MINUTE) + " secs"
  {
    var t := TimeInMs(c, now);
    assert JavaRem(t, MS_PER_MINUTE) == t % MS_PER_MINUTE;
    assert TimeSegments(t) == Segments(None, None, t % MS_PER_MINUTE);
  }

  /** Above one minute and up to one hour inclusive `getTime` prints the minutes
      of the hour, then the seconds of the minute; at exactly one hour that is
      `0 mins`. */
  lemma GetTimeMinutesBand(c: Clock, now: int)
    requires MS_PER_MINUTE < TimeInMs(c, now) <= MS_PER_HOUR
    ensures var t := TimeInMs(c, now);
      GetTime(c, now)
      == Text.IntToString(t % MS_PER_HOUR / MS_PER_MINUTE) + " mins " + SecondsText(t % MS_PER_MINUTE) + " secs"
  {
    var t := TimeInMs(c, now);
    var r := JavaRem(t, MS_PER_HOUR);
    assert r == t % MS_PER_HOUR;
    assert JavaDiv(r, MS_PER_MINUTE) == r / MS_PER_MINUTE;
    assert JavaRem(t, MS_PER_MINUTE) == t % MS_PER_MINUTE;
    assert TimeSegments(t) == Segments(None, Some(t % MS_PER_HOUR / MS_PER_MINUTE), t % MS_PER_MINUTE);
  }

  /** Above one hour `getTime` prints hours, minutes of the hour and seconds of the minute. */
  lemma GetTimeHoursBand(c: Clock, now: int)
    requires TimeInMs(c, now) > MS_PER_HOUR
    ensures var t := TimeInMs(c, now);
      GetTime(c, now)
      == Text.IntToString(t / MS_PER_HOUR) + " hrs "
         + Text.IntToString(t % MS_PER_HOUR / MS_PER_MINUTE) + " mins "
         + SecondsText(t % MS_PER_MINUTE) + " secs"
  {
    var t := TimeInMs(c, now);
    var r := JavaRem(t, MS_PER_HOUR);
    assert JavaDiv(t, MS_PER_HOUR) == t / MS_PER_HOUR;
    assert r == t % MS_PER_HOUR;
    assert JavaDiv(r, MS_PER_MINUTE) == r / MS_PER_MINUTE;
    assert JavaRem(t, MS_PER_MINUTE) == t % MS_PER_MINUTE;
    assert TimeSegments(t)
      == Segments(Some(t / MS_PER_HOUR), Some(t % MS_PER_HOUR / MS_PER_MINUTE), t % MS_PER_MINUTE);
  }

  /** At exactly one minute `getTime` loses the minute. */
  lemma GetTimeAtMinute(c: Clock)
    ensures GetTime(c, c.start + MS_PER_MINUTE) == "0.0 secs"
  {
    assert TimeInMs(c, c.start + MS_PER_MINUTE) == MS_PER_MINUTE;
    assert TimeSegments(MS_PER_MINUTE) == Segments(None, None, 0);
    assert Text.NatToString(0) == "0";
    assert FractionDigits(0) == "0";
    assert SecondsText(0) == "0.0";
  }

  /** At exactly one hour `getTime` loses the hour. */
  lemma GetTimeAtHour(c: Clock)
    ensures GetTime(c, c.start + MS_PER_HOUR) == "0 mins 0.0 secs"
  {
    assert TimeInMs(c, c.start + MS_PER_HOUR) == MS_PER_HOUR;
    assert TimeSegments(MS_PER_HOUR) == Segments(None, Some(0), 0);
    assert Text.NatToString(0) == "0";
    assert Text.IntToString(0) == "0";
    assert FractionDigits(0) == "0";
    assert SecondsText(0) == "0.0";
  }

  /** Just past one minute both units are shown. */
  lemma GetTimePastMinute(c: Clock)
    ensures GetTime(c, c.start + 61500) == "1 mins 1.5 secs"
  {
    assert TimeInMs(c, c.start + 61500) == 61500;
    assert TimeSegments(61500) == Segments(None, Some(1), 1500);
    assert Text.NatToString(1) == "1";
    assert Text.IntToString(1) == "1";
    assert FractionDigits(500) == "5";
    assert SecondsText(1500) == "1.5";
  }

  /** `getTime` with inclusive thresholds: what the rendering evidently intends. */
  function GetTimeCorrected(c: Clock, now: int): (r: string)
    ensures |r| >= 8 && r[|r| - 5..] == " secs"
    ensures TimeInMs(c, now) >= MS_PER_HOUR ==>
      var h := Text.IntToString(TimeInMs(c, now) / MS_PER_HOUR) + " hrs ";
      |h| <= |r| && r[..|h|] == h
  {
    Render(TimeSegmentsCorrected(TimeInMs(c, now)))
  }

  /** With inclusive thresholds one minute keeps its minute. */
  lemma GetTimeCorrectedAtMinute(c: Clock)
    ensures GetTimeCorrected(c, c.start + MS_PER_MINUTE) == "1 mins 0.0 secs"
  {
    assert TimeInMs(c, c.start + MS_PER_MINUTE) == MS_PER_MINUTE;
    assert TimeSegmentsCorrected(MS_PER_MINUTE) == Segments(None, Some(1), 0);
    assert Text.NatToString(0) == "0";
    assert Text.IntToString(1) == "1";
    assert FractionDigits(0) == "0";
    assert SecondsText(0) == "0.0";
  }

  /** With inclusive thresholds one hour keeps its hour. */
  lemma GetTimeCorrectedAtHour(c: Clock)
    ensures GetTimeCorrected(c, c.start + MS_PER_HOUR) == "1 hrs 0 mins 0.0 secs"
  {
    assert TimeInMs(c, c.start + MS_PER_HOUR) == MS_PER_HOUR;
    GetTimeCorrectedHoursBand(c, c.start + MS_PER_HOUR);
    assert MS_PER_HOUR / MS_PER_HOUR == 1 && MS_PER_HOUR % MS_PER_HOUR / MS_PER_MINUTE == 0;
    assert MS_PER_HOUR % MS_PER_MINUTE == 0;
    assert Text.IntToString(1) == "1" && Text.IntToString(0) == "0";
    assert SecondsText(0) == "0.0" by {
      assert Text.NatToString(0) == "0";
      assert FractionDigits(0) == "0";
    }
  }

  /** With inclusive thresholds, below one minute only seconds are printed. */
  lemma GetTimeCorrectedSecondsBand(c: Clock, now: int)
    requires 0 <= TimeInMs(c, now) < MS_PER_MINUTE
    ensures GetTimeCorrected(c, now) == SecondsText(TimeInMs(c, now) % MS_PER_MINUTE) + " secs"
  {
    var t := TimeInMs(c, now);
    assert JavaRem(t, MS_PER_MINUTE) == t % MS_PER_MINUTE;
    assert TimeSegmentsCorrected(t) == Segments(None, None, t % MS_PER_MINUTE);
  }

  /** With inclusive thresholds, from one minute to below one hour the minutes
      and then the seconds of the minute are printed. */
  lemma GetTimeCorrectedMinutesBand(c: Clock, now: int)
    requires MS_PER_MINUTE <= TimeInMs(c, now) < MS_PER_HOUR
    ensures var t := TimeInMs(c, now);
      GetTimeCorrected(c, now)
      == Text.IntToString(t % MS_PER_HOUR / MS_PER_MINUTE) + " mins " + SecondsText(t % MS_PER_MINUTE) + " secs"
  {
    var t := TimeInMs(c, now);
    var r := JavaRem(t, MS_PER_HOUR);
    assert r == t % MS_PER_HOUR;
    assert JavaDiv(r, MS_PER_MINUTE) == r / MS_PER_MINUTE;
    assert JavaRem(t, MS_PER_MINUTE) == t % MS_PER_MINUTE;
    assert TimeSegmentsCorrected(t) == Segments(None, Some(t % MS_PER_HOUR / MS_PER_MINUTE), t % MS_PER_MINUTE);
  }

  /** With inclusive thresholds, from one hour on hours, minutes and seconds are printed. */
  lemma GetTimeCorrectedHoursBand(c: Clock, now: int)
    requires TimeInMs(c, now) >= MS_PER_HOUR
    ensures var t := TimeInMs(c, now);
      GetTimeCorrected(c, now)
      == Text.IntToString(t / MS_PER_HOUR) + " hrs "
         + Text.IntToString(t % MS_PER_HOUR / MS_PER_MINUTE) + " mins "
         + SecondsText(t % MS_PER_MINUTE) + " secs"
  {
    var t := TimeInMs(c, now);
    var r := JavaRem(t, MS_PER_HOUR);
    assert JavaDiv(t, MS_PER_HOUR) == t / MS_PER_HOUR;
    assert r == t % MS_PER_HOUR;
    assert JavaDiv(r, MS_PER_MINUTE) == r / MS_PER_MINUTE;
    assert JavaRem(t, MS_PER_MINUTE) == t % MS_PER_MINUTE;
    assert TimeSegmentsCorrected(t)
      == Segments(Some(t / MS_PER_HOUR), Some(t % MS_PER_HOUR / MS_PER_MINUTE), t % MS_PER_MINUTE);
  }
}
