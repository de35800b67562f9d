/** What the two timers show: the `MM:SS` clock text (`updatePomodoroDisplay`
    and `updateCustomDisplay` in static/scripts.js) and the two numbers
    handed to `updateProgressBar`. The percentage itself is a floating-point
    division and is not modelled. */
module Display {
  import opened Optional
  import opened JsNum

  /** Length of a work period and of a break, in seconds. */
  const WorkSeconds := 1500
  const BreakSeconds := 300

  function PeriodLength(isBreak: bool): (total: int)
    ensures total == (if isBreak then BreakSeconds else WorkSeconds)
  {
    if isBreak then 300 else 1500
  }

  /** `Math.floor(t / 60)` and `t % 60` with JavaScript's operators. The
      page only displays counts of zero or more (a custom count is shown
      after a decrement from a positive value, on stop and on load), so the
      negative case is never on screen. */
  function ClockFields(t: int): (r: (int, int))
    ensures t >= 0 ==> r.0 >= 0 && 0 <= r.1 < 60 && r.0 * 60 + r.1 == t
    ensures t < 0 ==> r.0 < 0 && -60 < r.1 <= 0
  {
    (FloorDiv(t, 60), JsRem(t, 60))
  }

  /** The clock text: each field's decimal text padded to two characters,
      joined by a colon. */
  function Clock(t: int): (text: string)
    ensures |text| >= 5
  {
    var (minutes, seconds) := ClockFields(t);
    Layout(minutes, seconds)
  }

  /** Minutes and seconds laid out as the clock shows them. */
  function Layout(minutes: int, seconds: int): (text: string)
    ensures |text| >= 5
  {
    PadStart2(IntToString(minutes)) + ":" + PadStart2(IntToString(seconds))
  }

  /** Reads a clock text back: digits, a colon, then exactly two digits of
      seconds below 60. */
  function ReadClock(text: string): (t: Option<int>)
    ensures t.Some? ==> t.value >= 0
  {
    var n := |text|;
    if n >= 5 && text[n - 3] == ':' then ReadFields(text[..n - 3], text[n - 2..]) else None
  }

  function ReadFields(m: string, s: string): (t: Option<int>)
    ensures t.Some? ==> t.value >= 0
  {
    if AllDigits(m) && AllDigits(s) && DigitsValue(s) < 60
    then Some(DigitsValue(m) * 60 + DigitsValue(s))
    else None
  }

  /** For every count that can appear on a timer the clock text is an exact
      encoding: it reads back as the same number of seconds, with a
      two-digit seconds field. */
  lemma ClockRoundTrip(t: int)
    requires t >= 0
    ensures ReadClock(Clock(t)) == Some(t)
  {
    var fields := ClockFields(t);
    FieldsRead(fields.0, fields.1);
  }

  lemma FieldsRead(minutes: nat, seconds: nat)
    requires seconds < 60
    ensures ReadClock(Layout(minutes, seconds)) == Some(minutes * 60 + seconds)
  {
    var m := PadStart2(NatToString(minutes));
    var s := PadStart2(NatToString(seconds));
    assert Layout(minutes, seconds) == m + ":" + s;
    assert |m| >= 2 && AllDigits(m) && DigitsValue(m) == minutes by {
      PaddedValue(minutes);
    }
    assert |s| == 2 && AllDigits(s) && DigitsValue(s) == seconds by {
      PaddedValue(seconds);
      ShortDigits(seconds);
    }
    DigitsRead(m, s);
  }

  lemma DigitsRead(m: string, s: string)
    requires |m| >= 2 && AllDigits(m)
    requires |s| == 2 && AllDigits(s) && DigitsValue(s) < 60
    ensures ReadClock(m + ":" + s) == Some(DigitsValue(m) * 60 + DigitsValue(s))
  {
    ReadClockOf(m + ":" + s, m, s);
    FieldsOf(m, s);
  }

  lemma FieldsOf(m: string, s: string)
    requires AllDigits(m)
    requires AllDigits(s) && DigitsValue(s) < 60
    ensures ReadFields(m, s) == Some(DigitsValue(m) * 60 + DigitsValue(s))
  {
  }

  lemma ShortDigits(n: nat)
    requires n < 100
    ensures |PadStart2(NatToString(n))| == 2
  {
    if n >= 10 {
      var q := n / 10;
      assert NatToString(q) == [DigitChar(q)];
      assert NatToString(n) == NatToString(q) + [DigitChar(n % 10)];
    }
  }

  lemma ReadClockOf(text: string, m: string, s: string)
    requires text == m + ":" + s && |m| >= 2 && |s| == 2
    ensures ReadClock(text) == ReadFields(m, s)
  {
    var n := |text|;
    assert text[..n - 3] == m;
    assert text[n - 2..] == s;
  }

  /** The two numbers given to the Pomodoro progress bar: elapsed seconds of
      the current period, and the period's length. */
  function PomodoroProgress(timeLeft: int, isBreak: bool): (r: (int, int))
    ensures r.1 == PeriodLength(isBreak)
    ensures r.0 + timeLeft == r.1
    ensures 0 <= timeLeft <= PeriodLength(isBreak) ==> 0 <= r.0 <= r.1
  {
    var total := if isBreak then 300 else 1500;
    (total - timeLeft, total)
  }

  /** The two numbers given to the custom timer's progress bar: the time left
      and one more than it (not the length the timer was started with). */
  function CustomProgress(timeLeft: int): (r: (int, int))
    ensures r.1 - r.0 == 1
    ensures timeLeft >= 0 ==> 0 <= r.0 < r.1
  {
    (timeLeft, timeLeft + 1)
  }
}
