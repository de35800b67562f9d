/** The two countdown timers of static/scripts.js. Each keeps its state in
    module-level variables that the button handlers and a one-second
    `setInterval` callback update in place. Here the registered interval is
    the field `intervalActive`, and one firing of the callback is `Tick()`: a
    tick while no interval is registered is a second in which nothing runs.

    Each timer is a class over the source's variables, whose methods are
    proved against pure functions on a snapshot datatype; the properties of
    the timers are lemmas about those functions. */
module Timers {
  import opened JsNum
  import opened Display

  // ---------------------------------------------------------------------
  // Pomodoro timer

  /** A snapshot of the Pomodoro variables (`pomodoroTimeLeft`,
      `isPomodoroPaused`, `pomodoroSessions`, `isBreakTime`) and whether
      `pomodoroInterval` is a live interval. */
  datatype Pomodoro = Pomodoro(
    timeLeft: int, paused: bool, sessions: int, isBreak: bool, intervalActive: bool)

  /** The values the variables hold when the page loads. */
  const PomodoroInitial := Pomodoro(WorkSeconds, true, 0, false, false)

  /** What every reachable state satisfies: the time left is within the
      current period, and an interval only runs while the timer is not
      paused, so `startPomodoro` never registers a second one. */
  predicate PomodoroValid(p: Pomodoro) {
    0 <= p.timeLeft <= PeriodLength(p.isBreak) && p.sessions >= 0 &&
    (p.intervalActive ==> !p.paused)
  }

  /** `startPomodoro`: acts only when paused; then it unpauses and registers
      the interval. Time, mode and session count are never touched. */
  function PomodoroStart(p: Pomodoro): (r: Pomodoro)
    ensures r.timeLeft == p.timeLeft && r.sessions == p.sessions && r.isBreak == p.isBreak
    ensures p.paused ==> !r.paused && r.intervalActive
    ensures !p.paused ==> r == p
    ensures PomodoroValid(p) ==> PomodoroValid(r)
  {
    if p.paused then p.(paused := false, intervalActive := true) else p
  }

  /** One firing of the interval callback. While time is left it counts
      down by one second. At zero it clears the interval, counts a session,
      switches between work and break, resets the time to the new period's
      length and calls `startPomodoro` again, which does nothing because the
      timer is not paused: the timer is left unpaused with no interval. */
  function PomodoroTick(p: Pomodoro): (r: Pomodoro)
    ensures !p.intervalActive ==> r == p
    ensures p.intervalActive && p.timeLeft > 0 ==> r == p.(timeLeft := p.timeLeft - 1)
    ensures p.intervalActive && p.timeLeft <= 0 ==>
              r.sessions == p.sessions + 1 && r.isBreak == !p.isBreak &&
              r.timeLeft == PeriodLength(r.isBreak)
    ensures p.intervalActive && p.timeLeft <= 0 && !p.paused ==> !r.paused && !r.intervalActive
    ensures PomodoroValid(p) ==> PomodoroValid(r)
  {
    if !p.intervalActive then p
    else if p.timeLeft > 0 then p.(timeLeft := p.timeLeft - 1)
    else
      var isBreak := !p.isBreak;
      var cleared := p.(intervalActive := false, sessions := p.sessions + 1, isBreak := isBreak,
                        timeLeft := if isBreak then BreakSeconds else WorkSeconds);
      PomodoroStart(cleared)
  }

  /** `pausePomodoro`: acts only when running; the time left is kept. */
  function PomodoroPause(p: Pomodoro): (r: Pomodoro)
    ensures r.timeLeft == p.timeLeft && r.sessions == p.sessions && r.isBreak == p.isBreak
    ensures r.paused && (p.paused ==> r == p)
    ensures !p.paused ==> !r.intervalActive
    ensures PomodoroValid(p) ==> PomodoroValid(r)
  {
    if !p.paused then p.(intervalActive := false, paused := true) else p
  }

  /** `stopPomodoro`: whatever the state, back to a paused full work period;
      the session count is kept. */
  function PomodoroStop(p: Pomodoro): (r: Pomodoro)
    ensures r.paused && !r.intervalActive && r.timeLeft == WorkSeconds && !r.isBreak
    ensures r.sessions == p.sessions
    ensures p.sessions >= 0 ==> PomodoroValid(r)
  {
    p.(intervalActive := false, paused := true, timeLeft := 1500, isBreak := false)
  }

  /** The Pomodoro button presses and interval firings. */
  datatype PomodoroEvent = PressStart | PressPause | PressStop | Second

  function PomodoroStep(p: Pomodoro, e: PomodoroEvent): Pomodoro {
    match e
    case PressStart => PomodoroStart(p)
    case PressPause => PomodoroPause(p)
    case PressStop => PomodoroStop(p)
    case Second => PomodoroTick(p)
  }

  /** The state after a sequence of events, first event first. */
  function PomodoroRun(p: Pomodoro, events: seq<PomodoroEvent>): Pomodoro
    decreases |events|
  {
    if events == [] then p else PomodoroRun(PomodoroStep(p, events[0]), events[1..])
  }

  /** The state after `k` seconds with no button pressed. */
  function PomodoroTicks(p: Pomodoro, k: nat): Pomodoro
    decreases k
  {
    if k == 0 then p else PomodoroTicks(PomodoroTick(p), k - 1)
  }

  /** Every state reached from the initial one, by any presses and seconds,
      is valid; in particular no second interval is ever registered. */
  lemma {:induction false} PomodoroRunValid(p: Pomodoro, events: seq<PomodoroEvent>)
    requires PomodoroValid(p)
    ensures PomodoroValid(PomodoroRun(p, events))
    decreases |events|
  {
    if events != [] {
      PomodoroRunValid(PomodoroStep(p, events[0]), events[1..]);
    }
  }

  /** A running timer counts down one second per tick, changing nothing
      else, until it reaches zero. */
  lemma {:induction false} PomodoroCountdown(p: Pomodoro, k: nat)
    requires p.intervalActive && k <= p.timeLeft
    ensures PomodoroTicks(p, k) == p.(timeLeft := p.timeLeft - k)
    decreases k
  {
    if k > 0 {
      PomodoroCountdown(p.(timeLeft := p.timeLeft - 1), k - 1);
    }
  }

  /** Without a registered interval, time does not move. */
  lemma {:induction false} PomodoroIdle(p: Pomodoro, k: nat)
    requires !p.intervalActive
    ensures PomodoroTicks(p, k) == p
    decreases k
  {
    if k > 0 {
      PomodoroIdle(p, k - 1);
    }
  }

  lemma {:induction false} PomodoroTicksAdd(p: Pomodoro, a: nat, b: nat)
    ensures PomodoroTicks(p, a + b) == PomodoroTicks(PomodoroTicks(p, a), b)
    decreases a
  {
    if a > 0 {
      PomodoroTicksAdd(PomodoroTick(p), a - 1, b);
    }
  }

  /** A work period from the initial state: after 1500 seconds the clock
      shows zero; the next second completes the session and switches to a
      5-minute break, but the timer then stays at 300 seconds for good,
      unpaused, until it is paused or stopped. */
  lemma FirstSessionStalls(k: nat)
    ensures PomodoroTicks(PomodoroStart(PomodoroInitial), WorkSeconds) ==
            Pomodoro(0, false, 0, false, true)
    ensures PomodoroTicks(PomodoroStart(PomodoroInitial), WorkSeconds + 1 + k) ==
            Pomodoro(BreakSeconds, false, 1, true, false)
  {
    var running := PomodoroStart(PomodoroInitial);
    PomodoroCountdown(running, WorkSeconds);
    var atZero := PomodoroTicks(running, WorkSeconds);
    PomodoroTicksAdd(running, WorkSeconds, 1 + k);
    PomodoroTicksAdd(atZero, 1, k);
    PomodoroIdle(PomodoroTick(atZero), k);
  }

  /** From the stalled state only pausing (or stopping) and starting again
      gets the timer running: start alone does nothing, pause then start
      resumes the new period from its full length. */
  lemma StalledRecovery(p: Pomodoro)
    requires !p.paused && !p.intervalActive
    ensures PomodoroStart(p) == p
    ensures PomodoroStart(PomodoroPause(p)) == p.(intervalActive := true)
  {
  }

  /** Stop then start always gives a running full work period. */
  lemma StopThenStart(p: Pomodoro)
    ensures PomodoroStart(PomodoroStop(p)) == Pomodoro(WorkSeconds, false, p.sessions, false, true)
  {
  }

  /** The Pomodoro variables, updated in place. */
  class PomodoroTimer {
    var timeLeft: int
    var paused: bool
    var sessions: int
    var isBreak: bool
    var intervalActive: bool

    function State(): Pomodoro
      reads this
    {
      Pomodoro(timeLeft, paused, sessions, isBreak, intervalActive)
    }

    constructor ()
      ensures State() == PomodoroInitial
    {
      timeLeft := 1500;
      paused := true;
      sessions := 0;
      isBreak := false;
      intervalActive := false;
    }

    method Start()
      modifies this
      ensures State() == PomodoroStart(old(State()))
    {
      if paused {
        paused := false;
        intervalActive := true;
      }
    }

    method Tick()
      modifies this
      ensures State() == PomodoroTick(old(State()))
    {
      if intervalActive {
        if timeLeft > 0 {
          timeLeft := timeLeft - 1;
        } else {
          intervalActive := false;
          sessions := sessions + 1;
          isBreak := !isBreak;
          timeLeft := if isBreak then 300 else 1500;
          Start();
        }
      }
    }

    method Pause()
      modifies this
      ensures State() == PomodoroPause(old(State()))
    {
      if !paused {
        intervalActive := false;
        paused := true;
      }
    }

    method Stop()
      modifies this
      ensures State() == PomodoroStop(old(State()))
    {
      intervalActive := false;
      paused := true;
      timeLeft := 1500;
      isBreak := false;
    }

    /** `updatePomodoroDisplay`: the clock text and the progress bar's
        elapsed and total seconds. */
    method Display() returns (text: string, elapsed: int, total: int)
      ensures text == Clock(timeLeft)
      ensures total == PeriodLength(isBreak) && elapsed == total - timeLeft
    {
      var minutes := FloorDiv(timeLeft, 60);
      var seconds := JsRem(timeLeft, 60);
      text := PadStart2(IntToString(minutes)) + ":" + PadStart2(IntToString(seconds));
      total := if isBreak then 300 else 1500;
      elapsed := total - timeLeft;
    }
  }

  // ---------------------------------------------------------------------
  // Custom timer

  /** A snapshot of `customTimeLeft`, `isCustomPaused` and whether
      `customInterval` is a live interval. */
  datatype Custom = Custom(timeLeft: int, paused: bool, intervalActive: bool)

  const CustomInitial := Custom(0, true, false)

  /** An interval is registered exactly while the timer is not paused. */
  predicate CustomValid(c: Custom) {
    c.intervalActive <==> !c.paused
  }

  /** The seconds the two input fields ask for: non-numbers count as 0. */
  function RequestedSeconds(minutesInput: string, secondsInput: string): (t: int)
    ensures ParseInt(minutesInput).None? && ParseInt(secondsInput).None? ==> t == 0
    ensures ParseInt(minutesInput).None? && ParseInt(secondsInput).Some? ==>
              t == ParseInt(secondsInput).value
    ensures ParseInt(minutesInput).Some? && ParseInt(secondsInput).None? ==>
              t == ParseInt(minutesInput).value * 60
  {
    ParseIntOrZero(minutesInput) * 60 + ParseIntOrZero(secondsInput)
  }

  /** Fields holding the decimal text of two integers ask for that many
      minutes and seconds. */
  lemma Typed(minutes: int, seconds: int)
    ensures RequestedSeconds(IntToString(minutes), IntToString(seconds)) == minutes * 60 + seconds
  {
    ParseIntToString(minutes);
    ParseIntToString(seconds);
  }

  /** `startCustomTimer` once the inputs are read (`requested` is
      `RequestedSeconds` of them): always overwrites the time left (so a
      start after a pause restarts rather than resumes); starts ticking only
      when paused and the requested time is positive. */
  function CustomStart(c: Custom, requested: int): (r: Custom)
    ensures r.timeLeft == requested
    ensures c.paused && requested > 0 ==> !r.paused && r.intervalActive
    ensures !(c.paused && requested > 0) ==> r.paused == c.paused && r.intervalActive == c.intervalActive
    ensures CustomValid(c) ==> CustomValid(r)
  {
    var reset := c.(timeLeft := requested);
    if reset.paused && reset.timeLeft > 0 then reset.(paused := false, intervalActive := true) else reset
  }

  /** One firing of the custom interval callback: counts down while time is
      left; the firing after reaching zero clears the interval and pauses. */
  function CustomTick(c: Custom): (r: Custom)
    ensures !c.intervalActive ==> r == c
    ensures c.intervalActive && c.timeLeft > 0 ==> r == c.(timeLeft := c.timeLeft - 1)
    ensures c.intervalActive && c.timeLeft <= 0 ==>
              r == c.(paused := true, intervalActive := false)
    ensures CustomValid(c) ==> CustomValid(r)
  {
    if !c.intervalActive then c
    else if c.timeLeft > 0 then c.(timeLeft := c.timeLeft - 1)
    else c.(intervalActive := false, paused := true)
  }

  /** `pauseCustomTimer`: acts only when running; the time left is kept. */
  function CustomPause(c: Custom): (r: Custom)
    ensures r.timeLeft == c.timeLeft && r.paused
    ensures c.paused ==> r == c
    ensures !c.paused ==> !r.intervalActive
    ensures CustomValid(c) ==> CustomValid(r)
  {
    if !c.paused then c.(intervalActive := false, paused := true) else c
  }

  /** `stopCustomTimer`: paused at zero, whatever the state. */
  function CustomStop(c: Custom): (r: Custom)
    ensures r == CustomInitial
  {
    Custom(0, true, false)
  }

  datatype CustomEvent = PressStartWith(minutesInput: string, secondsInput: string)
                       | PressPauseCustom | PressStopCustom | SecondCustom

  function CustomStep(c: Custom, e: CustomEvent): Custom {
    match e
    case PressStartWith(m, s) => CustomStart(c, RequestedSeconds(m, s))
    case PressPauseCustom => CustomPause(c)
    case PressStopCustom => CustomStop(c)
    case SecondCustom => CustomTick(c)
  }

  function CustomRun(c: Custom, events: seq<CustomEvent>): Custom
    decreases |events|
  {
    if events == [] then c else CustomRun(CustomStep(c, events[0]), events[1..])
  }

  function CustomTicks(c: Custom, k: nat): Custom
    decreases k
  {
    if k == 0 then c else CustomTicks(CustomTick(c), k - 1)
  }

  /** Every reachable custom timer state is valid: at most one interval, and
      only while running. */
  lemma {:induction false} CustomRunValid(c: Custom, events: seq<CustomEvent>)
    requires CustomValid(c)
    ensures CustomValid(CustomRun(c, events))
    decreases |events|
  {
    if events != [] {
      CustomRunValid(CustomStep(c, events[0]), events[1..]);
    }
  }

  lemma {:induction false} CustomCountdown(c: Custom, k: nat)
    requires c.intervalActive && k <= c.timeLeft
    ensures CustomTicks(c, k) == c.(timeLeft := c.timeLeft - k)
    decreases k
  {
    if k > 0 {
      CustomCountdown(c.(timeLeft := c.timeLeft - 1), k - 1);
    }
  }

  lemma {:induction false} CustomIdle(c: Custom, k: nat)
    requires !c.intervalActive
    ensures CustomTicks(c, k) == c
    decreases k
  {
    if k > 0 {
      CustomIdle(c, k - 1);
    }
  }

  lemma {:induction false} CustomTicksAdd(c: Custom, a: nat, b: nat)
    ensures CustomTicks(c, a + b) == CustomTicks(CustomTicks(c, a), b)
    decreases a
  {
    if a > 0 {
      CustomTicksAdd(CustomTick(c), a - 1, b);
    }
  }

  /** Started from a paused timer with a positive request of `t` seconds,
      the timer runs down to zero in `t` seconds, stops on the next one, and
      then stays paused at zero. */
  lemma CustomRunsOut(c: Custom, t: int, k: nat)
    requires c.paused && t > 0
    ensures CustomTicks(CustomStart(c, t), t) == Custom(0, false, true)
    ensures CustomTicks(CustomStart(c, t), t + 1 + k) == Custom(0, true, false)
  {
    assert CustomStart(c, t) == Custom(t, false, true);
    RunsOutFrom(t, k);
  }

  lemma RunsOutFrom(t: nat, k: nat)
    ensures CustomTicks(Custom(t, false, true), t) == Custom(0, false, true)
    ensures CustomTicks(Custom(t, false, true), t + 1 + k) == Custom(0, true, false)
  {
    var started := Custom(t, false, true);
    CustomCountdown(started, t);
    var atZero := CustomTicks(started, t);
    CustomTicksAdd(started, t, 1 + k);
    CustomTicksAdd(atZero, 1, k);
    CustomIdle(CustomTick(atZero), k);
  }

  /** The custom timer variables, updated in place. */
  class CustomTimer {
    var timeLeft: int
    var paused: bool
    var intervalActive: bool

    function State(): Custom
      reads this
    {
      Custom(timeLeft, paused, intervalActive)
    }

    constructor ()
      ensures State() == CustomInitial
    {
      timeLeft := 0;
      paused := true;
      intervalActive := false;
    }

    /** The two input fields' text is passed in. */
    method Start(minutesInput: string, secondsInput: string)
      modifies this
      ensures State() == CustomStart(old(State()), RequestedSeconds(minutesInput, secondsInput))
    {
      var minutes := ParseIntOrZero(minutesInput);
      var seconds := ParseIntOrZero(secondsInput);
      timeLeft := minutes * 60 + seconds;
      if paused && timeLeft > 0 {
        paused := false;
        intervalActive := true;
      }
    }

    method Tick()
      modifies this
      ensures State() == CustomTick(old(State()))
    {
      if intervalActive {
        if timeLeft > 0 {
          timeLeft := timeLeft - 1;
        } else {
          intervalActive := false;
          paused := true;
        }
      }
    }

    method Pause()
      modifies this
      ensures State() == CustomPause(old(State()))
    {
      if !paused {
        intervalActive := false;
        paused := true;
      }
    }

    method Stop()
      modifies this
      ensures State() == CustomStop(old(State()))
    {
      intervalActive := false;
      paused := true;
      timeLeft := 0;
    }

    /** `updateCustomDisplay`: the clock text and the progress bar's two
        numbers. */
    method Display() returns (text: string, current: int, total: int)
      ensures text == Clock(timeLeft)
      ensures (current, total) == CustomProgress(timeLeft)
    {
      var minutes := FloorDiv(timeLeft, 60);
      var seconds := JsRem(timeLeft, 60);
      text := PadStart2(IntToString(minutes)) + ":" + PadStart2(IntToString(seconds));
      current, total := timeLeft, timeLeft + 1;
    }
  }
}
