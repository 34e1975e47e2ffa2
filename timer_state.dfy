/**
 The Pomodoro timer as a pure state machine. A React event handler (or the
 interval callback) computes the next values of the state hooks; afterwards
 the re-sync effect runs if one of its dependencies (workTime, breakTime,
 isBreak) changed, setting timeLeft to the full length of the current phase.
 Step composes the two, so it is the state the component settles in after one
 event.
 */
module PomodoroState {

  const DEFAULT_WORK_MINUTES := 25
  const DEFAULT_BREAK_MINUTES := 5

  /** The choices offered by the work-time select. */
  predicate IsWorkOption(minutes: int) {
    minutes == 25 || minutes == 30
  }

  /** The choices offered by the break-time select. */
  predicate IsBreakOption(minutes: int) {
    minutes == 5 || minutes == 10
  }

  /**
   The component's five state hooks; `completions` counts the notification
   sounds requested, which is all that is kept of the audio element.
   */
  datatype TimerState = TimerState(
    workTime: int,     // minutes
    breakTime: int,    // minutes
    timeLeft: int,     // seconds
    isRunning: bool,
    isBreak: bool,
    completions: nat)

  /** What the user or the clock can do to the component. */
  datatype Event =
    | ToggleClicked
    | ResetClicked
    | IntervalFired
    | WorkTimeSelected(minutes: int)
    | BreakTimeSelected(minutes: int)

  predicate Allowed(e: Event) {
    match e
    case WorkTimeSelected(m) => IsWorkOption(m)
    case BreakTimeSelected(m) => IsBreakOption(m)
    case _ => true
  }

  /** Length in seconds of the phase the timer is in. */
  function PhaseSeconds(s: TimerState): int {
    if s.isBreak then s.breakTime * 60 else s.workTime * 60
  }

  /** The invariant: durations are select options and 1 <= timeLeft <= the phase length. */
  predicate Valid(s: TimerState) {
    && IsWorkOption(s.workTime)
    && IsBreakOption(s.breakTime)
    && 1 <= s.timeLeft <= PhaseSeconds(s)
  }

  /** The state at mount. */
  function Initial(): (r: TimerState)
    ensures Valid(r) && r.timeLeft == PhaseSeconds(r)
    ensures !r.isRunning && !r.isBreak && r.completions == 0
  {
    TimerState(DEFAULT_WORK_MINUTES, DEFAULT_BREAK_MINUTES, DEFAULT_WORK_MINUTES * 60, false, false, 0)
  }

  // ---------------------------------------------------------------------------
  // Handlers: the state updates each event requests

  /** toggleTimer */
  function ToggleTimer(s: TimerState): TimerState {
    s.(isRunning := !s.isRunning)
  }

  /** resetTimer */
  function ResetTimer(s: TimerState): TimerState {
    s.(isRunning := false, isBreak := false, timeLeft := s.workTime * 60)
  }

  /** The updater passed to setTimeLeft by the interval callback, with its setIsBreak. */
  function TickCallback(s: TimerState): (r: TimerState)
    ensures Valid(s) ==> Valid(r)
    ensures r.isRunning == s.isRunning && r.workTime == s.workTime && r.breakTime == s.breakTime
    ensures s.timeLeft <= 1 ==> r.isBreak != s.isBreak && r.timeLeft == PhaseSeconds(r) && r.completions == s.completions + 1
    ensures s.timeLeft > 1 ==> r.isBreak == s.isBreak && r.timeLeft == s.timeLeft - 1 && r.completions == s.completions
  {
    if s.timeLeft <= 1 then
      s.(isBreak := !s.isBreak,
         timeLeft := if !s.isBreak then s.breakTime * 60 else s.workTime * 60,
         completions := s.completions + 1)
    else
      s.(timeLeft := s.timeLeft - 1)
  }

  /** The re-sync effect body. */
  function Resync(s: TimerState): TimerState {
    s.(timeLeft := PhaseSeconds(s))
  }

  /** Runs the re-sync effect when one of its dependencies changed between renders. */
  function EffectAfter(before: TimerState, after: TimerState): (r: TimerState)
    ensures r.(timeLeft := after.timeLeft) == after
    ensures r.timeLeft == after.timeLeft || r.timeLeft == PhaseSeconds(r)
    ensures IsWorkOption(after.workTime) && IsBreakOption(after.breakTime) && 1 <= after.timeLeft <= PhaseSeconds(after)
      ==> Valid(r)
  {
    if after.workTime != before.workTime || after.breakTime != before.breakTime || after.isBreak != before.isBreak
    then Resync(after)
    else after
  }

  /** The state after one event has been handled and the effects have run. */
  function Step(s: TimerState, e: Event): (r: TimerState)
    ensures r.completions == if e.IntervalFired? && s.isRunning && s.timeLeft <= 1 then s.completions + 1 else s.completions
    ensures r.isRunning == match e
      case ToggleClicked => !s.isRunning
      case ResetClicked => false
      case _ => s.isRunning
  {
    match e
    case ToggleClicked => EffectAfter(s, ToggleTimer(s))
    case ResetClicked => EffectAfter(s, ResetTimer(s))
    case IntervalFired =>
      // the interval exists only while isRunning
      if s.isRunning then EffectAfter(s, TickCallback(s)) else s
    case WorkTimeSelected(m) => EffectAfter(s, s.(workTime := m))
    case BreakTimeSelected(m) => EffectAfter(s, s.(breakTime := m))
  }

  function Run(s: TimerState, events: seq<Event>): TimerState
    decreases |events|
  {
    if events == [] then s else Run(Step(s, events[0]), events[1..])
  }

  /** The same event delivered k times in a row. */
  function Repeat(s: TimerState, e: Event, k: nat): TimerState
    decreases k
  {
    if k == 0 then s else Repeat(Step(s, e), e, k - 1)
  }

  // ---------------------------------------------------------------------------
  // Single events

  lemma InitialValid()
    ensures Valid(Initial())
    ensures Initial().timeLeft == PhaseSeconds(Initial()) == 1500
    ensures !Initial().isRunning && !Initial().isBreak
  {
  }

  /** toggle flips isRunning and nothing else; twice is the identity. */
  lemma ToggleFlipsRunning(s: TimerState)
    ensures Step(s, ToggleClicked).isRunning == !s.isRunning
    ensures Step(s, ToggleClicked).(isRunning := s.isRunning) == s
    ensures Step(Step(s, ToggleClicked), ToggleClicked) == s
  {
  }

  /** reset stops, returns to the work phase with a full work interval, and is idempotent. */
  lemma ResetRestarts(s: TimerState)
    ensures var r := Step(s, ResetClicked);
      && !r.isRunning && !r.isBreak && r.timeLeft == s.workTime * 60
      && r.workTime == s.workTime && r.breakTime == s.breakTime && r.completions == s.completions
    ensures Step(Step(s, ResetClicked), ResetClicked) == Step(s, ResetClicked)
  {
  }

  /** A tick with more than one second left takes exactly one second off. */
  lemma TickCountsDown(s: TimerState)
    requires s.isRunning && s.timeLeft > 1
    ensures Step(s, IntervalFired) == s.(timeLeft := s.timeLeft - 1)
  {
  }

  /**
   A tick at one second or less switches phase, loads the new phase's full
   length, signals completion once and keeps running.
   */
  lemma TickRollsOver(s: TimerState)
    requires s.isRunning && s.timeLeft <= 1
    ensures var r := Step(s, IntervalFired);
      && r.isBreak == !s.isBreak
      && r.timeLeft == (if s.isBreak then s.workTime * 60 else s.breakTime * 60)
      && r.timeLeft == PhaseSeconds(r)
      && r.completions == s.completions + 1
      && r.isRunning
      && r.workTime == s.workTime && r.breakTime == s.breakTime
  {
  }

  /** No interval is armed while paused, so a tick changes nothing. */
  lemma TickWhilePaused(s: TimerState)
    requires !s.isRunning
    ensures Step(s, IntervalFired) == s
  {
  }

  /**
   Selecting a different work time restarts the current phase from its full
   length, whichever phase that is; selecting the same value changes nothing.
   */
  lemma WorkTimeResyncs(s: TimerState, m: int)
    ensures var r := Step(s, WorkTimeSelected(m));
      if m == s.workTime then r == s
      else r == s.(workTime := m, timeLeft := if s.isBreak then s.breakTime * 60 else m * 60)
  {
  }

  /** The same for the break time: a change during work discards the work progress. */
  lemma BreakTimeResyncs(s: TimerState, m: int)
    ensures var r := Step(s, BreakTimeSelected(m));
      if m == s.breakTime then r == s
      else r == s.(breakTime := m, timeLeft := if s.isBreak then m * 60 else s.workTime * 60)
  {
  }

  /**
   The re-sync effect adds nothing to toggle, reset or a tick: toggle and a
   countdown tick change none of its dependencies, and where reset or a
   rollover does change isBreak, the handler has already set timeLeft to the
   full length of the new phase.
   */
  lemma EffectAgreesWithHandlers(s: TimerState)
    ensures EffectAfter(s, ResetTimer(s)) == ResetTimer(s)
    ensures EffectAfter(s, ToggleTimer(s)) == ToggleTimer(s)
    ensures EffectAfter(s, TickCallback(s)) == TickCallback(s)
  {
  }

  /** Every allowed event keeps the invariant. */
  lemma StepKeepsValid(s: TimerState, e: Event)
    requires Valid(s) && Allowed(e)
    ensures Valid(Step(s, e))
  {
  }

  // ---------------------------------------------------------------------------
  // Sequences of events

  /** The invariant holds after any sequence of allowed events. */
  lemma {:induction false} RunKeepsValid(s: TimerState, events: seq<Event>)
    requires Valid(s)
    requires forall i :: 0 <= i < |events| ==> Allowed(events[i])
    ensures Valid(Run(s, events))
    decreases |events|
  {
    if events != [] {
      StepKeepsValid(s, events[0]);
      RunKeepsValid(Step(s, events[0]), events[1..]);
    }
  }

  /** Every state the component can reach from mount has 1 <= timeLeft <= phase length. */
  lemma ReachableValid(events: seq<Event>)
    requires forall i :: 0 <= i < |events| ==> Allowed(events[i])
    ensures Valid(Run(Initial(), events))
    ensures Run(Initial(), events).timeLeft >= 1
  {
    InitialValid();
    RunKeepsValid(Initial(), events);
  }

  lemma {:induction false} RepeatSplit(s: TimerState, e: Event, j: nat, k: nat)
    ensures Repeat(s, e, j + k) == Repeat(Repeat(s, e, j), e, k)
    decreases j
  {
    if j > 0 {
      RepeatSplit(Step(s, e), e, j - 1, k);
    }
  }

  /** k < timeLeft ticks while running take k seconds off and change nothing else. */
  lemma {:induction false} TicksCountDown(s: TimerState, k: nat)
    requires s.isRunning && k < s.timeLeft
    ensures Repeat(s, IntervalFired, k) == s.(timeLeft := s.timeLeft - k)
    decreases k
  {
    if k > 0 {
      TickCountsDown(s);
      TicksCountDown(s.(timeLeft := s.timeLeft - 1), k - 1);
    }
  }

  /**
   Exactly timeLeft ticks while running finish the phase: completion is
   signalled once, on the last tick, and the next phase starts at its full
   length with the timer still running.
   */
  lemma TicksFinishPhase(s: TimerState)
    requires Valid(s) && s.isRunning
    ensures forall k :: 0 <= k < s.timeLeft ==> Repeat(s, IntervalFired, k).completions == s.completions
    ensures var r := Repeat(s, IntervalFired, s.timeLeft);
      && r.isBreak == !s.isBreak
      && r.timeLeft == PhaseSeconds(r)
      && r.completions == s.completions + 1
      && r.isRunning
      && r.workTime == s.workTime && r.breakTime == s.breakTime
      && Valid(r)
  {
    forall k | 0 <= k < s.timeLeft
      ensures Repeat(s, IntervalFired, k).completions == s.completions
    {
      TicksCountDown(s, k);
    }
    var n := s.timeLeft - 1;
    TicksCountDown(s, n);
    RepeatSplit(s, IntervalFired, n, 1);
    var last := s.(timeLeft := 1);
    assert Repeat(last, IntervalFired, 1) == Step(last, IntervalFired);
    TickRollsOver(last);
  }

  /** Toggling n times with no tick in between leaves everything but possibly isRunning alone. */
  lemma {:induction false} TogglesParity(s: TimerState, n: nat)
    ensures Repeat(s, ToggleClicked, n) == if n % 2 == 0 then s else s.(isRunning := !s.isRunning)
    decreases n
  {
    if n > 0 {
      TogglesParity(Step(s, ToggleClicked), n - 1);
    }
  }

  /** From mount: start, then 1500 ticks finish the first 25-minute work interval. */
  lemma FirstPomodoro()
    ensures Repeat(Step(Initial(), ToggleClicked), IntervalFired, 1500)
         == TimerState(25, 5, 300, true, true, 1)
  {
    var started := Step(Initial(), ToggleClicked);
    assert started == TimerState(25, 5, 1500, true, false, 0);
    TicksFinishPhase(started);
  }
}
