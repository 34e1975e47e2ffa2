/**
 The PomodoroTimer component lifted out of its hooks: the five state hooks
 are fields, each event is a method that leaves the fields where the
 component settles after the event handler and the re-sync effect have run.
 Every method is specified by PomodoroState.Step.
 */
module PomodoroTimer {
  import S = PomodoroState
  import D = PomodoroDisplay

  class Timer {
    var workTime: int      // minutes
    var breakTime: int     // minutes
    var timeLeft: int      // seconds
    var isRunning: bool
    var isBreak: bool
    var completions: nat   // notification sounds requested so far

    function State(): S.TimerState
      reads this
    {
      S.TimerState(workTime, breakTime, timeLeft, isRunning, isBreak, completions)
    }

    predicate Valid()
      reads this
    {
      S.Valid(State())
    }

    /** Length in seconds of the current phase: `isBreak ? breakTime * 60 : workTime * 60`. */
    function PhaseSeconds(): int
      reads this
    {
      S.PhaseSeconds(State())
    }

    constructor ()
      ensures State() == S.Initial()
      ensures workTime == 25 && breakTime == 5 && timeLeft == 1500
      ensures !isRunning && !isBreak && completions == 0
      ensures Valid()
    {
      workTime := S.DEFAULT_WORK_MINUTES;
      breakTime := S.DEFAULT_BREAK_MINUTES;
      timeLeft := S.DEFAULT_WORK_MINUTES * 60;
      isRunning := false;
      isBreak := false;
      completions := 0;
    }

    /** toggleTimer: start or pause. */
    method Toggle()
      requires Valid()
      modifies this
      ensures Valid()
      ensures State() == S.Step(old(State()), S.ToggleClicked)
      ensures isRunning == !old(isRunning)
      ensures timeLeft == old(timeLeft) && isBreak == old(isBreak)
      ensures workTime == old(workTime) && breakTime == old(breakTime) && completions == old(completions)
    {
      isRunning := !isRunning;
    }

    /** resetTimer: stop and return to a full work interval. */
    method Reset()
      requires Valid()
      modifies this
      ensures Valid()
      ensures State() == S.Step(old(State()), S.ResetClicked)
      ensures !isRunning && !isBreak && timeLeft == workTime * 60
      ensures workTime == old(workTime) && breakTime == old(breakTime) && completions == old(completions)
    {
      isRunning := false;
      isBreak := false;
      timeLeft := workTime * 60;
    }

    /** One firing of the one-second interval, which exists only while running. */
    method Tick()
      requires Valid() && isRunning
      modifies this
      ensures Valid()
      ensures State() == S.Step(old(State()), S.IntervalFired)
      ensures isRunning && workTime == old(workTime) && breakTime == old(breakTime)
      ensures old(timeLeft) > 1 ==>
        timeLeft == old(timeLeft) - 1 && isBreak == old(isBreak) && completions == old(completions)
      ensures old(timeLeft) <= 1 ==>
        && isBreak == !old(isBreak)
        && timeLeft == PhaseSeconds()
        && completions == old(completions) + 1
    {
      if timeLeft <= 1 {
        completions := completions + 1;
        timeLeft := if !isBreak then breakTime * 60 else workTime * 60;
        isBreak := !isBreak;
      } else {
        timeLeft := timeLeft - 1;
      }
    }

    /** The work-time select followed by the re-sync effect. */
    method SetWorkTime(minutes: int)
      requires Valid() && S.IsWorkOption(minutes)
      modifies this
      ensures Valid()
      ensures State() == S.Step(old(State()), S.WorkTimeSelected(minutes))
      ensures workTime == minutes && breakTime == old(breakTime)
      ensures isRunning == old(isRunning) && isBreak == old(isBreak) && completions == old(completions)
      ensures timeLeft == if minutes == old(workTime) then old(timeLeft) else PhaseSeconds()
    {
      if minutes != workTime {
        workTime := minutes;
        timeLeft := PhaseSeconds();
      }
    }

    /** The break-time select followed by the re-sync effect. */
    method SetBreakTime(minutes: int)
      requires Valid() && S.IsBreakOption(minutes)
      modifies this
      ensures Valid()
      ensures State() == S.Step(old(State()), S.BreakTimeSelected(minutes))
      ensures breakTime == minutes && workTime == old(workTime)
      ensures isRunning == old(isRunning) && isBreak == old(isBreak) && completions == old(completions)
      ensures timeLeft == if minutes == old(breakTime) then old(timeLeft) else PhaseSeconds()
    {
      if minutes != breakTime {
        breakTime := minutes;
        timeLeft := PhaseSeconds();
      }
    }

    /** The clock face: always MM:SS, and it reads back as timeLeft. */
    function Display(): (r: string)
      reads this
      requires Valid()
      ensures |r| == 5 && r[2] == ':'
      ensures D.ParseTime(r) == D.Some(timeLeft)
    {
      D.FormatTimeFields(timeLeft);
      D.FormatThenParse(timeLeft);
      D.FormatTime(timeLeft)
    }

    /** strokeDashoffset of the progress ring: within [0, 283), 0 on a full phase. */
    function RingOffset(): (r: real)
      reads this
      requires Valid()
      ensures 0.0 <= r < D.CIRCUMFERENCE
      ensures timeLeft == PhaseSeconds() ==> r == 0.0
    {
      D.RingOffsetBounds(timeLeft, PhaseSeconds());
      D.RingOffsetProgress(timeLeft, 0, PhaseSeconds());
      D.RingOffset(timeLeft, PhaseSeconds())
    }
  }

  /** A caller's view: start, run a few seconds, pause, reset. */
  method Session()
  {
    var t := new Timer();
    t.Toggle();
    t.Tick();
    t.Tick();
    assert t.timeLeft == 1498 && t.isRunning;
    t.Toggle();
    assert !t.isRunning && t.timeLeft == 1498;
    t.SetBreakTime(10);
    assert t.timeLeft == 1500;
    t.Reset();
    assert t.State() == S.Initial().(breakTime := 10);
  }
}
