# Pomodoro timer — a verified model

This project models the timer inside the `PomodoroTimer` React component
(`components/pomodoro-timer.tsx`). The component alternates a work interval
(25 or 30 minutes) with a break interval (5 or 10 minutes). While it runs it
counts down once a second and plays a sound when an interval ends. It shows the
time left as `MM:SS` inside a progress ring.

The model has three modules:

- `PomodoroState` (`timer_state.dfy`): the timer as a pure state machine.
  `TimerState` holds the five state hooks (`workTime`, `breakTime`, `timeLeft`,
  `isRunning`, `isBreak`) plus `completions`, which counts the sounds requested.
  Each event first runs its handler: `ToggleTimer`, `ResetTimer`, `TickCallback`
  (the interval body), or a duration select. Then, as in React, the re-sync
  effect (`Resync`) runs, but only if `workTime`, `breakTime` or `isBreak`
  changed (`EffectAfter`). `Step` combines the two. `Run` and `Repeat` apply a
  sequence of events.
- `PomodoroTimer` (`timer.dfy`): class `Timer` has the hooks as fields and one
  method per event. Each method's `ensures` ties the new fields to
  `PomodoroState.Step` on the old ones and spells out every field. `Valid()` is
  the invariant that `workTime` is a work-select option (25 or 30), `breakTime`
  is a break-select option (5 or 10), and
  `1 <= timeLeft <= (isBreak ? breakTime : workTime) * 60`. Every method keeps it.
- `PomodoroDisplay` (`display.dfy`): `formatTime` (built from `toString` and
  `padStart`, over unbounded natural numbers) and the ring's `strokeDashoffset` over
  exact reals. `ParseTime` is an independent reader of the `M…M:SS` text; it is
  used to prove that `formatTime` loses no information.

The model follows the code as written, including these behaviours:

- A tick that ends an interval does not stop the timer. The rollover branch
  never sets `isRunning` to false. The interval is re-armed right away,
  because `isBreak` is a dependency of the interval effect. So the next phase
  starts counting at once (`TickRollsOver`, `TicksFinishPhase`).
- Picking a new duration resets `timeLeft` to the full length of the current
  phase, whichever duration was changed. A new work time during a break
  restarts the break, and a new break time during work discards the work
  progress (`WorkTimeResyncs`, `BreakTimeResyncs`).
- Durations are in minutes and are multiplied by 60 where seconds are needed.

## Model

| member | source | states |
|---|---|---|
| `PomodoroState.Initial` | components/pomodoro-timer.tsx:12-16 | The mount state: 25-minute work, 5-minute break, timeLeft 1500 s, paused, work phase, no completions. Its contract: it is valid, the work phase is full, and it is paused with zero completions. `InitialValid` and `FirstPomodoro` are about it. |
| `PomodoroState.ToggleTimer` | components/pomodoro-timer.tsx:88-91 | The toggleTimer handler. No contract of its own; `ToggleFlipsRunning` and `TogglesParity` specify it through `Step`, and `EffectAgreesWithHandlers` shows the effect leaves it alone. |
| `PomodoroState.ResetTimer` | components/pomodoro-timer.tsx:93-97 | The resetTimer handler. No contract of its own; `ResetRestarts` specifies it through `Step`, and `EffectAgreesWithHandlers` shows the effect leaves it alone. |
| `PomodoroState.TickCallback` | components/pomodoro-timer.tsx:54-75 | The interval body. It keeps the invariant and the durations and isRunning. Above one second it takes one second off and keeps phase and completions. At one second or less it switches phase, loads the new phase's full length and adds one completion. `TickCountsDown`, `TickRollsOver`, `TicksCountDown` and `TicksFinishPhase` are about it. |
| `PomodoroState.Resync` | components/pomodoro-timer.tsx:46-48 | The re-sync effect body. No contract of its own; `WorkTimeResyncs` and `BreakTimeResyncs` state what it does after a duration select. |
| `PomodoroState.EffectAfter` | components/pomodoro-timer.tsx:46-49 | The effect runs only when a dependency changed. It changes at most timeLeft, and then sets it to the full current phase. It yields a valid state when the handler's state has select-option durations and a timeLeft within the phase. |
| `PomodoroState.Step` | components/pomodoro-timer.tsx:46-97 | One event: handler, then the effect. completions grows by one exactly on a running tick at one second or less. isRunning is negated by toggle, cleared by reset, and kept by every other event. `StepKeepsValid`, `RunKeepsValid` and `ReachableValid` give the invariant. |
| `PomodoroState.InitialValid` | components/pomodoro-timer.tsx:12-16 | The mount state (25, 5, 1500 s, paused, work) satisfies the invariant, and its timeLeft is the full work phase. |
| `PomodoroState.ToggleFlipsRunning` | components/pomodoro-timer.tsx:88-91 | Toggle negates isRunning and changes nothing else. Toggling twice gives back the original state. |
| `PomodoroState.TogglesParity` | components/pomodoro-timer.tsx:88-91 | n toggles with no tick in between leave the state unchanged if n is even, and only isRunning flipped if n is odd. timeLeft never changes. |
| `PomodoroState.ResetRestarts` | components/pomodoro-timer.tsx:93-97 | After reset, isRunning and isBreak are false and timeLeft == workTime*60. Durations and completions stay. A second reset changes nothing. |
| `PomodoroState.TickCountsDown` | components/pomodoro-timer.tsx:54-75 | A running tick with timeLeft > 1 lowers timeLeft by exactly 1 and changes nothing else. |
| `PomodoroState.TickRollsOver` | components/pomodoro-timer.tsx:55-73 | A running tick with timeLeft <= 1 flips isBreak. It sets timeLeft to breakTime*60 when leaving work, or workTime*60 when leaving a break. It adds exactly one completion, leaves isRunning true and keeps the durations. |
| `PomodoroState.TickWhilePaused` | components/pomodoro-timer.tsx:51-86 | While paused no interval is armed, so a tick leaves the state unchanged. |
| `PomodoroState.WorkTimeResyncs` | components/pomodoro-timer.tsx:46-49 | Selecting the current work time changes nothing. Selecting a different one sets workTime and resets timeLeft to the full current phase (the break length during a break). isRunning and isBreak are untouched. |
| `PomodoroState.BreakTimeResyncs` | components/pomodoro-timer.tsx:46-49 | The same for the break select: a new break time during work resets timeLeft to workTime*60. |
| `PomodoroState.EffectAgreesWithHandlers` | components/pomodoro-timer.tsx:46-49 | Running the re-sync effect after toggle, reset or a tick gives the state those handlers set. The effect only matters for the duration selects. |
| `PomodoroState.StepKeepsValid` | components/pomodoro-timer.tsx:46-97 | Every event using a select option keeps durations in {25, 30} and {5, 10} and keeps 1 <= timeLeft <= phase length. |
| `PomodoroState.RunKeepsValid` | components/pomodoro-timer.tsx:46-97 | The invariant holds after any sequence of such events. |
| `PomodoroState.ReachableValid` | components/pomodoro-timer.tsx:14 | Every state reachable from mount satisfies the invariant, so timeLeft never reaches 0. |
| `PomodoroState.RepeatSplit` | components/pomodoro-timer.tsx:53-76 | j + k deliveries of an event equal j deliveries followed by k more. |
| `PomodoroState.TicksCountDown` | components/pomodoro-timer.tsx:74 | k < timeLeft consecutive running ticks give timeLeft - k and change nothing else. |
| `PomodoroState.TicksFinishPhase` | components/pomodoro-timer.tsx:54-75 | Exactly timeLeft running ticks signal completion once, on the last tick. The timer ends in the other phase at its full length, still running and still valid. |
| `PomodoroState.FirstPomodoro` | components/pomodoro-timer.tsx:12-16 | From mount, start then 1500 ticks reach (25, 5, 300 s, running, break, 1 completion). |
| `PomodoroTimer.Timer.constructor` | components/pomodoro-timer.tsx:12-16 | The fields start at the mount state, which is valid. |
| `PomodoroTimer.Timer.Toggle` | components/pomodoro-timer.tsx:88-91 | New fields equal Step on the old ones: isRunning negated, everything else unchanged. |
| `PomodoroTimer.Timer.Reset` | components/pomodoro-timer.tsx:93-97 | New fields equal Step: paused, work phase, timeLeft == workTime*60. |
| `PomodoroTimer.Timer.Tick` | components/pomodoro-timer.tsx:54-75 | Requires isRunning. New fields equal Step: one second off, or a rollover into the next phase at full length with one more completion. Keeps running. |
| `PomodoroTimer.Timer.SetWorkTime` | components/pomodoro-timer.tsx:163 | New fields equal Step for the work select: workTime set, and timeLeft reset to the current phase's length when the value changed. |
| `PomodoroTimer.Timer.SetBreakTime` | components/pomodoro-timer.tsx:175 | The same for the break select. |
| `PomodoroTimer.Timer.Display` | components/pomodoro-timer.tsx:136 | The clock face is 5 characters with a colon in the middle and reads back as timeLeft. |
| `PomodoroTimer.Timer.RingOffset` | components/pomodoro-timer.tsx:132 | The ring offset of a valid timer is in [0, 283), and is 0 when the phase is full. |
| `PomodoroDisplay.FormatTime` | components/pomodoro-timer.tsx:99-103 | formatTime: splits seconds into whole minutes and remaining seconds. No contract of its own; `FormatTimeFields`, `FormatTimeLong`, `FormatThenParse`, `ParseThenFormat` and `FormatTimeBijection` specify it. |
| `PomodoroDisplay.JoinFields` | components/pomodoro-timer.tsx:102 | The template literal joining the two padded fields with ':'. No contract of its own; `JoinThenParse` shows the parser reads it back as mins*60 + secs. |
| `PomodoroDisplay.RingOffset` | components/pomodoro-timer.tsx:132 | The strokeDashoffset expression. No contract of its own; `RingOffsetBounds` and `RingOffsetProgress` specify it. |
| `PomodoroDisplay.DecimalString` | components/pomodoro-timer.tsx:102 | The model's decimal digits of a natural number, standing for `toString` on the values the component formats: at least one digit, all digits, a single digit iff n < 10, and no leading zero. |
| `PomodoroDisplay.PadStart` | components/pomodoro-timer.tsx:102 | `padStart(width, pad)`: the result is max(len, width) long, ends with the input, and is pad characters before it. |
| `PomodoroDisplay.ParseDecimalString` | components/pomodoro-timer.tsx:102 | Reading back the decimal digits of n gives n. |
| `PomodoroDisplay.ParseLeadingZero` | components/pomodoro-timer.tsx:102 | A leading zero added by padding does not change the value read back. |
| `PomodoroDisplay.FormatTimeFields` | components/pomodoro-timer.tsx:99-103 | For s < 6000 the text is exactly 5 characters: two zero-padded minute digits, ':', and two second digits. The seconds field is < 60 and minutes*60 + seconds == s. |
| `PomodoroDisplay.FormatTimeLong` | components/pomodoro-timer.tsx:99-103 | In the model, from 100 minutes on the minutes field is all decimal digits of the minutes, never truncated, so the text is longer than 5. |
| `PomodoroDisplay.FormatThenParse` | components/pomodoro-timer.tsx:99-103 | For every natural number s, parsing the model's FormatTime(s) gives back s. |
| `PomodoroDisplay.ParseThenFormat` | components/pomodoro-timer.tsx:99-103 | A 5-character text the parser accepts as s has s < 6000 and is exactly formatTime(s). |
| `PomodoroDisplay.FormatTimeBijection` | components/pomodoro-timer.tsx:99-103 | For 5-character texts, parsing t gives s iff s < 6000 and formatTime(s) == t. |
| `PomodoroDisplay.RingOffsetBounds` | components/pomodoro-timer.tsx:131-132 | With 1 <= timeLeft <= duration, 283 - 283*timeLeft/duration lies in [0, 283) over the reals. |
| `PomodoroDisplay.RingOffsetProgress` | components/pomodoro-timer.tsx:132 | A full phase has offset 0, and less time left gives a strictly larger offset. |

## Left out

- Audio (components/pomodoro-timer.tsx:21, 27-37, 57-63): building the `Audio` element, the `.mp3` to `.wav` fallback, and the `play()`/`load()` retry are browser I/O. A completion is kept only as `completions + 1` on the rollover tick, whether or not the sound plays.
- Timing (components/pomodoro-timer.tsx:22, 39-43, 51-86): `setInterval`, `clearInterval`, the 1000 ms period and the order of effect cleanups are runtime behaviour. A tick is one atomic `Tick` that requires `isRunning`. Re-arming that drops a partly elapsed second is not modelled.
- The interval callback reads `isBreak`, `workTime` and `breakTime` from its closure. Those are all dependencies of the interval effect, so the closure always sees current values. The model reads the current fields.
- React StrictMode may call state updaters twice. This is not modelled; each event is applied once.
- Theme handling, the `mounted` flag, the settings dialog's open state and all JSX markup (components/pomodoro-timer.tsx:17-19, 105-234) are presentation only.
- `Number.parseInt` on the select strings is not modelled: durations come in as the integers the options stand for (`IsWorkOption`, `IsBreakOption`).
- The stroke offset is reasoned about over exact reals, not IEEE doubles.
- `PomodoroDisplay.FormatTime` takes a non-negative number of seconds. JavaScript `Math.floor` and `%` on negative input are not modelled, because the invariant keeps `timeLeft >= 1`.
- `console.log` and `console.error` calls are not modelled.
- PomodoroDisplay.DecimalString: works over unbounded natural numbers. JavaScript's `toString` writes numbers of 1e21 and above in exponent form, and `Math.floor` and `%` are exact only below 2^53. The only call site (components/pomodoro-timer.tsx:136) passes a `timeLeft` of at most 1800, so the component never reaches those ranges.
- PomodoroDisplay.FormatTimeLong: states the model's behaviour for every number of minutes from 100 up. For the double-precision numbers of JavaScript it holds only below the ranges named in the previous line.
- PomodoroDisplay.FormatThenParse: the round trip is proved for every natural number in the model. For the double-precision numbers of JavaScript it holds only below the ranges named two lines above.
- app/layout.tsx and app/page.tsx are page shell and theme-provider wiring with no timer logic. They are not part of this model.
