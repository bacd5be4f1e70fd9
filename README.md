# Pomodoro timer: a verified model

This project models the Pomodoro timer of `index.js`. The timer is a small
state machine with four phases: idle (0), paused (1), work (2) and break (3).
It holds a work length `cycle` and a break length `break`, both in seconds,
the phase to resume into (`lastState`), the seconds left (`timeLeft`), and the
one-second interval that drives the countdown. `start`, `pause`, `reset` and
`updateTimes` move it between phases. The interval's `tick` counts down and,
at zero, swaps work and break. `newState` announces every phase change with a
status message and a sound. The countdown is shown as `MM:SS`.

The project has four modules:

- `TimerSpec` (`timer_spec.dfy`) is the timer as values. `TimerState` holds
  the object's fields. There is one step function per operation, the object
  invariant `Inv`, and lemmas about runs of several operations.
- `Timer` (`pomodoro.dfy`) is the object itself. The class `Pomodoro` has the
  same fields and updates them in place. Each method is proved to change the
  object exactly as the matching `TimerSpec` function does, so every lemma in
  `TimerSpec` also holds of the object.
- `ClockFormat` (`clock_format.dfy`) is the `MM:SS` formatter
  (`getFormattedTime` and `zeroPad`). It comes with a reader for the text it
  produces.
- `Controls` (`controls.dfy`) is the minus buttons' clamp at one minute.

The interval is the boolean `intervalActive`. Each firing of the interval is
an explicit call to `Tick`. `start` also ticks once straight away. The model
includes that extra decrement: the inner `tick` is `CountDown`, and the
interval's callback is `Tick`.

The messages and sounds that `newState` produces are kept in a ghost log,
`notices`. Each entry is a message plus an optional sound. The three audio
clips appear as abstract sound names.

The invariant `Inv` holds after every operation. It says:

- the interval is live exactly while the timer is in work or break, so a
  second interval is never started;
- an idle or paused timer resumes into work or break;
- an idle timer resumes into work and has a full work cycle left;
- when both lengths are positive, `1 <= timeLeft <= max(cycle, break)`.

Three consequences of the code are worth stating:

- **Start's first tick.** `start` ticks once straight away (`index.js:16`).
  So with one-minute lengths, 59 further ticks reach the break
  (`OneMinuteScenario`).
- **The time left never rests at zero.** A tick that reaches zero reloads the
  countdown at once (`index.js:26-27`). So with positive lengths the time left
  stays in `[1, max(cycle, break)]`.
- **Zero-minute lengths.** With a length of zero, the time left goes negative
  and the phase never changes (`ZeroLengthNeverSwitches`). The display then
  shows, for example, `0-1:59` (`FormatNegativeTime`). The buttons never offer
  a zero length, because they stop at one minute.

## Model

| member | source | states |
|---|---|---|
| `TimerSpec.Init` | index.js:1-9 | Lengths given in minutes are stored in seconds. The timer starts idle, resumes into work, has a full work cycle left, has no interval and has announced nothing. The invariant holds. |
| `TimerSpec.NoticeFor` | index.js:75-105 | Every phase has a non-empty status message. A sound is played exactly for paused, work and break, and never for idle. |
| `TimerSpec.NoticesDistinguishPhases` | index.js:75-99 | Different phases give different notices, so the log records which phases were entered. |
| `TimerSpec.Enter` | index.js:71-77 | newState enters the given phase and logs its notice. The resume target becomes the previous phase, or work when going idle. Time, lengths and interval are unchanged. |
| `TimerSpec.TickStep` | index.js:23-30 | tick takes exactly one second off. At zero, work becomes break with the full break length and break becomes work with the full work length, and the new phase is announced. Otherwise nothing else changes. The invariant is kept. |
| `TimerSpec.StartStep` | index.js:12-20 | start does nothing while in work or break. From idle or paused it raises the interval and enters work if the resume target is work, and break otherwise. The old phase becomes the resume target, and that phase's notice is logged. Then the immediate tick takes one second off. If that second was the last one, the timer is in the other phase instead, with that phase's full length, the previous phase as resume target and both notices logged. The lengths are unchanged. The invariant is kept. |
| `TimerSpec.PauseStep` | index.js:33-38 | pause does nothing unless in work or break. Otherwise it records the current phase as the resume target, goes to paused, clears the interval and announces the pause. Time and lengths are unchanged. The invariant is kept. |
| `TimerSpec.ResetStep` | index.js:40-45 | From any state, reset goes idle with work as the resume target, a full work cycle and no interval. The lengths are unchanged. The invariant is restored whatever the state was before. |
| `TimerSpec.UpdateTimesStep` | index.js:65-69 | updateTimes stores the new lengths in seconds and then behaves as reset: idle, a full new work cycle, no interval. The invariant holds. |
| `TimerSpec.Ticks` | index.js:17-19 | Any number of interval firings keeps the timer counting, keeps the lengths and the interval flag, and keeps the invariant. |
| `TimerSpec.TicksAdd` | index.js:17-19 | `a` firings followed by `b` firings are the same as `a + b` firings. |
| `TimerSpec.TicksCountDown` | index.js:24-26 | Before the countdown reaches zero, `k` ticks only take `k` seconds off. Nothing else changes. |
| `TimerSpec.ZeroLengthNeverSwitches` | index.js:24-26 | A countdown at zero or below never switches phase again. Ticks only take seconds off. |
| `TimerSpec.PhaseEnds` | index.js:23-29 | A phase with `w` seconds left ends after exactly `w` ticks. Work becomes break with the full break length, break becomes work with the full work length, and the new phase is announced. |
| `TimerSpec.FullRound` | index.js:23-29 | From work with `w` seconds left, `w` ticks plus a whole break return the timer to work with a full work cycle. The break and work notices are logged in that order. |
| `TimerSpec.StartNeverStacks` | index.js:14-19 | While the interval is live, start changes nothing, so it never starts a second interval. |
| `TimerSpec.StartFromIdle` | index.js:14-19 | From idle with a work cycle of at least two seconds, start enters work and announces it. The interval is live and `cycle - 1` seconds are left. |
| `TimerSpec.PauseThenStartResumes` | index.js:12-38 | pause followed by start resumes the paused phase. The result agrees with a single tick on phase, time and lengths. If the phase does not end on that tick, the log gains exactly the pause and resume notices. |
| `TimerSpec.PauseIdempotent` | index.js:33-38 | A second pause changes nothing. |
| `TimerSpec.OneMinuteScenario` | index.js:12-30 | With one-minute lengths, start leaves 59 seconds of work. 59 ticks reach a full minute of break, and 60 more reach a full minute of work. |
| `Timer.Pomodoro.constructor` | index.js:1-9 | The new object equals `Init` of its arguments and satisfies the invariant. |
| `Timer.Pomodoro.NewState` | index.js:71-109 | The object moves exactly as `Enter` says, including the logged notice. |
| `Timer.Pomodoro.CountDown` | index.js:23-30 | The inner tick moves the object exactly as `TickStep` says. |
| `Timer.Pomodoro.Tick` | index.js:17-19 | A firing of the live interval moves the object as `TickStep` says and keeps the invariant. |
| `Timer.Pomodoro.Start` | index.js:12-31 | The object moves exactly as `StartStep` says. The invariant is kept. |
| `Timer.Pomodoro.Pause` | index.js:33-38 | The object moves exactly as `PauseStep` says. The invariant is kept. |
| `Timer.Pomodoro.Reset` | index.js:40-45 | The object moves exactly as `ResetStep` says. The invariant holds afterwards. |
| `Timer.Pomodoro.UpdateTimes` | index.js:65-69 | The object moves exactly as `UpdateTimesStep` says. The invariant holds afterwards. |
| `ClockFormat.NatText` | index.js:60 | A number's decimal text has at least one character and only digits. It has no leading zero, one digit exactly below ten, and at most two below a hundred. |
| `ClockFormat.IntText` | index.js:60 | A non-negative number's text is all digits. A negative number's text is a minus sign followed by digits. |
| `ClockFormat.ZeroPad` | index.js:59-61 | zeroPad gives at least two characters. A number below ten gets a leading '0'. Non-negative numbers give only digits, and exactly two of them when below a hundred. |
| `ClockFormat.NatTextValue` | index.js:60 | Reading a number's decimal text back gives the number. |
| `ClockFormat.LeadingZeroValue` | index.js:60 | The '0' that zeroPad adds does not change the value that is read back. |
| `ClockFormat.ZeroPadValue` | index.js:59-61 | A zero-padded non-negative number reads back as itself. |
| `ClockFormat.FormatTime` | index.js:53-58 | getFormattedTime always ends in a colon followed by two digits, because the seconds left over lie between 0 and 59. For non-negative seconds the whole text has the form `digits:dd`. Reading the text back is stated by `FormatTimeRoundTrip` and `FormatTimeInjective`. |
| `ClockFormat.FormatTimeRoundTrip` | index.js:53-58 | For non-negative seconds the text has the form `digits:dd`. The minutes field has at least two digits and the seconds field exactly two. The seconds read back below sixty, and minutes times sixty plus seconds is the input. |
| `ClockFormat.FormatTimeInjective` | index.js:53-58 | Different non-negative times never give the same text. |
| `ClockFormat.FormatZero` | index.js:53-61 | 0 seconds gives "00:00". |
| `ClockFormat.FormatOneMinuteFive` | index.js:53-61 | 65 seconds gives "01:05". |
| `ClockFormat.FormatDefaultCycle` | index.js:53-61 | 1500 seconds (the default 25-minute cycle) gives "25:00". |
| `ClockFormat.FormatOverAnHour` | index.js:53-61 | 3661 seconds gives "61:01": the minutes are never wrapped into hours. |
| `ClockFormat.FormatNegativeTime` | index.js:53-61 | -1 seconds gives "0-1:59". Math.floor rounds the minutes down to -1, and zeroPad puts a '0' before the minus sign. |
| `Controls.MinusOne` | index.js:141-144 | The minus button leaves a length unchanged exactly when it is one minute. From one minute or more it never goes below one minute. From two or more it goes down. |
| `Controls.PressesFloor` | index.js:151-154 | Starting from `n >= 1` minutes, `k` presses give `n - k` minutes while `k < n`, and one minute after that. |

## Left out

- Display output is left out, because it consists of writes to page elements.
  This covers `updateDisplay`, the text colours set in `newState`, and the
  constructor's `displayElementId` and `messageDisplayId` parameters and
  fields, which only name those elements. The text the display
  would show is `ClockFormat.FormatTime` of the time left.
- Audio playback, the sound URLs and the `console.info` logging are left out,
  because they call into the browser. They are replaced by the abstract sound
  names in the `notices` log.
- Real-time scheduling of `setInterval`/`clearInterval` is left out. The
  interval is the flag `intervalActive`, and its firings are explicit calls to
  `Tick`. How often it fires, and when, is not modelled.
- The button wiring is not modelled: the listeners, the plus buttons, the
  second set of handlers, and the `++`/`--` applied to a `parseInt(...)`
  result. This is page glue. Only the minus buttons' clamp expression is
  modelled, as `Controls.MinusOne`.
- Reading the lengths from the page's text fields as numbers is left out. The
  lengths are naturals in the model.
- `ClockFormat.FormatTime` uses exact integer arithmetic. It does not model
  JavaScript's floating-point numbers, which differ only far beyond any time
  the timer can hold.
- `index.php` is left out, because it is static markup with no logic.
