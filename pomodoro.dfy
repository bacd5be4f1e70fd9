/** The Pomodoro object of index.js: fields updated in place by start, pause,
    reset, updateTimes, newState and the one-second tick. Every method is
    proved to move the object exactly as the step function of module TimerSpec
    of the same name moves its value, so the lemmas there hold of the object. */
module Timer {
  import opened TimerSpec

  class Pomodoro {
    /** Length of a work cycle, in seconds. */
    var cycle: nat
    /** Length of a break, in seconds (the source's `break`). */
    var brk: nat
    var state: Phase
    /** The phase to resume into after a pause. */
    var lastState: Phase
    /** Seconds left in the current phase. */
    var timeLeft: int
    /** Whether the one-second interval is live (the source's `timer` handle). */
    var intervalActive: bool
    /** The status messages and sounds announced so far, in order. */
    ghost var notices: seq<Notice>

    ghost function Snapshot(): TimerState
      reads this
    {
      TimerState(cycle, brk, state, lastState, timeLeft, intervalActive, notices)
    }

    ghost predicate Valid()
      reads this
    {
      Inv(Snapshot())
    }

    /** Lengths are given in minutes. The timer starts idle, set to resume
        into work, with a full work cycle left and no interval. */
    constructor (pomodoroTime: nat, breakTime: nat)
      ensures Snapshot() == Init(pomodoroTime, breakTime)
      ensures Valid()
    {
      cycle := pomodoroTime * 60;
      brk := breakTime * 60;
      state := Idle;
      lastState := Work;
      timeLeft := pomodoroTime * 60;
      intervalActive := false;
      notices := [];
    }

    /** newState: the current phase becomes the one to resume (work, when
        going idle), then phase `s` is entered and announced. */
    method NewState(s: Phase)
      modifies this
      ensures Snapshot() == Enter(old(Snapshot()), s)
    {
      lastState := state;
      state := s;
      if s == Idle {
        lastState := Work;
      }
      notices := notices + [NoticeFor(s)];
    }

    /** The inner `tick` of start: one second less; at zero, reload with the
        other phase's length and enter that phase. */
    method CountDown()
      requires state.Counting()
      modifies this
      ensures Snapshot() == TickStep(old(Snapshot()))
    {
      timeLeft := timeLeft - 1;
      if timeLeft == 0 {
        timeLeft := if state == Work then brk else cycle;
        NewState(if state == Work then Break else Work);
      }
    }

    /** One firing of the one-second interval. */
    method Tick()
      requires Valid() && intervalActive
      modifies this
      ensures Valid()
      ensures Snapshot() == TickStep(old(Snapshot()))
    {
      CountDown();
    }

    /** start: from idle or paused only, enter the phase to resume, tick once
        straight away and raise the interval; otherwise nothing happens. */
    method Start()
      modifies this
      ensures Snapshot() == StartStep(old(Snapshot()))
      ensures old(Valid()) ==> Valid()
    {
      if state == Idle || state == Paused {
        NewState(if lastState == Work then Work else Break);
        CountDown();
        intervalActive := true;
      }
    }

    /** pause: from work or break only, enter the paused phase and clear the
        interval; otherwise nothing happens. */
    method Pause()
      modifies this
      ensures Snapshot() == PauseStep(old(Snapshot()))
      ensures old(Valid()) ==> Valid()
    {
      if state == Work || state == Break {
        NewState(Paused);
        intervalActive := false;
      }
    }

    /** reset: from any state, go idle with a full work cycle and no interval. */
    method Reset()
      modifies this
      ensures Snapshot() == ResetStep(old(Snapshot()))
      ensures Valid()
    {
      NewState(Idle);
      timeLeft := cycle;
      intervalActive := false;
    }

    /** updateTimes: store the new lengths (given in minutes), then reset. */
    method UpdateTimes(cycleTime: nat, breakTime: nat)
      modifies this
      ensures Snapshot() == UpdateTimesStep(old(Snapshot()), cycleTime, breakTime)
      ensures Valid()
    {
      cycle := cycleTime * 60;
      brk := breakTime * 60;
      Reset();
    }
  }
}
