/** The game host's action clock, `ActionTickStream` in crates/node/src/game/host/clock.rs:
    a timer that, once every step duration unless paused, emits a tick carrying the time
    that passed and every player action buffered since the previous tick.

    Time is an integer count of milliseconds passed in as `now`; the tokio `Sleep` is its
    deadline. `Clock` is the stream's state as a value and the functions below are its
    operations; the class `ActionTickStream` does the same in place and is proved against
    them. */
module ActionClock {
  import opened Wrappers

  /** `ActionTickStream::MIN_STEP` and `MAX_STEP`, in milliseconds. */
  const MinStep: u16 := 15
  const MaxStep: u16 := 250

  /** The item the stream yields. */
  datatype Tick<A> = Tick(timeIncrementMs: u16, actions: seq<A>)

  /** The fields of the stream: `delay` is kept as its deadline. */
  datatype Clock<A> = Clock(paused: bool, step: u16, stepDuration: u16, deadline: int, actions: seq<A>)

  /** The outcome of one `poll_next`: the tick, if one was ready, and the new state. */
  datatype Polled<A> = Polled(tick: Option<Tick<A>>, next: Clock<A>)

  /** `Duration::as_millis() as u16`: keep the low 16 bits. */
  function TruncateU16(n: nat): u16 {
    n % 0x1_0000
  }

  /** `step + delay` on `u16`, as a release build computes it (wrapping). */
  function WrappingAddU16(a: u16, b: u16): u16 {
    (a + b) % 0x1_0000
  }

  /** The `time_increment_ms` of a tick `lateness` milliseconds after its deadline: the
      step plus the lateness, modulo 2^16, and exactly their sum when that fits. */
  function TickIncrement(step: u16, lateness: nat): (r: u16)
    ensures r == (step + lateness) % 0x1_0000
    ensures step + lateness < 0x1_0000 ==> r == step + lateness
  {
    var low := TruncateU16(lateness);
    var high := lateness / 0x1_0000;
    assert lateness == high * 0x1_0000 + low;
    assert step + lateness == (step + low) + high * 0x1_0000;
    WrappingAddU16(step, low)
  }

  // ---------------------------------------------------------------------------------
  // The operations.

  /** `ActionTickStream::new(step)` at time `now`: the step is raised to the minimum (it is
      not lowered to the maximum), and the first tick is due one step from now. */
  function Start<A>(step: u16, now: int): Clock<A> {
    var s := if step < MinStep then MinStep else step;
    Clock(false, s, s, now + s, [])
  }

  /** `set_step(value)` at time `now`: the step is clamped into [MinStep, MaxStep], but the
      step duration, and the next deadline, use `value` itself. */
  function Restep<A>(c: Clock<A>, value: u16, now: int): Clock<A> {
    var s := if value < MinStep then MinStep else if value > MaxStep then MaxStep else value;
    c.(step := s, stepDuration := value, deadline := now + value)
  }

  /** `add_action`. */
  function Push<A>(c: Clock<A>, a: A): Clock<A> {
    c.(actions := c.actions + [a])
  }

  /** `replace_actions`. */
  function Replace<A>(c: Clock<A>, xs: seq<A>): Clock<A> {
    c.(actions := xs)
  }

  /** `pause` at time `now`: the timer is reset to fire immediately. */
  function PauseAt<A>(c: Clock<A>, now: int): Clock<A> {
    c.(paused := true, deadline := now)
  }

  /** `resume` at time `now`: the next tick is one step duration away. */
  function ResumeAt<A>(c: Clock<A>, now: int): Clock<A> {
    c.(paused := false, deadline := now + c.stepDuration)
  }

  /** `poll_next` at time `now`: pending while paused or before the deadline; otherwise a
      tick with the step plus the lateness and the whole buffer, the buffer emptied, and
      the deadline moved one step duration past the old deadline. */
  function PollAt<A>(c: Clock<A>, now: int): Polled<A> {
    if c.paused || now < c.deadline then Polled(None, c)
    else
      Polled(Some(Tick(TickIncrement(c.step, now - c.deadline), c.actions)),
             c.(deadline := c.deadline + c.stepDuration, actions := []))
  }

  // ---------------------------------------------------------------------------------
  // The stream in place.

  class ActionTickStream<A> {
    var paused: bool
    var step: u16
    var stepDuration: u16
    var deadline: int
    var actions: seq<A>

    function State(): Clock<A>
      reads this
    {
      Clock(paused, step, stepDuration, deadline, actions)
    }

    /** `ActionTickStream::new`. */
    constructor(step: u16, now: int)
      ensures State() == Start(step, now)
    {
      var s := if step < MinStep then MinStep else step;
      paused := false;
      this.step := s;
      stepDuration := s;
      deadline := now + s;
      actions := [];
    }

    /** `set_step`. */
    method SetStep(value: u16, now: int)
      modifies this
      ensures State() == Restep(old(State()), value, now)
    {
      step := if value > MaxStep then MaxStep else if value < MinStep then MinStep else value;
      stepDuration := value;
      deadline := now + stepDuration;
    }

    /** `step()`. */
    method Step() returns (s: u16)
      ensures s == State().step
    {
      s := step;
    }

    /** `add_action`. */
    method AddAction(a: A)
      modifies this
      ensures State() == Push(old(State()), a)
    {
      actions := actions + [a];
    }

    /** `replace_actions`. */
    method ReplaceActions(xs: seq<A>)
      modifies this
      ensures State() == Replace(old(State()), xs)
    {
      actions := xs;
    }

    /** `pause`. */
    method Pause(now: int)
      modifies this
      ensures State() == PauseAt(old(State()), now)
    {
      paused := true;
      deadline := now;
    }

    /** `is_paused()`. */
    method IsPaused() returns (b: bool)
      ensures b == State().paused
    {
      b := paused;
    }

    /** `resume`. */
    method Resume(now: int)
      modifies this
      ensures State() == ResumeAt(old(State()), now)
    {
      paused := false;
      deadline := now + stepDuration;
    }

    /** `poll_next` at time `now`; `None` is `Poll::Pending`. */
    method PollNext(now: int) returns (tick: Option<Tick<A>>)
      modifies this
      ensures Polled(tick, State()) == PollAt(old(State()), now)
    {
      if paused {
        return None;
      }
      if now < deadline {
        return None;
      }
      var due := deadline;
      var lateness := TruncateU16(now - due);
      deadline := due + stepDuration;
      var taken := actions;
      actions := [];
      tick := Some(Tick(WrappingAddU16(step, lateness), taken));
    }
  }

  // ---------------------------------------------------------------------------------
  // Properties of single operations.

  /** The constructor raises a step below the minimum and keeps any other, however large;
      the clock starts running with an empty buffer. */
  lemma StartRules<A>(step: u16, now: int)
    ensures var c := Start<A>(step, now);
      && c.step == Max(MinStep, step) && c.stepDuration == c.step && c.deadline == now + c.step
      && !c.paused && c.actions == []
      && (step >= MinStep ==> c.step == step)
  {
  }

  /** `set_step` always leaves the step within [MinStep, MaxStep], while the step duration
      and deadline follow the unclamped value; nothing else changes. */
  lemma RestepRules<A>(c: Clock<A>, value: u16, now: int)
    ensures var d := Restep(c, value, now);
      && MinStep <= d.step <= MaxStep
      && d.step == Min(MaxStep, Max(MinStep, value))
      && d.stepDuration == value && d.deadline == now + value
      && d.paused == c.paused && d.actions == c.actions
  {
  }

  /** So the duration differs from the step exactly when the value was clamped. */
  lemma RestepDurationDiffers<A>(c: Clock<A>, value: u16, now: int)
    ensures var d := Restep(c, value, now);
      d.stepDuration != d.step <==> value < MinStep || value > MaxStep
  {
  }

  /** The step never drops below the minimum. */
  predicate StepValid<A>(c: Clock<A>) {
    c.step >= MinStep
  }

  lemma OperationsKeepStepValid<A>(c: Clock<A>, a: A, xs: seq<A>, value: u16, now: int)
    requires StepValid(c)
    ensures StepValid(Start<A>(value, now)) && StepValid(Restep(c, value, now))
    ensures StepValid(Push(c, a)) && StepValid(Replace(c, xs))
    ensures StepValid(PauseAt(c, now)) && StepValid(ResumeAt(c, now))
    ensures StepValid(PollAt(c, now).next)
  {
  }

  /** `add_action` appends after the earlier actions; `replace_actions` sets the buffer. */
  lemma BufferRules<A>(c: Clock<A>, a: A, xs: seq<A>)
    ensures Push(c, a).actions[..|c.actions|] == c.actions && Push(c, a).actions[|c.actions|] == a
    ensures |Push(c, a).actions| == |c.actions| + 1
    ensures Replace(c, xs).actions == xs
  {
  }

  /** A paused clock is pending and unchanged however late it is polled; `is_paused`
      reports the flag that `pause` sets and `resume` clears. */
  lemma PausedClockNeverTicks<A>(c: Clock<A>, now: int, later: int)
    ensures PauseAt(c, now).paused && !ResumeAt(c, now).paused
    ensures PollAt(PauseAt(c, now), later) == Polled(None, PauseAt(c, now))
  {
  }

  /** A poll yields a tick exactly when the clock runs and the deadline has passed. */
  lemma PollFiresIff<A>(c: Clock<A>, now: int)
    ensures PollAt(c, now).tick.Some? <==> !c.paused && now >= c.deadline
    ensures PollAt(c, now).tick.None? ==> PollAt(c, now).next == c
  {
  }

  /** A tick carries the whole buffer in insertion order and empties it; its increment is
      the step plus the lateness; the next deadline is one step duration after the old
      deadline, not after `now`; nothing else changes. */
  lemma TickRules<A>(c: Clock<A>, now: int)
    requires !c.paused && now >= c.deadline
    ensures var p := PollAt(c, now);
      && p.tick.Some? && p.tick.value.actions == c.actions && p.next.actions == []
      && p.tick.value.timeIncrementMs == (c.step + (now - c.deadline)) % 0x1_0000
      && (c.step + (now - c.deadline) < 0x1_0000 ==> p.tick.value.timeIncrementMs == c.step + (now - c.deadline))
      && p.next.deadline == c.deadline + c.stepDuration
      && p.next.step == c.step && p.next.stepDuration == c.stepDuration && !p.next.paused
  {
  }

  /** After `resume` the clock waits one full step duration before the next tick. */
  lemma ResumeWaitsOneDuration<A>(c: Clock<A>, now: int, later: int)
    ensures PollAt(ResumeAt(c, now), later).tick.Some? <==> later >= now + c.stepDuration
  {
  }

  /** Because the next deadline is measured from the old one, a poll that comes more than
      one duration late is followed at once by another tick. */
  lemma LatePollCatchesUp<A>(c: Clock<A>, now: int)
    requires !c.paused && now >= c.deadline + c.stepDuration
    ensures var p := PollAt(c, now);
      p.tick.Some? && PollAt(p.next, now).tick.Some?
  {
  }

  // ---------------------------------------------------------------------------------
  // Runs: sequences of actions added and polls made. Replacing the buffer, pausing,
  // resuming and changing the step are not run events.

  datatype Event<A> = Add(action: A) | PollEvent(now: int)

  datatype Run<A> = Run(ticks: seq<Tick<A>>, final: Clock<A>)

  /** Apply the events in order, collecting the ticks. */
  function RunEvents<A>(c: Clock<A>, evs: seq<Event<A>>): Run<A>
    decreases |evs|
  {
    if evs == [] then Run([], c)
    else
      match evs[0]
      case Add(a) => RunEvents(Push(c, a), evs[1..])
      case PollEvent(now) =>
        var p := PollAt(c, now);
        var rest := RunEvents(p.next, evs[1..]);
        if p.tick.Some? then Run([p.tick.value] + rest.ticks, rest.final) else rest
  }

  /** The actions added, in order. */
  function Added<A>(evs: seq<Event<A>>): seq<A> {
    if evs == [] then []
    else (if evs[0].Add? then [evs[0].action] else []) + Added(evs[1..])
  }

  /** The actions of the ticks, one tick after the other. */
  function Delivered<A>(ticks: seq<Tick<A>>): seq<A> {
    if ticks == [] then [] else ticks[0].actions + Delivered(ticks[1..])
  }

  /** Every action is delivered exactly once and in order: what the ticks carry, followed
      by what is still buffered, is what was buffered at the start followed by what was
      added. */
  lemma {:induction false} ActionsDeliveredOnce<A>(c: Clock<A>, evs: seq<Event<A>>)
    ensures var r := RunEvents(c, evs);
      Delivered(r.ticks) + r.final.actions == c.actions + Added(evs)
    decreases |evs|
  {
    if evs != [] {
      match evs[0]
      case Add(a) =>
        ActionsDeliveredOnce(Push(c, a), evs[1..]);
      case PollEvent(now) =>
        var p := PollAt(c, now);
        ActionsDeliveredOnce(p.next, evs[1..]);
        var rest := RunEvents(p.next, evs[1..]);
        if p.tick.Some? {
          assert ([p.tick.value] + rest.ticks)[1..] == rest.ticks;
        }
    }
  }

  /** No drift: however late the polls come, after k ticks the deadline is exactly k step
      durations past the starting deadline, and the step is unchanged. */
  lemma {:induction false} NoDrift<A>(c: Clock<A>, evs: seq<Event<A>>)
    ensures var r := RunEvents(c, evs);
      && r.final.deadline == c.deadline + |r.ticks| * c.stepDuration
      && r.final.stepDuration == c.stepDuration && r.final.step == c.step && r.final.paused == c.paused
    decreases |evs|
  {
    if evs != [] {
      match evs[0]
      case Add(a) =>
        NoDrift(Push(c, a), evs[1..]);
      case PollEvent(now) =>
        var p := PollAt(c, now);
        NoDrift(p.next, evs[1..]);
        var rest := RunEvents(p.next, evs[1..]);
        if p.tick.Some? {
          calc {
            rest.final.deadline;
            p.next.deadline + |rest.ticks| * c.stepDuration;
            c.deadline + c.stepDuration + |rest.ticks| * c.stepDuration;
            c.deadline + (|rest.ticks| + 1) * c.stepDuration;
          }
        }
    }
  }

  /** A paused clock emits nothing however it is polled, and only its buffer grows. */
  lemma {:induction false} PausedRunEmitsNothing<A>(c: Clock<A>, evs: seq<Event<A>>)
    requires c.paused
    ensures var r := RunEvents(c, evs);
      r.ticks == [] && r.final == c.(actions := c.actions + Added(evs))
    decreases |evs|
  {
    if evs != [] {
      match evs[0]
      case Add(a) =>
        PausedRunEmitsNothing(Push(c, a), evs[1..]);
      case PollEvent(now) =>
        PausedRunEmitsNothing(c, evs[1..]);
    }
  }
}
