/** One run of the poller as interleaved steps of its main loop, its forwarding goroutine, the
    goroutine that closes the watch channel, the cancellation and the watcher. */
module PollerShutdown {
  const BUF_SIZE: nat := 100

  type Event = string

  datatype Channel = Channel(buffer: seq<Event>, closed: bool)

  /** Where the main loop is: choosing, sending the events of a poll, leaving after it saw the
      cancellation, having cancelled, having closed the result channel, returned from `Run`, and
      past the close of the watch channel. */
  datatype Main = Choosing | Sending(events: seq<Event>) | Leaving | Stopped | Awaiting | Returned | Finished

  /** Where the forwarder is: waiting for an event, holding one, or gone. */
  datatype Forwarder = Receiving | Holding(event: Event) | Exited

  datatype State = State(
    main: Main,
    forwarder: Forwarder,
    done: bool,
    results: Channel,
    watch: Channel,
    accepted: seq<Event>,
    received: seq<Event>,
    panicked: bool)

  const INITIAL := State(Choosing, Receiving, false, Channel([], false), Channel([], false), [], [], false)

  datatype Step =
    | Cancel
    | BeginPoll(events: seq<Event>) | Send | GiveUp | SeeDone | CancelOwn | CloseResults | SeeForwarded | CloseWatch
    | Take | TakeClosed | Forward | Abandon | Quit
    | Receive

  /** Whether a step can be taken; a send or a close on a closed channel can, and panics. */
  predicate Enabled(s: State, step: Step)
  {
    !s.panicked &&
    match step
    case Cancel => true
    case BeginPoll(_) => s.main.Choosing?
    case Send => s.main.Sending? && s.main.events != [] && (s.results.closed || |s.results.buffer| < BUF_SIZE)
    case GiveUp => s.main.Sending? && s.main.events != [] && s.done
    case SeeDone => s.main.Choosing? && s.done
    case CancelOwn => s.main.Leaving?
    case CloseResults => s.main.Stopped?
    case SeeForwarded => s.main.Awaiting? && s.forwarder.Exited?
    case CloseWatch => s.main.Returned?
    case Take => s.forwarder.Receiving? && s.results.buffer != []
    case TakeClosed => s.forwarder.Receiving? && s.results.closed && s.results.buffer == []
    case Forward => s.forwarder.Holding? && (s.watch.closed || |s.watch.buffer| < BUF_SIZE)
    case Abandon => s.forwarder.Holding? && s.done
    case Quit => s.forwarder.Receiving? && s.done
    case Receive => s.watch.buffer != []
  }

  /** The rest of a poll, back to choosing when nothing is left to send. */
  function Rest(events: seq<Event>): Main
  {
    if events == [] then Choosing else Sending(events)
  }

  function After(s: State, step: Step): State
    requires Enabled(s, step)
  {
    match step
    case Cancel => s.(done := true)
    case BeginPoll(events) => s.(main := Rest(events))
    case Send =>
      if s.results.closed then s.(panicked := true)
      else s.(main := Rest(s.main.events[1..]),
              results := s.results.(buffer := s.results.buffer + [s.main.events[0]]),
              accepted := s.accepted + [s.main.events[0]])
    case GiveUp => s.(main := Rest(s.main.events[1..]))
    case SeeDone => s.(main := Leaving)
    case CancelOwn => s.(main := Stopped, done := true)
    case CloseResults =>
      if s.results.closed then s.(panicked := true)
      else s.(main := Awaiting, results := s.results.(closed := true))
    case SeeForwarded => s.(main := Returned)
    case CloseWatch =>
      if s.watch.closed then s.(panicked := true)
      else s.(main := Finished, watch := s.watch.(closed := true))
    case Take =>
      s.(forwarder := Holding(s.results.buffer[0]), results := s.results.(buffer := s.results.buffer[1..]))
    case TakeClosed => s.(forwarder := Exited)
    case Forward =>
      if s.watch.closed then s.(panicked := true)
      else s.(forwarder := Receiving, watch := s.watch.(buffer := s.watch.buffer + [s.forwarder.event]))
    case Abandon => s.(forwarder := Exited)
    case Quit => s.(forwarder := Exited)
    case Receive =>
      s.(watch := s.watch.(buffer := s.watch.buffer[1..]), received := s.received + [s.watch.buffer[0]])
  }

  predicate IsRun(s: State, steps: seq<Step>)
    decreases |steps|
  {
    steps == [] || (Enabled(s, steps[0]) && IsRun(After(s, steps[0]), steps[1..]))
  }

  function Final(s: State, steps: seq<Step>): State
    requires IsRun(s, steps)
    decreases |steps|
  {
    if steps == [] then s else Final(After(s, steps[0]), steps[1..])
  }

  // ---------------------------------------------------------------- the invariant

  function Held(f: Forwarder): seq<Event> { if f.Holding? then [f.event] else [] }

  /** What the watcher has or will read without any further step of the poller. */
  function Delivered(s: State): seq<Event> { s.received + s.watch.buffer }

  predicate Past(m: Main) { m.Awaiting? || m.Returned? || m.Finished? }

  predicate Invariant(s: State)
  {
    && !s.panicked
    && (s.main.Sending? ==> s.main.events != [])
    && |s.results.buffer| <= BUF_SIZE && |s.watch.buffer| <= BUF_SIZE
    && (s.results.closed <==> Past(s.main))
    && (s.watch.closed <==> s.main.Finished?)
    && (s.main.Returned? || s.main.Finished? ==> s.forwarder.Exited?)
    && (s.main.Leaving? || s.main.Stopped? || Past(s.main) || s.forwarder.Exited? ==> s.done)
    && Delivered(s) <= s.accepted
    && (!s.forwarder.Exited? ==> s.accepted == Delivered(s) + Held(s.forwarder) + s.results.buffer)
  }

  lemma DeliveryKept(s: State, step: Step)
    requires Invariant(s) && Enabled(s, step)
    ensures Delivered(After(s, step)) <= After(s, step).accepted
    ensures var t := After(s, step);
            !t.forwarder.Exited? ==> t.accepted == Delivered(t) + Held(t.forwarder) + t.results.buffer
  {
    var t := After(s, step);
    match step
    case Send =>
      assert t.accepted == s.accepted + [s.main.events[0]];
      assert Delivered(s) <= t.accepted;
    case Take => assert s.results.buffer == [s.results.buffer[0]] + s.results.buffer[1..];
    case Forward => assert Delivered(t) == Delivered(s) + [s.forwarder.event];
    case Receive => assert Delivered(t) == Delivered(s);
    case _ =>
  }

  lemma StepKeepsInvariant(s: State, step: Step)
    requires Invariant(s) && Enabled(s, step)
    ensures Invariant(After(s, step))
  {
    hide Delivered;
    DeliveryKept(s, step);
  }

  lemma {:induction false} RunKeepsInvariant(s: State, steps: seq<Step>)
    requires Invariant(s) && IsRun(s, steps)
    ensures Invariant(Final(s, steps))
    decreases |steps|
  {
    hide Invariant, Enabled, After;
    if steps != [] {
      StepKeepsInvariant(s, steps[0]);
      RunKeepsInvariant(After(s, steps[0]), steps[1..]);
    }
  }

  // ---------------------------------------------------------------- safety of every interleaving

  /** Nothing is sent on or closed twice: no interleaving panics. `Run` returns only after the
      forwarder is gone, the watch channel is closed only after that, and what the watcher reads is
      a prefix, in order, of what the result channel accepted. */
  lemma ShutdownIsSafe(steps: seq<Step>)
    requires IsRun(INITIAL, steps)
    ensures var s := Final(INITIAL, steps);
            && !s.panicked
            && (s.main.Returned? || s.main.Finished? ==> s.forwarder.Exited?)
            && (s.watch.closed ==> s.main.Finished?)
            && s.received <= s.accepted
  {
    RunKeepsInvariant(INITIAL, steps);
  }

  /** Until the cancellation no accepted event is lost: each was read, is buffered or is in hand. */
  lemma NothingLostBeforeCancel(steps: seq<Step>)
    requires IsRun(INITIAL, steps) && Cancel !in steps
    ensures var s := Final(INITIAL, steps);
            !s.done && s.accepted == s.received + s.watch.buffer + Held(s.forwarder) + s.results.buffer
  {
    RunKeepsInvariant(INITIAL, steps);
    UndoneWithoutCancel(INITIAL, steps);
  }

  lemma {:induction false} UndoneWithoutCancel(s: State, steps: seq<Step>)
    requires Invariant(s) && IsRun(s, steps) && Cancel !in steps && !s.done
    ensures !Final(s, steps).done
    decreases |steps|
  {
    if steps != [] {
      StepKeepsInvariant(s, steps[0]);
      UndoneWithoutCancel(After(s, steps[0]), steps[1..]);
    }
  }

  // ---------------------------------------------------------------- the shutdown finishes

  /** Steps of the poller's own goroutines, other than the start of another poll. */
  predicate Own(step: Step) { !step.Cancel? && !step.BeginPoll? && !step.Receive? }

  /** How many of those are left at most. */
  function Remaining(s: State): nat
  {
    (match s.main
     case Choosing => 5 case Sending(es) => 5 + 3 * |es| case Leaving => 4
     case Stopped => 3 case Awaiting => 2 case Returned => 1 case Finished => 0)
    + 2 * |s.results.buffer|
    + (match s.forwarder case Receiving => 1 case Holding(_) => 2 case Exited => 0)
  }

  /** Once cancelled, the poller can always go on by itself, even if the watcher reads nothing. */
  function NextOwn(s: State): Step
  {
    if s.forwarder.Receiving? then Quit
    else if s.forwarder.Holding? then Abandon
    else match s.main
      case Choosing => SeeDone case Sending(_) => GiveUp case Leaving => CancelOwn
      case Stopped => CloseResults case Awaiting => SeeForwarded case Returned => CloseWatch
      case Finished => Cancel
  }

  lemma NeverStuck(s: State)
    requires Invariant(s) && s.done && !(s.main.Finished? && s.forwarder.Exited?)
    ensures Own(NextOwn(s)) && Enabled(s, NextOwn(s))
  {
  }

  /** Every such step uses one up, so a cancelled run that starts no more polls ends. */
  lemma OwnStepsRunOut(s: State, step: Step)
    requires Invariant(s) && Enabled(s, step) && Own(step)
    ensures Remaining(After(s, step)) < Remaining(s)
  {
  }

  lemma {:induction false} CancelledRunIsBounded(s: State, steps: seq<Step>)
    requires Invariant(s) && IsRun(s, steps) && forall i | 0 <= i < |steps| :: Own(steps[i]) || steps[i].Receive?
    ensures OwnCount(steps) <= Remaining(s)
    decreases |steps|
  {
    hide Invariant, Enabled, After, Remaining;
    if steps != [] {
      StepKeepsInvariant(s, steps[0]);
      CancelledRunIsBounded(After(s, steps[0]), steps[1..]);
      if Own(steps[0]) {
        OwnStepsRunOut(s, steps[0]);
      } else {
        ReceiveCostsNothing(s);
      }
    }
  }

  function OwnCount(steps: seq<Step>): nat
  {
    if steps == [] then 0 else (if Own(steps[0]) then 1 else 0) + OwnCount(steps[1..])
  }

  lemma ReceiveCostsNothing(s: State)
    requires Enabled(s, Receive)
    ensures Remaining(After(s, Receive)) == Remaining(s)
  {
  }

  /** From any cancelled state, `Run` and its forwarder can finish in `Remaining` steps of their own. */
  lemma {:induction false} CanFinish(s: State) returns (steps: seq<Step>)
    requires Invariant(s) && s.done
    ensures IsRun(s, steps) && |steps| <= Remaining(s)
    ensures forall i | 0 <= i < |steps| :: Own(steps[i])
    ensures Final(s, steps).main.Finished? && Final(s, steps).watch.closed && Final(s, steps).forwarder.Exited?
    decreases Remaining(s)
  {
    if s.main.Finished? && s.forwarder.Exited? {
      return [];
    }
    NeverStuck(s);
    var step := NextOwn(s);
    StepKeepsInvariant(s, step);
    OwnStepsRunOut(s, step);
    var rest := CanFinish(After(s, step));
    steps := [step] + rest;
    assert steps[1..] == rest;
  }

  // ---------------------------------------------------------------- nothing is dropped

  /** The events of all polls begun, in order. */
  function Polled(steps: seq<Step>): seq<Event>
  {
    if steps == [] then []
    else (if steps[0].BeginPoll? then steps[0].events else []) + Polled(steps[1..])
  }

  /** What the poll under way has still to send. */
  function Unsent(s: State): seq<Event> { if s.main.Sending? then s.main.events else [] }

  /** Until the cancellation no event of any poll is dropped: those accepted, and those still to be sent, are all
      there were, in order. */
  lemma {:induction false} NothingDroppedBeforeCancel(s: State, steps: seq<Step>)
    requires IsRun(s, steps) && !Final(s, steps).done
    ensures s.accepted + Unsent(s) + Polled(steps) == Final(s, steps).accepted + Unsent(Final(s, steps))
    decreases |steps|
  {
    if steps != [] {
      var next := After(s, steps[0]);
      DoneStays(next, steps[1..]);
      NothingDroppedBeforeCancel(next, steps[1..]);
      OneStepDropsNothing(s, steps[0]);
      var begun := if steps[0].BeginPoll? then steps[0].events else [];
      assert s.accepted + Unsent(s) + Polled(steps) == s.accepted + Unsent(s) + begun + Polled(steps[1..]);
    }
  }

  lemma OneStepDropsNothing(s: State, step: Step)
    requires Enabled(s, step) && !After(s, step).done
    ensures var begun := if step.BeginPoll? then step.events else [];
            s.accepted + Unsent(s) + begun == After(s, step).accepted + Unsent(After(s, step))
  {
    if step.Send? && !s.results.closed {
      assert s.main.events == [s.main.events[0]] + s.main.events[1..];
    }
  }

  lemma {:induction false} DoneStays(s: State, steps: seq<Step>)
    requires IsRun(s, steps)
    ensures s.done ==> Final(s, steps).done
    decreases |steps|
  {
    if steps != [] { DoneStays(After(s, steps[0]), steps[1..]); }
  }
}
