/** The event debouncer of main.go (`debounce`), stripped of goroutines,
    channels and wall-clock time.

    The goroutine's local variables become a `State`: the last received
    event, the two timers as absolute deadlines (`None` is a nil timer
    channel) and whether the input channel has been closed. Time is a
    `nat` handed to each transition. Each arm of the `select` is one
    transition: `Receive` (an event arrives), `Fire` (the clock is looked
    at; a due timer emits) and `CloseInput` (the input channel is closed).
    Which arm `select` takes when several are ready is up to the
    environment: it is the order of the actions in a trace. */
module Debounce {
  import opened Wrappers

  /** The two durations `debounce` is called with: `delay` is the quiet
      period, re-armed on every event; `throttle` is the longest wait,
      armed once per batch. */
  datatype Policy = Policy(delay: nat, throttle: nat)

  /** `lastEvent`, `delayTimer` and `throttleTimer` of the goroutine, and
      whether it has returned because its input was closed. */
  datatype State<E> = State(
    lastEvent: E,
    delayDeadline: Option<nat>,
    throttleDeadline: Option<nat>,
    closed: bool)

  /** One thing that can happen to the goroutine. */
  datatype Action<E> =
    | Input(e: E, at: nat)    // an event is received at time `at`
    | Tick(at: nat)           // the clock reads `at`; a due timer fires
    | InputClosed             // the input channel is closed

  /** The goroutine as it starts: `lastEvent` holds the zero value of the
      event type and both timers are nil. */
  function Initial<E>(zero: E): (s: State<E>)
  {
    State(zero, None, None, false)
  }

  /** No batch is open and the input is still open. */
  predicate Idle<E>(s: State<E>)
  {
    s.delayDeadline.None? && s.throttleDeadline.None? && !s.closed
  }

  /** A timer with this deadline has fired by time `now`. */
  predicate Due(deadline: Option<nat>, now: nat)
  {
    deadline.Some? && deadline.value <= now
  }

  /** A batch is open: an event was received since the last emission. */
  predicate Armed<E>(s: State<E>)
  {
    s.throttleDeadline.Some?
  }

  /** Both timers are armed and cleared together. */
  predicate Consistent<E>(s: State<E>)
  {
    s.delayDeadline.Some? == s.throttleDeadline.Some?
  }

  /** The event the next emission will carry, if a batch is open. */
  function Pending<E>(s: State<E>): (pending: Option<E>)
  {
    if Armed(s) && !s.closed then Some(s.lastEvent) else None
  }

  /** The `case lastEvent, ok = <-input` arm with `ok` true: the event is
      kept, the quiet timer is re-armed, and the throttle timer is armed
      only if it is nil. After the input was closed nothing happens. */
  function Receive<E>(p: Policy, s: State<E>, e: E, now: nat): (s': State<E>)
    ensures s.closed ==> s' == s
    ensures !s.closed ==> Pending(s') == Some(e) && Consistent(s')
    ensures !s.closed ==> s'.delayDeadline == Some(now + p.delay)
    ensures !s.closed && Armed(s) ==> s'.throttleDeadline == s.throttleDeadline
    ensures !s.closed && !Armed(s) ==> s'.throttleDeadline == Some(now + p.throttle)
  {
    if s.closed then s
    else
      State(e, Some(now + p.delay),
            if s.throttleDeadline.None? then Some(now + p.throttle) else s.throttleDeadline,
            false)
  }

  /** The `case <-delayTimer` and `case <-throttleTimer` arms: when either
      timer is due, `resetAndEmit` clears both and emits `lastEvent`. When
      both are due, `select` takes either arm; both do the same. */
  function Fire<E>(s: State<E>, now: nat): (r: (State<E>, Option<E>))
    ensures r.1.Some? ==> !s.closed && (Due(s.delayDeadline, now) || Due(s.throttleDeadline, now))
    ensures r.1.Some? && Consistent(s) ==> r.1 == Pending(s)
    ensures r.1.Some? ==> Idle(r.0) && r.0.lastEvent == s.lastEvent
    ensures r.1.None? ==> r.0 == s
    ensures Pending(s).Some? && now >= s.throttleDeadline.value ==> r.1.Some?
    ensures Pending(s).Some? && Due(s.delayDeadline, now) ==> r.1.Some?
  {
    if !s.closed && (Due(s.delayDeadline, now) || Due(s.throttleDeadline, now)) then
      (s.(delayDeadline := None, throttleDeadline := None), Some(s.lastEvent))
    else
      (s, None)
  }

  /** The `case lastEvent, ok = <-input` arm with `ok` false: the goroutine
      returns, and whatever event was pending is never emitted. */
  function CloseInput<E>(s: State<E>): (s': State<E>)
    ensures s'.closed && Pending(s') == None
    ensures forall now: nat :: Fire(s', now).1 == None
  {
    s.(closed := true)
  }

  /** One action, with what it emits. */
  function Step<E>(p: Policy, s: State<E>, a: Action<E>): (r: (State<E>, Option<E>))
  {
    match a
    case Input(e, at) => (Receive(p, s, e, at), None)
    case Tick(at) => Fire(s, at)
    case InputClosed => (CloseInput(s), None)
  }

  /** The state after a trace of actions, and what each action emitted. */
  function Run<E>(p: Policy, s: State<E>, acts: seq<Action<E>>): (r: (State<E>, seq<Option<E>>))
    ensures |r.1| == |acts|
    decreases |acts|
  {
    if acts == [] then (s, [])
    else
      var prev := Run(p, s, acts[..|acts| - 1]);
      var next := Step(p, prev.0, acts[|acts| - 1]);
      (next.0, prev.1 + [next.1])
  }

  /** The goroutine of `debounce`: its local variables are the fields, and
      each arm of its `select` is a method. */
  class Debouncer<E> {
    const policy: Policy
    var lastEvent: E
    var delayDeadline: Option<nat>
    var throttleDeadline: Option<nat>
    var closed: bool

    function Snapshot(): (s: State<E>)
      reads this
    {
      State(lastEvent, delayDeadline, throttleDeadline, closed)
    }

    ghost predicate Valid()
      reads this
    {
      Consistent(Snapshot())
    }

    constructor (delay: nat, throttle: nat, zero: E)
      ensures Valid() && policy == Policy(delay, throttle)
      ensures Snapshot() == Initial(zero)
    {
      policy := Policy(delay, throttle);
      lastEvent := zero;
      delayDeadline, throttleDeadline := None, None;
      closed := false;
    }

    /** An event `e` arrives at time `now`. */
    method OnInput(e: E, now: nat)
      requires Valid()
      modifies this
      ensures Valid()
      ensures Snapshot() == Receive(policy, old(Snapshot()), e, now)
    {
      if !closed {
        lastEvent := e;
        delayDeadline := Some(now + policy.delay);
        if throttleDeadline.None? {
          throttleDeadline := Some(now + policy.throttle);
        }
      }
    }

    /** The clock reads `now`; returns the event emitted, if a timer fired. */
    method OnTick(now: nat) returns (out: Option<E>)
      requires Valid()
      modifies this
      ensures Valid()
      ensures Snapshot() == Fire(old(Snapshot()), now).0
      ensures out == Fire(old(Snapshot()), now).1
      ensures out.Some? ==> out == old(Pending(Snapshot()))
    {
      out := None;
      if !closed && (Due(delayDeadline, now) || Due(throttleDeadline, now)) {
        // resetAndEmit
        delayDeadline, throttleDeadline := None, None;
        out := Some(lastEvent);
      }
    }

    /** The input channel is closed. */
    method OnClose()
      requires Valid()
      modifies this
      ensures Valid()
      ensures Snapshot() == CloseInput(old(Snapshot()))
    {
      closed := true;
    }

    /** The `for { select { ... } }` loop, fed the actions in the order in
      which `select` takes them; returns what each action emitted. */
    method Drive(acts: seq<Action<E>>) returns (outs: seq<Option<E>>)
      requires Valid()
      modifies this
      ensures Valid()
      ensures Snapshot() == Run(policy, old(Snapshot()), acts).0
      ensures outs == Run(policy, old(Snapshot()), acts).1
    {
      outs := [];
      var i := 0;
      while i < |acts|
        invariant 0 <= i <= |acts|
        invariant Valid()
        invariant Snapshot() == Run(policy, old(Snapshot()), acts[..i]).0
        invariant outs == Run(policy, old(Snapshot()), acts[..i]).1
      {
        assert acts[..i + 1][..i] == acts[..i];
        var out: Option<E> := None;
        match acts[i] {
          case Input(e, at) => OnInput(e, at);
          case Tick(at) => out := OnTick(at);
          case InputClosed => OnClose();
        }
        outs := outs + [out];
        i := i + 1;
      }
      assert acts[..i] == acts;
    }
  }
}
