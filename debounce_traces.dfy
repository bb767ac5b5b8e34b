/** What the debouncer promises over whole traces of actions: each emission
    carries the latest event received, at most one emission per batch, none
    without an event, a bounded wait under sustained traffic, a burst that
    collapses into one emission, and silence once the input is closed. */
module DebounceTraces {
  import opened Wrappers
  import opened Debounce

  /** Timestamps never go backwards. */
  ghost predicate Chronological<E>(acts: seq<Action<E>>)
  {
    forall m, n :: 0 <= m < n < |acts| && !acts[m].InputClosed? && !acts[n].InputClosed? ==>
      acts[m].at <= acts[n].at
  }

  /** Input `j` is the last one received, and nothing was emitted since. */
  ghost predicate LatestInput<E>(acts: seq<Action<E>>, outs: seq<Option<E>>, j: int)
  {
    0 <= j < |acts| == |outs| && acts[j].Input? &&
    forall k :: j < k < |acts| ==> !acts[k].Input? && outs[k].None?
  }

  /** Emission `i` is a timer firing that carries the event of input `j`,
      and between the two no other event arrived and nothing was emitted. */
  ghost predicate EmitsInput<E>(acts: seq<Action<E>>, outs: seq<Option<E>>, j: int, i: int)
  {
    0 <= j < i < |acts| == |outs| && acts[j].Input? && acts[i].Tick? &&
    outs[i] == Some(acts[j].e) &&
    forall k :: j < k < i ==> !acts[k].Input? && outs[k].None?
  }

  /** Every emission of the trace is explained by an input. */
  ghost predicate Explained<E>(acts: seq<Action<E>>, outs: seq<Option<E>>)
  {
    |outs| == |acts| &&
    forall i :: 0 <= i < |acts| && outs[i].Some? ==> exists j :: EmitsInput(acts, outs, j, i)
  }

  /** The invariant of a run that starts with no batch open: timers stay
      consistent, every emission is explained, and a pending event is the
      latest input, with nothing emitted since it arrived. */
  lemma {:induction false} RunExplained<E>(p: Policy, s0: State<E>, acts: seq<Action<E>>)
    requires Consistent(s0) && Pending(s0).None?
    ensures Consistent(Run(p, s0, acts).0)
    ensures Explained(acts, Run(p, s0, acts).1)
    ensures Pending(Run(p, s0, acts).0).Some? ==>
      exists j :: LatestInput(acts, Run(p, s0, acts).1, j) && acts[j].e == Run(p, s0, acts).0.lastEvent
    decreases |acts|
  {
    if acts != [] {
      var n := |acts| - 1;
      var pre := acts[..n];
      var a := acts[n];
      RunExplained(p, s0, pre);
      var (s1, o1) := Run(p, s0, pre);
      var (s2, o) := Step(p, s1, a);
      var outs := o1 + [o];
      assert Run(p, s0, acts) == (s2, outs);
      forall i | 0 <= i < n && outs[i].Some?
        ensures exists j :: EmitsInput(acts, outs, j, i)
      {
        var j :| EmitsInput(pre, o1, j, i);
        assert EmitsInput(acts, outs, j, i);
      }
      match a {
        case Input(e, at) =>
          if !s1.closed {
            assert LatestInput(acts, outs, n);
          }
        case Tick(at) =>
          if o.Some? {
            var j :| LatestInput(pre, o1, j) && acts[j].e == s1.lastEvent;
            assert EmitsInput(acts, outs, j, n);
          } else if Pending(s2).Some? {
            var j :| LatestInput(pre, o1, j) && acts[j].e == s1.lastEvent;
            assert LatestInput(acts, outs, j);
          }
        case InputClosed =>
      }
    }
  }

  /** Last event wins: an emission is a timer firing, and it carries the
      event of the most recent input, with no other input and no other
      emission in between. */
  lemma EmissionCarriesLatestInput<E>(p: Policy, s0: State<E>, acts: seq<Action<E>>, i: nat)
    requires Consistent(s0) && Pending(s0).None?
    requires i < |acts| && Run(p, s0, acts).1[i].Some?
    ensures acts[i].Tick?
    ensures exists j :: EmitsInput(acts, Run(p, s0, acts).1, j, i)
  {
    RunExplained(p, s0, acts);
  }

  /** No spontaneous emission: a trace without inputs emits nothing. */
  lemma NoEmissionWithoutInput<E>(p: Policy, s0: State<E>, acts: seq<Action<E>>)
    requires Consistent(s0) && Pending(s0).None?
    requires forall k :: 0 <= k < |acts| ==> !acts[k].Input?
    ensures forall i :: 0 <= i < |acts| ==> Run(p, s0, acts).1[i].None?
  {
    RunExplained(p, s0, acts);
  }

  /** One emission per batch: between two emissions an input arrived. */
  lemma OneEmissionPerBatch<E>(p: Policy, s0: State<E>, acts: seq<Action<E>>, i1: nat, i2: nat)
    requires Consistent(s0) && Pending(s0).None?
    requires i1 < i2 < |acts|
    requires Run(p, s0, acts).1[i1].Some? && Run(p, s0, acts).1[i2].Some?
    ensures exists k :: i1 < k < i2 && acts[k].Input?
  {
    RunExplained(p, s0, acts);
    var j :| EmitsInput(acts, Run(p, s0, acts).1, j, i2);
    assert i1 < j;
  }

  /** Without a close in the trace, the input stays open. */
  lemma {:induction false} StaysOpen<E>(p: Policy, s0: State<E>, acts: seq<Action<E>>)
    requires !s0.closed
    requires forall k :: 0 <= k < |acts| ==> !acts[k].InputClosed?
    ensures !Run(p, s0, acts).0.closed
    decreases |acts|
  {
    if acts != [] {
      StaysOpen(p, s0, acts[..|acts| - 1]);
    }
  }

  /** From an idle start, an armed throttle deadline is `throttle` after
      some input of the trace. */
  lemma {:induction false} ThrottleFromInput<E>(p: Policy, s0: State<E>, acts: seq<Action<E>>)
    requires Idle(s0)
    ensures Armed(Run(p, s0, acts).0) ==>
      exists m :: 0 <= m < |acts| && acts[m].Input? &&
        Run(p, s0, acts).0.throttleDeadline.value == acts[m].at + p.throttle
    decreases |acts|
  {
    if acts != [] {
      var n := |acts| - 1;
      ThrottleFromInput(p, s0, acts[..n]);
      var s1 := Run(p, s0, acts[..n]).0;
      var s2 := Run(p, s0, acts).0;
      if Armed(s2) {
        if s2.throttleDeadline == s1.throttleDeadline && Armed(s1) {
          var m :| 0 <= m < n && acts[..n][m].Input? &&
            s1.throttleDeadline.value == acts[..n][m].at + p.throttle;
          assert acts[m] == acts[..n][m];
        } else {
          assert acts[n].Input? && s2.throttleDeadline.value == acts[n].at + p.throttle;
        }
      }
    }
  }

  /** Once input `i` has arrived, until something is emitted a batch stays
      open whose throttle deadline is at most `throttle` after input `i`:
      the throttle deadline is never pushed back. */
  lemma {:induction false} BatchStaysOpen<E>(p: Policy, s0: State<E>, acts: seq<Action<E>>, i: nat)
    requires Idle(s0) && Chronological(acts)
    requires forall k :: 0 <= k < |acts| ==> !acts[k].InputClosed?
    requires i < |acts| && acts[i].Input?
    requires forall k :: i < k < |acts| ==> Run(p, s0, acts).1[k].None?
    ensures Pending(Run(p, s0, acts).0).Some?
    ensures Run(p, s0, acts).0.throttleDeadline.value <= acts[i].at + p.throttle
    decreases |acts|
  {
    var n := |acts| - 1;
    var pre := acts[..n];
    var s1 := Run(p, s0, pre).0;
    StaysOpen(p, s0, pre);
    if n == i {
      if Armed(s1) {
        ThrottleFromInput(p, s0, pre);
        var m :| 0 <= m < n && pre[m].Input? && s1.throttleDeadline.value == pre[m].at + p.throttle;
        assert acts[m] == pre[m];
      }
    } else {
      var step := Step(p, s1, acts[n]);
      assert Run(p, s0, acts).1 == Run(p, s0, pre).1 + [step.1];
      assert forall k :: i < k < |pre| ==> Run(p, s0, pre).1[k] == Run(p, s0, acts).1[k];
      BatchStaysOpen(p, s0, pre, i);
      assert Run(p, s0, acts).0 == step.0;
      assert Run(p, s0, acts).1[n] == step.1;
    }
  }

  /** The latency bound under sustained churn: once an event has arrived,
      the debouncer emits no later than the first clock reading at least
      `throttle` after it, however many events keep arriving. */
  lemma ThrottleBoundsLatency<E>(p: Policy, s0: State<E>, acts: seq<Action<E>>, i: nat)
    requires Idle(s0) && Chronological(acts)
    requires forall k :: 0 <= k < |acts| ==> !acts[k].InputClosed?
    requires i < |acts| - 1 && acts[i].Input?
    requires acts[|acts| - 1].Tick? && acts[|acts| - 1].at >= acts[i].at + p.throttle
    ensures exists k :: i < k < |acts| && Run(p, s0, acts).1[k].Some?
  {
    var n := |acts| - 1;
    var outs := Run(p, s0, acts).1;
    if forall k :: i < k < n ==> outs[k].None? {
      var pre := acts[..n];
      assert forall k :: i < k < |pre| ==> Run(p, s0, pre).1[k] == outs[k];
      BatchStaysOpen(p, s0, pre, i);
      assert outs[n].Some?;
    }
  }

  /** The index of the last input of a trace, or -1 when it has none. */
  function LastInputAt<E>(acts: seq<Action<E>>): (j: int)
    ensures -1 <= j < |acts|
    ensures j >= 0 ==> acts[j].Input?
    ensures forall k :: j < k < |acts| ==> !acts[k].Input?
    ensures |acts| > 0 && acts[0].Input? ==> j >= 0
    decreases |acts|
  {
    if acts == [] then -1
    else if acts[|acts| - 1].Input? then |acts| - 1
    else LastInputAt(acts[..|acts| - 1])
  }

  /** A burst: it opens with an event, the input is never closed, and every
      clock reading comes before the quiet deadline of the latest event
      and before the throttle deadline of the first one. */
  ghost predicate RapidBurst<E>(p: Policy, burst: seq<Action<E>>)
  {
    |burst| > 0 && burst[0].Input? &&
    forall k :: 0 <= k < |burst| ==>
      !burst[k].InputClosed? &&
      (burst[k].Tick? ==>
        var j := LastInputAt(burst[..k]);
        0 <= j && burst[k].at < burst[j].at + p.delay && burst[k].at < burst[0].at + p.throttle)
  }

  /** A burst, from an idle start, emits nothing and leaves a batch open:
      the latest event is pending, the quiet deadline is `delay` after it,
      and the throttle deadline is `throttle` after the first event. */
  lemma {:induction false} BurstOpensBatch<E>(p: Policy, s0: State<E>, burst: seq<Action<E>>)
    requires Idle(s0) && RapidBurst(p, burst)
    ensures LastInputAt(burst) >= 0
    ensures Pending(Run(p, s0, burst).0) == Some(burst[LastInputAt(burst)].e)
    ensures Run(p, s0, burst).0.delayDeadline == Some(burst[LastInputAt(burst)].at + p.delay)
    ensures Run(p, s0, burst).0.throttleDeadline == Some(burst[0].at + p.throttle)
    ensures forall k :: 0 <= k < |burst| ==> Run(p, s0, burst).1[k].None?
    decreases |burst|
  {
    var n := |burst| - 1;
    if n > 0 {
      var pre := burst[..n];
      RapidBurstPrefix(p, burst);
      BurstOpensBatch(p, s0, pre);
      var s1 := Run(p, s0, pre).0;
      var step := Step(p, s1, burst[n]);
      assert Run(p, s0, burst) == (step.0, Run(p, s0, pre).1 + [step.1]);
      match burst[n] {
        case Input(e, at) =>
          assert LastInputAt(burst) == n;
        case Tick(at) =>
          assert LastInputAt(burst) == LastInputAt(pre);
          assert burst[..n] == pre;
          assert step == (s1, None);
        case InputClosed =>
          assert false;
      }
    }
  }

  /** A burst without its last action is still a burst. */
  lemma RapidBurstPrefix<E>(p: Policy, burst: seq<Action<E>>)
    requires RapidBurst(p, burst) && |burst| > 1
    ensures RapidBurst(p, burst[..|burst| - 1])
  {
  }

  /** Burst collapsing: a burst followed by one more clock reading `now`
      emits nothing during the burst; the final reading emits exactly when
      the quiet deadline of the latest event or the throttle deadline of the
      first has passed, and then it carries the latest event. A single
      event with clock readings before its quiet period ends is such a
      burst: it is not emitted early. */
  lemma BurstCollapses<E>(p: Policy, s0: State<E>, burst: seq<Action<E>>, now: nat)
    requires Idle(s0) && RapidBurst(p, burst)
    ensures forall k :: 0 <= k < |burst| ==> Run(p, s0, burst + [Tick(now)]).1[k].None?
    ensures LastInputAt(burst) >= 0
    ensures Run(p, s0, burst + [Tick(now)]).1[|burst|] ==
      if now >= burst[LastInputAt(burst)].at + p.delay || now >= burst[0].at + p.throttle
      then Some(burst[LastInputAt(burst)].e)
      else None
  {
    BurstOpensBatch(p, s0, burst);
    assert (burst + [Tick(now)])[..|burst|] == burst;
  }

  /** After the input is closed nothing is ever emitted again. */
  lemma {:induction false} ClosedIsSilent<E>(p: Policy, s0: State<E>, acts: seq<Action<E>>)
    requires s0.closed
    ensures Run(p, s0, acts).0.closed
    ensures forall i :: 0 <= i < |acts| ==> Run(p, s0, acts).1[i].None?
    decreases |acts|
  {
    if acts != [] {
      ClosedIsSilent(p, s0, acts[..|acts| - 1]);
    }
  }
}
