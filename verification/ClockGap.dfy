/** Sinks that come or leave between the reset of the latch and the start of dispatch. */
module ClockGap {
  import opened ClockSinks
  import opened ClockRegistry
  import opened ClockBarrier

  /** How many sinks leave, and how many come, while the latch is counted and dispatch has not begun. */
  function Left(s: State, acts: seq<Action>): nat
    decreases |acts|
  {
    if acts == [] || !Enabled(s, acts[0]) then 0
    else (if s.pc == Counted && acts[0].Unregister? then 1 else 0) + Left(Apply(s, acts[0]), acts[1..])
  }

  function Came(s: State, acts: seq<Action>): nat
    decreases |acts|
  {
    if acts == [] || !Enabled(s, acts[0]) then 0
    else (if s.pc == Counted && acts[0].Register? then 1 else 0) + Came(Apply(s, acts[0]), acts[1..])
  }

  lemma {:induction false} SkewCounts(s: State, acts: seq<Action>, end: State)
    requires s.pc != Idle && Execution(s, acts, end) && Return !in acts
    ensures end.pc != Idle && end.skew == s.skew + Left(s, acts) - Came(s, acts)
    ensures BalancedExecution(s, acts, end)
    decreases |acts|
  {
    if acts != [] {
      SkewStep(s, acts[0]);
      hide Enabled, Apply;
      SkewCounts(Apply(s, acts[0]), acts[1..], end);
    }
  }

  lemma SkewStep(s: State, a: Action)
    requires s.pc != Idle && Enabled(s, a) && a != Return
    ensures Apply(s, a).pc != Idle
    ensures Apply(s, a).skew == s.skew
      + (if s.pc == Counted && a.Unregister? then 1 else 0) - (if s.pc == Counted && a.Register? then 1 else 0)
  {
  }

  /** While the trigger is at the latch, whatever happens but its return leaves it there, and the latch can only fall. */
  lemma {:induction false} StillWaiting(s: State, acts: seq<Action>, end: State)
    requires Inv(s) && s.pc == Waiting && Execution(s, acts, end) && Return !in acts
    ensures Inv(end) && end.pc == Waiting && end.skew == s.skew && end.latch <= s.latch && end.event == s.event
    decreases |acts|
  {
    hide Inv;
    if acts != [] {
      StepKeepsInv(s, acts[0]);
      StillWaiting(Apply(s, acts[0]), acts[1..], end);
    }
  }

  /** The latch at the end of dispatch: the unfinished closures, and the skew. */
  lemma LatchWaiting(s: State)
    requires Inv(s) && s.pc == Waiting
    ensures s.latch == |Outstanding(s)| + s.skew
    ensures Enabled(s, Return) <==> |Outstanding(s)| == -s.skew
  {
  }

  /** With sinks missing the trigger never returns, whoever does what. */
  lemma {:induction false} BlockedForEver(s: State, acts: seq<Action>, end: State)
    requires Inv(s) && s.pc == Waiting && s.skew > 0 && Execution(s, acts, end)
    ensures end.pc == Waiting && end.event == s.event && !Enabled(end, Return)
    decreases |acts|
  {
    hide Inv, Outstanding;
    LatchWaiting(s);
    if acts != [] {
      assert acts[0] != Return;
      StepKeepsInv(s, acts[0]);
      BlockedForEver(Apply(s, acts[0]), acts[1..], end);
    }
  }

  /** The workers can be left to run until the latch is at zero. */
  lemma {:induction false} RunWorkers(s: State) returns (acts: seq<Action>, end: State)
    requires Inv(s) && s.pc == Waiting && s.skew <= 0 && s.latch >= 0
    ensures Execution(s, acts, end) && Return !in acts && Enabled(end, Return)
    decreases Measure(s)
  {
    hide Inv, Measure, Enabled, Outstanding;
    acts, end := [], s;
    if s.latch == 0 {
      ReturnEnabled(s);
    } else {
      var a := WorkerStep(s);
      MeasureBound(s);
      SystemStepDecreases(s, a);
      StepKeepsInv(s, a);
      WorkerStepWaits(s, a);
      acts, end := RunWorkers(Apply(s, a));
      acts := [a] + acts;
      assert acts[1..] == acts[1..];
    }
  }

  lemma ReturnEnabled(s: State)
    requires s.pc == Waiting && s.latch == 0
    ensures Enabled(s, Return)
  {
  }

  lemma WorkerStep(s: State) returns (a: Action)
    requires Inv(s) && s.pc == Waiting && s.skew <= 0 && s.latch > 0
    ensures (a.Begin? || a.Finish?) && Enabled(s, a)
  {
    LatchWaiting(s);
    assert Outstanding(s) != {};
    var id :| id in Outstanding(s);
    a := if s.threads[id].busy then Finish(id) else Begin(id);
  }

  lemma WorkerStepWaits(s: State, a: Action)
    requires s.pc == Waiting && s.latch > 0 && (a.Begin? || a.Finish?) && Enabled(s, a)
    ensures var s' := Apply(s, a); s'.pc == Waiting && s'.skew == s.skew && s'.latch >= 0
  {
  }

  /** Every worker there is has handled all events dispatched to it. */
  ghost predicate Barrier(s: State) {
    forall id | id in s.threads :: Complete(s.threads[id], Upto(s, id))
  }

  lemma BarrierExact(s: State)
    requires Inv(s)
    ensures Barrier(s) <==> Outstanding(s) == {}
  {
    if Outstanding(s) == {} {
      forall id | id in s.threads ensures Complete(s.threads[id], Upto(s, id)) {
        assert id !in Outstanding(s) && HistoryInv(s, id);
        var t := s.threads[id];
        assert Events(t.handled) + t.queue == Events(t.handled);
      }
    }
  }

  ghost predicate CanReturn(s: State) {
    exists acts, end :: Execution(s, acts, end) && Return !in acts && Enabled(end, Return)
  }

  /** Whatever happens while the trigger waits, it can still return, and at every possible return the barrier holds. */
  ghost predicate Sound(s: State) {
    forall acts, end | Execution(s, acts, end) && Return !in acts ::
      CanReturn(end) && (Enabled(end, Return) ==> Barrier(end))
  }

  /**
   * The exact condition for a trigger, over its whole run: it keeps the barrier and its return if
   * and only if, between the reset of its latch and the start of dispatch, as many sinks left as
   * came. The model lets it return only while the latch is exactly zero; a waiter that a latch has
   * woken at zero may also return after further closures, with fewer of them unfinished.
   */
  lemma LatchExact(s: State, acts: seq<Action>, end: State)
    requires Reachable(s) && s.pc == Idle
    requires Execution(Apply(s, Trigger), acts, end) && Return !in acts && end.pc == Waiting
    ensures Sound(end) <==> Left(Apply(s, Trigger), acts) == Came(Apply(s, Trigger), acts)
  {
    hide Inv, Reachable, Execution, Sound, BalancedExecution;
    var first := Apply(s, Trigger);
    ReachableInv(s);
    StepKeepsInv(s, Trigger);
    SkewCounts(first, acts, end);
    BalancedExecutionKeeps(first, acts, end);
    if end.skew == 0 {
      BalancedIsSound(end);
    } else {
      UnbalancedIsNotSound(end);
    }
  }

  lemma BalancedIsSound(s: State)
    requires Inv(s) && s.pc == Waiting && s.skew == 0
    ensures Sound(s)
  {
    hide Inv, Execution, Outstanding, Barrier;
    forall acts, end | Execution(s, acts, end) && Return !in acts
      ensures CanReturn(end) && (Enabled(end, Return) ==> Barrier(end))
    {
      StillWaiting(s, acts, end);
      LatchWaiting(end);
      BarrierExact(end);
      var more, last := RunWorkers(end);
    }
  }

  lemma UnbalancedIsNotSound(s: State)
    requires Inv(s) && s.pc == Waiting && s.skew != 0
    ensures !Sound(s)
  {
    assert Execution(s, [], s);
    hide Inv, Execution, Outstanding, Barrier;
    if s.skew < 0 && s.latch >= 0 {
      var acts, end := RunWorkers(s);
      StillWaiting(s, acts, end);
      LatchWaiting(end);
      BarrierExact(end);
    } else {
      LatchWaiting(s);
      forall acts, end | Execution(s, acts, end) && Return !in acts ensures !Enabled(end, Return) {
        StillWaiting(s, acts, end);
        LatchWaiting(end);
      }
      assert !CanReturn(s);
    }
  }

  lemma {:induction false} ExecutionStep(s: State, acts: seq<Action>, mid: State, a: Action)
    requires Execution(s, acts, mid) && Enabled(mid, a)
    ensures Execution(s, acts + [a], Apply(mid, a))
    decreases |acts|
  {
    hide Enabled, Apply;
    if acts == [] {
      assert ([] + [a])[1..] == [];
    } else {
      ExecutionStep(Apply(s, acts[0]), acts[1..], mid, a);
      assert (acts + [a])[1..] == acts[1..] + [a];
    }
  }

  /** A sink registered in the gap: the trigger may return before the sink has been called. */
  lemma LateSinkIsNotAwaited() returns (s: State)
    ensures var sink := Sink(Arya, 7);
      Execution(Initial({sink}), [Trigger, Register(sink), TakeLock, Dispatch, Release], s)
    ensures Enabled(s, Return) && 0 in s.threads && s.threads[0].queue == [0] && s.threads[0].handled == []
  {
    var sink := Sink(Arya, 7);
    var s0 := Initial({sink});
    var s1 := Apply(s0, Trigger);
    var s2 := Apply(s1, Register(sink));
    var s3 := Apply(s2, TakeLock);
    var s4 := Apply(s3, Dispatch);
    s := Apply(s4, Release);
    var acts := [Trigger];
    ExecutionStep(s0, [], s0, Trigger);
    ExecutionStep(s0, acts, s1, Register(sink));
    ExecutionStep(s0, acts + [Register(sink)], s2, TakeLock);
    ExecutionStep(s0, acts + [Register(sink)] + [TakeLock], s3, Dispatch);
    assert s4.pc == Dispatching(1) && |s4.list| == 1;
    ExecutionStep(s0, acts + [Register(sink)] + [TakeLock] + [Dispatch], s4, Release);
    assert acts + [Register(sink)] + [TakeLock] + [Dispatch] + [Release] == [Trigger, Register(sink), TakeLock, Dispatch, Release];
  }

  /** A sink that is unregistered in the gap: whatever happens then, the trigger never returns. */
  lemma LeavingSinkBlocks() returns (s: State)
    ensures var sink := Sink(Arya, 7);
      Execution(Initial({sink}), [Register(sink), Trigger, Unregister(0), Drained, TakeLock, Release], s)
    ensures s.pc == Waiting && forall acts, end | Execution(s, acts, end) :: end.pc == Waiting && !Enabled(end, Return)
  {
    var sink := Sink(Arya, 7);
    var one := map[0 := Thread(sink, 0, [], false, [])];
    var init := Initial({sink});
    var s0 := State([0], one, 1, {sink}, Idle, Free, 0, 0, 0);
    var s1 := State([0], one, 1, {sink}, Counted, Free, 1, 0, 0);
    var s2 := State([], one, 1, {sink}, Counted, ByUnregister(0, 0), 1, 0, 1);
    var s3 := State([], map[], 1, {sink}, Counted, Free, 1, 0, 1);
    var s4 := State([], map[], 1, {sink}, Dispatching(0), ByTrigger, 1, 0, 1);
    s := State([], map[], 1, {sink}, Waiting, Free, 1, 0, 1);
    FirstRegistration(sink, s0);
    LeavingSteps(sink, s0, s1, s2, s3, s4, s);
    hide Execution, Inv;
    BlockedInv(s);
    forall acts, end | Execution(s, acts, end) ensures end.pc == Waiting && !Enabled(end, Return) {
      BlockedForEver(s, acts, end);
    }
  }

  lemma FirstRegistration(sink: Sink, s0: State)
    requires s0 == State([0], map[0 := Thread(sink, 0, [], false, [])], 1, {sink}, Idle, Free, 0, 0, 0)
    ensures Execution(Initial({sink}), [Register(sink)], s0)
  {
    assert Apply(Initial({sink}), Register(sink)) == s0;
    assert [Register(sink)][1..] == [];
  }

  lemma LeavingSteps(sink: Sink, s0: State, s1: State, s2: State, s3: State, s4: State, s: State)
    requires Execution(Initial({sink}), [Register(sink)], s0)
    requires var one := map[0 := Thread(sink, 0, [], false, [])];
      && s0 == State([0], one, 1, {sink}, Idle, Free, 0, 0, 0) && s1 == State([0], one, 1, {sink}, Counted, Free, 1, 0, 0)
      && s2 == State([], one, 1, {sink}, Counted, ByUnregister(0, 0), 1, 0, 1)
      && s3 == State([], map[], 1, {sink}, Counted, Free, 1, 0, 1)
      && s4 == State([], map[], 1, {sink}, Dispatching(0), ByTrigger, 1, 0, 1)
      && s == State([], map[], 1, {sink}, Waiting, Free, 1, 0, 1)
    ensures Execution(Initial({sink}), [Register(sink), Trigger, Unregister(0), Drained, TakeLock, Release], s)
  {
    hide Execution;
    var init := Initial({sink});
    assert [0][1..] == [] && s2.threads - {0} == map[];
    assert Apply(s0, Trigger) == s1 && Apply(s1, Unregister(0)) == s2 && Apply(s2, Drained) == s3;
    var acts := [Register(sink)] + [Trigger];
    ExecutionStep(init, [Register(sink)], s0, Trigger);
    ExecutionStep(init, acts, s1, Unregister(0));
    ExecutionStep(init, acts + [Unregister(0)], s2, Drained);
    ExecutionStep(init, acts + [Unregister(0)] + [Drained], s3, TakeLock);
    ExecutionStep(init, acts + [Unregister(0)] + [Drained] + [TakeLock], s4, Release);
    assert acts + [Unregister(0)] + [Drained] + [TakeLock] + [Release]
      == [Register(sink), Trigger, Unregister(0), Drained, TakeLock, Release];
  }

  lemma BlockedInv(s: State)
    requires s.list == [] && s.threads == map[] && s.pc == Waiting && s.lock == Free && s.latch == s.skew
    ensures Inv(s)
  {
    assert Outstanding(s) == {};
  }
}
