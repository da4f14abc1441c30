/** Runs of the event sink registry: the barrier, the order of events, and the return of the trigger. */
module ClockBarrier {
  import opened ClockRegistry

  /** Nobody registers or unregisters between the reset of the latch and the start of dispatch. */
  predicate Quiet(s: State, a: Action) {
    s.pc == Counted ==> !a.Register? && !a.Unregister?
  }

  ghost predicate Execution(s: State, acts: seq<Action>, end: State)
    decreases |acts|
  {
    if acts == [] then s == end
    else Enabled(s, acts[0]) && Execution(Apply(s, acts[0]), acts[1..], end)
  }

  ghost predicate QuietExecution(s: State, acts: seq<Action>, end: State)
    decreases |acts|
  {
    if acts == [] then s == end
    else Enabled(s, acts[0]) && Quiet(s, acts[0]) && QuietExecution(Apply(s, acts[0]), acts[1..], end)
  }

  /** Sinks may come and leave in the gap, as long as every trigger that returns had as many of one as of the other. */
  ghost predicate BalancedExecution(s: State, acts: seq<Action>, end: State)
    decreases |acts|
  {
    if acts == [] then s == end
    else Enabled(s, acts[0]) && (acts[0] == Return ==> s.skew == 0) && BalancedExecution(Apply(s, acts[0]), acts[1..], end)
  }

  ghost predicate Reachable(s: State) {
    exists alive, acts :: BalancedExecution(Initial(alive), acts, s)
  }

  ghost predicate QuietlyReachable(s: State) {
    exists alive, acts :: QuietExecution(Initial(alive), acts, s)
  }

  /** The invariant over runs, with any steps in the gap of the trigger that is still running. */
  lemma {:induction false} BalancedExecutionKeeps(s: State, acts: seq<Action>, end: State)
    requires Inv(s) && BalancedExecution(s, acts, end)
    ensures Inv(end)
    decreases |acts|
  {
    hide Inv, Enabled;
    if acts != [] {
      StepKeepsInv(s, acts[0]);
      BalancedExecutionKeeps(Apply(s, acts[0]), acts[1..], end);
    }
  }

  lemma {:induction false} QuietIsBalanced(s: State, acts: seq<Action>, end: State)
    requires s.skew == 0 && QuietExecution(s, acts, end)
    ensures BalancedExecution(s, acts, end) && end.skew == 0
    decreases |acts|
  {
    hide Enabled;
    if acts != [] {
      QuietIsBalanced(Apply(s, acts[0]), acts[1..], end);
    }
  }

  lemma ReachableInv(s: State)
    requires Reachable(s)
    ensures Inv(s)
  {
    hide Inv, BalancedExecution;
    var alive, acts :| BalancedExecution(Initial(alive), acts, s);
    InitialInv(alive);
    BalancedExecutionKeeps(Initial(alive), acts, s);
  }

  lemma QuietlyReachableInv(s: State)
    requires QuietlyReachable(s)
    ensures Reachable(s) && Inv(s) && s.skew == 0
  {
    hide Inv, BalancedExecution, QuietExecution;
    var alive, acts :| QuietExecution(Initial(alive), acts, s);
    QuietIsBalanced(Initial(alive), acts, s);
    assert Reachable(s);
    ReachableInv(s);
  }

  lemma {:induction false} RangeMembers(a: nat, b: nat)
    ensures forall e :: e in Range(a, b) <==> a <= e < b
    ensures |Range(a, b)| == if a < b then b - a else 0
    ensures forall i | 0 <= i < |Range(a, b)| :: Range(a, b)[i] == a + i
  {
    if a < b {
      RangeMembers(a, b - 1);
    }
  }

  /** A worker at rest has handled every event since it joined exactly once, and in order. */
  ghost predicate Complete(t: Thread, upto: nat) {
    !Pending(t) && Events(t.handled) == Range(t.joined, upto)
  }

  /** The barrier: a trigger returns only after every worker has handled its event. */
  lemma ReturnIsBarrier(s: State)
    requires QuietlyReachable(s) && Enabled(s, Return)
    ensures forall id | id in s.list :: id in s.threads && Complete(s.threads[id], s.event + 1)
  {
    QuietlyReachableInv(s);
    assert Outstanding(s) == {};
    forall id | id in s.list ensures id in s.threads && Complete(s.threads[id], s.event + 1) {
      assert id !in Outstanding(s) && HistoryInv(s, id);
      var t := s.threads[id];
      assert Events(t.handled) + t.queue == Events(t.handled);
    }
  }

  /** Expired sinks are the only ones that are skipped. */
  lemma LiveSinksAreCalled(s: State, id: nat)
    requires Reachable(s) && id in s.threads && s.threads[id].sink in s.alive
    ensures forall i | 0 <= i < |s.threads[id].handled| :: s.threads[id].handled[i].called
  {
    ReachableInv(s);
  }

  /** A worker that was joined does not come back: no other gets its number. */
  lemma {:induction false} GoneForEver(s: State, acts: seq<Action>, end: State, id: nat)
    requires Execution(s, acts, end) && id < s.nextId && id !in s.threads
    ensures id !in end.threads
    decreases |acts|
  {
    if acts != [] {
      GoneForEver(Apply(s, acts[0]), acts[1..], end, id);
    }
  }

  /** Every entry behind the first n says that the sink was not called. */
  ghost predicate SkippedFrom(handled: seq<Handled>, n: nat) {
    n <= |handled| && forall i | n <= i < |handled| :: !handled[i].called
  }

  /**
   * Once a sink has expired it is skipped: in every run from then on its worker, as long as there
   * is one, keeps what it has handled and adds only events for which the sink is not called.
   */
  lemma {:induction false} ExpiredIsSkipped(s: State, acts: seq<Action>, end: State, id: nat)
    requires Execution(s, acts, end) && id < s.nextId && id in s.threads && s.threads[id].sink !in s.alive
    ensures id in end.threads ==> s.threads[id].handled <= end.threads[id].handled
    ensures id in end.threads ==> SkippedFrom(end.threads[id].handled, |s.threads[id].handled|)
    decreases |acts|
  {
    if acts != [] {
      var s1 := Apply(s, acts[0]);
      if id in s1.threads {
        assert s1.threads[id].sink == s.threads[id].sink && s1.threads[id].sink !in s1.alive;
        assert SkippedFrom(s1.threads[id].handled, |s.threads[id].handled|);
        ExpiredIsSkipped(s1, acts[1..], end, id);
      } else {
        GoneForEver(s1, acts[1..], end, id);
      }
    }
  }

  /** When some worker has begun an event, every worker has finished all earlier ones meant for it. */
  lemma NoOvertaking(s: State, a: nat, b: nat, e: nat)
    requires Reachable(s) && a in s.list && b in s.list && a in s.threads && b in s.threads
    requires e in Events(s.threads[a].handled)
    ensures forall f | s.threads[b].joined <= f < e :: f in Events(s.threads[b].handled)
    ensures s.threads[b].busy ==> var h := s.threads[b].handled; h != [] && h[|h| - 1].event >= e
  {
    ReachableInv(s);
    assert HistoryInv(s, a) && HistoryInv(s, b);
    var ta, tb := s.threads[a], s.threads[b];
    RangeMembers(ta.joined, Upto(s, a));
    RangeMembers(tb.joined, Upto(s, b));
    assert e in Events(ta.handled) + ta.queue;
    assert e <= s.event && s.event <= Upto(s, b);
    QueuedIsLast(s, b);
    if tb.busy {
      assert tb.queue == [] && Events(tb.handled) + [] == Events(tb.handled);
      LastEvent(tb.handled);
    }
  }

  lemma LastEvent(h: seq<Handled>)
    requires Events(h) != []
    ensures h != [] && Events(h)[|Events(h)| - 1] == h[|h| - 1].event
  {
  }

  /** Only the event of the running trigger can be waiting in a queue. */
  lemma QueuedIsLast(s: State, id: nat)
    requires Inv(s) && id in s.threads
    ensures forall f | s.threads[id].joined <= f < s.event && f < Upto(s, id) :: f in Events(s.threads[id].handled)
  {
    assert HistoryInv(s, id);
    var t := s.threads[id];
    RangeMembers(t.joined, Upto(s, id));
    forall f | t.joined <= f < s.event && f < Upto(s, id) ensures f in Events(t.handled) {
      var all := Events(t.handled) + t.queue;
      assert all[f - t.joined] == f;
      if t.queue != [] {
        assert f - t.joined < |all| - 1;
      }
    }
  }

  /** What a worker has handled so far is the events from its joining on, without a gap. */
  lemma HandledInOrder(s: State, id: nat)
    requires Inv(s) && id in s.threads
    ensures var t := s.threads[id]; var n := |Events(t.handled)|;
      n + |t.queue| == Upto(s, id) - t.joined && forall i | 0 <= i < n :: Events(t.handled)[i] == t.joined + i
  {
    assert HistoryInv(s, id);
    var t := s.threads[id];
    RangeMembers(t.joined, Upto(s, id));
    hide HistoryInv, Inv, Events, Range;
    assert forall i | 0 <= i < |Events(t.handled)| :: Events(t.handled)[i] == (Events(t.handled) + t.queue)[i];
  }

  /** The events behind the first d. */
  function From(events: seq<nat>, d: nat): seq<nat> {
    if d <= |events| then events[d..] else []
  }

  /**
   * Two sinks see the same events in the same order since both were there: at any time the
   * shorter history is a prefix of the longer one, and between triggers they are equal.
   */
  lemma SameOrder(s: State, a: nat, b: nat)
    requires Reachable(s) && a in s.list && b in s.list && a in s.threads && b in s.threads
    requires s.threads[a].joined <= s.threads[b].joined
    ensures var d := s.threads[b].joined - s.threads[a].joined;
      var early, late := From(Events(s.threads[a].handled), d), Events(s.threads[b].handled);
      (early <= late || late <= early) && (s.pc == Idle ==> early == late)
  {
    ReachableInv(s);
    HandledInOrder(s, a);
    HandledInOrder(s, b);
    if s.pc == Idle {
      NothingQueuedWhenIdle(s, a);
      NothingQueuedWhenIdle(s, b);
    }
    hide Inv, Events, Reachable;
  }

  lemma NothingQueuedWhenIdle(s: State, id: nat)
    requires Inv(s) && s.pc == Idle && id in s.list
    ensures id in s.threads && s.threads[id].queue == [] && Upto(s, id) == s.event && s.threads[id].joined <= s.event
  {
    assert HistoryInv(s, id);
  }

  // The trigger always returns.

  function Queued(s: State): set<nat> {
    set id | id in s.threads && s.threads[id].queue != []
  }

  function Busy(s: State): set<nat> {
    set id | id in s.threads && s.threads[id].busy
  }

  /** The number of steps the trigger and the workers can still take before the trigger returns. */
  function Measure(s: State): int {
    (match s.pc
     case Idle => 0
     case Counted => 3 * |s.list| + 3
     case Dispatching(i) => 3 * (|s.list| - i) + 2
     case Waiting => 1)
    + 2 * |Queued(s)| + |Busy(s)| + if s.lock.ByUnregister? then 1 else 0
  }

  /** How many workers have a queued closure, and how many are running one. */
  ghost predicate Moves(s: State, s': State, queued: int, busy: int) {
    |Queued(s')| == |Queued(s)| + queued && |Busy(s')| == |Busy(s)| + busy
  }

  function Bit(b: bool): int {
    if b then 1 else 0
  }

  lemma SetChanges(a: set<nat>, b: set<nat>, id: nat, now: bool)
    requires forall x | x != id :: x in a <==> x in b
    requires id in b <==> now
    ensures |b| == |a| - Bit(id in a) + Bit(now)
  {
    assert b - {id} == a - {id};
    assert |b - {id}| == |b| - Bit(id in b);
    assert |a - {id}| == |a| - Bit(id in a);
  }

  /** One worker changes: it counts among the queued and the busy ones as it is now. */
  lemma OneChanges(s: State, s': State, id: nat, t: Thread)
    requires id in s.threads && s'.threads == s.threads[id := t]
    ensures Moves(s, s', Bit(t.queue != []) - Bit(s.threads[id].queue != []), Bit(t.busy) - Bit(s.threads[id].busy))
  {
    SetChanges(Queued(s), Queued(s'), id, t.queue != []);
    SetChanges(Busy(s), Busy(s'), id, t.busy);
  }

  lemma DispatchQueues(s: State)
    requires Inv(s) && Enabled(s, Dispatch)
    ensures Moves(s, Apply(s, Dispatch), 1, 0)
  {
    NextIsAtRest(s);
    hide Inv, Moves;
    var id := s.list[s.pc.next];
    var s' := Apply(s, Dispatch);
    OneChanges(s, s', id, s'.threads[id]);
  }

  lemma BeginMoves(s: State, id: nat)
    requires Inv(s) && Enabled(s, Begin(id))
    ensures Moves(s, Apply(s, Begin(id)), -1, 1)
  {
    assert |s.threads[id].queue| == 1 by {
      assert HistoryInv(s, id);
    }
    hide Inv, Moves;
    var s' := Apply(s, Begin(id));
    OneChanges(s, s', id, s'.threads[id]);
  }

  lemma FinishFrees(s: State, id: nat)
    requires Enabled(s, Finish(id))
    ensures Moves(s, Apply(s, Finish(id)), 0, -1)
  {
    hide Moves;
    var s' := Apply(s, Finish(id));
    OneChanges(s, s', id, s'.threads[id]);
  }

  lemma OtherStepsMoveNothing(s: State, a: Action)
    requires Enabled(s, a) && (a.TakeLock? || a.Release? || a.Return? || a.Drained?)
    ensures Moves(s, Apply(s, a), 0, 0)
  {
    assert Queued(Apply(s, a)) == Queued(s) && Busy(Apply(s, a)) == Busy(s);
  }

  lemma SystemStepDecreases(s: State, a: Action)
    requires Inv(s) && a.System() && Enabled(s, a)
    ensures Measure(Apply(s, a)) == Measure(s) - 1
  {
    assert s.lock.ByTrigger? <==> s.pc.Dispatching?;
    hide Inv, Queued, Busy;
    match a
    case Dispatch => DispatchQueues(s);
    case Begin(id) => BeginMoves(s, id);
    case Finish(id) => FinishFrees(s, id);
    case _ => OtherStepsMoveNothing(s, a);
  }

  /** The protocol cannot get stuck: while a trigger is running, it or some worker can take a step. */
  lemma Progress(s: State) returns (a: Action)
    requires Inv(s) && s.skew == 0 && s.pc != Idle
    ensures a.System() && Enabled(s, a)
  {
    if id :| id in s.threads && Pending(s.threads[id]) {
      a := if s.threads[id].busy then Finish(id) else Begin(id);
    } else {
      assert Outstanding(s) == {};
      match s.pc
      case Counted => a := if s.lock == Free then TakeLock else Drained;
      case Dispatching(i) => a := if i < |s.list| then Dispatch else Release;
      case Waiting => a := Return;
      case Idle =>
    }
  }

  /** The steps of a running trigger: its own, those of the workers, and those of callers outside the gap. */
  ghost predicate Ongoing(s: State, acts: seq<Action>, end: State)
    decreases |acts|
  {
    if acts == [] then s == end
    else s.pc != Idle && Enabled(s, acts[0]) && Quiet(s, acts[0]) && Ongoing(Apply(s, acts[0]), acts[1..], end)
  }

  function SystemSteps(acts: seq<Action>): nat {
    if acts == [] then 0 else (if acts[0].System() then 1 else 0) + SystemSteps(acts[1..])
  }

  function Unregistrations(acts: seq<Action>): nat {
    if acts == [] then 0 else (if acts[0].Unregister? then 1 else 0) + Unregistrations(acts[1..])
  }

  /**
   * However the scheduler picks the steps, and whoever registers, unregisters or expires
   * meanwhile: the trigger and the workers take at most Measure(s) steps and one more for each
   * sink that is unregistered, whose worker drains its queue first; and until the trigger has
   * returned there is such a step to pick.
   */
  lemma {:induction false} TriggerReturns(s: State, acts: seq<Action>, end: State)
    requires Inv(s) && s.skew == 0 && Ongoing(s, acts, end)
    ensures Inv(end) && end.skew == 0
    ensures Measure(end) == Measure(s) + Unregistrations(acts) - SystemSteps(acts)
    ensures SystemSteps(acts) <= Measure(s) + Unregistrations(acts)
    ensures end.pc == Idle || exists a: Action :: a.System() && Enabled(end, a)
    decreases |acts|
  {
    hide Inv, Measure, Enabled;
    if acts == [] {
      MeasureBound(s);
      if s.pc != Idle {
        var a := Progress(s);
      }
    } else {
      StepKeepsInv(s, acts[0]);
      SkewStays(s, acts[0]);
      if acts[0].System() {
        SystemStepDecreases(s, acts[0]);
      } else {
        OutsideStepMeasure(s, acts[0]);
      }
      TriggerReturns(Apply(s, acts[0]), acts[1..], end);
    }
  }

  lemma MeasureBound(s: State)
    requires Inv(s)
    ensures Measure(s) >= 0
  {
  }

  lemma SkewStays(s: State, a: Action)
    requires Enabled(s, a) && Quiet(s, a) && s.pc != Idle
    ensures Apply(s, a).skew == s.skew
  {
  }

  /** Only unregistering leaves one more step to the workers: the end of the removed one. */
  lemma OutsideStepMeasure(s: State, a: Action)
    requires Inv(s) && Enabled(s, a) && Quiet(s, a) && !a.System() && s.pc != Idle
    ensures Measure(Apply(s, a)) == Measure(s) + if a.Unregister? then 1 else 0
  {
    var s' := Apply(s, a);
    assert s.pc.Dispatching? ==> s.lock == ByTrigger;
    assert s.nextId !in s.threads;
    hide Inv;
    assert Queued(s') == Queued(s) && Busy(s') == Busy(s);
    assert s.pc == Counted ==> s'.list == s.list;
  }
}
