/**
 * The distribution of clock events: one trigger, one worker thread for each sink, a latch
 * that counts the closures not yet finished, and a mutex around the list of workers.
 * Every atomic step of every thread is an action; runs are arbitrary interleavings.
 */
module ClockRegistry {
  import opened ClockSinks

  /** One closure run to its end: the event, and whether the sink was still there to be called. */
  datatype Handled = Handled(event: nat, called: bool)

  /** A worker thread: its sink, the first event meant for it, its queue, and what it has handled. */
  datatype Thread = Thread(sink: Sink, joined: nat, queue: seq<nat>, busy: bool, handled: seq<Handled>)

  /** The trigger: not running, latch reset but lock not taken, dispatching to list[next], or at the latch. */
  datatype Pc = Idle | Counted | Dispatching(next: nat) | Waiting

  /** Who holds the mutex; unregistering holds it until the removed worker has drained its queue. */
  datatype Lock = Free | ByTrigger | ByUnregister(id: nat, left: nat)

  /**
   * event is the number of triggers that have returned; skew counts the sinks that left minus
   * those that came between the reset of the latch and the start of dispatch.
   */
  datatype State = State(
    list: seq<nat>, threads: map<nat, Thread>, nextId: nat, alive: set<Sink>,
    pc: Pc, lock: Lock, latch: int, event: nat, skew: int)

  datatype Action =
    | Trigger | TakeLock | Dispatch | Release | Return
    | Begin(id: nat) | Finish(id: nat) | Drained
    | Register(sink: Sink) | Unregister(id: nat) | Expire(sink: Sink)
  {
    /** The steps of the trigger and of the workers, as opposed to those of the callers outside. */
    predicate System() {
      TakeLock? || Dispatch? || Release? || Return? || Begin? || Finish? || Drained?
    }
  }

  /** No sink registered, the latch at zero; alive are the sinks there are. */
  function Initial(alive: set<Sink>): State {
    State([], map[], 0, alive, Idle, Free, 0, 0, 0)
  }

  predicate Registered(s: State, sink: Sink) {
    exists i | 0 <= i < |s.list| :: s.list[i] in s.threads && s.threads[s.list[i]].sink == sink
  }

  predicate Enabled(s: State, a: Action) {
    match a
    case Trigger => s.pc == Idle
    case TakeLock => s.pc == Counted && s.lock == Free
    case Dispatch => s.pc.Dispatching? && s.pc.next < |s.list| && s.list[s.pc.next] in s.threads
    case Release => s.pc == Dispatching(|s.list|)
    case Return => s.pc == Waiting && s.latch == 0
    case Begin(id) => id in s.threads && s.threads[id].queue != [] && !s.threads[id].busy
    case Finish(id) => id in s.threads && s.threads[id].busy
    case Drained => s.lock.ByUnregister? && s.lock.id in s.threads && !Pending(s.threads[s.lock.id])
    case Register(sink) => s.lock == Free && sink in s.alive && !Registered(s, sink)
    case Unregister(id) => s.lock == Free && id in s.list && id in s.threads && s.threads[id].sink in s.alive
    case Expire(sink) => true
  }

  predicate Pending(t: Thread) {
    t.queue != [] || t.busy
  }

  function Without(list: seq<nat>, id: nat): (r: seq<nat>) {
    if list == [] then [] else (if list[0] == id then [] else [list[0]]) + Without(list[1..], id)
  }

  /** The first event a worker will get when it is registered now. */
  function FirstEvent(s: State): nat {
    if s.pc == Waiting then s.event + 1 else s.event
  }

  /** One past the last event dispatched to a worker so far. */
  function Upto(s: State, id: nat): nat {
    if s.lock.ByUnregister? && s.lock.id == id then s.lock.left
    else match s.pc
      case Idle => s.event
      case Counted => s.event
      case Dispatching(i) => if i <= |s.list| && id in s.list[..i] then s.event + 1 else s.event
      case Waiting => s.event + 1
  }

  function Apply(s: State, a: Action): State
    requires Enabled(s, a)
  {
    match a
    case Trigger => s.(pc := Counted, latch := |s.list|, skew := 0)
    case TakeLock => s.(pc := Dispatching(0), lock := ByTrigger)
    case Dispatch =>
      var id := s.list[s.pc.next];
      var t := s.threads[id];
      s.(threads := s.threads[id := t.(queue := t.queue + [s.event])], pc := Dispatching(s.pc.next + 1))
    case Release => s.(pc := Waiting, lock := Free)
    case Return => s.(pc := Idle, event := s.event + 1)
    case Begin(id) =>
      var t := s.threads[id];
      s.(threads := s.threads[id := t.(queue := t.queue[1..], busy := true,
        handled := t.handled + [Handled(t.queue[0], t.sink in s.alive)])])
    case Finish(id) => s.(threads := s.threads[id := s.threads[id].(busy := false)], latch := s.latch - 1)
    case Drained => s.(threads := s.threads - {s.lock.id}, lock := Free)
    case Register(sink) =>
      s.(list := s.list + [s.nextId], nextId := s.nextId + 1,
         threads := s.threads[s.nextId := Thread(sink, FirstEvent(s), [], false, [])],
         skew := if s.pc == Counted then s.skew - 1 else s.skew)
    case Unregister(id) =>
      s.(list := Without(s.list, id), lock := ByUnregister(id, Upto(s, id)),
         skew := if s.pc == Counted then s.skew + 1 else s.skew)
    case Expire(sink) => s.(alive := s.alive - {sink})
  }

  // What every reachable state keeps.

  function Range(a: nat, b: nat): seq<nat> {
    if a >= b then [] else Range(a, b - 1) + [b - 1]
  }

  function Events(h: seq<Handled>): seq<nat> {
    if h == [] then [] else Events(h[..|h| - 1]) + [h[|h| - 1].event]
  }

  function Outstanding(s: State): set<nat> {
    set id | id in s.threads && Pending(s.threads[id])
  }

  function Undispatched(s: State): int {
    match s.pc
    case Idle => 0
    case Counted => |s.list|
    case Dispatching(i) => |s.list| - i
    case Waiting => 0
  }

  ghost predicate ListInv(s: State) {
    && (forall i, j | 0 <= i < j < |s.list| :: s.list[i] != s.list[j])
    && (forall id | id in s.list :: id in s.threads)
    && (forall id | id in s.threads :: id < s.nextId && (id in s.list || (s.lock.ByUnregister? && id == s.lock.id)))
    && (s.lock.ByUnregister? ==> s.lock.id !in s.list && s.lock.id in s.threads)
    && (s.lock == ByTrigger <==> s.pc.Dispatching?)
    && (s.pc.Dispatching? ==> s.pc.next <= |s.list|)
  }

  ghost predicate SinkInv(s: State) {
    && (forall a, b | a in s.list && b in s.list && a != b && a in s.threads && b in s.threads ::
      s.threads[a].sink != s.threads[b].sink)
    && (forall id | id in s.threads && s.threads[id].sink in s.alive ::
      forall i | 0 <= i < |s.threads[id].handled| :: s.threads[id].handled[i].called)
  }

  /** A worker has handled, or holds in its queue, exactly the events dispatched to it, in order. */
  ghost predicate HistoryInv(s: State, id: nat)
    requires id in s.threads
  {
    var t := s.threads[id];
    && Events(t.handled) + t.queue == Range(t.joined, Upto(s, id))
    && t.joined <= Upto(s, id)
    && (Pending(t) ==> (s.pc.Dispatching? || s.pc == Waiting) && Upto(s, id) == s.event + 1 && t.joined <= s.event)
    && !(t.queue != [] && t.busy) && |t.queue| <= 1
  }

  ghost predicate Inv(s: State) {
    && ListInv(s)
    && SinkInv(s)
    && (forall id | id in s.threads :: HistoryInv(s, id))
    && (s.pc == Idle ==> s.latch == 0 && s.skew == 0)
    && s.latch == |Outstanding(s)| + Undispatched(s) + s.skew
  }

  lemma InitialInv(alive: set<Sink>)
    ensures Inv(Initial(alive))
  {
    assert Outstanding(Initial(alive)) == {};
  }

  lemma {:induction false} WithoutId(list: seq<nat>, id: nat)
    requires forall i, j | 0 <= i < j < |list| :: list[i] != list[j]
    ensures var r := Without(list, id);
      && (forall i, j | 0 <= i < j < |r| :: r[i] != r[j])
      && (forall x :: x in r <==> x in list && x != id)
      && |r| == |list| - if id in list then 1 else 0
  {
    if list != [] {
      WithoutId(list[1..], id);
      var tail := Without(list[1..], id);
      assert list[0] !in list[1..];
      assert forall x :: x in list <==> x == list[0] || x in list[1..];
    }
  }

  lemma EventsAppend(h: seq<Handled>, x: Handled)
    ensures Events(h + [x]) == Events(h) + [x.event]
  {
    assert (h + [x])[..|h|] == h;
  }

  lemma TriggerKeepsInv(s: State)
    requires Inv(s) && s.pc == Idle
    ensures Inv(Apply(s, Trigger))
  {
    assert Outstanding(Apply(s, Trigger)) == Outstanding(s);
  }

  lemma TakeLockKeepsInv(s: State)
    requires Inv(s) && Enabled(s, TakeLock)
    ensures Inv(Apply(s, TakeLock))
  {
    assert Outstanding(Apply(s, TakeLock)) == Outstanding(s);
  }

  /** The worker that is next has handled all earlier events. */
  lemma NextIsAtRest(s: State)
    requires Inv(s) && Enabled(s, Dispatch)
    ensures !Pending(s.threads[s.list[s.pc.next]])
  {
    hide SinkInv, Outstanding, Events, Range;
    var id := s.list[s.pc.next];
    assert id !in s.list[..s.pc.next];
    assert HistoryInv(s, id);
  }

  lemma NextUpto(s: State)
    requires Inv(s) && Enabled(s, Dispatch)
    ensures var x := s.list[s.pc.next];
      Upto(s, x) == s.event && Upto(Apply(s, Dispatch), x) == s.event + 1
  {
    hide SinkInv, HistoryInv, Outstanding;
    var i := s.pc.next;
    assert s.list[..i + 1] == s.list[..i] + [s.list[i]] && s.list[i] !in s.list[..i];
  }

  /** An event is put behind all that the next worker has handled. */
  lemma DispatchToNext(s: State)
    requires Inv(s) && Enabled(s, Dispatch)
    ensures HistoryInv(Apply(s, Dispatch), s.list[s.pc.next])
  {
    hide Inv, Upto, Events;
    var x := s.list[s.pc.next];
    HistoryOf(s, x);
    NextIsAtRest(s);
    NextUpto(s);
    assert Events(s.threads[x].handled) + [] == Events(s.threads[x].handled);
    assert Range(s.threads[x].joined, s.event + 1) == Range(s.threads[x].joined, s.event) + [s.event];
  }

  lemma DispatchToOthers(s: State, x: nat)
    requires Inv(s) && Enabled(s, Dispatch) && x in s.threads && x != s.list[s.pc.next]
    ensures HistoryInv(Apply(s, Dispatch), x)
  {
    hide SinkInv, Outstanding, Events, Range;
    var s' := Apply(s, Dispatch);
    var i := s.pc.next;
    assert s.list[..i + 1] == s.list[..i] + [s.list[i]];
    assert HistoryInv(s, x);
    assert Upto(s', x) == Upto(s, x);
  }

  lemma DispatchAdds(s: State)
    requires Inv(s) && Enabled(s, Dispatch)
    ensures var id := s.list[s.pc.next];
      id !in Outstanding(s) && Outstanding(Apply(s, Dispatch)) == Outstanding(s) + {id}
  {
    NextIsAtRest(s);
    hide Inv;
  }

  lemma DispatchKeepsLists(s: State)
    requires Inv(s) && Enabled(s, Dispatch)
    ensures ListInv(Apply(s, Dispatch)) && SinkInv(Apply(s, Dispatch))
  {
    hide HistoryInv, Outstanding;
  }

  lemma DispatchKeepsInv(s: State)
    requires Inv(s) && Enabled(s, Dispatch)
    ensures Inv(Apply(s, Dispatch))
  {
    hide ListInv, SinkInv, HistoryInv, Outstanding;
    DispatchAdds(s);
    DispatchKeepsLists(s);
    forall x | x in s.threads ensures HistoryInv(Apply(s, Dispatch), x) {
      if x == s.list[s.pc.next] {
        DispatchToNext(s);
      } else {
        DispatchToOthers(s, x);
      }
    }
  }

  lemma ReleaseKeepsInv(s: State)
    requires Inv(s) && Enabled(s, Release)
    ensures Inv(Apply(s, Release))
  {
    var s' := Apply(s, Release);
    assert s.list[..|s.list|] == s.list;
    assert Outstanding(s') == Outstanding(s);
    forall x | x in s'.threads ensures HistoryInv(s', x) {
      assert HistoryInv(s, x);
      assert Upto(s', x) == Upto(s, x);
    }
  }

  lemma ReturnKeepsInv(s: State)
    requires Inv(s) && Enabled(s, Return) && s.skew == 0
    ensures Inv(Apply(s, Return))
  {
    var s' := Apply(s, Return);
    assert Outstanding(s') == Outstanding(s) == {};
    forall x | x in s'.threads ensures HistoryInv(s', x) {
      assert HistoryInv(s, x);
      assert x !in Outstanding(s);
      assert Upto(s', x) == Upto(s, x);
    }
  }

  lemma HistoryOf(s: State, x: nat)
    requires Inv(s) && x in s.threads
    ensures HistoryInv(s, x)
  {
  }

  lemma BeginKeepsHistory(s: State, id: nat, x: nat)
    requires Inv(s) && Enabled(s, Begin(id)) && x in s.threads
    ensures HistoryInv(Apply(s, Begin(id)), x)
  {
    hide Inv, Range, Events;
    HistoryOf(s, x);
    assert Upto(Apply(s, Begin(id)), x) == Upto(s, x);
    hide Upto;
    if x == id {
      BeginMovesEvent(s.threads[id], s.threads[id].sink in s.alive);
    }
  }

  /** The event in the queue becomes the last one handled. */
  lemma BeginMovesEvent(t: Thread, called: bool)
    requires |t.queue| == 1
    ensures Events(t.handled + [Handled(t.queue[0], called)]) + t.queue[1..] == Events(t.handled) + t.queue
  {
    EventsAppend(t.handled, Handled(t.queue[0], called));
  }

  lemma BeginKeepsLists(s: State, id: nat)
    requires Inv(s) && Enabled(s, Begin(id))
    ensures ListInv(Apply(s, Begin(id)))
    ensures Outstanding(Apply(s, Begin(id))) == Outstanding(s)
  {
    hide HistoryInv, SinkInv;
  }

  lemma BeginKeepsSinks(s: State, id: nat)
    requires Inv(s) && Enabled(s, Begin(id))
    ensures SinkInv(Apply(s, Begin(id)))
  {
    hide HistoryInv, Outstanding, ListInv;
  }

  lemma BeginKeepsInv(s: State, id: nat)
    requires Inv(s) && Enabled(s, Begin(id))
    ensures Inv(Apply(s, Begin(id)))
  {
    hide ListInv, SinkInv, HistoryInv, Outstanding;
    BeginKeepsLists(s, id);
    BeginKeepsSinks(s, id);
    forall x | x in s.threads ensures HistoryInv(Apply(s, Begin(id)), x) {
      BeginKeepsHistory(s, id, x);
    }
  }

  lemma FinishKeepsHistory(s: State, id: nat, x: nat)
    requires Inv(s) && Enabled(s, Finish(id)) && x in s.threads
    ensures HistoryInv(Apply(s, Finish(id)), x)
  {
    hide SinkInv, ListInv, Outstanding, Events, Range;
    assert HistoryInv(s, x);
  }

  lemma FinishRemoves(s: State, id: nat)
    requires Inv(s) && Enabled(s, Finish(id))
    ensures id in Outstanding(s) && Outstanding(Apply(s, Finish(id))) == Outstanding(s) - {id}
  {
    assert s.threads[id].queue == [] by {
      assert HistoryInv(s, id);
    }
    hide Inv;
  }

  lemma FinishKeepsLists(s: State, id: nat)
    requires Inv(s) && Enabled(s, Finish(id))
    ensures ListInv(Apply(s, Finish(id)))
  {
    hide HistoryInv, Outstanding, SinkInv;
  }

  lemma FinishKeepsSinks(s: State, id: nat)
    requires Inv(s) && Enabled(s, Finish(id))
    ensures SinkInv(Apply(s, Finish(id)))
  {
    hide HistoryInv, Outstanding, ListInv;
  }

  lemma FinishKeepsInv(s: State, id: nat)
    requires Inv(s) && Enabled(s, Finish(id))
    ensures Inv(Apply(s, Finish(id)))
  {
    hide ListInv, SinkInv, HistoryInv, Outstanding;
    FinishRemoves(s, id);
    FinishKeepsLists(s, id);
    FinishKeepsSinks(s, id);
    FinishIsNotIdle(s, id);
    forall x | x in s.threads ensures HistoryInv(Apply(s, Finish(id)), x) {
      FinishKeepsHistory(s, id, x);
    }
  }

  lemma FinishIsNotIdle(s: State, id: nat)
    requires Inv(s) && Enabled(s, Finish(id))
    ensures s.pc.Dispatching? || s.pc == Waiting
  {
    assert HistoryInv(s, id);
  }

  lemma DrainedKeepsLists(s: State)
    requires Inv(s) && Enabled(s, Drained)
    ensures ListInv(Apply(s, Drained)) && SinkInv(Apply(s, Drained)) && Outstanding(Apply(s, Drained)) == Outstanding(s)
  {
    hide HistoryInv;
  }

  lemma DrainedKeepsHistory(s: State, x: nat)
    requires Inv(s) && Enabled(s, Drained) && x in s.threads && x != s.lock.id
    ensures HistoryInv(Apply(s, Drained), x)
  {
    hide SinkInv, ListInv, Outstanding, Events, Range;
    assert HistoryInv(s, x);
    assert Upto(Apply(s, Drained), x) == Upto(s, x);
  }

  lemma DrainedKeepsInv(s: State)
    requires Inv(s) && Enabled(s, Drained)
    ensures Inv(Apply(s, Drained))
  {
    hide ListInv, SinkInv, HistoryInv, Outstanding;
    DrainedKeepsLists(s);
    forall x | x in Apply(s, Drained).threads ensures HistoryInv(Apply(s, Drained), x) {
      DrainedKeepsHistory(s, x);
    }
  }

  lemma FreeIsNotDispatching(s: State)
    requires Inv(s) && s.lock == Free
    ensures !s.pc.Dispatching?
  {
  }

  lemma RegisterKeepsLists(s: State, sink: Sink)
    requires Inv(s) && Enabled(s, Register(sink))
    ensures ListInv(Apply(s, Register(sink))) && Outstanding(Apply(s, Register(sink))) == Outstanding(s)
  {
    hide SinkInv, HistoryInv;
    assert s.nextId !in s.threads && s.nextId !in s.list;
  }

  lemma RegisterKeepsSinks(s: State, sink: Sink)
    requires Inv(s) && Enabled(s, Register(sink))
    ensures SinkInv(Apply(s, Register(sink)))
  {
    hide HistoryInv, Outstanding;
    assert s.nextId !in s.threads && s.nextId !in s.list;
    forall a | a in s.list ensures s.threads[a].sink != sink {
      var i :| 0 <= i < |s.list| && s.list[i] == a;
    }
  }

  lemma RegisterKeepsHistory(s: State, sink: Sink, x: nat)
    requires Inv(s) && Enabled(s, Register(sink)) && x in Apply(s, Register(sink)).threads
    ensures HistoryInv(Apply(s, Register(sink)), x)
  {
    hide SinkInv, Outstanding;
    var s' := Apply(s, Register(sink));
    if x != s.nextId {
      assert HistoryInv(s, x);
      assert Upto(s', x) == Upto(s, x);
    } else {
      assert Events([]) + [] == [];
    }
  }

  lemma RegisterKeepsInv(s: State, sink: Sink)
    requires Inv(s) && Enabled(s, Register(sink))
    ensures Inv(Apply(s, Register(sink)))
  {
    hide ListInv, SinkInv, HistoryInv, Outstanding;
    FreeIsNotDispatching(s);
    RegisterKeepsLists(s, sink);
    RegisterKeepsSinks(s, sink);
    var s' := Apply(s, Register(sink));
    forall x | x in s'.threads ensures HistoryInv(s', x) {
      RegisterKeepsHistory(s, sink, x);
    }
  }

  lemma UnregisterKeepsLists(s: State, id: nat)
    requires Inv(s) && Enabled(s, Unregister(id))
    ensures ListInv(Apply(s, Unregister(id))) && Outstanding(Apply(s, Unregister(id))) == Outstanding(s)
    ensures |Apply(s, Unregister(id)).list| == |s.list| - 1
  {
    hide SinkInv, HistoryInv, Without;
    WithoutId(s.list, id);
  }

  lemma UnregisterKeepsSinks(s: State, id: nat)
    requires Inv(s) && Enabled(s, Unregister(id))
    ensures SinkInv(Apply(s, Unregister(id)))
  {
    hide HistoryInv, Outstanding, Without;
    WithoutId(s.list, id);
  }

  lemma UnregisterKeepsHistory(s: State, id: nat, x: nat)
    requires Inv(s) && Enabled(s, Unregister(id)) && x in s.threads
    ensures HistoryInv(Apply(s, Unregister(id)), x)
  {
    hide SinkInv, Outstanding, Without, Events, Range;
    var s' := Apply(s, Unregister(id));
    WithoutId(s.list, id);
    assert HistoryInv(s, x);
    assert Upto(s', x) == Upto(s, x);
  }

  lemma UnregisterKeepsInv(s: State, id: nat)
    requires Inv(s) && Enabled(s, Unregister(id))
    ensures Inv(Apply(s, Unregister(id)))
  {
    hide ListInv, SinkInv, HistoryInv, Outstanding, Without;
    FreeIsNotDispatching(s);
    UnregisterKeepsLists(s, id);
    UnregisterKeepsSinks(s, id);
    forall x | x in s.threads ensures HistoryInv(Apply(s, Unregister(id)), x) {
      UnregisterKeepsHistory(s, id, x);
    }
  }

  lemma ExpireKeepsInv(s: State, sink: Sink)
    requires Inv(s)
    ensures Inv(Apply(s, Expire(sink)))
  {
    var s' := Apply(s, Expire(sink));
    assert Outstanding(s') == Outstanding(s);
    forall x | x in s'.threads ensures HistoryInv(s', x) {
      assert HistoryInv(s, x);
      assert Upto(s', x) == Upto(s, x);
    }
  }

  /** Every step keeps the invariant, unless a trigger returns whose latch was miscounted. */
  lemma StepKeepsInv(s: State, a: Action)
    requires Inv(s) && Enabled(s, a) && (a == Return ==> s.skew == 0)
    ensures Inv(Apply(s, a))
  {
    match a
    case Trigger => TriggerKeepsInv(s);
    case TakeLock => TakeLockKeepsInv(s);
    case Dispatch => DispatchKeepsInv(s);
    case Release => ReleaseKeepsInv(s);
    case Return => ReturnKeepsInv(s);
    case Begin(id) => BeginKeepsInv(s, id);
    case Finish(id) => FinishKeepsInv(s, id);
    case Drained => DrainedKeepsInv(s);
    case Register(sink) => RegisterKeepsInv(s, sink);
    case Unregister(id) => UnregisterKeepsInv(s, id);
    case Expire(sink) => ExpireKeepsInv(s, sink);
  }
}
