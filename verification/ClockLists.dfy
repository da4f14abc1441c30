/** The list that the registry's methods change is the list of the state machine. */
module ClockLists {
  import opened ClockSinks
  import opened ClockRegistry

  /** The sinks and workers of the state, as the registry lists them. */
  function Workers(s: State): (r: seq<EventSinkWorker>)
    requires forall id | id in s.list :: id in s.threads
    ensures |r| == |s.list|
  {
    seq(|s.list|, i requires 0 <= i < |s.list| => EventSinkWorker(s.threads[s.list[i]].sink, s.list[i]))
  }

  lemma WorkersAreListed(s: State)
    requires Inv(s)
    ensures forall id | id in s.list :: id in s.threads
    ensures Distinct(Workers(s))
  {
    hide HistoryInv, Outstanding;
  }

  /** A live sink can be registered exactly when the registry accepts it, with the same list afterwards. */
  lemma RegisterIsAction(s: State, sink: Sink)
    requires Inv(s) && s.lock == Free && sink in s.alive
    ensures forall id | id in s.list :: id in s.threads
    ensures Enabled(s, Register(sink)) <==> Find(Workers(s), sink) == |Workers(s)|
    ensures Enabled(s, Register(sink)) ==> var s' := Apply(s, Register(sink));
      (forall id | id in s'.list :: id in s'.threads) && Workers(s') == Workers(s) + [EventSinkWorker(sink, s.nextId)]
  {
    hide HistoryInv, Outstanding, SinkInv;
    var list := Workers(s);
    assert forall i | 0 <= i < |s.list| :: s.list[i] in s.list && list[i].sink == s.threads[s.list[i]].sink;
    assert s.nextId !in s.threads;
    if Find(list, sink) < |list| {
      assert Registered(s, sink);
    } else {
      assert !Registered(s, sink);
    }
  }

  /** Unregistering the worker at a position erases the entry there and keeps the order of the others. */
  lemma UnregisterErases(s: State, i: nat)
    requires Inv(s) && s.lock == Free && i < |s.list| && s.list[i] in s.threads && s.threads[s.list[i]].sink in s.alive
    ensures Enabled(s, Unregister(s.list[i]))
    ensures var s' := Apply(s, Unregister(s.list[i]));
      && s'.list == s.list[..i] + s.list[i + 1..] && s'.threads == s.threads
      && (forall id | id in s'.list :: id in s'.threads)
  {
    hide HistoryInv, Outstanding, SinkInv, Without;
    WithoutAt(s.list, i);
    assert s.list[i] in s.list;
  }

  /** A live sink can be unregistered exactly when it is in the list, and it is its entry that is erased. */
  lemma UnregisterIsAction(s: State, sink: Sink)
    requires Inv(s) && s.lock == Free && sink in s.alive
    ensures forall id | id in s.list :: id in s.threads
    ensures var i := Find(Workers(s), sink);
      (exists id :: id in s.list && s.threads[id].sink == sink) <==> i < |s.list|
    ensures var i := Find(Workers(s), sink);
      i < |s.list| ==> Enabled(s, Unregister(s.list[i]))
    ensures var i := Find(Workers(s), sink);
      i < |s.list| ==> var s' := Apply(s, Unregister(s.list[i]));
        (forall id | id in s'.list :: id in s'.threads) && Workers(s') == Workers(s)[..i] + Workers(s)[i + 1..]
  {
    WorkersAreListed(s);
    FindWorker(s, sink);
    var i := Find(Workers(s), sink);
    if i < |s.list| {
      UnregisterErases(s, i);
      WorkersErased(s, Apply(s, Unregister(s.list[i])), i);
    }
    hide Inv, Enabled, Apply, Find, Workers;
  }

  lemma FindWorker(s: State, sink: Sink)
    requires forall id | id in s.list :: id in s.threads
    ensures var i := Find(Workers(s), sink);
      (exists id :: id in s.list && s.threads[id].sink == sink) <==> i < |s.list|
    ensures var i := Find(Workers(s), sink);
      i < |s.list| ==> s.threads[s.list[i]].sink == sink
  {
    var list := Workers(s);
    var i := Find(list, sink);
    hide Find;
    assert forall k | 0 <= k < |s.list| :: s.list[k] in s.list && list[k].sink == s.threads[s.list[k]].sink;
  }

  lemma WorkersErased(s: State, s': State, i: nat)
    requires i < |s.list| && s'.list == s.list[..i] + s.list[i + 1..] && s'.threads == s.threads
    requires (forall id | id in s.list :: id in s.threads) && forall id | id in s'.list :: id in s'.threads
    ensures Workers(s') == Workers(s)[..i] + Workers(s)[i + 1..]
  {
  }

  lemma {:induction false} WithoutAt(list: seq<nat>, i: nat)
    requires i < |list| && forall j, k | 0 <= j < k < |list| :: list[j] != list[k]
    ensures Without(list, list[i]) == list[..i] + list[i + 1..]
  {
    if i == 0 {
      WithoutNothing(list[1..], list[0]);
      assert [] + Without(list[1..], list[0]) == list[1..];
    } else {
      WithoutAt(list[1..], i - 1);
      assert list[..i] + list[i + 1..] == [list[0]] + (list[1..][..i - 1] + list[1..][i..]);
    }
  }

  lemma {:induction false} WithoutNothing(list: seq<nat>, id: nat)
    requires id !in list
    ensures Without(list, id) == list
  {
    if list != [] {
      WithoutNothing(list[1..], id);
    }
  }
}
