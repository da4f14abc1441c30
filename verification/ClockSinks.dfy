/** The list of event sinks and their workers, changed in place under the registry's mutex. */
module ClockSinks {

  /** The two namespaces of the sink interface; sinks are compared within one. */
  datatype Kind = Arya | Experimental

  datatype Sink = Sink(kind: Kind, id: nat)

  datatype EventSinkWorker = EventSinkWorker(sink: Sink, worker: nat)

  datatype Outcome = Ok | InvalidArg | Failed

  /** Where the sink is in the list, or the length of the list. */
  function Find(list: seq<EventSinkWorker>, sink: Sink): (i: nat)
    ensures i <= |list|
    ensures i < |list| ==> list[i].sink == sink
    ensures forall k | 0 <= k < i :: list[k].sink != sink
  {
    if list == [] || list[0].sink == sink then 0 else 1 + Find(list[1..], sink)
  }

  ghost predicate Distinct(list: seq<EventSinkWorker>) {
    forall i, j | 0 <= i < j < |list| :: list[i].sink != list[j].sink && list[i].worker != list[j].worker
  }

  class SinkRegistry {
    var eventSinkWorkers: seq<EventSinkWorker>
    var nextWorker: nat

    /** One worker for each sink, and no thread shared. */
    ghost predicate Valid()
      reads this
    {
      Distinct(eventSinkWorkers)
      && forall i | 0 <= i < |eventSinkWorkers| :: eventSinkWorkers[i].worker < nextWorker
    }

    constructor ()
      ensures Valid() && eventSinkWorkers == []
    {
      eventSinkWorkers, nextWorker := [], 0;
    }

    method FindSink(sink: Sink) returns (i: nat)
      ensures i == Find(eventSinkWorkers, sink)
    {
      i := 0;
      while i < |eventSinkWorkers| && eventSinkWorkers[i].sink != sink
        invariant i <= |eventSinkWorkers|
        invariant forall k | 0 <= k < i :: eventSinkWorkers[k].sink != sink
      {
        i := i + 1;
      }
      ghost var f := Find(eventSinkWorkers, sink);
      assert f < |eventSinkWorkers| ==> eventSinkWorkers[f].sink == sink;
    }

    /** live says whether the weak pointer could be locked. */
    method RegisterSink(sink: Sink, live: bool) returns (r: Outcome)
      requires Valid()
      modifies this
      ensures Valid()
      ensures r == if !live then InvalidArg
        else if exists w :: w in old(eventSinkWorkers) && w.sink == sink then Failed else Ok
      ensures r == Ok ==> eventSinkWorkers == old(eventSinkWorkers) + [EventSinkWorker(sink, old(nextWorker))]
      ensures r != Ok ==> eventSinkWorkers == old(eventSinkWorkers)
    {
      if !live {
        return InvalidArg;
      }
      var i := FindSink(sink);
      if i < |eventSinkWorkers| {
        assert eventSinkWorkers[i] in eventSinkWorkers;
        return Failed;
      }
      eventSinkWorkers := eventSinkWorkers + [EventSinkWorker(sink, nextWorker)];
      nextWorker := nextWorker + 1;
      return Ok;
    }

    method UnregisterSink(sink: Sink, live: bool) returns (r: Outcome)
      requires Valid()
      modifies this
      ensures Valid()
      ensures r == if !live then InvalidArg
        else if exists w :: w in old(eventSinkWorkers) && w.sink == sink then Ok else Failed
      ensures r == Ok ==> var i := Find(old(eventSinkWorkers), sink);
        i < |old(eventSinkWorkers)| && eventSinkWorkers == old(eventSinkWorkers[..i] + eventSinkWorkers[i + 1..])
      ensures r == Ok ==> forall w :: w in eventSinkWorkers <==> w in old(eventSinkWorkers) && w.sink != sink
      ensures r != Ok ==> eventSinkWorkers == old(eventSinkWorkers)
    {
      if !live {
        return InvalidArg;
      }
      var i := FindSink(sink);
      if i == |eventSinkWorkers| {
        return Failed;
      }
      assert eventSinkWorkers[i] in eventSinkWorkers;
      EraseAt(eventSinkWorkers, i);
      eventSinkWorkers := eventSinkWorkers[..i] + eventSinkWorkers[i + 1..];
      return Ok;
    }
  }

  lemma EraseAt(list: seq<EventSinkWorker>, i: nat)
    requires i < |list| && Distinct(list)
    ensures Distinct(list[..i] + list[i + 1..])
    ensures forall w :: w in list[..i] + list[i + 1..] <==> w in list && w.sink != list[i].sink
  {
    var rest := list[..i] + list[i + 1..];
    assert forall k | 0 <= k < |rest| :: rest[k] == list[if k < i then k else k + 1];
    forall w | w in list && w.sink != list[i].sink ensures w in rest {
      var k :| 0 <= k < |list| && list[k] == w;
      assert rest[if k < i then k else k - 1] == w;
    }
  }

  /** Unregistering a sink undoes its registration. */
  lemma UnregisterUndoesRegister(list: seq<EventSinkWorker>, w: EventSinkWorker)
    requires Find(list, w.sink) == |list|
    ensures var longer := list + [w]; var i := Find(longer, w.sink);
      i == |list| && longer[..i] + longer[i + 1..] == list
  {
    var longer := list + [w];
    var i := Find(longer, w.sink);
    assert longer[|list|].sink == w.sink;
    assert forall k | 0 <= k < |list| :: longer[k].sink == list[k].sink;
  }
}
