/** The discrete clock: time changes become update and reset events. */
module DiscreteClocks {
  import opened Wrappers
  import opened ClockEvents

  /** The state of a clock; sink says whether its weak pointer to a sink can be locked. */
  datatype Clock = Clock(time: int, updated: bool, started: bool, sink: bool)

  datatype Op = SetNewTime(newTime: int, beforeAfter: bool) | Reset(newTime: int) | SetResetTime(newTime: int)

  function ResetPair(c: Clock, newTime: int): seq<Event> {
    if c.sink then [ResetBegin(c.time, newTime), ResetEnd(newTime)] else []
  }

  function UpdateGroup(c: Clock, newTime: int, beforeAfter: bool): seq<Event> {
    if !c.sink then []
    else if beforeAfter then [UpdateBegin(c.time, newTime), Updating(newTime), UpdateEnd(newTime)]
    else [Updating(newTime)]
  }

  /** The clock after an operation. */
  function Step(c: Clock, op: Op): Clock {
    c.(time := op.newTime, updated := true)
  }

  /** The events an operation sends. */
  function Emits(c: Clock, op: Op): seq<Event> {
    match op
    case SetNewTime(t, beforeAfter) =>
      if !c.updated || t < c.time then ResetPair(c, t) else UpdateGroup(c, t, beforeAfter)
    case Reset(t) => ResetPair(c, t)
    case SetResetTime(t) => ResetPair(c, t)
  }

  function Run(c: Clock, ops: seq<Op>): Clock
    decreases |ops|
  {
    if ops == [] then c else Run(Step(c, ops[0]), ops[1..])
  }

  function Trace(c: Clock, ops: seq<Op>): seq<Event>
    decreases |ops|
  {
    if ops == [] then [] else Emits(c, ops[0]) + Trace(Step(c, ops[0]), ops[1..])
  }

  /** Starting resets the clock to time 0. */
  function Started(c: Clock, sink: bool): Clock {
    Clock(0, true, true, sink)
  }

  /**
   * What a sink can reconstruct from its calls alone: the clock's time after them, if they are
   * reset pairs and update groups in which every old time is the time before, and in which
   * only resets go back.
   */
  function Replay(events: seq<Event>, t: int): Option<int>
    decreases |events|
  {
    if events == [] then Some(t)
    else match events[0]
      case ResetBegin(o, n) =>
        if o == t && |events| > 1 && events[1] == ResetEnd(n) then Replay(events[2..], n) else None
      case UpdateBegin(o, n) =>
        if o == t && o <= n && |events| > 2 && events[1] == Updating(n) && events[2] == UpdateEnd(n)
        then Replay(events[3..], n) else None
      case Updating(n) => if t <= n then Replay(events[1..], n) else None
      case _ => None
  }

  lemma ReplayStep(c: Clock, op: Op, more: seq<Event>)
    requires c.sink
    ensures Replay(Emits(c, op) + more, c.time) == Replay(more, op.newTime)
  {
    var head := Emits(c, op);
    assert (head + more)[|head|..] == more;
    assert head != [] && forall i | 0 <= i < |head| :: (head + more)[i] == head[i];
  }

  lemma {:induction false} ReplayRun(c: Clock, ops: seq<Op>)
    requires c.sink
    ensures Replay(Trace(c, ops), c.time) == Some(Run(c, ops).time)
    decreases |ops|
  {
    if ops != [] {
      hide Emits, Replay;
      ReplayStep(c, ops[0], Trace(Step(c, ops[0]), ops[1..]));
      ReplayRun(Step(c, ops[0]), ops[1..]);
    } else {
      assert Trace(c, ops) == [];
    }
  }

  /**
   * A whole session: from any clock, starting it with a live sink and then changing the time in
   * any way sends the sink a trace from which it can replay the clock's time.
   */
  lemma SessionIsReplayed(before: Clock, ops: seq<Op>)
    ensures Replay(ResetPair(before.(sink := true), 0) + Trace(Started(before, true), ops), before.time)
      == Some(Run(Started(before, true), ops).time)
  {
    var c := before.(sink := true);
    ReplayStep(c, Op.Reset(0), Trace(Started(before, true), ops));
    ReplayRun(Started(before, true), ops);
  }

  /** The time of a session: the one set last, and 0 before. */
  function LastTime(ops: seq<Op>): int {
    if ops == [] then 0 else ops[|ops| - 1].newTime
  }

  /**
   * The events of a session behind the reset of its start: a new time is a reset exactly when
   * it is earlier than the time before, and an update otherwise; resets are always resets.
   */
  function SessionEvents(ops: seq<Op>): seq<Event> {
    if ops == [] then []
    else
      var front, op := ops[..|ops| - 1], ops[|ops| - 1];
      var o, n := LastTime(front), op.newTime;
      SessionEvents(front) +
        if !op.SetNewTime? || n < o then [ResetBegin(o, n), ResetEnd(n)]
        else if op.beforeAfter then [UpdateBegin(o, n), Updating(n), UpdateEnd(n)]
        else [Updating(n)]
  }

  lemma {:induction false} RunAppend(c: Clock, ops: seq<Op>, op: Op)
    ensures Run(c, ops + [op]) == Step(Run(c, ops), op)
    ensures Trace(c, ops + [op]) == Trace(c, ops) + Emits(Run(c, ops), op)
    decreases |ops|
  {
    hide Emits, Step;
    if ops == [] {
      assert ops + [op] == [op] && [op][1..] == [];
      assert Trace(c, [op]) == Emits(c, op) + Trace(Step(c, op), []);
      assert Trace(c, []) == [];
    } else {
      assert (ops + [op])[1..] == ops[1..] + [op];
      RunAppend(Step(c, ops[0]), ops[1..], op);
    }
  }

  /** What a session tells its sink, whatever the clock was before; a clock without a sink tells nothing. */
  lemma {:induction false} SessionIsSent(before: Clock, ops: seq<Op>)
    ensures ResetPair(before.(sink := true), 0) == [ResetBegin(before.time, 0), ResetEnd(0)]
    ensures Run(Started(before, true), ops) == Clock(LastTime(ops), true, true, true)
    ensures Trace(Started(before, true), ops) == SessionEvents(ops)
    ensures Run(Started(before, false), ops) == Clock(LastTime(ops), true, true, false)
    ensures Trace(Started(before, false), ops) == []
    decreases |ops|
  {
    if ops == [] {
      assert Trace(Started(before, true), ops) == [] && Trace(Started(before, false), ops) == [];
    } else {
      var front, op := ops[..|ops| - 1], ops[|ops| - 1];
      assert front + [op] == ops;
      SessionIsSent(before, front);
      RunAppend(Started(before, true), front, op);
      RunAppend(Started(before, false), front, op);
    }
  }

  class DiscreteClock {
    var currentTime: int
    var eventSink: EventSink?
    var updated: bool
    var started: bool

    function View(): Clock
      reads this
    {
      Clock(currentTime, updated, started, eventSink != null)
    }

    ghost function Received(): seq<Event>
      reads this, eventSink
    {
      if eventSink == null then [] else eventSink.events
    }

    constructor ()
      ensures View() == Clock(0, false, false, false)
    {
      currentTime, eventSink, updated, started := 0, null, false, false;
    }

    method Start(sink: EventSink?)
      modifies this, sink
      ensures View() == Started(old(View()), sink != null) && eventSink == sink
      ensures sink != null ==> sink.events == old(sink.events) + ResetPair(old(View()).(sink := true), 0)
    {
      updated := false;
      eventSink := sink;
      started := true;
      Reset(0);
    }

    method Stop()
      modifies this
      ensures View() == Clock(old(currentTime), false, false, false)
    {
      started := false;
      eventSink := null;
      updated := false;
    }

    method Send(e: Event)
      requires eventSink != null
      modifies eventSink
      ensures eventSink.events == old(eventSink.events) + [e]
    {
      eventSink.events := eventSink.events + [e];
    }

    method Reset(newTime: int)
      modifies this, eventSink
      ensures View() == Step(old(View()), Op.Reset(newTime)) && eventSink == old(eventSink)
      ensures Received() == old(Received()) + Emits(old(View()), Op.Reset(newTime))
    {
      updated := true;
      SetResetTime(newTime);
    }

    method SetNewTime(newTime: int, beforeAfter: bool)
      modifies this, eventSink
      ensures View() == Step(old(View()), Op.SetNewTime(newTime, beforeAfter)) && eventSink == old(eventSink)
      ensures Received() == old(Received()) + Emits(old(View()), Op.SetNewTime(newTime, beforeAfter))
    {
      var oldTime := currentTime;
      if !updated {
        updated := true;
        SetResetTime(newTime);
      } else if newTime < oldTime {
        SetResetTime(newTime);
      } else {
        if eventSink != null && beforeAfter {
          Send(UpdateBegin(oldTime, newTime));
        }
        currentTime := newTime;
        if eventSink != null {
          Send(Updating(newTime));
        }
        if eventSink != null && beforeAfter {
          Send(UpdateEnd(newTime));
        }
      }
    }

    method SetResetTime(newTime: int)
      modifies this, eventSink
      ensures View() == Step(old(View()), Op.SetResetTime(newTime)) && eventSink == old(eventSink)
      ensures Received() == old(Received()) + Emits(old(View()), Op.SetResetTime(newTime))
    {
      var oldTime := currentTime;
      if eventSink != null {
        Send(ResetBegin(oldTime, newTime));
      }
      updated := true;
      currentTime := newTime;
      if eventSink != null {
        Send(ResetEnd(newTime));
      }
    }
  }
}
