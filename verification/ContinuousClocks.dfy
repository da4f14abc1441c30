/**
 * The continuous clock. Its sink may call the clock again from inside every event; the guard
 * around resets is what keeps these calls from sending events themselves.
 */
module ContinuousClocks {
  import opened ClockEvents

  /** A call of the clock, with the time its source answers: the new time, or the time reset to. */
  datatype Call = GetTime(source: int) | Reset(source: int)

  /** The time after calls made inside an event: only reading the time moves it. */
  function TimeAfter(calls: seq<Call>, t: int): int {
    if calls == [] then t
    else
      var last := calls[|calls| - 1];
      if last.GetTime? then last.source else TimeAfter(calls[..|calls| - 1], t)
  }

  /** Complete reset pairs, one after the other and never nested, that lead to the given times. */
  ghost predicate Pairs(events: seq<Event>, times: seq<int>) {
    && |events| == 2 * |times|
    && forall i | 0 <= i < |times| ::
         events[2 * i].ResetBegin? && events[2 * i].newTime == times[i] && events[2 * i + 1] == ResetEnd(times[i])
  }

  /** The times of the resets among the calls. */
  function ResetTimes(calls: seq<Call>): seq<int> {
    if calls == [] then []
    else
      var last := calls[|calls| - 1];
      ResetTimes(calls[..|calls| - 1]) + if last.Reset? then [last.source] else []
  }

  /** What a sink has received so far, and the time of the clock. */
  datatype Told = Told(events: seq<Event>, time: int)

  /**
   * Calls from outside, one after the other: reading moves the time and sends nothing; a reset
   * sends one pair from the time before to the new one, and then the time is the new one or,
   * when the sink reads the clock in answer to the end of the reset, what it read last.
   */
  function AfterCalls(react: seq<Event> -> seq<Call>, start: Told, calls: seq<Call>): Told
    decreases |calls|
  {
    if calls == [] then start
    else
      var before := AfterCalls(react, start, calls[..|calls| - 1]);
      match calls[|calls| - 1]
      case GetTime(t) => Told(before.events, t)
      case Reset(t) =>
        var sent := before.events + [ResetBegin(before.time, t), ResetEnd(t)];
        Told(sent, TimeAfter(react(sent), t))
  }

  lemma PairsAppend(events: seq<Event>, times: seq<int>, oldTime: int, t: int)
    requires Pairs(events, times)
    ensures Pairs(events + [ResetBegin(oldTime, t), ResetEnd(t)], times + [t])
  {
    var longer := events + [ResetBegin(oldTime, t), ResetEnd(t)];
    forall i | 0 <= i < |times + [t]|
      ensures longer[2 * i].ResetBegin? && longer[2 * i].newTime == (times + [t])[i]
        && longer[2 * i + 1] == ResetEnd((times + [t])[i])
    {
      if i < |times| {
        assert longer[2 * i] == events[2 * i] && longer[2 * i + 1] == events[2 * i + 1];
      }
    }
  }

  lemma {:induction false} OnlyReading(calls: seq<Call>)
    requires forall i | 0 <= i < |calls| :: calls[i].GetTime?
    ensures ResetTimes(calls) == []
  {
    if calls != [] {
      OnlyReading(calls[..|calls| - 1]);
    }
  }

  class ContinuousClock {
    var currentTime: int
    var hasSink: bool
    var events: seq<Event>
    var updated: bool
    var started: bool
    var timeResetInProgress: bool

    /** The sink: the calls it makes in answer to an event, given all events it has received. */
    const react: seq<Event> -> seq<Call>

    constructor (react: seq<Event> -> seq<Call>)
      ensures this.react == react && events == [] && currentTime == 0
      ensures !hasSink && !updated && !started && !timeResetInProgress
    {
      this.react := react;
      currentTime, hasSink, events, updated, started, timeResetInProgress := 0, false, [], false, false, false;
    }

    /** The time the sink leaves behind when it answers the events so far, sent at time t. */
    function Answered(sent: seq<Event>, t: int): int {
      TimeAfter(react(sent), t)
    }

    /** Where a reset to t ends: at t, unless the sink read the time again while it was told of the end. */
    ghost function TimeAfterReset(t: int): int
      reads this
    {
      if hasSink then Answered(events + [ResetBegin(currentTime, t), ResetEnd(t)], t) else t
    }

    /** The events of a reset to t. */
    ghost function ResetEvents(t: int): seq<Event>
      reads this
    {
      if hasSink then [ResetBegin(currentTime, t), ResetEnd(t)] else []
    }

    method Start(source: int)
      requires !timeResetInProgress
      modifies this
      ensures events == old(events) + [ResetBegin(old(currentTime), source), ResetEnd(source)]
      ensures currentTime == Answered(events, source)
      ensures hasSink && started && updated && !timeResetInProgress
    {
      updated := false;
      hasSink := true;
      started := true;
      DoReset(source);
    }

    method Stop()
      modifies this
      ensures !hasSink && !started && !updated
      ensures events == old(events) && currentTime == old(currentTime) && timeResetInProgress == old(timeResetInProgress)
    {
      started := false;
      hasSink := false;
      updated := false;
    }

    /** Reading the time takes over what the source says, and resets only a clock never updated. */
    method ReadTime(source: int) returns (t: int)
      modifies this
      ensures hasSink == old(hasSink) && started == old(started)
      ensures updated && timeResetInProgress == old(timeResetInProgress)
      ensures t == currentTime == source
      ensures events == old(events) + if old(updated || timeResetInProgress) then [] else old(ResetEvents(source))
      decreases if timeResetInProgress then 0 else 1, 2
    {
      SetNewTime(source);
      t := currentTime;
    }

    method DoReset(source: int)
      modifies this
      ensures hasSink == old(hasSink) && started == old(started)
      ensures timeResetInProgress == old(timeResetInProgress)
      ensures old(timeResetInProgress) ==> events == old(events) && currentTime == old(currentTime) && updated == old(updated)
      ensures !old(timeResetInProgress) ==> updated && events == old(events + ResetEvents(source))
      ensures !old(timeResetInProgress) ==> currentTime == old(TimeAfterReset(source))
      decreases if timeResetInProgress then 0 else 1, 2
    {
      SetResetTime(source);
    }

    method SetNewTime(newTime: int)
      modifies this
      ensures hasSink == old(hasSink) && started == old(started)
      ensures updated && timeResetInProgress == old(timeResetInProgress) && currentTime == newTime
      ensures events == old(events) + if old(updated || timeResetInProgress) then [] else old(ResetEvents(newTime))
      decreases if timeResetInProgress then 0 else 1, 1
    {
      if !updated {
        updated := true;
        SetResetTime(newTime);
      }
      updated := true;
      currentTime := newTime;
    }

    /** A reset inside a reset does nothing; otherwise the sink gets one pair, whatever it calls in between. */
    method SetResetTime(newTime: int)
      modifies this
      ensures hasSink == old(hasSink) && started == old(started)
      ensures timeResetInProgress == old(timeResetInProgress)
      ensures old(timeResetInProgress) ==> events == old(events) && currentTime == old(currentTime) && updated == old(updated)
      ensures !old(timeResetInProgress) ==> updated && events == old(events + ResetEvents(newTime))
      ensures !old(timeResetInProgress) ==> currentTime == old(TimeAfterReset(newTime))
      decreases if timeResetInProgress then 0 else 1, 0
    {
      if timeResetInProgress {
        return;
      }
      timeResetInProgress := true;
      var oldTime := currentTime;
      var locked := hasSink;
      if locked {
        Send(ResetBegin(oldTime, newTime));
      }
      updated := true;
      currentTime := newTime;
      if locked {
        Send(ResetEnd(newTime));
        assert old(events) + [ResetBegin(oldTime, newTime)] + [ResetEnd(newTime)]
          == old(events) + [ResetBegin(oldTime, newTime), ResetEnd(newTime)];
      }
      timeResetInProgress := false;
    }

    /** Sends an event; the sink answers with as many calls as it likes. */
    method Send(e: Event)
      requires timeResetInProgress
      modifies this
      ensures timeResetInProgress && hasSink == old(hasSink) && started == old(started)
      ensures events == old(events) + [e]
      ensures old(updated) ==> updated
      ensures currentTime == Answered(events, old(currentTime))
      decreases 0, 3
    {
      events := events + [e];
      ghost var sent := events;
      var calls := react(events);
      for i := 0 to |calls|
        invariant timeResetInProgress && hasSink == old(hasSink) && started == old(started)
        invariant events == sent && (old(updated) ==> updated)
        invariant currentTime == TimeAfter(calls[..i], old(currentTime))
      {
        assert calls[..i + 1][..i] == calls[..i];
        match calls[i] {
          case GetTime(source) => var _ := ReadTime(source);
          case Reset(source) => DoReset(source);
        }
      }
      assert calls[..|calls|] == calls;
    }

    /**
     * A whole session with any calls from outside and any sink: it ends, and the sink has received
     * one pair for the start and one for each reset from outside, and nothing for reading the time.
     * Every pair starts from the time the clock had when that reset came.
     */
    method Session(source: int, calls: seq<Call>)
      requires !timeResetInProgress && events == []
      modifies this
      ensures Pairs(events, [source] + ResetTimes(calls))
      ensures Told(events, currentTime) == AfterCalls(react, Told([], old(currentTime)), [Call.Reset(source)] + calls)
      ensures !timeResetInProgress && !hasSink && !started && !updated
    {
      ghost var start := Told([], currentTime);
      Start(source);
      assert Pairs(events, [source] + ResetTimes([]));
      assert [Call.Reset(source)] + calls[..0] == [Call.Reset(source)] && [Call.Reset(source)][..0] == [];
      assert events == [] + events;
      for i := 0 to |calls|
        invariant !timeResetInProgress && hasSink && updated
        invariant Pairs(events, [source] + ResetTimes(calls[..i]))
        invariant Told(events, currentTime) == AfterCalls(react, start, [Call.Reset(source)] + calls[..i])
      {
        assert calls[..i + 1][..i] == calls[..i];
        assert ([Call.Reset(source)] + calls[..i + 1])[..i + 1] == [Call.Reset(source)] + calls[..i];
        match calls[i] {
          case GetTime(t) =>
            var _ := ReadTime(t);
          case Reset(t) =>
            PairsAppend(events, [source] + ResetTimes(calls[..i]), currentTime, t);
            assert [source] + ResetTimes(calls[..i]) + [t] == [source] + ResetTimes(calls[..i + 1]);
            DoReset(t);
        }
      }
      assert calls[..|calls|] == calls;
      Stop();
    }

    /** Without a reset from outside, a session sends exactly one pair. */
    method ReadingSession(source: int, calls: seq<Call>)
      requires !timeResetInProgress && events == []
      requires forall i | 0 <= i < |calls| :: calls[i].GetTime?
      modifies this
      ensures Pairs(events, [source])
    {
      OnlyReading(calls);
      assert [source] + [] == [source];
      Session(source, calls);
    }
  }
}
