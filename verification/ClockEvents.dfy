/** The events a clock sends to its event sink. */
module ClockEvents {
  datatype Event =
    | UpdateBegin(oldTime: int, newTime: int)
    | Updating(newTime: int)
    | UpdateEnd(newTime: int)
    | ResetBegin(oldTime: int, newTime: int)
    | ResetEnd(newTime: int)

  /** The sink a clock is started with, and the calls it has received. */
  class EventSink {
    var events: seq<Event>

    constructor ()
      ensures events == []
    {
      events := [];
    }
  }
}
