/** The polling client of the logged-event exchange. */
module EventClient {
  import opened Types
  import opened EventServer

  datatype Client = Client(last: Option<u32>, recovery: Option<u32>, eventCount: u32)

  /** What a decoded reply does to the client's offsets. */
  function Received<E>(c: Client, reply: Reply<E>): Client {
    match reply
    case Some(Recovery(start, end)) =>
      Client(Some(start), if start != end then Some(end) else None, 0)
    case Some(Logged(_, offset)) =>
      c.(last := Some(offset), eventCount := (c.eventCount + 1) % U32_SIZE)
    case _ => c
  }

  class EventClient {
    var lastEventOffset: Option<u32>
    var recoveryEventOffset: Option<u32>
    var eventCount: u32

    function State(): Client
      reads this
    {
      Client(lastEventOffset, recoveryEventOffset, eventCount)
    }

    constructor ()
      ensures State() == Client(None, None, 0)
    {
      lastEventOffset, recoveryEventOffset, eventCount := None, None, 0;
    }

    /** The reply arm of the poll loop; `recovered` is the "recovery complete" report. */
    method HandleReply<E>(reply: Reply<E>) returns (recovered: bool)
      modifies this
      ensures State() == Received(old(State()), reply)
      ensures recovered <==> reply.Some? &&
                             ((reply.value.Recovery? && reply.value.start == reply.value.end) ||
                              (reply.value.Logged? && Some(reply.value.offset) == old(recoveryEventOffset)))
    {
      recovered := false;
      match reply {
        case Some(Recovery(start, end)) =>
          eventCount := 0;
          lastEventOffset := Some(start);
          if start != end {
            recoveryEventOffset := Some(end);
          } else {
            recoveryEventOffset := None;
            recovered := true;
          }
        case Some(Logged(_, offset)) =>
          eventCount := (eventCount + 1) % U32_SIZE;
          lastEventOffset := Some(offset);
          recovered := lastEventOffset == recoveryEventOffset;
        case _ =>
      }
    }
  }
}
