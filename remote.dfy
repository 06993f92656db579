/**
 * FRemoteEngine: a connected peer as this engine sees it, a fixed GUID and the frame of
 * events queued for it.
 */
module Remotes {
  import opened Bytes
  import opened Buffers
  import opened Streams
  import opened NetTypes
  import opened Events

  class RemoteEngine {
    const guid: Guid
    /** `_eventsFrame`, the buffer `GetEventsFrame` hands out by reference. */
    const eventsFrame: Buffer

    constructor (g: Guid)
      ensures guid == g && fresh(eventsFrame)
      ensures eventsFrame.Valid() && eventsFrame.data == []
    {
      guid := g;
      eventsFrame := new Buffer(0);
    }

    method GetGUID() returns (g: Guid)
      ensures g == guid
    {
      g := guid;
    }

    method GetEventsFrame() returns (b: Buffer)
      ensures b == eventsFrame
    {
      b := eventsFrame;
    }

    /**
     * A writer over the frame starts at its end, so the tag byte and the event land after
     * everything queued before.
     */
    method PushEvent(e: Event)
      modifies eventsFrame
      ensures eventsFrame.Valid()
      ensures eventsFrame.data == old(eventsFrame.data) + EncodeTagged(e)
    {
      ghost var d0 := eventsFrame.data;
      var stream := new OStream(eventsFrame);
      stream.WriteByte(Tag(e));
      WriteEvent(stream, e);
      InsertedTwice(d0, [Tag(e)], EncodeEvent(e), |d0|);
      InsertAtEndIsAppend(d0, EncodeTagged(e));
    }
  }
}
