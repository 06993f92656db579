/**
 * FCommand<C>: the requests and replies peers exchange. A command travels as its ECommand
 * tag byte followed by its fields: nothing for Ping, Pong and the two requests, a uint32
 * frame size and that many bytes for the two `*Recieve` replies. The borrowed `FrameData`
 * address and its size become one owned byte sequence here.
 */
module Commands {
  import opened Options
  import opened Bytes
  import opened Buffers
  import opened Streams
  import opened NetTypes

  datatype Command =
    | Ping
    | Pong
    | EventsFrameRequest
    | EventsFrameRecieve(frame: seq<byte>)
    | ReplicationFrameRequest
    | ReplicationFrameRecieve(frame: seq<byte>)

  const PING: byte := 0
  const PONG: byte := 1
  const EVENTS_FRAME_REQUEST: byte := 2
  const EVENTS_FRAME_RECIEVE: byte := 3
  const REPLICATION_FRAME_REQUEST: byte := 4
  const REPLICATION_FRAME_RECIEVE: byte := 5
  /** `ECommand::MaxValue`: the first byte value that is not a command. */
  const COMMAND_MAX_VALUE: byte := 6

  function Tag(c: Command): (t: byte)
    ensures t < COMMAND_MAX_VALUE
  {
    match c
    case Ping => PING
    case Pong => PONG
    case EventsFrameRequest => EVENTS_FRAME_REQUEST
    case EventsFrameRecieve(_) => EVENTS_FRAME_RECIEVE
    case ReplicationFrameRequest => REPLICATION_FRAME_REQUEST
    case ReplicationFrameRecieve(_) => REPLICATION_FRAME_RECIEVE
  }

  /** The variants that carry a frame. */
  predicate CarriesFrame(tag: byte)
  {
    tag == EVENTS_FRAME_RECIEVE || tag == REPLICATION_FRAME_RECIEVE
  }

  /** `FCommand<C>::operator>>(FOStream&)`: the fields, without the tag. */
  function EncodeCommand(c: Command): seq<byte>
  {
    match c
    case EventsFrameRecieve(f) => EncodeSized(f)
    case ReplicationFrameRecieve(f) => EncodeSized(f)
    case _ => []
  }

  function EncodeTagged(c: Command): seq<byte>
  {
    [Tag(c)] + EncodeCommand(c)
  }

  /** A packet of commands written one after another. */
  function EncodePacket(cs: seq<Command>): seq<byte>
  {
    if cs == [] then [] else EncodeTagged(cs[0]) + EncodePacket(cs[1..])
  }

  /** The variant a tag names, with no fields read yet. */
  function Empty(tag: byte): (c: Command)
    requires tag < COMMAND_MAX_VALUE && !CarriesFrame(tag)
    ensures Tag(c) == tag
  {
    if tag == PING then Ping
    else if tag == PONG then Pong
    else if tag == EVENTS_FRAME_REQUEST then EventsFrameRequest
    else ReplicationFrameRequest
  }

  /**
   * `FCommand<C>::operator<<(FIStream&)` for the variant of `tag`: the empty variants read
   * nothing; the frame replies read a size and that many bytes, None past the buffer end.
   */
  function DecodeCommand(tag: byte, d: seq<byte>, p: nat): (r: Option<Parsed<Command>>)
    requires tag < COMMAND_MAX_VALUE
    ensures r.Some? ==> Tag(r.value.value) == tag
    ensures r.Some? ==> (if CarriesFrame(tag) then p + 4 else p) <= r.value.next
    ensures r.Some? && p <= |d| ==> r.value.next <= |d|
  {
    if !CarriesFrame(tag) then Some(Parsed(Empty(tag), p))
    else
      var f :- DecodeSized(d, p);
      Some(Parsed(if tag == EVENTS_FRAME_RECIEVE then EventsFrameRecieve(f.value) else ReplicationFrameRecieve(f.value), f.next))
  }

  /** A frame whose size field does not wrap. */
  predicate Transmissible(c: Command)
  {
    (c.EventsFrameRecieve? || c.ReplicationFrameRecieve?) ==> |c.frame| < U32_LIMIT
  }

  /** Every command read back from its encoding is itself, and the cursor ends just after it. */
  lemma CommandRoundTrip(c: Command, d: seq<byte>, p: nat, next: nat)
    requires Transmissible(c)
    requires next == p + |EncodeCommand(c)| <= |d| && d[p..next] == EncodeCommand(c)
    ensures DecodeCommand(Tag(c), d, p) == Some(Parsed(c, next))
  {
    if c.EventsFrameRecieve? || c.ReplicationFrameRecieve? {
      SizedRoundTrip(d, p, c.frame, next);
    }
  }

  datatype Batch = Batch(commands: seq<Command>, complete: bool)

  /**
   * The reads of the `ProcessResponse` loop from `p`: a tag byte, then the command of that
   * tag, until the end of the buffer (`complete`) or a tag of `ECommand::MaxValue` or more.
   * None when a read would pass the end.
   */
  function ParseCommands(d: seq<byte>, p: nat): Option<Batch>
    requires p <= |d|
    decreases |d| - p
  {
    if p == |d| then Some(Batch([], true))
    else if d[p] >= COMMAND_MAX_VALUE then Some(Batch([], false))
    else
      var c :- DecodeCommand(d[p], d, p + 1);
      var rest :- ParseCommands(d, c.next);
      Some(Batch([c.value] + rest.commands, rest.complete))
  }

  predicate AllTransmissible(cs: seq<Command>)
  {
    forall i :: 0 <= i < |cs| ==> Transmissible(cs[i])
  }

  /** A packet read to the end of its buffer gives back exactly the commands written into it. */
  lemma {:induction false} PacketRoundTrip(cs: seq<Command>, d: seq<byte>, p: nat)
    requires AllTransmissible(cs) && p <= |d| && d[p..] == EncodePacket(cs)
    ensures ParseCommands(d, p) == Some(Batch(cs, true))
    decreases |cs|
  {
    if cs != [] {
      var c := cs[0];
      var next := p + 1 + |EncodeCommand(c)|;
      TaggedFront(d, p, Tag(c), EncodeCommand(c), EncodePacket(cs[1..]), next);
      CommandRoundTrip(c, d, p + 1, next);
      assert AllTransmissible(cs[1..]) by {
        assert forall i :: 0 <= i < |cs[1..]| ==> cs[1..][i] == cs[i + 1];
      }
      PacketRoundTrip(cs[1..], d, next);
      assert [c] + cs[1..] == cs;
    } else {
      assert |d[p..]| == 0;
    }
  }

  method WriteCommand(s: OStream, c: Command)
    requires s.pos <= |s.buffer.data|
    modifies s, s.buffer
    ensures s.buffer.Valid()
    ensures s.buffer.data == Inserted(old(s.buffer.data), EncodeCommand(c), old(s.pos))
    ensures s.pos == old(s.pos) + |EncodeCommand(c)|
  {
    if c.EventsFrameRecieve? || c.ReplicationFrameRecieve? {
      WriteSized(s, c.frame);
    } else {
      s.Write([]);
    }
  }

  method ReadCommand(s: IStream, tag: byte) returns (c: Command)
    requires tag < COMMAND_MAX_VALUE && DecodeCommand(tag, s.buffer.data, s.pos).Some?
    modifies s
    ensures DecodeCommand(tag, s.buffer.data, old(s.pos)) == Some(Parsed(c, s.pos))
  {
    if !CarriesFrame(tag) {
      return Empty(tag);
    }
    var f := ReadSized(s);
    c := if tag == EVENTS_FRAME_RECIEVE then EventsFrameRecieve(f) else ReplicationFrameRecieve(f);
  }
}
