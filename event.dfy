/**
 * FEvent<E>: what an engine broadcasts to its peers. Each event travels as its EEvent tag
 * byte followed by the fields of its variant in declaration order; ExecFunctionRemote
 * carries its parameter bytes after a uint32 count. The borrowed `ParametersData` address
 * and its size become one owned byte sequence here.
 */
module Events {
  import opened Options
  import opened Bytes
  import opened Buffers
  import opened Streams
  import opened NetTypes

  datatype Event =
    | CreateObject(guid: Guid, className: Name, owner: Guid)
    | RemoveObject(guid: Guid)
    | ExecFunctionRemote(guid: Guid, functionName: Name, parameters: seq<byte>)

  const CREATE_OBJECT: byte := 0
  const REMOVE_OBJECT: byte := 1
  const EXEC_FUNCTION_REMOTE: byte := 2
  /** `EEvent::MaxValue`: the first byte value that is not an event. */
  const EVENT_MAX_VALUE: byte := 3

  /** The `EEvent` a variant is declared for. */
  function Tag(e: Event): (t: byte)
    ensures t < EVENT_MAX_VALUE
  {
    match e
    case CreateObject(_, _, _) => CREATE_OBJECT
    case RemoveObject(_) => REMOVE_OBJECT
    case ExecFunctionRemote(_, _, _) => EXEC_FUNCTION_REMOTE
  }

  /** `FEvent<E>::operator>>(FOStream&)`: the fields, without the tag. */
  function EncodeEvent(e: Event): seq<byte>
  {
    match e
    case CreateObject(g, c, o) => EncodeGuid(g) + EncodeString(c) + EncodeGuid(o)
    case RemoveObject(g) => EncodeGuid(g)
    case ExecFunctionRemote(g, f, ps) => EncodeGuid(g) + EncodeString(f) + EncodeSized(ps)
  }

  /** `stream << Event; stream << event`, as `FRemoteEngine::PushEvent` writes it. */
  function EncodeTagged(e: Event): seq<byte>
  {
    [Tag(e)] + EncodeEvent(e)
  }

  /** A frame of events pushed one after another. */
  function EncodeFrame(es: seq<Event>): seq<byte>
  {
    if es == [] then [] else EncodeTagged(es[0]) + EncodeFrame(es[1..])
  }

  /**
   * `FEvent<E>::operator<<(FIStream&)` for the variant of `tag`; None where a read would pass
   * the end of the buffer (undefined in the code).
   */
  function DecodeEvent(tag: byte, d: seq<byte>, p: nat): (r: Option<Parsed<Event>>)
    requires tag < EVENT_MAX_VALUE
    ensures r.Some? ==> p + 16 <= r.value.next <= |d| && Tag(r.value.value) == tag
  {
    var g :- DecodeGuid(d, p);
    if tag == REMOVE_OBJECT then Some(Parsed(RemoveObject(g.value), g.next))
    else
      var name :- DecodeString(d, g.next);
      StringNext(d, g.next);
      if tag == CREATE_OBJECT then
        var o :- DecodeGuid(d, name.next);
        Some(Parsed(CreateObject(g.value, name.value, o.value), o.next))
      else
        var ps :- DecodeSized(d, name.next);
        Some(Parsed(ExecFunctionRemote(g.value, name.value, ps.value), ps.next))
  }

  /** Names the string codec carries intact and a parameter run whose count does not wrap. */
  predicate Transmissible(e: Event)
  {
    match e
    case CreateObject(_, c, _) => NoNul(c) && |c| + 1 < U32_LIMIT
    case RemoveObject(_) => true
    case ExecFunctionRemote(_, f, ps) => NoNul(f) && |f| + 1 < U32_LIMIT && |ps| < U32_LIMIT
  }

  /** Three consecutive windows of a buffer that holds `a + b + f` from `p` to `next`. */
  lemma WindowSplit3(d: seq<byte>, p: nat, a: seq<byte>, b: seq<byte>, f: seq<byte>, mid: nat, mid2: nat, next: nat)
    requires mid == p + |a| && mid2 == mid + |b| && next == mid2 + |f| <= |d| && d[p..next] == a + b + f
    ensures d[p..mid] == a && d[mid..mid2] == b && d[mid2..next] == f
  {
    assert a + b + f == a + (b + f);
    WindowSplitAt(d, p, a, b + f, mid, next);
    WindowSplitAt(d, mid, b, f, mid2, next);
  }

  lemma CreateObjectRoundTrip(g: Guid, c: Name, o: Guid, d: seq<byte>, p: nat, mid: nat, mid2: nat, next: nat)
    requires NoNul(c) && |c| + 1 < U32_LIMIT
    requires mid == p + 16 && mid2 == mid + |EncodeString(c)| && next == mid2 + 16 <= |d|
    requires d[p..mid] == EncodeGuid(g) && d[mid..mid2] == EncodeString(c) && d[mid2..next] == EncodeGuid(o)
    ensures DecodeEvent(CREATE_OBJECT, d, p) == Some(Parsed(CreateObject(g, c, o), next))
  {
    GuidRoundTrip(d, p, g);
    StringRoundTrip(d, mid, c);
    GuidRoundTrip(d, mid2, o);
  }

  lemma ExecFunctionRemoteRoundTrip(g: Guid, fn: Name, ps: seq<byte>, d: seq<byte>, p: nat, mid: nat, mid2: nat, next: nat)
    requires NoNul(fn) && |fn| + 1 < U32_LIMIT && |ps| < U32_LIMIT
    requires mid == p + 16 && mid2 == mid + |EncodeString(fn)| && next == mid2 + |EncodeSized(ps)| <= |d|
    requires d[p..mid] == EncodeGuid(g) && d[mid..mid2] == EncodeString(fn) && d[mid2..next] == EncodeSized(ps)
    ensures DecodeEvent(EXEC_FUNCTION_REMOTE, d, p) == Some(Parsed(ExecFunctionRemote(g, fn, ps), next))
  {
    GuidRoundTrip(d, p, g);
    StringRoundTrip(d, mid, fn);
    SizedRoundTrip(d, mid2, ps, next);
  }

  /** Decoding the variant of an event's own tag from its encoding gives the event back and consumes exactly the encoding. */
  lemma EventRoundTrip(e: Event, d: seq<byte>, p: nat, next: nat)
    requires Transmissible(e)
    requires next == p + |EncodeEvent(e)| <= |d| && d[p..next] == EncodeEvent(e)
    ensures DecodeEvent(Tag(e), d, p) == Some(Parsed(e, next))
  {
    var mid := p + 16;
    match e
    case RemoveObject(g) =>
      GuidRoundTrip(d, p, g);
    case CreateObject(g, c, o) =>
      var mid2 := mid + |EncodeString(c)|;
      WindowSplit3(d, p, EncodeGuid(g), EncodeString(c), EncodeGuid(o), mid, mid2, next);
      CreateObjectRoundTrip(g, c, o, d, p, mid, mid2, next);
    case ExecFunctionRemote(g, fn, ps) =>
      var mid2 := mid + |EncodeString(fn)|;
      WindowSplit3(d, p, EncodeGuid(g), EncodeString(fn), EncodeSized(ps), mid, mid2, next);
      ExecFunctionRemoteRoundTrip(g, fn, ps, d, p, mid, mid2, next);
  }

  /** What a batch reader meets, event after event, up to the end of the buffer or the first bad tag. */
  datatype Batch = Batch(events: seq<Event>, complete: bool)

  /**
   * The reads of the `ReplicateEvents` loop from `p`: a tag byte, then the event of that
   * tag, until the end of the buffer (`complete`) or a tag of `EEvent::MaxValue` or more
   * (not `complete`: the loop stops there). None when a read would pass the end.
   */
  function ParseEvents(d: seq<byte>, p: nat): Option<Batch>
    requires p <= |d|
    decreases |d| - p
  {
    if p == |d| then Some(Batch([], true))
    else if d[p] >= EVENT_MAX_VALUE then Some(Batch([], false))
    else
      var e :- DecodeEvent(d[p], d, p + 1);
      var rest :- ParseEvents(d, e.next);
      Some(Batch([e.value] + rest.events, rest.complete))
  }

  predicate AllTransmissible(es: seq<Event>)
  {
    forall i :: 0 <= i < |es| ==> Transmissible(es[i])
  }

  /** The batch from `p` is the event decoded there followed by the batch after it. */
  lemma ParseEventsCons(d: seq<byte>, p: nat, e: Event, next: nat, rest: Batch)
    requires p < |d| && d[p] < EVENT_MAX_VALUE && DecodeEvent(d[p], d, p + 1) == Some(Parsed(e, next))
    requires next <= |d| && ParseEvents(d, next) == Some(rest)
    ensures ParseEvents(d, p) == Some(Batch([e] + rest.events, rest.complete))
  {
  }

  /** The first event of a frame decodes from behind its tag, and the rest of the frame follows it. */
  lemma FrameHead(es: seq<Event>, d: seq<byte>, p: nat, next: nat)
    requires es != [] && AllTransmissible(es) && p <= |d| && d[p..] == EncodeFrame(es)
    requires next == p + 1 + |EncodeEvent(es[0])|
    ensures p < |d| && d[p] < EVENT_MAX_VALUE && DecodeEvent(d[p], d, p + 1) == Some(Parsed(es[0], next))
    ensures next <= |d| && d[next..] == EncodeFrame(es[1..]) && AllTransmissible(es[1..])
  {
    var e := es[0];
    TransmissibleTail(es);
    TaggedFront(d, p, Tag(e), EncodeEvent(e), EncodeFrame(es[1..]), next);
    EventRoundTrip(e, d, p + 1, next);
  }

  lemma TransmissibleTail(es: seq<Event>)
    requires es != [] && AllTransmissible(es)
    ensures Transmissible(es[0]) && AllTransmissible(es[1..])
  {
    assert forall i :: 0 <= i < |es[1..]| ==> es[1..][i] == es[i + 1];
  }

  /** A frame of pushed events, read to the end of its buffer, gives back exactly those events. */
  lemma {:induction false} FrameRoundTrip(es: seq<Event>, d: seq<byte>, p: nat)
    requires AllTransmissible(es) && p <= |d| && d[p..] == EncodeFrame(es)
    ensures ParseEvents(d, p) == Some(Batch(es, true))
    decreases |es|
  {
    if es != [] {
      var next := p + 1 + |EncodeEvent(es[0])|;
      FrameHead(es, d, p, next);
      FrameRoundTrip(es[1..], d, next);
      ParseEventsCons(d, p, es[0], next, Batch(es[1..], true));
      assert [es[0]] + es[1..] == es;
    } else {
      assert |d[p..]| == 0;
    }
  }

  /** A frame that grows by one pushed event is the frame of one more event. */
  lemma {:induction false} FrameSnoc(es: seq<Event>, e: Event)
    ensures EncodeFrame(es + [e]) == EncodeFrame(es) + EncodeTagged(e)
    decreases |es|
  {
    if es == [] {
      assert [] + [e] == [e];
    } else {
      assert (es + [e])[1..] == es[1..] + [e];
      FrameSnoc(es[1..], e);
    }
  }

  method WriteEvent(s: OStream, e: Event)
    requires s.pos <= |s.buffer.data|
    modifies s, s.buffer
    ensures s.buffer.Valid()
    ensures s.buffer.data == Inserted(old(s.buffer.data), EncodeEvent(e), old(s.pos))
    ensures s.pos == old(s.pos) + |EncodeEvent(e)|
  {
    ghost var d0, p0 := s.buffer.data, s.pos;
    WriteGuid(s, e.guid);
    if e.RemoveObject? {
      return;
    }
    ghost var d1, p1 := s.buffer.data, s.pos;
    var a, b := EncodeGuid(e.guid), EncodeString(if e.CreateObject? then e.className else e.functionName);
    WriteString(s, if e.CreateObject? then e.className else e.functionName);
    InsertedTwice(d0, a, b, p0);
    ghost var f: seq<byte>;
    if e.CreateObject? {
      f := EncodeGuid(e.owner);
      WriteGuid(s, e.owner);
    } else {
      f := EncodeSized(e.parameters);
      WriteSized(s, e.parameters);
    }
    InsertedTwice(d0, a + b, f, p0);
    assert EncodeEvent(e) == a + b + f;
  }

  method ReadEvent(s: IStream, tag: byte) returns (e: Event)
    requires tag < EVENT_MAX_VALUE && DecodeEvent(tag, s.buffer.data, s.pos).Some?
    modifies s
    ensures DecodeEvent(tag, s.buffer.data, old(s.pos)) == Some(Parsed(e, s.pos))
  {
    var g := ReadGuid(s);
    if tag == REMOVE_OBJECT {
      return RemoveObject(g);
    }
    var name := ReadString(s);
    if tag == CREATE_OBJECT {
      var o := ReadGuid(s);
      e := CreateObject(g, name, o);
    } else {
      var ps := ReadSized(s);
      e := ExecFunctionRemote(g, name, ps);
    }
  }
}
