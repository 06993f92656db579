/**
 * The fixed-layout codecs of NetworkTypes: GUID (4 x uint32), Vec3f (3 x 32-bit words),
 * FHeader (5 x uint32), std::string (uint32 size counting the NUL, then the bytes and the
 * NUL) and std::vector of an integral type (uint32 byte length, then the raw elements).
 *
 * Each codec is a pure encoder, a pure positional decoder that yields None exactly where
 * the code would read outside the buffer or otherwise have undefined behaviour, and the
 * stream methods that the code runs, proved against the pure pair.
 */
module NetTypes {
  import opened Options
  import opened Bytes
  import opened Buffers
  import opened Streams

  /** The bytes of a C++ std::string (`sizeof(char) == sizeof(uint8_t)`). */
  type Name = seq<byte>

  // ---------------------------------------------------------------- windows

  /** `FIStream::Read(n)` at `p`: the next `n` bytes, or None when past the end. */
  function DecodeBytes(d: seq<byte>, p: nat, n: nat): Option<Parsed<seq<byte>>>
  {
    if p + n <= |d| then Some(Parsed(d[p..p + n], p + n)) else None
  }

  function DecodeByte(d: seq<byte>, p: nat): Option<Parsed<byte>>
  {
    if p < |d| then Some(Parsed(d[p], p + 1)) else None
  }

  function DecodeU32(d: seq<byte>, p: nat): Option<Parsed<u32>>
  {
    Pow256Four();
    if p + 4 <= |d| then Some(Parsed(LeValue(d[p..p + 4]), p + 4)) else None
  }

  /** A window holding `a + b` holds `a` and then `b`. */
  lemma WindowSplit(d: seq<byte>, p: nat, a: seq<byte>, b: seq<byte>)
    requires p + |a| + |b| <= |d| && d[p..p + |a| + |b|] == a + b
    ensures d[p..p + |a|] == a
    ensures d[p + |a|..p + |a| + |b|] == b
  {
    assert d[p..p + |a|] == d[p..p + |a| + |b|][..|a|];
    assert d[p + |a|..p + |a| + |b|] == d[p..p + |a| + |b|][|a|..];
  }

  /** The same split, with the boundary and the end of the window named. */
  lemma WindowSplitAt(d: seq<byte>, p: nat, a: seq<byte>, b: seq<byte>, mid: nat, stop: nat)
    requires mid == p + |a| && stop == mid + |b| <= |d| && d[p..stop] == a + b
    ensures d[p..mid] == a && d[mid..stop] == b
  {
    assert d[p..mid] == d[p..stop][..|a|];
    assert d[mid..stop] == d[p..stop][|a|..];
  }

  lemma U32At(d: seq<byte>, p: nat, x: u32)
    requires p + 4 <= |d| && d[p..p + 4] == Le32(x)
    ensures DecodeU32(d, p) == Some(Parsed(x, p + 4))
  {
  }

  // ---------------------------------------------------------------- GUID

  datatype Guid = Guid(a: u32, b: u32, c: u32, d: u32)

  /** The default-constructed FGuid. */
  const DefaultGuid: Guid := Guid(0, 0, 0, 0)

  /** `operator==`: all four components agree. */
  function GuidEq(x: Guid, y: Guid): (r: bool)
    ensures r <==> x == y
  {
    x.a == y.a && x.b == y.b && x.c == y.c && x.d == y.d
  }

  /** `operator!=`: some component differs; the exact negation of `==`. */
  function GuidNe(x: Guid, y: Guid): (r: bool)
    ensures r <==> !GuidEq(x, y)
    ensures r <==> x != y
  {
    x.a != y.a || x.b != y.b || x.c != y.c || x.d != y.d
  }

  /** A `std::find_if` over a list by GUID: the first position holding `g`. */
  function IndexOf(gs: seq<Guid>, g: Guid): (r: Option<nat>)
    ensures r.Some? <==> g in gs
    ensures r.Some? ==> r.value < |gs| && gs[r.value] == g && g !in gs[..r.value]
  {
    if gs == [] then None
    else if gs[0] == g then Some(0)
    else
      var r := IndexOf(gs[1..], g);
      assert forall i :: 1 <= i < |gs| ==> gs[i] == gs[1..][i - 1];
      if r.None? then None
      else
        assert gs[..r.value + 1] == [gs[0]] + gs[1..][..r.value];
        Some(r.value + 1)
  }

  function EncodeGuid(g: Guid): (r: seq<byte>)
    ensures |r| == 16
  {
    Le32(g.a) + Le32(g.b) + Le32(g.c) + Le32(g.d)
  }

  function DecodeGuid(d: seq<byte>, p: nat): (r: Option<Parsed<Guid>>)
    ensures r.Some? <==> p + 16 <= |d|
    ensures r.Some? ==> r.value.next == p + 16
  {
    var a :- DecodeU32(d, p);
    var b :- DecodeU32(d, a.next);
    var c :- DecodeU32(d, b.next);
    var e :- DecodeU32(d, c.next);
    Some(Parsed(Guid(a.value, b.value, c.value, e.value), e.next))
  }

  /** A GUID decodes from wherever its 16 encoded bytes sit, whatever surrounds them. */
  lemma GuidRoundTrip(d: seq<byte>, p: nat, g: Guid)
    requires p + 16 <= |d| && d[p..p + 16] == EncodeGuid(g)
    ensures DecodeGuid(d, p) == Some(Parsed(g, p + 16))
  {
    WindowSplit(d, p, Le32(g.a) + Le32(g.b) + Le32(g.c), Le32(g.d));
    WindowSplit(d, p, Le32(g.a) + Le32(g.b), Le32(g.c));
    WindowSplit(d, p, Le32(g.a), Le32(g.b));
  }

  /** Any four bytes are the uint32 field of the value they decode to. */
  lemma U32Bytes(d: seq<byte>, p: nat, next: nat)
    requires next == p + 4 <= |d|
    ensures DecodeU32(d, p) == Some(Parsed(LeValue(d[p..next]), next))
    ensures Le32(LeValue(d[p..next])) == d[p..next]
  {
    Pow256Four();
    LeBytesOfValue(d[p..next]);
  }

  /** Any 16 bytes are the encoding of the GUID they decode to. */
  lemma GuidDecodeEncode(d: seq<byte>, p: nat)
    requires p + 16 <= |d|
    ensures DecodeGuid(d, p).Some? && EncodeGuid(DecodeGuid(d, p).value.value) == d[p..p + 16]
  {
    var p1, p2, p3, p4 := p + 4, p + 8, p + 12, p + 16;
    U32Bytes(d, p, p1);
    U32Bytes(d, p1, p2);
    U32Bytes(d, p2, p3);
    U32Bytes(d, p3, p4);
    var g := Guid(LeValue(d[p..p1]), LeValue(d[p1..p2]), LeValue(d[p2..p3]), LeValue(d[p3..p4]));
    assert DecodeGuid(d, p) == Some(Parsed(g, p4));
    assert EncodeGuid(g) == d[p..p1] + d[p1..p2] + d[p2..p3] + d[p3..p4];
    SliceJoin4(d, p, p1, p2, p3, p4);
  }

  /** Four adjacent windows make up the window they span. */
  lemma SliceJoin4(d: seq<byte>, p: nat, p1: nat, p2: nat, p3: nat, p4: nat)
    requires p <= p1 <= p2 <= p3 <= p4 <= |d|
    ensures d[p..p4] == d[p..p1] + d[p1..p2] + d[p2..p3] + d[p3..p4]
  {
    assert d[p..p2] == d[p..p1] + d[p1..p2];
    assert d[p..p3] == d[p..p2] + d[p2..p3];
    assert d[p..p4] == d[p..p3] + d[p3..p4];
  }

  method WriteGuid(s: OStream, g: Guid)
    requires s.pos <= |s.buffer.data|
    modifies s, s.buffer
    ensures s.buffer.Valid()
    ensures s.buffer.data == Inserted(old(s.buffer.data), EncodeGuid(g), old(s.pos))
    ensures s.pos == old(s.pos) + 16
  {
    ghost var d0, p0 := s.buffer.data, s.pos;
    s.WriteU32(g.a);
    s.WriteU32(g.b);
    InsertedTwice(d0, Le32(g.a), Le32(g.b), p0);
    s.WriteU32(g.c);
    InsertedTwice(d0, Le32(g.a) + Le32(g.b), Le32(g.c), p0);
    s.WriteU32(g.d);
    InsertedTwice(d0, Le32(g.a) + Le32(g.b) + Le32(g.c), Le32(g.d), p0);
  }

  method ReadGuid(s: IStream) returns (g: Guid)
    requires s.pos + 16 <= |s.buffer.data|
    modifies s
    ensures DecodeGuid(s.buffer.data, old(s.pos)) == Some(Parsed(g, s.pos))
  {
    var a := s.ReadU32();
    var b := s.ReadU32();
    var c := s.ReadU32();
    var e := s.ReadU32();
    g := Guid(a, b, c, e);
  }

  // ---------------------------------------------------------------- Vec3f

  /** Three 32-bit words; the floats are carried as their bit patterns. */
  datatype Vec3f = Vec3f(x: u32, y: u32, z: u32)

  function EncodeVec3f(v: Vec3f): (r: seq<byte>)
    ensures |r| == 12
  {
    Le32(v.x) + Le32(v.y) + Le32(v.z)
  }

  function DecodeVec3f(d: seq<byte>, p: nat): (r: Option<Parsed<Vec3f>>)
    ensures r.Some? <==> p + 12 <= |d|
    ensures r.Some? ==> r.value.next == p + 12
  {
    var x :- DecodeU32(d, p);
    var y :- DecodeU32(d, x.next);
    var z :- DecodeU32(d, y.next);
    Some(Parsed(Vec3f(x.value, y.value, z.value), z.next))
  }

  lemma Vec3fRoundTrip(d: seq<byte>, p: nat, v: Vec3f)
    requires p + 12 <= |d| && d[p..p + 12] == EncodeVec3f(v)
    ensures DecodeVec3f(d, p) == Some(Parsed(v, p + 12))
  {
    WindowSplit(d, p, Le32(v.x) + Le32(v.y), Le32(v.z));
    WindowSplit(d, p, Le32(v.x), Le32(v.y));
  }

  method WriteVec3f(s: OStream, v: Vec3f)
    requires s.pos <= |s.buffer.data|
    modifies s, s.buffer
    ensures s.buffer.Valid()
    ensures s.buffer.data == Inserted(old(s.buffer.data), EncodeVec3f(v), old(s.pos))
    ensures s.pos == old(s.pos) + 12
  {
    ghost var d0, p0 := s.buffer.data, s.pos;
    s.WriteU32(v.x);
    s.WriteU32(v.y);
    InsertedTwice(d0, Le32(v.x), Le32(v.y), p0);
    s.WriteU32(v.z);
    InsertedTwice(d0, Le32(v.x) + Le32(v.y), Le32(v.z), p0);
  }

  method ReadVec3f(s: IStream) returns (v: Vec3f)
    requires s.pos + 12 <= |s.buffer.data|
    modifies s
    ensures DecodeVec3f(s.buffer.data, old(s.pos)) == Some(Parsed(v, s.pos))
  {
    var x := s.ReadU32();
    var y := s.ReadU32();
    var z := s.ReadU32();
    v := Vec3f(x, y, z);
  }

  // ---------------------------------------------------------------- FHeader

  /** `uint32_t GUID[4]` followed by `uint32_t PacketSize`. */
  datatype Header = Header(guid0: u32, guid1: u32, guid2: u32, guid3: u32, packetSize: u32)

  function EncodeHeader(h: Header): (r: seq<byte>)
    ensures |r| == 20
  {
    Le32(h.guid0) + Le32(h.guid1) + Le32(h.guid2) + Le32(h.guid3) + Le32(h.packetSize)
  }

  function DecodeHeader(d: seq<byte>, p: nat): (r: Option<Parsed<Header>>)
    ensures r.Some? <==> p + 20 <= |d|
    ensures r.Some? ==> r.value.next == p + 20
  {
    var g0 :- DecodeU32(d, p);
    var g1 :- DecodeU32(d, g0.next);
    var g2 :- DecodeU32(d, g1.next);
    var g3 :- DecodeU32(d, g2.next);
    var size :- DecodeU32(d, g3.next);
    Some(Parsed(Header(g0.value, g1.value, g2.value, g3.value, size.value), size.next))
  }

  lemma HeaderRoundTrip(d: seq<byte>, p: nat, h: Header)
    requires p + 20 <= |d| && d[p..p + 20] == EncodeHeader(h)
    ensures DecodeHeader(d, p) == Some(Parsed(h, p + 20))
  {
    var w0, w1, w2, w3 := Le32(h.guid0), Le32(h.guid1), Le32(h.guid2), Le32(h.guid3);
    WindowSplit(d, p, w0 + w1 + w2 + w3, Le32(h.packetSize));
    WindowSplit(d, p, w0 + w1 + w2, w3);
    WindowSplit(d, p, w0 + w1, w2);
    WindowSplit(d, p, w0, w1);
  }

  method WriteHeader(s: OStream, h: Header)
    requires s.pos <= |s.buffer.data|
    modifies s, s.buffer
    ensures s.buffer.Valid()
    ensures s.buffer.data == Inserted(old(s.buffer.data), EncodeHeader(h), old(s.pos))
    ensures s.pos == old(s.pos) + 20
  {
    ghost var d0, p0 := s.buffer.data, s.pos;
    s.WriteU32(h.guid0);
    s.WriteU32(h.guid1);
    InsertedTwice(d0, Le32(h.guid0), Le32(h.guid1), p0);
    s.WriteU32(h.guid2);
    InsertedTwice(d0, Le32(h.guid0) + Le32(h.guid1), Le32(h.guid2), p0);
    s.WriteU32(h.guid3);
    InsertedTwice(d0, Le32(h.guid0) + Le32(h.guid1) + Le32(h.guid2), Le32(h.guid3), p0);
    s.WriteU32(h.packetSize);
    InsertedTwice(d0, Le32(h.guid0) + Le32(h.guid1) + Le32(h.guid2) + Le32(h.guid3), Le32(h.packetSize), p0);
  }

  method ReadHeader(s: IStream) returns (h: Header)
    requires s.pos + 20 <= |s.buffer.data|
    modifies s
    ensures DecodeHeader(s.buffer.data, old(s.pos)) == Some(Parsed(h, s.pos))
  {
    var g0 := s.ReadU32();
    var g1 := s.ReadU32();
    var g2 := s.ReadU32();
    var g3 := s.ReadU32();
    var size := s.ReadU32();
    h := Header(g0, g1, g2, g3, size);
  }

  // ---------------------------------------------------------------- std::string

  predicate NoNul(s: Name)
  {
    forall i :: 0 <= i < |s| ==> s[i] != 0
  }

  /**
   * `std::string(const char*)` over the buffer from index `i`: the bytes up to the first
   * NUL. None when no NUL follows before the end of the buffer (the scan would run off it).
   */
  function CString(d: seq<byte>, i: nat): Option<Name>
    decreases |d| - i
  {
    if i >= |d| then None
    else if d[i] == 0 then Some([])
    else
      var rest :- CString(d, i + 1);
      Some([d[i]] + rest)
  }

  /** What the scan returns is the NUL-free run of the buffer from `i` up to a NUL. */
  lemma {:induction false} CStringRun(d: seq<byte>, i: nat)
    requires CString(d, i).Some?
    ensures var s := CString(d, i).value;
      NoNul(s) && i + |s| < |d| && d[i..i + |s|] == s && d[i + |s|] == 0
    decreases |d| - i
  {
    if d[i] != 0 {
      CStringRun(d, i + 1);
    }
  }

  /** A NUL-free run followed by a NUL is read back as exactly that run. */
  lemma {:induction false} CStringAt(d: seq<byte>, i: nat, s: Name)
    requires NoNul(s) && i + |s| < |d| && d[i..i + |s|] == s && d[i + |s|] == 0
    ensures CString(d, i) == Some(s)
    decreases |s|
  {
    if s != [] {
      assert d[i] == s[0] != 0;
      assert d[i + 1..i + 1 + |s[1..]|] == s[1..];
      CStringAt(d, i + 1, s[1..]);
      assert [d[i]] + s[1..] == s;
    }
  }

  /** `operator<<(std::string)`: uint32 (size + 1), then size + 1 bytes of the NUL-terminated text. */
  function EncodeString(s: Name): (r: seq<byte>)
    ensures |r| == 4 + Trunc32(|s| + 1)
    ensures |s| + 1 < U32_LIMIT ==> r == Le32(|s| + 1) + s + [0]
  {
    var n := Trunc32(|s| + 1);
    Le32(n) + (s + [0])[..n]
  }

  /**
   * `operator>>(std::string)`: reads the uint32 size, moves past that many bytes, and builds
   * the string from the first of them up to the first NUL.
   */
  function DecodeString(d: seq<byte>, p: nat): Option<Parsed<Name>>
  {
    var size :- DecodeU32(d, p);
    if size.next + size.value > |d| then None
    else
      var s :- CString(d, size.next);
      Some(Parsed(s, size.next + size.value))
  }

  /** A string without NUL bytes decodes to itself and consumes exactly its encoding. */
  lemma StringRoundTrip(d: seq<byte>, p: nat, s: Name)
    requires NoNul(s) && |s| + 1 < U32_LIMIT
    requires p + |EncodeString(s)| <= |d| && d[p..p + |EncodeString(s)|] == EncodeString(s)
    ensures DecodeString(d, p) == Some(Parsed(s, p + |EncodeString(s)|))
  {
    WindowSplit(d, p, Le32(|s| + 1), s + [0]);
    WindowSplit(d, p + 4, s, [0]);
    CStringAt(d, p + 4, s);
  }

  /** A string with a NUL at `k` (and none before it) decodes to its first `k` bytes; the cursor still moves past the whole encoding. */
  lemma StringWithNulTruncates(d: seq<byte>, p: nat, s: Name, k: nat)
    requires k < |s| && s[k] == 0 && NoNul(s[..k]) && |s| + 1 < U32_LIMIT
    requires p + |EncodeString(s)| <= |d| && d[p..p + |EncodeString(s)|] == EncodeString(s)
    ensures DecodeString(d, p) == Some(Parsed(s[..k], p + |EncodeString(s)|))
  {
    WindowSplit(d, p, Le32(|s| + 1), s + [0]);
    assert d[p + 4..p + 4 + k] == d[p + 4..p + 4 + |s| + 1][..k] == (s + [0])[..k] == s[..k];
    CStringAt(d, p + 4, s[..k]);
  }

  /** The `std::string(const char*)` scan: advances to the first NUL from `i`. */
  method CStringFrom(b: Buffer, i: nat) returns (s: Name)
    requires CString(b.data, i).Some?
    ensures CString(b.data, i) == Some(s)
  {
    var j := i;
    assert b.data[i..j] + CString(b.data, j).value == CString(b.data, j).value;
    while b.data[j] != 0
      invariant i <= j && CString(b.data, j).Some?
      invariant CString(b.data, i) == Some(b.data[i..j] + CString(b.data, j).value)
      decreases |b.data| - j
    {
      assert CString(b.data, j).value == [b.data[j]] + CString(b.data, j + 1).value;
      assert b.data[i..j + 1] == b.data[i..j] + [b.data[j]];
      assert b.data[i..j] + CString(b.data, j).value == b.data[i..j + 1] + CString(b.data, j + 1).value;
      j := j + 1;
    }
    assert CString(b.data, j).value == [];
    assert b.data[i..j] + [] == b.data[i..j];
    s := b.data[i..j];
  }

  method WriteString(s: OStream, str: Name)
    requires s.pos <= |s.buffer.data|
    modifies s, s.buffer
    ensures s.buffer.Valid()
    ensures s.buffer.data == Inserted(old(s.buffer.data), EncodeString(str), old(s.pos))
    ensures s.pos == old(s.pos) + |EncodeString(str)|
  {
    ghost var d0, p0 := s.buffer.data, s.pos;
    var size := Trunc32(|str| + 1);
    s.WriteU32(size);
    s.Write((str + [0])[..size]);
    InsertedTwice(d0, Le32(size), (str + [0])[..size], p0);
  }

  method ReadString(s: IStream) returns (str: Name)
    requires DecodeString(s.buffer.data, s.pos).Some?
    modifies s
    ensures DecodeString(s.buffer.data, old(s.pos)) == Some(Parsed(str, s.pos))
  {
    var size := s.ReadU32();
    var start := s.pos;
    var _ := s.Read(size);
    str := CStringFrom(s.buffer, start);
  }

  // ---------------------------------------------------------------- std::vector<T>, T integral

  /** The integral element types that have a property type tag. */
  datatype IntKind = Int8 | UInt8 | Int16 | UInt16 | Int32 | UInt32

  /** `sizeof(T)`. */
  function Width(k: IntKind): (w: nat)
    ensures w > 0
  {
    match k
    case Int8 => 1
    case UInt8 => 1
    case Int16 => 2
    case UInt16 => 2
    case Int32 => 4
    case UInt32 => 4
  }

  predicate IsSigned(k: IntKind)
  {
    k == Int8 || k == Int16 || k == Int32
  }

  /** The values a `T` of kind `k` can hold. */
  predicate InRange(k: IntKind, n: int)
  {
    if IsSigned(k) then -((Pow256(Width(k)) / 2) as int) <= n < Pow256(Width(k)) / 2
    else 0 <= n < Pow256(Width(k))
  }

  /** The `sizeof(T)` bytes of a `T` (two's complement for the signed kinds). */
  function IntBytes(k: IntKind, n: int): (r: seq<byte>)
    requires InRange(k, n)
    ensures |r| == Width(k)
  {
    if IsSigned(k) then LeBytes(Width(k), ToUnsigned(Width(k), n)) else LeBytes(Width(k), n)
  }

  /** The `T` whose bytes are `bs`. */
  function IntOfBytes(k: IntKind, bs: seq<byte>): (r: int)
    requires |bs| == Width(k)
    ensures InRange(k, r)
  {
    if IsSigned(k) then ToSigned(Width(k), LeValue(bs)) else LeValue(bs)
  }

  lemma IntRoundTrip(k: IntKind, n: int)
    requires InRange(k, n)
    ensures IntOfBytes(k, IntBytes(k, n)) == n
  {
    if IsSigned(k) {
      LeValueOfBytes(Width(k), ToUnsigned(Width(k), n));
      SignedRoundTrip(Width(k), n);
    } else {
      LeValueOfBytes(Width(k), n);
    }
  }

  predicate AllInRange(k: IntKind, items: seq<int>)
  {
    forall i :: 0 <= i < |items| ==> InRange(k, items[i])
  }

  /** The raw element bytes `vector.data()` points at. */
  function RawInts(k: IntKind, items: seq<int>): (r: seq<byte>)
    requires AllInRange(k, items)
    ensures |r| == |items| * Width(k)
  {
    if items == [] then []
    else IntBytes(k, items[0]) + RawInts(k, items[1..])
  }

  /** The elements held by the whole `T`s at the front of `raw`, one per `sizeof(T)` bytes. */
  function IntsOfRaw(k: IntKind, raw: seq<byte>): (r: seq<int>)
    ensures AllInRange(k, r)
    decreases |raw|
  {
    if |raw| < Width(k) then []
    else [IntOfBytes(k, raw[..Width(k)])] + IntsOfRaw(k, raw[Width(k)..])
  }

  lemma {:induction false} IntsOfRawInts(k: IntKind, items: seq<int>)
    requires AllInRange(k, items)
    ensures IntsOfRaw(k, RawInts(k, items)) == items
  {
    if items != [] {
      var raw := RawInts(k, items);
      assert raw[..Width(k)] == IntBytes(k, items[0]);
      assert raw[Width(k)..] == RawInts(k, items[1..]);
      IntRoundTrip(k, items[0]);
      IntsOfRawInts(k, items[1..]);
    }
  }

  /** `operator<<(std::vector<T>)`: uint32 (count * sizeof(T)), then that many raw bytes. */
  function EncodeVector(k: IntKind, items: seq<int>): (r: seq<byte>)
    requires AllInRange(k, items)
    ensures |r| == 4 + Trunc32(|items| * Width(k))
    ensures |items| * Width(k) < U32_LIMIT ==> r == Le32(|items| * Width(k)) + RawInts(k, items)
  {
    var raw := RawInts(k, items);
    var n := Trunc32(|raw|);
    Le32(n) + raw[..n]
  }

  /**
   * `operator>>(std::vector<T>)`: reads the uint32 byte length, resizes the vector to
   * length / sizeof(T) elements and copies length bytes into it. A length that is not a
   * multiple of sizeof(T) makes the copy overflow the vector: None, like a read past the end.
   */
  function DecodeVector(k: IntKind, d: seq<byte>, p: nat): Option<Parsed<seq<int>>>
  {
    var size :- DecodeU32(d, p);
    if size.next + size.value > |d| || size.value % Width(k) != 0 then None
    else Some(Parsed(IntsOfRaw(k, d[size.next..size.next + size.value]), size.next + size.value))
  }

  /** A vector decodes to itself and consumes exactly its encoding. */
  lemma VectorRoundTrip(d: seq<byte>, p: nat, k: IntKind, items: seq<int>)
    requires AllInRange(k, items) && |items| * Width(k) < U32_LIMIT
    requires p + |EncodeVector(k, items)| <= |d| && d[p..p + |EncodeVector(k, items)|] == EncodeVector(k, items)
    ensures DecodeVector(k, d, p) == Some(Parsed(items, p + |EncodeVector(k, items)|))
  {
    var raw := RawInts(k, items);
    var start, stop := p + 4, p + |EncodeVector(k, items)|;
    VectorWindowSplit(d, p, k, items, start, stop);
    RawIntsWhole(k, items);
    DecodeVectorUnfold(k, d, p, |raw|, start, stop);
  }

  /** The element bytes of a vector are whole elements, and read back as its elements. */
  lemma RawIntsWhole(k: IntKind, items: seq<int>)
    requires AllInRange(k, items)
    ensures |RawInts(k, items)| % Width(k) == 0 && IntsOfRaw(k, RawInts(k, items)) == items
  {
    WholeElements(k, |items|);
    IntsOfRawInts(k, items);
  }

  /** The size field of an encoded vector, and the element bytes it announces. */
  lemma VectorWindowSplit(d: seq<byte>, p: nat, k: IntKind, items: seq<int>, start: nat, stop: nat)
    requires AllInRange(k, items) && |items| * Width(k) < U32_LIMIT && start == p + 4
    requires stop == p + |EncodeVector(k, items)| <= |d| && d[p..stop] == EncodeVector(k, items)
    ensures DecodeU32(d, p) == Some(Parsed(|RawInts(k, items)|, start))
    ensures stop == start + |RawInts(k, items)| && d[start..stop] == RawInts(k, items)
  {
    var raw := RawInts(k, items);
    assert EncodeVector(k, items) == Le32(|raw|) + raw;
    WindowSplitAt(d, p, Le32(|raw|), raw, start, stop);
    U32At(d, p, |raw|);
  }

  /** The vector decoder in terms of the window its size field announces. */
  lemma DecodeVectorUnfold(k: IntKind, d: seq<byte>, p: nat, n: u32, start: nat, stop: nat)
    requires DecodeU32(d, p) == Some(Parsed(n, start)) && stop == start + n
    ensures DecodeVector(k, d, p)
         == if stop > |d| || n % Width(k) != 0 then None else Some(Parsed(IntsOfRaw(k, d[start..stop]), stop))
  {
  }

  /** `count * sizeof(T)` bytes hold exactly `count` elements. */
  lemma WholeElements(k: IntKind, count: nat)
    ensures (count * Width(k)) % Width(k) == 0 && (count * Width(k)) / Width(k) == count
  {
    match k
    case Int8 =>
    case UInt8 =>
    case Int16 =>
    case UInt16 =>
    case Int32 =>
    case UInt32 =>
  }

  method WriteVector(s: OStream, k: IntKind, items: seq<int>)
    requires AllInRange(k, items)
    requires s.pos <= |s.buffer.data|
    modifies s, s.buffer
    ensures s.buffer.Valid()
    ensures s.buffer.data == Inserted(old(s.buffer.data), EncodeVector(k, items), old(s.pos))
    ensures s.pos == old(s.pos) + |EncodeVector(k, items)|
  {
    ghost var d0, p0 := s.buffer.data, s.pos;
    var raw := RawInts(k, items);
    var size := Trunc32(|items| * Width(k));
    s.WriteU32(size);
    s.Write(raw[..size]);
    InsertedTwice(d0, Le32(size), raw[..size], p0);
  }

  method ReadVector(s: IStream, k: IntKind) returns (items: seq<int>)
    requires DecodeVector(k, s.buffer.data, s.pos).Some?
    modifies s
    ensures DecodeVector(k, s.buffer.data, old(s.pos)) == Some(Parsed(items, s.pos))
  {
    var size := s.ReadU32();
    var raw := s.Read(size);
    items := IntsOfRaw(k, raw);
  }
  // ---------------------------------------------------------------- uint32 size, then raw bytes

  /**
   * `stream << size; stream.Write(data, size)` where `size` is the uint32 the byte count was
   * assigned to: a run of 2^32 bytes or more carries only the truncated count of them.
   */
  function EncodeSized(b: seq<byte>): (r: seq<byte>)
    ensures |r| == 4 + Trunc32(|b|)
    ensures |b| < U32_LIMIT ==> r == Le32(|b|) + b
  {
    var n := Trunc32(|b|);
    Le32(n) + b[..n]
  }

  /** `stream >> size; data = stream.Read(size)`: None when the run would end past the buffer. */
  function DecodeSized(d: seq<byte>, p: nat): (r: Option<Parsed<seq<byte>>>)
    ensures r.Some? ==> r.value.next == p + 4 + |r.value.value| <= |d|
  {
    var size :- DecodeU32(d, p);
    DecodeBytes(d, size.next, size.value)
  }

  /** A run shorter than 2^32 bytes is read back whole, and the cursor ends just after it. */
  lemma SizedRoundTrip(d: seq<byte>, p: nat, b: seq<byte>, next: nat)
    requires |b| < U32_LIMIT && next == p + |EncodeSized(b)| <= |d| && d[p..next] == EncodeSized(b)
    ensures DecodeSized(d, p) == Some(Parsed(b, next))
  {
    WindowSplitAt(d, p, Le32(|b|), b, p + 4, next);
    U32At(d, p, |b|);
  }

  method WriteSized(s: OStream, b: seq<byte>)
    requires s.pos <= |s.buffer.data|
    modifies s, s.buffer
    ensures s.buffer.Valid()
    ensures s.buffer.data == Inserted(old(s.buffer.data), EncodeSized(b), old(s.pos))
    ensures s.pos == old(s.pos) + |EncodeSized(b)|
  {
    ghost var d0, p0 := s.buffer.data, s.pos;
    var size := Trunc32(|b|);
    s.WriteU32(size);
    s.Write(b[..size]);
    InsertedTwice(d0, Le32(size), b[..size], p0);
  }

  method ReadSized(s: IStream) returns (b: seq<byte>)
    requires DecodeSized(s.buffer.data, s.pos).Some?
    modifies s
    ensures DecodeSized(s.buffer.data, old(s.pos)) == Some(Parsed(b, s.pos))
  {
    var size := s.ReadU32();
    b := s.Read(size);
  }

  /** A tag byte, a body and the rest at the front of the buffer from `p`: the windows they occupy. */
  lemma TaggedFront(d: seq<byte>, p: nat, t: byte, body: seq<byte>, rest: seq<byte>, next: nat)
    requires p <= |d| && d[p..] == [t] + body + rest && next == p + 1 + |body|
    ensures p < |d| && d[p] == t
    ensures next <= |d| && d[p + 1..next] == body && d[next..] == rest
  {
    var after := d[p + 1..];
    assert d[p] == d[p..][0];
    assert after == d[p..][1..];
    assert after == body + rest;
    assert d[p + 1..next] == after[..|body|];
    assert d[next..] == after[|body|..];
  }

  /** What a successful string decode consumes lies inside the buffer. */
  lemma StringNext(d: seq<byte>, p: nat)
    requires DecodeString(d, p).Some?
    ensures p + 4 <= DecodeString(d, p).value.next <= |d|
  {
  }
}
