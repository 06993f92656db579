/**
 * Replicated properties: the twelve property type tags, the value a property refers to,
 * and the payload codec `FPropertyTemplate<T>::operator>>` / `operator<<` run on it.
 */
module Properties {
  import opened Options
  import opened Bytes
  import opened Buffers
  import opened Streams
  import opened NetTypes

  /** `FProperty::EType`. */
  datatype PropertyType = IntType(kind: IntKind) | FloatType | DoubleType | StringType
                        | VectorType | Vec3fType | GuidType

  /** The `uint8_t` value of each `EType` enumerator. */
  function Tag(t: PropertyType): (b: byte)
    ensures b <= 11
  {
    match t
    case IntType(Int8) => 0
    case IntType(UInt8) => 1
    case IntType(Int16) => 2
    case IntType(UInt16) => 3
    case IntType(Int32) => 4
    case IntType(UInt32) => 5
    case FloatType => 6
    case DoubleType => 7
    case StringType => 8
    case VectorType => 9
    case Vec3fType => 10
    case GuidType => 11
  }

  /** Different types have different tags, so comparing tags compares types. */
  lemma TagInjective(a: PropertyType, b: PropertyType)
    ensures Tag(a) == Tag(b) <==> a == b
  {
  }

  /**
   * The value a property refers to. Floating point values are carried as their bit
   * patterns, since the library only copies them.
   */
  datatype Value =
    | Integral(kind: IntKind, n: int)
    | Float(fbits: u32)
    | Double(dbits: u64)
    | Str(s: Name)
    | Vector(elem: IntKind, items: seq<int>)
    | Vec3(v: Vec3f)
    | Id(g: Guid)

  /** `FProperty::GetType()`: `FTypeToPropertyType<T>::Type()` of the target's type. */
  function TypeOf(x: Value): PropertyType
  {
    match x
    case Integral(k, _) => IntType(k)
    case Float(_) => FloatType
    case Double(_) => DoubleType
    case Str(_) => StringType
    case Vector(_, _) => VectorType
    case Vec3(_) => Vec3fType
    case Id(_) => GuidType
  }

  /** `FVectorProperty::GetElementType()`. */
  function ElementTypeOf(x: Value): (t: PropertyType)
    requires x.Vector?
    ensures t.IntType? && Tag(t) <= 5
  {
    IntType(x.elem)
  }

  /** Two properties of the same C++ type: same tag and, for vectors, same element tag. */
  predicate SameType(a: Value, b: Value)
  {
    TypeOf(a) == TypeOf(b) && (a.Vector? ==> a.elem == b.elem)
  }

  /** The value fits the C++ type it stands for. */
  predicate WellTyped(x: Value)
  {
    match x
    case Integral(k, n) => InRange(k, n)
    case Vector(k, items) => AllInRange(k, items)
    case _ => true
  }

  /** A value whose encoding the decoder reads back as itself: no NUL inside a string and no length field that wraps. */
  predicate Transmissible(x: Value)
  {
    WellTyped(x) &&
    match x
    case Str(s) => NoNul(s) && |s| + 1 < U32_LIMIT
    case Vector(k, items) => |items| * Width(k) < U32_LIMIT
    case _ => true
  }

  /** `FPropertyTemplate<T>::operator>>`: `stream << _target`. */
  function EncodePayload(x: Value): seq<byte>
    requires WellTyped(x)
  {
    match x
    case Integral(k, n) => IntBytes(k, n)
    case Float(b) => Le32(b)
    case Double(b) => Pow256Eight(); LeBytes(8, b)
    case Str(s) => EncodeString(s)
    case Vector(k, items) => EncodeVector(k, items)
    case Vec3(v) => EncodeVec3f(v)
    case Id(g) => EncodeGuid(g)
  }

  /** `FPropertyTemplate<T>::operator<<`: `stream >> _target`, for the type of `proto`. */
  function DecodePayload(proto: Value, d: seq<byte>, p: nat): (r: Option<Parsed<Value>>)
    ensures r.Some? ==> SameType(r.value.value, proto) && WellTyped(r.value.value)
    ensures r.Some? ==> p <= r.value.next <= |d|
  {
    match proto
    case Integral(k, _) =>
      var bs :- DecodeBytes(d, p, Width(k));
      Some(Parsed(Integral(k, IntOfBytes(k, bs.value)), bs.next))
    case Float(_) =>
      var w :- DecodeU32(d, p);
      Some(Parsed(Float(w.value), w.next))
    case Double(_) =>
      var bs :- DecodeBytes(d, p, 8);
      Pow256Eight();
      Some(Parsed(Double(LeValue(bs.value)), bs.next))
    case Str(_) =>
      var s :- DecodeString(d, p);
      Some(Parsed(Str(s.value), s.next))
    case Vector(k, _) =>
      var items :- DecodeVector(k, d, p);
      Some(Parsed(Vector(k, items.value), items.next))
    case Vec3(_) =>
      var v :- DecodeVec3f(d, p);
      Some(Parsed(Vec3(v.value), v.next))
    case Id(_) =>
      var g :- DecodeGuid(d, p);
      Some(Parsed(Id(g.value), g.next))
  }

  // One lemma per kind of value, each stated in the terms of `PayloadRoundTrip`.

  lemma IntegralRoundTrip(proto: Value, x: Value, d: seq<byte>, p: nat)
    requires x.Integral? && SameType(proto, x) && Transmissible(x)
    requires p + |EncodePayload(x)| <= |d| && d[p..p + |EncodePayload(x)|] == EncodePayload(x)
    ensures DecodePayload(proto, d, p) == Some(Parsed(x, p + |EncodePayload(x)|))
  {
    assert proto.Integral? && proto.kind == x.kind;
    IntRoundTrip(x.kind, x.n);
  }

  lemma FloatRoundTrip(proto: Value, x: Value, d: seq<byte>, p: nat)
    requires x.Float? && SameType(proto, x)
    requires p + |EncodePayload(x)| <= |d| && d[p..p + |EncodePayload(x)|] == EncodePayload(x)
    ensures DecodePayload(proto, d, p) == Some(Parsed(x, p + |EncodePayload(x)|))
  {
    assert proto.Float?;
  }

  lemma DoubleRoundTrip(proto: Value, x: Value, d: seq<byte>, p: nat)
    requires x.Double? && SameType(proto, x)
    requires p + |EncodePayload(x)| <= |d| && d[p..p + |EncodePayload(x)|] == EncodePayload(x)
    ensures DecodePayload(proto, d, p) == Some(Parsed(x, p + |EncodePayload(x)|))
  {
    assert proto.Double?;
    Pow256Eight();
    LeValueOfBytes(8, x.dbits);
  }

  lemma StrRoundTrip(proto: Value, x: Value, d: seq<byte>, p: nat)
    requires x.Str? && SameType(proto, x) && Transmissible(x)
    requires p + |EncodePayload(x)| <= |d| && d[p..p + |EncodePayload(x)|] == EncodePayload(x)
    ensures DecodePayload(proto, d, p) == Some(Parsed(x, p + |EncodePayload(x)|))
  {
    assert proto.Str?;
    StringRoundTrip(d, p, x.s);
  }

  lemma VectorPayloadRoundTrip(proto: Value, x: Value, d: seq<byte>, p: nat)
    requires x.Vector? && SameType(proto, x) && Transmissible(x)
    requires p + |EncodePayload(x)| <= |d| && d[p..p + |EncodePayload(x)|] == EncodePayload(x)
    ensures DecodePayload(proto, d, p) == Some(Parsed(x, p + |EncodePayload(x)|))
  {
    assert proto.Vector? && proto.elem == x.elem;
    VectorRoundTrip(d, p, x.elem, x.items);
  }

  lemma Vec3PayloadRoundTrip(proto: Value, x: Value, d: seq<byte>, p: nat)
    requires x.Vec3? && SameType(proto, x)
    requires p + |EncodePayload(x)| <= |d| && d[p..p + |EncodePayload(x)|] == EncodePayload(x)
    ensures DecodePayload(proto, d, p) == Some(Parsed(x, p + |EncodePayload(x)|))
  {
    assert proto.Vec3?;
    Vec3fRoundTrip(d, p, x.v);
  }

  lemma IdPayloadRoundTrip(proto: Value, x: Value, d: seq<byte>, p: nat)
    requires x.Id? && SameType(proto, x)
    requires p + |EncodePayload(x)| <= |d| && d[p..p + |EncodePayload(x)|] == EncodePayload(x)
    ensures DecodePayload(proto, d, p) == Some(Parsed(x, p + |EncodePayload(x)|))
  {
    assert proto.Id?;
    GuidRoundTrip(d, p, x.g);
  }

  /**
   * A property of the same type decodes the encoding of a value back to that value and
   * consumes exactly the encoding.
   */
  lemma PayloadRoundTrip(proto: Value, x: Value, d: seq<byte>, p: nat)
    requires SameType(proto, x) && Transmissible(x)
    requires p + |EncodePayload(x)| <= |d| && d[p..p + |EncodePayload(x)|] == EncodePayload(x)
    ensures DecodePayload(proto, d, p) == Some(Parsed(x, p + |EncodePayload(x)|))
  {
    if x.Integral? {
      IntegralRoundTrip(proto, x, d, p);
    } else if x.Float? {
      FloatRoundTrip(proto, x, d, p);
    } else if x.Double? {
      DoubleRoundTrip(proto, x, d, p);
    } else if x.Str? {
      StrRoundTrip(proto, x, d, p);
    } else if x.Vector? {
      VectorPayloadRoundTrip(proto, x, d, p);
    } else if x.Vec3? {
      Vec3PayloadRoundTrip(proto, x, d, p);
    } else {
      IdPayloadRoundTrip(proto, x, d, p);
    }
  }

  /** The same as `PayloadRoundTrip` for a reader at the position the writer started from. */
  lemma PayloadWriteThenRead(proto: Value, x: Value, data: seq<byte>, p: nat)
    requires SameType(proto, x) && Transmissible(x) && p <= |data|
    ensures DecodePayload(proto, Inserted(data, EncodePayload(x), p), p) == Some(Parsed(x, p + |EncodePayload(x)|))
  {
    PayloadRoundTrip(proto, x, Inserted(data, EncodePayload(x), p), p);
  }

  method WritePayload(s: OStream, x: Value)
    requires WellTyped(x) && s.pos <= |s.buffer.data|
    modifies s, s.buffer
    ensures s.buffer.Valid()
    ensures s.buffer.data == Inserted(old(s.buffer.data), EncodePayload(x), old(s.pos))
    ensures s.pos == old(s.pos) + |EncodePayload(x)|
  {
    match x
    case Integral(k, n) =>
      var u := if IsSigned(k) then ToUnsigned(Width(k), n) else n;
      s.WriteWord(Width(k), u);
    case Float(b) => s.WriteU32(b);
    case Double(b) => Pow256Eight(); s.WriteWord(8, b);
    case Str(str) => WriteString(s, str);
    case Vector(k, items) => WriteVector(s, k, items);
    case Vec3(v) => WriteVec3f(s, v);
    case Id(g) => WriteGuid(s, g);
  }

  method ReadPayload(s: IStream, proto: Value) returns (x: Value)
    requires DecodePayload(proto, s.buffer.data, s.pos).Some?
    modifies s
    ensures DecodePayload(proto, s.buffer.data, old(s.pos)) == Some(Parsed(x, s.pos))
  {
    match proto
    case Integral(k, _) =>
      var bs := s.Read(Width(k));
      x := Integral(k, IntOfBytes(k, bs));
    case Float(_) =>
      var w := s.ReadU32();
      x := Float(w);
    case Double(_) =>
      Pow256Eight();
      var w := s.ReadWord(8);
      x := Double(w);
    case Str(_) =>
      var str := ReadString(s);
      x := Str(str);
    case Vector(k, _) =>
      var items := ReadVector(s, k);
      x := Vector(k, items);
    case Vec3(_) =>
      var v := ReadVec3f(s);
      x := Vec3(v);
    case Id(_) =>
      var g := ReadGuid(s);
      x := Id(g);
  }
}
