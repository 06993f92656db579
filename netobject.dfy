/**
 * FObject as an object with state: a GUID, a network role and a class name fixed at
 * construction, the property and function registries its members fill in, and the two
 * stream loops that write and read its property block.
 */
module NetObjects {
  import opened Options
  import opened Bytes
  import opened Buffers
  import opened Streams
  import opened NetTypes
  import opened Registries
  import opened Properties
  import opened Objects

  /** The front of an entry: `stream << name; << type;` and, for a vector, `<< element type`. */
  method WriteEntryHead(s: OStream, name: Name, x: Value)
    requires s.pos <= |s.buffer.data|
    modifies s, s.buffer
    ensures s.buffer.Valid()
    ensures s.buffer.data == Inserted(old(s.buffer.data), EncodeString(name) + TypeTags(x), old(s.pos))
    ensures s.pos == old(s.pos) + |EncodeString(name)| + |TypeTags(x)|
  {
    ghost var d0, p0 := s.buffer.data, s.pos;
    WriteString(s, name);
    ghost var d1, p1 := s.buffer.data, s.pos;
    var tags := TypeTags(x);
    s.WriteByte(tags[0]);
    if x.Vector? {
      s.WriteByte(tags[1]);
      InsertedTwice(d1, [tags[0]], [tags[1]], p1);
      assert tags == [tags[0]] + [tags[1]];
    } else {
      assert tags == [tags[0]];
    }
    assert s.buffer.data == Inserted(d1, tags, p1);
    InsertedTwice(d0, EncodeString(name), tags, p0);
  }

  /**
   * The back of an entry: the payload, then, with the cursor rewound to where the payload
   * began, its uint32 size, which lands in front of it; the cursor then moves past both.
   */
  method WriteSizedPayload(s: OStream, x: Value)
    requires WellTyped(x) && |EncodePayload(x)| < U32_LIMIT && s.pos <= |s.buffer.data|
    modifies s, s.buffer
    ensures s.buffer.Valid()
    ensures s.buffer.data == Inserted(old(s.buffer.data), Le32(|EncodePayload(x)|) + EncodePayload(x), old(s.pos))
    ensures s.pos == old(s.pos) + 4 + |EncodePayload(x)|
  {
    ghost var d0 := s.buffer.data;
    var start := s.pos;
    WritePayload(s, x);
    var size: u32 := s.pos - start;
    s.SetPos(start);
    s.WriteU32(size);
    s.SetPos(start + size + 4);
    InsertedBefore(d0, EncodePayload(x), Le32(size), start);
  }

  /** One entry of the property block, written where the cursor is. */
  method WriteEntry(s: OStream, e: Entry<Value>)
    requires WellTyped(e.value) && |EncodePayload(e.value)| < U32_LIMIT && s.pos <= |s.buffer.data|
    modifies s, s.buffer
    ensures s.buffer.Valid()
    ensures s.buffer.data == Inserted(old(s.buffer.data), EncodeEntry(e), old(s.pos))
    ensures s.pos == old(s.pos) + |EncodeEntry(e)|
  {
    ghost var d0, p0 := s.buffer.data, s.pos;
    WriteEntryHead(s, e.key, e.value);
    ghost var d1, p1 := s.buffer.data, s.pos;
    WriteSizedPayload(s, e.value);
    EntryInserted(e, d0, p0, d1, p1, s.buffer.data);
  }

  /** The front and the back of an entry, inserted one after the other, are the entry. */
  lemma EntryInserted(e: Entry<Value>, d0: seq<byte>, p0: nat, d1: seq<byte>, p1: nat, d2: seq<byte>)
    requires WellTyped(e.value) && p0 <= |d0|
    requires d1 == Inserted(d0, EncodeString(e.key) + TypeTags(e.value), p0)
    requires p1 == p0 + |EncodeString(e.key)| + |TypeTags(e.value)|
    requires d2 == Inserted(d1, Le32(|EncodePayload(e.value)|) + EncodePayload(e.value), p1)
    ensures d2 == Inserted(d0, EncodeEntry(e), p0)
    ensures |EncodeEntry(e)| == |EncodeString(e.key)| + |TypeTags(e.value)| + 4 + |EncodePayload(e.value)|
  {
    var name, tags, size, payload := EncodeString(e.key), TypeTags(e.value), Le32(|EncodePayload(e.value)|), EncodePayload(e.value);
    InsertedTwice(d0, name + tags, size + payload, p0);
    ConcatRegroup(name, tags, size, payload);
  }

  /** The loop over the registry in `operator>>(FOStream&)`: one entry per property, in name order. */
  method WriteEntries(s: OStream, props: seq<Entry<Value>>)
    requires AllWellTyped(props) && |EncodeEntries(props)| < U32_LIMIT && s.pos <= |s.buffer.data|
    modifies s, s.buffer
    ensures s.buffer.data == Inserted(old(s.buffer.data), EncodeEntries(props), old(s.pos))
    ensures s.pos == old(s.pos) + |EncodeEntries(props)|
  {
    ghost var d0 := s.buffer.data;
    ghost var start := s.pos;
    ghost var written: seq<byte> := [];
    var i := 0;
    while i < |props|
      invariant i <= |props|
      invariant written + EncodeEntriesFrom(props, i) == EncodeEntries(props)
      invariant s.buffer.data == Inserted(d0, written, start) && s.pos == start + |written|
      decreases |props| - i
    {
      EntriesStepBytes(props, i, written);
      WriteEntry(s, props[i]);
      InsertedTwice(d0, written, EncodeEntry(props[i]), start);
      written := written + EncodeEntry(props[i]);
      i := i + 1;
    }
  }

  /** The bytes written so far grow by one entry, and that entry's payload is smaller than the whole. */
  lemma EntriesStepBytes(props: seq<Entry<Value>>, i: nat, written: seq<byte>)
    requires AllWellTyped(props) && i < |props|
    requires written + EncodeEntriesFrom(props, i) == EncodeEntries(props)
    ensures (written + EncodeEntry(props[i])) + EncodeEntriesFrom(props, i + 1) == EncodeEntries(props)
    ensures |EncodePayload(props[i].value)| < |EncodeEntries(props)|
  {
    var e, rest := EncodeEntry(props[i]), EncodeEntriesFrom(props, i + 1);
    assert EncodeEntriesFrom(props, i) == e + rest;
    assert (written + e) + rest == written + (e + rest);
  }

  lemma ConcatRegroup(a: seq<byte>, b: seq<byte>, c: seq<byte>, e: seq<byte>)
    ensures (a + b) + (c + e) == a + b + c + e
  {
  }

  class NetObject {
    const guid: Guid
    const role: Role
    const className: Name
    var properties: seq<Entry<Value>>
    var functions: seq<Entry<FunctionId>>
    /** The `FFunction::Exec` runs so far, oldest first. */
    var calls: seq<Call>

    ghost predicate Valid()
      reads this
    {
      ValidRole(role) && Sorted(properties) && AllWellTyped(properties) && Sorted(functions)
    }

    /**
     * `FObject(engine, GUID, role)` followed by the member constructors of the class,
     * which register its properties and functions (a repeated name keeps the first).
     */
    constructor (g: Guid, r: Role, name: Name, schema: Schema)
      requires ValidRole(r) && AllWellTyped(schema.properties)
      ensures Valid()
      ensures guid == g && role == r && className == name && calls == []
      ensures properties == Declare([], schema.properties) && functions == Declare([], schema.functions)
    {
      guid := g;
      role := r;
      className := name;
      DeclareWellTyped([], schema.properties);
      properties := Declare([], schema.properties);
      functions := Declare([], schema.functions);
      calls := [];
    }

    method GetProperty(name: Name) returns (p: Option<Value>)
      ensures p == Find(properties, name)
    {
      p := Lookup(properties, name);
    }

    method GetFunction(name: Name) returns (f: Option<FunctionId>)
      ensures f == Find(functions, name)
    {
      f := Lookup(functions, name);
    }

    method RegisterProperty(name: Name, x: Value) returns (ok: bool)
      requires Valid() && WellTyped(x)
      modifies this
      ensures Valid()
      ensures (ok, properties) == Register(old(properties), name, x)
      ensures functions == old(functions) && calls == old(calls)
    {
      var found := GetProperty(name);
      if found.Some? {
        return false;
      }
      InsertSorted(properties, name, x);
      InsertEntries(properties, name, x);
      properties := Insert(properties, name, x);
      ok := true;
      forall i | 0 <= i < |properties| ensures WellTyped(properties[i].value) {
        if properties[i] != Entry(name, x) {
          var j :| 0 <= j < |old(properties)| && old(properties)[j] == properties[i];
        }
      }
    }

    method RegisterFunction(name: Name, fn: FunctionId) returns (ok: bool)
      requires Valid()
      modifies this
      ensures Valid()
      ensures (ok, functions) == Register(old(functions), name, fn)
      ensures properties == old(properties) && calls == old(calls)
    {
      var found := GetFunction(name);
      if found.Some? {
        return false;
      }
      InsertSorted(functions, name, fn);
      functions := Insert(functions, name, fn);
      ok := true;
    }

    /**
     * Runs the function registered under `name` on the parameter bytes; an unknown name runs
     * nothing. A run is recorded as a logged call; what the member function itself does to
     * the object's properties is not modelled.
     */
    method ExecFunction(name: Name, parameters: seq<byte>) returns (ok: bool)
      modifies this
      ensures ok <==> Find(functions, name).Some?
      ensures calls == if ok then old(calls) + [Call(Find(functions, name).value, parameters)] else old(calls)
      ensures properties == old(properties) && functions == old(functions)
    {
      var fn := GetFunction(name);
      if fn.None? {
        return false;
      }
      calls := calls + [Call(fn.value, parameters)];
      ok := true;
    }

    /** `operator>>(FOStream&)`: inserts the property block at the cursor, entries in name order. */
    method Serialize(s: OStream)
      requires Valid() && s.pos <= |s.buffer.data| && |EncodeEntries(properties)| < U32_LIMIT
      modifies s, s.buffer
      ensures s.buffer.Valid()
      ensures s.buffer.data == Inserted(old(s.buffer.data), EncodeBlock(properties), old(s.pos))
      ensures s.pos == old(s.pos) + |EncodeBlock(properties)|
    {
      ghost var d0 := s.buffer.data;
      var start := s.pos;
      WriteEntries(s, properties);
      var size: u32 := s.pos - start;
      s.SetPos(start);
      s.WriteU32(size);
      s.SetPos(start + size + 4);
      InsertedBefore(d0, EncodeEntries(properties), Le32(size), start);
    }

    /**
     * `operator<<(FIStream&)`: reads the block size, applies the entries of the block, then
     * leaves the cursor at block start + 4 + block size.
     */
    method Deserialize(s: IStream)
      requires Valid() && DecodeBlock(properties, s.buffer.data, s.pos).Some?
      modifies this, s
      ensures Valid()
      ensures DecodeBlock(old(properties), s.buffer.data, old(s.pos)) == Some(Parsed(properties, s.pos))
      ensures functions == old(functions) && calls == old(calls)
    {
      ghost var d, q0, p0 := s.buffer.data, properties, s.pos;
      var q := ReadBlock(s, properties);
      DecodeBlockLayout(q0, d, p0);
      properties := q;
    }
  }

  /** The body of `operator<<(FIStream&)` over the registry's values. */
  method ReadBlock(s: IStream, q0: seq<Entry<Value>>) returns (q: seq<Entry<Value>>)
    requires Sorted(q0) && DecodeBlock(q0, s.buffer.data, s.pos).Some?
    modifies s
    ensures DecodeBlock(q0, s.buffer.data, old(s.pos)) == Some(Parsed(q, s.pos))
  {
    ghost var d, p0 := s.buffer.data, s.pos;
    BlockHasSize(q0, d, p0);
    var size := s.ReadU32();
    var blockStart := s.pos;
    ghost var stop := blockStart + size;
    BlockBody(q0, d, p0, size, blockStart, stop);
    q := ReadEntries(s, q0, size, d, stop);
    s.SetPos(blockStart);
    var _ := s.Read(size);
    BlockOf(q0, q, d, p0, size, blockStart, stop);
  }

  lemma BlockHasSize(q0: seq<Entry<Value>>, d: seq<byte>, p0: nat)
    requires DecodeBlock(q0, d, p0).Some?
    ensures p0 + 4 <= |d|
  {
  }

  /** Where a block decodes, its size field is the one read and its entries decode. */
  lemma BlockBody(q0: seq<Entry<Value>>, d: seq<byte>, p0: nat, n: nat, start: nat, stop: nat)
    requires DecodeBlock(q0, d, p0).Some? && start == p0 + 4 <= |d|
    requires n == LeValue(d[p0..start]) && stop == start + n
    ensures n < U32_LIMIT && DecodeU32(d, p0) == Some(Parsed(n, start))
    ensures stop <= |d| && DecodeEntries(q0, d, start, stop).Some?
  {
    U32Bytes(d, p0, start);
    DecodeBlockUnfold(q0, d, p0, n, start, stop);
  }

  /**
   * What `Serialize` inserts, `Deserialize` reads back: a peer object whose registry has the
   * same names and types receives every property value, and its cursor ends past the block.
   */
  lemma SerializedBlockDecodes(q: seq<Entry<Value>>, props: seq<Entry<Value>>, d0: seq<byte>, p0: nat, stop: nat)
    requires Sorted(props) && SameLayout(q, props) && AllTransmissible(props)
    requires |EncodeEntries(props)| < U32_LIMIT
    requires p0 <= |d0| && stop == p0 + |EncodeBlock(props)|
    ensures DecodeBlock(q, Inserted(d0, EncodeBlock(props), p0), p0) == Some(Parsed(props, stop))
  {
    var d := Inserted(d0, EncodeBlock(props), p0);
    InsertedWindow(d0, EncodeBlock(props), p0, stop);
    BlockRoundTrip(q, props, d, p0, stop);
  }

  /** The name, tags and size in front of a payload; the cursor stops where the payload starts. */
  method ReadEntryHead(s: IStream) returns (h: EntryHead)
    requires DecodeEntryHead(s.buffer.data, s.pos).Some?
    modifies s
    ensures DecodeEntryHead(s.buffer.data, old(s.pos)) == Some(h) && s.pos == h.start
  {
    ghost var d, cur := s.buffer.data, s.pos;
    var name := ReadString(s);
    EntryHeadUnfold(d, cur, name, s.pos);
    var tag := s.ReadByte();
    var elem: byte := 0;
    if tag == Tag(VectorType) {
      elem := s.ReadByte();
    }
    var size := s.ReadU32();
    h := EntryHead(name, tag, elem, size, s.pos);
  }

  /**
   * One iteration of the loop: the head, then the payload if the property under that name
   * has those tags, then the cursor to payload start + size whatever was read.
   */
  method ReadEntry(s: IStream, q: seq<Entry<Value>>) returns (q': seq<Entry<Value>>)
    requires Sorted(q) && ApplyEntry(q, s.buffer.data, s.pos).Some?
    modifies s
    ensures ApplyEntry(q, s.buffer.data, old(s.pos)) == Some(Parsed(q', s.pos))
  {
    ghost var d, cur := s.buffer.data, s.pos;
    var h := ReadEntryHead(s);
    var found := Lookup(q, h.name);
    q' := q;
    if found.Some? && Accepts(found.value, h.tag, h.elem) {
      var x := ReadPayload(s, found.value);
      q' := Update(q, h.name, x);
    }
    assert Receive(q, h, d) == Some(q');
    s.SetPos(h.start);
    var _ := s.Read(h.size);
    ApplyEntryOf(q, d, cur, h, q', s.pos);
  }

  /** The `while (bytesRead < propertiesDataSize)` loop of `operator<<(FIStream&)`. */
  method ReadEntries(s: IStream, q0: seq<Entry<Value>>, size: u32, ghost d: seq<byte>, ghost stop: nat)
    returns (q: seq<Entry<Value>>)
    requires d == s.buffer.data && stop == s.pos + size
    requires Sorted(q0) && s.pos <= |d| && DecodeEntries(q0, d, s.pos, stop).Some?
    modifies s
    ensures DecodeEntries(q0, d, old(s.pos), stop) == Some(q)
  {
    ghost var start := s.pos;
    q := q0;
    var bytesRead := 0;
    while bytesRead < size
      invariant s.pos == start + bytesRead <= |d| && Sorted(q)
      invariant DecodeEntries(q, d, s.pos, stop) == DecodeEntries(q0, d, start, stop)
      invariant DecodeEntries(q0, d, start, stop).Some?
      decreases |d| - s.pos
    {
      ghost var cur, q1 := s.pos, q;
      var offset := s.pos;
      q := ReadEntry(s, q);
      ApplyEntryLayout(q1, d, cur);
      DecodeEntriesStep(q1, d, cur, stop, q, s.pos);
      bytesRead := bytesRead + (s.pos - offset);
    }
  }
}
