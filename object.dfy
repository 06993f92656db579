/**
 * FObject: network role, the name-keyed property and function registries, and the
 * self-describing property block of `operator>>` (serialize) and `operator<<` (deserialize).
 */
module Objects {
  import opened Options
  import opened Bytes
  import opened Buffers
  import opened Streams
  import opened NetTypes
  import opened Registries
  import opened Properties

  // ---------------------------------------------------------------- roles

  /** `uint16_t` role bits of `FObject::ERole`. */
  type Role = bv16

  const Undefined: Role := 0x00
  const Proxy: Role := 0x01
  const Authority: Role := 0x02
  const RemoteProxy: Role := 0x04
  const RemoteAuthority: Role := 0x08

  predicate HasBit(role: Role, bit: Role)
  {
    role & bit != 0
  }

  /** The three assertions of the FObject constructor. */
  predicate ValidRole(role: Role)
  {
    role != Undefined
    && ((HasBit(role, Proxy) && !HasBit(role, Authority)) || (HasBit(role, Authority) && !HasBit(role, Proxy)))
    && ((HasBit(role, RemoteProxy) && !HasBit(role, RemoteAuthority)) || (HasBit(role, RemoteAuthority) && !HasBit(role, RemoteProxy)))
  }

  /** A valid role holds exactly one of Proxy/Authority and exactly one of RemoteProxy/RemoteAuthority. */
  lemma ValidRoleExactlyOne(role: Role)
    ensures ValidRole(role) <==>
              (HasBit(role, Proxy) != HasBit(role, Authority) && HasBit(role, RemoteProxy) != HasBit(role, RemoteAuthority))
  {
  }

  // ---------------------------------------------------------------- registries of an object

  /** The function an `FFunction` member runs; opaque, identified by a number. */
  type FunctionId = nat

  /** One `FFunction::Exec` run: the function and the parameter bytes its reader starts on. */
  datatype Call = Call(fn: FunctionId, parameters: seq<byte>)

  /**
   * What a class's constructor declares, in member order: `GX_NETWORK_PROPERTY` fields
   * with their initial values and `GX_NETWORK_FUNCTION` members.
   */
  datatype Schema = Schema(properties: seq<Entry<Value>>, functions: seq<Entry<FunctionId>>)

  predicate AllWellTyped(props: seq<Entry<Value>>)
  {
    forall i :: 0 <= i < |props| ==> WellTyped(props[i].value)
  }

  /**
   * The registrations the member constructors run (`FProperty` and `FFunction` call
   * `Register*` and ignore the result): a repeated name keeps its first declaration.
   */
  function Declare<V>(r: seq<Entry<V>>, decls: seq<Entry<V>>): (r': seq<Entry<V>>)
    requires Sorted(r)
    ensures Sorted(r')
    ensures forall i :: 0 <= i < |r'| ==> r'[i] in r || r'[i] in decls
    decreases |decls|
  {
    if decls == [] then r
    else
      var next := Register(r, decls[0].key, decls[0].value).1;
      var r' := Declare(next, decls[1..]);
      assert forall i :: 0 <= i < |r'| ==> r'[i] in next || r'[i] in decls[1..];
      assert forall e :: e in decls[1..] ==> e in decls;
      r'
  }

  /** After the declarations, a name is bound to its earliest binding: the registry's own, else the first declaration. */
  lemma {:induction false} DeclareFirstWins<V>(r: seq<Entry<V>>, decls: seq<Entry<V>>, k: Name)
    requires Sorted(r)
    ensures Find(Declare(r, decls), k) == if Find(r, k).Some? then Find(r, k) else Find(decls, k)
    decreases |decls|
  {
    if decls != [] {
      var next := Register(r, decls[0].key, decls[0].value).1;
      FindRegister(r, decls[0].key, decls[0].value, k);
      DeclareFirstWins(next, decls[1..], k);
    }
  }

  lemma DeclareWellTyped(r: seq<Entry<Value>>, decls: seq<Entry<Value>>)
    requires Sorted(r) && AllWellTyped(r) && AllWellTyped(decls)
    ensures AllWellTyped(Declare(r, decls))
  {
    var r' := Declare(r, decls);
    forall i | 0 <= i < |r'| ensures WellTyped(r'[i].value) {
      if r'[i] in r {
        var j :| 0 <= j < |r| && r[j] == r'[i];
      } else {
        var j :| 0 <= j < |decls| && decls[j] == r'[i];
      }
    }
  }

  // ---------------------------------------------------------------- the property block

  /** The element tag the reader sees for an entry: read for a vector, never read otherwise. */
  function ElementTagOf(x: Value): byte
  {
    if x.Vector? then Tag(ElementTypeOf(x)) else 0
  }

  /** The type tags written before a property's size: the type, and for a vector the element type. */
  function TypeTags(x: Value): (r: seq<byte>)
    ensures |r| == if x.Vector? then 2 else 1
    ensures r[0] == Tag(TypeOf(x))
    ensures r[0] == Tag(VectorType) <==> x.Vector?
    ensures x.Vector? ==> r[1] == ElementTagOf(x)
  {
    TagInjective(TypeOf(x), VectorType);
    if x.Vector? then [Tag(VectorType), Tag(ElementTypeOf(x))] else [Tag(TypeOf(x))]
  }

  /** The layout of one entry around its tags and payload. */
  function EntryBytes(name: Name, tags: seq<byte>, payload: seq<byte>): (r: seq<byte>)
    ensures |r| == |EncodeString(name)| + |tags| + 4 + |payload|
  {
    EncodeString(name) + tags + Le32(|payload|) + payload
  }

  /** One entry: name, type tag(s), uint32 payload size, payload. */
  function EncodeEntry(e: Entry<Value>): (r: seq<byte>)
    requires WellTyped(e.value)
    ensures |r| > 4
  {
    EntryBytes(e.key, TypeTags(e.value), EncodePayload(e.value))
  }

  /** The entries from index `i` on, in registry (name) order. */
  function EncodeEntriesFrom(props: seq<Entry<Value>>, i: nat): seq<byte>
    requires AllWellTyped(props) && i <= |props|
    decreases |props| - i
  {
    if i == |props| then [] else EncodeEntry(props[i]) + EncodeEntriesFrom(props, i + 1)
  }

  /** All entries, in registry (name) order. */
  function EncodeEntries(props: seq<Entry<Value>>): seq<byte>
    requires AllWellTyped(props)
  {
    EncodeEntriesFrom(props, 0)
  }

  /** `FObject::operator>>`: uint32 size of the entries, then the entries. */
  function EncodeBlock(props: seq<Entry<Value>>): seq<byte>
    requires AllWellTyped(props)
  {
    var entries := EncodeEntries(props);
    Le32(|entries|) + entries
  }

  /**
   * The property registered under a name accepts an entry carrying these tags: the same
   * type and, for a vector, the same element type.
   */
  predicate Accepts(x: Value, tag: byte, elem: byte)
  {
    Tag(TypeOf(x)) == tag && (tag == Tag(VectorType) ==> x.Vector? && Tag(ElementTypeOf(x)) == elem)
  }

  /** Same names in the same order, each property of the same C++ type. */
  predicate SameLayout(q: seq<Entry<Value>>, props: seq<Entry<Value>>)
  {
    |q| == |props| && forall i :: 0 <= i < |q| ==> q[i].key == props[i].key && SameType(q[i].value, props[i].value)
  }

  /** What the deserialize loop reads in front of a payload. */
  datatype EntryHead = EntryHead(name: Name, tag: byte, elem: byte, size: u32, start: nat)

  /**
   * Name, type tag, element tag (read only after a Vector tag) and payload size; `start` is
   * where the payload begins.
   */
  function DecodeEntryHead(d: seq<byte>, cur: nat): (r: Option<EntryHead>)
    ensures r.Some? ==> cur < r.value.start <= |d|
  {
    var name :- DecodeString(d, cur);
    DecodeHeadTail(d, name.value, name.next)
  }

  /** What follows the name: the tags and the size. */
  function DecodeHeadTail(d: seq<byte>, name: Name, n: nat): (r: Option<EntryHead>)
    ensures r.Some? ==> n < r.value.start <= |d|
  {
    var tag :- DecodeByte(d, n);
    var elem :- if tag.value == Tag(VectorType) then DecodeByte(d, tag.next) else Some(Parsed(0, tag.next));
    var size :- DecodeU32(d, elem.next);
    Some(EntryHead(name, tag.value, elem.value, size.value, size.next))
  }

  /** The registered property reads its payload if it accepts the tags; otherwise nothing changes. */
  function Receive(props: seq<Entry<Value>>, h: EntryHead, d: seq<byte>): Option<seq<Entry<Value>>>
  {
    var found := Find(props, h.name);
    if found.Some? && Accepts(found.value, h.tag, h.elem) then
      var x :- DecodePayload(found.value, d, h.start);
      Some(Update(props, h.name, x.value))
    else Some(props)
  }

  lemma SameLayoutTransitive(a: seq<Entry<Value>>, b: seq<Entry<Value>>, c: seq<Entry<Value>>)
    requires SameLayout(a, b) && SameLayout(b, c)
    ensures SameLayout(a, c)
  {
  }

  /** Giving the property under `k` a value of its own type keeps the layout. */
  lemma UpdateSameLayout(props: seq<Entry<Value>>, k: Name, y: Value, x: Value)
    requires Sorted(props) && Find(props, k) == Some(y) && SameType(x, y)
    ensures SameLayout(Update(props, k, x), props) && Sorted(Update(props, k, x))
    ensures AllWellTyped(props) && WellTyped(x) ==> AllWellTyped(Update(props, k, x))
  {
    var r := Update(props, k, x);
    forall i | 0 <= i < |props|
      ensures r[i].key == props[i].key && SameType(r[i].value, props[i].value)
    {
      if props[i].key == k {
        FindStored(props, k, props[i].value);
      }
    }
    if AllWellTyped(props) && WellTyped(x) {
      forall i | 0 <= i < |r| ensures WellTyped(r[i].value) {
        if props[i].key == k {
          assert r[i].value == x;
        } else {
          assert r[i] == props[i];
        }
      }
    }
    UpdateSorted(props, k, x);
  }

  /**
   * One iteration of the deserialize loop at `cur`: read the entry head, let the property
   * receive the payload, then move to payload start + size whatever happened.
   */
  function ApplyEntry(props: seq<Entry<Value>>, d: seq<byte>, cur: nat): (r: Option<Parsed<seq<Entry<Value>>>>)
    ensures r.Some? ==> cur < r.value.next <= |d|
  {
    var h :- DecodeEntryHead(d, cur);
    var props' :- Receive(props, h, d);
    if h.start + h.size <= |d| then Some(Parsed(props', h.start + h.size)) else None
  }

  /** The deserialize loop: entries are applied while the cursor is before `stop`. */
  function DecodeEntries(props: seq<Entry<Value>>, d: seq<byte>, cur: nat, stop: nat): Option<seq<Entry<Value>>>
    decreases |d| - cur, 1
  {
    if cur >= stop then Some(props) else DecodeEntriesAt(props, d, cur, stop)
  }

  /** One pass of the loop body, then the rest of the loop. */
  function DecodeEntriesAt(props: seq<Entry<Value>>, d: seq<byte>, cur: nat, stop: nat): Option<seq<Entry<Value>>>
    decreases |d| - cur, 0
  {
    var step :- ApplyEntry(props, d, cur);
    DecodeEntries(step.value, d, step.next, stop)
  }

  /**
   * `FObject::operator<<`: reads the block size, runs the loop over the block, then leaves
   * the cursor at block start + 4 + block size.
   */
  function DecodeBlock(props: seq<Entry<Value>>, d: seq<byte>, p: nat): Option<Parsed<seq<Entry<Value>>>>
  {
    var size :- DecodeU32(d, p);
    var stop := size.next + size.value;
    if stop > |d| then None
    else
      var props' :- DecodeEntries(props, d, size.next, stop);
      Some(Parsed(props', stop))
  }

  // ---------------------------------------------------------------- the reader keeps the layout

  /** Receiving a payload never renames, reorders or retypes a property. */
  lemma ReceiveLayout(props: seq<Entry<Value>>, h: EntryHead, d: seq<byte>)
    requires Sorted(props)
    ensures var r := Receive(props, h, d);
      r.Some? ==> SameLayout(r.value, props) && Sorted(r.value) && (AllWellTyped(props) ==> AllWellTyped(r.value))
  {
    var found := Find(props, h.name);
    if found.Some? && Accepts(found.value, h.tag, h.elem) && DecodePayload(found.value, d, h.start).Some? {
      UpdateSameLayout(props, h.name, found.value, DecodePayload(found.value, d, h.start).value.value);
    }
  }

  lemma ApplyEntryLayout(props: seq<Entry<Value>>, d: seq<byte>, cur: nat)
    requires Sorted(props)
    ensures var r := ApplyEntry(props, d, cur);
      r.Some? ==> SameLayout(r.value.value, props) && Sorted(r.value.value) && (AllWellTyped(props) ==> AllWellTyped(r.value.value))
  {
    if DecodeEntryHead(d, cur).Some? {
      ReceiveLayout(props, DecodeEntryHead(d, cur).value, d);
    }
  }

  /** Whatever the bytes, the deserialize loop yields a registry with the layout it started from. */
  lemma {:induction false} DecodeEntriesLayout(props: seq<Entry<Value>>, d: seq<byte>, cur: nat, stop: nat)
    requires Sorted(props)
    ensures var r := DecodeEntries(props, d, cur, stop);
      r.Some? ==> SameLayout(r.value, props) && Sorted(r.value) && (AllWellTyped(props) ==> AllWellTyped(r.value))
    decreases |d| - cur
  {
    if cur < stop && ApplyEntry(props, d, cur).Some? {
      var step := ApplyEntry(props, d, cur).value;
      ApplyEntryLayout(props, d, cur);
      DecodeEntriesLayout(step.value, d, step.next, stop);
      if DecodeEntries(props, d, cur, stop).Some? {
        SameLayoutTransitive(DecodeEntries(props, d, cur, stop).value, step.value, props);
      }
    }
  }

  /** Whatever the bytes, deserializing leaves the cursor at block start + 4 + the block size read. */
  lemma DecodeBlockCursor(props: seq<Entry<Value>>, d: seq<byte>, p: nat)
    ensures var r := DecodeBlock(props, d, p);
      r.Some? ==> p + 4 <= |d| && r.value.next == p + 4 + LeValue(d[p..p + 4]) <= |d|
  {
  }

  /** Whatever the bytes, deserializing keeps the names, order and types of the properties. */
  lemma DecodeBlockLayout(props: seq<Entry<Value>>, d: seq<byte>, p: nat)
    requires Sorted(props)
    ensures var r := DecodeBlock(props, d, p);
      r.Some? ==> && SameLayout(r.value.value, props) && Sorted(r.value.value)
                  && (AllWellTyped(props) ==> AllWellTyped(r.value.value))
  {
    var size := DecodeU32(d, p);
    if size.Some? {
      var start, stop := size.value.next, size.value.next + size.value.value;
      DecodeBlockUnfold(props, d, p, size.value.value, start, stop);
      DecodeEntriesLayout(props, d, start, stop);
    }
  }

  /** The block decoder in terms of the loop over the window its size field announces. */
  lemma DecodeBlockUnfold(props: seq<Entry<Value>>, d: seq<byte>, p: nat, n: u32, start: nat, stop: nat)
    requires DecodeU32(d, p) == Some(Parsed(n, start)) && stop == start + n
    ensures DecodeBlock(props, d, p)
         == if stop <= |d| && DecodeEntries(props, d, start, stop).Some?
            then Some(Parsed(DecodeEntries(props, d, start, stop).value, stop)) else None
  {
  }

  // ---------------------------------------------------------------- block lemmas

  /** A name the string codec carries intact, and a payload whose size field does not wrap. */
  predicate EntryTransmissible(e: Entry<Value>)
  {
    NoNul(e.key) && |e.key| + 1 < U32_LIMIT && Transmissible(e.value) && |EncodePayload(e.value)| < U32_LIMIT
  }

  predicate AllTransmissible(props: seq<Entry<Value>>)
  {
    && AllWellTyped(props)
    && forall i {:trigger EntryTransmissible(props[i])} :: 0 <= i < |props| ==> EntryTransmissible(props[i])
  }

  /** Four consecutive windows of a buffer that holds `a + b + c + e` from `p` to `p4`. */
  lemma WindowSplit4(d: seq<byte>, p: nat, a: seq<byte>, b: seq<byte>, c: seq<byte>, e: seq<byte>,
                     p1: nat, p2: nat, p3: nat, p4: nat)
    requires p1 == p + |a| && p2 == p1 + |b| && p3 == p2 + |c| && p4 == p3 + |e| <= |d|
    requires d[p..p4] == a + b + c + e
    ensures d[p..p1] == a && d[p1..p2] == b && d[p2..p3] == c && d[p3..p4] == e
  {
    WindowSplit(d, p, a + b + c, e);
    WindowSplit(d, p, a + b, c);
    WindowSplit(d, p, a, b);
  }

  /** The tags and the size written after a name read back. */
  lemma TailFields(d: seq<byte>, name: Name, n: nat, t: seq<byte>, size: u32, m: nat, start: nat)
    requires (|t| == 1 && t[0] != Tag(VectorType)) || (|t| == 2 && t[0] == Tag(VectorType))
    requires m == n + |t| && start == m + 4 <= |d| && d[n..m] == t && d[m..start] == Le32(size)
    ensures DecodeHeadTail(d, name, n) == Some(EntryHead(name, t[0], if |t| == 2 then t[1] else 0, size, start))
  {
    assert DecodeByte(d, n) == Some(Parsed(t[0], n + 1));
    if |t| == 2 {
      assert DecodeByte(d, n + 1) == Some(Parsed(t[1], n + 2));
    }
    U32At(d, m, size);
  }

  /**
   * The head in front of any payload reads back as the name, tags and size written, and the
   * payload fills the rest of the entry.
   */
  lemma HeadRoundTrip(d: seq<byte>, cur: nat, name: Name, t: seq<byte>, p: seq<byte>, start: nat, stop: nat)
    requires NoNul(name) && |name| + 1 < U32_LIMIT && |p| < U32_LIMIT
    requires (|t| == 1 && t[0] != Tag(VectorType)) || (|t| == 2 && t[0] == Tag(VectorType))
    requires start == cur + |EncodeString(name)| + |t| + 4 && stop == start + |p| <= |d|
    requires d[cur..stop] == EntryBytes(name, t, p)
    ensures DecodeEntryHead(d, cur) == Some(EntryHead(name, t[0], if |t| == 2 then t[1] else 0, |p|, start))
    ensures d[start..stop] == p
  {
    var s := EncodeString(name);
    var n := cur + |s|;
    var m := n + |t|;
    WindowSplit4(d, cur, s, t, Le32(|p|), p, n, m, start, stop);
    StringRoundTrip(d, cur, name);
    EntryHeadUnfold(d, cur, name, n);
    TailFields(d, name, n, t, |p|, m, start);
  }

  /** A head reads on from the end of the name at its front. */
  lemma EntryHeadUnfold(d: seq<byte>, cur: nat, name: Name, n: nat)
    requires DecodeString(d, cur) == Some(Parsed(name, n))
    ensures DecodeEntryHead(d, cur) == DecodeHeadTail(d, name, n)
  {
  }

  /** The head the writer puts in front of `e` at `cur`. */
  function HeadOf(e: Entry<Value>, cur: nat): EntryHead
    requires WellTyped(e.value) && |EncodePayload(e.value)| < U32_LIMIT
  {
    EntryHead(e.key, Tag(TypeOf(e.value)), ElementTagOf(e.value), |EncodePayload(e.value)|,
              cur + |EncodeString(e.key)| + |TypeTags(e.value)| + 4)
  }

  /**
   * The head of an encoded entry reads back as the entry's name, tags and payload size, and
   * the payload fills the bytes between the head and the end of the entry.
   */
  lemma EntryHeadRoundTrip(e: Entry<Value>, d: seq<byte>, cur: nat, start: nat, next: nat)
    requires EntryTransmissible(e) && start == HeadOf(e, cur).start
    requires next == cur + |EncodeEntry(e)| <= |d| && d[cur..cur + |EncodeEntry(e)|] == EncodeEntry(e)
    ensures DecodeEntryHead(d, cur) == Some(HeadOf(e, cur))
    ensures next == start + |EncodePayload(e.value)| && d[start..next] == EncodePayload(e.value)
  {
    var t, p := TypeTags(e.value), EncodePayload(e.value);
    var h := HeadOf(e, cur);
    assert h.tag == t[0] && h.elem == (if |t| == 2 then t[1] else 0);
    assert h == EntryHead(e.key, t[0], if |t| == 2 then t[1] else 0, |p|, start);
    HeadRoundTrip(d, cur, e.key, t, p, start, next);
  }

  /** The payload behind the head of `e` decodes to the value of `e`. */
  lemma PayloadOfEntry(e: Entry<Value>, d: seq<byte>, start: nat, next: nat)
    requires EntryTransmissible(e)
    requires next == start + |EncodePayload(e.value)| <= |d| && d[start..next] == EncodePayload(e.value)
    ensures DecodePayload(e.value, d, start) == Some(Parsed(e.value, next))
  {
    PayloadRoundTrip(e.value, e.value, d, start);
  }

  /**
   * The reader finds at `cur` a head naming `e` with the tags of its value, whose payload
   * ends at `next`.
   */
  ghost predicate HeadReads(e: Entry<Value>, d: seq<byte>, cur: nat, next: nat)
  {
    && DecodeEntryHead(d, cur).Some?
    && var h := DecodeEntryHead(d, cur).value;
    && h.name == e.key && h.tag == Tag(TypeOf(e.value)) && h.elem == ElementTagOf(e.value)
    && h.start + h.size == next <= |d|
  }

  /** ... and whose payload a property of the type of `e` decodes to the value of `e`. */
  ghost predicate Reads(e: Entry<Value>, d: seq<byte>, cur: nat, next: nat)
  {
    && HeadReads(e, d, cur, next)
    && DecodePayload(e.value, d, DecodeEntryHead(d, cur).value.start) == Some(Parsed(e.value, next))
  }

  /** The head of an encoded entry is read back as the head of that entry. */
  lemma EntryHeadReads(e: Entry<Value>, d: seq<byte>, cur: nat, next: nat)
    requires EntryTransmissible(e)
    requires next == cur + |EncodeEntry(e)| <= |d| && d[cur..cur + |EncodeEntry(e)|] == EncodeEntry(e)
    ensures HeadReads(e, d, cur, next)
  {
    EntryHeadRoundTrip(e, d, cur, HeadOf(e, cur).start, next);
  }

  /** An encoded entry is read back as that entry. */
  lemma EntryReads(e: Entry<Value>, d: seq<byte>, cur: nat, next: nat)
    requires EntryTransmissible(e)
    requires next == cur + |EncodeEntry(e)| <= |d| && d[cur..cur + |EncodeEntry(e)|] == EncodeEntry(e)
    ensures Reads(e, d, cur, next)
  {
    var start := HeadOf(e, cur).start;
    EntryHeadRoundTrip(e, d, cur, start, next);
    PayloadOfEntry(e, d, start, next);
  }

  /** In a sorted registry, updating the key at index `i` replaces exactly that entry. */
  lemma UpdateAt(q: seq<Entry<Value>>, i: nat, x: Value)
    requires Sorted(q) && i < |q|
    ensures Update(q, q[i].key, x) == q[i := Entry(q[i].key, x)]
  {
    LessIrreflexive(q[i].key);
    var e := Entry(q[i].key, x);
    var r := Update(q, q[i].key, x);
    forall j | 0 <= j < |q| ensures r[j] == q[i := e][j] {
      if j < i {
        assert Less(q[j].key, q[i].key);
      } else if j > i {
        assert Less(q[i].key, q[j].key);
      }
    }
    assert |r| == |q[i := e]|;
  }

  /** A property accepts the tags written for a value exactly when it has the value's type. */
  lemma AcceptsSameType(y: Value, x: Value)
    ensures Accepts(y, Tag(TypeOf(x)), ElementTagOf(x)) <==> SameType(y, x)
  {
    TagInjective(TypeOf(y), TypeOf(x));
    TagInjective(TypeOf(x), VectorType);
    if x.Vector? && y.Vector? {
      TagInjective(IntType(y.elem), IntType(x.elem));
    }
  }

  /** Reading a payload depends only on the C++ type of the receiving property. */
  lemma DecodePayloadByType(a: Value, b: Value, d: seq<byte>, p: nat)
    requires SameType(a, b)
    ensures DecodePayload(a, d, p) == DecodePayload(b, d, p)
  {
  }

  /** A registered property of the entry's type receives the value its payload decodes to. */
  lemma ReceiveOf(q: seq<Entry<Value>>, i: nat, h: EntryHead, e: Entry<Value>, d: seq<byte>, n: nat)
    requires Sorted(q) && i < |q| && h.name == q[i].key == e.key && SameType(q[i].value, e.value)
    requires h.tag == Tag(TypeOf(e.value)) && h.elem == ElementTagOf(e.value)
    requires DecodePayload(e.value, d, h.start) == Some(Parsed(e.value, n))
    ensures Receive(q, h, d) == Some(q[i := e])
  {
    FindStored(q, q[i].key, q[i].value);
    AcceptsSameType(q[i].value, e.value);
    DecodePayloadByType(q[i].value, e.value, d, h.start);
    UpdateAt(q, i, e.value);
    assert Entry(q[i].key, e.value) == e;
  }

  /** A property that is missing or of another type ignores the payload. */
  lemma ReceiveSkips(q: seq<Entry<Value>>, h: EntryHead, e: Entry<Value>, d: seq<byte>)
    requires Sorted(q) && h.name == e.key && h.tag == Tag(TypeOf(e.value)) && h.elem == ElementTagOf(e.value)
    requires Find(q, e.key).None? || !SameType(Find(q, e.key).value, e.value)
    ensures Receive(q, h, d) == Some(q)
  {
    if Find(q, e.key).Some? {
      AcceptsSameType(Find(q, e.key).value, e.value);
    }
  }

  /** One loop iteration put together from its head and what the property received. */
  lemma ApplyEntryOf(q: seq<Entry<Value>>, d: seq<byte>, cur: nat, h: EntryHead, q': seq<Entry<Value>>, next: nat)
    requires Sorted(q) && DecodeEntryHead(d, cur) == Some(h) && Receive(q, h, d) == Some(q')
    requires next == h.start + h.size <= |d|
    ensures ApplyEntry(q, d, cur) == Some(Parsed(q', next))
  {
    var r := ApplyEntry(q, d, cur);
    assert r.Some? && r.value.value == q' && r.value.next == next;
    assert r.value == Parsed(q', next);
  }

  /** An entry read back into the property registered under its name with its type. */
  lemma ApplyEntryReads(q: seq<Entry<Value>>, i: nat, e: Entry<Value>, d: seq<byte>, cur: nat, next: nat)
    requires Sorted(q) && i < |q| && q[i].key == e.key && SameType(q[i].value, e.value)
    requires Reads(e, d, cur, next)
    ensures ApplyEntry(q, d, cur) == Some(Parsed(q[i := e], next))
  {
    var h := DecodeEntryHead(d, cur).value;
    ReceiveOf(q, i, h, e, d, next);
    ApplyEntryOf(q, d, cur, h, q[i := e], next);
  }

  /** An entry whose property is registered with the same type is received into that property. */
  lemma ApplyEntryRoundTrip(q: seq<Entry<Value>>, i: nat, e: Entry<Value>, d: seq<byte>, cur: nat, next: nat)
    requires Sorted(q) && i < |q| && q[i].key == e.key && SameType(q[i].value, e.value) && EntryTransmissible(e)
    requires next == cur + |EncodeEntry(e)| <= |d| && d[cur..cur + |EncodeEntry(e)|] == EncodeEntry(e)
    ensures ApplyEntry(q, d, cur) == Some(Parsed(q[i := e], next))
  {
    EntryReads(e, d, cur, next);
    ApplyEntryReads(q, i, e, d, cur, next);
  }

  /** A head naming a missing property, or one of another type, read back. */
  lemma ApplyEntrySkipsHead(q: seq<Entry<Value>>, e: Entry<Value>, d: seq<byte>, cur: nat, next: nat)
    requires Sorted(q) && HeadReads(e, d, cur, next)
    requires Find(q, e.key).None? || !SameType(Find(q, e.key).value, e.value)
    ensures ApplyEntry(q, d, cur) == Some(Parsed(q, next))
  {
    var h := DecodeEntryHead(d, cur).value;
    ReceiveSkips(q, h, e, d);
    ApplyEntryOf(q, d, cur, h, q, next);
  }

  /**
   * An entry whose name is not registered, or whose property has another type, is stepped
   * over by its size and changes no property.
   */
  lemma ApplyEntrySkips(q: seq<Entry<Value>>, e: Entry<Value>, d: seq<byte>, cur: nat, next: nat)
    requires Sorted(q) && EntryTransmissible(e)
    requires Find(q, e.key).None? || !SameType(Find(q, e.key).value, e.value)
    requires next == cur + |EncodeEntry(e)| <= |d| && d[cur..cur + |EncodeEntry(e)|] == EncodeEntry(e)
    ensures ApplyEntry(q, d, cur) == Some(Parsed(q, next))
  {
    EntryHeadReads(e, d, cur, next);
    ApplyEntrySkipsHead(q, e, d, cur, next);
  }

  /** Before `stop` the loop applies one entry and carries on from where it left the cursor. */
  lemma DecodeEntriesStep(q: seq<Entry<Value>>, d: seq<byte>, cur: nat, stop: nat, q': seq<Entry<Value>>, next: nat)
    requires cur < stop && ApplyEntry(q, d, cur) == Some(Parsed(q', next))
    ensures DecodeEntries(q, d, cur, stop) == DecodeEntries(q', d, next, stop)
  {
  }

  /** Skipping an entry does not stop the loop: the entries after it are still applied. */
  lemma DecodeEntriesSkipsMismatch(q: seq<Entry<Value>>, e: Entry<Value>, d: seq<byte>, cur: nat, next: nat, stop: nat)
    requires Sorted(q) && EntryTransmissible(e) && cur < stop
    requires Find(q, e.key).None? || !SameType(Find(q, e.key).value, e.value)
    requires next == cur + |EncodeEntry(e)| <= |d| && d[cur..cur + |EncodeEntry(e)|] == EncodeEntry(e)
    ensures DecodeEntries(q, d, cur, stop) == DecodeEntries(q, d, next, stop)
  {
    ApplyEntrySkips(q, e, d, cur, next);
    DecodeEntriesStep(q, d, cur, stop, q, next);
  }

  /** Where the reader at `cur` expects the next entry: just past the payload the head announces. */
  ghost function NextEntry(d: seq<byte>, cur: nat): nat
    requires DecodeEntryHead(d, cur).Some?
  {
    DecodeEntryHead(d, cur).value.start + DecodeEntryHead(d, cur).value.size
  }

  /**
   * Where the reader ends up after finding the entries `props[i..]` one after the other from
   * `cur`; None when one of them is not where it should be.
   */
  ghost function LaidEnd(props: seq<Entry<Value>>, i: nat, d: seq<byte>, cur: nat): (r: Option<nat>)
    requires i <= |props|
    ensures r.Some? ==> cur <= r.value && (i < |props| ==> cur < r.value)
    decreases |props| - i
  {
    if i == |props| then Some(cur)
    else if DecodeEntryHead(d, cur).Some? && Reads(props[i], d, cur, NextEntry(d, cur)) then
      LaidEnd(props, i + 1, d, NextEntry(d, cur))
    else None
  }

  /** A window holding the entries from `i` on holds entry `i` and then the entries after it. */
  lemma EntriesWindowSplit(props: seq<Entry<Value>>, i: nat, d: seq<byte>, cur: nat, next: nat, stop: nat)
    requires AllWellTyped(props) && i < |props|
    requires stop == cur + |EncodeEntriesFrom(props, i)| <= |d| && d[cur..stop] == EncodeEntriesFrom(props, i)
    requires next == cur + |EncodeEntry(props[i])|
    ensures next == cur + |EncodeEntry(props[i])| <= |d| && d[cur..cur + |EncodeEntry(props[i])|] == EncodeEntry(props[i])
    ensures stop == next + |EncodeEntriesFrom(props, i + 1)| && d[next..stop] == EncodeEntriesFrom(props, i + 1)
  {
    var e, rest := EncodeEntry(props[i]), EncodeEntriesFrom(props, i + 1);
    assert EncodeEntriesFrom(props, i) == e + rest;
    WindowSplitAt(d, cur, e, rest, next, stop);
  }

  /** Encoded entries `props[i..]` between `cur` and `stop` are laid out for the reader. */
  lemma {:induction false} LaidOfWindow(props: seq<Entry<Value>>, i: nat, d: seq<byte>, cur: nat, stop: nat)
    requires AllTransmissible(props) && i <= |props|
    requires stop == cur + |EncodeEntriesFrom(props, i)| <= |d| && d[cur..stop] == EncodeEntriesFrom(props, i)
    ensures LaidEnd(props, i, d, cur) == Some(stop)
    decreases |props| - i
  {
    if i < |props| {
      var next := cur + |EncodeEntry(props[i])|;
      EntriesWindowSplit(props, i, d, cur, next, stop);
      LaidOfWindow(props, i + 1, d, next, stop);
      EntryThenLaid(props, i, d, cur, next, stop);
    }
  }

  /** An encoded entry at `cur`, followed by laid-out entries from `next` to `stop`. */
  lemma EntryThenLaid(props: seq<Entry<Value>>, i: nat, d: seq<byte>, cur: nat, next: nat, stop: nat)
    requires AllTransmissible(props) && i < |props|
    requires next == cur + |EncodeEntry(props[i])| <= |d| && d[cur..cur + |EncodeEntry(props[i])|] == EncodeEntry(props[i])
    requires LaidEnd(props, i + 1, d, next) == Some(stop)
    ensures LaidEnd(props, i, d, cur) == Some(stop)
  {
    assert EntryTransmissible(props[i]);
    EntryReads(props[i], d, cur, next);
    LaidStep(props, i, d, cur, next, stop);
  }

  /** An entry read from `cur` to `next`, followed by laid-out entries up to `stop`. */
  lemma LaidStep(props: seq<Entry<Value>>, i: nat, d: seq<byte>, cur: nat, next: nat, stop: nat)
    requires i < |props|
    requires Reads(props[i], d, cur, next)
    requires LaidEnd(props, i + 1, d, next) == Some(stop)
    ensures LaidEnd(props, i, d, cur) == Some(stop)
  {
    assert NextEntry(d, cur) == next;
  }

  /** One entry of a laid-out run, received into its property, and the loop carrying on after it. */
  lemma EntriesStep(q: seq<Entry<Value>>, i: nat, e: Entry<Value>, d: seq<byte>, cur: nat, stop: nat, next: nat)
    requires Sorted(q) && i < |q| && q[i].key == e.key && SameType(q[i].value, e.value)
    requires Reads(e, d, cur, next) && cur < stop
    ensures DecodeEntries(q, d, cur, stop) == DecodeEntries(q[i := e], d, next, stop)
  {
    ApplyEntryReads(q, i, e, d, cur, next);
    DecodeEntriesStep(q, d, cur, stop, q[i := e], next);
  }

  /**
   * The deserialize loop over laid-out entries `props[i..]`, into a registry with the same
   * layout whose first `i` entries already hold their values, yields exactly `props`.
   */
  lemma {:induction false} EntriesOfLaid(q: seq<Entry<Value>>, props: seq<Entry<Value>>, i: nat, d: seq<byte>, cur: nat, stop: nat)
    requires Sorted(props) && SameLayout(q, props) && i <= |props|
    requires forall j :: 0 <= j < i ==> q[j] == props[j]
    requires LaidEnd(props, i, d, cur) == Some(stop)
    ensures Sorted(q) && DecodeEntries(q, d, cur, stop) == Some(props)
    decreases |props| - i
  {
    assert Sorted(q) by {
      assert forall j :: 0 <= j < |q| ==> q[j].key == props[j].key;
    }
    if i == |props| {
      assert q == props;
    } else {
      var next := NextEntry(d, cur);
      EntriesStep(q, i, props[i], d, cur, stop, next);
      EntriesOfLaid(q[i := props[i]], props, i + 1, d, next, stop);
    }
  }

  /**
   * The deserialize loop over the entries of `props`, into a registry with the same layout,
   * restores every value of `props`.
   */
  lemma EntriesRoundTrip(q: seq<Entry<Value>>, props: seq<Entry<Value>>, d: seq<byte>, cur: nat, stop: nat)
    requires Sorted(props) && SameLayout(q, props) && AllTransmissible(props)
    requires stop == cur + |EncodeEntries(props)| <= |d| && d[cur..stop] == EncodeEntries(props)
    ensures Sorted(q) && DecodeEntries(q, d, cur, stop) == Some(props)
  {
    LaidOfWindow(props, 0, d, cur, stop);
    EntriesOfLaid(q, props, 0, d, cur, stop);
  }

  /** The size field of an encoded block, and the entries window it announces. */
  lemma BlockWindowSplit(props: seq<Entry<Value>>, d: seq<byte>, p: nat, start: nat, stop: nat)
    requires AllWellTyped(props) && |EncodeEntries(props)| < U32_LIMIT && start == p + 4
    requires stop == p + |EncodeBlock(props)| <= |d| && d[p..stop] == EncodeBlock(props)
    ensures DecodeU32(d, p) == Some(Parsed(|EncodeEntries(props)|, start))
    ensures stop == start + |EncodeEntries(props)| && d[start..stop] == EncodeEntries(props)
  {
    var entries := EncodeEntries(props);
    WindowSplit(d, p, Le32(|entries|), entries);
    U32At(d, p, |entries|);
  }

  /** The block read back from its size field and the loop over the entries it announces. */
  lemma BlockOf(q: seq<Entry<Value>>, props: seq<Entry<Value>>, d: seq<byte>, p: nat, n: u32, start: nat, stop: nat)
    requires DecodeU32(d, p) == Some(Parsed(n, start)) && stop == start + n <= |d|
    requires DecodeEntries(q, d, start, stop) == Some(props)
    ensures DecodeBlock(q, d, p) == Some(Parsed(props, stop))
  {
    DecodeBlockUnfold(q, d, p, n, start, stop);
  }

  /**
   * Serialize followed by deserialize into an object with the same registry layout restores
   * every property value and leaves the cursor just past the block.
   */
  lemma BlockRoundTrip(q: seq<Entry<Value>>, props: seq<Entry<Value>>, d: seq<byte>, p: nat, stop: nat)
    requires Sorted(props) && SameLayout(q, props) && AllTransmissible(props)
    requires |EncodeEntries(props)| < U32_LIMIT
    requires stop == p + |EncodeBlock(props)| <= |d| && d[p..stop] == EncodeBlock(props)
    ensures Sorted(q) && DecodeBlock(q, d, p) == Some(Parsed(props, stop))
  {
    var start := p + 4;
    BlockWindowSplit(props, d, p, start, stop);
    EntriesRoundTrip(q, props, d, start, stop);
    BlockOf(q, props, d, p, |EncodeEntries(props)|, start, stop);
  }
}
