/**
 * The replication frame: `FEngine::Replicate(FOStream&)` writes one record per object whose
 * role is Authority or RemoteAuthority, and `FEngine::Replicate(FIStream&)` applies the records
 * it reads to the receiving engine's objects. A record is
 *
 *   GUID (4 uint32) | class name (uint32 size + 1, text, NUL) | uint32 size of the object block | object block
 *
 * and the reader resumes after `size` bytes, whatever the object consumed.
 */
module Snapshots {
  import opened Options
  import opened Bytes
  import opened NetTypes
  import opened Registries
  import opened Properties
  import opened Objects
  import opened Factories
  import opened Worlds

  /** The roles `Replicate(FOStream&)` sends. */
  predicate Replicated(role: Role)
  {
    HasBit(role, Authority) || HasBit(role, RemoteAuthority)
  }

  /** Every object's properties hold values of their types. */
  predicate Encodable(vs: seq<View>)
  {
    forall i :: 0 <= i < |vs| ==> AllWellTyped(vs[i].properties)
  }

  /** Every sent object's block length fits the uint32 size field the writer computes it in. */
  predicate Fits(vs: seq<View>)
  {
    forall i :: 0 <= i < |vs| && AllWellTyped(vs[i].properties) && Replicated(vs[i].role) ==>
      |EncodeEntries(vs[i].properties)| + 4 < U32_LIMIT
  }

  /** Writing one more object appends its record. */
  lemma SnapshotSnoc(vs: seq<View>, i: nat)
    requires Encodable(vs) && i < |vs|
    ensures Encodable(vs[..i]) && Encodable(vs[..i + 1])
    ensures EncodeSnapshot(vs[..i + 1]) == EncodeSnapshot(vs[..i]) + RecordOf(vs[i])
  {
    assert vs[..i + 1][..i] == vs[..i];
  }

  /** One object's record. The size field is the uint32 the block's length was assigned to. */
  function ObjectRecord(v: View): (r: seq<byte>)
    requires AllWellTyped(v.properties)
  {
    var block := EncodeBlock(v.properties);
    EncodeGuid(v.guid) + EncodeString(v.className) + Le32(|block|) + block
  }

  /** What the writer loop emits for one object. */
  function RecordOf(v: View): seq<byte>
    requires AllWellTyped(v.properties)
  {
    if Replicated(v.role) then ObjectRecord(v) else []
  }

  /** The records of the objects, in list order. */
  function EncodeSnapshot(vs: seq<View>): seq<byte>
    requires Encodable(vs)
    decreases |vs|
  {
    if vs == [] then [] else EncodeSnapshot(vs[..|vs| - 1]) + RecordOf(vs[|vs| - 1])
  }

  /** The same records, read from the front. */
  lemma {:induction false} SnapshotFront(vs: seq<View>)
    requires Encodable(vs) && vs != []
    ensures EncodeSnapshot(vs) == RecordOf(vs[0]) + EncodeSnapshot(vs[1..])
    decreases |vs|
  {
    var init, tail, last := vs[..|vs| - 1], vs[1..], vs[|vs| - 1];
    if |vs| == 1 {
      assert tail == [] && init == [];
      return;
    }
    assert init[0] == vs[0] && tail[..|tail| - 1] == init[1..] && tail[|tail| - 1] == last;
    SnapshotFront(init);
    var a, b, c := RecordOf(vs[0]), EncodeSnapshot(init[1..]), RecordOf(last);
    assert EncodeSnapshot(vs) == EncodeSnapshot(init) + c;
    assert EncodeSnapshot(init) == a + b;
    assert EncodeSnapshot(tail) == b + c;
    Regroup(a, b, c);
  }

  lemma Regroup(a: seq<byte>, b: seq<byte>, c: seq<byte>)
    ensures (a + b) + c == a + (b + c)
  {
  }

  // ---------------------------------------------------------------- reading

  /** What the reader takes in front of an object's block. */
  datatype Record = Record(guid: Guid, className: Name, size: u32, start: nat)

  function DecodeRecordHead(d: seq<byte>, p: nat): (r: Option<Record>)
    ensures r.Some? ==> p + 20 <= r.value.start <= |d|
  {
    var g :- DecodeGuid(d, p);
    var name :- DecodeString(d, g.next);
    StringNext(d, g.next);
    var size :- DecodeU32(d, name.next);
    Some(Record(g.value, name.value, size.value, size.next))
  }

  lemma DecodeRecordHeadUnfold(d: seq<byte>, p: nat, g: Guid, name: Name, size: u32, p1: nat, p2: nat, start: nat)
    requires DecodeGuid(d, p) == Some(Parsed(g, p1))
    requires DecodeString(d, p1) == Some(Parsed(name, p2))
    requires DecodeU32(d, p2) == Some(Parsed(size, start))
    ensures DecodeRecordHead(d, p) == Some(Record(g, name, size, start))
  {
  }

  /**
   * One iteration of `Replicate(FIStream&)`: with an object of the record's GUID and class, a
   * Client always and a Server only for a RemoteAuthority object deserializes into it; a class
   * mismatch, or an unknown GUID on a Server, leaves everything as it was; an unknown GUID on a
   * Client creates the object with the static role, deserializes into it and runs
   * `OnObjectCreated`. None where the code would read past the buffer or through the null
   * object of a class that is not registered.
   */
  function ReceiveRecord(w: World, cfg: Setup, d: seq<byte>, h: Record): Option<World>
  {
    var k := IndexOf(GuidsOf(w.objects), h.guid);
    if k.Some? then
      var v := w.objects[k.value];
      if h.className != v.className then Some(w)
      else if cfg.mode == Client || HasBit(v.role, RemoteAuthority) then
        var q :- DecodeBlock(v.properties, d, h.start);
        Some(World(w.objects[k.value := v.(properties := q.value)], w.notes))
      else Some(w)
    else if cfg.mode == Server then Some(w)
    else
      var c :- CreateByName(w.objects, cfg.classes, h.guid, h.className, StaticRole(Client));
      var q :- DecodeBlock(c.properties, d, h.start);
      Some(World(w.objects + [c.(properties := q.value)], w.notes + [Created(h.guid)]))
  }

  /**
   * The records the loop reads from `p`. Where each record ends depends on its size field
   * alone, never on what the object consumed, so the records can be read apart from their
   * effects. None where a read passes the end of the buffer.
   */
  function ParseRecords(d: seq<byte>, p: nat): Option<seq<Record>>
    requires p <= |d|
    decreases |d| - p, 1
  {
    if p == |d| then Some([])
    else
      var h :- DecodeRecordHead(d, p);
      RecordsAfter(d, p, h)
  }

  /** The rest of the loop once a record's head is read: `SetPos(start); Read(size)` resumes after the block. */
  function RecordsAfter(d: seq<byte>, p: nat, h: Record): Option<seq<Record>>
    requires p < h.start <= |d|
    decreases |d| - p, 0
  {
    if h.start + h.size > |d| then None
    else
      var rest :- ParseRecords(d, h.start + h.size);
      Some([h] + rest)
  }

  /** The effects of the records, in order; None from the first undefined one on. */
  function ApplyRecords(w: World, cfg: Setup, d: seq<byte>, rs: seq<Record>): Option<World>
    decreases |rs|
  {
    if rs == [] then Some(w)
    else
      var w' :- ReceiveRecord(w, cfg, d, rs[0]);
      ApplyRecords(w', cfg, d, rs[1..])
  }

  /**
   * The `while (!stream.IsEOF())` loop from `p`. The code interleaves the reads with the
   * effects; the outcome is the same, since either the whole loop is defined or it is not.
   */
  function SnapshotFrom(w: World, cfg: Setup, d: seq<byte>, p: nat): Option<World>
    requires p <= |d|
  {
    var rs :- ParseRecords(d, p);
    ApplyRecords(w, cfg, d, rs)
  }

  /** The loop's first record, where the loop resumes after it, and the records from there. */
  lemma ParseRecordsCons(d: seq<byte>, p: nat, rs: seq<Record>) returns (h: Record, next: nat, rest: seq<Record>)
    requires p < |d| && ParseRecords(d, p) == Some(rs)
    ensures DecodeRecordHead(d, p) == Some(h) && next == h.start + h.size <= |d|
    ensures ParseRecords(d, next) == Some(rest) && rs == [h] + rest
  {
    h := DecodeRecordHead(d, p).value;
    next := h.start + h.size;
    RecordsAfterIs(d, p, h, rs);
    rest := ParseRecords(d, next).value;
  }

  lemma RecordsAfterIs(d: seq<byte>, p: nat, h: Record, rs: seq<Record>)
    requires p < |d| && DecodeRecordHead(d, p) == Some(h) && ParseRecords(d, p) == Some(rs)
    ensures RecordsAfter(d, p, h) == Some(rs)
  {
  }

  lemma ParseRecordsStep(d: seq<byte>, p: nat, h: Record, next: nat, rest: seq<Record>)
    requires p < |d| && DecodeRecordHead(d, p) == Some(h)
    requires next == h.start + h.size <= |d| && ParseRecords(d, next) == Some(rest)
    ensures ParseRecords(d, p) == Some([h] + rest)
  {
    assert ParseRecords(d, p) == RecordsAfter(d, p, h);
  }

  /** When a run of records ends in `goal`, so does the run after the first, from that record's effect. */
  lemma ApplyRecordsCons(w: World, cfg: Setup, d: seq<byte>, h: Record, rest: seq<Record>, goal: World) returns (w': World)
    requires ApplyRecords(w, cfg, d, [h] + rest) == Some(goal)
    ensures ReceiveRecord(w, cfg, d, h) == Some(w') && ApplyRecords(w', cfg, d, rest) == Some(goal)
  {
    assert ([h] + rest)[0] == h && ([h] + rest)[1..] == rest;
    w' := ReceiveRecord(w, cfg, d, h).value;
  }

  /** The reading loop, at position `p` with the objects `w`, is bound to end with `goal`. */
  predicate Pending(d: seq<byte>, cfg: Setup, p: nat, w: World, goal: World)
  {
    p <= |d| && SnapshotFrom(w, cfg, d, p) == Some(goal)
  }

  /** At the end of the stream the loop is over. */
  lemma PendingDone(d: seq<byte>, cfg: Setup, w: World, goal: World)
    requires Pending(d, cfg, |d|, w, goal)
    ensures w == goal
  {
  }

  /**
   * One round of the reading loop: the record whose head is at `p`, where the loop resumes
   * after its block, and its effect, from which the rest of the loop is bound to `goal`.
   */
  lemma NextPending(w: World, cfg: Setup, d: seq<byte>, p: nat, goal: World) returns (h: Record, next: nat, w': World)
    requires p < |d| && Pending(d, cfg, p, w, goal)
    ensures DecodeRecordHead(d, p) == Some(h) && next == h.start + h.size <= |d| && p < next
    ensures ReceiveRecord(w, cfg, d, h) == Some(w') && Pending(d, cfg, next, w', goal)
  {
    var rest;
    h, next, rest := ParseRecordsCons(d, p, ParseRecords(d, p).value);
    w' := ApplyRecordsCons(w, cfg, d, h, rest, goal);
  }

  lemma ApplyRecordsStep(w: World, cfg: Setup, d: seq<byte>, h: Record, rest: seq<Record>, w': World)
    requires ReceiveRecord(w, cfg, d, h) == Some(w')
    ensures ApplyRecords(w, cfg, d, [h] + rest) == ApplyRecords(w', cfg, d, rest)
  {
    assert ([h] + rest)[0] == h && ([h] + rest)[1..] == rest;
  }

  // ---------------------------------------------------------------- the round trip

  /** An object whose record survives the trip: its class name and property sizes fit their uint32 fields. */
  predicate Sendable(v: View)
  {
    && Sorted(v.properties) && AllTransmissible(v.properties)
    && |EncodeEntries(v.properties)| + 4 < U32_LIMIT
    && NoNul(v.className) && |v.className| + 1 < U32_LIMIT
  }

  /** The receiver holds an object the record of `v` deserializes into. */
  predicate Accepts(cfg: Setup, vs: seq<View>, v: View)
  {
    var k := IndexOf(GuidsOf(vs), v.guid);
    && k.Some?
    && vs[k.value].className == v.className
    && SameLayout(vs[k.value].properties, v.properties)
    && (cfg.mode == Client || HasBit(vs[k.value].role, RemoteAuthority))
  }

  /** The reference effect of one record: the receiver's object takes the sender's properties. */
  function CopyRecord(vs: seq<View>, v: View): seq<View>
  {
    var k := IndexOf(GuidsOf(vs), v.guid);
    if k.None? then vs else vs[k.value := vs[k.value].(properties := v.properties)]
  }

  /** The reference effect of a whole frame. */
  function CopyAll(vs: seq<View>, sent: seq<View>): seq<View>
    decreases |sent|
  {
    if sent == [] then vs
    else CopyAll(if Replicated(sent[0].role) then CopyRecord(vs, sent[0]) else vs, sent[1..])
  }

  /** The head fields of a record read back, with the block right after them. */
  lemma HeadFields(d: seq<byte>, p: nat, g: Guid, name: Name, block: seq<byte>, p1: nat, p2: nat, start: nat, stop: nat)
    requires NoNul(name) && |name| + 1 < U32_LIMIT && |block| < U32_LIMIT
    requires p1 == p + 16 && p2 == p1 + |EncodeString(name)| && start == p2 + 4 && stop == start + |block| <= |d|
    requires d[p..stop] == EncodeGuid(g) + EncodeString(name) + Le32(|block|) + block
    ensures DecodeRecordHead(d, p) == Some(Record(g, name, |block|, start)) && d[start..stop] == block
  {
    WindowSplit4(d, p, EncodeGuid(g), EncodeString(name), Le32(|block|), block, p1, p2, start, stop);
    GuidRoundTrip(d, p, g);
    StringRoundTrip(d, p1, name);
    U32At(d, p2, |block|);
    DecodeRecordHeadUnfold(d, p, g, name, |block|, p1, p2, start);
  }

  /** The record of `v` is read back as its GUID, class name and block size, with the block right after. */
  lemma RecordHeadRoundTrip(d: seq<byte>, p: nat, v: View, start: nat, stop: nat)
    requires Sendable(v)
    requires start == p + 16 + |EncodeString(v.className)| + 4
    requires stop == start + |EncodeBlock(v.properties)| <= |d| && d[p..stop] == ObjectRecord(v)
    ensures DecodeRecordHead(d, p) == Some(Record(v.guid, v.className, |EncodeBlock(v.properties)|, start))
    ensures d[start..stop] == EncodeBlock(v.properties)
  {
    var block := EncodeBlock(v.properties);
    HeadFields(d, p, v.guid, v.className, block, p + 16, start - 4, start, stop);
  }

  /** An accepted record copies the sender's properties into the receiver's object. */
  lemma ReceiveCopies(w: World, cfg: Setup, d: seq<byte>, p: nat, v: View, start: nat, stop: nat)
    requires Sendable(v) && Accepts(cfg, w.objects, v)
    requires start == p + 16 + |EncodeString(v.className)| + 4
    requires stop == start + |EncodeBlock(v.properties)| <= |d| && d[p..stop] == ObjectRecord(v)
    ensures ReceiveRecord(w, cfg, d, Record(v.guid, v.className, |EncodeBlock(v.properties)|, start))
         == Some(World(CopyRecord(w.objects, v), w.notes))
  {
    RecordHeadRoundTrip(d, p, v, start, stop);
    var k := IndexOf(GuidsOf(w.objects), v.guid).value;
    BlockRoundTrip(w.objects[k].properties, v.properties, d, start, stop);
  }

  /** Copying one record keeps the receiver accepting the records of the other GUIDs. */
  lemma AcceptsAfterCopy(cfg: Setup, vs: seq<View>, v0: View, v: View)
    requires Accepts(cfg, vs, v) && v.guid != v0.guid
    ensures Accepts(cfg, CopyRecord(vs, v0), v)
  {
    var vs' := CopyRecord(vs, v0);
    assert |vs'| == |vs|;
    assert forall i :: 0 <= i < |vs| ==> GuidsOf(vs')[i] == GuidsOf(vs)[i];
    assert GuidsOf(vs') == GuidsOf(vs);
    var k0, k := IndexOf(GuidsOf(vs), v0.guid), IndexOf(GuidsOf(vs), v.guid).value;
    assert GuidsOf(vs)[k] == v.guid;
    if k0.Some? {
      assert GuidsOf(vs)[k0.value] == v0.guid;
    }
  }

  /** The hypotheses of the round trip, for the records after the first. */
  lemma RoundTripTail(cfg: Setup, vs: seq<View>, sent: seq<View>)
    requires sent != [] && Unique(sent)
    requires forall i :: 0 <= i < |sent| && Replicated(sent[i].role) ==> Sendable(sent[i]) && Accepts(cfg, vs, sent[i])
    ensures Unique(sent[1..])
    ensures var vs' := if Replicated(sent[0].role) then CopyRecord(vs, sent[0]) else vs;
      forall i :: 0 <= i < |sent[1..]| && Replicated(sent[1..][i].role) ==> Sendable(sent[1..][i]) && Accepts(cfg, vs', sent[1..][i])
  {
    var rest := sent[1..];
    forall i | 0 <= i < |rest| && Replicated(rest[i].role)
      ensures Sendable(rest[i]) && Accepts(cfg, if Replicated(sent[0].role) then CopyRecord(vs, sent[0]) else vs, rest[i])
    {
      assert rest[i] == sent[i + 1];
      if Replicated(sent[0].role) {
        AcceptsAfterCopy(cfg, vs, sent[0], rest[i]);
      }
    }
    forall i, j | 0 <= i < j < |rest| ensures rest[i].guid != rest[j].guid {
      assert rest[i] == sent[i + 1] && rest[j] == sent[j + 1];
    }
  }

  /**
   * A frame written from the objects `sent` (GUIDs unique), read by an engine that holds, for
   * each record, an object of the same GUID, class and property layout that it may write:
   * every such object takes the sender's properties, in frame order, and nothing else changes.
   */
  lemma SnapshotRoundTrip(w: World, cfg: Setup, sent: seq<View>, d: seq<byte>, p: nat)
    requires Encodable(sent) && Unique(sent)
    requires forall i :: 0 <= i < |sent| && Replicated(sent[i].role) ==> Sendable(sent[i]) && Accepts(cfg, w.objects, sent[i])
    requires p <= |d| && d[p..] == EncodeSnapshot(sent)
    ensures SnapshotFrom(w, cfg, d, p) == Some(World(CopyAll(w.objects, sent), w.notes))
  {
    var rs := RecordsRoundTrip(w, cfg, sent, d, p);
  }

  /** The induction behind the round trip, over the sender's objects. */
  lemma {:induction false} RecordsRoundTrip(w: World, cfg: Setup, sent: seq<View>, d: seq<byte>, p: nat) returns (rs: seq<Record>)
    requires Encodable(sent) && Unique(sent)
    requires forall i :: 0 <= i < |sent| && Replicated(sent[i].role) ==> Sendable(sent[i]) && Accepts(cfg, w.objects, sent[i])
    requires p <= |d| && d[p..] == EncodeSnapshot(sent)
    ensures ParseRecords(d, p) == Some(rs)
    ensures ApplyRecords(w, cfg, d, rs) == Some(World(CopyAll(w.objects, sent), w.notes))
    decreases |sent|
  {
    if sent == [] {
      assert |d[p..]| == 0;
      rs := [];
    } else {
      var v := sent[0];
      RoundTripTail(cfg, w.objects, sent);
      if Replicated(v.role) {
        var stop, h := RoundTripHead(w, cfg, sent, d, p);
        var w' := World(CopyRecord(w.objects, v), w.notes);
        var rest := RecordsRoundTrip(w', cfg, sent[1..], d, stop);
        ParseRecordsStep(d, p, h, stop, rest);
        ApplyRecordsStep(w, cfg, d, h, rest, w');
        rs := [h] + rest;
      } else {
        SnapshotFront(sent);
        rs := RecordsRoundTrip(w, cfg, sent[1..], d, p);
      }
    }
  }

  /** The first record of a frame whose first object is sent: where it ends, and what it does. */
  lemma RoundTripHead(w: World, cfg: Setup, sent: seq<View>, d: seq<byte>, p: nat) returns (stop: nat, h: Record)
    requires Encodable(sent) && sent != [] && Replicated(sent[0].role)
    requires Sendable(sent[0]) && Accepts(cfg, w.objects, sent[0])
    requires p <= |d| && d[p..] == EncodeSnapshot(sent)
    ensures p < |d| && DecodeRecordHead(d, p) == Some(h) && stop == h.start + h.size <= |d|
    ensures d[stop..] == EncodeSnapshot(sent[1..])
    ensures ReceiveRecord(w, cfg, d, h) == Some(World(CopyRecord(w.objects, sent[0]), w.notes))
  {
    var v := sent[0];
    SnapshotFront(sent);
    stop := p + |ObjectRecord(v)|;
    SplitRest(d, p, ObjectRecord(v), EncodeSnapshot(sent[1..]), stop);
    h := FirstRecord(w, cfg, d, p, v, stop);
  }

  /** A window holding `a + b` from `p` to the end holds `a` up to `stop` and `b` after it. */
  lemma SplitRest(d: seq<byte>, p: nat, a: seq<byte>, b: seq<byte>, stop: nat)
    requires p <= |d| && d[p..] == a + b && stop == p + |a|
    ensures stop <= |d| && d[p..stop] == a && d[stop..] == b
  {
    assert d[p..stop] == d[p..][..|a|];
    assert d[stop..] == d[p..][|a|..];
  }

  /** The first record of the frame: where it ends, and what it does. */
  lemma FirstRecord(w: World, cfg: Setup, d: seq<byte>, p: nat, v: View, stop: nat) returns (h: Record)
    requires Sendable(v) && Accepts(cfg, w.objects, v)
    requires stop == p + |ObjectRecord(v)| <= |d| && d[p..stop] == ObjectRecord(v)
    ensures p < |d| && DecodeRecordHead(d, p) == Some(h) && h.start + h.size == stop
    ensures ReceiveRecord(w, cfg, d, h) == Some(World(CopyRecord(w.objects, v), w.notes))
  {
    var start := p + 16 + |EncodeString(v.className)| + 4;
    RecordHeadRoundTrip(d, p, v, start, stop);
    ReceiveCopies(w, cfg, d, p, v, start, stop);
    h := Record(v.guid, v.className, |EncodeBlock(v.properties)|, start);
  }

  // ---------------------------------------------------------------- objects a Client creates

  /** The object `CreateObjectStatic` builds on a Client for the record of `v`, if it builds one. */
  function Built(vs: seq<View>, cfg: Setup, v: View): Option<View>
  {
    CreateByName(vs, cfg.classes, v.guid, v.className, StaticRole(Client))
  }

  /**
   * The receiver is a Client that does not hold `v.guid`, the class `v` names is registered,
   * and the object it builds has `v`'s property layout.
   */
  predicate Creates(cfg: Setup, vs: seq<View>, v: View)
  {
    var c := Built(vs, cfg, v);
    cfg.mode == Client && c.Some? && SameLayout(c.value.properties, v.properties)
  }

  /**
   * The reference effect of one record on the receiver: an object it holds takes the sender's
   * properties; otherwise the object its class builds joins the list with the sender's
   * properties, and `OnObjectCreated` runs.
   */
  function Arrive(w: World, cfg: Setup, v: View): World
  {
    var c := Built(w.objects, cfg, v);
    if v.guid in GuidsOf(w.objects) then World(CopyRecord(w.objects, v), w.notes)
    else if c.Some? then World(w.objects + [c.value.(properties := v.properties)], w.notes + [Created(v.guid)])
    else w
  }

  /** The reference effect of a whole frame, objects created along the way included. */
  function ArriveAll(w: World, cfg: Setup, sent: seq<View>): World
    decreases |sent|
  {
    if sent == [] then w
    else ArriveAll(if Replicated(sent[0].role) then Arrive(w, cfg, sent[0]) else w, cfg, sent[1..])
  }

  /**
   * The first replication of an object to a Client: the record creates the object with the
   * static role of a Client, deserializes the sender's properties into it and runs
   * `OnObjectCreated`.
   */
  lemma ReceiveCreates(w: World, cfg: Setup, d: seq<byte>, p: nat, v: View, start: nat, stop: nat)
    requires Sendable(v) && Creates(cfg, w.objects, v)
    requires start == p + 16 + |EncodeString(v.className)| + 4
    requires stop == start + |EncodeBlock(v.properties)| <= |d| && d[p..stop] == ObjectRecord(v)
    ensures var c := Built(w.objects, cfg, v).value;
      ReceiveRecord(w, cfg, d, Record(v.guid, v.className, |EncodeBlock(v.properties)|, start))
      == Some(World(w.objects + [c.(properties := v.properties)], w.notes + [Created(v.guid)]))
  {
    RecordHeadRoundTrip(d, p, v, start, stop);
    var c := Built(w.objects, cfg, v).value;
    BlockRoundTrip(c.properties, v.properties, d, start, stop);
  }

  /** A record the receiver either takes into a held object or creates an object for. */
  predicate Lands(cfg: Setup, vs: seq<View>, v: View)
  {
    Accepts(cfg, vs, v) || Creates(cfg, vs, v)
  }

  /** One record read from the front of a frame has the reference effect. */
  lemma ReceiveArrives(w: World, cfg: Setup, d: seq<byte>, p: nat, v: View, stop: nat) returns (h: Record)
    requires Sendable(v) && Lands(cfg, w.objects, v)
    requires stop == p + |ObjectRecord(v)| <= |d| && d[p..stop] == ObjectRecord(v)
    ensures p < |d| && DecodeRecordHead(d, p) == Some(h) && h.start + h.size == stop
    ensures ReceiveRecord(w, cfg, d, h) == Some(Arrive(w, cfg, v))
  {
    var start := p + 16 + |EncodeString(v.className)| + 4;
    RecordHeadRoundTrip(d, p, v, start, stop);
    h := Record(v.guid, v.className, |EncodeBlock(v.properties)|, start);
    if Accepts(cfg, w.objects, v) {
      ReceiveCopies(w, cfg, d, p, v, start, stop);
    } else {
      ReceiveCreates(w, cfg, d, p, v, start, stop);
    }
  }

  lemma CopyRecordGuids(vs: seq<View>, v: View)
    ensures GuidsOf(CopyRecord(vs, v)) == GuidsOf(vs)
  {
  }

  /** Appending an object of another GUID leaves where a GUID is first found. */
  lemma {:induction false} IndexOfSnoc(gs: seq<Guid>, x: Guid, g: Guid)
    requires g != x
    ensures IndexOf(gs + [x], g) == IndexOf(gs, g)
  {
    if gs == [] {
      assert [x][1..] == [];
    } else {
      assert (gs + [x])[1..] == gs[1..] + [x];
      IndexOfSnoc(gs[1..], x, g);
    }
  }

  lemma GuidsOfSnoc(vs: seq<View>, c: View)
    ensures GuidsOf(vs + [c]) == GuidsOf(vs) + [c.guid]
  {
  }

  /** A record of another GUID still lands after the first record's effect. */
  lemma LandsAfterArrive(cfg: Setup, w: World, v0: View, v: View)
    requires Lands(cfg, w.objects, v0) && Lands(cfg, w.objects, v) && v.guid != v0.guid
    ensures Lands(cfg, Arrive(w, cfg, v0).objects, v)
  {
    var vs, vs' := w.objects, Arrive(w, cfg, v0).objects;
    if v0.guid in GuidsOf(vs) {
      CopyRecordGuids(vs, v0);
      if Accepts(cfg, vs, v) {
        AcceptsAfterCopy(cfg, vs, v0, v);
      }
    } else {
      var c := Built(vs, cfg, v0).value;
      assert vs' == vs + [c.(properties := v0.properties)];
      GuidsOfSnoc(vs, c.(properties := v0.properties));
      IndexOfSnoc(GuidsOf(vs), v0.guid, v.guid);
      if Accepts(cfg, vs, v) {
        var k := IndexOf(GuidsOf(vs), v.guid).value;
        assert vs'[k] == vs[k];
      }
    }
  }

  /** The hypotheses of the mixed round trip, for the records after the first. */
  lemma ArriveTail(cfg: Setup, w: World, sent: seq<View>)
    requires sent != [] && Unique(sent)
    requires forall i :: 0 <= i < |sent| && Replicated(sent[i].role) ==> Sendable(sent[i]) && Lands(cfg, w.objects, sent[i])
    ensures Unique(sent[1..])
    ensures var w' := if Replicated(sent[0].role) then Arrive(w, cfg, sent[0]) else w;
      forall i :: 0 <= i < |sent[1..]| && Replicated(sent[1..][i].role) ==> Sendable(sent[1..][i]) && Lands(cfg, w'.objects, sent[1..][i])
  {
    var rest := sent[1..];
    forall i | 0 <= i < |rest| && Replicated(rest[i].role)
      ensures Sendable(rest[i]) && Lands(cfg, (if Replicated(sent[0].role) then Arrive(w, cfg, sent[0]) else w).objects, rest[i])
    {
      assert rest[i] == sent[i + 1];
      if Replicated(sent[0].role) {
        LandsAfterArrive(cfg, w, sent[0], rest[i]);
      }
    }
    forall i, j | 0 <= i < j < |rest| ensures rest[i].guid != rest[j].guid {
      assert rest[i] == sent[i + 1] && rest[j] == sent[j + 1];
    }
  }

  /**
   * A frame written from the objects `sent` (GUIDs unique), read by an engine that, for each
   * record, either holds a matching object it may write or is a Client that creates one from a
   * registered class of the same layout: held objects take the sender's properties, missing
   * ones join the list with them and are announced to `OnObjectCreated`, in frame order.
   */
  lemma SnapshotArrives(w: World, cfg: Setup, sent: seq<View>, d: seq<byte>, p: nat)
    requires Encodable(sent) && Unique(sent)
    requires forall i :: 0 <= i < |sent| && Replicated(sent[i].role) ==> Sendable(sent[i]) && Lands(cfg, w.objects, sent[i])
    requires p <= |d| && d[p..] == EncodeSnapshot(sent)
    ensures SnapshotFrom(w, cfg, d, p) == Some(ArriveAll(w, cfg, sent))
  {
    var rs := RecordsArrive(w, cfg, sent, d, p);
  }

  /** The induction behind the mixed round trip, over the sender's objects. */
  lemma {:induction false} RecordsArrive(w: World, cfg: Setup, sent: seq<View>, d: seq<byte>, p: nat) returns (rs: seq<Record>)
    requires Encodable(sent) && Unique(sent)
    requires forall i :: 0 <= i < |sent| && Replicated(sent[i].role) ==> Sendable(sent[i]) && Lands(cfg, w.objects, sent[i])
    requires p <= |d| && d[p..] == EncodeSnapshot(sent)
    ensures ParseRecords(d, p) == Some(rs)
    ensures ApplyRecords(w, cfg, d, rs) == Some(ArriveAll(w, cfg, sent))
    decreases |sent|
  {
    if sent == [] {
      assert |d[p..]| == 0;
      rs := [];
    } else {
      var v := sent[0];
      ArriveTail(cfg, w, sent);
      if Replicated(v.role) {
        var stop, h := ArriveHead(w, cfg, sent, d, p);
        var w' := Arrive(w, cfg, v);
        var rest := RecordsArrive(w', cfg, sent[1..], d, stop);
        ParseRecordsStep(d, p, h, stop, rest);
        ApplyRecordsStep(w, cfg, d, h, rest, w');
        rs := [h] + rest;
      } else {
        SnapshotFront(sent);
        rs := RecordsArrive(w, cfg, sent[1..], d, p);
      }
    }
  }

  /** The first record of a frame whose first object is sent and lands: where it ends, and what it does. */
  lemma ArriveHead(w: World, cfg: Setup, sent: seq<View>, d: seq<byte>, p: nat) returns (stop: nat, h: Record)
    requires Encodable(sent) && sent != [] && Replicated(sent[0].role)
    requires Sendable(sent[0]) && Lands(cfg, w.objects, sent[0])
    requires p <= |d| && d[p..] == EncodeSnapshot(sent)
    ensures p < |d| && DecodeRecordHead(d, p) == Some(h) && stop == h.start + h.size <= |d|
    ensures d[stop..] == EncodeSnapshot(sent[1..])
    ensures ReceiveRecord(w, cfg, d, h) == Some(Arrive(w, cfg, sent[0]))
  {
    var v := sent[0];
    SnapshotFront(sent);
    stop := p + |ObjectRecord(v)|;
    SplitRest(d, p, ObjectRecord(v), EncodeSnapshot(sent[1..]), stop);
    h := ReceiveArrives(w, cfg, d, p, v, stop);
  }

  // ---------------------------------------------------------------- what a Server accepts

  /** On a Server a record never adds or removes objects, and changes only a RemoteAuthority object's properties. */
  predicate ServerUpdate(vs: seq<View>, vs': seq<View>)
  {
    && |vs'| == |vs|
    && forall i :: 0 <= i < |vs| ==>
         && vs'[i] == vs[i].(properties := vs'[i].properties)
         && (!HasBit(vs[i].role, RemoteAuthority) ==> vs'[i] == vs[i])
  }

  lemma ServerRecord(w: World, cfg: Setup, d: seq<byte>, h: Record)
    requires cfg.mode == Server && ReceiveRecord(w, cfg, d, h).Some?
    ensures var w' := ReceiveRecord(w, cfg, d, h).value;
      ServerUpdate(w.objects, w'.objects) && w'.notes == w.notes
  {
  }

  lemma ServerUpdateTrans(a: seq<View>, b: seq<View>, c: seq<View>)
    requires ServerUpdate(a, b) && ServerUpdate(b, c)
    ensures ServerUpdate(a, c)
  {
    forall i | 0 <= i < |a| ensures c[i] == a[i].(properties := c[i].properties) {
      assert c[i] == b[i].(properties := c[i].properties);
    }
  }

  lemma {:induction false} ServerRecords(w: World, cfg: Setup, d: seq<byte>, rs: seq<Record>)
    requires cfg.mode == Server && ApplyRecords(w, cfg, d, rs).Some?
    ensures var w' := ApplyRecords(w, cfg, d, rs).value;
      ServerUpdate(w.objects, w'.objects) && w'.notes == w.notes
    decreases |rs|
  {
    if rs != [] {
      var w' := ReceiveRecord(w, cfg, d, rs[0]).value;
      ServerRecord(w, cfg, d, rs[0]);
      ServerRecords(w', cfg, d, rs[1..]);
      ServerUpdateTrans(w.objects, w'.objects, ApplyRecords(w', cfg, d, rs[1..]).value.objects);
    }
  }

  /** A Server's replication never creates, removes or renames objects, and writes only into RemoteAuthority ones. */
  lemma ServerSnapshot(w: World, cfg: Setup, d: seq<byte>, p: nat)
    requires cfg.mode == Server && p <= |d| && SnapshotFrom(w, cfg, d, p).Some?
    ensures var w' := SnapshotFrom(w, cfg, d, p).value;
      ServerUpdate(w.objects, w'.objects) && w'.notes == w.notes
  {
    ServerRecords(w, cfg, d, ParseRecords(d, p).value);
  }

  // ---------------------------------------------------------------- validity

  /** Applying a record keeps the objects valid. */
  lemma ReceiveValid(w: World, cfg: Setup, d: seq<byte>, h: Record)
    requires ValidObjects(w.objects) && ValidClasses(cfg.classes) && ReceiveRecord(w, cfg, d, h).Some?
    ensures ValidObjects(ReceiveRecord(w, cfg, d, h).value.objects)
  {
    var k := IndexOf(GuidsOf(w.objects), h.guid);
    if k.Some? {
      ReceiveIntoValid(w, cfg, d, h, k.value);
    } else if cfg.mode == Client {
      ReceiveFreshValid(w, cfg, d, h);
    }
  }

  lemma ReceiveIntoValid(w: World, cfg: Setup, d: seq<byte>, h: Record, k: nat)
    requires ValidObjects(w.objects) && ReceiveRecord(w, cfg, d, h).Some?
    requires IndexOf(GuidsOf(w.objects), h.guid) == Some(k)
    ensures ValidObjects(ReceiveRecord(w, cfg, d, h).value.objects)
  {
    var vs' := ReceiveRecord(w, cfg, d, h).value.objects;
    DecodeBlockLayout(w.objects[k].properties, d, h.start);
    assert forall i :: 0 <= i < |vs'| ==> vs'[i].guid == w.objects[i].guid;
    assert ValidView(vs'[k]);
  }

  lemma ReceiveFreshValid(w: World, cfg: Setup, d: seq<byte>, h: Record)
    requires ValidObjects(w.objects) && ValidClasses(cfg.classes) && ReceiveRecord(w, cfg, d, h).Some?
    requires IndexOf(GuidsOf(w.objects), h.guid).None? && cfg.mode == Client
    ensures ValidObjects(ReceiveRecord(w, cfg, d, h).value.objects)
  {
    var vs' := ReceiveRecord(w, cfg, d, h).value.objects;
    var role := StaticRole(Client);
    var c := CreateByName(w.objects, cfg.classes, h.guid, h.className, role).value;
    CreateByNameValid(w.objects, cfg.classes, h.guid, h.className, role);
    DecodeBlockLayout(c.properties, d, h.start);
    assert forall i :: 0 <= i < |vs'| ==> vs'[i].guid == (w.objects + [c])[i].guid;
    assert ValidView(vs'[|w.objects|]);
  }

  lemma {:induction false} RecordsValid(w: World, cfg: Setup, d: seq<byte>, rs: seq<Record>)
    requires ValidObjects(w.objects) && ValidClasses(cfg.classes) && ApplyRecords(w, cfg, d, rs).Some?
    ensures ValidObjects(ApplyRecords(w, cfg, d, rs).value.objects)
    decreases |rs|
  {
    if rs != [] {
      ReceiveValid(w, cfg, d, rs[0]);
      RecordsValid(ReceiveRecord(w, cfg, d, rs[0]).value, cfg, d, rs[1..]);
    }
  }

  /** Replication keeps the objects valid. */
  lemma SnapshotValid(w: World, cfg: Setup, d: seq<byte>, p: nat)
    requires ValidObjects(w.objects) && ValidClasses(cfg.classes)
    requires p <= |d| && SnapshotFrom(w, cfg, d, p).Some?
    ensures ValidObjects(SnapshotFrom(w, cfg, d, p).value.objects)
  {
    RecordsValid(w, cfg, d, ParseRecords(d, p).value);
  }
}
