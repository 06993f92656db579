/**
 * FManager: the list of connected peers, the event broadcast, and the `ProcessResponse`
 * demultiplexer that reads a packet of commands and hands each to its handler hook.
 * The hooks are parameters: a command handler is a function from the peer and the decoded
 * command to its success and the bytes it writes into the output stream.
 */
module Managers {
  import opened Options
  import opened Bytes
  import opened Buffers
  import opened Streams
  import opened NetTypes
  import opened Commands
  import opened Remotes
  import Ev = Events

  /** An `OnRemoteEngineConnected`/`OnRemoteEngineDisconnected` hook call. */
  datatype Note = Connected(guid: Guid) | Disconnected(guid: Guid)

  /** What an `OnProcessResponse*` hook returns, and what it writes into the output stream. */
  datatype Reply = Reply(ok: bool, output: seq<byte>)

  type Handler = (Guid, Command) -> Reply

  function Guids(rs: seq<RemoteEngine>): (gs: seq<Guid>)
    ensures |gs| == |rs| && forall i :: 0 <= i < |rs| ==> gs[i] == rs[i].guid
  {
    if rs == [] then [] else [rs[0].guid] + Guids(rs[1..])
  }

  /** Two peers share neither a GUID nor an events frame. */
  predicate Apart(x: RemoteEngine, y: RemoteEngine)
  {
    x.guid != y.guid && x.eventsFrame != y.eventsFrame
  }

  predicate Distinct(rs: seq<RemoteEngine>)
  {
    forall i, j :: 0 <= i < j < |rs| ==> Apart(rs[i], rs[j])
  }

  /** The GUIDs after `RemoteEngineConnected(g)`: unchanged if `g` is there, else `g` at the end. */
  function Connect(gs: seq<Guid>, g: Guid): seq<Guid>
  {
    if g in gs then gs else gs + [g]
  }

  /** Connecting the same peer twice is connecting it once. */
  lemma ConnectIdempotent(gs: seq<Guid>, g: Guid)
    ensures Connect(Connect(gs, g), g) == Connect(gs, g)
    ensures g in Connect(gs, g)
  {
  }

  /** `remove_if` then `erase`: the peers with another GUID, in their order. */
  function Without(rs: seq<RemoteEngine>, g: Guid): seq<RemoteEngine>
  {
    if rs == [] then []
    else Without(rs[..|rs| - 1], g) + if rs[|rs| - 1].guid == g then [] else [rs[|rs| - 1]]
  }

  /** What is left are exactly the peers of other GUIDs. */
  lemma {:induction false} WithoutMembers(rs: seq<RemoteEngine>, g: Guid)
    ensures var r := Without(rs, g);
      && (forall i :: 0 <= i < |r| ==> r[i] in rs && r[i].guid != g)
      && (forall i :: 0 <= i < |rs| && rs[i].guid != g ==> rs[i] in r)
      && g !in Guids(r)
  {
    if rs != [] {
      var init, last := rs[..|rs| - 1], rs[|rs| - 1];
      assert forall i :: 0 <= i < |rs| - 1 ==> rs[i] == init[i];
      assert rs == init + [last];
      WithoutMembers(init, g);
    }
  }

  /** Removing peers keeps the others apart. */
  lemma {:induction false} WithoutDistinct(rs: seq<RemoteEngine>, g: Guid)
    requires Distinct(rs)
    ensures Distinct(Without(rs, g))
  {
    if rs != [] {
      var init, last := rs[..|rs| - 1], rs[|rs| - 1];
      assert Distinct(init) by {
        forall i, j | 0 <= i < j < |init| ensures Apart(init[i], init[j]) {
          assert init[i] == rs[i] && init[j] == rs[j];
        }
      }
      WithoutDistinct(init, g);
      WithoutMembers(init, g);
      if last.guid != g {
        var w := Without(init, g);
        forall j | 0 <= j < |w| ensures Apart(w[j], last) {
          var k :| 0 <= k < |init| && init[k] == w[j];
          assert rs[k] == w[j];
        }
        DistinctSnoc(w, last);
      }
    }
  }

  /** In a list of distinct peers no other peer shares the events frame of peer `i`. */
  lemma OwnFrame(rs: seq<RemoteEngine>, i: nat)
    requires Distinct(rs) && i < |rs|
    ensures forall j :: 0 <= j < |rs| && j != i ==> rs[j].eventsFrame != rs[i].eventsFrame
  {
    forall j | 0 <= j < |rs| && j != i ensures rs[j].eventsFrame != rs[i].eventsFrame {
      if j < i { assert Apart(rs[j], rs[i]); } else { assert Apart(rs[i], rs[j]); }
    }
  }

  lemma DistinctSnoc(rs: seq<RemoteEngine>, x: RemoteEngine)
    requires Distinct(rs) && forall j :: 0 <= j < |rs| ==> Apart(rs[j], x)
    ensures Distinct(rs + [x])
  {
    var r' := rs + [x];
    forall i, j | 0 <= i < j < |r'| ensures Apart(r'[i], r'[j]) {
      assert r'[i] == rs[i];
      if j < |rs| {
        assert r'[j] == rs[j];
      }
    }
  }

  /** Removing the peers of a GUID other than `g'` keeps every peer of `g'`. */
  lemma WithoutKeepsOthers(rs: seq<RemoteEngine>, g: Guid, g': Guid)
    requires g' != g
    ensures g' in Guids(Without(rs, g)) <==> g' in Guids(rs)
  {
    WithoutMembers(rs, g);
    if g' in Guids(rs) {
      var i :| 0 <= i < |rs| && Guids(rs)[i] == g';
      var w := Without(rs, g);
      assert rs[i] in w;
      var k :| 0 <= k < |w| && w[k] == rs[i];
      assert Guids(w)[k] == g';
    }
    if g' in Guids(Without(rs, g)) {
      var w := Without(rs, g);
      var k :| 0 <= k < |w| && Guids(w)[k] == g';
      assert w[k] in rs;
      var i :| 0 <= i < |rs| && rs[i] == w[k];
      assert Guids(rs)[i] == g';
    }
  }

  /** The handler calls of the loop over a run of decoded commands: it stops at the first failing handler. */
  function Run(peer: Guid, cs: seq<Command>, handler: Handler): Reply
  {
    if cs == [] then Reply(true, [])
    else
      var r := handler(peer, cs[0]);
      if !r.ok then r
      else
        var rest := Run(peer, cs[1..], handler);
        Reply(rest.ok, r.output + rest.output)
  }

  /** `ProcessResponse` over a parsed packet: a bad tag after the commands also fails. */
  function Respond(peer: Guid, b: Batch, handler: Handler): Reply
  {
    var r := Run(peer, b.commands, handler);
    Reply(r.ok && b.complete, r.output)
  }

  /** The bytes every handler writes, in order. */
  function Outputs(peer: Guid, cs: seq<Command>, handler: Handler): seq<byte>
  {
    if cs == [] then [] else handler(peer, cs[0]).output + Outputs(peer, cs[1..], handler)
  }

  /** Success exactly when every handler succeeds; then the output is all they wrote. */
  lemma {:induction false} RunSucceeds(peer: Guid, cs: seq<Command>, handler: Handler)
    ensures Run(peer, cs, handler).ok <==> forall i :: 0 <= i < |cs| ==> handler(peer, cs[i]).ok
    ensures Run(peer, cs, handler).ok ==> Run(peer, cs, handler).output == Outputs(peer, cs, handler)
  {
    if cs != [] {
      RunSucceeds(peer, cs[1..], handler);
      assert forall i :: 1 <= i < |cs| ==> cs[i] == cs[1..][i - 1];
    }
  }

  /** The first failing handler ends the loop: the output is what the handlers up to and including it wrote. */
  lemma {:induction false} RunStops(peer: Guid, cs: seq<Command>, handler: Handler, k: nat)
    requires k < |cs| && !handler(peer, cs[k]).ok
    requires forall i :: 0 <= i < k ==> handler(peer, cs[i]).ok
    ensures Run(peer, cs, handler) == Reply(false, Outputs(peer, cs[..k + 1], handler))
  {
    if k > 0 {
      assert forall i :: 0 <= i < k - 1 ==> cs[1..][i] == cs[i + 1];
      RunStops(peer, cs[1..], handler, k - 1);
      assert cs[..k + 1][1..] == cs[1..][..k];
    } else {
      assert cs[..1][1..] == [];
    }
  }

  /** `ProcessResponse` succeeds exactly when the packet is read to the end and every handler succeeds. */
  lemma RespondSucceeds(peer: Guid, b: Batch, handler: Handler)
    ensures Respond(peer, b, handler).ok <==> b.complete && forall i :: 0 <= i < |b.commands| ==> handler(peer, b.commands[i]).ok
  {
    RunSucceeds(peer, b.commands, handler);
  }

  /** One step of the loop: the reply to a packet is the first handler's, then the rest's. */
  lemma RespondCons(peer: Guid, c: Command, rest: Batch, handler: Handler)
    ensures var r := handler(peer, c);
      Respond(peer, Batch([c] + rest.commands, rest.complete), handler)
      == if !r.ok then r else var t := Respond(peer, rest, handler); Reply(t.ok, r.output + t.output)
  {
    assert ([c] + rest.commands)[1..] == rest.commands;
  }

  /** The reply after `out` was written, with `t` still to come. */
  function After(out: seq<byte>, t: Reply): Reply
  {
    Reply(t.ok, out + t.output)
  }

  /**
   * The `ProcessResponse` loop over the bytes from `p`, reading as it goes: a tag, the command
   * of that tag, then its handler, going on only while the handlers succeed. None where a read
   * the loop makes would pass the end of the buffer; nothing after a bad tag or a failing
   * handler is read.
   */
  function ResponseFrom(peer: Guid, d: seq<byte>, p: nat, handler: Handler): Option<Reply>
    requires p <= |d|
    decreases |d| - p
  {
    if p == |d| then Some(Reply(true, []))
    else if d[p] >= COMMAND_MAX_VALUE then Some(Reply(false, []))
    else
      var c :- DecodeCommand(d[p], d, p + 1);
      var r := handler(peer, c.value);
      if !r.ok then Some(r)
      else
        var t :- ResponseFrom(peer, d, c.next, handler);
        Some(After(r.output, t))
  }

  /**
   * Where the whole packet parses, the loop's reply is `Respond` over the parsed commands, so
   * `RespondSucceeds` and `RunStops` describe it.
   */
  lemma {:induction false} ResponseOfParsed(peer: Guid, d: seq<byte>, p: nat, handler: Handler)
    requires p <= |d| && ParseCommands(d, p).Some?
    ensures ResponseFrom(peer, d, p, handler) == Some(Respond(peer, ParseCommands(d, p).value, handler))
    decreases |d| - p
  {
    if p < |d| && d[p] < COMMAND_MAX_VALUE {
      var c := DecodeCommand(d[p], d, p + 1).value;
      var rest := ParseCommands(d, c.next).value;
      assert ParseCommands(d, p).value == Batch([c.value] + rest.commands, rest.complete);
      RespondCons(peer, c.value, rest, handler);
      if handler(peer, c.value).ok {
        ResponseOfParsed(peer, d, c.next, handler);
      }
    }
  }

  /**
   * A failing handler ends the loop with its own reply, whatever bytes follow its command:
   * they are never read.
   */
  lemma ResponseStops(peer: Guid, d: seq<byte>, p: nat, handler: Handler, c: Command, next: nat)
    requires p < |d| && d[p] < COMMAND_MAX_VALUE && DecodeCommand(d[p], d, p + 1) == Some(Parsed(c, next))
    requires !handler(peer, c).ok
    ensures ResponseFrom(peer, d, p, handler) == Some(handler(peer, c))
  {
  }

  /**
   * A refused Ping followed by the tag of an events frame reply with no size field: the loop
   * stops after the Ping with its handler's reply, though the packet as a whole does not parse.
   */
  lemma RefusedPingBeforeTruncatedReply(peer: Guid, handler: Handler)
    requires !handler(peer, Ping).ok
    ensures ParseCommands([PING, EVENTS_FRAME_RECIEVE], 0).None?
    ensures ResponseFrom(peer, [PING, EVENTS_FRAME_RECIEVE], 0, handler) == Some(handler(peer, Ping))
  {
    var d: seq<byte> := [PING, EVENTS_FRAME_RECIEVE];
    assert DecodeCommand(d[1], d, 2).None?;
  }

  class Manager {
    var remotes: seq<RemoteEngine>
    ghost var notes: seq<Note>
    /** Every event broadcast so far, in order. */
    ghost var broadcasts: seq<Ev.Event>

    ghost predicate Valid()
      reads this`remotes
    {
      Distinct(remotes)
    }

    ghost function Frames(): set<Buffer>
      reads this`remotes
    {
      set i | 0 <= i < |remotes| :: remotes[i].eventsFrame
    }

    constructor ()
      ensures Valid() && remotes == [] && notes == [] && broadcasts == []
    {
      remotes := [];
      notes := [];
      broadcasts := [];
    }

    /** `Init` answers with the `OnInit` hook's result. */
    method Init(onInit: bool) returns (ok: bool)
      ensures ok == onInit
    {
      ok := onInit;
    }

    /** Every peer's frame gets the tagged event once, in list order; the list itself is untouched. */
    method BroadcastEvent(e: Ev.Event)
      requires Valid()
      modifies this`broadcasts, Frames()
      ensures remotes == old(remotes) && broadcasts == old(broadcasts) + [e]
      ensures forall i :: 0 <= i < |remotes| ==>
        remotes[i].eventsFrame.Valid() && remotes[i].eventsFrame.data == old(remotes[i].eventsFrame.data) + Ev.EncodeTagged(e)
    {
      for i := 0 to |remotes|
        invariant forall j :: 0 <= j < i ==>
          remotes[j].eventsFrame.Valid() && remotes[j].eventsFrame.data == old(remotes[j].eventsFrame.data) + Ev.EncodeTagged(e)
        invariant forall j :: i <= j < |remotes| ==> remotes[j].eventsFrame.data == old(remotes[j].eventsFrame.data)
        invariant broadcasts == old(broadcasts)
      {
        OwnFrame(remotes, i);
        remotes[i].PushEvent(e);
      }
      broadcasts := broadcasts + [e];
    }

    /** The first peer with the GUID, or null. */
    method FindRemoteEngine(g: Guid) returns (r: RemoteEngine?)
      ensures r == if g in Guids(remotes) then remotes[IndexOf(Guids(remotes), g).value] else null
    {
      var i := 0;
      while i < |remotes|
        invariant i <= |remotes| && g !in Guids(remotes)[..i]
      {
        if remotes[i].guid == g {
          assert IndexOf(Guids(remotes), g) == Some(i);
          return remotes[i];
        }
        assert Guids(remotes)[..i + 1] == Guids(remotes)[..i] + [remotes[i].guid];
        i := i + 1;
      }
      assert Guids(remotes)[..i] == Guids(remotes);
      return null;
    }

    /** A new peer with an empty frame goes to the end of the list. */
    method CreateRemoteEngine(g: Guid) returns (r: RemoteEngine)
      requires Valid() && g !in Guids(remotes)
      modifies this`remotes
      ensures Valid()
      ensures fresh(r) && fresh(r.eventsFrame) && r.guid == g && r.eventsFrame.data == []
      ensures remotes == old(remotes) + [r]
    {
      r := new RemoteEngine(g);
      forall j | 0 <= j < |remotes| ensures Apart(remotes[j], r) {
        assert remotes[j].guid == Guids(remotes)[j];
      }
      remotes := remotes + [r];
    }

    /** Drops every peer with the GUID, keeping the others in order; returns the one dropped, or null. */
    method RemoveRemoteEngine(g: Guid) returns (r: RemoteEngine?)
      requires Valid()
      modifies this`remotes
      ensures Valid()
      ensures remotes == Without(old(remotes), g)
      ensures r != null <==> g in Guids(old(remotes))
      ensures r != null ==> r in old(remotes) && r.guid == g
    {
      var kept;
      kept, r := RemoveIf(remotes, g);
      WithoutDistinct(remotes, g);
      remotes := kept;
    }

    method RemoteEngineConnected(g: Guid)
      requires Valid()
      modifies this`remotes, this`notes
      ensures Valid()
      ensures Guids(remotes) == Connect(Guids(old(remotes)), g)
      ensures g in Guids(old(remotes)) ==> remotes == old(remotes) && notes == old(notes)
      ensures g !in Guids(old(remotes)) ==>
        && remotes[..|old(remotes)|] == old(remotes) && fresh(remotes[|old(remotes)|].eventsFrame)
        && remotes[|old(remotes)|].eventsFrame.data == []
        && notes == old(notes) + [Connected(g)]
    {
      var found := FindRemoteEngine(g);
      if found == null {
        var r := CreateRemoteEngine(g);
        GuidsAppend(old(remotes), r);
        assert remotes[..|old(remotes)|] == old(remotes);
        notes := notes + [Connected(g)];
      }
    }

    method RemoteEngineDisconnected(g: Guid)
      requires Valid()
      modifies this`remotes, this`notes
      ensures Valid()
      ensures remotes == Without(old(remotes), g)
      ensures notes == old(notes) + if g in Guids(old(remotes)) then [Disconnected(g)] else []
    {
      var r := RemoveRemoteEngine(g);
      if r != null {
        notes := notes + [Disconnected(g)];
      }
    }

    /**
     * Reads commands from `input` until its end, a bad tag or a failing handler, and returns
     * whether all went well; handlers write at the end of `output`. A packet from an unknown
     * peer is refused without reading it.
     */
    method ProcessResponse(g: Guid, input: Buffer, output: Buffer, handler: Handler) returns (ok: bool)
      requires Valid() && input != output
      requires g in Guids(remotes) ==> ResponseFrom(g, input.data, 0, handler).Some?
      modifies output
      ensures g !in Guids(remotes) ==> !ok && output.data == old(output.data)
      ensures g in Guids(remotes) ==>
        var reply := ResponseFrom(g, input.data, 0, handler).value;
        ok == reply.ok && output.data == old(output.data) + reply.output
    {
      var istream := new IStream(input);
      var ostream := new OStream(output);
      var remote := FindRemoteEngine(g);
      if remote == null {
        return false;
      }
      ok := Demux(g, istream, ostream, handler, input.data, output.data);
    }
  }

  /** The `while (result && !istream.IsEOF())` loop of `ProcessResponse`. */
  method Demux(g: Guid, istream: IStream, ostream: OStream, handler: Handler, ghost d: seq<byte>, ghost d0: seq<byte>)
    returns (ok: bool)
    requires istream.buffer != ostream.buffer
    requires d == istream.buffer.data && istream.pos == 0 && ResponseFrom(g, d, 0, handler).Some?
    requires d0 == ostream.buffer.data && ostream.pos == |d0|
    modifies istream, ostream, ostream.buffer
    ensures var reply := ResponseFrom(g, d, 0, handler).value;
      ok == reply.ok && ostream.buffer.data == d0 + reply.output
  {
    ghost var reply := ResponseFrom(g, d, 0, handler).value;
    ghost var out: seq<byte> := [];
    assert reply == After(out, reply);
    ok := true;
    var eof := istream.IsEOF();
    while ok && !eof
      invariant istream.buffer.data == d
      invariant istream.pos <= |d| && (eof <==> istream.pos == |d|)
      invariant ostream.buffer.data == d0 + out && ostream.pos == |ostream.buffer.data|
      invariant ok ==> Pending(g, d, istream.pos, handler, out, reply)
      invariant !ok ==> reply == Reply(false, out)
      decreases |d| - istream.pos
    {
      ok, out := DemuxStep(g, istream, ostream, handler, d, d0, out, reply);
      eof := istream.IsEOF();
    }
    if ok {
      EndReply(g, d, handler, out, reply);
    }
  }

  /** The loop, at `p` with `out` written, is bound to end with `reply`. */
  predicate Pending(g: Guid, d: seq<byte>, p: nat, handler: Handler, out: seq<byte>, reply: Reply)
  {
    p <= |d| && ResponseFrom(g, d, p, handler).Some? && reply == After(out, ResponseFrom(g, d, p, handler).value)
  }

  /** One round of the loop: read a tag, then either stop on a bad tag or run the command's handler. */
  method DemuxStep(g: Guid, istream: IStream, ostream: OStream, handler: Handler,
                   ghost d: seq<byte>, ghost d0: seq<byte>, ghost out: seq<byte>, ghost reply: Reply)
    returns (ok: bool, ghost out': seq<byte>)
    requires istream.buffer != ostream.buffer
    requires istream.buffer.data == d && istream.pos < |d|
    requires Pending(g, d, istream.pos, handler, out, reply)
    requires ostream.buffer.data == d0 + out && ostream.pos == |ostream.buffer.data|
    modifies istream, ostream, ostream.buffer
    ensures istream.buffer.data == d && old(istream.pos) < istream.pos <= |d|
    ensures ostream.buffer.data == d0 + out' && ostream.pos == |ostream.buffer.data|
    ensures ok ==> Pending(g, d, istream.pos, handler, out', reply)
    ensures !ok ==> reply == Reply(false, out')
  {
    ghost var p := istream.pos;
    var v := istream.ReadByte();
    if v >= COMMAND_MAX_VALUE {
      BadTagReply(g, d, p, handler, out, reply);
      return false, out;
    }
    var c := ReadCommand(istream, v);
    var r := handler(g, c);
    ReplyStep(g, d, p, c, istream.pos, handler, out, reply);
    ostream.Write(r.output);
    InsertAtEndIsAppend(d0 + out, r.output);
    out' := out + r.output;
    ok := r.ok;
  }

  /** A tag of `ECommand::MaxValue` or more ends the loop with a failure and nothing more written. */
  lemma BadTagReply(g: Guid, d: seq<byte>, p: nat, handler: Handler, out: seq<byte>, reply: Reply)
    requires p < |d| && d[p] >= COMMAND_MAX_VALUE && Pending(g, d, p, handler, out, reply)
    ensures reply == Reply(false, out)
  {
    assert out + [] == out;
  }

  /** The end of the buffer: success, with everything written. */
  lemma EndReply(g: Guid, d: seq<byte>, handler: Handler, out: seq<byte>, reply: Reply)
    requires Pending(g, d, |d|, handler, out, reply)
    ensures reply == Reply(true, out)
  {
    assert out + [] == out;
  }

  /** One handled command: its output is written, and on failure nothing after it. */
  lemma ReplyStep(g: Guid, d: seq<byte>, p: nat, c: Command, next: nat, handler: Handler, out: seq<byte>, reply: Reply)
    requires p < |d| && d[p] < COMMAND_MAX_VALUE && DecodeCommand(d[p], d, p + 1) == Some(Parsed(c, next))
    requires Pending(g, d, p, handler, out, reply)
    ensures var r := handler(g, c);
      if r.ok then next <= |d| && Pending(g, d, next, handler, out + r.output, reply) else reply == Reply(false, out + r.output)
  {
    var r := handler(g, c);
    if r.ok {
      var t := ResponseFrom(g, d, next, handler).value;
      assert out + (r.output + t.output) == (out + r.output) + t.output;
    }
  }

  /** The `remove_if` pass: keeps the other peers and remembers the last one it drops. */
  method RemoveIf(rs: seq<RemoteEngine>, g: Guid) returns (kept: seq<RemoteEngine>, r: RemoteEngine?)
    ensures kept == Without(rs, g)
    ensures r != null <==> g in Guids(rs)
    ensures r != null ==> r in rs && r.guid == g
  {
    kept := [];
    r := null;
    var i := 0;
    while i < |rs|
      invariant i <= |rs|
      invariant kept == Without(rs[..i], g)
      invariant r != null <==> g in Guids(rs[..i])
      invariant r != null ==> r in rs && r.guid == g
    {
      RemoveIfStep(rs, i, g);
      if rs[i].guid == g {
        r := rs[i];
      } else {
        kept := kept + [rs[i]];
      }
      i := i + 1;
    }
    assert rs[..i] == rs;
  }

  lemma RemoveIfStep(rs: seq<RemoteEngine>, i: nat, g: Guid)
    requires i < |rs|
    ensures Without(rs[..i + 1], g) == Without(rs[..i], g) + if rs[i].guid == g then [] else [rs[i]]
    ensures Guids(rs[..i + 1]) == Guids(rs[..i]) + [rs[i].guid]
  {
    assert rs[..i + 1][..i] == rs[..i];
    assert rs[..i + 1] == rs[..i] + [rs[i]];
    GuidsAppend(rs[..i], rs[i]);
  }

  lemma GuidsAppend(rs: seq<RemoteEngine>, r: RemoteEngine)
    ensures Guids(rs + [r]) == Guids(rs) + [r.guid]
  {
  }
}
