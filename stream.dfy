/**
 * FIStream and FOStream: cursors over a shared FBuffer. A reader starts at 0 and
 * only reads; a writer starts at the end of the buffer and INSERTS at its cursor, so a
 * writer rewound with SetPos shifts the later bytes right instead of overwriting them.
 */
module Streams {
  import opened Bytes
  import opened Buffers

  class IStream {
    const buffer: Buffer
    var pos: nat

    constructor (b: Buffer)
      ensures buffer == b && pos == 0
    {
      buffer := b;
      pos := 0;
    }

    method Pos() returns (p: nat)
      ensures p == pos
    {
      p := pos;
    }

    method SetPos(p: nat)
      modifies this
      ensures pos == p
    {
      pos := p;
    }

    method IsEOF() returns (eof: bool)
      requires pos <= |buffer.data|
      ensures eof <==> pos == |buffer.data|
    {
      eof := pos == |buffer.data|;
    }

    /** The `n` bytes at the cursor; the cursor moves past them. */
    method Read(n: nat) returns (chunk: seq<byte>)
      requires pos + n <= |buffer.data|
      modifies this
      ensures chunk == buffer.data[old(pos)..old(pos) + n]
      ensures pos == old(pos) + n
    {
      chunk := buffer.data[pos..pos + n];
      pos := pos + n;
    }

    /** Typed `operator>>` for a value of `sizeof(T) == w` bytes. */
    method ReadWord(w: nat) returns (x: nat)
      requires pos + w <= |buffer.data|
      modifies this
      ensures x < Pow256(w)
      ensures x == LeValue(buffer.data[old(pos)..old(pos) + w])
      ensures pos == old(pos) + w
    {
      var chunk := Read(w);
      x := LeValue(chunk);
    }

    method ReadByte() returns (b: byte)
      requires pos + 1 <= |buffer.data|
      modifies this
      ensures b == buffer.data[old(pos)]
      ensures pos == old(pos) + 1
    {
      var x := ReadWord(1);
      var chunk := buffer.data[old(pos)..old(pos) + 1];
      assert chunk[1..] == [];
      b := x;
    }

    method ReadU32() returns (x: u32)
      requires pos + 4 <= |buffer.data|
      modifies this
      ensures x == LeValue(buffer.data[old(pos)..old(pos) + 4])
      ensures pos == old(pos) + 4
    {
      Pow256Four();
      var v := ReadWord(4);
      x := v;
    }
  }

  class OStream {
    const buffer: Buffer
    var pos: nat

    /** A writer's cursor starts at the current end of the buffer. */
    constructor (b: Buffer)
      ensures buffer == b && pos == |b.data|
    {
      buffer := b;
      pos := |b.data|;
    }

    method Pos() returns (p: nat)
      ensures p == pos
    {
      p := pos;
    }

    /** Moves only the cursor; the contents stay as they are. */
    method SetPos(p: nat)
      modifies this
      ensures pos == p
    {
      pos := p;
    }

    /** Inserts the chunk at the cursor and moves the cursor past it. */
    method Write(chunk: seq<byte>)
      requires pos <= |buffer.data|
      modifies this, buffer
      ensures buffer.Valid()
      ensures buffer.data == Inserted(old(buffer.data), chunk, old(pos))
      ensures pos == old(pos) + |chunk|
    {
      buffer.Insert(chunk, pos);
      pos := pos + |chunk|;
    }

    /** Typed `operator<<` for a value of `sizeof(T) == w` bytes. */
    method WriteWord(w: nat, x: nat)
      requires x < Pow256(w)
      requires pos <= |buffer.data|
      modifies this, buffer
      ensures buffer.Valid()
      ensures buffer.data == Inserted(old(buffer.data), LeBytes(w, x), old(pos))
      ensures pos == old(pos) + w
    {
      Write(LeBytes(w, x));
    }

    method WriteByte(b: byte)
      requires pos <= |buffer.data|
      modifies this, buffer
      ensures buffer.Valid()
      ensures buffer.data == Inserted(old(buffer.data), [b], old(pos))
      ensures pos == old(pos) + 1
    {
      Write([b]);
    }

    method WriteU32(x: u32)
      requires pos <= |buffer.data|
      modifies this, buffer
      ensures buffer.Valid()
      ensures buffer.data == Inserted(old(buffer.data), Le32(x), old(pos))
      ensures pos == old(pos) + 4
    {
      Write(Le32(x));
    }
  }

  /** Writing a `w`-byte value at `p` and reading `w` bytes back at `p` yields the value. */
  lemma WordWriteThenRead(data: seq<byte>, p: nat, w: nat, x: nat)
    requires p <= |data| && x < Pow256(w)
    ensures LeValue(Inserted(data, LeBytes(w, x), p)[p..p + w]) == x
  {
    LeValueOfBytes(w, x);
  }

  function Concat(chunks: seq<seq<byte>>): seq<byte>
  {
    if chunks == [] then [] else chunks[0] + Concat(chunks[1..])
  }

  /** The buffer after a writer at `p` writes the chunks one after another, without SetPos. */
  function WriteAll(data: seq<byte>, p: nat, chunks: seq<seq<byte>>): seq<byte>
    requires p <= |data|
    decreases |chunks|
  {
    if chunks == [] then data
    else WriteAll(Inserted(data, chunks[0], p), p + |chunks[0]|, chunks[1..])
  }

  /** Consecutive writes insert their concatenation; from the end, they append it. */
  lemma {:induction false} WriteAllIsOneInsert(data: seq<byte>, p: nat, chunks: seq<seq<byte>>)
    requires p <= |data|
    ensures WriteAll(data, p, chunks) == Inserted(data, Concat(chunks), p)
    ensures p == |data| ==> WriteAll(data, p, chunks) == data + Concat(chunks)
    decreases |chunks|
  {
    if chunks == [] {
      assert data[..p] + [] + data[p..] == data;
    } else {
      var once := Inserted(data, chunks[0], p);
      WriteAllIsOneInsert(once, p + |chunks[0]|, chunks[1..]);
      InsertedTwice(data, chunks[0], Concat(chunks[1..]), p);
    }
    InsertAtEndIsAppend(data, Concat(chunks));
  }
}
