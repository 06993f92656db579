/**
 * FBuffer: a growable byte vector. Its contents are `data`; `capacity` is the
 * smallest capacity the standard library guarantees after the calls made so far
 * (the requested reservation, and never less than the size).
 */
module Buffers {
  import opened Bytes

  function Max(a: nat, b: nat): nat { if a < b then b else a }

  /** `std::vector::insert(begin() + p, chunk)`: the chunk lands at `p`, later bytes shift right. */
  function Inserted(data: seq<byte>, chunk: seq<byte>, p: nat): (r: seq<byte>)
    requires p <= |data|
    ensures |r| == |data| + |chunk|
  {
    data[..p] + chunk + data[p..]
  }

  /** Inserting at the end is appending. */
  lemma InsertAtEndIsAppend(data: seq<byte>, chunk: seq<byte>)
    ensures Inserted(data, chunk, |data|) == data + chunk
  {
    assert data[|data|..] == [];
  }

  /** The inserted bytes sit where they were inserted. */
  lemma InsertedWindow(data: seq<byte>, chunk: seq<byte>, p: nat, stop: nat)
    requires p <= |data| && stop == p + |chunk|
    ensures stop <= |Inserted(data, chunk, p)| && Inserted(data, chunk, p)[p..stop] == chunk
  {
    var r := Inserted(data, chunk, p);
    assert r == data[..p] + chunk + data[p..];
    assert forall i :: p <= i < stop ==> r[i] == chunk[i - p];
  }

  /** Two inserts, the second just after the first, are one insert of the concatenation. */
  lemma InsertedTwice(data: seq<byte>, a: seq<byte>, b: seq<byte>, p: nat)
    requires p <= |data|
    ensures Inserted(Inserted(data, a, p), b, p + |a|) == Inserted(data, a + b, p)
  {
    var once := Inserted(data, a, p);
    assert once[..p + |a|] == data[..p] + a;
    assert once[p + |a|..] == data[p..];
  }

  /** An insert at the position of an earlier insert lands in front of it (a size prefix written after its payload). */
  lemma InsertedBefore(data: seq<byte>, a: seq<byte>, b: seq<byte>, p: nat)
    requires p <= |data|
    ensures Inserted(Inserted(data, a, p), b, p) == Inserted(data, b + a, p)
  {
    var once := Inserted(data, a, p);
    assert once[..p] == data[..p];
    assert once[p..] == a + data[p..];
  }

  /** `std::vector::resize(n)`: truncates, or pads with value-initialised (zero) bytes. */
  function Resized(data: seq<byte>, n: nat): (r: seq<byte>)
    ensures |r| == n
    ensures n <= |data| ==> r == data[..n]
    ensures n > |data| ==> r[..|data|] == data && forall i :: |data| <= i < n ==> r[i] == 0
  {
    if n <= |data| then data[..n] else data + seq(n - |data|, _ => 0)
  }

  class Buffer {
    var data: seq<byte>
    var capacity: nat

    ghost predicate Valid()
      reads this
    {
      |data| <= capacity
    }

    /** `FBuffer(c)`: an empty vector with `reserve(c)`. */
    constructor (c: u32)
      ensures Valid()
      ensures data == [] && capacity == c
    {
      data := [];
      capacity := c;
    }

    method Clear()
      modifies this
      ensures Valid()
      ensures data == [] && capacity == old(capacity)
    {
      data := [];
    }

    method Resize(n: u32)
      modifies this
      ensures Valid()
      ensures data == Resized(old(data), n)
      ensures capacity == Max(old(capacity), n)
    {
      data := Resized(data, n);
      capacity := Max(capacity, n);
    }

    method Reserve(n: u32)
      modifies this
      ensures Valid()
      ensures data == old(data)
      ensures capacity == Max(Max(old(capacity), n), |data|)
    {
      capacity := Max(Max(capacity, n), |data|);
    }

    method Size() returns (n: nat)
      ensures n == |data|
    {
      n := |data|;
    }

    method Capacity() returns (c: nat)
      requires Valid()
      ensures c == capacity && |data| <= c
    {
      c := capacity;
    }

    /** The const `Data()` accessor: a view of the bytes, changing nothing. */
    method Data() returns (d: seq<byte>)
      ensures d == data
    {
      d := data;
    }

    method Append(chunk: seq<byte>)
      modifies this
      ensures Valid()
      ensures data == old(data) + chunk
      ensures |data| == |old(data)| + |chunk|
      ensures capacity == Max(old(capacity), |data|)
    {
      data := data + chunk;
      capacity := Max(capacity, |data|);
    }

    method Insert(chunk: seq<byte>, position: nat)
      requires position <= |data|
      modifies this
      ensures Valid()
      ensures data == Inserted(old(data), chunk, position)
      ensures capacity == Max(old(capacity), |data|)
    {
      data := Inserted(data, chunk, position);
      capacity := Max(capacity, |data|);
    }
  }
}
