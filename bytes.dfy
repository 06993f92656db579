/**
 * Fixed-width little-endian words. Every typed `operator>>`/`operator<<` of the streams
 * copies `sizeof(T)` bytes of a value; on the little-endian targets the library is built
 * for, that is the little-endian encoding of the value in `sizeof(T)` bytes.
 */
module Bytes {

  type byte = x: int | 0 <= x < 0x100
  type u32 = x: int | 0 <= x < 0x1_0000_0000
  type u64 = x: int | 0 <= x < 0x1_0000_0000_0000_0000

  const U32_LIMIT: nat := 0x1_0000_0000

  /** A positive scale factor. */
  type Scale = x: nat | x >= 1 witness 1

  /** 256 to the power `w`: one more than the largest `w`-byte value. */
  function Pow256(w: nat): Scale
  {
    if w == 0 then 1 else 256 * Pow256(w - 1)
  }

  /** The truncating cast `(uint32_t)(n)` of the code's GX_NETWORK_SIZE_T_TO_UINT_32_T. */
  function Trunc32(n: nat): (r: u32)
    ensures n < U32_LIMIT ==> r == n
    ensures r <= n
  {
    n % U32_LIMIT
  }

  /** The `w` bytes of `x`, least significant first. */
  function LeBytes(w: nat, x: nat): (r: seq<byte>)
    requires x < Pow256(w)
    ensures |r| == w
  {
    if w == 0 then [] else [x % 256] + LeBytes(w - 1, x / 256)
  }

  /** The number whose little-endian encoding is `bs`. */
  function LeValue(bs: seq<byte>): (r: nat)
    ensures r < Pow256(|bs|)
  {
    if bs == [] then 0
    else
      var rest := LeValue(bs[1..]);
      assert rest <= Pow256(|bs| - 1) - 1;
      assert 256 * rest <= 256 * Pow256(|bs| - 1) - 256;
      bs[0] + 256 * rest
  }

  lemma {:induction false} LeValueOfBytes(w: nat, x: nat)
    requires x < Pow256(w)
    ensures LeValue(LeBytes(w, x)) == x
  {
    if w > 0 {
      LeValueOfBytes(w - 1, x / 256);
      assert LeBytes(w, x)[1..] == LeBytes(w - 1, x / 256);
    }
  }

  lemma {:induction false} LeBytesOfValue(bs: seq<byte>)
    ensures LeBytes(|bs|, LeValue(bs)) == bs
  {
    if bs != [] {
      var rest := LeValue(bs[1..]);
      assert (bs[0] + 256 * rest) % 256 == bs[0];
      assert (bs[0] + 256 * rest) / 256 == rest;
      LeBytesOfValue(bs[1..]);
    }
  }

  /** Encodings of equal width are equal only for equal values. */
  lemma LeBytesInjective(w: nat, x: nat, y: nat)
    requires x < Pow256(w) && y < Pow256(w)
    requires LeBytes(w, x) == LeBytes(w, y)
    ensures x == y
  {
    LeValueOfBytes(w, x);
    LeValueOfBytes(w, y);
  }

  lemma Pow256Four()
    ensures Pow256(4) == U32_LIMIT
  {
  }

  lemma Pow256Eight()
    ensures Pow256(8) == 0x1_0000_0000_0000_0000
  {
  }

  /** A uint32 field: the low 32 bits of `n`, in four bytes. */
  function Le32(n: nat): (r: seq<byte>)
    ensures |r| == 4
    ensures LeValue(r) == Trunc32(n)
  {
    Pow256Four();
    LeValueOfBytes(4, Trunc32(n));
    LeBytes(4, Trunc32(n))
  }

  /** Two's complement: the unsigned `w`-byte pattern of a signed value. */
  function ToUnsigned(w: nat, n: int): (r: nat)
    requires w > 0 && -((Pow256(w) / 2) as int) <= n < Pow256(w) / 2
    ensures r < Pow256(w)
  {
    if n < 0 then n + Pow256(w) else n
  }

  /** Two's complement: the signed value of a `w`-byte pattern. */
  function ToSigned(w: nat, x: nat): (r: int)
    requires w > 0 && x < Pow256(w)
    ensures -((Pow256(w) / 2) as int) <= r < Pow256(w) / 2
  {
    Pow256Even(w);
    if x >= Pow256(w) / 2 then x - Pow256(w) else x
  }

  lemma Pow256Even(w: nat)
    requires w > 0
    ensures Pow256(w) % 2 == 0
  {
  }

  lemma SignedRoundTrip(w: nat, n: int)
    requires w > 0 && -((Pow256(w) / 2) as int) <= n < Pow256(w) / 2
    ensures ToSigned(w, ToUnsigned(w, n)) == n
  {
    Pow256Even(w);
  }
}
