/** Fixed-width little-endian integers over bytes, as the engine stores them
    with memcpy on a little-endian machine (int = 4 bytes, ssize_t = 8 bytes). */
module Bytes {

  /** One byte of a page or of the file; a newtype over int keeps the
      arithmetic of the codecs linear for the verifier. */
  newtype Byte = x: int | 0 <= x < 256

  const INT32_MIN: int := -0x8000_0000
  const INT32_MAX: int := 0x7FFF_FFFF
  const INT64_MIN: int := -0x8000_0000_0000_0000
  const INT64_MAX: int := 0x7FFF_FFFF_FFFF_FFFF

  predicate IsInt32(x: int) { INT32_MIN <= x <= INT32_MAX }
  predicate IsInt64(x: int) { INT64_MIN <= x <= INT64_MAX }

  /** 256 to the power n: the number of values an n-byte field can hold. */
  function Pow256(n: nat): (r: nat)
    ensures r >= 1
  {
    if n == 0 then 1 else 256 * Pow256(n - 1)
  }

  function Zeros(n: nat): (z: seq<Byte>)
    ensures |z| == n
    ensures forall i :: 0 <= i < n ==> z[i] == 0
  {
    seq(n, _ => 0)
  }

  /** The n-byte little-endian encoding of a non-negative number. */
  function EncodeUnsigned(x: nat, n: nat): (bs: seq<Byte>)
    requires x < Pow256(n)
    ensures |bs| == n
  {
    if n == 0 then []
    else
      DivBound(x, Pow256(n - 1));
      [(x % 256) as Byte] + EncodeUnsigned(x / 256, n - 1)
  }

  lemma DivBound(x: nat, p: nat)
    requires x < 256 * p
    ensures x / 256 < p
    ensures x == x % 256 + 256 * (x / 256)
  {
  }

  /** The number whose little-endian encoding is bs. */
  function DecodeUnsigned(bs: seq<Byte>): (x: nat)
    ensures x < Pow256(|bs|)
  {
    if |bs| == 0 then 0 else bs[0] as nat + 256 * DecodeUnsigned(bs[1..])
  }

  lemma {:induction false} DecodeEncodeUnsigned(x: nat, n: nat)
    requires x < Pow256(n)
    ensures DecodeUnsigned(EncodeUnsigned(x, n)) == x
  {
    if n > 0 {
      DivBound(x, Pow256(n - 1));
      var y := x / 256;
      var bs := EncodeUnsigned(x, n);
      assert bs[0] as nat == x % 256;
      assert bs[1..] == EncodeUnsigned(y, n - 1);
      DecodeEncodeUnsigned(y, n - 1);
      assert DecodeUnsigned(bs) == x % 256 + 256 * y;
    }
  }

  lemma {:induction false} EncodeDecodeUnsigned(bs: seq<Byte>)
    ensures EncodeUnsigned(DecodeUnsigned(bs), |bs|) == bs
  {
    if |bs| > 0 {
      var x := DecodeUnsigned(bs);
      assert x % 256 == bs[0] as nat;
      assert x / 256 == DecodeUnsigned(bs[1..]);
      EncodeDecodeUnsigned(bs[1..]);
    }
  }

  lemma Pow256Widths()
    ensures Pow256(4) == 0x1_0000_0000
    ensures Pow256(8) == 0x1_0000_0000_0000_0000
  {
  }

  /** A C `int` as the four bytes memcpy writes (two's complement). */
  function EncodeInt32(x: int): (bs: seq<Byte>)
    requires IsInt32(x)
    ensures |bs| == 4
  {
    Pow256Widths();
    EncodeUnsigned(if x < 0 then x + 0x1_0000_0000 else x, 4)
  }

  function DecodeInt32(bs: seq<Byte>): (x: int)
    requires |bs| == 4
    ensures IsInt32(x)
  {
    Pow256Widths();
    var u := DecodeUnsigned(bs);
    if u > INT32_MAX then u - 0x1_0000_0000 else u
  }

  /** A C `ssize_t` as the eight bytes memcpy writes. */
  function EncodeInt64(x: int): (bs: seq<Byte>)
    requires IsInt64(x)
    ensures |bs| == 8
  {
    Pow256Widths();
    EncodeUnsigned(if x < 0 then x + 0x1_0000_0000_0000_0000 else x, 8)
  }

  function DecodeInt64(bs: seq<Byte>): (x: int)
    requires |bs| == 8
    ensures IsInt64(x)
  {
    Pow256Widths();
    var u := DecodeUnsigned(bs);
    if u > INT64_MAX then u - 0x1_0000_0000_0000_0000 else u
  }

  lemma DecodeEncodeInt32(x: int)
    requires IsInt32(x)
    ensures DecodeInt32(EncodeInt32(x)) == x
  {
    Pow256Widths();
    DecodeEncodeUnsigned(if x < 0 then x + 0x1_0000_0000 else x, 4);
  }

  lemma EncodeDecodeInt32(bs: seq<Byte>)
    requires |bs| == 4
    ensures EncodeInt32(DecodeInt32(bs)) == bs
  {
    Pow256Widths();
    EncodeDecodeUnsigned(bs);
  }

  lemma DecodeEncodeInt64(x: int)
    requires IsInt64(x)
    ensures DecodeInt64(EncodeInt64(x)) == x
  {
    Pow256Widths();
    DecodeEncodeUnsigned(if x < 0 then x + 0x1_0000_0000_0000_0000 else x, 8);
  }

  /** Conversion of a wider integer to a C `int`: two's-complement truncation,
      which is what the compilers this engine targets do for the
      implementation-defined narrowing conversion. */
  function ToInt32(x: int): (r: int)
    ensures IsInt32(r)
    ensures (r - x) % 0x1_0000_0000 == 0
    ensures IsInt32(x) ==> r == x
  {
    (x - INT32_MIN) % 0x1_0000_0000 + INT32_MIN
  }
}
