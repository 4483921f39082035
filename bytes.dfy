/**
 * Byte-level encodings. The source copies the native in-memory image of a
 * fixed-width value into its byte buffer; this model fixes that image as
 * little-endian two's complement.
 */
module Bytes {

  type Byte = x: int | 0 <= x < 256

  /** 256^n, the number of values n bytes can hold. */
  function Pow256(n: nat): (r: nat)
    ensures r >= 1
    ensures n >= 1 ==> r >= 256 && r % 2 == 0
  {
    if n == 0 then 1 else 256 * Pow256(n - 1)
  }

  /** The ranges of the 32- and 64-bit integer types. */
  lemma Pow256Widths()
    ensures Pow256(4) == 0x1_0000_0000
    ensures Pow256(8) == 0x1_0000_0000_0000_0000
  {
    assert Pow256(2) == 0x1_0000;
    assert Pow256(4) == 0x1_0000 * Pow256(2);
    assert Pow256(6) == 0x1_0000 * Pow256(4);
    assert Pow256(8) == 0x1_0000 * Pow256(6);
  }

  /** The n-byte little-endian image of v (v taken modulo 256^n). */
  function EncodeLE(v: nat, n: nat): (r: seq<Byte>)
    ensures |r| == n
  {
    if n == 0 then [] else [v % 256] + EncodeLE(v / 256, n - 1)
  }

  /** The unsigned number whose little-endian image is bs. */
  function DecodeLE(bs: seq<Byte>): (r: nat)
    ensures r < Pow256(|bs|)
  {
    if bs == [] then 0 else bs[0] + 256 * DecodeLE(bs[1..])
  }

  lemma {:induction false} DecodeEncodeLE(v: nat, n: nat)
    requires v < Pow256(n)
    ensures DecodeLE(EncodeLE(v, n)) == v
  {
    if n > 0 {
      DecodeEncodeLE(v / 256, n - 1);
      assert EncodeLE(v, n)[1..] == EncodeLE(v / 256, n - 1);
    }
  }

  lemma {:induction false} EncodeDecodeLE(bs: seq<Byte>)
    ensures EncodeLE(DecodeLE(bs), |bs|) == bs
  {
    if bs != [] {
      EncodeDecodeLE(bs[1..]);
      assert DecodeLE(bs) % 256 == bs[0];
      assert DecodeLE(bs) / 256 == DecodeLE(bs[1..]);
    }
  }

  /** Zero bytes after an image do not change the number it reads as:
      a short image copied over a zeroed variable reads zero-extended. */
  lemma {:induction false} DecodeZeroPadded(bs: seq<Byte>, n: nat)
    ensures DecodeLE(bs + EncodeLE(0, n)) == DecodeLE(bs)
  {
    if bs == [] {
      assert bs + EncodeLE(0, n) == EncodeLE(0, n);
      DecodeEncodeLE(0, n);
    } else {
      assert (bs + EncodeLE(0, n))[1..] == bs[1..] + EncodeLE(0, n);
      DecodeZeroPadded(bs[1..], n);
    }
  }

  /** Every tail of a zero image is a zero image. */
  lemma {:induction false} ZeroImageTail(n: nat, k: nat)
    requires k <= n
    ensures EncodeLE(0, n)[k..] == EncodeLE(0, n - k)
  {
    if k > 0 {
      assert EncodeLE(0, n)[1..] == EncodeLE(0, n - 1);
      ZeroImageTail(n - 1, k - 1);
      assert EncodeLE(0, n)[k..] == EncodeLE(0, n - 1)[k - 1..];
    }
  }

  /** v lies in the range of an n-byte signed (two's complement) integer. */
  predicate InSigned(v: int, n: nat)
  {
    -(Pow256(n) / 2) <= v < Pow256(n) / 2
  }

  /** The unsigned bit pattern of v in n bytes (a conversion to an unsigned type). */
  function ToUnsigned(v: int, n: nat): (r: nat)
    ensures r < Pow256(n)
    ensures 0 <= v < Pow256(n) ==> r == v
    ensures v < 0 <= v + Pow256(n) ==> r == v + Pow256(n)
  {
    var p := Pow256(n);
    ModRange(v, p);
    v % p
  }

  /** The n-byte signed integer whose bit pattern is u modulo 256^n
      (the modular narrowing conversion to a signed type). */
  function ToSigned(u: int, n: nat): (r: int)
    requires n >= 1
    ensures InSigned(r, n)
    ensures InSigned(u, n) ==> r == u
    ensures Pow256(n) / 2 <= u < Pow256(n) ==> r == u - Pow256(n)
  {
    var m := ToUnsigned(u, n);
    if m < Pow256(n) / 2 then m else m - Pow256(n)
  }

  lemma ModRange(v: int, p: int)
    requires p > 0
    ensures 0 <= v % p < p
    ensures 0 <= v < p ==> v % p == v
    ensures -p <= v < 0 ==> v % p == v + p
  {
    if -p <= v < 0 {
      var q := v / p;
      assert p * q + v % p == v;
      assert p * q < 0;
      assert q < 0;
      assert p * (q + 2) > 0;
      assert q == -1;
    }
  }

  lemma SignedRoundTrip(v: int, n: nat)
    requires n >= 1 && InSigned(v, n)
    ensures ToSigned(ToUnsigned(v, n), n) == v
  {
  }
}
