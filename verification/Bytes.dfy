/** Bytes, little-endian integers and the fixed-width integer types of the program. */
module Bytes {

  type Byte = x: int | 0 <= x < 256

  const TWO_31 := 0x8000_0000
  const TWO_32 := 0x1_0000_0000
  const TWO_63 := 0x8000_0000_0000_0000
  const TWO_64 := 0x1_0000_0000_0000_0000

  type Int32 = x: int | -TWO_31 <= x < TWO_31
  type Int64 = x: int | -TWO_63 <= x < TWO_63

  /** The conversion of a 64-bit size to int32_t: the low 32 bits, read with sign. */
  function WrapInt32(n: nat): Int32 {
    Signed(n % TWO_32, TWO_32)
  }

  function Unsigned(v: int, modulus: nat): int {
    if v < 0 then v + modulus else v
  }

  function Signed(u: int, modulus: nat): int {
    if u < modulus / 2 then u else u - modulus
  }

  function Pow256(k: nat): (p: nat)
    ensures p > 0
  {
    if k == 0 then 1 else 256 * Pow256(k - 1)
  }

  function EncodeLE(v: nat, k: nat): (b: seq<Byte>)
    ensures |b| == k
  {
    if k == 0 then [] else [v % 256] + EncodeLE(v / 256, k - 1)
  }

  function DecodeLE(b: seq<Byte>): nat {
    if b == [] then 0 else b[0] + 256 * DecodeLE(b[1..])
  }

  lemma {:induction false} LittleEndianRoundTrip(v: nat, k: nat)
    requires v < Pow256(k)
    ensures DecodeLE(EncodeLE(v, k)) == v
  {
    if k > 0 {
      LittleEndianRoundTrip(v / 256, k - 1);
      assert EncodeLE(v, k)[1..] == EncodeLE(v / 256, k - 1);
    }
  }

  lemma LowAndHigh(low: Byte, high: nat)
    ensures (low + 256 * high) % 256 == low && (low + 256 * high) / 256 == high
  {
  }

  lemma {:induction false} LittleEndianInverse(b: seq<Byte>)
    ensures EncodeLE(DecodeLE(b), |b|) == b
  {
    if b != [] {
      var high := DecodeLE(b[1..]);
      LowAndHigh(b[0], high);
      LittleEndianInverse(b[1..]);
      assert EncodeLE(b[0] + 256 * high, |b|) == [b[0]] + EncodeLE(high, |b| - 1);
    }
  }

  /** Byte i of the encoding is the one with weight 256^i. */
  lemma {:induction false} LittleEndianAt(v: nat, k: nat, i: nat)
    requires i < k
    ensures EncodeLE(v, k)[i] == v / Pow256(i) % 256
  {
    if i > 0 {
      LittleEndianAt(v / 256, k - 1, i - 1);
      DivideTwice(v, Pow256(i - 1));
    }
  }

  lemma DivideTwice(v: nat, p: nat)
    requires p > 0
    ensures v / 256 / p == v / (256 * p)
  {
    var q, r := v / 256 / p, v / 256 % p;
    assert v == 256 * (p * q + r) + v % 256;
    assert v == (256 * p) * q + (256 * r + v % 256);
    QuotientIs(v, 256 * p, q, 256 * r + v % 256);
  }

  lemma QuotientIs(v: nat, d: nat, q: nat, r: nat)
    requires v == d * q + r && r < d
    ensures v / d == q
  {
    Multiples(d, v / d, q);
    Multiples(d, q, v / d);
  }

  lemma Multiples(d: nat, a: nat, b: nat)
    ensures a < b ==> d * a + d <= d * b
  {
    if a < b {
      var k := b - a - 1;
      assert d * (a + (1 + k)) == d * a + (d + d * k);
      assert d * k >= 0;
    }
  }

  /** The four bytes of a 32-bit integer, the lowest first. */
  lemma FourBytes(v: nat)
    ensures EncodeLE(v, 4) == [v % 256, v / 256 % 256, v / 0x1_0000 % 256, v / 0x100_0000 % 256]
  {
    assert EncodeLE(v, 4) == [v % 256] + EncodeLE(v / 256, 3);
    assert EncodeLE(v / 256, 3) == [v / 256 % 256] + EncodeLE(v / 256 / 256, 2);
    assert EncodeLE(v / 256 / 256, 2) == [v / 256 / 256 % 256] + EncodeLE(v / 256 / 256 / 256, 1);
    assert EncodeLE(v / 256 / 256 / 256, 1) == [v / 256 / 256 / 256 % 256] + EncodeLE(v / 256 / 256 / 256 / 256, 0);
  }

  /** What is left above the lowest k bytes. */
  function Above(v: nat, k: nat): nat
    decreases k
  {
    if k == 0 then v else Above(v / 256, k - 1)
  }

  /** The low bytes, then the high ones. */
  lemma {:induction false} EncodeSplit(v: nat, low: nat, high: nat)
    ensures EncodeLE(v, low + high) == EncodeLE(v, low) + EncodeLE(Above(v, low), high)
    decreases low
  {
    if low > 0 {
      EncodeSplit(v / 256, low - 1, high);
    }
  }

  lemma EightBytes(v: nat)
    ensures EncodeLE(v, 8) == EncodeLE(v, 4) + EncodeLE(v / TWO_32, 4)
  {
    hide EncodeLE;
    EncodeSplit(v, 4, 4);
    AboveFour(v);
  }

  lemma AboveFour(v: nat)
    ensures Above(v, 4) == v / TWO_32
  {
    assert Above(v, 4) == Above(v / 256 / 256, 2) == v / 256 / 256 / 256 / 256;
  }

  lemma {:induction false} DecodeLEBound(b: seq<Byte>)
    ensures DecodeLE(b) < Pow256(|b|)
  {
    if b != [] {
      DecodeLEBound(b[1..]);
    }
  }

  lemma Widths()
    ensures Pow256(1) == 256 && Pow256(4) == TWO_32 && Pow256(8) == TWO_64
  {
    assert Pow256(2) == 65536;
    assert Pow256(4) == 65536 * Pow256(2);
    assert Pow256(6) == 65536 * Pow256(4);
    assert Pow256(8) == 65536 * Pow256(6);
  }

  function EncodeInt32(v: Int32): (b: seq<Byte>)
    ensures |b| == 4
  {
    EncodeLE(Unsigned(v, TWO_32), 4)
  }

  function EncodeInt64(v: Int64): (b: seq<Byte>)
    ensures |b| == 8
  {
    EncodeLE(Unsigned(v, TWO_64), 8)
  }

  function DecodeInt32(b: seq<Byte>): Int32
    requires |b| == 4
  {
    DecodeLEBound(b);
    Widths();
    Signed(DecodeLE(b), TWO_32)
  }

  function DecodeInt64(b: seq<Byte>): Int64
    requires |b| == 8
  {
    DecodeLEBound(b);
    Widths();
    Signed(DecodeLE(b), TWO_64)
  }

  lemma IntRoundTrips(v: Int32, w: Int64)
    ensures DecodeInt32(EncodeInt32(v)) == v
    ensures DecodeInt64(EncodeInt64(w)) == w
  {
    Widths();
    LittleEndianRoundTrip(Unsigned(v, TWO_32), 4);
    LittleEndianRoundTrip(Unsigned(w, TWO_64), 8);
  }

  lemma IntInverses(b: seq<Byte>, c: seq<Byte>)
    requires |b| == 4 && |c| == 8
    ensures EncodeInt32(DecodeInt32(b)) == b
    ensures EncodeInt64(DecodeInt64(c)) == c
  {
    DecodeLEBound(b);
    DecodeLEBound(c);
    Widths();
    LittleEndianInverse(b);
    LittleEndianInverse(c);
  }
}
