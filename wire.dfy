/**
 * Little-endian cursor reads over a byte buffer (the `Utils` namespace of
 * NexusUtils.h).  A cursor is a position in the buffer; each read returns the
 * value and the advanced position.  Every reader is checked against the
 * reference decoding `LittleEndian`, and every encoder is checked to be its
 * inverse.
 */
module Wire {

  type U8 = x: int | 0 <= x < 0x100
  type U16 = x: int | 0 <= x < 0x1_0000
  type U32 = x: int | 0 <= x < 0x1_0000_0000
  type U64 = x: int | 0 <= x < 0x1_0000_0000_0000_0000
  type Bytes = seq<U8>

  /** A 32-bit float kept as the raw bit pattern the file stores. */
  datatype F32 = F32(bits: U32)

  /** 256 to the power n. */
  function Pow256(n: nat): (r: nat)
    ensures r >= 1
  {
    if n == 0 then 1 else 256 * Pow256(n - 1)
  }

  /** The number whose little-endian byte string is s: the reference decoding. */
  function LittleEndian(s: Bytes): nat
  {
    if |s| == 0 then 0 else s[0] + 256 * LittleEndian(s[1..])
  }

  lemma {:induction false} LittleEndianBound(s: Bytes)
    ensures LittleEndian(s) < Pow256(|s|)
  {
    if |s| > 0 {
      LittleEndianBound(s[1..]);
    }
  }

  /** Decoding a concatenation: the high part is scaled by the width of the low part. */
  lemma {:induction false} LittleEndianAppend(a: Bytes, b: Bytes)
    ensures LittleEndian(a + b) == LittleEndian(a) + Pow256(|a|) * LittleEndian(b)
  {
    if |a| == 0 {
      assert a + b == b;
    } else {
      assert (a + b)[1..] == a[1..] + b;
      LittleEndianAppend(a[1..], b);
    }
  }

  /** Read8: the byte under the cursor. */
  function Read8(buf: Bytes, pos: nat): (r: (U8, nat))
    requires pos + 1 <= |buf|
    ensures r.1 == pos + 1
    ensures r.0 == LittleEndian(buf[pos..pos + 1])
  {
    (buf[pos], pos + 1)
  }

  /** Read16: low byte first; the high byte shifted by 8 is or-ed in (disjoint bits, so a sum). */
  function Read16(buf: Bytes, pos: nat): (r: (U16, nat))
    requires pos + 2 <= |buf|
    ensures r.1 == pos + 2
    ensures r.0 == LittleEndian(buf[pos..pos + 2])
  {
    var (lo, p1) := Read8(buf, pos);
    var (hi, p2) := Read8(buf, p1);
    LittleEndianAppend(buf[pos..pos + 1], buf[pos + 1..pos + 2]);
    assert buf[pos..pos + 1] + buf[pos + 1..pos + 2] == buf[pos..pos + 2];
    (hi * 0x100 + lo, p2)
  }

  /** Read32: two Read16 halves, low half first. */
  function Read32(buf: Bytes, pos: nat): (r: (U32, nat))
    requires pos + 4 <= |buf|
    ensures r.1 == pos + 4
    ensures r.0 == LittleEndian(buf[pos..pos + 4])
  {
    var (lo, p1) := Read16(buf, pos);
    var (hi, p2) := Read16(buf, p1);
    LittleEndianAppend(buf[pos..pos + 2], buf[pos + 2..pos + 4]);
    assert buf[pos..pos + 2] + buf[pos + 2..pos + 4] == buf[pos..pos + 4];
    (hi * 0x1_0000 + lo, p2)
  }

  /** Read64: two Read32 halves, low half first. */
  function Read64(buf: Bytes, pos: nat): (r: (U64, nat))
    requires pos + 8 <= |buf|
    ensures r.1 == pos + 8
    ensures r.0 == LittleEndian(buf[pos..pos + 8])
  {
    var (lo, p1) := Read32(buf, pos);
    var (hi, p2) := Read32(buf, p1);
    LittleEndianAppend(buf[pos..pos + 4], buf[pos + 4..pos + 8]);
    assert Pow256(4) == 0x1_0000_0000;
    assert buf[pos..pos + 4] + buf[pos + 4..pos + 8] == buf[pos..pos + 8];
    (hi * 0x1_0000_0000 + lo, p2)
  }

  /** ReadFloat: the 32 bits of Read32 reinterpreted as a float. */
  function ReadFloat(buf: Bytes, pos: nat): (r: (F32, nat))
    requires pos + 4 <= |buf|
    ensures r.1 == pos + 4
    ensures r.0.bits == LittleEndian(buf[pos..pos + 4])
  {
    var (bits, p) := Read32(buf, pos);
    (F32(bits), p)
  }

  /** The signed 16-bit integer whose two's-complement pattern is u. */
  function AsShort(u: U16): (s: int)
    ensures -0x8000 <= s < 0x8000
    ensures (s - u) % 0x1_0000 == 0
  {
    if u < 0x8000 then u else u - 0x1_0000
  }

  /** ReadShort: a Read16 reinterpreted as a signed short. */
  function ReadShort(buf: Bytes, pos: nat): (r: (int, nat))
    requires pos + 2 <= |buf|
    ensures r.1 == pos + 2
    ensures -0x8000 <= r.0 < 0x8000
    ensures (r.0 - LittleEndian(buf[pos..pos + 2])) % 0x1_0000 == 0
    ensures LittleEndian(buf[pos..pos + 2]) < 0x1_0000
    ensures r.0 == AsShort(LittleEndian(buf[pos..pos + 2]))
  {
    var (u, p) := Read16(buf, pos);
    (AsShort(u), p)
  }

  /** The n-byte little-endian encoding of v (v taken modulo 256^n). */
  function Encode(v: nat, n: nat): (s: Bytes)
    ensures |s| == n
  {
    if n == 0 then [] else [v % 256] + Encode(v / 256, n - 1)
  }

  lemma {:induction false} DecodeEncode(v: nat, n: nat)
    requires v < Pow256(n)
    ensures LittleEndian(Encode(v, n)) == v
  {
    if n > 0 {
      DecodeEncode(v / 256, n - 1);
      assert Encode(v, n)[1..] == Encode(v / 256, n - 1);
    }
  }

  /** Two's-complement encoding of a signed short. */
  function ShortBits(s: int): (u: U16)
    requires -0x8000 <= s < 0x8000
    ensures AsShort(u) == s
  {
    if s >= 0 then s else s + 0x1_0000
  }

  /** Reading the encoding of v back at any position gives v and skips exactly n bytes. */
  lemma ReadEncoded(pre: Bytes, v: nat, n: nat, post: Bytes)
    requires v < Pow256(n)
    ensures (pre + Encode(v, n) + post)[|pre|..|pre| + n] == Encode(v, n)
    ensures LittleEndian((pre + Encode(v, n) + post)[|pre|..|pre| + n]) == v
  {
    DecodeEncode(v, n);
    assert (pre + Encode(v, n) + post)[|pre|..|pre| + n] == Encode(v, n);
  }

  /** Read32 is the left inverse of the four-byte encoding. */
  lemma Read32Encode(pre: Bytes, v: U32, post: Bytes)
    ensures Read32(pre + Encode(v, 4) + post, |pre|) == (v, |pre| + 4)
  {
    assert Pow256(4) == 0x1_0000_0000;
    ReadEncoded(pre, v, 4, post);
  }

  /** Read64 is the left inverse of the eight-byte encoding. */
  lemma Read64Encode(pre: Bytes, v: U64, post: Bytes)
    ensures Read64(pre + Encode(v, 8) + post, |pre|) == (v, |pre| + 8)
  {
    assert Pow256(8) == 0x1_0000_0000_0000_0000;
    ReadEncoded(pre, v, 8, post);
  }

  /** Read16 is the left inverse of the two-byte encoding. */
  lemma Read16Encode(pre: Bytes, v: U16, post: Bytes)
    ensures Read16(pre + Encode(v, 2) + post, |pre|) == (v, |pre| + 2)
  {
    assert Pow256(2) == 0x1_0000;
    ReadEncoded(pre, v, 2, post);
  }

  /** ReadShort is the left inverse of the two's-complement encoding. */
  lemma ReadShortEncode(pre: Bytes, s: int, post: Bytes)
    requires -0x8000 <= s < 0x8000
    ensures ReadShort(pre + Encode(ShortBits(s), 2) + post, |pre|) == (s, |pre| + 2)
  {
    Read16Encode(pre, ShortBits(s), post);
  }

  /**
   * b - a as an unsigned subtraction of modulus m (2^32 for uint32) stores
   * it: the plain difference when b is not below a and the gap fits, the
   * wrapped value when b is below a.
   */
  function UnsignedSub(b: int, a: int, m: nat): (r: nat)
    requires m > 0
    ensures r < m
    ensures a <= b < a + m ==> r == b - a
    ensures b < a <= b + m ==> r == m - (a - b)
  {
    (b - a) % m
  }

  /** 2 to the power n. */
  function Pow2(n: nat): (r: nat)
    ensures r >= 1
  {
    if n == 0 then 1 else 2 * Pow2(n - 1)
  }

  /** m times 2 to the power e, as a real. */
  function Scale(m: nat, e: int): (r: real)
    ensures r >= 0.0
    ensures m == 0 ==> r == 0.0
  {
    if e >= 0 then (m * Pow2(e)) as real else m as real / Pow2(-e) as real
  }

  /**
   * The value of an IEEE-754 binary32 pattern: sign bit 31, biased exponent
   * bits 23..30, fraction bits 0..22.  Infinities and NaNs (exponent 255) have
   * no real value and are read as 0.0.
   */
  function FloatValue(f: F32): (r: real)
    ensures f.bits < 0x8000_0000 ==> r >= 0.0
    ensures f.bits >= 0x8000_0000 ==> r <= 0.0
    ensures f.bits % 0x8000_0000 == 0 ==> r == 0.0
  {
    var sign := f.bits / 0x8000_0000;
    var exponent := (f.bits / 0x80_0000) % 0x100;
    var fraction := f.bits % 0x80_0000;
    assert f.bits % 0x8000_0000 == 0 ==> exponent == 0 && fraction == 0;
    var magnitude :=
      if exponent == 0xFF then 0.0
      else if exponent == 0 then Scale(fraction, -149)
      else Scale(0x80_0000 + fraction, exponent - 150);
    if sign == 1 then -magnitude else magnitude
  }
}
