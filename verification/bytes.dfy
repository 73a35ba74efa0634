/**
 * Byte strings as Python's `struct` module and file objects treat them:
 * little-endian unsigned and two's-complement encodings, zero padding,
 * clamped slicing, and the effect of `seek` + `write` / `seek` + `read`
 * on the contents of a file.
 */
module Bytes {

  /** One byte, as an element of a Python `bytes` value. */
  type uint8 = b: int | 0 <= b < 256

  function Min(a: int, b: int): int { if a <= b then a else b }

  function Max(a: int, b: int): int { if a <= b then b else a }

  function Abs(a: int): nat { if a < 0 then -a else a }

  /** 256^n: the number of values that fit in n bytes. */
  function Pow256(n: nat): (r: nat)
    ensures r > 0
  {
    if n == 0 then 1 else 256 * Pow256(n - 1)
  }

  /** `v` as n little-endian bytes: struct codes B, H, I and Q. */
  function EncodeLE(v: nat, n: nat): (r: seq<uint8>)
    requires v < Pow256(n)
    ensures |r| == n
  {
    if n == 0 then [] else [v % 256] + EncodeLE(v / 256, n - 1)
  }

  /** The unsigned little-endian value of `s`: `struct.unpack` with B, H, I or Q. */
  function DecodeLE(s: seq<uint8>): (v: nat)
    ensures v < Pow256(|s|)
  {
    if |s| == 0 then 0 else s[0] + 256 * DecodeLE(s[1..])
  }

  lemma {:induction false} DecodeEncodeLE(v: nat, n: nat)
    requires v < Pow256(n)
    ensures DecodeLE(EncodeLE(v, n)) == v
  {
    if n > 0 {
      var r := EncodeLE(v, n);
      assert r[1..] == EncodeLE(v / 256, n - 1);
      DecodeEncodeLE(v / 256, n - 1);
    }
  }

  /** 256^n / 2: the bound of n-byte two's complement, for n > 0. */
  function HalfRange(n: nat): (r: nat)
    requires n > 0
    ensures 2 * r == Pow256(n)
  {
    128 * Pow256(n - 1)
  }

  /** Does `v` fit in n bytes of two's complement (struct codes b, h, i, q)? */
  predicate FitsSigned(v: int, n: nat)
  {
    n > 0 && -(HalfRange(n) as int) <= v < HalfRange(n)
  }

  /** Does `v` fit in n bytes unsigned (struct codes B, H, I, Q)? */
  predicate FitsUnsigned(v: int, n: nat)
  {
    0 <= v < Pow256(n)
  }

  /** `v` as n little-endian two's-complement bytes. */
  function EncodeSigned(v: int, n: nat): (r: seq<uint8>)
    requires FitsSigned(v, n)
    ensures |r| == n
  {
    EncodeLE(if v < 0 then v + Pow256(n) else v, n)
  }

  /** The two's-complement value of `s`: `struct.unpack` with b, h, i or q. */
  function DecodeSigned(s: seq<uint8>): (v: int)
    requires |s| > 0
    ensures FitsSigned(v, |s|)
  {
    var u := DecodeLE(s);
    if u >= HalfRange(|s|) then u - Pow256(|s|) else u
  }

  lemma DecodeEncodeSigned(v: int, n: nat)
    requires FitsSigned(v, n)
    ensures DecodeSigned(EncodeSigned(v, n)) == v
  {
    DecodeEncodeLE(if v < 0 then v + Pow256(n) else v, n);
  }

  function Zeros(n: nat): (r: seq<uint8>)
    ensures |r| == n && forall i | 0 <= i < n :: r[i] == 0
  {
    seq(n, _ => 0)
  }

  /** Python's `s[a:b]` for non-negative bounds: both ends are clamped to the length. */
  function Slice<T>(s: seq<T>, a: nat, b: nat): (r: seq<T>)
    ensures b <= |s| && a <= b ==> r == s[a..b]
    ensures |r| == Max(0, Min(b, |s|) - Min(a, |s|))
  {
    var lo := Min(a, |s|);
    var hi := Min(b, |s|);
    if lo <= hi then s[lo..hi] else []
  }

  /**
   * The contents of a file after `seek(off)` and `write(buf)`: the bytes at
   * [off, off + |buf|) are replaced, a write past the end first fills the
   * gap with zero bytes, and nothing else changes.
   */
  function WriteAt(d: seq<uint8>, off: nat, buf: seq<uint8>): (r: seq<uint8>)
    ensures |r| == Max(|d|, off + |buf|)
    ensures forall i | 0 <= i < |buf| :: r[off + i] == buf[i]
    ensures forall i | 0 <= i < |d| && !(off <= i < off + |buf|) :: r[i] == d[i]
    ensures forall i | |d| <= i < off :: r[i] == 0
  {
    if off <= |d| then
      d[..off] + buf + (if off + |buf| < |d| then d[off + |buf|..] else [])
    else
      d + Zeros(off - |d|) + buf
  }

  /** What `seek(off)` followed by `read(n)` returns: fewer than n bytes near the end. */
  function ReadAt(d: seq<uint8>, off: nat, n: nat): (r: seq<uint8>)
    ensures |r| <= n
    ensures off + n <= |d| ==> r == d[off..off + n]
  {
    Slice(d, off, off + n)
  }

  /** Reading back the range just written gives exactly the bytes written. */
  lemma ReadAfterWrite(d: seq<uint8>, off: nat, buf: seq<uint8>)
    ensures ReadAt(WriteAt(d, off, buf), off, |buf|) == buf
  {
    var r := WriteAt(d, off, buf);
    var got := r[off..off + |buf|];
    forall i | 0 <= i < |buf| ensures got[i] == buf[i] {
      assert got[i] == r[off + i];
    }
    assert got == buf;
  }

  /** A write leaves every complete range it does not overlap unchanged. */
  lemma ReadAfterDisjointWrite(d: seq<uint8>, off: nat, buf: seq<uint8>, off2: nat, n: nat)
    requires off2 + n <= |d|
    requires off2 + n <= off || off + |buf| <= off2
    ensures ReadAt(WriteAt(d, off, buf), off2, n) == ReadAt(d, off2, n)
  {
    var r := WriteAt(d, off, buf);
    var after, before := r[off2..off2 + n], d[off2..off2 + n];
    forall i | 0 <= i < n ensures after[i] == before[i] {
      assert after[i] == r[off2 + i];
    }
    assert after == before;
  }
}
