/**
 * CRC-16/XMODEM, the checksum that protects every grid block: polynomial
 * 0x1021, initial value 0, no reflection of input or output, no final xor.
 * The generator obtains it from `crc16.crc16xmodem` and the scanner from
 * `fastcrc.crc16.xmodem`; both are foreign code, so it is defined here
 * bit by bit.
 */
module Crc16 {
  import opened Bytes

  const POLY: bv16 := 0x1021

  /** k steps of the shift register: shift left, xor the polynomial when a 1 falls out. */
  function ShiftBits(c: bv16, k: nat): bv16
    decreases k
  {
    if k == 0 then c
    else ShiftBits(if c & 0x8000 == 0 then c << 1 else (c << 1) ^ POLY, k - 1)
  }

  /** Feeds one byte, most significant bit first. */
  function Step(crc: bv16, b: uint8): bv16
  {
    ShiftBits(crc ^ ((b as bv16) << 8), 8)
  }

  /** The register after feeding every byte of `s` to a register that starts at 0. */
  function Register(s: seq<uint8>): bv16
  {
    if |s| == 0 then 0 else Step(Register(s[..|s| - 1]), s[|s| - 1])
  }

  /** CRC-16/XMODEM of `s` as the Python integer the libraries return. */
  function Xmodem(s: seq<uint8>): (r: nat)
    ensures r < 0x1_0000
  {
    Register(s) as nat
  }

  /**
   * The register after the first n bytes of `s`, fed one index at a time:
   * the form the slot check uses, so that its checksum is a function of
   * the slot's own bytes rather than of a fresh slice of them.
   */
  function RegisterTo(s: seq<uint8>, n: nat): bv16
    requires n <= |s|
  {
    if n == 0 then 0 else Step(RegisterTo(s, n - 1), s[n - 1])
  }

  /** CRC-16/XMODEM of `s[:n]`. */
  function OfPrefix(s: seq<uint8>, n: nat): (r: nat)
    requires n <= |s|
    ensures r < 0x1_0000
  {
    RegisterTo(s, n) as nat
  }

  lemma {:induction false} RegisterToSlice(s: seq<uint8>, n: nat)
    requires n <= |s|
    ensures RegisterTo(s, n) == Register(s[..n])
  {
    if n > 0 {
      assert s[..n][..n - 1] == s[..n - 1];
      RegisterToSlice(s, n - 1);
    }
  }

  /** `crc16xmodem(buf[:n])` is the checksum of the first n bytes of `buf`. */
  lemma XmodemOfSlice(s: seq<uint8>, n: nat)
    requires n <= |s|
    ensures Xmodem(s[..n]) == OfPrefix(s, n)
  {
    RegisterToSlice(s, n);
  }

  /** Feeding one more byte is one more Step. */
  lemma RegisterSnoc(s: seq<uint8>, b: uint8)
    ensures Register(s + [b]) == Step(Register(s), b)
  {
    assert (s + [b])[..|s|] == s;
  }

  /** The first n + 1 bytes are the first n and one more Step. */
  lemma PrefixStep(s: seq<uint8>, n: nat)
    requires n < |s|
    ensures Register(s[..n + 1]) == Step(Register(s[..n]), s[n])
  {
    assert s[..n + 1][..n] == s[..n];
  }

  /** `s` holds the nine bytes of ASCII "123456789", the catalogue's check input. */
  predicate IsCheckInput(s: seq<uint8>)
  {
    && |s| == 9 && s[0] == 0x31 && s[1] == 0x32 && s[2] == 0x33 && s[3] == 0x34 && s[4] == 0x35
    && s[5] == 0x36 && s[6] == 0x37 && s[7] == 0x38 && s[8] == 0x39
  }

  /**
   * The register after each byte of the check input, one Step at a time.
   * Stated over bound variables so that using a row evaluates nothing.
   */
  lemma CheckInputSteps()
    ensures forall c: bv16, b: uint8 | c == 0x0000 && b == 0x31 :: Step(c, b) == 0x2672
    ensures forall c: bv16, b: uint8 | c == 0x2672 && b == 0x32 :: Step(c, b) == 0x20B5
    ensures forall c: bv16, b: uint8 | c == 0x20B5 && b == 0x33 :: Step(c, b) == 0x9752
    ensures forall c: bv16, b: uint8 | c == 0x9752 && b == 0x34 :: Step(c, b) == 0xD789
    ensures forall c: bv16, b: uint8 | c == 0xD789 && b == 0x35 :: Step(c, b) == 0x546C
    ensures forall c: bv16, b: uint8 | c == 0x546C && b == 0x36 :: Step(c, b) == 0x20E4
    ensures forall c: bv16, b: uint8 | c == 0x20E4 && b == 0x37 :: Step(c, b) == 0x86D6
    ensures forall c: bv16, b: uint8 | c == 0x86D6 && b == 0x38 :: Step(c, b) == 0x9015
    ensures forall c: bv16, b: uint8 | c == 0x9015 && b == 0x39 :: Step(c, b) == 0x31C3
  {
    assert Step(0x0000, 0x31) == 0x2672;
    assert Step(0x2672, 0x32) == 0x20B5;
    assert Step(0x20B5, 0x33) == 0x9752;
    assert Step(0x9752, 0x34) == 0xD789;
    assert Step(0xD789, 0x35) == 0x546C;
    assert Step(0x546C, 0x36) == 0x20E4;
    assert Step(0x20E4, 0x37) == 0x86D6;
    assert Step(0x86D6, 0x38) == 0x9015;
    assert Step(0x9015, 0x39) == 0x31C3;
  }

  /** The register after "123". */
  lemma CheckValueFirstThird(s: seq<uint8>)
    requires IsCheckInput(s)
    ensures Register(s[..3]) == 0x9752
  {
    CheckInputSteps();
    assert s[..0] == [];
    PrefixStep(s, 0);
    PrefixStep(s, 1);
    PrefixStep(s, 2);
  }

  /** The register after "123456". */
  lemma CheckValueSecondThird(s: seq<uint8>)
    requires IsCheckInput(s) && Register(s[..3]) == 0x9752
    ensures Register(s[..6]) == 0x20E4
  {
    CheckInputSteps();
    PrefixStep(s, 3);
    PrefixStep(s, 4);
    PrefixStep(s, 5);
  }

  /** The register after all nine bytes. */
  lemma CheckValueLastThird(s: seq<uint8>)
    requires IsCheckInput(s) && Register(s[..6]) == 0x20E4
    ensures Register(s) == 0x31C3
  {
    CheckInputSteps();
    assert s[..9] == s;
    PrefixStep(s, 6);
    PrefixStep(s, 7);
    PrefixStep(s, 8);
  }

  /** The catalogue check value of CRC-16/XMODEM: the CRC of ASCII "123456789" is 0x31C3. */
  lemma CheckValue(s: seq<uint8>)
    requires IsCheckInput(s)
    ensures Xmodem(s) == 0x31C3
  {
    CheckValueFirstThird(s);
    CheckValueSecondThird(s);
    CheckValueLastThird(s);
  }
}
