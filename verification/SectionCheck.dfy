/** The checksum of MPEG-TS table sections: the received check word matches exactly when the checksum of the whole
    section, check word included, is zero. */
module SectionCheck {

  type Data = seq<bv8>

  const POLY: bv32 := 0x04C1_1DB7

  // Exclusive or, the shift and the feedback term are named so that proofs can treat them as symbols.

  function Xor(x: bv32, y: bv32): bv32 {
    x ^ y
  }

  function Shl(x: bv32): bv32 {
    x << 1
  }

  /** The top bit, in place. */
  function Top(x: bv32): bv32 {
    x & 0x8000_0000
  }

  function Mask(x: bv32): bv32 {
    if Top(x) != 0 then POLY else 0
  }

  /** One step of the register. */
  function Bit(c: bv32): bv32 {
    Xor(Shl(c), Mask(c))
  }

  function Bits(c: bv32, n: nat): bv32 {
    if n == 0 then c else Bit(Bits(c, n - 1))
  }

  function Place(b: bv8): bv32 {
    (b as bv32) << 24
  }

  function Byte(c: bv32, b: bv8): bv32 {
    Bits(Xor(c, Place(b)), 8)
  }

  function Crc(d: Data): bv32 {
    if d == [] then 0xFFFF_FFFF else Byte(Crc(d[..|d| - 1]), d[|d| - 1])
  }

  /** Four bytes, most significant first. */
  function Word(b0: bv8, b1: bv8, b2: bv8, b3: bv8): bv32 {
    ((b0 as bv32) << 24) | ((b1 as bv32) << 16) | ((b2 as bv32) << 8) | (b3 as bv32)
  }

  // ---------------------------------------------------------------------------------------------
  // The step is linear and injective

  lemma XorComm(a: bv32, b: bv32)
    ensures Xor(a, b) == Xor(b, a)
  {
  }

  lemma XorAssoc(a: bv32, b: bv32, c: bv32)
    ensures Xor(Xor(a, b), c) == Xor(a, Xor(b, c))
  {
  }

  lemma XorSwap(a: bv32, b: bv32, c: bv32, d: bv32)
    ensures Xor(Xor(a, b), Xor(c, d)) == Xor(Xor(a, c), Xor(b, d))
  {
    hide Xor;
    XorAssoc(a, b, Xor(c, d));
    XorAssoc(b, c, d);
    XorComm(b, c);
    XorAssoc(c, b, d);
    XorAssoc(a, c, Xor(b, d));
  }

  lemma ShlXor(x: bv32, y: bv32)
    ensures Shl(Xor(x, y)) == Xor(Shl(x), Shl(y))
  {
  }

  lemma TopIs(x: bv32)
    ensures Top(x) == 0 || Top(x) == 0x8000_0000
  {
  }

  lemma TopXor(x: bv32, y: bv32)
    ensures Top(Xor(x, y)) == Xor(Top(x), Top(y))
  {
  }

  lemma XorConstants()
    ensures Xor(0, 0) == 0 && Xor(0x8000_0000, 0x8000_0000) == 0 && Xor(POLY, POLY) == 0
    ensures Xor(0, 0x8000_0000) == Xor(0x8000_0000, 0) == 0x8000_0000 && Xor(0, POLY) == Xor(POLY, 0) == POLY
  {
  }

  lemma MaskXor(x: bv32, y: bv32)
    ensures Mask(Xor(x, y)) == Xor(Mask(x), Mask(y))
  {
    hide Xor, Top;
    TopIs(x);
    TopIs(y);
    TopXor(x, y);
    XorConstants();
  }

  lemma BitIsLinear(x: bv32, y: bv32)
    ensures Bit(Xor(x, y)) == Xor(Bit(x), Bit(y))
  {
    hide Xor, Shl, Mask;
    ShlXor(x, y);
    MaskXor(x, y);
    XorSwap(Shl(x), Shl(y), Mask(x), Mask(y));
  }

  lemma BitIsInjective(x: bv32)
    ensures Bit(x) == 0 <==> x == 0
  {
  }

  lemma {:induction false} BitsAreLinear(x: bv32, y: bv32, n: nat)
    ensures Bits(Xor(x, y), n) == Xor(Bits(x, n), Bits(y, n))
  {
    hide Xor, Bit;
    if n > 0 {
      BitsAreLinear(x, y, n - 1);
      BitIsLinear(Bits(x, n - 1), Bits(y, n - 1));
    }
  }

  lemma {:induction false} BitsAreInjective(x: bv32, n: nat)
    ensures Bits(x, n) == 0 <==> x == 0
  {
    hide Bit;
    if n > 0 {
      BitsAreInjective(x, n - 1);
      BitIsInjective(Bits(x, n - 1));
    }
  }

  // ---------------------------------------------------------------------------------------------
  // Feeding four bytes is feeding their word

  predicate TopClear(x: bv32) {
    x & 0x8000_0000 == 0
  }

  lemma ClearBitShifts(x: bv32)
    requires TopClear(x)
    ensures Bit(x) == Shl(x)
  {
  }

  lemma StepBits(x: bv32, n: nat)
    ensures Bits(x, n + 1) == Bit(Bits(x, n)) && Bits(x, 0) == x
  {
  }

  function Shl4(x: bv32): bv32 {
    Shl(Shl(Shl(Shl(x))))
  }

  predicate NibbleClear(x: bv32) {
    x & 0xF000_0000 == 0
  }

  lemma ClearFour(x: bv32)
    requires NibbleClear(x)
    ensures TopClear(x) && TopClear(Shl(x)) && TopClear(Shl(Shl(x))) && TopClear(Shl(Shl(Shl(x))))
  {
  }

  lemma FourSteps(x: bv32, n: nat)
    requires NibbleClear(Bits(x, n))
    ensures Bits(x, n + 4) == Shl4(Bits(x, n))
  {
    hide Bit, Bits, Shl, TopClear, NibbleClear;
    var y := Bits(x, n);
    ClearFour(y);
    ClearBitShifts(y);
    ClearBitShifts(Shl(y));
    ClearBitShifts(Shl(Shl(y)));
    ClearBitShifts(Shl(Shl(Shl(y))));
    StepBits(x, n);
    StepBits(x, n + 1);
    StepBits(x, n + 2);
    StepBits(x, n + 3);
  }

  lemma NibbleShifts(x: bv32)
    requires x & 0xFF00_0000 == 0
    ensures NibbleClear(x) && NibbleClear(Shl4(x)) && Shl4(Shl4(x)) == x << 8
  {
  }

  /** While the top byte is clear, eight steps only shift. */
  lemma EightStepsShift(x: bv32)
    requires x & 0xFF00_0000 == 0
    ensures Bits(x, 8) == x << 8
  {
    hide Bits, NibbleClear, Shl4;
    NibbleShifts(x);
    StepBits(x, 0);
    FourSteps(x, 0);
    FourSteps(x, 4);
  }

  lemma SplitWord(b0: bv8, b1: bv8, b2: bv8, b3: bv8)
    ensures Word(b0, b1, b2, b3) == Xor(Place(b0), Word(0, b1, b2, b3)) && Word(0, b1, b2, b3) & 0xFF00_0000 == 0
    ensures Word(0, b1, b2, b3) << 8 == Word(b1, b2, b3, 0)
  {
  }

  /** Eight steps over a word still to be fed are the step for its top byte, with the rest moved up. */
  lemma FeedTopByte(c: bv32, b0: bv8, b1: bv8, b2: bv8, b3: bv8)
    ensures Bits(Xor(c, Word(b0, b1, b2, b3)), 8) == Xor(Byte(c, b0), Word(b1, b2, b3, 0))
  {
    hide Xor, Bits, Place, Word;
    var rest := Word(0, b1, b2, b3);
    SplitWord(b0, b1, b2, b3);
    EightStepsShift(rest);
    XorAssoc(c, Place(b0), rest);
    BitsAreLinear(Xor(c, Place(b0)), rest, 8);
  }

  lemma FeedWord(c: bv32, b0: bv8, b1: bv8, b2: bv8, b3: bv8)
    ensures Bits(Bits(Bits(Bits(Xor(c, Word(b0, b1, b2, b3)), 8), 8), 8), 8) == Byte(Byte(Byte(Byte(c, b0), b1), b2), b3)
  {
    hide Xor, Bits, Word, Byte;
    FeedTopByte(c, b0, b1, b2, b3);
    var c1 := Byte(c, b0);
    FeedTopByte(c1, b1, b2, b3, 0);
    var c2 := Byte(c1, b1);
    FeedTopByte(c2, b2, b3, 0, 0);
    var c3 := Byte(c2, b2);
    FeedTopByte(c3, b3, 0, 0, 0);
    ZeroWord(Byte(c3, b3));
  }

  lemma ZeroWord(x: bv32)
    ensures Word(0, 0, 0, 0) == 0 && Xor(x, Word(0, 0, 0, 0)) == x
  {
  }

  lemma XorZero(x: bv32, y: bv32)
    ensures Xor(x, y) == 0 <==> x == y
  {
  }

  /** The test made on a section: its last four bytes are the checksum of what precedes them. */
  predicate Accepts(d: Data)
    requires |d| >= 4
  {
    Crc(d[..|d| - 4]) == Word(d[|d| - 4], d[|d| - 3], d[|d| - 2], d[|d| - 1])
  }

  lemma LastFour(d: Data)
    requires |d| >= 4
    ensures Crc(d) == Byte(Byte(Byte(Byte(Crc(d[..|d| - 4]), d[|d| - 4]), d[|d| - 3]), d[|d| - 2]), d[|d| - 1])
  {
    hide Byte;
    var n := |d|;
    assert d[..n - 1][..n - 2] == d[..n - 2] && d[..n - 2][..n - 3] == d[..n - 3] && d[..n - 3][..n - 4] == d[..n - 4];
    assert Crc(d) == Byte(Crc(d[..n - 1]), d[n - 1]);
    assert Crc(d[..n - 1]) == Byte(Crc(d[..n - 2]), d[n - 2]);
    assert Crc(d[..n - 2]) == Byte(Crc(d[..n - 3]), d[n - 3]);
    assert Crc(d[..n - 3]) == Byte(Crc(d[..n - 4]), d[n - 4]);
  }

  /** A section passes exactly when the checksum over all of it is zero (annex A of ISO/IEC 13818-1). */
  lemma AcceptedIffZero(d: Data)
    requires |d| >= 4
    ensures Accepts(d) <==> Crc(d) == 0
  {
    hide Xor, Bits, Place, Word, Byte, Crc;
    var n := |d|;
    var c, w := Crc(d[..n - 4]), Word(d[n - 4], d[n - 3], d[n - 2], d[n - 1]);
    LastFour(d);
    FeedWord(c, d[n - 4], d[n - 3], d[n - 2], d[n - 1]);
    var x := Xor(c, w);
    BitsAreInjective(x, 8);
    BitsAreInjective(Bits(x, 8), 8);
    BitsAreInjective(Bits(Bits(x, 8), 8), 8);
    BitsAreInjective(Bits(Bits(Bits(x, 8), 8), 8), 8);
    XorZero(c, w);
  }

  // ---------------------------------------------------------------------------------------------
  // The loops

  method CalculateCrc32(data: Data) returns (crc: bv32)
    ensures crc == Crc(data)
  {
    hide Bit, Place;
    crc := 0xFFFF_FFFF;
    var k := 0;
    while k < |data|
      invariant 0 <= k <= |data| && crc == Crc(data[..k])
    {
      ghost var start := StartByte(crc, data[k]);
      crc := crc ^ ((data[k] as bv32) << 24);
      var i := 0;
      while i < 8
        invariant 0 <= i <= 8 && crc == Bits(start, i)
      {
        crc := StepBit(crc);
        i := i + 1;
      }
      assert data[..k + 1][..k] == data[..k];
      k := k + 1;
    }
    assert data[..k] == data;
  }

  ghost function StartByte(crc: bv32, b: bv8): (r: bv32)
    ensures r == crc ^ ((b as bv32) << 24)
  {
    Xor(crc, Place(b))
  }

  method StepBit(c: bv32) returns (crc: bv32)
    ensures crc == Bit(c)
  {
    crc := c;
    if crc & 0x8000_0000 != 0 {
      crc := (crc << 1) ^ POLY;
    } else {
      crc := crc << 1;
    }
  }

  /** Sections shorter than the check word are ignored. */
  method CheckSection(data: Data) returns (ok: bool)
    ensures ok <==> |data| >= 4 && Crc(data) == 0
  {
    var len := |data|;
    if len < 4 {
      return false;
    }
    var calculated := CalculateCrc32(data[..len - 4]);
    var received := ((data[len - 4] as bv32) << 24) | ((data[len - 3] as bv32) << 16) | ((data[len - 2] as bv32) << 8)
                    | (data[len - 1] as bv32);
    hide Crc;
    AcceptedIffZero(data);
    ok := calculated == received;
  }

  // ---------------------------------------------------------------------------------------------
  // The polynomial

  lemma EightBits(c: bv32)
    ensures Bits(c, 8) == Bit(Bit(Bit(Bit(Bit(Bit(Bit(Bit(c))))))))
  {
    hide Bit;
    assert Bits(c, 1) == Bit(Bits(c, 0));
    assert Bits(c, 2) == Bit(Bits(c, 1));
    assert Bits(c, 3) == Bit(Bits(c, 2));
    assert Bits(c, 4) == Bit(Bits(c, 3));
    assert Bits(c, 5) == Bit(Bits(c, 4));
    assert Bits(c, 6) == Bit(Bits(c, 5));
    assert Bits(c, 7) == Bit(Bits(c, 6));
  }

  lemma ByteIs(c: bv32, b: bv8)
    ensures Byte(c, b) == Bit(Bit(Bit(Bit(Bit(Bit(Bit(Bit(Xor(c, Place(b))))))))))
  {
    hide Bit, Bits, Xor, Place;
    EightBits(Xor(c, Place(b)));
  }

  lemma CrcStep(d: Data, b: bv8)
    ensures Crc(d + [b]) == Byte(Crc(d), b)
  {
    hide Byte;
    assert (d + [b])[..|d|] == d;
  }

  const DIGITS: Data := [0x31, 0x32, 0x33, 0x34, 0x35, 0x36, 0x37, 0x38, 0x39]

  lemma Digits1()
    ensures Byte(0xFFFF_FFFF, 0x31) == 0x9EFB_CF93
    ensures Byte(0x9EFB_CF93, 0x32) == 0x3FEC_5E6A
    ensures Byte(0x3FEC_5E6A, 0x33) == 0xD952_F164
  {
    ByteIs(0xFFFF_FFFF, 0x31);
    ByteIs(0x9EFB_CF93, 0x32);
    ByteIs(0x3FEC_5E6A, 0x33);
  }

  lemma Digits2()
    ensures Byte(0xD952_F164, 0x34) == 0xA695_C4AA
    ensures Byte(0xA695_C4AA, 0x35) == 0xBD9A_B747
    ensures Byte(0xBD9A_B747, 0x36) == 0xD8F0_6C8F
  {
    ByteIs(0xD952_F164, 0x34);
    ByteIs(0xA695_C4AA, 0x35);
    ByteIs(0xBD9A_B747, 0x36);
  }

  lemma Digits3()
    ensures Byte(0xD8F0_6C8F, 0x37) == 0x0D8A_14C4
    ensures Byte(0x0D8A_14C4, 0x38) == 0x49E3_C2FB
    ensures Byte(0x49E3_C2FB, 0x39) == 0x0376_E6E7
  {
    ByteIs(0xD8F0_6C8F, 0x37);
    ByteIs(0x0D8A_14C4, 0x38);
    ByteIs(0x49E3_C2FB, 0x39);
  }

  /** The check value of CRC-32/MPEG-2: of the nine ASCII digits from 1 on the checksum is 0x0376E6E7. */
  lemma CheckValue()
    ensures Crc(DIGITS) == 0x0376_E6E7
  {
    hide Byte;
    Digits1();
    Digits2();
    Digits3();
    assert Crc([]) == 0xFFFF_FFFF;
    hide Crc;
    CrcStep([], 0x31);
    CrcStep(DIGITS[..1], 0x32);
    CrcStep(DIGITS[..2], 0x33);
    CrcStep(DIGITS[..3], 0x34);
    CrcStep(DIGITS[..4], 0x35);
    CrcStep(DIGITS[..5], 0x36);
    CrcStep(DIGITS[..6], 0x37);
    CrcStep(DIGITS[..7], 0x38);
    CrcStep(DIGITS[..8], 0x39);
    assert [] + [0x31] == DIGITS[..1] && DIGITS[..9] == DIGITS;
    forall i | 0 <= i < 9 ensures DIGITS[..i] + [DIGITS[i]] == DIGITS[..i + 1] {
    }
  }
}
