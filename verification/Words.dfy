/** Sixteen-bit words seen one bit at a time. Every fact here is about `bv16` operators
    only, so that no other module has to reason about bit-vectors and sequences at once. */
module Words {

  /** The word with only bit i set. */
  function Place(i: nat): (m: bv16)
    requires i < 16
  {
    if i == 0 then 1 else Place(i - 1) << 1
  }

  lemma PlaceValues()
    ensures Place(0) == 0x0001 && Place(1) == 0x0002 && Place(2) == 0x0004 && Place(3) == 0x0008
    ensures Place(4) == 0x0010 && Place(5) == 0x0020 && Place(6) == 0x0040 && Place(7) == 0x0080
    ensures Place(8) == 0x0100 && Place(9) == 0x0200 && Place(10) == 0x0400 && Place(11) == 0x0800
    ensures Place(12) == 0x1000 && Place(13) == 0x2000 && Place(14) == 0x4000 && Place(15) == 0x8000
  {
    assert Place(4) == 0x0010;
    assert Place(8) == 0x0100;
    assert Place(12) == 0x1000;
  }

  lemma PlaceNext(i: nat)
    requires i < 15
    ensures Place(i + 1) == Place(i) << 1
  {
  }

  lemma PlaceIsOneBit(i: nat)
    requires i < 16
    ensures Place(i) != 0 && Place(i) & (Place(i) - 1) == 0
    ensures i < 15 ==> Place(i) & 0x7FFF == Place(i)
    ensures (i == 0) == (Place(i) == 1)
    ensures i >= 8 ==> Place(i) & 0xFF == 0
    ensures (i == 0 || i == 13 || i == 15) == (Place(i) & 0xA001 != 0)
  {
    PlaceValues();
  }

  /** `u16::from`. */
  function Word(b: bv8): bv16 {
    b as bv16
  }

  /** Bit i of a word, bit 0 being the least significant. */
  predicate BitAt(c: bv16, i: nat)
    requires i < 16
  {
    Has(c, Place(i))
  }

  predicate Has(c: bv16, m: bv16) {
    c & m != 0
  }

  /** The word 1 or 0. */
  function Bit(b: bool): (r: bv16)
    ensures r & 0xFFFE == 0
  {
    if b then 1 else 0
  }

  // ---- the operators, on masks ----

  lemma XorMasked(c: bv16, d: bv16, m: bv16)
    requires m != 0 && m & (m - 1) == 0
    ensures Has(c ^ d, m) == (Has(c, m) != Has(d, m))
  {
  }

  lemma NotMasked(c: bv16, m: bv16)
    requires m != 0 && m & (m - 1) == 0
    ensures Has(!c, m) == !Has(c, m)
  {
  }

  lemma RightShiftMasked(c: bv16, m: bv16, next: bv16)
    requires next == m << 1
    ensures Has(c >> 1, m) == Has(c, next)
  {
  }

  lemma RightShiftTop(c: bv16)
    ensures !Has(c >> 1, 0x8000)
  {
  }

  // ---- the operators, bit by bit ----

  lemma BitsOfXor(c: bv16, d: bv16, i: nat)
    requires i < 16
    ensures BitAt(c ^ d, i) == (BitAt(c, i) != BitAt(d, i))
  {
    PlaceIsOneBit(i);
    XorMasked(c, d, Place(i));
  }

  lemma BitsOfNot(c: bv16, i: nat)
    requires i < 16
    ensures BitAt(!c, i) == !BitAt(c, i)
  {
    PlaceIsOneBit(i);
    NotMasked(c, Place(i));
  }

  lemma RightShiftAt(c: bv16, i: nat, m: bv16, next: bv16)
    requires i < 15 && m == Place(i) && next == Place(i + 1)
    ensures Has(c >> 1, m) == Has(c, next)
  {
    PlaceNext(i);
    RightShiftMasked(c, m, next);
  }

  lemma BitsOfRightShift(c: bv16, i: nat)
    requires i < 16
    ensures BitAt(c >> 1, i) == (i < 15 && BitAt(c, i + 1))
  {
    if i < 15 {
      RightShiftAt(c, i, Place(i), Place(i + 1));
    } else {
      PlaceValues();
      RightShiftTop(c);
    }
  }

  lemma OneMasked(b: bool, m: bv16)
    requires m != 0 && m & (m - 1) == 0
    ensures Has(Bit(b), m) == (m == 1 && b)
  {
  }

  lemma BitsOfBit(b: bool, i: nat)
    requires i < 16
    ensures BitAt(Bit(b), i) == (i == 0 && b)
  {
    PlaceIsOneBit(i);
    OneMasked(b, Place(i));
  }

  lemma ByteMasked(b: bv8, m: bv16)
    requires m & 0xFF == 0
    ensures (b as bv16) & m == 0
  {
  }

  lemma BitsOfByte(b: bv8, i: nat)
    requires 8 <= i < 16
    ensures !BitAt(Word(b), i)
  {
    PlaceIsOneBit(i);
    ByteMasked(b, Place(i));
  }

  lemma ConstantsMasked(m: bv16)
    ensures 0 & m == 0 && 0xFFFF & m == m && 0xA001 & m == m & 0xA001
  {
  }

  lemma BitsOfConstants(i: nat)
    requires i < 16
    ensures !BitAt(0, i) && BitAt(0xFFFF, i)
    ensures BitAt(0xA001, i) == (i == 0 || i == 13 || i == 15)
  {
    PlaceIsOneBit(i);
    ConstantsMasked(Place(i));
  }

  lemma MaskOrZero(x: bv16)
    requires x & 0x00FF == 0 && x & 0xFF00 == 0
    ensures x == 0
  {
  }

  lemma LowMasks(x: bv16)
    requires x & 0x0001 == 0 && x & 0x0002 == 0 && x & 0x0004 == 0 && x & 0x0008 == 0
    requires x & 0x0010 == 0 && x & 0x0020 == 0 && x & 0x0040 == 0 && x & 0x0080 == 0
    ensures x & 0x00FF == 0
  {
  }

  lemma HighMasks(x: bv16)
    requires x & 0x0100 == 0 && x & 0x0200 == 0 && x & 0x0400 == 0 && x & 0x0800 == 0
    requires x & 0x1000 == 0 && x & 0x2000 == 0 && x & 0x4000 == 0 && x & 0x8000 == 0
    ensures x & 0xFF00 == 0
  {
  }

  lemma NoBits(x: bv16)
    requires forall i :: 0 <= i < 16 ==> !BitAt(x, i)
    ensures x == 0
  {
    PlaceValues();
    assert !BitAt(x, 0) && !BitAt(x, 1) && !BitAt(x, 2) && !BitAt(x, 3);
    assert !BitAt(x, 4) && !BitAt(x, 5) && !BitAt(x, 6) && !BitAt(x, 7);
    LowMasks(x);
    assert !BitAt(x, 8) && !BitAt(x, 9) && !BitAt(x, 10) && !BitAt(x, 11);
    assert !BitAt(x, 12) && !BitAt(x, 13) && !BitAt(x, 14) && !BitAt(x, 15);
    HighMasks(x);
    MaskOrZero(x);
  }

  lemma XorIsZero(c: bv16, d: bv16)
    requires c ^ d == 0
    ensures c == d
  {
  }

  /** Words with the same bits are the same word. */
  lemma SameBits(c: bv16, d: bv16)
    requires forall i :: 0 <= i < 16 ==> BitAt(c, i) == BitAt(d, i)
    ensures c == d
  {
    var x := c ^ d;
    forall i | 0 <= i < 16 ensures !BitAt(x, i) {
      BitsOfXor(c, d, i);
    }
    NoBits(x);
    XorIsZero(c, d);
  }

  // ---- the two bytes of a word ----

  function LowByte(c: bv16): bv8 {
    (c & 0xFF) as bv8
  }

  function HighByte(c: bv16): bv8 {
    (c >> 8) as bv8
  }

  /** `u16::to_le_bytes`. */
  function Le16(c: bv16): (s: seq<bv8>)
    ensures |s| == 2
  {
    [LowByte(c), HighByte(c)]
  }

  lemma LowByteMasked(c: bv16, m: bv16)
    requires m & 0xFF == m
    ensures Has(Word(LowByte(c)), m) == Has(c, m)
  {
  }

  lemma HighByteMasked(c: bv16, m: bv16, next: bv16)
    requires m & 0xFF == m && next == m << 8
    ensures Has(Word(HighByte(c)), m) == Has(c, next)
  {
  }

  lemma PlaceInHighByte(i: nat)
    requires i < 8
    ensures Place(i) & 0xFF == Place(i) && Place(i + 8) == Place(i) << 8
  {
    PlaceValues();
  }

  lemma BitsOfBytes(c: bv16, i: nat)
    requires i < 8
    ensures BitAt(Word(LowByte(c)), i) == BitAt(c, i)
    ensures BitAt(Word(HighByte(c)), i) == BitAt(c, i + 8)
  {
    PlaceInHighByte(i);
    LowByteMasked(c, Place(i));
    HighByteMasked(c, Place(i), Place(i + 8));
  }
}
