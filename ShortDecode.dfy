/** The Java integer conversions that `getData` applies to each pair of raw
    FIFO bytes. A Java `int` is a `bv32`, a `char` or `short` a `bv16` and a
    byte of the bus a `bv8`. */
module ShortDecode {

  /** Widening of a Java `byte` to `int`: sign extension. */
  function WidenByte(b: bv8): bv32
  {
    if b < 0x80 then b as bv32 else (b as bv32) | 0xFFFF_FF00
  }

  /** Narrowing of an `int` to `char` or to `short`: the low 16 bits. */
  function Narrow16(x: bv32): bv16
  {
    (x & 0xFFFF) as bv16
  }

  /** Widening of a Java `short` to `int`: sign extension. */
  function WidenShort(s: bv16): bv32
  {
    if s < 0x8000 then s as bv32 else (s as bv32) | 0xFFFF_0000
  }

  /** The numeric value of the 16 bits of a Java `short`. */
  function ShortValue(s: bv16): int
  {
    Signed16(s as int)
  }

  /** The two's-complement reading of an unsigned 16-bit number. */
  function Signed16(u: nat): (v: int)
    requires u < 0x1_0000
    ensures -0x8000 <= v < 0x8000
    ensures v % 0x1_0000 == u
  {
    if u < 0x8000 then u else u - 0x1_0000
  }

  /** The bits of one step of `getData`: `(short) (low | (high << 8))` with
      `low = (short) (char) lo` and `high = (short) (char) hi`. */
  function ShortBits(lo: bv8, hi: bv8): bv16
  {
    var low := Narrow16(WidenByte(lo));
    var high := Narrow16(WidenByte(hi));
    Narrow16(WidenShort(low) | (WidenShort(high) << 8))
  }

  /** The value `getData` stores for the byte pair (lo, hi). */
  function ShortOf(lo: bv8, hi: bv8): (v: int)
    ensures -0x8000 <= v < 0x8000
  {
    ShortValue(ShortBits(lo, hi))
  }

  /** Little-endian as intended when lo < 0x80 ... */
  lemma ShortBitsLowBelow80(lo: bv8, hi: bv8)
    requires lo < 0x80
    ensures ShortBits(lo, hi) == ((hi as bv16) << 8) | lo as bv16
  {
  }

  /** ... otherwise the sign bits of lo cover the high byte and hi is lost. */
  lemma ShortBitsLowFrom80(lo: bv8, hi: bv8)
    requires 0x80 <= lo
    ensures ShortBits(lo, hi) == 0xFF00 | lo as bv16
  {
  }

  lemma PairValue(lo: bv8, hi: bv8)
    ensures (((hi as bv16) << 8) | lo as bv16) as int == hi as int * 256 + lo as int
  {
  }

  lemma SignFilledValue(lo: bv8)
    ensures (0xFF00 | lo as bv16) as int == 0xFF00 + lo as int
  {
  }

  /** ShortOf in numbers: signed16(hi * 256 + lo) when lo < 0x80, lo - 256 otherwise. */
  lemma ShortOfValue(lo: bv8, hi: bv8)
    ensures lo < 0x80 ==> ShortOf(lo, hi) == Signed16(hi as int * 256 + lo as int)
    ensures 0x80 <= lo ==> ShortOf(lo, hi) == lo as int - 0x100
  {
    if lo < 0x80 {
      ShortBitsLowBelow80(lo, hi);
      PairValue(lo, hi);
    } else {
      ShortBitsLowFrom80(lo, hi);
      SignFilledValue(lo);
    }
  }

  /** getData agrees with little-endian decoding exactly when the low byte is
      below 0x80 or the high byte is 0xFF. */
  lemma ShortOfIsLittleEndianIff(lo: bv8, hi: bv8)
    ensures ShortOf(lo, hi) == Signed16(hi as int * 256 + lo as int) <==> lo < 0x80 || hi == 0xFF
  {
    ShortOfValue(lo, hi);
  }

  /** The pair (0x80, 0x01) stands for 0x0180 = 384, but getData yields -128. */
  lemma ShortOfLosesHighByte()
    ensures Signed16(0x01 * 256 + 0x80) == 384
    ensures ShortOf(0x80, 0x01) == -128
  {
    ShortOfValue(0x80, 0x01);
  }

  /** Corrected step of getData: the low byte is zero-extended
      (`data[i * 2] & 0xFF`) before it is combined with the high byte. */
  function LittleEndianBits(lo: bv8, hi: bv8): bv16
  {
    Narrow16((WidenByte(lo) & 0xFF) | (WidenByte(hi) << 8))
  }

  function LittleEndianShort(lo: bv8, hi: bv8): int
  {
    ShortValue(LittleEndianBits(lo, hi))
  }

  lemma LittleEndianBitsPair(lo: bv8, hi: bv8)
    ensures LittleEndianBits(lo, hi) == ((hi as bv16) << 8) | lo as bv16
  {
  }

  /** The corrected step decodes every pair little-endian. */
  lemma LittleEndianShortValue(lo: bv8, hi: bv8)
    ensures LittleEndianShort(lo, hi) == Signed16(hi as int * 256 + lo as int)
  {
    LittleEndianBitsPair(lo, hi);
    PairValue(lo, hi);
  }

  /** Round trip of the corrected step: the decoded short gives back both
      bytes it was made from. */
  lemma LittleEndianShortRoundTrip(lo: bv8, hi: bv8)
    ensures LittleEndianShort(lo, hi) % 0x1_0000 / 0x100 == hi as int
    ensures LittleEndianShort(lo, hi) % 0x100 == lo as int
  {
    LittleEndianShortValue(lo, hi);
    var u := hi as int * 256 + lo as int;
    var v := LittleEndianShort(lo, hi);
    assert v == u || v == u - 0x1_0000;
    assert v % 0x1_0000 == u;
    assert u / 0x100 == hi as int;
    assert v % 0x100 == lo as int by {
      if v != u {
        assert v == (hi as int - 256) * 256 + lo as int;
      }
    }
  }
}
