/** The read-modify-write bitfield combiner `mask` of the LSM9DS1 driver.
    A Java `int` is a `bv32` here. */
module BitField {

  /** Java's `x << n` on an `int`: only the low five bits of n count. */
  function Shl(x: bv32, n: bv32): bv32
  {
    x << (n & 31)
  }

  /** `mask(toMask, newData, lsbPos, valueMask)`: the bits of the field
      `valueMask << lsbPos` take newData, the other bits keep toMask. newData is
      not masked, so bits it has outside valueMask are OR-ed into the register. */
  function Mask(toMask: bv32, newData: bv32, lsbPos: bv32, valueMask: bv32): bv32
  {
    var fieldBits := Shl(valueMask, lsbPos);
    var notMask := !fieldBits;
    Shl(newData, lsbPos) | (toMask & notMask)
  }

  /** Reads a field back out of a register value: the inverse of Mask. */
  function Extract(register: bv32, lsbPos: bv32, valueMask: bv32): bv32
  {
    (register >> (lsbPos & 31)) & valueMask
  }

  /** A right-aligned field that lies inside one register byte. */
  predicate FitsByte(valueMask: bv32, lsbPos: bv32)
  {
    lsbPos < 8 && valueMask <= 0xFF && Shl(valueMask, lsbPos) <= 0xFF
  }

  /** Mask with the shift already applied: data d over the field bits f. */
  lemma CombineSetsField(d: bv32, t: bv32, f: bv32)
    ensures (d | (t & !f)) & f == d & f
  {
  }

  lemma CombineKeepsOutside(d: bv32, t: bv32, f: bv32)
    requires d & !f == 0
    ensures (d | (t & !f)) & !f == t & !f
  {
  }

  /** A value inside its mask stays inside it when both are shifted alike. */
  lemma ShiftKeepsInside(d: bv32, v: bv32, n: bv32)
    requires d & !v == 0
    ensures Shl(d, n) & !Shl(v, n) == 0
  {
  }

  /** The bits of the field hold newData once it is shifted into place. */
  lemma MaskSetsField(toMask: bv32, newData: bv32, lsbPos: bv32, valueMask: bv32)
    ensures Mask(toMask, newData, lsbPos, valueMask) & Shl(valueMask, lsbPos)
            == Shl(newData, lsbPos) & Shl(valueMask, lsbPos)
  {
    CombineSetsField(Shl(newData, lsbPos), toMask, Shl(valueMask, lsbPos));
  }

  /** When newData respects valueMask, every bit outside the field keeps its
      value from toMask. */
  lemma MaskKeepsOtherBits(toMask: bv32, newData: bv32, lsbPos: bv32, valueMask: bv32)
    requires newData & !valueMask == 0
    ensures Mask(toMask, newData, lsbPos, valueMask) & !Shl(valueMask, lsbPos)
            == toMask & !Shl(valueMask, lsbPos)
  {
    var d := Shl(newData, lsbPos);
    var f := Shl(valueMask, lsbPos);
    assert d & !f == 0;
  }

  /** Round trip: a value that respects its mask is read back unchanged. */
  lemma MaskRoundTrip(toMask: bv32, newData: bv32, lsbPos: bv32, valueMask: bv32)
    requires FitsByte(valueMask, lsbPos)
    requires newData & !valueMask == 0
    ensures Extract(Mask(toMask, newData, lsbPos, valueMask), lsbPos, valueMask) == newData
  {
    var r := Mask(toMask, newData, lsbPos, valueMask);
    MaskSetsField(toMask, newData, lsbPos, valueMask);
    assert (r >> lsbPos) & valueMask == ((r & Shl(valueMask, lsbPos)) >> lsbPos) & valueMask by {
      RoundTripShift(r, lsbPos, valueMask);
    }
    RoundTripShift(Shl(newData, lsbPos), lsbPos, valueMask);
  }

  /** Shifting right by a field's offset and masking only looks at the field. */
  lemma RoundTripShift(x: bv32, k: bv32, v: bv32)
    requires k < 8 && v <= 0xFF
    ensures (x >> k) & v == ((x & Shl(v, k)) >> k) & v
  {
  }

  /** A field write on a byte gives a byte, so the driver's `(byte)` cast of the
      result loses nothing. */
  lemma MaskStaysInByte(toMask: bv32, newData: bv32, lsbPos: bv32, valueMask: bv32)
    requires FitsByte(valueMask, lsbPos)
    requires newData & !valueMask == 0
    requires toMask <= 0xFF
    ensures Mask(toMask, newData, lsbPos, valueMask) <= 0xFF
  {
    ShiftKeepsInside(newData, valueMask, lsbPos);
    var d := Shl(newData, lsbPos);
    var f := Shl(valueMask, lsbPos);
    assert d & !f == 0;
    assert Mask(toMask, newData, lsbPos, valueMask) == d | (toMask & !f);
    ByteUnion(d, toMask, f);
  }

  lemma ByteUnion(d: bv32, t: bv32, f: bv32)
    requires d & !f == 0 && f <= 0xFF && t <= 0xFF
    ensures d | (t & !f) <= 0xFF
  {
  }

  /** Two values that agree outside the bits f agree on every field that lies
      outside f: a write to one field cannot disturb another. */
  lemma OutsideKeepsField(a: bv32, b: bv32, f: bv32, lsbPos: bv32, valueMask: bv32)
    requires a & !f == b & !f
    requires lsbPos < 8 && valueMask <= 0xFF && Shl(valueMask, lsbPos) & f == 0
    ensures Extract(a, lsbPos, valueMask) == Extract(b, lsbPos, valueMask)
  {
    DisjointAgree(a, b, f, Shl(valueMask, lsbPos));
    SameFieldSameExtract(a, b, lsbPos, valueMask);
  }

  lemma DisjointAgree(a: bv32, b: bv32, f: bv32, g: bv32)
    requires a & !f == b & !f
    requires g & f == 0
    ensures a & g == b & g
  {
  }

  lemma SameFieldSameExtract(a: bv32, b: bv32, lsbPos: bv32, valueMask: bv32)
    requires lsbPos < 8 && valueMask <= 0xFF
    requires a & Shl(valueMask, lsbPos) == b & Shl(valueMask, lsbPos)
    ensures Extract(a, lsbPos, valueMask) == Extract(b, lsbPos, valueMask)
  {
    RoundTripShift(a, lsbPos, valueMask);
    RoundTripShift(b, lsbPos, valueMask);
  }

  /** Java's `(byte)` cast of an `int`: the low eight bits. */
  function ByteCast(x: bv32): bv8
  {
    (x & 0xFF) as bv8
  }

  /** The cast loses nothing on a value that already fits in a byte. */
  lemma ByteCastKeepsByte(x: bv32)
    requires x <= 0xFF
    ensures ByteCast(x) as bv32 == x
  {
  }

  /** Without its precondition Mask corrupts the neighbours of the field: the
      value 4 written into the two-bit field at bit 0 sets bit 2 and reads back
      as 0. */
  lemma MaskUnmaskedDataSpills()
    ensures Mask(0, 4, 0, 3) & !Shl(3, 0) == 4
    ensures Extract(Mask(0, 4, 0, 3), 0, 3) == 0
  {
  }
}
