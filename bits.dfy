/** Pure bit-field arithmetic behind the GPIO register macros of spi.h:
    3-bit function-select fields (10 per 32-bit word) and single-bit
    set/clear/level masks. */
module Bits {

  /** Number of 3-bit function-select fields in one gpfsel word. */
  const PinsPerFselWord: nat := 10

  /** Bit offset of function-select field `f` inside its word: `(pin % 10) * 3`,
      tabulated so that the solver works on bit-vector constants. */
  function FieldShift(f: nat): (s: bv32)
    requires f < PinsPerFselWord
    ensures s <= 27
  {
    match f
    case 0 => 0 case 1 => 3 case 2 => 6 case 3 => 9 case 4 => 12
    case 5 => 15 case 6 => 18 case 7 => 21 case 8 => 24 case _ => 27
  }

  /** The tabulated offset is `3 * f`. */
  lemma FieldShiftIsThreeTimes(f: nat)
    requires f < PinsPerFselWord
    ensures FieldShift(f) as int == 3 * f
  {}

  /** `0x7 << ((pin) % 10) * 3`: the three bits of field `f`. */
  function FieldMask(f: nat): bv32
    requires f < PinsPerFselWord
  {
    7 << FieldShift(f)
  }

  /** The word SET_GPIO_MODE stores: clear field `f`, then OR in `mode` at its offset. */
  function WithField(word: bv32, f: nat, mode: bv3): bv32
    requires f < PinsPerFselWord
  {
    (word & !FieldMask(f)) | ((mode as bv32) << FieldShift(f))
  }

  /** What GET_GPIO_MODE extracts: field `f` of `word`, shifted down. */
  function FieldOf(word: bv32, f: nat): (m: bv3)
    requires f < PinsPerFselWord
  {
    FieldOfAt(word, FieldShift(f))
  }

  function FieldOfAt(word: bv32, s: bv32): (m: bv3)
    requires s <= 27
  {
    ((word & (7 << s)) >> s) as bv3
  }

  /** `mode`, at field `f`'s offset, is exactly what `word` holds under the
      field's mask `7 << FieldShift(f)`. */
  predicate HoldsField(word: bv32, f: nat, mode: bv3)
    requires f < PinsPerFselWord
  {
    HoldsFieldAt(word, FieldShift(f), mode)
  }

  predicate HoldsFieldAt(word: bv32, s: bv32, mode: bv3)
    requires s <= 27
  {
    (mode as bv32) << s == word & (7 << s)
  }

  /** The extracted field, shifted back to its offset, is exactly the word's bits
      under the field's mask `7 << FieldShift(f)`: GET_GPIO_MODE loses nothing
      of the field. */
  lemma FieldInPlace(word: bv32, f: nat)
    requires f < PinsPerFselWord
    ensures HoldsField(word, f, FieldOf(word, f))
  {
    FieldOfIsAt(word, f);
    FieldInPlaceAt(word, FieldShift(f));
  }

  lemma FieldOfIsAt(word: bv32, f: nat)
    requires f < PinsPerFselWord
    ensures FieldOf(word, f) == FieldOfAt(word, FieldShift(f))
  {}

  lemma FieldInPlaceAt(word: bv32, s: bv32)
    requires s <= 27
    ensures HoldsFieldAt(word, s, FieldOfAt(word, s))
  {}

  /** `1 << pin`, the value SET_GPIO and CLEAR_GPIO write; pins are 0..31. */
  function PinMask(pin: nat): bv32
    requires pin < 32
  {
    1 << (pin as bv32)
  }

  /** Bit `b` of `v` is set: shifted down to position 0, it reads 1. */
  predicate BitSet(v: bv32, b: nat)
    requires b < 32
  {
    (v >> (b as bv32)) & 1 == 1
  }

  /** The level test of GET_GPIO: `levels & (1 << pin)`, which is nonzero exactly
      when the pin's bit is set, and then is exactly the pin's mask. */
  function LevelBit(levels: bv32, pin: nat): (r: bv32)
    requires pin < 32
    ensures r == 0 || r == PinMask(pin)
    ensures r != 0 <==> BitSet(levels, pin)
  {
    MaskedIsZeroOrMask(levels, pin);
    MaskedIffBitSet(levels, pin);
    levels & PinMask(pin)
  }

  /** Reading a field back after writing a mode that fits in 3 bits gives that mode. */
  lemma FieldReadBack(word: bv32, f: nat, mode: bv3)
    requires f < PinsPerFselWord
    ensures FieldOf(WithField(word, f, mode), f) == mode
  {
    FieldReadBackAt(word, FieldShift(f), mode);
  }

  lemma FieldReadBackAt(word: bv32, s: bv32, mode: bv3)
    requires s <= 27
    ensures FieldOfAt((word & !(7 << s)) | ((mode as bv32) << s), s) == mode
  {}

  /** Writing field `f` leaves every other field of the word as it was. */
  lemma FieldWriteKeepsOthers(word: bv32, f: nat, g: nat, mode: bv3)
    requires f < PinsPerFselWord && g < PinsPerFselWord && f != g
    ensures FieldOf(WithField(word, f, mode), g) == FieldOf(word, g)
  {
    DisjointFieldsAt(word, FieldShift(f), FieldShift(g), mode);
  }

  lemma DisjointFieldsAt(word: bv32, s: bv32, t: bv32, mode: bv3)
    requires s <= 27 && t <= 27 && (s + 3 <= t || t + 3 <= s)
    ensures FieldOfAt((word & !(7 << s)) | ((mode as bv32) << s), t) == FieldOfAt(word, t)
  {}

  /** At the level of single bits: every bit outside the field's mask
      `0x7 << 3f` (bits 3f..3f+2) is the same afterwards. */
  lemma FieldWriteKeepsOtherBits(word: bv32, f: nat, mode: bv3)
    requires f < PinsPerFselWord
    ensures WithField(word, f, mode) & !FieldMask(f) == word & !FieldMask(f)
  {
    OtherBitsAt(word, FieldShift(f), mode);
  }

  lemma OtherBitsAt(word: bv32, s: bv32, mode: bv3)
    requires s <= 27
    ensures ((word & !(7 << s)) | ((mode as bv32) << s)) & !(7 << s) == word & !(7 << s)
  {
    ModeInsideMask(s, mode);
    ClearThenOr(word, (mode as bv32) << s, 7 << s);
  }

  lemma ModeInsideMask(s: bv32, mode: bv3)
    requires s <= 27
    ensures ((mode as bv32) << s) & !(7 << s) == 0
  {}

  lemma ClearThenOr(a: bv32, b: bv32, m: bv32)
    requires b & !m == 0
    ensures ((a & !m) | b) & !m == a & !m
  {}

  /** ... and the bits inside the mask are exactly the mode's. */
  lemma FieldWriteSetsOwnBits(word: bv32, f: nat, mode: bv3)
    requires f < PinsPerFselWord
    ensures WithField(word, f, mode) & FieldMask(f) == (mode as bv32) << FieldShift(f)
  {
    OwnBitsAt(word, FieldShift(f), mode);
  }

  lemma OwnBitsAt(word: bv32, s: bv32, mode: bv3)
    requires s <= 27
    ensures ((word & !(7 << s)) | ((mode as bv32) << s)) & (7 << s) == (mode as bv32) << s
  {}

  /** The set/clear value has exactly one bit set (it is a power of two), and
      that bit is the pin's own. */
  lemma PinMaskSingleBit(pin: nat)
    requires pin < 32
    ensures PinMask(pin) != 0 && PinMask(pin) & (PinMask(pin) - 1) == 0
    ensures BitSet(PinMask(pin), pin)
  {
    PowerOfTwoAt(pin as bv32);
    MaskedIffBitSet(PinMask(pin), pin);
  }

  /** Testing a pin's bit with its mask, as GET_GPIO does, agrees with `BitSet`. */
  lemma MaskedIffBitSet(v: bv32, pin: nat)
    requires pin < 32
    ensures v & PinMask(pin) != 0 <==> BitSet(v, pin)
  {
    MaskedThenShifted(v, pin);
    ShiftedThenMasked(v, pin);
  }

  lemma MaskedThenShifted(v: bv32, pin: nat)
    requires pin < 32
    ensures v & PinMask(pin) != 0 ==> BitSet(v, pin)
  {}

  lemma ShiftedThenMasked(v: bv32, pin: nat)
    requires pin < 32
    ensures BitSet(v, pin) ==> v & PinMask(pin) != 0
  {}

  lemma PowerOfTwoAt(s: bv32)
    requires s < 32
    ensures (1 as bv32) << s != 0 && ((1 as bv32) << s) & (((1 as bv32) << s) - 1) == 0
  {}

  /** A level test `v & (1 << pin)` is either zero or exactly the pin's mask. */
  lemma MaskedIsZeroOrMask(v: bv32, pin: nat)
    requires pin < 32
    ensures v & PinMask(pin) == 0 || v & PinMask(pin) == PinMask(pin)
  {
    MaskedAt(v, pin as bv32);
  }

  lemma MaskedAt(v: bv32, s: bv32)
    requires s < 32
    ensures (v & ((1 as bv32) << s)) == 0 || (v & ((1 as bv32) << s)) == ((1 as bv32) << s)
  {}

  /** The value of a byte read as a two's-complement `int8_t`. */
  function Signed8(b: bv8): int {
    if b < 0x80 then b as int else b as int - 0x100
  }

  /** The value of a word read as a two's-complement `int32_t`. */
  function Signed32(w: bv32): int {
    if w < 0x8000_0000 then w as int else w as int - 0x1_0000_0000
  }

  /** C's conversion of an `int8_t` to a 32-bit register word: bit 7 is copied
      into bits 8 to 31. The low byte is kept and the signed value is preserved. */
  function SignExtend(b: bv8): (r: bv32)
    ensures r & 0xFF == b as bv32
    ensures Signed32(r) == Signed8(b)
    ensures b >= 0x80 <==> r >= 0x8000_0000
  {
    if b < 0x80 then b as bv32 else b as bv32 | 0xFFFF_FF00
  }

  /** Each function-select word covers 10 pins, so pins below 60 use words 0..5. */
  lemma FselWordInRange(pin: nat)
    requires pin < 60
    ensures pin / PinsPerFselWord < 6 && pin % PinsPerFselWord < PinsPerFselWord
  {}
}
