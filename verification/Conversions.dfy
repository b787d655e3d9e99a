/**
 The double-to-integer conversions of `public/Conversions.h`: their meaning, and the
 generic bit-level algorithm for every result width.

 A double is its 64-bit pattern, as in section 3.4 of IEEE 754-2008. The meaning is the
 one of section 9.5 of ECMA-262 (edition 5.1), for any width.
 */
module Conversions {
  import opened Words

  // ---------------------------------------------------------------------------
  // Doubles and the meaning of the conversions
  // ---------------------------------------------------------------------------

  const EXPONENT_SHIFT: nat := 52
  const EXPONENT_BIAS: nat := 1023

  predicate IsDouble(bits: nat) {
    bits < Pow2(64)
  }

  function ExponentField(bits: nat): nat {
    (bits / Pow2(52)) % Pow2(11)
  }

  function Mantissa(bits: nat): (m: nat)
    ensures m < Pow2(52)
  {
    bits % Pow2(52)
  }

  /** The sign bit and the exponent field. */
  function TopField(bits: nat): nat {
    Shr(bits, 52)
  }

  predicate IsNegative(bits: nat) {
    Bit(bits, 63) == 1
  }

  /** Neither an infinity nor a NaN. */
  predicate IsFinite(bits: nat) {
    ExponentField(bits) != 2047
  }

  ghost function Exp2(i: int): real {
    if i >= 0 then Pow2(i) as real else 1.0 / Pow2(-i) as real
  }

  /** The absolute value of a finite double; exponent field 0 holds zero and the subnormals. */
  ghost function AbsValue(bits: nat): real {
    if ExponentField(bits) == 0 then
      Mantissa(bits) as real * Exp2(-1074)
    else
      (Pow2(52) + Mantissa(bits)) as real * Exp2(ExponentField(bits) - 1075)
  }

  /** `sign(d) * floor(abs(d))`, and 0 for infinities and NaNs. */
  ghost function Truncated(bits: nat): int {
    if !IsFinite(bits) then 0
    else if IsNegative(bits) then -AbsValue(bits).Floor
    else AbsValue(bits).Floor
  }

  /** The unsigned integer of the given width congruent to the truncated value. */
  ghost function ToUint(bits: nat, width: nat): nat {
    Truncated(bits) % Pow2(width)
  }

  function WrapToSigned(u: nat, width: nat): int
    requires width > 0
  {
    if u < Pow2(width - 1) then u else u - Pow2(width)
  }

  /** The signed integer of the given width congruent to the truncated value. */
  ghost function ToInt(bits: nat, width: nat): int
    requires width > 0
  {
    WrapToSigned(ToUint(bits, width), width)
  }

  lemma SignedIsCongruent(bits: nat, width: nat)
    requires width > 0
    ensures ToUint(bits, width) == Truncated(bits) % Pow2(width)
    ensures -(Pow2(width - 1) as int) <= ToInt(bits, width) < Pow2(width - 1)
    ensures ToInt(bits, width) % Pow2(width) == Truncated(bits) % Pow2(width)
  {
    hide Truncated;
    var u := ToUint(bits, width);
    AddMultiple(u, -1, Pow2(width));
    DivModUnique(u, Pow2(width), 0, u);
  }

  // ---------------------------------------------------------------------------
  // The floor of a double, in integers
  // ---------------------------------------------------------------------------

  lemma Reciprocal(d: real)
    requires d > 0.0
    ensures 1.0 / d > 0.0 && d * (1.0 / d) == 1.0
  {
  }

  lemma ScaledBelow(a: real, b: real, y: real)
    requires 0.0 <= a < b && y > 0.0
    ensures 0.0 <= a * y < b * y
  {
    assert (b - a) * y > 0.0;
  }

  lemma ScaledSplit(q: real, r: real, d: real, y: real)
    requires d * y == 1.0
    ensures (q * d + r) * y == q + r * y
  {
    assert (q * d + r) * y == q * (d * y) + r * y;
  }

  lemma FloorOfQuotient(n: nat, d: nat)
    requires d > 0
    ensures (n as real * (1.0 / d as real)).Floor == n / d
  {
    var y := 1.0 / d as real;
    var q, r := n / d, n % d;
    Reciprocal(d as real);
    assert n as real == (q * d) as real + r as real == q as real * d as real + r as real;
    ScaledSplit(q as real, r as real, d as real, y);
    ScaledBelow(r as real, d as real, y);
  }

  /** Scaling by a power of two and rounding down is a shift. */
  lemma FloorOfScaled(n: nat, i: int)
    ensures (n as real * Exp2(i)).Floor == if i >= 0 then n * Pow2(i) else n / Pow2(-i)
  {
    hide Pow2;
    if i >= 0 {
      assert n as real * Pow2(i) as real == (n * Pow2(i)) as real;
    } else {
      FloorOfQuotient(n, Pow2(-i));
    }
  }

  /** The integer part of a double with exponent `e >= 0`: the significand shifted by `e - 52`. */
  function Magnitude(m: nat, e: nat): nat {
    if e >= 52 then (Pow2(52) + m) * Pow2(e - 52) else Shr(Pow2(52) + m, 52 - e)
  }

  lemma FloorIsMagnitude(bits: nat)
    ensures ExponentField(bits) < 1023 ==> AbsValue(bits).Floor == 0
    ensures ExponentField(bits) >= 1023 ==> AbsValue(bits).Floor == Magnitude(Mantissa(bits), ExponentField(bits) - 1023)
  {
    hide Pow2, Exp2, ExponentField, Mantissa;
    var f: int, m := ExponentField(bits), Mantissa(bits);
    if f == 0 {
      FloorOfScaled(m, -1074);
      Pow2Grows(52, 1074);
      DivModUnique(m, Pow2(1074), 0, m);
    } else {
      FloorOfScaled(Pow2(52) + m, f - 1075);
      if f < 1023 {
        Pow2Grows(52, 1075 - f);
        DivModUnique(Pow2(52) + m, Pow2(1075 - f), 0, Pow2(52) + m);
      }
    }
  }

  /** A sign, an exponent field and a mantissa laid out as a double are its fields. */
  lemma FieldsOf(sign: nat, field: nat, m: nat)
    requires sign < 2 && field < 2048 && m < Pow2(52)
    ensures var bits := sign * Pow2(63) + field * Pow2(52) + m;
            && 0 <= bits < Pow2(64) && IsDouble(bits)
            && (IsNegative(bits) <==> sign == 1) && ExponentField(bits) == field && Mantissa(bits) == m
  {
    Pow2Values();
    hide Pow2;
    Pow2Add(11, 52);
    Pow2Add(12, 52);
    MulDistributes(sign * 2048, field, Pow2(52));
    MulAssociates(sign, 2048, Pow2(52));
    var top, bits := sign * 2048 + field, sign * Pow2(63) + field * Pow2(52) + m;
    MulNonNegative(top, Pow2(52));
    MulDistributes(4096, top, Pow2(52));
    MulAtLeast(4096 - top, Pow2(52));
    DivModUnique(bits, Pow2(52), top, m);
    DivDiv(bits, Pow2(52), 2048);
    DivModUnique(top, 2048, sign, field);
  }

  /**
   The truncated value of the double with a given sign, exponent field and mantissa: with no
   fraction left from field 1075 on, 0 below field 1023, and 0 for infinities and NaNs.
   */
  lemma TruncatedOf(sign: nat, field: nat, m: nat)
    requires sign < 2 && field < 2048 && m < Pow2(52)
    ensures var bits := sign * Pow2(63) + field * Pow2(52) + m;
            && 0 <= bits < Pow2(64)
            && (field < 1023 || field == 2047 ==> Truncated(bits) == 0)
            && (1023 <= field < 1075 ==> Truncated(bits) == Signed(sign, (Pow2(52) + m) / Pow2(1075 - field)))
            && (1075 <= field < 2047 ==> Truncated(bits) == Signed(sign, (Pow2(52) + m) * Pow2(field - 1075)))
  {
    hide *;
    FieldsOf(sign, field, m);
    TruncatedFromFields(sign * Pow2(63) + field * Pow2(52) + m, sign, field, m);
  }

  function Signed(sign: nat, x: int): int {
    if sign == 0 then x else -x
  }

  lemma TruncatedFromFields(bits: nat, sign: nat, field: nat, m: nat)
    requires sign < 2 && (IsNegative(bits) <==> sign == 1) && ExponentField(bits) == field && Mantissa(bits) == m
    ensures field < 1023 || field == 2047 ==> Truncated(bits) == 0
    ensures 1023 <= field < 1075 ==> Truncated(bits) == Signed(sign, (Pow2(52) + m) / Pow2(1075 - field))
    ensures 1075 <= field && field != 2047 ==> Truncated(bits) == Signed(sign, (Pow2(52) + m) * Pow2(field - 1075))
  {
    hide Pow2, ExponentField, Mantissa, IsNegative, AbsValue;
    FloorIsMagnitude(bits);
  }

  /** The doubles 1, -1.5, 5.5, 2^32 + 5 and minus infinity. */
  lemma KnownDoubles()
    ensures Truncated(1023 * Pow2(52)) == 1
    ensures Truncated(Pow2(63) + 1023 * Pow2(52) + Pow2(51)) == -1
    ensures Truncated(1025 * Pow2(52) + 3 * Pow2(49)) == 5
    ensures Truncated(1055 * Pow2(52) + 5 * Pow2(20)) == 0x1_0000_0005
    ensures Truncated(Pow2(63) + 2047 * Pow2(52)) == 0
  {
    LargePowers();
    Pow2Values();
    hide Pow2, Truncated;
    TruncatedOf(0, 1023, 0);
    TruncatedOf(1, 1023, Pow2(51));
    TruncatedOf(0, 1025, 3 * Pow2(49));
    TruncatedOf(0, 1055, 5 * Pow2(20));
    TruncatedOf(1, 2047, 0);
  }

  lemma LargePowers()
    ensures Pow2(49) == 0x2_0000_0000_0000 && Pow2(50) == 0x4_0000_0000_0000
    ensures Pow2(51) == 0x8_0000_0000_0000 && Pow2(52) == 0x10_0000_0000_0000
  {
    Pow2Values();
    hide Pow2;
    Pow2Add(32, 20);
    Pow2Next(51);
    Pow2Next(50);
    Pow2Next(49);
  }

  lemma Pow2Next(n: nat)
    ensures Pow2(n + 1) == 2 * Pow2(n)
  {
  }

  /** The integer part is the implicit one at bit `e`, plus a part below it. */
  function LowPart(m: nat, e: nat): (low: int) {
    if e >= 52 then m * Pow2(e - 52) else m / Pow2(52 - e)
  }

  lemma MagnitudeSplits(m: nat, e: nat)
    requires m < Pow2(52)
    ensures 0 <= LowPart(m, e) < Pow2(e) && Magnitude(m, e) == Pow2(e) + LowPart(m, e)
  {
    hide Pow2;
    if e >= 52 {
      Pow2Add(52, e - 52);
      MulDistributes(Pow2(52), m, Pow2(e - 52));
      MulNonNegative(m, Pow2(e - 52));
      MulAtLeast(Pow2(52) - m, Pow2(e - 52));
    } else {
      Pow2Add(e, 52 - e);
      AddMultiple(m, Pow2(e), Pow2(52 - e));
      DivBelow(m, Pow2(e), Pow2(52 - e));
    }
  }

  lemma DivBelow(x: nat, a: nat, d: nat)
    requires d > 0 && x < a * d
    ensures 0 <= x / d < a
  {
    var q, r := x / d, x % d;
    DivNonNegative(x, d);
    if q >= a {
      MulDistributes(q, a, d);
      MulNonNegative(q - a, d);
    }
  }

  // ---------------------------------------------------------------------------
  // The generic algorithm
  // ---------------------------------------------------------------------------

  /** The significand bits shifted into place, bogus upper bits and all, cut to the width. */
  function RawBits(bits: nat, e: nat, width: nat): nat {
    (if e > 52 then Shl(bits, e - 52, 64) else Shr(bits, 52 - e)) % Pow2(width)
  }

  lemma FieldsMakeBits(bits: nat)
    ensures bits == TopField(bits) * Pow2(52) + Mantissa(bits)
  {
    hide Pow2;
  }

  lemma RawBitsSplit(bits: nat, e: nat, width: nat)
    requires width <= 64
    ensures RawBits(bits, e, width) == (TopField(bits) * Pow2(e) + LowPart(Mantissa(bits), e)) % Pow2(width)
  {
    hide Pow2, TopField, Mantissa, LowPart;
    var top, m := TopField(bits), Mantissa(bits);
    FieldsMakeBits(bits);
    FieldsShift(top, m, e);
    if e > 52 {
      LowOfLow(bits * Pow2(e - 52), width, 64);
    }
  }

  /** Shifting the fields of a double by `e - 52`. */
  lemma FieldsShift(top: nat, m: nat, e: nat)
    ensures var shifted := top * Pow2(e) + LowPart(m, e);
            if e > 52 then (top * Pow2(52) + m) * Pow2(e - 52) == shifted
            else (top * Pow2(52) + m) / Pow2(52 - e) == shifted
  {
    hide Pow2;
    if e > 52 {
      MulDistributes(top * Pow2(52), m, Pow2(e - 52));
      MulAssociates(top, Pow2(52), Pow2(e - 52));
      Pow2Add(52, e - 52);
    } else {
      var k := 52 - e;
      Pow2Add(e, k);
      MulAssociates(top, Pow2(e), Pow2(k));
      AddMultiple(m, top * Pow2(e), Pow2(k));
      if e == 52 {
        Pow2Zero();
      }
    }
  }

  lemma Pow2Zero()
    ensures Pow2(0) == 1
  {
  }

  /** Below the width, masking the raw bits and adding the implicit one gives the integer part. */
  lemma MaskedIsMagnitude(bits: nat, e: nat, width: nat)
    requires e < width <= 64
    ensures And(RawBits(bits, e, width), Pow2(e) - 1) + Pow2(e) == Magnitude(Mantissa(bits), e) < Pow2(width)
  {
    hide Pow2, LowPart, Magnitude, RawBits, And, TopField, Mantissa;
    var low := LowPart(Mantissa(bits), e);
    MagnitudeSplits(Mantissa(bits), e);
    RawBitsSplit(bits, e, width);
    AndLowMask(RawBits(bits, e, width), e);
    LowOfLow(TopField(bits) * Pow2(e) + low, e, width);
    AddMultiple(low, TopField(bits), Pow2(e));
    DivModUnique(low, Pow2(e), 0, low);
    Pow2Grows(e, width);
  }

  /** From the width up, the raw bits already are the integer part modulo the width. */
  lemma RawIsMagnitude(bits: nat, e: nat, width: nat)
    requires width <= e && width <= 64
    ensures RawBits(bits, e, width) == Magnitude(Mantissa(bits), e) % Pow2(width)
  {
    hide Pow2, LowPart, Magnitude, RawBits, And, TopField, Mantissa;
    var low := LowPart(Mantissa(bits), e);
    MagnitudeSplits(Mantissa(bits), e);
    RawBitsSplit(bits, e, width);
    MultipleDrops(low, TopField(bits), e, width);
    MultipleDrops(low, 1, e, width);
  }

  lemma MultipleDrops(low: int, top: int, e: nat, width: nat)
    requires width <= e
    ensures (top * Pow2(e) + low) % Pow2(width) == low % Pow2(width)
  {
    Pow2Add(e - width, width);
    MulAssociates(top, Pow2(e - width), Pow2(width));
    AddMultiple(low, top * Pow2(e - width), Pow2(width));
  }

  /** Doubles from 2^(52 + width) on have no bit below 2^width. */
  lemma LargeIsZero(m: nat, e: nat, width: nat)
    requires e >= 52 + width
    ensures Magnitude(m, e) % Pow2(width) == 0
  {
    MultipleOfPow2(Pow2(52) + m, width, e - 52);
  }

  lemma NegatedModulo(x: int, d: int)
    requires d > 0
    ensures (d - 1 - x % d + 1) % d == (-x) % d
  {
    AddMultiple(-x, x / d + 1, d);
    MulDistributes(x / d, -1, d);
  }

  /** The meaning of a conversion, from the fields of the double. */
  function UintOfFields(field: nat, negative: bool, m: nat, width: nat): int {
    hide Pow2, Magnitude;
    if field == 2047 || field < 1023 then 0
    else
      var x: int := Magnitude(m, field - 1023);
      (if negative then -x else x) % Pow2(width)
  }

  lemma ToUintFromFields(bits: nat, width: nat)
    ensures ToUint(bits, width) == UintOfFields(ExponentField(bits), IsNegative(bits), Mantissa(bits), width)
  {
    hide Pow2, Magnitude, ExponentField, Mantissa, AbsValue;
    FloorIsMagnitude(bits);
    DivModUnique(0, Pow2(width), 0, 0);
  }

  /** The masks that pick a double's exponent and sign bits. */
  function ExponentBits(): nat {
    Field(11, 52)
  }

  function SignBit(): nat {
    Field(1, 63)
  }

  lemma MasksPickFields(bits: nat)
    ensures Shr(And(bits, ExponentBits()), 52) == ExponentField(bits) < 2048
    ensures And(bits, SignBit()) != 0 <==> IsNegative(bits)
  {
    hide Pow2, And, Field;
    Pow2Values();
    AndField(bits, 52, 11);
    DivModUnique(ExponentField(bits) * Pow2(52), Pow2(52), ExponentField(bits), 0);
    SignMask(bits);
  }

  lemma SignMask(bits: nat)
    ensures And(bits, SignBit()) == Bit(bits, 63) * Pow2(63)
    ensures And(bits, SignBit()) != 0 <==> Bit(bits, 63) == 1
  {
    hide Pow2, And, Field;
    Pow2One();
    AndField(bits, 63, 1);
    if Bit(bits, 63) == 1 {
      MulAtLeast(1, Pow2(63));
    }
  }

  lemma Pow2One()
    ensures Pow2(1) == 2
  {
  }

  /**
   The conversion for every width: whatever the bits, the result is the truncated value
   modulo 2^width.
   */
  method ToUnsignedInteger(bits: nat, width: nat) returns (r: nat)
    requires IsDouble(bits) && 0 < width <= 64
    ensures r == ToUint(bits, width)
  {
    hide Pow2, And, Magnitude, ExponentField, Mantissa, IsNegative, ToUint, Field, ExponentBits, SignBit, Shl, Shr;
    MasksPickFields(bits);
    ToUintFromFields(bits, width);
    var exp := Shr(And(bits, ExponentBits()), EXPONENT_SHIFT) - EXPONENT_BIAS;
    if exp < 0 {
      return 0;
    }
    var exponent: nat := exp;
    if exponent >= EXPONENT_SHIFT + width {
      LargeIsZero(Mantissa(bits), exponent, width);
      ZeroNegated(Magnitude(Mantissa(bits), exponent), Pow2(width));
      return 0;
    }
    var result :=
      if exponent > EXPONENT_SHIFT then Shl(bits, exponent - EXPONENT_SHIFT, 64) % Pow2(width)
      else Shr(bits, EXPONENT_SHIFT - exponent) % Pow2(width);
    assert result == RawBits(bits, exponent, width);
    ghost var magnitude := Magnitude(Mantissa(bits), exponent);
    if exponent < width {
      OneShifted(exponent, width);
      var implicitOne := Shl(1, exponent, width);
      MaskedIsMagnitude(bits, exponent, width);
      result := And(result, implicitOne - 1);
      result := Add(result, implicitOne, width);
    } else {
      RawIsMagnitude(bits, exponent, width);
    }
    assert result == magnitude % Pow2(width);
    NegatedModulo(magnitude, Pow2(width));
    return if And(bits, SignBit()) != 0 then Add(Not(result, width), 1, width) else result;
  }

  lemma ZeroNegated(x: int, d: int)
    requires d > 0 && x % d == 0
    ensures (-x) % d == 0
  {
    MulDistributes(0, x / d, d);
    DivModUnique(-x, d, -(x / d), 0);
  }

  method ToSignedInteger(bits: nat, width: nat) returns (r: int)
    requires IsDouble(bits) && 0 < width <= 64
    ensures r == ToInt(bits, width)
    ensures -(Pow2(width - 1) as int) <= r < Pow2(width - 1) && r % Pow2(width) == Truncated(bits) % Pow2(width)
  {
    SignedIsCongruent(bits, width);
    hide Truncated, Pow2;
    var u := ToUnsignedInteger(bits, width);
    return WrapToSigned(u, width);
  }

  /** A narrower result is the low bits of a wider one. */
  lemma NarrowIsLowBits(bits: nat, narrow: nat, wide: nat)
    requires narrow <= wide
    ensures ToUint(bits, narrow) == ToUint(bits, wide) % Pow2(narrow)
  {
    LowOfLow(Truncated(bits), narrow, wide);
  }

  /**
   When the shifted bits need no correction: always when the exponent is at least the width,
   and below that only if the bits above the significand are congruent to 1 there.
   */
  lemma RawExactIff(bits: nat, e: nat, width: nat)
    requires IsDouble(bits) && width <= 64 && ExponentField(bits) == e + 1023
    ensures RawBits(bits, e, width) == Magnitude(Mantissa(bits), e) % Pow2(width)
       <==> e >= width || (TopField(bits) - 1) % Pow2(width - e) == 0
  {
    hide Pow2, RawBits, Magnitude, Mantissa, TopField, LowPart, ExponentField;
    if e >= width {
      RawIsMagnitude(bits, e, width);
    } else {
      var low, top := LowPart(Mantissa(bits), e), TopField(bits);
      MagnitudeSplits(Mantissa(bits), e);
      RawBitsSplit(bits, e, width);
      MulDistributes(top, 1, Pow2(e));
      CongruentIff(top * Pow2(e) + low, Pow2(e) + low, Pow2(width));
      Pow2Add(width - e, e);
      ScaledMultipleIff(top - 1, Pow2(width - e), Pow2(e));
    }
  }

  lemma CongruentIff(x: int, y: int, d: int)
    requires d > 0
    ensures x % d == y % d <==> (x - y) % d == 0
  {
    Euclid(x, d);
    Euclid(y, d);
    Euclid(x - y, d);
    if x % d == y % d {
      SameRemainder(x / d, y / d, x % d, d);
    }
    if (x - y) % d == 0 {
      AddMultiple(y, (x - y) / d, d);
    }
  }

  lemma Euclid(x: int, d: int)
    requires d > 0
    ensures x == (x / d) * d + x % d
  {
  }

  lemma SameRemainder(a: int, b: int, r: int, d: int)
    requires d > 0
    ensures ((a * d + r) - (b * d + r)) % d == 0
  {
    MulDistributes(a, b, d);
    DivModUnique((a - b) * d, d, a - b, 0);
  }

  lemma ScaledMultipleIff(x: int, d: int, c: int)
    requires d > 0 && c > 0
    ensures d * c > 0 && ((x * c) % (d * c) == 0 <==> x % d == 0)
  {
    MulAtLeast(d, c);
    var q, r := x / d, x % d;
    MulAssociates(q, d, c);
    MulDistributes(q * d, r, c);
    MulNonNegative(r, c);
    MulDistributes(d, r, c);
    MulAtLeast(d - r, c);
    DivModUnique(x * c, d * c, q, r * c);
    if r > 0 {
      MulAtLeast(r, c);
    }
  }

  /** The fields of the double 4.0. */
  lemma FieldsOfFour()
    ensures var bits := 1025 * Pow2(52);
            IsDouble(bits) && TopField(bits) == 1025 && ExponentField(bits) == 1025
  {
    Pow2Values();
    hide Pow2;
    var bits := 1025 * Pow2(52);
    DivModUnique(bits, Pow2(52), 1025, 0);
    Pow2Add(12, 52);
    MulDistributes(4096, 1025, Pow2(52));
    MulAtLeast(4096 - 1025, Pow2(52));
    DivModUnique(1025, Pow2(11), 0, 1025);
  }

  /** The double 4.0 converts to eight bits correctly without the mask, though its exponent is below the width. */
  lemma MaskNotAlwaysNeeded()
    ensures var bits := 1025 * Pow2(52);
            IsDouble(bits) && ExponentField(bits) == 2 + 1023 && RawBits(bits, 2, 8) == Magnitude(Mantissa(bits), 2) % Pow2(8)
  {
    FieldsOfFour();
    Pow2Values();
    hide Pow2, RawBits, Magnitude, TopField, ExponentField, Mantissa, IsDouble;
    RawExactIff(1025 * Pow2(52), 2, 8);
  }
}
