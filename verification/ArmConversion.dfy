/**
 The ARM instruction sequence of `public/Conversions.h` for 32-bit signed results, register
 by register, and its agreement with the generic algorithm.
 */
module ArmConversion {
  import opened Words
  import opened Conversions

  predicate IsWord(x: nat) {
    x < Pow2(32)
  }

  /** Logical shifts by a register use its low byte; shifts of 32 or more give 0. */
  function LslByRegister(x: nat, s: nat): nat {
    if s % 256 >= 32 then 0 else Shl(x, s % 256, 32)
  }

  function LsrByRegister(x: nat, s: nat): nat {
    if s % 256 >= 32 then 0 else Shr(x, s % 256)
  }

  /** Arithmetic shift right by 31: all ones for a word with its top bit set, else 0. */
  function Asr31(x: nat): nat {
    if Bit(x, 31) == 1 then Pow2(32) - 1 else 0
  }

  /** The N flag after an instruction that sets flags. */
  predicate Minus(x: nat) {
    Bit(x, 31) == 1
  }

  /** Only the low byte of the amount counts, and all bits of a word are out from 32 on. */
  lemma ShiftByLowByte(x: nat, s: nat)
    requires IsWord(x)
    ensures LslByRegister(x, s) == LslByRegister(x, s % 256) && LsrByRegister(x, s) == LsrByRegister(x, s % 256)
    ensures s < 32 ==> LslByRegister(x, s) == (x * Pow2(s)) % 0x1_0000_0000 && LsrByRegister(x, s) == x / Pow2(s)
    ensures 32 <= s < 256 ==> LslByRegister(x, s) == LsrByRegister(x, s) == 0
  {
    Pow2Values();
    LowByte(s);
    hide Pow2;
  }

  lemma LowByte(s: nat)
    ensures s % 256 % 256 == s % 256
  {
  }

  // ---------------------------------------------------------------------------
  // Registers
  // ---------------------------------------------------------------------------

  lemma WordShifts(x: nat, s: nat)
    requires IsWord(x) && s < 256
    ensures LslByRegister(x, s) == (x * Pow2(s)) % Pow2(32)
    ensures LsrByRegister(x, s) == x / Pow2(s)
  {
    hide Pow2;
    if s >= 32 {
      MultipleOfPow2(x, 32, s);
      if s > 32 {
        Pow2Grows(32, s);
      }
      DivModUnique(x, Pow2(s), 0, x);
    }
  }

  /** Subtracting small numbers: the result, or its wrapped form with the N flag set. */
  lemma SmallSub(x: nat, y: nat)
    requires x < 4096 && y < 4096
    ensures IsWord(x) && IsWord(y)
    ensures var r := Sub(x, y, 32);
            && IsWord(r)
            && (Minus(r) <==> x < y)
            && (x >= y ==> r == x - y)
            && (x < y ==> r == Pow2(32) - (y - x))
  {
    Pow2Values();
    hide Pow2;
    if x >= y {
      DivModUnique(x - y, Pow2(32), 0, x - y);
      DivModUnique(x - y, Pow2(31), 0, x - y);
    } else {
      DivModUnique(x - y, Pow2(32), -1, Pow2(32) - (y - x));
      DivModUnique(Pow2(32) - (y - x), Pow2(31), 1, Pow2(31) - (y - x));
    }
  }

  /** Wrapping differences add up: `x - 255 - 768` is `x - 1023`. */
  lemma SubTwice(x: nat)
    requires x < 4096
    ensures IsWord(x) && IsWord(255) && IsWord(768) && IsWord(1023)
    ensures IsWord(Sub(x, 255, 32)) && Sub(Sub(x, 255, 32), 768, 32) == Sub(x, 1023, 32)
  {
    Pow2Values();
    hide Pow2;
    ModAdd(x - 255, -768, Pow2(32));
  }

  /** Long shift amounts keep a low byte of 32 or more, short ones are untouched. */
  lemma ShiftAmount(x: nat)
    requires x < 1024
    ensures IsWord(x) && 255 < Pow2(32)
    ensures var s := Or(x, Shr(And(x, Not(255, 32)), 3));
            if x < 256 then s == x else s % 256 >= 32
  {
    hide Pow2, And, Or;
    Pow2Values();
    Pow2Three();
    ClearLow(x, 8, 32);
    var high := (x / 256) * 32;
    assert Shr(And(x, Not(255, 32)), 3) == high;
    if x < 256 {
      OrZero(x);
    } else {
      OrLow(x, high, 8);
      OrAtLeast(x % 256, high % 256);
    }
  }

  lemma Pow2Three()
    ensures Pow2(3) == 8
  {
  }

  // ---------------------------------------------------------------------------
  // The two halves of the significand
  // ---------------------------------------------------------------------------

  /** The significand, from its upper part and its lower word. */
  function Joined(top: nat, low: nat): nat {
    hide Pow2;
    MulNonNegative(top, Pow2(32));
    top * Pow2(32) + low
  }

  /** The upper register holds `top`, the implicit one and the upper 20 bits, shifted left by 11. */
  function UpperPart(top: nat, e: nat): nat {
    if e >= 31 then ((top * Pow2(11)) * Pow2(e - 31)) % Pow2(32) else Shr(top * Pow2(11), 31 - e)
  }

  function LowerPart(low: nat, e: nat): nat {
    if e >= 52 then (low * Pow2(e - 52)) % Pow2(32) else Shr(low, 52 - e)
  }

  /** The upper half, shifted on from its place above bit 20. */
  lemma UpperPartIs(top: nat, e: nat)
    requires top < Pow2(21)
    ensures UpperPart(top, e) == if e >= 20 then Shl(top, e - 20, 32) else Shr(top, 20 - e)
  {
    hide Pow2;
    if e >= 31 {
      MulAssociates(top, Pow2(11), Pow2(e - 31));
      Pow2Add(11, e - 31);
    } else if e >= 20 {
      UpperPartFits(top, e - 20);
    } else {
      Pow2Add(11, 20 - e);
      DivDiv(top * Pow2(11), Pow2(11), Pow2(20 - e));
      DivModUnique(top * Pow2(11), Pow2(11), top, 0);
    }
  }

  lemma UpperPartFits(top: nat, k: nat)
    requires top < Pow2(21) && k < 11
    ensures Shr(top * Pow2(11), 11 - k) == Shl(top, k, 32)
  {
    hide Pow2;
    var x := top * Pow2(k);
    Pow2Add(k, 11 - k);
    MulAssociates(top, Pow2(k), Pow2(11 - k));
    DivModUnique(top * Pow2(11), Pow2(11 - k), x, 0);
    Pow2Add(21, k);
    MulDistributes(Pow2(21), top, Pow2(k));
    MulAtLeast(Pow2(21) - top, Pow2(k));
    Pow2Grows(21 + k, 32);
    DivModUnique(x, Pow2(32), 0, x);
  }

  lemma SignificandHalves(top: nat, low: nat, m: nat, e: nat)
    requires Pow2(20) <= top < Pow2(21) && low < Pow2(32)
    requires Joined(top, low) == Pow2(52) + m
    ensures Or(LowerPart(low, e), UpperPart(top, e)) == Magnitude(m, e) % Pow2(32)
  {
    hide Pow2, UpperPart;
    UpperPartIs(top, e);
    if e >= 52 {
      HighHalves(top, low, e);
    } else if e >= 20 {
      MiddleHalves(top, low, e);
    } else {
      LowHalves(top, low, e);
    }
  }

  lemma HighHalves(top: nat, low: nat, e: nat)
    requires e >= 52
    ensures Shl(top, e - 20, 32) == 0
    ensures Shl(Joined(top, low), e - 52, 32) == LowerPart(low, e)
    ensures Or(LowerPart(low, e), 0) == LowerPart(low, e)
  {
    hide Pow2;
    MultipleOfPow2(top, 32, e - 20);
    MulDistributes(top * Pow2(32), low, Pow2(e - 52));
    MulAssociates(top, Pow2(32), Pow2(e - 52));
    Pow2Add(32, e - 52);
    MultipleDrops(low * Pow2(e - 52), top, e - 20, 32);
  }

  lemma MiddleHalves(top: nat, low: nat, e: nat)
    requires 20 <= e < 52 && low < Pow2(32)
    ensures Or(LowerPart(low, e), Shl(top, e - 20, 32)) == Shr(Joined(top, low), 52 - e) % Pow2(32)
  {
    hide Pow2;
    var k := e - 20;
    var l := LowerPart(low, e);
    Pow2Add(k, 52 - e);
    MulAssociates(top, Pow2(k), Pow2(52 - e));
    AddMultiple(low, top * Pow2(k), Pow2(52 - e));
    DivBelow(low, Pow2(k), Pow2(52 - e));
    assert Shr(Joined(top, low), 52 - e) == top * Pow2(k) + l && l < Pow2(k);
    var u := Shl(top, k, 32);
    LowOfLow(top * Pow2(k), k, 32);
    MultipleOfPow2(top, k, k);
    OrDisjoint(u, l, k);
    ModAdd(top * Pow2(k), l, Pow2(32));
    SumStaysBelow(u, l, k);
    DivModUnique(u + l, Pow2(32), 0, u + l);
  }

  /** A multiple of 2^k below 2^32 leaves room for less than 2^k. */
  lemma SumStaysBelow(u: nat, l: nat, k: nat)
    requires k <= 32 && u < Pow2(32) && u % Pow2(k) == 0 && l < Pow2(k)
    ensures u + l < Pow2(32)
  {
    hide Pow2;
    Pow2Add(32 - k, k);
    var q := u / Pow2(k);
    assert u == q * Pow2(k);
    if q >= Pow2(32 - k) {
      MulDistributes(q, Pow2(32 - k), Pow2(k));
      MulNonNegative(q - Pow2(32 - k), Pow2(k));
    } else {
      MulDistributes(Pow2(32 - k), q, Pow2(k));
      MulAtLeast(Pow2(32 - k) - q, Pow2(k));
    }
  }

  lemma LowHalves(top: nat, low: nat, e: nat)
    requires e < 20 && top < Pow2(21) && low < Pow2(32)
    ensures Or(LowerPart(low, e), Shr(top, 20 - e)) == Shr(Joined(top, low), 52 - e) % Pow2(32)
  {
    hide Pow2;
    Pow2Grows(32, 52 - e);
    DivModUnique(low, Pow2(52 - e), 0, low);
    Pow2Add(32, 20 - e);
    DivDiv(top * Pow2(32) + low, Pow2(32), Pow2(20 - e));
    DivModUnique(top * Pow2(32) + low, Pow2(32), top, low);
    var r := Shr(top, 20 - e);
    Pow2Grows(21, 32);
    QuotientShrinks(top, Pow2(20 - e));
    DivModUnique(r, Pow2(32), 0, r);
  }

  lemma QuotientShrinks(x: nat, d: nat)
    requires d > 0
    ensures x / d <= x
  {
    var q := x / d;
    DivNonNegative(x, d);
    MulDistributes(d, 1, q);
    MulNonNegative(d - 1, q);
  }

  // ---------------------------------------------------------------------------
  // The registers on entry
  // ---------------------------------------------------------------------------

  /** The two words of a double, and what the first instructions make of the upper one. */
  lemma UpperWord(bits: nat)
    requires IsDouble(bits)
    ensures var hi := bits / Pow2(32);
            && 0 <= hi && IsWord(hi)
            && Shr(hi, 20) < 4096 && And(Shr(hi, 20), Not(2048, 32)) == ExponentField(bits) < 2048
            && var r4 := Or(hi, Pow2(20));
               && IsWord(r4)
               && Bit(r4, 31) == Bit(bits, 63) && Shr(r4, 31) == Bit(r4, 31)
               && Shl(r4, 11, 32) == (Pow2(20) + hi % Pow2(20)) * Pow2(11)
  {
    Pow2Values();
    hide Pow2, And, Or;
    var hi := bits / Pow2(32);
    Pow2Add(32, 32);
    DivBelow(bits, Pow2(32), Pow2(32));
    Pow2Add(32, 20);
    DivDiv(bits, Pow2(32), Pow2(20));
    Pow2Add(52, 11);
    DivDiv(bits, Pow2(52), Pow2(11));
    var h, l := hi / 0x10_0000, hi % 0x10_0000;
    assert h < 4096 && ExponentField(bits) == h % 2048 && Bit(bits, 63) == h / 2048;
    ClearBit(h, 11, 32);
    SetBit(hi, 20);
    SetUpperWord(h, l);
  }

  /** The upper word with bit 20 set: its sign, and its lower 21 bits shifted to the top. */
  lemma SetUpperWord(h: nat, l: nat)
    requires h < 4096 && l < 0x10_0000
    ensures var r4 := h * 0x10_0000 + l + (1 - h % 2) * 0x10_0000;
            && IsWord(r4) && Bit(r4, 31) == h / 2048 == Shr(r4, 31)
            && Shl(r4, 11, 32) == (Pow2(20) + l) * Pow2(11)
  {
    Pow2Values();
    hide Pow2;
    var r4 := h * 0x10_0000 + l + (1 - h % 2) * 0x10_0000;
    var s := h / 2;
    assert r4 == s * 0x20_0000 + 0x10_0000 + l;
    DivModUnique(r4, 0x8000_0000, s / 1024, (s % 1024) * 0x20_0000 + 0x10_0000 + l);
    DivModUnique(r4 * 2048, 0x1_0000_0000, s, (0x10_0000 + l) * 2048);
  }

  // ---------------------------------------------------------------------------
  // Steps of the sequence
  // ---------------------------------------------------------------------------

  /** A left shift with its amount adjusted to fit the low byte. */
  lemma LongShift(x: nat, s: nat)
    requires IsWord(x) && s < 1024
    ensures IsWord(s) && 255 < Pow2(32)
    ensures LslByRegister(x, Or(s, Shr(And(s, Not(255, 32)), 3))) == Shl(x, s, 32)
  {
    ShiftAmount(s);
    hide Pow2, And, Or;
    if s < 256 {
      WordShifts(x, s);
    } else {
      MultipleOfPow2(x, 32, s);
    }
  }

  lemma LowerStep(low: nat, e: nat)
    requires IsWord(low) && e <= 1024
    ensures IsWord(e) && IsWord(52) && 255 < Pow2(32)
    ensures var r3 := Sub(e, 52, 32);
            && IsWord(r3)
            && (Minus(r3) ==> LsrByRegister(low, Sub(52, e, 32)) == LowerPart(low, e))
            && (!Minus(r3) ==> LslByRegister(low, Or(r3, Shr(And(r3, Not(255, 32)), 3))) == LowerPart(low, e))
  {
    SmallSub(e, 52);
    SmallSub(52, e);
    Pow2Values();
    hide Pow2, And, Or, Sub, Minus;
    if e < 52 {
      WordShifts(low, 52 - e);
    } else {
      LongShift(low, e - 52);
    }
  }

  lemma UpperStep(top: nat, x: nat, e: nat)
    requires IsWord(x) && x == top * Pow2(11) && e <= 1024
    ensures IsWord(e) && IsWord(31) && IsWord(0) && 255 < Pow2(32)
    ensures var r3 := Sub(e, 31, 32);
            && IsWord(r3)
            && (Minus(r3) ==> LsrByRegister(x, Sub(0, r3, 32)) == UpperPart(top, e))
            && (!Minus(r3) ==> LslByRegister(x, Or(r3, Shr(And(r3, Not(255, 32)), 3))) == UpperPart(top, e))
  {
    SmallSub(e, 31);
    Pow2Values();
    if e < 31 {
      NegatedSub(31 - e);
    }
    hide Pow2, And, Or, Sub, Minus;
    if e < 31 {
      WordShifts(x, 31 - e);
    } else {
      LongShift(x, e - 31);
    }
  }

  lemma NegatedSub(k: nat)
    requires 0 < k < 4096
    ensures Pow2(32) > 4096 && Sub(0, Pow2(32) - k, 32) == k
  {
    Pow2Values();
    hide Pow2;
    DivModUnique(k - Pow2(32), Pow2(32), -1, k);
  }

  lemma NegatedWord(q: int, d: int)
    requires 0 <= q < d
    ensures (d - 1 - q + 1) % d == (-q) % d
  {
    DivModUnique(q, d, 0, q);
    NegatedModulo(q, d);
  }

  /** Inverting by the sign and adding the sign negates. */
  lemma NegateStep(q: nat, r4: nat)
    requires IsWord(q) && IsWord(r4) && Shr(r4, 31) == Bit(r4, 31)
    ensures var x: int := q;
            Add(Xor(q, Asr31(r4)), Shr(r4, 31), 32) == (if Bit(r4, 31) == 1 then -x else x) % Pow2(32)
  {
    hide Pow2, Xor, Bit, Shr;
    BitIsBinary(r4);
    XorOnes(q, 32);
    XorZero(q);
    NegatedWord(q, Pow2(32));
    DivModUnique(q, Pow2(32), 0, q);
  }

  lemma BitIsBinary(x: nat)
    ensures Bit(x, 31) == 0 || Bit(x, 31) == 1
  {
    hide Pow2;
  }

  function LowWord(bits: nat): nat {
    hide Pow2;
    bits % Pow2(32)
  }

  function HighWord(bits: nat): nat {
    Shr(bits, 32)
  }

  /** The implicit one and the upper 20 bits of the mantissa. */
  function TopPart(bits: nat): nat {
    hide Pow2;
    Pow2(20) + HighWord(bits) % Pow2(20)
  }

  /** The exponent, as the first instructions leave it. */
  lemma ExponentSteps(bits: nat)
    requires IsDouble(bits)
    ensures 2048 < Pow2(32) && IsWord(255) && IsWord(768)
    ensures var x := And(Shr(HighWord(bits), 20), Not(2048, 32));
            && IsWord(x) && IsWord(Sub(x, 255, 32))
            && (var r1 := Sub(Sub(x, 255, 32), 768, 32);
                && (Minus(r1) <==> ExponentField(bits) < 1023)
                && (ExponentField(bits) >= 1023 ==> r1 == ExponentField(bits) - 1023 <= 1024))
  {
    UpperWord(bits);
    SmallSub(ExponentField(bits), 1023);
    SubTwice(ExponentField(bits));
    Pow2Values();
    hide Pow2, And, Or, Sub, Minus, Bit;
  }

  /** The two halves of the significand, and the sign. */
  lemma WordSteps(bits: nat)
    requires IsDouble(bits)
    ensures var r4 := Or(HighWord(bits), Pow2(20));
            && IsWord(LowWord(bits)) && IsWord(r4)
            && Bit(r4, 31) == Bit(bits, 63) && Shr(r4, 31) == Bit(r4, 31)
            && Shl(r4, 11, 32) == TopPart(bits) * Pow2(11) && IsWord(Shl(r4, 11, 32))
    ensures Pow2(20) <= TopPart(bits) < Pow2(21) && Joined(TopPart(bits), LowWord(bits)) == Pow2(52) + Mantissa(bits)
  {
    UpperWord(bits);
    JoinedIsSignificand(bits);
    hide And, Or, Bit, TopPart, Mantissa, Joined;
    TopPartIs(bits);
  }

  lemma TopPartIs(bits: nat)
    ensures TopPart(bits) == Pow2(20) + (bits / Pow2(32)) % Pow2(20) && HighWord(bits) == bits / Pow2(32)
  {
    hide Pow2;
  }

  lemma JoinedIsSignificand(bits: nat)
    ensures Pow2(20) <= TopPart(bits) < Pow2(21)
    ensures Joined(TopPart(bits), LowWord(bits)) == Pow2(52) + Mantissa(bits)
  {
    Pow2Values();
    Pow2Add(1, 20);
    Pow2Add(20, 32);
    MantissaHalves(bits);
    hide Pow2, Mantissa;
    MulDistributes(Pow2(20), HighWord(bits) % Pow2(20), Pow2(32));
  }

  lemma MantissaHalves(bits: nat)
    ensures Mantissa(bits) == (HighWord(bits) % Pow2(20)) * Pow2(32) + LowWord(bits)
  {
    hide Pow2;
    var hi, low := HighWord(bits), LowWord(bits);
    Pow2Add(20, 32);
    Recompose(hi / Pow2(20), hi % Pow2(20), low, Pow2(32), Pow2(20));
    DivModUnique(bits, Pow2(52), hi / Pow2(20), (hi % Pow2(20)) * Pow2(32) + low);
  }

  /** Below exponent 0 the result is 0. */
  lemma SmallIsZero(bits: nat)
    requires ExponentField(bits) < 1023
    ensures ToInt(bits, 32) == 0
  {
    ToUintFromFields(bits, 32);
    hide Pow2, ExponentField, ToUint;
  }

  /** The last two instructions turn the integer part modulo 2^32 into the result. */
  lemma LastSteps(bits: nat, q: nat, r4: nat)
    requires ExponentField(bits) >= 1023 && IsWord(q) && IsWord(r4)
    requires q == Magnitude(Mantissa(bits), ExponentField(bits) - 1023) % Pow2(32)
    requires Bit(r4, 31) == Bit(bits, 63) && Shr(r4, 31) == Bit(r4, 31)
    ensures WrapToSigned(Add(Xor(q, Asr31(r4)), Shr(r4, 31), 32), 32) == ToInt(bits, 32)
  {
    hide Pow2, ExponentField, Mantissa, ToUint, Magnitude, Xor, Asr31, Shr, Bit;
    ToUintFromFields(bits, 32);
    NegateStep(q, r4);
    var magnitude := Magnitude(Mantissa(bits), ExponentField(bits) - 1023);
    NegatedTwice(magnitude, Pow2(32));
    if ExponentField(bits) == 2047 {
      InfinityIsZero(Mantissa(bits));
      ZeroNegated(magnitude, Pow2(32));
    }
    DivModUnique(q, Pow2(32), 0, q);
  }

  lemma NegatedTwice(x: int, d: int)
    requires d > 0
    ensures (-(x % d)) % d == (-x) % d
  {
    AddMultiple(-x, x / d, d);
  }

  /** The exponent of an infinity or NaN shifts every bit of the significand out. */
  lemma InfinityIsZero(m: nat)
    ensures Magnitude(m, 1024) % Pow2(32) == 0
  {
    hide Pow2, Magnitude;
    LargeIsZero(m, 1024, 32);
  }

  // ---------------------------------------------------------------------------
  // The instruction sequence
  // ---------------------------------------------------------------------------

  /** The instructions from `subs %3, %1, #52` on: the lower mantissa, shifted by e - 52. */
  method LowerMantissa(low: nat, r1: nat) returns (q4: nat)
    requires IsWord(low) && r1 <= 1024
    ensures q4 == LowerPart(low, r1)
  {
    LowerStep(low, r1);
    hide Pow2, And, Or, Sub, Shr, LowerPart, LslByRegister, LsrByRegister, Minus;
    q4 := low;
    var r3 := Sub(r1, 52, 32);
    if !Minus(r3) {
      var r2 := And(r3, Not(0xff, 32));
      r3 := Or(r3, Shr(r2, 3));
      q4 := LslByRegister(q4, r3);
    } else {
      r3 := Sub(52, r1, 32);
      q4 := LsrByRegister(q4, r3);
    }
  }

  /** The instructions from `subs %3, %1, #31` on: `r1` is reused between setting the flags and testing them. */
  method UpperMantissa(r4: nat, exponent: nat, ghost top: nat) returns (r2: nat)
    requires IsWord(Shl(r4, 11, 32)) && Shl(r4, 11, 32) == top * Pow2(11) && exponent <= 1024
    ensures r2 == UpperPart(top, exponent)
  {
    UpperStep(top, Shl(r4, 11, 32), exponent);
    hide Pow2, And, Or, Sub, Shl, Shr, UpperPart, LslByRegister, LsrByRegister, Minus;
    var r3 := Sub(exponent, 31, 32);
    var minus := Minus(r3);
    var r1 := Shl(r4, 11, 32);
    if !minus {
      r2 := And(r3, Not(0xff, 32));
      r3 := Or(r3, Shr(r2, 3));
      r2 := LslByRegister(r1, r3);
    } else {
      r3 := Sub(0, r3, 32);
      r2 := LsrByRegister(r1, r3);
    }
  }

  lemma ToIntIs(bits: nat)
    ensures -0x8000_0000 <= ToInt(bits, 32) < 0x8000_0000
    ensures ToInt(bits, 32) % 0x1_0000_0000 == Truncated(bits) % 0x1_0000_0000
  {
    Pow2Values();
    hide Pow2, Truncated, ToInt;
    SignedIsCongruent(bits, 32);
  }

  /**
   The sequence, one statement per instruction. `q4` and `r4` hold the double's lower and
   upper word; `r1`, `r2`, `r3` are the temporaries `%1`, `%2`, `%3`.
   */
  method ToSignedInt32Arm(bits: nat) returns (i: int)
    requires IsDouble(bits)
    ensures i == ToInt(bits, 32)
    ensures -0x8000_0000 <= i < 0x8000_0000 && i % 0x1_0000_0000 == Truncated(bits) % 0x1_0000_0000
  {
    ToIntIs(bits);
    ExponentSteps(bits);
    WordSteps(bits);
    hide Pow2, And, Or, Xor, Sub, Shl, Shr, Bit, Asr31, Magnitude, ToInt, ExponentField, Mantissa, Minus, LowerPart, UpperPart,
      HighWord, LowWord, TopPart, WrapToSigned, Joined, Add, Truncated;
    var q4, r4 := LowWord(bits), HighWord(bits);
    var r1 := Shr(r4, 20);
    r1 := And(r1, Not(2048, 32));
    r4 := Or(r4, Pow2(20));
    r1 := Sub(r1, 0xff, 32);
    r1 := Sub(r1, 0x300, 32);
    if Minus(r1) {
      SmallIsZero(bits);
      return 0;
    }
    q4 := LowerMantissa(q4, r1);
    var r2 := UpperMantissa(r4, r1, TopPart(bits));
    q4 := Or(q4, r2);
    SignificandHalves(TopPart(bits), LowWord(bits), Mantissa(bits), r1);
    LastSteps(bits, q4, r4);
    q4 := Xor(q4, Asr31(r4));
    i := WrapToSigned(Add(q4, Shr(r4, 31), 32), 32);
  }
}
