/**
 Unsigned machine words as natural numbers. Shifts and complement are the arithmetic the
 C++ standard defines them by; and, or, exclusive-or are defined bit by bit.
 */
module Words {

  function Pow2(n: nat): (r: nat)
    ensures r > 0
  {
    if n == 0 then 1 else 2 * Pow2(n - 1)
  }

  function Shl(x: nat, k: nat, w: nat): nat {
    (x * Pow2(k)) % Pow2(w)
  }

  function Shr(x: nat, k: nat): nat {
    DivNonNegative(x, Pow2(k));
    x / Pow2(k)
  }

  lemma DivNonNegative(x: int, d: int)
    requires x >= 0 && d > 0
    ensures x / d >= 0
  {
  }

  function Not(x: nat, w: nat): nat
    requires x < Pow2(w)
  {
    Pow2(w) - 1 - x
  }

  function Add(x: nat, y: nat, w: nat): nat {
    (x + y) % Pow2(w)
  }

  function Sub(x: nat, y: nat, w: nat): nat
    requires x < Pow2(w) && y < Pow2(w)
  {
    (x - y) % Pow2(w)
  }

  function And(x: nat, y: nat): nat {
    if x == 0 || y == 0 then 0 else 2 * And(x / 2, y / 2) + (if x % 2 == 1 && y % 2 == 1 then 1 else 0)
  }

  function Or(x: nat, y: nat): nat {
    if x == 0 then y else if y == 0 then x
    else 2 * Or(x / 2, y / 2) + (if x % 2 == 1 || y % 2 == 1 then 1 else 0)
  }

  function Xor(x: nat, y: nat): nat {
    if x == 0 then y else if y == 0 then x
    else 2 * Xor(x / 2, y / 2) + (x + y) % 2
  }

  function Bit(x: nat, k: nat): nat {
    (x / Pow2(k)) % 2
  }

  // ---------------------------------------------------------------------------
  // Division and powers of two
  // ---------------------------------------------------------------------------

  lemma MulDistributes(a: int, b: int, d: int)
    ensures (a + b) * d == a * d + b * d && (a - b) * d == a * d - b * d
  {
  }

  lemma MulAssociates(a: int, b: int, c: int)
    ensures a * b * c == a * (b * c)
  {
  }

  lemma MulAtLeast(a: int, d: int)
    requires a > 0 && d > 0
    ensures a * d >= d
  {
  }

  /** A quotient and remainder are determined by the equation between them. */
  lemma SplitUnique(d: int, q: int, r: int, q': int, r': int)
    requires d > 0 && q * d + r == q' * d + r' && 0 <= r < d && 0 <= r' < d
    ensures q == q' && r == r'
  {
    if q < q' {
      MulDistributes(q', q, d);
      MulAtLeast(q' - q, d);
    } else if q > q' {
      MulDistributes(q, q', d);
      MulAtLeast(q - q', d);
    }
  }

  lemma DivModUnique(x: int, d: int, q: int, r: int)
    requires d > 0 && x == q * d + r && 0 <= r < d
    ensures x / d == q && x % d == r
  {
    SplitUnique(d, q, r, x / d, x % d);
  }

  lemma {:induction false} Pow2Add(a: nat, b: nat)
    ensures Pow2(a + b) == Pow2(a) * Pow2(b)
    decreases a
  {
    if a > 0 {
      Pow2Add(a - 1, b);
      assert Pow2(a) * Pow2(b) == 2 * (Pow2(a - 1) * Pow2(b));
    }
  }

  lemma {:induction false} Pow2Grows(a: nat, b: nat)
    requires a < b
    ensures 2 * Pow2(a) <= Pow2(b)
    decreases b
  {
    if a < b - 1 {
      Pow2Grows(a, b - 1);
    }
  }

  lemma OneShifted(k: nat, width: nat)
    requires k < width
    ensures Shl(1, k, width) == Pow2(k)
  {
    Pow2Grows(k, width);
    DivModUnique(Pow2(k), Pow2(width), 0, Pow2(k));
  }

  lemma Recompose(q: int, r: int, r': int, a: int, b: int)
    requires 0 <= r < b && 0 <= r' < a
    ensures (q * b + r) * a + r' == q * (b * a) + (r * a + r')
    ensures 0 <= r * a + r' < b * a
  {
    MulDistributes(q * b, r, a);
    MulAssociates(q, b, a);
    MulNonNegative(r, a);
    MulDistributes(b, r, a);
    MulAtLeast(b - r, a);
  }

  lemma DivDiv(x: nat, a: nat, b: nat)
    requires a > 0 && b > 0
    ensures a * b > 0 && x / (a * b) == x / a / b
  {
    var q, r := x / a, x % a;
    var q', r' := q / b, q % b;
    Recompose(q', r', r, a, b);
    MulAtLeast(b, a);
    DivModUnique(x, b * a, q', r' * a + r);
  }

  lemma MulNonNegative(a: int, b: int)
    requires a >= 0 && b >= 0
    ensures a * b >= 0
  {
  }

  lemma ModMod(x: int, a: nat, b: nat)
    requires a > 0 && b > 0
    ensures a * b > 0 && (x % (a * b)) % a == x % a
  {
    MulAtLeast(b, a);
    var m := b * a;
    var q, r := x / m, x % m;
    var q', r' := r / a, r % a;
    calc {
      q * m + (q' * a + r');
      { MulAssociates(q, b, a); MulDistributes(q * b, q', a); }
      (q * b + q') * a + r';
    }
    DivModUnique(x, a, q * b + q', r');
  }

  /** The low `a` bits of the low `b` bits are the low `a` bits. */
  lemma LowOfLow(x: int, a: nat, b: nat)
    requires a <= b
    ensures (x % Pow2(b)) % Pow2(a) == x % Pow2(a)
  {
    Pow2Add(a, b - a);
    ModMod(x, Pow2(a), Pow2(b - a));
  }

  lemma MultipleOfPow2(x: int, a: nat, b: nat)
    requires a <= b
    ensures (x * Pow2(b)) % Pow2(a) == 0
  {
    Pow2Add(b - a, a);
    MulAssociates(x, Pow2(b - a), Pow2(a));
    DivModUnique(x * Pow2(b), Pow2(a), x * Pow2(b - a), 0);
  }

  lemma AddMultiple(x: int, q: int, d: int)
    requires d > 0
    ensures (x + q * d) % d == x % d
    ensures (x + q * d) / d == x / d + q
  {
    MulDistributes(x / d, q, d);
    DivModUnique(x + q * d, d, x / d + q, x % d);
  }

  /** Numbers congruent modulo `d` stay so when the same number is added. */
  lemma ModAdd(x: int, y: int, d: int)
    requires d > 0
    ensures (x % d + y) % d == (x + y) % d
  {
    AddMultiple(x % d + y, x / d, d);
  }

  lemma ModHalf(x: nat, p: nat)
    requires p > 0
    ensures x % (2 * p) == 2 * ((x / 2) % p) + x % 2
  {
    var h := x / 2;
    var q, r := h / p, h % p;
    assert q * (2 * p) == 2 * (q * p);
    DivModUnique(x, 2 * p, q, 2 * r + x % 2);
  }

  lemma DivHalf(x: nat, k: nat)
    requires k > 0
    ensures x / Pow2(k) == x / 2 / Pow2(k - 1)
  {
    DivDiv(x, 2, Pow2(k - 1));
  }

  // ---------------------------------------------------------------------------
  // Bit operations on aligned fields
  // ---------------------------------------------------------------------------

  lemma AndEven(x: nat, m: nat)
    ensures And(x, 2 * m) == 2 * And(x / 2, m)
  {
    assert (2 * m) / 2 == m && (2 * m) % 2 == 0;
  }

  lemma AndOdd(x: nat, m: nat)
    ensures And(x, 2 * m + 1) == 2 * And(x / 2, m) + x % 2
  {
    assert (2 * m + 1) / 2 == m && (2 * m + 1) % 2 == 1;
  }

  /** Masking with `2^n - 1` keeps the low `n` bits. */
  lemma {:induction false} AndLowMask(x: nat, n: nat)
    ensures And(x, Pow2(n) - 1) == x % Pow2(n)
    decreases n
  {
    if n > 0 {
      AndLowMask(x / 2, n - 1);
      ModHalf(x, Pow2(n - 1));
      assert Pow2(n) - 1 == 2 * (Pow2(n - 1) - 1) + 1;
      AndOdd(x, Pow2(n - 1) - 1);
    }
  }

  /** `n` ones shifted left by `k`. */
  function Field(n: nat, k: nat): nat {
    MulNonNegative(Pow2(n) - 1, Pow2(k));
    (Pow2(n) - 1) * Pow2(k)
  }

  /** Masking with a field keeps that field in place. */
  lemma {:induction false} AndField(x: nat, k: nat, n: nat)
    ensures And(x, Field(n, k)) == ((x / Pow2(k)) % Pow2(n)) * Pow2(k)
    decreases k
  {
    if k == 0 {
      AndLowMask(x, n);
    } else {
      AndField(x / 2, k - 1, n);
      DivHalf(x, k);
      DoubleLeft(Pow2(n) - 1, Pow2(k - 1));
      AndEven(x, Field(n, k - 1));
      DoubleLeft((x / Pow2(k)) % Pow2(n), Pow2(k - 1));
    }
  }

  lemma DoubleLeft(a: int, p: int)
    ensures a * (2 * p) == 2 * (a * p)
  {
  }

  /** Clearing bit `k`. */
  lemma {:induction false} ClearBit(x: nat, k: nat, w: nat)
    requires k < w && x < Pow2(w) && Pow2(k) < Pow2(w)
    ensures And(x, Not(Pow2(k), w)) == x - Bit(x, k) * Pow2(k)
    decreases k
  {
    hide And;
    if k == 0 {
      assert Not(Pow2(0), w) == 2 * (Pow2(w - 1) - 1);
      AndEven(x, Pow2(w - 1) - 1);
      AndLowMask(x / 2, w - 1);
      DivModUnique(x / 2, Pow2(w - 1), 0, x / 2);
    } else {
      Pow2Grows(k - 1, w - 1);
      var m := Not(Pow2(k - 1), w - 1);
      assert Not(Pow2(k), w) == 2 * m + 1;
      AndOdd(x, m);
      ClearBit(x / 2, k - 1, w - 1);
      DivHalf(x, k);
      DoubleLeft(Bit(x, k), Pow2(k - 1));
    }
  }

  /** Clearing the low `k` bits. */
  lemma {:induction false} ClearLow(x: nat, k: nat, w: nat)
    requires k <= w && x < Pow2(w) && Pow2(k) - 1 < Pow2(w)
    ensures And(x, Not(Pow2(k) - 1, w)) == x - x % Pow2(k)
    decreases k
  {
    var m := Not(Pow2(k) - 1, w);
    if k == 0 {
      AndLowMask(x, w);
      DivModUnique(x, Pow2(w), 0, x);
    } else {
      assert m == 2 * Not(Pow2(k - 1) - 1, w - 1);
      AndEven(x, Not(Pow2(k - 1) - 1, w - 1));
      assert Pow2(k - 1) <= Pow2(w - 1);
      ClearLow(x / 2, k - 1, w - 1);
      ModHalf(x, Pow2(k - 1));
    }
  }

  /** Or of words with no bit in common is their sum. */
  lemma {:induction false} OrDisjoint(x: nat, y: nat, k: nat)
    requires x % Pow2(k) == 0 && y < Pow2(k)
    ensures Or(x, y) == x + y && Or(y, x) == x + y
    decreases k
  {
    if x != 0 && y != 0 {
      ModHalf(x, Pow2(k - 1));
      OrDisjoint(x / 2, y / 2, k - 1);
    }
  }

  /** Setting bit `k`. */
  lemma {:induction false} SetBit(x: nat, k: nat)
    ensures Or(x, Pow2(k)) == x + (1 - Bit(x, k)) * Pow2(k)
    decreases k
  {
    if x != 0 {
      if k == 0 {
        OrOne(x);
      } else {
        SetBit(x / 2, k - 1);
        DivHalf(x, k);
        DoubleLeft(1 - Bit(x, k), Pow2(k - 1));
      }
    } else {
      DivModUnique(0, Pow2(k), 0, 0);
    }
  }

  lemma OrOne(x: nat)
    ensures Or(x, 1) == x + (1 - x % 2)
  {
    if x != 0 {
      assert Or(x / 2, 0) == x / 2;
    }
  }

  /** Or never loses a bit. */
  lemma {:induction false} OrAtLeast(x: nat, y: nat)
    ensures Or(x, y) >= x && Or(x, y) >= y
  {
    if x != 0 && y != 0 {
      OrAtLeast(x / 2, y / 2);
    }
  }

  /** Or works on the low bits alone. */
  lemma {:induction false} OrLow(x: nat, y: nat, k: nat)
    ensures Or(x, y) % Pow2(k) == Or(x % Pow2(k), y % Pow2(k))
    decreases k
  {
    if k == 0 {
      assert Or(0, 0) == 0;
    } else {
      hide Or;
      ModHalf(x, Pow2(k - 1));
      ModHalf(y, Pow2(k - 1));
      ModHalf(Or(x, y), Pow2(k - 1));
      OrLow(x / 2, y / 2, k - 1);
      OrHalves(x, y);
      OrHalves(x % Pow2(k), y % Pow2(k));
    }
  }

  lemma OrHalves(x: nat, y: nat)
    ensures Or(x, y) / 2 == Or(x / 2, y / 2)
    ensures Or(x, y) % 2 == if x % 2 == 1 || y % 2 == 1 then 1 else 0
  {
  }

  /** Exclusive-or with all ones is complement. */
  lemma {:induction false} XorOnes(x: nat, w: nat)
    requires x < Pow2(w)
    ensures Xor(x, Pow2(w) - 1) == Not(x, w)
    decreases w
  {
    if w > 0 {
      var p := Pow2(w - 1);
      assert Pow2(w) == 2 * p;
      XorOnes(x / 2, w - 1);
      hide Pow2, Xor;
      XorOdd(x, p);
    }
  }

  lemma XorHalves(x: nat, y: nat)
    ensures Xor(x, y) / 2 == Xor(x / 2, y / 2)
    ensures Xor(x, y) % 2 == (x + y) % 2
  {
  }

  lemma XorOdd(x: nat, p: nat)
    requires p > 0 && x < 2 * p && Xor(x / 2, p - 1) == p - 1 - x / 2
    ensures Xor(x, 2 * p - 1) == 2 * p - 1 - x
  {
    hide Xor;
    XorHalves(x, 2 * p - 1);
    Halves(x / 2, x % 2, p);
  }

  lemma Halves(a: int, b: int, p: int)
    requires 0 <= b < 2
    ensures (2 * p - 1) / 2 == p - 1 && (2 * a + b + (2 * p - 1)) % 2 == 1 - b
  {
    DivModUnique(2 * p - 1, 2, p - 1, 1);
    DivModUnique(2 * a + b + (2 * p - 1), 2, a + p - 1 + b, 1 - b);
  }

  /** Or of small words is small. */
  lemma {:induction false} OrBelow(a: nat, b: nat, k: nat)
    requires a < Pow2(k) && b < Pow2(k)
    ensures Or(a, b) < Pow2(k)
    decreases k
  {
    if k > 0 {
      OrBelow(a / 2, b / 2, k - 1);
    }
  }

  lemma AndHalves(x: nat, y: nat)
    ensures And(x, y) / 2 == And(x / 2, y / 2)
    ensures And(x, y) % 2 == if x % 2 == 1 && y % 2 == 1 then 1 else 0
  {
  }

  lemma BitHalf(x: nat, k: nat)
    requires k > 0
    ensures Bit(x, k) == Bit(x / 2, k - 1)
  {
    DivHalf(x, k);
  }

  /** Testing bit `k` with a one-bit mask. */
  lemma TestBit(x: nat, k: nat)
    ensures And(x, Pow2(k)) != 0 <==> Bit(x, k) == 1
  {
    assert Pow2(1) == 2;
    hide Pow2, And;
    AndField(x, k, 1);
    if Bit(x, k) == 1 {
      MulAtLeast(1, Pow2(k));
    }
  }

  /** The operations work on each bit alone. */
  lemma {:induction false} EachBit(x: nat, y: nat, k: nat)
    ensures Bit(And(x, y), k) == if Bit(x, k) == 1 && Bit(y, k) == 1 then 1 else 0
    ensures Bit(Or(x, y), k) == if Bit(x, k) == 1 || Bit(y, k) == 1 then 1 else 0
    ensures Bit(Xor(x, y), k) == if Bit(x, k) != Bit(y, k) then 1 else 0
    decreases k
  {
    hide And, Or, Xor, Bit, Pow2;
    var and, or, xor := And(x, y), Or(x, y), Xor(x, y);
    AndHalves(x, y);
    OrHalves(x, y);
    XorHalves(x, y);
    if k == 0 {
      BitZero(x);
      BitZero(y);
      BitZero(and);
      BitZero(or);
      BitZero(xor);
    } else {
      EachBit(x / 2, y / 2, k - 1);
      BitHalf(x, k);
      BitHalf(y, k);
      BitHalf(and, k);
      BitHalf(or, k);
      BitHalf(xor, k);
    }
  }

  /** Setting bit `k` changes no other bit. */
  lemma {:induction false} BitAfterSet(x: nat, k: nat, j: nat)
    ensures Bit(Or(x, Pow2(k)), j) == if j == k then 1 else Bit(x, j)
    decreases k
  {
    hide Or, Bit;
    var y := Or(x, Pow2(k));
    OrHalves(x, Pow2(k));
    BitZero(x);
    BitZero(y);
    if j > 0 {
      BitHalf(x, j);
      BitHalf(y, j);
      if k == 0 {
        OrZero(x / 2);
      } else {
        BitAfterSet(x / 2, k - 1, j - 1);
      }
    }
  }

  lemma BitZero(x: nat)
    ensures Bit(x, 0) == x % 2
  {
  }

  lemma OrZero(x: nat)
    ensures Or(x, 0) == x
  {
  }

  /** Clearing bit `k` changes no other bit. */
  lemma {:induction false} BitAfterClear(x: nat, k: nat, j: nat, w: nat)
    requires k < w && x < Pow2(w) && Pow2(k) < Pow2(w)
    ensures Bit(And(x, Not(Pow2(k), w)), j) == if j == k then 0 else Bit(x, j)
    decreases k
  {
    hide And, Bit;
    var m := Not(Pow2(k), w);
    var y := And(x, m);
    AndHalves(x, m);
    BitZero(x);
    BitZero(y);
    if k > 0 {
      Pow2Grows(k - 1, w - 1);
      assert m / 2 == Not(Pow2(k - 1), w - 1) && m % 2 == 1;
    }
    if j > 0 {
      BitHalf(x, j);
      BitHalf(y, j);
      if k == 0 {
        AndLowMask(x / 2, w - 1);
        DivModUnique(x / 2, Pow2(w - 1), 0, x / 2);
      } else {
        BitAfterClear(x / 2, k - 1, j - 1, w - 1);
      }
    }
  }

  /** Powers of two are distinct. */
  lemma Pow2Injective(a: nat, b: nat)
    requires Pow2(a) == Pow2(b)
    ensures a == b
  {
    if a < b {
      Pow2Grows(a, b);
    } else if b < a {
      Pow2Grows(b, a);
    }
  }

  lemma XorZero(x: nat)
    ensures Xor(x, 0) == x
  {
  }

  lemma Pow2Values()
    ensures Pow2(6) == 64 && Pow2(8) == 256 && Pow2(11) == 2048 && Pow2(12) == 4096
    ensures Pow2(20) == 0x10_0000 && Pow2(31) == 0x8000_0000 && Pow2(32) == 0x1_0000_0000
  {
    assert Pow2(4) == 16;
    Pow2Add(4, 2);
    Pow2Add(4, 4);
    Pow2Add(8, 3);
    Pow2Add(8, 4);
    Pow2Add(12, 8);
    Pow2Add(20, 11);
  }
}
