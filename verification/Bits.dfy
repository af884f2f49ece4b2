/** Bitwise operations on natural numbers, bit by bit, and what they mean as arithmetic (cstdlib/bits.h). */
module Bits {
  import opened Arithmetic

  function Pow2(n: nat): (r: nat)
    ensures r > 0
  {
    if n == 0 then 1 else 2 * Pow2(n - 1)
  }

  function And(a: nat, b: nat): nat {
    if a == 0 || b == 0 then 0
    else 2 * And(a / 2, b / 2) + (if a % 2 == 1 && b % 2 == 1 then 1 else 0)
  }

  function Or(a: nat, b: nat): nat
    decreases a + b
  {
    if a == 0 then b else if b == 0 then a
    else 2 * Or(a / 2, b / 2) + (if a % 2 == 1 || b % 2 == 1 then 1 else 0)
  }

  /** Left and right shifts. */
  function Shl(m: nat, k: nat): nat
    decreases k
  {
    if k == 0 then m else 2 * Shl(m, k - 1)
  }

  function Shr(x: nat, k: nat): nat
    decreases k
  {
    if k == 0 then x else Shr(x / 2, k - 1)
  }

  /** GET_BITS: bits [from, to) of `x`, as a shift and a mask. */
  function GetBits(x: nat, from: nat, to: nat): nat
    requires from <= to
  {
    And(Shr(x, from), Pow2(to - from) - 1)
  }

  /** Shifts are multiplication and division by powers of two. */
  lemma {:induction false} ShlIs(m: nat, k: nat)
    ensures Shl(m, k) == Pow2(k) * m
    decreases k
  {
    if k > 0 {
      ShlIs(m, k - 1);
      assert Pow2(k) * m == 2 * (Pow2(k - 1) * m);
    }
  }

  lemma {:induction false} ShrIs(x: nat, k: nat)
    ensures Shr(x, k) == x / Pow2(k)
    decreases k
  {
    if k > 0 {
      ShrIs(x / 2, k - 1);
      HalveMod(x, Pow2(k - 1));
    }
  }

  /** A value whose low k bits are clear, OR-ed with one below 2^k, is their sum. */
  lemma {:induction false} OrIsSum(q: nat, b: nat, k: nat)
    requires b < Pow2(k)
    ensures Or(Shl(q, k), b) == Shl(q, k) + b
    decreases k
  {
    if k > 0 {
      OrIsSum(q, b / 2, k - 1);
    }
  }

  /** OR works bit by bit, for zero operands too. */
  lemma OrHalf(x: nat, y: nat)
    ensures Or(x, y) == 2 * Or(x / 2, y / 2) + if x % 2 == 1 || y % 2 == 1 then 1 else 0
  {
    assert Or(0, y / 2) == y / 2 && Or(x / 2, 0) == x / 2;
  }

  /** OR-ing a value whose low k bits are clear leaves the low k bits alone. */
  lemma {:induction false} OrShl(a: nat, b: nat, c: nat, k: nat)
    requires b < Pow2(k)
    ensures Or(Shl(a, k) + b, Shl(c, k)) == Shl(Or(a, c), k) + b
    decreases k
  {
    if k > 0 {
      var x, y := Shl(a, k) + b, Shl(c, k);
      OrShl(a, b / 2, c, k - 1);
      OrHalf(x, y);
    }
  }

  /** Half and parity of an OR. */
  lemma OrParts(x: nat, y: nat)
    ensures Or(x, y) / 2 == Or(x / 2, y / 2) && (Or(x, y) % 2 == 1 <==> x % 2 == 1 || y % 2 == 1)
  {
    OrHalf(x, y);
  }

  lemma AndParts(x: nat, y: nat)
    ensures And(x, y) / 2 == And(x / 2, y / 2) && (And(x, y) % 2 == 1 <==> x % 2 == 1 && y % 2 == 1)
  {
    assert And(0, y / 2) == 0 && And(x / 2, 0) == 0;
  }

  lemma SameHalves(x: nat, y: nat)
    requires x / 2 == y / 2 && (x % 2 == 1 <==> y % 2 == 1)
    ensures x == y
  {}

  lemma {:induction false} OrAssoc(a: nat, b: nat, c: nat)
    ensures Or(Or(a, b), c) == Or(a, Or(b, c))
    decreases a + b + c
  {
    if a != 0 && b != 0 && c != 0 {
      OrParts(a, b);
      OrParts(b, c);
      OrParts(Or(a, b), c);
      OrParts(a, Or(b, c));
      OrAssoc(a / 2, b / 2, c / 2);
      SameHalves(Or(Or(a, b), c), Or(a, Or(b, c)));
    }
  }

  /** Masking distributes over OR. */
  lemma {:induction false} AndOr(a: nat, b: nat, m: nat)
    ensures And(Or(a, b), m) == Or(And(a, m), And(b, m))
    decreases m
  {
    if m != 0 {
      OrParts(a, b);
      AndParts(Or(a, b), m);
      AndParts(a, m);
      AndParts(b, m);
      OrParts(And(a, m), And(b, m));
      AndOr(a / 2, b / 2, m / 2);
      SameHalves(And(Or(a, b), m), Or(And(a, m), And(b, m)));
    }
  }

  /** Shifting right distributes over OR. */
  lemma {:induction false} OrShr(a: nat, b: nat, k: nat)
    ensures Shr(Or(a, b), k) == Or(Shr(a, k), Shr(b, k))
    decreases k
  {
    if k > 0 {
      OrParts(a, b);
      OrShr(a / 2, b / 2, k - 1);
    }
  }

  /** A field of an OR is the OR of the fields. */
  lemma OrField(a: nat, b: nat, lo: nat, hi: nat)
    requires lo <= hi
    ensures GetBits(Or(a, b), lo, hi) == Or(GetBits(a, lo, hi), GetBits(b, lo, hi))
  {
    OrShr(a, b, lo);
    AndOr(Shr(a, lo), Shr(b, lo), Pow2(hi - lo) - 1);
  }

  lemma HalveMod(x: nat, p: nat)
    requires p > 0
    ensures x % (2 * p) == 2 * ((x / 2) % p) + x % 2
    ensures x / (2 * p) == x / 2 / p
  {
    var y, q, r := x / 2, x / 2 / p, (x / 2) % p;
    assert y == p * q + r;
    assert x == (2 * p) * q + (2 * r + x % 2) by { assert 2 * (p * q) == (2 * p) * q; }
    DivUnique(x, 2 * p, q, 2 * r + x % 2);
  }

  /** Masking with the low k bits is reduction modulo 2^k. */
  lemma {:induction false} AndLow(x: nat, k: nat)
    ensures And(x, Pow2(k) - 1) == x % Pow2(k)
    decreases k
  {
    if k > 0 {
      AndLow(x / 2, k - 1);
      HalveMod(x, Pow2(k - 1));
    }
  }

  /** A mask whose low k bits are clear acts on the shifted value. */
  lemma {:induction false} AndHigh(x: nat, m: nat, k: nat)
    ensures And(x, Shl(m, k)) == Shl(And(Shr(x, k), m), k)
    decreases k
  {
    if k > 0 {
      AndHigh(x / 2, m, k - 1);
    }
  }

  /** GET_BITS is a quotient and a remainder. */
  lemma GetBitsIs(x: nat, from: nat, to: nat)
    requires from <= to
    ensures GetBits(x, from, to) == (x / Pow2(from)) % Pow2(to - from)
  {
    ShrIs(x, from);
    AndLow(x / Pow2(from), to - from);
  }

  /** Masking bits [lo, hi) keeps exactly those bits in place. */
  lemma AndField(x: nat, lo: nat, hi: nat)
    requires lo <= hi
    ensures And(x, Shl(Pow2(hi - lo) - 1, lo)) == Shl((x / Pow2(lo)) % Pow2(hi - lo), lo)
  {
    AndHigh(x, Pow2(hi - lo) - 1, lo);
    ShrIs(x, lo);
    AndLow(x / Pow2(lo), hi - lo);
  }

  // ---- single bits ----

  /** Is bit `i` (0 is the least significant) of `x` set? */
  predicate BitOf(x: nat, i: nat)
    decreases i
  {
    if i == 0 then x % 2 == 1 else BitOf(x / 2, i - 1)
  }

  /** Bit `i` is the parity of the quotient by 2^i. */
  lemma {:induction false} BitValue(x: nat, i: nat)
    ensures BitOf(x, i) <==> x / Pow2(i) % 2 == 1
    decreases i
  {
    if i > 0 {
      BitValue(x / 2, i - 1);
      HalveMod(x, Pow2(i - 1));
    }
  }

  lemma {:induction false} ZeroBits(i: nat)
    ensures !BitOf(0, i)
  {
    if i > 0 {
      ZeroBits(i - 1);
    }
  }

  lemma {:induction false} BitOr(a: nat, b: nat, i: nat)
    ensures BitOf(Or(a, b), i) <==> BitOf(a, i) || BitOf(b, i)
    decreases i
  {
    ZeroBits(i);
    if a != 0 && b != 0 && i > 0 {
      assert Or(a, b) / 2 == Or(a / 2, b / 2);
      BitOr(a / 2, b / 2, i - 1);
    }
  }

  lemma {:induction false} BitAnd(a: nat, b: nat, i: nat)
    ensures BitOf(And(a, b), i) <==> BitOf(a, i) && BitOf(b, i)
    decreases i
  {
    ZeroBits(i);
    if a != 0 && b != 0 && i > 0 {
      assert And(a, b) / 2 == And(a / 2, b / 2);
      BitAnd(a / 2, b / 2, i - 1);
    }
  }

  lemma {:induction false} BitPow2(k: nat, i: nat)
    ensures BitOf(Pow2(k), i) <==> i == k
    decreases i
  {
    if k == 0 && i > 0 {
      ZeroBits(i - 1);
    } else if k > 0 && i > 0 {
      BitPow2(k - 1, i - 1);
    }
  }

  /** The complement of one bit within n bits. */
  lemma {:induction false} BitComplement(n: nat, k: nat, i: nat)
    requires k < n && i < n
    ensures Pow2(k) < Pow2(n) && (BitOf(Pow2(n) - 1 - Pow2(k), i) <==> i != k)
    decreases n
  {
    var p := Pow2(n - 1);
    if k > 0 {
      BitComplement(n - 1, k - 1, if i > 0 then i - 1 else 0);
      var h := p - 1 - Pow2(k - 1);
      assert Pow2(n) - 1 - Pow2(k) == 2 * h + 1;
      BitOdd(h, i);
    } else if i > 0 {
      BitOnes(n - 1, i - 1);
      assert Pow2(n) - 2 == 2 * (p - 1);
      BitDouble(p - 1, i);
    } else {
      assert Pow2(n) - 2 == 2 * (p - 1);
      BitDouble(p - 1, 0);
    }
  }

  lemma {:induction false} BitOnes(n: nat, i: nat)
    requires i < n
    ensures BitOf(Pow2(n) - 1, i)
    decreases n
  {
    if i > 0 {
      BitOnes(n - 1, i - 1);
    }
  }

  /** A left shift that brings in a one. */
  lemma BitOdd(x: nat, i: nat)
    ensures BitOf(2 * x + 1, i) <==> i == 0 || BitOf(x, i - 1)
  {
    assert (2 * x + 1) / 2 == x;
  }

  /** A left shift moves bits up and brings in a zero. */
  lemma BitDouble(x: nat, i: nat)
    ensures BitOf(2 * x, i) <==> i > 0 && BitOf(x, i - 1)
  {}

  lemma {:induction false} BitMod(x: nat, n: nat, i: nat)
    requires i < n
    ensures BitOf(x % Pow2(n), i) <==> BitOf(x, i)
    decreases n
  {
    HalveMod(x, Pow2(n - 1));
    if i > 0 {
      BitMod(x / 2, n - 1, i - 1);
    }
  }

  /** Numbers below 2^n are determined by their n bits. */
  lemma {:induction false} BitsDetermine(a: nat, b: nat, n: nat)
    requires a < Pow2(n) && b < Pow2(n) && forall i :: 0 <= i < n ==> (BitOf(a, i) <==> BitOf(b, i))
    ensures a == b
    decreases n
  {
    if n > 0 {
      assert BitOf(a, 0) <==> BitOf(b, 0);
      forall i | 0 <= i < n - 1 ensures BitOf(a / 2, i) <==> BitOf(b / 2, i) {
        assert BitOf(a, i + 1) <==> BitOf(b, i + 1);
      }
      BitsDetermine(a / 2, b / 2, n - 1);
    }
  }

  lemma {:induction false} OrBelow(a: nat, b: nat, n: nat)
    requires a < Pow2(n) && b < Pow2(n)
    ensures Or(a, b) < Pow2(n)
    decreases n
  {
    if n > 0 {
      OrBelow(a / 2, b / 2, n - 1);
    }
  }

  lemma {:induction false} AndBelow(a: nat, b: nat)
    ensures And(a, b) <= a
  {
    if a != 0 && b != 0 {
      AndBelow(a / 2, b / 2);
    }
  }
}
