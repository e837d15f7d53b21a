/** Bitwise operators on natural numbers, and what they do to single bits. */
module Bits {
  import opened Arithmetic

  // Whether bit k of x is set.
  predicate Bit(x: nat, k: nat) {
    x / Pow(2, k) % 2 == 1
  }

  function BitOr(x: nat, y: nat): nat
    decreases x + y
  {
    if x == 0 && y == 0 then 0
    else 2 * BitOr(x / 2, y / 2) + if x % 2 == 1 || y % 2 == 1 then 1 else 0
  }

  function BitAnd(x: nat, y: nat): nat
    decreases x + y
  {
    if x == 0 && y == 0 then 0
    else 2 * BitAnd(x / 2, y / 2) + if x % 2 == 1 && y % 2 == 1 then 1 else 0
  }

  // The operators work bit by bit.
  lemma {:induction false} BitwiseMeaning(x: nat, y: nat, k: nat)
    ensures Bit(BitOr(x, y), k) <==> Bit(x, k) || Bit(y, k)
    ensures Bit(BitAnd(x, y), k) <==> Bit(x, k) && Bit(y, k)
    decreases k
  {
    hide Bit;
    if k == 0 {
      BitZeroth(x);
      BitZeroth(y);
      BitZeroth(BitOr(x, y));
      BitZeroth(BitAnd(x, y));
    } else {
      BitHalf(x, k);
      BitHalf(y, k);
      BitHalf(BitOr(x, y), k);
      BitHalf(BitAnd(x, y), k);
      BitwiseMeaning(x / 2, y / 2, k - 1);
    }
  }

  lemma BitHalf(x: nat, k: nat)
    requires k > 0
    ensures Bit(x, k) == Bit(x / 2, k - 1)
    ensures Pow(2, k) / 2 == Pow(2, k - 1) && Pow(2, k) % 2 == 0
  {
    DivDiv(x, 2, Pow(2, k - 1));
  }

  lemma {:induction false} BitOrZero(x: nat)
    ensures BitOr(x, 0) == x && BitOr(0, x) == x && BitAnd(x, 0) == 0
  {
    if x > 0 { BitOrZero(x / 2); }
  }

  lemma BitZeroth(x: nat)
    ensures Bit(x, 0) <==> x % 2 == 1
  {
    assert Pow(2, 0) == 1;
  }

  lemma {:induction false} BitOrCommutes(x: nat, y: nat)
    ensures BitOr(x, y) == BitOr(y, x)
    decreases x + y
  {
    if x != 0 || y != 0 { BitOrCommutes(x / 2, y / 2); }
  }

  // One step of the operators, for operands given by their halves and lowest bits.
  lemma BitOrStep(x: nat, y: nat, x': nat, y': nat, i: nat, j: nat)
    requires x == 2 * x' + i && y == 2 * y' + j && i < 2 && j < 2
    ensures BitOr(x, y) == 2 * BitOr(x', y') + if i == 1 || j == 1 then 1 else 0
  {
    assert x / 2 == x' && x % 2 == i && y / 2 == y' && y % 2 == j;
  }

  lemma BitAndStep(x: nat, y: nat, x': nat, y': nat, i: nat, j: nat)
    requires x == 2 * x' + i && y == 2 * y' + j && i < 2 && j < 2
    ensures BitAnd(x, y) == 2 * BitAnd(x', y') + if i == 1 && j == 1 then 1 else 0
  {
    assert x / 2 == x' && x % 2 == i && y / 2 == y' && y % 2 == j;
  }

  // Bits of two numbers that do not overlap: the or is the sum.
  lemma {:induction false} BitOrDisjoint(lo: nat, hi: nat, k: nat)
    requires lo < Pow(2, k)
    ensures BitOr(lo, hi * Pow(2, k)) == lo + hi * Pow(2, k)
  {
    hide BitOr;
    if k == 0 {
      BitOrZero(hi);
    } else {
      var h := hi * Pow(2, k - 1);
      MulRotate(hi, 2, Pow(2, k - 1));
      assert hi * Pow(2, k) == 2 * h by { MulAssoc(hi, 2, Pow(2, k - 1)); MulAssoc(2, hi, Pow(2, k - 1)); }
      BitOrStep(lo, 2 * h, lo / 2, h, lo % 2, 0);
      BitOrDisjoint(lo / 2, hi, k - 1);
    }
  }

  lemma {:induction false} BitOrSets(x: nat, k: nat)
    ensures BitOr(x, Pow(2, k)) == if Bit(x, k) then x else x + Pow(2, k)
  {
    hide BitOr, Bit;
    if k == 0 {
      assert Pow(2, 0) == 1;
      BitZeroth(x);
      BitOrZero(x / 2);
      BitOrStep(x, 1, x / 2, 0, x % 2, 1);
    } else {
      BitHalf(x, k);
      BitOrSets(x / 2, k - 1);
      BitOrStep(x, Pow(2, k), x / 2, Pow(2, k - 1), x % 2, 0);
    }
  }

  lemma {:induction false} BitAndTests(x: nat, k: nat)
    ensures BitAnd(x, Pow(2, k)) == if Bit(x, k) then Pow(2, k) else 0
  {
    hide BitAnd, Bit;
    if k == 0 {
      assert Pow(2, 0) == 1;
      BitZeroth(x);
      BitOrZero(x / 2);
      BitAndStep(x, 1, x / 2, 0, x % 2, 1);
    } else {
      BitHalf(x, k);
      BitAndTests(x / 2, k - 1);
      BitAndStep(x, Pow(2, k), x / 2, Pow(2, k - 1), x % 2, 0);
    }
  }

  lemma {:induction false} BitAndAll(x: nat, n: nat)
    requires x < Pow(2, n)
    ensures BitAnd(x, Pow(2, n) - 1) == x
  {
    hide BitAnd;
    if n == 0 {
      BitOrZero(x);
    } else {
      BitAndAll(x / 2, n - 1);
      BitAndStep(x, Pow(2, n) - 1, x / 2, Pow(2, n - 1) - 1, x % 2, 1);
    }
  }

  // Masking with the complement of one bit within n bits.
  lemma {:induction false} BitAndClears(x: nat, k: nat, n: nat)
    requires x < Pow(2, n) && k < n
    ensures Pow(2, k) < Pow(2, n)
    ensures BitAnd(x, Pow(2, n) - 1 - Pow(2, k)) == if Bit(x, k) then x - Pow(2, k) else x
  {
    hide BitAnd, Bit;
    PowStrict(2, k, n);
    var half := Pow(2, n - 1);
    assert Pow(2, n) == 2 * half;
    if k == 0 {
      assert Pow(2, 0) == 1;
      BitZeroth(x);
      BitAndAll(x / 2, n - 1);
      BitAndStep(x, 2 * half - 2, x / 2, half - 1, x % 2, 0);
    } else {
      BitHalf(x, k);
      BitAndClears(x / 2, k - 1, n - 1);
      BitAndStep(x, 2 * half - 1 - Pow(2, k), x / 2, half - 1 - Pow(2, k - 1), x % 2, 1);
    }
  }

  // The low k+1 bits are the low k bits and bit k.
  lemma LowBits(x: nat, k: nat)
    ensures x % Pow(2, k + 1) == x % Pow(2, k) + if Bit(x, k) then Pow(2, k) else 0
  {
    var p := Pow(2, k);
    var q, r := x / p, x % p;
    var q2, b := q / 2, q % 2;
    assert x == (r + b * p) + (2 * p) * q2 by {
      MulDist(2 * q2, b, p);
      MulAssoc(2, q2, p);
      MulAssoc(2, p, q2);
    }
    assert Pow(2, k + 1) == 2 * p;
    DivModOf(x, 2 * p, q2, r + b * p);
  }

  // Reducing modulo 2^n does not change the bits below n.
  lemma {:induction false} BitBelow(x: nat, n: nat, r: nat)
    requires r < n
    ensures Bit(x % Pow(2, n), r) == Bit(x, r)
  {
    HalfMod(x, Pow(2, n - 1));
    BitZeroth(x);
    BitZeroth(x % Pow(2, n));
    if r > 0 {
      BitHalf(x, r);
      BitHalf(x % Pow(2, n), r);
      BitBelow(x / 2, n - 1, r - 1);
    }
  }

  lemma HalfMod(x: nat, m: nat)
    requires m > 0
    ensures x % (2 * m) / 2 == x / 2 % m && x % (2 * m) % 2 == x % 2
  {
    var q, l := x / (2 * m), x % (2 * m);
    DivModDef(x, 2 * m);
    MulAssoc(2, m, q);
    DivModOf(x / 2, m, q, l / 2);
  }

  // Adding the weight of a clear bit sets that bit and no other.
  lemma {:induction false} BitSetOnly(x: nat, bi: nat, k: nat)
    requires !Bit(x, bi)
    ensures Bit(x + Pow(2, bi), k) == (k == bi || Bit(x, k))
  {
    var y := x + Pow(2, bi);
    BitZeroth(x);
    BitZeroth(y);
    if bi == 0 {
      assert Pow(2, 0) == 1;
      if k > 0 {
        BitHalf(x, k);
        BitHalf(y, k);
      }
    } else {
      BitHalf(x, bi);
      assert y / 2 == x / 2 + Pow(2, bi - 1) && y % 2 == x % 2;
      if k > 0 {
        BitHalf(x, k);
        BitHalf(y, k);
        BitSetOnly(x / 2, bi - 1, k - 1);
      }
    }
  }

  lemma BitImpliesAtLeast(x: nat, k: nat)
    requires Bit(x, k)
    ensures x >= Pow(2, k)
  {
    var q := x / Pow(2, k);
    assert q % 2 == 1 && q > 0;
    QuotientPositive(x, Pow(2, k), q);
  }

  // Taking away the weight of a set bit clears it.
  lemma {:induction false} BitClearOnly(x: nat, bi: nat)
    requires Bit(x, bi)
    ensures x >= Pow(2, bi) && !Bit(x - Pow(2, bi), bi)
  {
    var p := Pow(2, bi);
    BitImpliesAtLeast(x, bi);
    var q, r := x / p, x % p;
    MulDist(q - 1, 1, p);
    DivModUnique(x - p, p, q - 1, r);
  }

  // What set_bit leaves, in terms of all bits of the number.
  lemma FlipBit(before: nat, after: nat, bi: nat, newBit: bool)
    requires after == before + (if newBit then Pow(2, bi) else 0) - (if Bit(before, bi) then Pow(2, bi) else 0)
    ensures forall k: nat :: Bit(after, k) == if k == bi then newBit else Bit(before, k)
  {
    forall k: nat
      ensures Bit(after, k) == if k == bi then newBit else Bit(before, k)
    {
      if Bit(before, bi) {
        BitClearOnly(before, bi);
        BitSetOnly(before - Pow(2, bi), bi, k);
      } else {
        BitSetOnly(before, bi, k);
      }
    }
  }

  // Shifting right by one bit less brings one more bit in.
  lemma QuotientBits(x: nat, i: nat)
    ensures x / Pow(2, i) == 2 * (x / Pow(2, i + 1)) + if Bit(x, i) then 1 else 0
  {
    DivDiv(x, Pow(2, i), 2);
    assert Pow(2, i) * 2 == Pow(2, i + 1);
  }
}
