/** The bigint of the formatting library: 32-bit bigits, least significant first, scaled by
    a power of 2^32. */
module FmtBigints {
  import opened Arithmetic
  import opened Positional
  import opened Bits
  import opened Bigits

  // Holds the sum of the terms of a column in two 64-bit halves.
  class Accumulator {
    var lower: DoubleBigit
    var upper: DoubleBigit

    ghost function Value(): nat
      reads this
    {
      lower + TWO64 * upper
    }

    constructor ()
      ensures Value() == 0
    {
      lower, upper := 0, 0;
    }

    // Exact as long as the sum fits 128 bits.
    method Add(n: DoubleBigit)
      modifies this
      ensures old(Value()) + n < TWO64 * TWO64 ==> Value() == old(Value()) + n
    {
      WrappedSum(lower, n);
      lower := WrapAdd64(lower, n);
      if lower < n {
        upper := WrapAdd64(upper, 1);
      }
    }

    function Low32(): (r: Bigit)
      reads this
      ensures r == Value() % BASE
    {
      HalvesLow(lower, upper);
      lower % BASE
    }

    method ShiftRight32()
      modifies this
      ensures Value() == old(Value()) / BASE
    {
      HalvesShift(lower, upper);
      lower := BitOr(upper * BASE % TWO64, lower / BASE);
      upper := upper / BASE;
    }
  }

  function WrapAdd64(x: DoubleBigit, y: DoubleBigit): (r: DoubleBigit)
    ensures r == if x + y < TWO64 then x + y else x + y - TWO64
  {
    (x + y) % TWO64
  }

  // The sum is smaller than the addend exactly if it wrapped around.
  lemma WrappedSum(x: DoubleBigit, y: DoubleBigit)
    ensures WrapAdd64(x, y) < y <==> x + y >= TWO64
  {}

  lemma HalvesShift(lower: DoubleBigit, upper: DoubleBigit)
    ensures BitOr(upper * BASE % TWO64, lower / BASE) == (lower + TWO64 * upper) / BASE - TWO64 * (upper / BASE)
    ensures BitOr(upper * BASE % TWO64, lower / BASE) < TWO64
  {
    HalvesOr(upper % BASE, lower / BASE);
    var hi, q := upper % BASE, upper / BASE;
    assert upper * BASE == hi * BASE + TWO64 * q;
    DivModOf(upper * BASE, TWO64, q, hi * BASE);
    DivModOf(lower + TWO64 * upper, BASE, lower / BASE + BASE * upper, lower % BASE);
  }

  lemma HalvesLow(lower: DoubleBigit, upper: DoubleBigit)
    ensures (lower + TWO64 * upper) % BASE == lower % BASE
  {
    DivModOf(lower + TWO64 * upper, BASE, lower / BASE + BASE * upper, lower % BASE);
  }

  lemma HalvesOr(hi: Bigit, lo: Bigit)
    ensures BitOr(hi * BASE, lo) == hi * BASE + lo
  {
    BaseIsPower();
    BitOrCommutes(hi * BASE, lo);
    BitOrDisjoint(lo, hi, 32);
  }

  // One more than the largest int.
  const INT_LIMIT: nat := 0x8000_0000

  class Bigint {
    var bigits: seq<Bigit>
    var exp: nat

    // The number this object stands for.
    ghost function Value(): nat
      reads this
    {
      Num(bigits) * W(exp)
    }

    // At least one bigit, and no leading zeros beyond the one of zero itself.
    ghost predicate Valid()
      reads this
    {
      |bigits| >= 1 && (|bigits| > 1 ==> bigits[|bigits| - 1] != 0)
    }

    ghost predicate NonzeroTop()
      reads this
    {
      |bigits| >= 1 && bigits[|bigits| - 1] != 0
    }

    constructor ()
      ensures bigits == [] && exp == 0
    {
      bigits, exp := [], 0;
    }

    function NumBigits(): nat
      reads this
    {
      |bigits| + exp
    }

    lemma ZeroIff()
      requires Valid()
      ensures Value() == 0 <==> !NonzeroTop()
      ensures Value() == 0 ==> bigits == [0]
    {
      NumTop(bigits);
      if NonzeroTop() {
        MulStrict(0, Num(bigits), W(exp));
      } else {
        NumAppend([], 0);
        assert bigits == [] + [0];
      }
    }

    method RemoveLeadingZeros()
      requires |bigits| >= 1
      modifies this`bigits
      ensures Valid() && Num(bigits) == old(Num(bigits)) && |bigits| <= old(|bigits|)
    {
      hide Num;
      ghost var s := bigits;
      assert s[..|s|] == s;
      var numBigits := |bigits| - 1;
      while numBigits > 0 && bigits[numBigits] == 0
        invariant 0 <= numBigits < |bigits| && bigits == s && Num(s[..numBigits + 1]) == Num(s)
      {
        NumPrefix(s, numBigits);
        numBigits := numBigits - 1;
      }
      bigits := bigits[..numBigits + 1];
    }

    // Multiplication by a 32-bit factor.
    method Multiply32(value: Bigit)
      requires |bigits| >= 1
      modifies this`bigits
      ensures Num(bigits) == old(Num(bigits)) * value && |bigits| >= old(|bigits|)
      ensures old(Valid()) && value > 0 ==> Valid()
      ensures old(NonzeroTop()) && value > 0 ==> NonzeroTop()
    {
      hide Num, W, Wrap64;
      ghost var s := bigits;
      var n := |bigits|;
      var carry: Bigit := 0;
      CarriedStart(s, value);
      for i := 0 to n
        invariant |bigits| == n && bigits[i..] == s[i..] && Carried(bigits[..i], carry, Num(s[..i]) * value)
      {
        ghost var r := bigits[..i];
        var d, carry' := MultiplyColumn32(bigits[i], value, carry);
        CarriedStep(r, carry, Num(s[..i]) * value, d, carry', s[i] * value);
        ProductPrefix(s, i, value);
        bigits := bigits[i := d];
        carry := carry';
        assert bigits[..i + 1] == r + [d];
      }
      assert s[..n] == s && bigits[..n] == bigits;
      CarriedDone(bigits, carry, Num(s) * value);
      ghost var r := bigits;
      if carry != 0 {
        bigits := bigits + [carry];
      }
      ProductTop(s, value, r);
    }

    // Multiplication by a 64-bit factor.
    method Multiply64(value: DoubleBigit)
      requires |bigits| >= 1
      modifies this`bigits
      ensures Num(bigits) == old(Num(bigits)) * value && |bigits| >= 1
      ensures old(Valid()) && value > 0 ==> Valid()
      ensures old(NonzeroTop()) && value > 0 ==> NonzeroTop()
    {
      hide Num, W, Wrap64;
      ghost var s := bigits;
      var n := |bigits|;
      var carry: DoubleBigit := 0;
      CarriedStart(s, value);
      for i := 0 to n
        invariant |bigits| == n && bigits[i..] == s[i..] && Carried(bigits[..i], carry, Num(s[..i]) * value)
      {
        ghost var r := bigits[..i];
        var d, carry' := MultiplyColumn64(bigits[i], value, carry);
        CarriedStep(r, carry, Num(s[..i]) * value, d, carry', s[i] * value);
        ProductPrefix(s, i, value);
        bigits := bigits[i := d];
        carry := carry';
        assert bigits[..i + 1] == r + [d];
      }
      assert s[..n] == s && bigits[..n] == bigits;
      PushCarry(s, value, carry);
    }

    // The loop that appends the carry's bigits.
    method PushCarry(ghost s: seq<Bigit>, ghost value: DoubleBigit, carry0: DoubleBigit)
      requires |bigits| == |s| >= 1 && Carried(bigits, carry0, Num(s) * value)
      modifies this`bigits
      ensures Num(bigits) == Num(s) * value && |bigits| >= 1
      ensures s[|s| - 1] != 0 && value > 0 ==> NonzeroTop()
      ensures |s| == 1 && value > 0 ==> Valid()
    {
      hide Num, W, Wrap64;
      var carry: DoubleBigit := carry0;
      while carry != 0
        invariant |bigits| >= |s| && Carried(bigits, carry, Num(s) * value)
        invariant |bigits| > |s| && carry == 0 ==> bigits[|bigits| - 1] != 0
        decreases carry
      {
        CarriedStep(bigits, carry, Num(s) * value, carry % BASE, carry / BASE, 0);
        bigits := bigits + [carry % BASE];
        carry := carry / BASE;
      }
      CarriedDone(bigits, 0, Num(s) * value);
      if |bigits| == |s| { ProductTop(s, value, bigits); }
    }

    // ---- assignment and shifting ----

    method Assign(n0: DoubleBigit)
      modifies this
      ensures Valid() && exp == 0 && Value() == n0 && (n0 > 0 ==> NonzeroTop()) && |bigits| <= 2
    {
      var n: DoubleBigit := n0;
      bigits := [n % BASE];
      n := n / BASE;
      NumEmpty();
      NumAppend([], n0 % BASE);
      assert [] + [n0 % BASE] == bigits;
      WStep(0);
      while n != 0
        invariant 1 <= |bigits| <= 2 && (|bigits| == 2 ==> n == 0 && bigits[1] != 0)
        invariant Num(bigits) + BASE * n == n0 && (n0 > 0 ==> n > 0 || NonzeroTop())
        decreases n
      {
        NumAppend(bigits, n % BASE);
        bigits := bigits + [n % BASE];
        n := n / BASE;
      }
      exp := 0;
    }

    // Multiplies by 2^shift.
    method ShiftLeft(shift: nat)
      requires |bigits| >= 1
      modifies this
      ensures |bigits| >= 1 && Value() == old(Value()) * Pow(2, shift)
      ensures old(Valid()) ==> Valid()
      ensures old(NonzeroTop()) ==> NonzeroTop()
      ensures exp == old(exp) + shift / 32
      ensures shift == 0 ==> bigits == old(bigits)
    {
      hide Num, W, Pow;
      ghost var s, e := bigits, exp;
      ShiftWeight(Num(s), shift, e);
      exp := exp + shift / 32;
      var k := shift % 32;
      if k == 0 {
        ShiftNone(Num(s), shift);
        return;
      }
      ShiftBits(k);
    }

    // The loop over the bigits, for shifts within a bigit.
    method ShiftBits(k: nat)
      requires |bigits| >= 1 && 0 < k < 32
      modifies this`bigits
      ensures |bigits| >= 1 && Num(bigits) == old(Num(bigits)) * Pow(2, k)
      ensures old(Valid()) ==> Valid()
      ensures old(NonzeroTop()) ==> NonzeroTop()
    {
      hide Num, W, Pow;
      ghost var s := bigits;
      var n := |bigits|;
      var carry: nat := 0;
      CarriedStart(s, Pow(2, k));
      ShiftBigit(0, k, 0);
      for i := 0 to n
        invariant |bigits| == n && bigits[i..] == s[i..] && carry < Pow(2, k) <= BASE
        invariant Carried(bigits[..i], carry, Num(s[..i]) * Pow(2, k))
      {
        ghost var r := bigits[..i];
        ShiftBigit(bigits[i], k, carry);
        var c := bigits[i] / Pow(2, 32 - k);
        var kept := bigits[i] * Pow(2, k) % BASE + carry;
        CarriedStep(r, carry, Num(s[..i]) * Pow(2, k), kept, c, s[i] * Pow(2, k));
        ProductPrefix(s, i, Pow(2, k));
        bigits := bigits[i := kept];
        carry := c;
        assert bigits[..i + 1] == r + [kept];
      }
      assert s[..n] == s && bigits[..n] == bigits;
      CarriedDone(bigits, carry, Num(s) * Pow(2, k));
      ghost var r := bigits;
      if carry != 0 {
        bigits := bigits + [carry];
      }
      ProductTop(s, Pow(2, k), r);
    }

    // ---- subtraction ----

    // Subtracts one bigit and the borrow in 64-bit arithmetic; returns the new borrow.
    method SubtractBits(index: nat, other: Bigit, borrow: nat) returns (borrow': nat)
      requires index < |bigits| && borrow <= 1
      modifies this`bigits
      ensures borrow' <= 1 && |bigits| == old(|bigits|)
      ensures bigits == old(bigits)[index := bigits[index]]
      ensures bigits[index] == old(bigits[index]) - other - borrow + BASE * borrow'
    {
      WrappedDifference(bigits[index], other, borrow);
      var result := Wrap64(bigits[index] - other - borrow);
      bigits := bigits[index := result % BASE];
      borrow' := result / (TWO64 / 2);
    }

    // Subtracts other, which must be aligned to this and not compare as greater.  The result is
    // exact except when a borrow meets a zero bigit just above other's top.
    method SubtractAligned(other: Bigint)
      requires this != other && |bigits| >= 1 && other.exp >= exp && Order(bigits, exp, other.bigits, other.exp) >= 0
      modifies this`bigits
      ensures Valid() && |bigits| <= old(|bigits|)
      ensures Value() == old(Value()) - other.Value()
                         + if old(SkipsBorrow(bigits, other.exp - exp, other.bigits))
                           then (BASE - 1) * W(other.NumBigits()) else 0
      ensures Value() == old(Value()) - other.Value()
              <==> !old(SkipsBorrow(bigits, other.exp - exp, other.bigits))
    {
      hide Num, W, Wrap64;
      ghost var s, t := bigits, other.bigits;
      var i := other.exp - exp;
      ghost var off := i;
      AlignedInside(s, exp, t, other.exp);
      var borrow;
      ghost var r;
      i, borrow, r := SubtractSegment(other, i);
      BorrowLeft(r, borrow, s, off, t);
      BorrowOn(i, borrow);
      ghost var c := s[i..];
      if borrow == 0 {
        SubtractedNumber(s, off, t, r, 0, c, 0);
        assert bigits == s[..off] + r + c;
      } else {
        HighAfterBorrow(c);
        ghost var h := c[0 := bigits[i]];
        SubtractedNumber(s, off, t, r, 1, h, if c[0] > 0 then -1 else BASE - 2);
        assert bigits == s[..off] + r + h;
      }
      SubtractedValue(Num(s), Num(bigits), exp, off, |t|, Num(t), if borrow == 1 && c[0] == 0 then BASE - 1 else 0);
      RemoveLeadingZeros();
    }

    // The loop over other's bigits, from index i on.
    method SubtractSegment(other: Bigint, off: nat) returns (i: nat, borrow: nat, ghost r: seq<Bigit>)
      requires this != other && off + |other.bigits| <= |bigits|
      modifies this`bigits
      ensures i == off + |other.bigits| && borrow <= 1 && |r| == |other.bigits|
      ensures bigits == old(bigits)[..off] + r + old(bigits)[i..]
      ensures Borrowed(r, borrow, Num(old(bigits)[off..i]), Num(other.bigits))
    {
      hide Num, W, Wrap64;
      ghost var s, t := bigits, other.bigits;
      i, borrow, r := off, 0, [];
      BorrowedStart(s, off, t);
      for j := 0 to |other.bigits|
        invariant i == off + j && |r| == j && borrow <= 1 && bigits == s[..off] + r + s[i..]
        invariant Borrowed(r, borrow, Num(s[off..i]), Num(t[..j]))
      {
        ghost var r0, b0 := r, borrow;
        borrow := SubtractBits(i, other.bigits[j], borrow);
        BorrowedStep(r0, b0, Num(s[off..i]), Num(t[..j]), bigits[i], borrow, s[i], t[j]);
        NumPrefix(s[off..], j);
        assert s[off..][..j] == s[off..i] && s[off..][..j + 1] == s[off..i + 1];
        NumPrefix(t, j);
        r := r + [bigits[i]];
        i := i + 1;
      }
      assert t[..|t|] == t;
    }

    // The loop that is to pass the borrow on: it stays at index i.
    method BorrowOn(i: nat, borrow0: nat)
      requires borrow0 <= 1 && (borrow0 == 1 ==> i < |bigits|)
      modifies this`bigits
      ensures borrow0 == 0 ==> bigits == old(bigits)
      ensures borrow0 == 1 ==>
                bigits == old(bigits)[i := if old(bigits[i]) > 0 then old(bigits[i]) - 1 else BASE - 2]
    {
      ghost var s := bigits;
      var borrow := borrow0;
      while borrow > 0
        invariant borrow <= 1 && |bigits| == |s| && (borrow == 1 ==> i < |s|)
        invariant borrow0 == 0 ==> borrow == 0 && bigits == s
        invariant borrow0 == 1 && borrow == 1 ==> bigits == s || (s[i] == 0 && bigits == s[i := BASE - 1])
        invariant borrow0 == 1 && borrow == 0 ==> bigits == s[i := if s[i] > 0 then s[i] - 1 else BASE - 2]
        decreases borrow, bigits == s
      {
        borrow := SubtractBits(i, 0, borrow);
      }
    }

    // ---- division ----

    // Lowers the exponent to that of other, if it is bigger, at the price of low zero bigits.
    method Align(other: Bigint)
      requires |bigits| >= 1 && this != other
      modifies this
      ensures |bigits| >= 1 && Value() == old(Value()) && NumBigits() == old(NumBigits())
      ensures exp == if old(exp) > other.exp then other.exp else old(exp)
      ensures old(NonzeroTop()) ==> NonzeroTop()
      ensures old(exp) <= other.exp ==> bigits == old(bigits)
    {
      hide Num, W;
      if exp <= other.exp { return; }
      var expDifference := exp - other.exp;
      LowZeros(bigits, expDifference, other.exp);
      MoveUp(expDifference);
      exp := exp - expDifference;
    }

    // The loops of align: the bigits move up, from the top, and zeros fill the gap.
    method MoveUp(expDifference: nat)
      modifies this`bigits
      ensures bigits == seq(expDifference, _ => 0) + old(bigits)
    {
      ghost var s := bigits;
      var numBigits := |bigits|;
      bigits := bigits + seq(expDifference, _ => 0);
      var i, j: int := numBigits - 1, numBigits - 1 + expDifference;
      while i >= 0
        invariant -1 <= i < |s| && j == i + expDifference && |bigits| == |s| + expDifference
        invariant forall k :: 0 <= k <= i ==> bigits[k] == s[k]
        invariant forall k :: i < k < |s| ==> bigits[k + expDifference] == s[k]
      {
        bigits := bigits[j := bigits[i]];
        i, j := i - 1, j - 1;
      }
      FillZeros(expDifference);
      assert bigits[expDifference..] == s;
    }

    method FillZeros(n: nat)
      requires n <= |bigits|
      modifies this`bigits
      ensures bigits == seq(n, _ => 0) + old(bigits)[n..]
    {
      ghost var t := bigits;
      for k := 0 to n
        invariant |bigits| == |t|
        invariant forall i :: 0 <= i < k ==> bigits[i] == 0
        invariant forall i :: k <= i < |t| ==> bigits[i] == t[i]
      {
        bigits := bigits[k := 0];
      }
    }

    // Divides by repeated subtraction, leaving the remainder.  The quotient is an int, and
    // overflow reports that counting it up goes past the largest int: because it is too big,
    // or because this is a zero that compares as greater than the divisor.  When this number
    // equals the divisor at a bigger exponent, nothing is subtracted.
    method DivModAssign(divisor: Bigint) returns (quotient: nat, overflow: bool)
      requires this != divisor && Valid() && divisor.NonzeroTop()
      modifies this
      ensures overflow <==> old(Lifted(this, divisor)) || old(Value()) >= INT_LIMIT * divisor.Value()
      ensures old(NonzeroTop()) ==> (overflow <==> old(Value()) >= INT_LIMIT * divisor.Value())
      ensures !overflow ==>
                && old(Value()) == quotient * divisor.Value() + Value() && quotient < INT_LIMIT
                && (Value() < divisor.Value() <==> !(old(exp) > divisor.exp && old(Value()) == divisor.Value()))
                && Valid() && !Lifted(this, divisor) && NumBigits() <= old(NumBigits())
                && (exp <= divisor.exp || (bigits == old(bigits) && exp == old(exp)))
    {
      hide Num, W, Order, Lifted;
      OrderOfDividend(this, divisor);
      ZeroIff();
      DivisorSmall(divisor);
      var c := CompareBigints(this, divisor);
      if c < 0 { return 0, false; }
      Align(divisor);
      AlignedOrder(bigits, exp, old(bigits), old(exp), divisor.bigits, divisor.exp);
      quotient, overflow := DivModLoop(divisor);
      if !overflow { NotLifted(this, divisor); }
    }

    lemma DivisorSmall(divisor: Bigint)
      requires divisor.NonzeroTop()
      ensures 0 < divisor.Value() < INT_LIMIT * divisor.Value()
    {
      divisor.ZeroIff();
      MulStrict(1, INT_LIMIT, divisor.Value());
    }

    // The loop, on an aligned dividend that does not compare as smaller.
    method DivModLoop(divisor: Bigint) returns (quotient: nat, overflow: bool)
      requires this != divisor && |bigits| >= 1 && divisor.NonzeroTop() && exp <= divisor.exp
      requires Order(bigits, exp, divisor.bigits, divisor.exp) >= 0
      requires Value() == 0 || (NonzeroTop() && Value() >= divisor.Value())
      modifies this`bigits
      ensures overflow <==> old(Value()) == 0 || old(Value()) >= INT_LIMIT * divisor.Value()
      ensures !overflow ==>
                && old(Value()) == quotient * divisor.Value() + Value() && quotient < INT_LIMIT
                && Value() < divisor.Value() && Valid() && NumBigits() <= old(NumBigits())
    {
      hide Num, W, Order, Lifted;
      ghost var v, d, n := Value(), divisor.Value(), NumBigits();
      ghost var fits := 0 < v < INT_LIMIT * d;
      if fits { AtMostOneMore(this, divisor); }
      quotient := 0;
      var c := 0;
      while c >= 0
        invariant |bigits| >= 1 && NumBigits() <= n && quotient < INT_LIMIT
        invariant c >= 0 ==> Order(bigits, exp, divisor.bigits, divisor.exp) >= 0
        invariant fits ==> v == quotient * d + Value() && (c >= 0 <==> Value() >= d)
        invariant !fits ==> c >= 0 && ((quotient == 0 && Value() == 0) || Value() + quotient * d >= INT_LIMIT * d)
        invariant c < 0 ==> Valid()
        decreases INT_LIMIT - quotient, c
      {
        MulDist(quotient, 1, d);
        SubtractOnce(divisor);
        if quotient == INT_LIMIT - 1 {
          return quotient, true;
        }
        quotient := quotient + 1;
        if !fits { MulDist(quotient, INT_LIMIT - quotient, d); MulMono(1, INT_LIMIT - quotient, d); }
        OrderAligned(this, divisor);
        c := CompareBigints(this, divisor);
      }
      overflow := false;
    }

    // A subtraction is exact on at most one bigit more than the divisor has.  On zero, it leaves
    // a number that is too big to be divided.
    method SubtractOnce(divisor: Bigint)
      requires this != divisor && |bigits| >= 1 && divisor.NonzeroTop() && exp <= divisor.exp
      requires Order(bigits, exp, divisor.bigits, divisor.exp) >= 0
      modifies this`bigits
      ensures Valid() && NumBigits() <= old(NumBigits())
      ensures Value() >= old(Value()) - divisor.Value()
      ensures old(Value()) == 0 ==> Value() >= INT_LIMIT * divisor.Value()
      ensures old(NumBigits()) <= divisor.NumBigits() + 1 && old(Value()) >= divisor.Value()
              ==> Value() == old(Value()) - divisor.Value()
    {
      hide Num, W, Order, SkipsBorrow;
      DivisorSmall(divisor);
      if NumBigits() <= divisor.NumBigits() + 1 && Value() >= divisor.Value() {
        NoBorrowSkipped(bigits, exp, divisor.bigits, divisor.exp);
      }
      BelowWeight(divisor.bigits, divisor.exp, divisor.NumBigits());
      MulMono(divisor.Value() + 1, W(divisor.NumBigits()), BASE - 1);
      SubtractAligned(divisor);
    }

    // ---- squaring and powers of ten ----

    method Square()
      requires |bigits| >= 1 && |bigits| < 0x4000_0000
      modifies this
      ensures Valid() && Value() == old(Value()) * old(Value()) && exp == 2 * old(exp)
    {
      hide Num, W, Columns;
      ghost var e := exp;
      var n := bigits;
      var numBigits := |bigits|;
      bigits := seq(2 * numBigits, _ => 0);
      var sum := new Accumulator();
      NumEmpty();
      assert bigits[..0] == [] && Columns(n, |n|, 0) == 0 && Carried([], 0, 0) by { ColumnsNone(n); }
      for bigitIndex := 0 to 2 * numBigits
        invariant |bigits| == 2 * numBigits && sum.Value() <= numBigits * BASE && exp == e
        invariant Carried(bigits[..bigitIndex], sum.Value(), Columns(n, |n|, bigitIndex))
      {
        SquareColumn(n, sum, bigitIndex);
      }
      assert bigits[..2 * numBigits] == bigits;
      SquareDone(bigits, sum.Value(), n);
      WAdd(e, e);
      MulSwap(Num(n), Num(n), W(e), W(e));
      MulSwap(Num(n), W(e), Num(n), W(e));
      RemoveLeadingZeros();
      exp := exp * 2;
    }

    // operator*= with a positive 32-bit factor.
    method MultiplyBy(value: Bigit)
      requires |bigits| >= 1 && value > 0
      modifies this`bigits
      ensures Value() == old(Value()) * value && |bigits| >= old(|bigits|)
      ensures old(Valid()) ==> Valid()
      ensures old(NonzeroTop()) ==> NonzeroTop()
    {
      hide Num, W;
      ghost var v := Num(bigits);
      Multiply32(value);
      MulSwap(v, value, W(exp), 1);
    }

    // operator*= with a positive 64-bit factor.
    method MultiplyBy64(value: DoubleBigit)
      requires |bigits| >= 1 && value > 0
      modifies this`bigits
      ensures Value() == old(Value()) * value && |bigits| >= 1
      ensures old(Valid()) ==> Valid()
      ensures old(NonzeroTop()) ==> NonzeroTop()
    {
      hide Num, W;
      ghost var v := Num(bigits);
      Multiply64(value);
      MulSwap(v, value, W(exp), 1);
    }

    // Leaves 10^exp10: 5^exp10 by repeated squaring from the top bit of exp10, then a shift.
    method AssignPow10(exp10: nat)
      requires exp10 < 0x4000_0000
      modifies this
      ensures Valid() && NonzeroTop() && Value() == Pow(10, exp10) && exp == exp10 / 32
    {
      hide Num, W, Pow;
      if exp10 == 0 {
        Assign(1);
        PowZero(10);
        return;
      }
      var bitmask: int := 1;
      ghost var j := 0;
      PowZero(2);
      while exp10 >= bitmask
        invariant bitmask == Pow(2, j) && bitmask <= 0x4000_0000
        invariant j > 0 ==> bitmask % 2 == 0 && bitmask / 2 <= exp10
        decreases 2 * exp10 - bitmask
      {
        PowTwice(2, j);
        MaskFits(j);
        bitmask := bitmask * 2;
        j := j + 1;
      }
      bitmask := bitmask / 2;
      PowTwice(2, j - 1);
      HalfPower(j - 1);
      DivModOf(exp10, bitmask, 1, exp10 - bitmask);
      Assign(5);
      PowZero(5);
      PowTwice(5, 0);
      Pow5Loop(exp10, bitmask / 2, j - 1);
      ShiftLeft(exp10);
      PowDistributes(5, 2, exp10);
    }

    // The squaring loop; k counts the bits of the exponent still to be taken in.
    method Pow5Loop(exp10: nat, bitmask0: nat, ghost k0: nat)
      requires exp10 < 0x4000_0000 && Valid() && NonzeroTop() && exp == 0
      requires Value() == Pow(5, exp10 / Pow(2, k0))
      requires bitmask0 == if k0 == 0 then 0 else Pow(2, k0 - 1)
      modifies this
      ensures Valid() && NonzeroTop() && exp == 0 && Value() == Pow(5, exp10)
    {
      hide Num, W, Pow, BitAnd, Bit;
      var bitmask := bitmask0;
      ghost var k := k0;
      while bitmask != 0
        invariant Valid() && NonzeroTop() && exp == 0 && Value() == Pow(5, exp10 / Pow(2, k))
        invariant bitmask == if k == 0 then 0 else Pow(2, k - 1)
        decreases k
      {
        Pow5Step(exp10, bitmask, k - 1);
        HalfPower(k - 1);
        bitmask := bitmask / 2;
        k := k - 1;
      }
      PowZero(2);
    }

    // square(), and multiplication by 5 if the bit of the exponent is set.
    method Pow5Step(exp10: nat, bitmask: nat, ghost i: nat)
      requires exp10 < 0x4000_0000 && Valid() && NonzeroTop() && exp == 0 && bitmask == Pow(2, i)
      requires Value() == Pow(5, exp10 / Pow(2, i + 1))
      modifies this
      ensures Valid() && NonzeroTop() && exp == 0 && Value() == Pow(5, exp10 / Pow(2, i))
    {
      hide Num, W, Pow, BitAnd, Bit;
      ghost var e := exp10 / Pow(2, i + 1);
      QuotientAtMost(exp10, Pow(2, i + 1));
      PowerFits(bigits, e, exp10);
      Pow5Exponent(exp10, i);
      Square();
      ZeroIff();
      BitAndTests(exp10, i);
      if BitAnd(exp10, bitmask) != 0 {
        MultiplyBy(5);
      }
    }

    // One bigit of the square: the column's terms, the bigit, the carry.
    method SquareColumn(n: seq<Bigit>, sum: Accumulator, k: nat)
      requires k < |bigits| == 2 * |n| && |n| < 0x4000_0000 && sum.Value() <= |n| * BASE
      requires Carried(bigits[..k], sum.Value(), Columns(n, |n|, k))
      modifies this`bigits, sum
      ensures |bigits| == 2 * |n| && sum.Value() <= |n| * BASE
      ensures Carried(bigits[..k + 1], sum.Value(), Columns(n, |n|, k + 1))
    {
      hide Num, W, Column;
      ghost var r, carry := bigits[..k], sum.Value();
      if k < |n| {
        SumLowColumn(n, sum, k);
      } else {
        SumHighColumn(n, sum, k);
      }
      ColumnFits(n, k, |n|, carry);
      bigits := bigits[k := sum.Low32()];
      CarriedStep(r, carry, Columns(n, |n|, k), bigits[k], sum.Value() / BASE, Column(n, k, |n|));
      sum.ShiftRight32();
      assert bigits[..k + 1] == r + [bigits[k]];
    }
  }

  // Adds the product of two bigits to the sum.
  method AddTerm(sum: Accumulator, x: Bigit, y: Bigit)
    requires sum.Value() + x as int * y as int < TWO64 * TWO64
    modifies sum
    ensures sum.Value() == old(sum.Value()) + x as int * y as int
  {
    MulBounds(x, BASE - 1, y, BASE - 1);
    sum.Add(x as int * y as int);
  }

  // The inner loop for the low half: i goes up from 0 and j down from the column's index.
  method SumLowColumn(n: seq<Bigit>, sum: Accumulator, k: nat)
    requires k < |n| < 0x4000_0000 && sum.Value() <= |n| * BASE
    modifies sum
    ensures sum.Value() == old(sum.Value()) + Column(n, k, |n|)
  {
    hide Column;
    ColumnZero(n, k);
    var i, j: int := 0, k;
    while j >= 0
      invariant 0 <= i <= k + 1 && i + j == k
      invariant sum.Value() == old(sum.Value()) + Column(n, k, i)
    {
      ColumnNext(n, k, i);
      ColumnFits(n, k, i + 1, old(sum.Value()));
      AddTerm(sum, n[i], n[j]);
      i, j := i + 1, j - 1;
    }
    ColumnFull(n, k, k + 1, |n|);
  }

  // The inner loop for the high half: from the top bigit and its partner on.
  method SumHighColumn(n: seq<Bigit>, sum: Accumulator, k: nat)
    requires 1 <= |n| <= k < 2 * |n| && |n| < 0x4000_0000 && sum.Value() <= |n| * BASE
    modifies sum
    ensures sum.Value() == old(sum.Value()) + Column(n, k, |n|)
  {
    hide Column;
    var j: int := |n| - 1;
    var i: int := k - j;
    ColumnSkips(n, k, i);
    while i < |n|
      invariant 0 <= i <= |n| && i + j == k
      invariant sum.Value() == old(sum.Value()) + Column(n, k, i)
      decreases |n| - i
    {
      ColumnNext(n, k, i);
      ColumnFits(n, k, i + 1, old(sum.Value()));
      AddTerm(sum, n[i], n[j]);
      i, j := i + 1, j - 1;
    }
  }

  lemma ColumnZero(s: seq<Bigit>, k: nat)
    ensures Column(s, k, 0) == 0
  {}

  lemma ColumnNext(s: seq<Bigit>, k: nat, r: nat)
    requires r < |s| && 0 <= k - r < |s|
    ensures Column(s, k, r + 1) == Column(s, k, r) + s[r] as int * s[k - r] as int
  {}

  lemma ColumnsNone(s: seq<Bigit>)
    ensures Columns(s, |s|, 0) == 0 && Carried([], 0, 0)
  {}

  // ---- comparison ----

  // A zero whose exponent lifts it above the top of another number.
  ghost predicate Lifted(zero: Bigint, other: Bigint)
    reads zero, other
  {
    !zero.NonzeroTop() && zero.NumBigits() > other.NumBigits()
  }

  lemma NotLifted(x: Bigint, other: Bigint)
    requires other.NonzeroTop() && x.Valid() && x.exp <= other.exp
    ensures !Lifted(x, other)
  {
    x.ZeroIff();
  }

  // Three-way comparison.  It is numerical unless a zero is lifted above the other number, or
  // the numbers are equal but have different exponents.
  method CompareBigints(lhs: Bigint, rhs: Bigint) returns (r: int)
    ensures r == Order(lhs.bigits, lhs.exp, rhs.bigits, rhs.exp)
    ensures lhs.Valid() && rhs.Valid() ==>
              (r == Signum(lhs.Value() - rhs.Value())
               <==> !Lifted(lhs, rhs) && !Lifted(rhs, lhs) && (lhs.exp == rhs.exp || lhs.Value() != rhs.Value()))
    ensures lhs.NonzeroTop() && rhs.NonzeroTop() && (lhs.exp == rhs.exp || lhs.Value() != rhs.Value()) ==>
              && (r == -1 <==> lhs.Value() < rhs.Value())
              && (r == 0 <==> lhs.Value() == rhs.Value())
              && (r == 1 <==> lhs.Value() > rhs.Value())
  {
    hide Num, W, Lifted, Order, Bigint.Value;
    if lhs.Valid() && rhs.Valid() { OrderNumerical(lhs, rhs); }
    OrderOfLengths(lhs.bigits, lhs.exp, rhs.bigits, rhs.exp);
    var numLhsBigits, numRhsBigits := lhs.NumBigits(), rhs.NumBigits();
    if numLhsBigits != numRhsBigits {
      return if numLhsBigits > numRhsBigits then 1 else -1;
    }
    r := CompareFromTop(lhs, rhs);
  }

  // The loop, once both numbers reach equally high.
  method CompareFromTop(lhs: Bigint, rhs: Bigint) returns (r: int)
    requires lhs.NumBigits() == rhs.NumBigits()
    ensures r == Order(lhs.bigits, lhs.exp, rhs.bigits, rhs.exp)
  {
    hide Num, W, Hi, Order;
    var i, j: int := |lhs.bigits| - 1, |rhs.bigits| - 1;
    var end := i - j;
    if end < 0 { end := 0; }
    HiEmpty(lhs.bigits, lhs.exp);
    HiEmpty(rhs.bigits, rhs.exp);
    while i >= end
      invariant end - 1 <= i < |lhs.bigits| && -1 <= j < |rhs.bigits| && i + lhs.exp == j + rhs.exp
      invariant Hi(lhs.bigits, lhs.exp, i + lhs.exp + 1) == Hi(rhs.bigits, rhs.exp, i + lhs.exp + 1)
    {
      HiStep(lhs.bigits, lhs.exp, i + lhs.exp);
      HiStep(rhs.bigits, rhs.exp, i + lhs.exp);
      var lhsBigit, rhsBigit := lhs.bigits[i], rhs.bigits[j];
      if lhsBigit != rhsBigit {
        HiDiffers(lhs.bigits, lhs.exp, rhs.bigits, rhs.exp, i + lhs.exp);
        return if lhsBigit > rhsBigit then 1 else -1;
      }
      i, j := i - 1, j - 1;
    }
    SameHigh(lhs.bigits, lhs.exp, rhs.bigits, rhs.exp, i + lhs.exp + 1);
    if i != j {
      return if i > j then 1 else -1;
    }
    return 0;
  }

  // When the order is that of the values.
  lemma OrderNumerical(lhs: Bigint, rhs: Bigint)
    requires lhs.Valid() && rhs.Valid()
    ensures var r := Order(lhs.bigits, lhs.exp, rhs.bigits, rhs.exp);
            && (r == Signum(lhs.Value() - rhs.Value())
                <==> !Lifted(lhs, rhs) && !Lifted(rhs, lhs) && (lhs.exp == rhs.exp || lhs.Value() != rhs.Value()))
            && (lhs.NonzeroTop() && rhs.NonzeroTop() && (lhs.exp == rhs.exp || lhs.Value() != rhs.Value()) ==>
                  && (r == -1 <==> lhs.Value() < rhs.Value())
                  && (r == 0 <==> lhs.Value() == rhs.Value())
                  && (r == 1 <==> lhs.Value() > rhs.Value()))
            && (Lifted(lhs, rhs) ==> r == 1 && lhs.Value() == 0)
            && (!Lifted(lhs, rhs) && !Lifted(rhs, lhs) && lhs.Value() == rhs.Value() ==> r == Signum(rhs.exp - lhs.exp))
  {
    hide Num, W;
    lhs.ZeroIff();
    rhs.ZeroIff();
    if lhs.NumBigits() > rhs.NumBigits() && lhs.NonzeroTop() {
      MoreBigits(lhs.bigits, lhs.exp, rhs.bigits, rhs.exp);
    } else if lhs.NumBigits() < rhs.NumBigits() && rhs.NonzeroTop() {
      MoreBigits(rhs.bigits, rhs.exp, lhs.bigits, lhs.exp);
    }
  }

  // What a comparison with a nonzero divisor tells.
  lemma OrderOfDividend(lhs: Bigint, rhs: Bigint)
    requires lhs.Valid() && rhs.NonzeroTop()
    ensures Order(lhs.bigits, lhs.exp, rhs.bigits, rhs.exp) < 0
            <==> !Lifted(lhs, rhs) && (lhs.Value() < rhs.Value() || (lhs.Value() == rhs.Value() && lhs.exp > rhs.exp))
    ensures Lifted(lhs, rhs) ==> lhs.Value() == 0
    ensures !Lifted(lhs, rhs) && Order(lhs.bigits, lhs.exp, rhs.bigits, rhs.exp) >= 0 ==> lhs.NonzeroTop()
  {
    hide Num, W, Order;
    OrderNumerical(lhs, rhs);
    lhs.ZeroIff();
    rhs.ZeroIff();
  }

  // With the exponent no bigger than that of a nonzero number, not to be smaller is numerical.
  lemma OrderAligned(lhs: Bigint, rhs: Bigint)
    requires lhs.Valid() && rhs.NonzeroTop() && lhs.exp <= rhs.exp
    ensures Order(lhs.bigits, lhs.exp, rhs.bigits, rhs.exp) >= 0 <==> lhs.Value() >= rhs.Value()
  {
    hide Num, W, Order;
    OrderNumerical(lhs, rhs);
    NotLifted(lhs, rhs);
  }

  lemma HiEmpty(s: seq<Bigit>, e: nat)
    ensures Hi(s, e, |s| + e) == 0
  {}

  lemma HiDiffers(s: seq<Bigit>, e: nat, t: seq<Bigit>, e': nat, p: nat)
    requires |s| + e == |t| + e'
    ensures Hi(s, e, p) > Hi(t, e', p) ==> Order(s, e, t, e') == 1
    ensures Hi(s, e, p) < Hi(t, e', p) ==> Order(s, e, t, e') == -1
  {
    hide Num, W, Hi;
    HiBounds(s, e, p);
    HiBounds(t, e', p);
    if Hi(s, e, p) > Hi(t, e', p) {
      HiDecides(Hi(s, e, p), Hi(t, e', p), W(p), Num(s) * W(e), Num(t) * W(e'));
    } else if Hi(s, e, p) < Hi(t, e', p) {
      HiDecides(Hi(t, e', p), Hi(s, e, p), W(p), Num(t) * W(e'), Num(s) * W(e));
    }
  }

  // Equal down to the larger exponent: the number with more bigits below comes out greater.
  lemma SameHigh(s: seq<Bigit>, e: nat, t: seq<Bigit>, e': nat, p: nat)
    requires |s| + e == |t| + e' && Hi(s, e, p) == Hi(t, e', p) && p == if e >= e' then e else e'
    ensures Order(s, e, t, e') == Signum(e' - e)
  {
    hide Num, W, Hi;
    HiBounds(s, e, p);
    HiBounds(t, e', p);
  }

  lemma OrderOfLengths(s: seq<Bigit>, e: nat, t: seq<Bigit>, e': nat)
    ensures |s| + e != |t| + e' ==> Order(s, e, t, e') == Signum(|s| + e - (|t| + e'))
  {}

  // The operands for which the length early-outs go wrong: a zero right operand lifted well
  // above the left ones, or a zero left operand lifted above the right one while the other left
  // operand does not exceed it.
  ghost predicate Misled(lhs1: Bigint, lhs2: Bigint, rhs: Bigint)
    reads lhs1, lhs2, rhs
  {
    || (!rhs.NonzeroTop() && lhs1.NumBigits() + 1 < rhs.NumBigits() && lhs2.NumBigits() + 1 < rhs.NumBigits())
    || (Lifted(lhs1, rhs) && lhs2.Value() <= rhs.Value())
    || (Lifted(lhs2, rhs) && lhs1.Value() <= rhs.Value())
  }

  // The sign of lhs1 + lhs2 - rhs, from the top bigits down with a running borrow.
  method AddCompare(lhs1: Bigint, lhs2: Bigint, rhs: Bigint) returns (r: int)
    requires lhs1.Valid() && lhs2.Valid() && rhs.Valid()
    ensures r == Signum(lhs1.Value() + lhs2.Value() - rhs.Value()) <==> !Misled(lhs1, lhs2, rhs)
    ensures lhs1.NonzeroTop() && lhs2.NonzeroTop() && rhs.NonzeroTop() ==>
              && (r == -1 <==> lhs1.Value() + lhs2.Value() < rhs.Value())
              && (r == 0 <==> lhs1.Value() + lhs2.Value() == rhs.Value())
              && (r == 1 <==> lhs1.Value() + lhs2.Value() > rhs.Value())
  {
    hide Num, W, Hi, At, Wrap64;
    lhs1.ZeroIff();
    lhs2.ZeroIff();
    rhs.ZeroIff();
    var maxLhsBigits := if lhs1.NumBigits() >= lhs2.NumBigits() then lhs1.NumBigits() else lhs2.NumBigits();
    var numRhsBigits := rhs.NumBigits();
    if maxLhsBigits + 1 < numRhsBigits {
      if rhs.NonzeroTop() {
        SumBelow(lhs1.bigits, lhs1.exp, lhs2.bigits, lhs2.exp, rhs.bigits, rhs.exp);
      }
      return -1;
    }
    if maxLhsBigits > numRhsBigits {
      if lhs1.NumBigits() > numRhsBigits && lhs1.NonzeroTop() {
        MoreBigits(lhs1.bigits, lhs1.exp, rhs.bigits, rhs.exp);
      }
      if lhs2.NumBigits() > numRhsBigits && lhs2.NonzeroTop() {
        MoreBigits(lhs2.bigits, lhs2.exp, rhs.bigits, rhs.exp);
      }
      return 1;
    }
    r := AddCompareLoop(lhs1, lhs2, rhs);
  }

  // The loop, once no left operand reaches above the right one.
  method AddCompareLoop(lhs1: Bigint, lhs2: Bigint, rhs: Bigint) returns (r: int)
    requires |lhs1.bigits| >= 1 && |lhs2.bigits| >= 1 && |rhs.bigits| >= 1
    requires lhs1.NumBigits() <= rhs.NumBigits() && lhs2.NumBigits() <= rhs.NumBigits()
    ensures r == Signum(lhs1.Value() + lhs2.Value() - rhs.Value())
  {
    hide Num, W, Hi, At, Wrap64;
    ghost var a, b, c := lhs1.bigits, lhs2.bigits, rhs.bigits;
    ghost var x, y, z := lhs1.exp, lhs2.exp, rhs.exp;
    var borrow: DoubleBigit := 0;
    var minExp := if lhs1.exp <= lhs2.exp then lhs1.exp else lhs2.exp;
    if rhs.exp < minExp { minExp := rhs.exp; }
    var i: int := rhs.NumBigits() - 1;
    HiAbove(a, x, i + 1);
    HiAbove(b, y, i + 1);
    HiAbove(c, z, i + 1);
    while i >= minExp
      invariant minExp - 1 <= i
      invariant borrow == BASE * (Hi(c, z, i + 1) - Hi(a, x, i + 1) - Hi(b, y, i + 1)) && borrow <= BASE
    {
      HiStep(a, x, i);
      HiStep(b, y, i);
      HiStep(c, z, i);
      var sum := At(lhs1.bigits, lhs1.exp, i) + At(lhs2.bigits, lhs2.exp, i);
      var rhsBigit := At(rhs.bigits, rhs.exp, i);
      if sum > Wrap64(rhsBigit + borrow) {
        HiSumDecides(a, x, b, y, c, z, i);
        return 1;
      }
      borrow := Wrap64(rhsBigit + borrow - sum);
      if borrow > 1 {
        HiSumDecides(a, x, b, y, c, z, i);
        return -1;
      }
      borrow := Wrap64(borrow * BASE);
      i := i - 1;
    }
    HiSumExact(a, x, b, y, c, z, i + 1);
    return if borrow != 0 then -1 else 0;
  }

  lemma HiAbove(s: seq<Bigit>, e: nat, i: nat)
    requires i >= |s| + e
    ensures Hi(s, e, i) == 0
  {}

  // The early-outs: the high parts of the sum are more than, or at least two less than, those of the right side.
  lemma HiSumDecides(a: seq<Bigit>, x: nat, b: seq<Bigit>, y: nat, c: seq<Bigit>, z: nat, p: nat)
    ensures Hi(a, x, p) + Hi(b, y, p) > Hi(c, z, p)
            ==> Num(a) * W(x) + Num(b) * W(y) > Num(c) * W(z)
    ensures Hi(c, z, p) > Hi(a, x, p) + Hi(b, y, p) + 1
            ==> Num(a) * W(x) + Num(b) * W(y) < Num(c) * W(z)
  {
    hide Num, W, Hi;
    HiBounds(a, x, p);
    HiBounds(b, y, p);
    HiBounds(c, z, p);
    var i, j, k := Hi(a, x, p), Hi(b, y, p), Hi(c, z, p);
    MulDist(i, j, W(p));
    MulDist(i + 1, j + 1, W(p));
    if i + j > k { MulMono(k + 1, i + j, W(p)); }
    if k > i + j + 1 { MulMono(i + j + 2, k, W(p)); }
  }

  // Below all exponents the high parts are the whole numbers.
  lemma HiSumExact(a: seq<Bigit>, x: nat, b: seq<Bigit>, y: nat, c: seq<Bigit>, z: nat, p: nat)
    requires p <= x && p <= y && p <= z && Hi(c, z, p) >= Hi(a, x, p) + Hi(b, y, p)
    ensures Num(a) * W(x) + Num(b) * W(y) <= Num(c) * W(z)
    ensures Hi(c, z, p) == Hi(a, x, p) + Hi(b, y, p) <==> Num(a) * W(x) + Num(b) * W(y) == Num(c) * W(z)
  {
    hide Num, W, Hi;
    HiBounds(a, x, p);
    HiBounds(b, y, p);
    HiBounds(c, z, p);
    var i, j, k := Hi(a, x, p), Hi(b, y, p), Hi(c, z, p);
    MulDist(i, j, W(p));
    if k > i + j { MulStrict(i + j, k, W(p)); }
  }

  // Two numbers that both end well below the top of a third do not add up to it.
  lemma SumBelow(a: seq<Bigit>, x: nat, b: seq<Bigit>, y: nat, c: seq<Bigit>, z: nat)
    requires |c| >= 1 && c[|c| - 1] != 0 && |a| + x + 1 < |c| + z && |b| + y + 1 < |c| + z
    ensures Num(a) * W(x) + Num(b) * W(y) < Num(c) * W(z)
  {
    hide Num, W;
    var p := |c| + z - 2;
    MoreBigits(c, z, [], 0);
    WStep(p);
    BelowWeight(a, x, p);
    BelowWeight(b, y, p);
  }

  lemma BelowWeight(s: seq<Bigit>, e: nat, p: nat)
    requires |s| + e <= p
    ensures Num(s) * W(e) < W(p)
  {
    hide Num, W;
    NumBound(s);
    WAdd(|s|, e);
    MulStrict(Num(s), W(|s|), W(e));
    WMono(|s| + e, p);
  }

  // One column of the multiplication by a 32-bit factor, in 64-bit arithmetic.
  method MultiplyColumn32(x: Bigit, value: Bigit, carry: Bigit) returns (d: Bigit, carry': Bigit)
    ensures x as int * value as int + carry == d + BASE * carry'
  {
    hide Wrap64;
    Fits32(x, value, carry);
    var result := Wrap64(x as int * value as int + carry);
    d := result % BASE;
    carry' := result / BASE;
  }

  // One column of the multiplication by a 64-bit factor, in 64-bit arithmetic.
  method MultiplyColumn64(x: Bigit, value: DoubleBigit, carry: DoubleBigit) returns (d: Bigit, carry': DoubleBigit)
    ensures x * value + carry == d + BASE * carry'
  {
    hide LowResult, HighResult;
    Fits64(x, value, carry);
    var result := LowResult(x, value, carry);
    carry' := HighResult(x, value, carry, result);
    d := result % BASE;
  }

  lemma CarriedStart(s: seq<Bigit>, k: nat)
    ensures s[..0] == [] && Carried([], 0, Num(s[..0]) * k)
  {}

  lemma BorrowedStart(s: seq<Bigit>, off: nat, t: seq<Bigit>)
    requires off <= |s|
    ensures Borrowed([], 0, Num(s[off..off]), Num(t[..0])) && s == s[..off] + [] + s[off..]
  {
    assert s[off..off] == [] && t[..0] == [];
  }

  // Not to be below in the order is to reach higher, or as high and not to be smaller.
  lemma AlignedInside(s: seq<Bigit>, e: nat, t: seq<Bigit>, e': nat)
    requires e <= e' && Order(s, e, t, e') >= 0
    ensures e' - e + |t| < |s| || (e' - e + |t| == |s| && Num(s) >= Num(t) * W(e' - e))
  {
    hide Num, W;
    if |s| + e == |t| + e' { AlignedValues(s, e, t, e'); }
  }

  lemma AlignedValues(s: seq<Bigit>, e: nat, t: seq<Bigit>, e': nat)
    requires e <= e' && Num(s) * W(e) >= Num(t) * W(e')
    ensures Num(s) >= Num(t) * W(e' - e)
  {
    hide Num, W;
    WAdd(e' - e, e);
    MulAssoc(Num(t), W(e' - e), W(e));
    MulCancel(Num(t) * W(e' - e), Num(s), W(e));
  }

  // Aligning to a smaller exponent does not lower a number in the order.
  lemma AlignedOrder(s: seq<Bigit>, x: nat, s0: seq<Bigit>, x0: nat, t: seq<Bigit>, e: nat)
    requires Num(s) * W(x) == Num(s0) * W(x0) && |s| + x == |s0| + x0 && x <= e
    requires Order(s0, x0, t, e) >= 0
    ensures Order(s, x, t, e) >= 0
  {
    hide Num, W;
  }

  // A dividend whose quotient fits an int has at most one bigit more than the divisor.
  lemma AtMostOneMore(x: Bigint, divisor: Bigint)
    requires x.NonzeroTop() && divisor.NonzeroTop() && x.Value() < INT_LIMIT * divisor.Value()
    ensures x.NumBigits() <= divisor.NumBigits() + 1
  {
    hide Num, W;
    var m, n := x.NumBigits(), divisor.NumBigits();
    if m > n + 1 {
      MoreBigits(x.bigits, x.exp, [], 0);
      BelowWeight(divisor.bigits, divisor.exp, n);
      WStep(n);
      WMono(n + 1, m - 1);
    }
  }

  lemma SubtractedValue(v: int, v': int, e: nat, off: nat, n: nat, t: int, extra: int)
    requires v' == v - W(off) * t + W(off + n) * extra
    ensures v' * W(e) == v * W(e) - t * W(e + off) + extra * W(e + off + n)
    ensures extra > 0 ==> extra * W(e + off + n) > 0
  {
    WAdd(off, e);
    WAdd(off + n, e);
    ScaleDifference(v, W(off), t, W(off + n), extra, W(e));
    if extra > 0 { MulStrict(0, extra, W(e + off + n)); }
  }

  lemma ScaleDifference(v: int, a: int, t: int, c: int, x: int, w: int)
    ensures (v - a * t + c * x) * w == v * w - t * (a * w) + x * (c * w)
  {
    MulDist(v - a * t, c * x, w);
    MulDist(v, -(a * t), w);
    MulAssoc(t, a, w);
    MulAssoc(x, c, w);
  }

  lemma LowZeros(s: seq<Bigit>, n: nat, e: nat)
    ensures Num(seq(n, _ => 0) + s) * W(e) == Num(s) * W(e + n)
  {
    var z: seq<Bigit> := seq(n, _ => 0);
    ValConcat(BASE, z, s);
    ValZeros(BASE, z);
    WAdd(n, e);
    assert W(n) * Num(s) * W(e) == Num(s) * (W(n) * W(e)) by { MulAssoc(Num(s), W(n), W(e)); }
  }

  // With at most one bigit more than the divisor, a borrow always finds a nonzero bigit.
  lemma NoBorrowSkipped(s: seq<Bigit>, e: nat, t: seq<Bigit>, e': nat)
    requires e <= e' && Num(s) * W(e) >= Num(t) * W(e') && |s| + e <= |t| + e' + 1
    ensures !SkipsBorrow(s, e' - e, t)
  {
    AlignedValues(s, e, t, e');
    OneMoreBigit(s, e' - e, t);
  }

  lemma PowZero(b: nat)
    ensures Pow(b, 0) == 1
  {}

  lemma PowTwice(b: nat, k: nat)
    ensures Pow(b, k + 1) == b * Pow(b, k)
  {}

  // The bit mask stays within int.
  lemma MaskFits(j: nat)
    ensures Pow(2, j) < 0x4000_0000 ==> Pow(2, j + 1) <= 0x4000_0000
  {
    BaseIsPower();
    assert Pow(2, 32) == 4 * Pow(2, 30);
    if j >= 30 { PowMono(2, 30, j); } else { PowMono(2, j + 1, 30); }
  }

  lemma HalfPower(k: nat)
    ensures Pow(2, k) / 2 == if k == 0 then 0 else Pow(2, k - 1)
    ensures Pow(2, 0) == 1
  {}

  lemma Pow5Exponent(x: nat, i: nat)
    ensures var e := x / Pow(2, i + 1);
            var p := Pow(5, e) * Pow(5, e);
            p > 0 && Pow(5, x / Pow(2, i)) == if Bit(x, i) then p * 5 else p
  {
    var e := x / Pow(2, i + 1);
    PowAdd(5, e, e);
    QuotientBits(x, i);
    PowTwice(5, e + e);
  }

  lemma QuotientAtMost(x: nat, d: nat)
    requires d > 0
    ensures x / d <= x
  {
    DivModDef(x, d);
    MulMono(1, d, x / d);
  }

  // Powers of five below 5^(2^30) fit well below 2^30 bigits.
  lemma PowerFits(s: seq<Bigit>, e: nat, n: nat)
    requires |s| >= 1 && s[|s| - 1] != 0 && e <= n < 0x4000_0000 && Num(s) * W(0) == Pow(5, e)
    ensures |s| < 0x4000_0000
  {
    WStep(0);
    NumTop(s);
    BaseIsPower();
    PowMul(2, 32, |s| - 1);
    PowMul(2, 3, e);
    assert Pow(2, 3) == 8;
    PowBaseMono(5, 8, e);
    if 32 * (|s| - 1) > 3 * e {
      PowStrict(2, 3 * e, 32 * (|s| - 1));
    }
  }

  lemma ShiftNone(v: nat, shift: nat)
    requires shift % 32 == 0
    ensures v * Pow(2, shift % 32) == v
  {
    assert Pow(2, 0) == 1;
  }

  // A product with no bigit more than the factor still has a nonzero top.
  lemma ProductTop(s: seq<Bigit>, k: nat, r: seq<Bigit>)
    requires |r| == |s| >= 1
    ensures Num(r) == Num(s) * k && s[|s| - 1] != 0 && k > 0 ==> r[|r| - 1] != 0
  {
    NumTop(s);
    NumTop(r);
    if k > 0 { MulMono(1, k, Num(s)); }
  }
}
