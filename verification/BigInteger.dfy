/** Signed integers of unlimited size: a sign and a magnitude. */
module BigIntegers {
  import opened Arithmetic
  import opened Blocks
  import opened BigUnsigneds

  datatype Sign = Negative | Zero | Positive

  function Flip(s: Sign): Sign {
    match s
    case Negative => Positive
    case Zero => Zero
    case Positive => Negative
  }

  // The number with sign s and magnitude m.
  function Signed(s: Sign, m: int): int {
    match s
    case Negative => -m
    case Zero => 0
    case Positive => m
  }

  // The remainder y leaves after flooring division of x.
  ghost predicate FlooredDivision(x: int, y: int, q: int, r: int) {
    && x == y * q + r
    && (y > 0 ==> 0 <= r < y)
    && (y < 0 ==> y < r <= 0)
    && (y == 0 ==> q == 0)
  }

  class BigInteger {
    var sign: Sign
    const mag: BigUnsigned

    // The sign is zero exactly when the magnitude is.
    ghost predicate Valid()
      reads this, mag, mag.blk
    {
      mag.Valid() && (sign == Zero <==> mag.Value() == 0)
    }

    ghost function Value(): int
      requires Valid()
      reads this, mag, mag.blk
    {
      Signed(sign, mag.Value())
    }

    // Two objects share neither magnitude nor array.
    ghost predicate Apart(x: BigInteger)
      reads this, mag, x, x.mag
    {
      x == this || (x.mag != mag && x.mag.blk != mag.blk)
    }

    constructor ()
      ensures Valid() && Value() == 0 && fresh(mag) && fresh(mag.blk)
    {
      sign := Zero;
      mag := new BigUnsigned();
    }

    constructor Copy(x: BigInteger)
      requires x.Valid()
      ensures Valid() && Value() == x.Value() && fresh(mag) && fresh(mag.blk)
    {
      sign := x.sign;
      mag := new BigUnsigned.Copy(x.mag);
    }

    // A number from a magnitude and a sign; refuses a zero sign with a nonzero magnitude
    // and forces the sign of zero.
    static method FromSign(x: BigUnsigned, s: Sign) returns (thrown: bool, r: BigInteger)
      requires x.Valid()
      ensures fresh(r) && fresh(r.mag) && fresh(r.mag.blk) && r.Valid()
      ensures thrown <==> s == Zero && x.Value() != 0
      ensures !thrown && s == Negative ==> r.Value() == 0 - x.Value()
      ensures !thrown && s != Negative ==> r.Value() == x.Value()
    {
      x.ZeroIffEmpty();
      r := new BigInteger();
      if s == Zero && x.len != 0 {
        return true, r;
      }
      r.mag.Assign(x);
      r.sign := if x.len == 0 then Zero else s;
      return false, r;
    }

    constructor FromBlock(x: Block)
      ensures Valid() && Value() == x && fresh(mag) && fresh(mag.blk)
    {
      sign := if x == 0 then Zero else Positive;
      mag := new BigUnsigned.FromBlock(x);
    }

    // A nonnegative number.
    constructor FromUnsigned(x: BigUnsigned)
      requires x.Valid()
      ensures Valid() && Value() == x.Value() && fresh(mag) && fresh(mag.blk)
    {
      x.ZeroIffEmpty();
      sign := if x.len == 0 then Zero else Positive;
      mag := new BigUnsigned.Copy(x);
    }

    method Assign(x: BigInteger)
      requires Valid() && x.Valid() && Apart(x)
      modifies this, mag, mag.blk
      ensures Valid() && Value() == old(x.Value())
      ensures mag.blk == old(mag.blk) || fresh(mag.blk)
    {
      if this == x { return; }
      sign := x.sign;
      mag.Assign(x.mag);
    }

    method CompareTo(x: BigInteger) returns (r: Comparison)
      requires Valid() && x.Valid()
      ensures r == Less <==> Value() < x.Value()
      ensures r == Equal <==> Value() == x.Value()
      ensures r == Greater <==> Value() > x.Value()
    {
      if Rank(sign) < Rank(x.sign) {
        return Less;
      } else if Rank(sign) > Rank(x.sign) {
        return Greater;
      }
      match sign
      case Zero =>
        return Equal;
      case Positive =>
        r := mag.CompareTo(x.mag);
      case Negative =>
        r := mag.CompareTo(x.mag);
        r := match r case Less => Greater case Equal => Equal case Greater => Less;
    }

    method Equals(x: BigInteger) returns (r: bool)
      requires Valid() && x.Valid()
      ensures r <==> Value() == x.Value()
    {
      if sign != x.sign { return false; }
      r := mag.Equals(x.mag);
    }

    lemma ZeroIffSignZero()
      requires Valid()
      ensures Value() == 0 <==> sign == Zero
    {}

    // The sign and the absolute value of the number.
    lemma SignAndMagnitude()
      requires Valid()
      ensures Value() < 0 <==> sign == Negative
      ensures Value() > 0 <==> sign == Positive
      ensures mag.Value() == if Value() < 0 then -Value() else Value()
    {}

    method SetZero()
      requires mag.Rep()
      modifies this, mag
      ensures Valid() && Value() == 0 && mag.blk == old(mag.blk)
    {
      mag.len := 0;
      sign := Zero;
    }

    method Add(a: BigInteger, b: BigInteger)
      requires Valid() && a.Valid() && b.Valid() && Apart(a) && Apart(b)
      modifies this, mag, mag.blk
      ensures Valid() && Value() == old(a.Value()) + old(b.Value())
      ensures mag.blk == old(mag.blk) || fresh(mag.blk)
    {
      hide Valid, Value;
      if this == a || this == b {
        var tmpThis := new BigInteger();
        tmpThis.AddApart(a, b);
        Assign(tmpThis);
        return;
      }
      AddApart(a, b);
    }

    // add, for a receiver that is neither operand.
    method AddApart(a: BigInteger, b: BigInteger)
      requires Valid() && a.Valid() && b.Valid() && Apart(a) && Apart(b) && this != a && this != b
      modifies this, mag, mag.blk
      ensures Valid() && Value() == a.Value() + b.Value()
      ensures mag.blk == old(mag.blk) || fresh(mag.blk)
    {
      if a.sign == Zero {
        Assign(b);
      } else if b.sign == Zero {
        Assign(a);
      } else if a.sign == b.sign {
        sign := a.sign;
        mag.Add(a.mag, b.mag);
      } else {
        SubtractMagnitudes(a.mag, b.mag, a.sign, b.sign);
      }
    }

    // The difference of two magnitudes, with the sign of the larger one's number.
    method SubtractMagnitudes(a: BigUnsigned, b: BigUnsigned, aSign: Sign, bSign: Sign)
      requires mag.Valid() && a.Valid() && b.Valid() && aSign != Zero && bSign == Flip(aSign)
      requires mag != a && mag != b && mag.blk != a.blk && mag.blk != b.blk
      modifies this, mag, mag.blk
      ensures Valid() && Value() == Signed(aSign, a.Value()) + Signed(bSign, b.Value())
      ensures mag.blk == old(mag.blk) || fresh(mag.blk)
    {
      var c := a.CompareTo(b);
      match c
      case Equal =>
        SetZero();
      case Greater =>
        sign := aSign;
        var thrown := mag.Subtract(a, b);
      case Less =>
        sign := bSign;
        var thrown := mag.Subtract(b, a);
    }

    method Subtract(a: BigInteger, b: BigInteger)
      requires Valid() && a.Valid() && b.Valid() && Apart(a) && Apart(b)
      modifies this, mag, mag.blk
      ensures Valid() && Value() == old(a.Value()) - old(b.Value())
      ensures mag.blk == old(mag.blk) || fresh(mag.blk)
    {
      hide Valid, Value;
      if this == a || this == b {
        var tmpThis := new BigInteger();
        tmpThis.SubtractApart(a, b);
        Assign(tmpThis);
        return;
      }
      SubtractApart(a, b);
    }

    // subtract, for a receiver that is neither operand.
    method SubtractApart(a: BigInteger, b: BigInteger)
      requires Valid() && a.Valid() && b.Valid() && Apart(a) && Apart(b) && this != a && this != b
      modifies this, mag, mag.blk
      ensures Valid() && Value() == a.Value() - b.Value()
      ensures mag.blk == old(mag.blk) || fresh(mag.blk)
    {
      if a.sign == Zero {
        mag.Assign(b.mag);
        sign := Flip(b.sign);
      } else if b.sign == Zero {
        Assign(a);
      } else if a.sign != b.sign {
        sign := a.sign;
        mag.Add(a.mag, b.mag);
      } else {
        SubtractMagnitudes(a.mag, b.mag, a.sign, Flip(b.sign));
      }
    }

    method Multiply(a: BigInteger, b: BigInteger)
      requires Valid() && a.Valid() && b.Valid() && Apart(a) && Apart(b)
      modifies this, mag, mag.blk
      ensures Valid() && Value() == old(a.Value()) * old(b.Value())
      ensures mag.blk == old(mag.blk) || fresh(mag.blk)
      decreases this == a || this == b
    {
      if this == a || this == b {
        var tmpThis := new BigInteger();
        tmpThis.Multiply(a, b);
        Assign(tmpThis);
        return;
      }
      if a.sign == Zero || b.sign == Zero {
        SetZero();
        return;
      }
      SignedProduct(a.sign, b.sign, a.mag.Value(), b.mag.Value());
      sign := if a.sign == b.sign then Positive else Negative;
      mag.Multiply(a.mag, b.mag);
    }

    method Negate(a: BigInteger)
      requires Valid() && a.Valid() && Apart(a)
      modifies this, mag, mag.blk
      ensures Valid() && Value() == -old(a.Value())
      ensures mag.blk == old(mag.blk) || fresh(mag.blk)
      decreases this == a
    {
      if this == a {
        var tmpThis := new BigInteger();
        tmpThis.Negate(a);
        Assign(tmpThis);
        return;
      }
      mag.Assign(a.mag);
      sign := Flip(a.sign);
    }

    method Increment()
      requires Valid()
      modifies this, mag, mag.blk
      ensures Valid() && Value() == old(Value()) + 1
      ensures mag.blk == old(mag.blk) || fresh(mag.blk)
    {
      if sign == Negative {
        var thrown := mag.Decrement();
        mag.ZeroIffEmpty();
        if mag.len == 0 { sign := Zero; }
      } else {
        mag.Increment();
        sign := Positive;
      }
    }

    method Decrement()
      requires Valid()
      modifies this, mag, mag.blk
      ensures Valid() && Value() == old(Value()) - 1
      ensures mag.blk == old(mag.blk) || fresh(mag.blk)
    {
      if sign == Positive {
        var thrown := mag.Decrement();
        mag.ZeroIffEmpty();
        if mag.len == 0 { sign := Zero; }
      } else {
        mag.Increment();
        sign := Negative;
      }
    }

    method Times(x: BigInteger) returns (ans: BigInteger)
      requires Valid() && x.Valid()
      ensures fresh(ans) && fresh(ans.mag) && fresh(ans.mag.blk)
      ensures ans.Valid() && ans.Value() == Value() * x.Value()
    {
      ans := new BigInteger();
      ans.Multiply(this, x);
    }

    // Throws exactly when the divisor is zero; otherwise the flooring remainder.
    method Mod(x: BigInteger) returns (thrown: bool, r: BigInteger, ghost k: int)
      requires Valid() && x.Valid()
      ensures fresh(r) && fresh(r.mag) && fresh(r.mag.blk) && r.Valid()
      ensures thrown <==> x.Value() == 0
      ensures !thrown ==> FlooredDivision(Value(), x.Value(), k, r.Value())
    {
      hide Valid, Value, FlooredDivision;
      x.ZeroIffSignZero();
      r := new BigInteger.Copy(this);
      if x.sign == Zero { return true, r, 0; }
      var q := new BigInteger();
      thrown := r.DivideWithRemainder(x, q);
      k := q.Value();
    }

    // Flooring division: the remainder stays here, the quotient goes to q.
    method DivideWithRemainder(b: BigInteger, q: BigInteger) returns (thrown: bool)
      requires Valid() && b.Valid() && q.Valid() && Apart(b) && Apart(q) && q.Apart(b)
      modifies this, mag, mag.blk, q, q.mag, q.mag.blk
      ensures Valid() && q.Valid() && Apart(q)
      ensures mag.blk == old(mag.blk) || fresh(mag.blk)
      ensures q.mag.blk == old(q.mag.blk) || fresh(q.mag.blk)
      ensures thrown <==> this == q
      ensures thrown ==> Value() == old(Value())
      ensures !thrown ==> FlooredDivision(old(Value()), old(b.Value()), q.Value(), Value())
    {
      if this == q {
        return true;
      }
      if this == b || q == b {
        var tmpB := new BigInteger.Copy(b);
        DivideApart(tmpB, q);
        return false;
      }
      DivideApart(b, q);
      return false;
    }

    // Division once all three objects are known to differ.
    method DivideApart(b: BigInteger, q: BigInteger)
      requires Valid() && b.Valid() && q.Valid() && Apart(b) && Apart(q) && q.Apart(b)
      requires this != b && q != b && this != q
      modifies this, mag, mag.blk, q, q.mag, q.mag.blk
      ensures Valid() && q.Valid() && Apart(q)
      ensures mag.blk == old(mag.blk) || fresh(mag.blk)
      ensures q.mag.blk == old(q.mag.blk) || fresh(q.mag.blk)
      ensures FlooredDivision(old(Value()), b.Value(), q.Value(), Value())
    {
      if b.sign == Zero || sign == Zero {
        q.SetZero();
        return;
      }
      DivideNonzero(b, q);
    }

    method DivideNonzero(b: BigInteger, q: BigInteger)
      requires Valid() && b.Valid() && q.Valid() && Apart(b) && Apart(q) && q.Apart(b)
      requires this != b && q != b && this != q && b.sign != Zero && sign != Zero
      modifies this, mag, mag.blk, q, q.mag, q.mag.blk
      ensures Valid() && q.Valid() && Apart(q)
      ensures mag.blk == old(mag.blk) || fresh(mag.blk)
      ensures q.mag.blk == old(q.mag.blk) || fresh(q.mag.blk)
      ensures FlooredDivision(old(Value()), b.Value(), q.Value(), Value())
    {
      DivideMagnitudes(b, q);
      Finish(b, q);
    }

    // The division of the magnitudes, with the dividend decremented before and the results
    // corrected after when the signs differ.
    method DivideMagnitudes(b: BigInteger, q: BigInteger)
      requires Valid() && b.Valid() && q.mag.Valid() && Apart(b) && Apart(q) && q.Apart(b)
      requires this != b && q != b && this != q && b.sign != Zero && sign != Zero
      modifies q, mag, mag.blk, q.mag, q.mag.blk
      ensures mag.Valid() && q.mag.Valid() && Apart(q)
      ensures mag.blk == old(mag.blk) || fresh(mag.blk)
      ensures q.mag.blk == old(q.mag.blk) || fresh(q.mag.blk)
      ensures q.sign != Zero
      ensures FlooredDivision(old(Value()), b.Value(), Signed(q.sign, q.mag.Value()), Signed(b.sign, mag.Value()))
    {
      hide FlooredDivision, Signed;
      ghost var m := mag.Value();
      q.sign := if sign == b.sign then Positive else Negative;
      DivideCorrected(mag, b.mag, q.mag, sign == b.sign);
      SignedDivision(sign, b.sign, m, b.mag.Value(), q.mag.Value(), mag.Value());
    }

    // Division of the magnitude m by b.  If the signs differ, m is decremented before, the
    // quotient goes up by one after, and the remainder R becomes (b - 1) - R.
    static method DivideCorrected(m: BigUnsigned, b: BigUnsigned, q: BigUnsigned, sameSign: bool)
      requires m.Valid() && b.Valid() && q.Valid() && m.Value() > 0 && b.Value() > 0
      requires m != b && m.blk != b.blk && q != b && q.blk != b.blk && m != q && m.blk != q.blk
      modifies m, m.blk, q, q.blk
      ensures m.Valid() && q.Valid() && m.blk != q.blk && m.Value() < b.Value()
      ensures m.blk == old(m.blk) || fresh(m.blk)
      ensures q.blk == old(q.blk) || fresh(q.blk)
      ensures sameSign ==> old(m.Value()) == q.Value() * b.Value() + m.Value()
      ensures !sameSign ==> old(m.Value()) == q.Value() * b.Value() - m.Value()
    {
      hide BigUnsigned.Valid, BigUnsigned.Value;
      ghost var d := b.Value();
      if !sameSign {
        var thrown := m.Decrement();
      }
      var thrown := m.DivideWithRemainder(b, q);
      if !sameSign {
        MulDist(q.Value(), 1, d);
        FloorCorrection(m, b, q);
      }
    }

    static method FloorCorrection(r: BigUnsigned, b: BigUnsigned, q: BigUnsigned)
      requires r.Valid() && b.Valid() && q.Valid() && r.Value() < b.Value()
      requires r != b && r.blk != b.blk && q != b && q.blk != b.blk && r != q && r.blk != q.blk
      modifies r, r.blk, q, q.blk
      ensures r.Valid() && q.Valid() && r.blk != q.blk
      ensures r.blk == old(r.blk) || fresh(r.blk)
      ensures q.blk == old(q.blk) || fresh(q.blk)
      ensures q.Value() == old(q.Value()) + 1
      ensures r.Value() == b.Value() - old(r.Value()) - 1
    {
      q.Increment();
      var thrown := r.Subtract(b, r);
      thrown := r.Decrement();
    }

    // The remainder takes the sign of the divisor; zeros get the zero sign.
    method Finish(b: BigInteger, q: BigInteger)
      requires mag.Valid() && q.mag.Valid() && this != q && b != this && b != q && q.sign != Zero && b.sign != Zero
      modifies this, q
      ensures Valid() && q.Valid()
      ensures Value() == Signed(b.sign, mag.Value()) && q.Value() == Signed(old(q.sign), q.mag.Value())
    {
      mag.ZeroIffEmpty();
      q.mag.ZeroIffEmpty();
      sign := b.sign;
      if mag.len == 0 { sign := Zero; }
      if q.mag.len == 0 { q.sign := Zero; }
    }
  }

  function Rank(s: Sign): int {
    match s case Negative => -1 case Zero => 0 case Positive => 1
  }

  lemma SignedProduct(s: Sign, t: Sign, m: int, n: int)
    requires s != Zero && t != Zero && m > 0 && n > 0
    ensures m * n > 0
    ensures Signed(s, m) * Signed(t, n) == Signed(if s == t then Positive else Negative, m * n)
  {
    MulStrict(0, m, n);
    assert (-m) * n == -(m * n) && m * (-n) == -(m * n) && (-m) * (-n) == m * n;
  }

  // Division of the magnitudes, with the remainder counted down from the next multiple when
  // the signs differ, is flooring division of the signed numbers.
  lemma SignedDivision(s: Sign, t: Sign, m: int, d: int, q: int, r: int)
    requires s != Zero && t != Zero && 0 <= r < d && m == if s == t then q * d + r else q * d - r
    ensures FlooredDivision(Signed(s, m), Signed(t, d), Signed(if s == t then Positive else Negative, q), Signed(t, r))
  {
    assert (-d) * q == -(q * d) && (-d) * (-q) == d * q && d * (-q) == -(d * q);
  }

  // Flooring division has only one result.
  lemma FlooredUnique(x: int, y: int, q: int, r: int, q': int, r': int)
    requires FlooredDivision(x, y, q, r) && FlooredDivision(x, y, q', r')
    ensures q == q' && r == r'
  {
    if y != 0 {
      assert y * (q - q') == r' - r by { MulDist(q, -q', y); }
      if q > q' {
        FlooredOrder(y, q - q', r' - r);
      } else if q < q' {
        FlooredOrder(y, q' - q, r - r');
      }
    }
  }

  lemma FlooredOrder(y: int, k: int, d: int)
    requires k > 0 && y != 0 && d == y * k
    ensures d >= y > 0 || d <= y < 0
  {
    if y > 0 { MulMono(1, k, y); } else { MulMono(1, k, -y); }
  }
}
