/** Greatest common divisors, modular inverses and modular powers. */
module Algorithms {
  import opened Arithmetic
  import opened Bits
  import opened Blocks
  import opened BigUnsigneds
  import opened BigIntegers

  // ---- the mathematics ----

  predicate Divides(d: nat, x: int) {
    if d == 0 then x == 0 else x % d == 0
  }

  function Abs(x: int): nat {
    if x < 0 then -x else x
  }

  function Gcd(a: nat, b: nat): nat
    decreases b
  {
    if b == 0 then a else Gcd(b, a % b)
  }

  lemma DividesTimes(d: nat, x: int) returns (k: int)
    requires Divides(d, x)
    ensures x == d * k
  {
    if d == 0 {
      k := 0;
    } else {
      k := x / d;
      DivModDef(x, d);
    }
  }

  lemma TimesDivides(d: nat, k: int)
    ensures Divides(d, d * k)
  {
    if d > 0 { DivModOf(d * k, d, k, 0); }
  }

  lemma DividesCombination(d: nat, x: int, y: int, k: int)
    requires Divides(d, x) && Divides(d, y)
    ensures Divides(d, x + y * k)
  {
    var i := DividesTimes(d, x);
    var j := DividesTimes(d, y);
    MulAssoc(d, j, k);
    MulDist(i, j * k, d);
    TimesDivides(d, i + j * k);
  }

  lemma DividesAntisym(d: nat, e: nat)
    requires Divides(d, e) && Divides(e, d)
    ensures d == e
  {
    if d > 0 && e > 0 {
      var i := DividesTimes(d, e);
      var j := DividesTimes(e, d);
      if i <= 0 { MulMono(i, 0, d); }
      if j <= 0 { MulMono(j, 0, e); }
      MulMono(1, i, d);
      MulMono(1, j, e);
    }
  }

  lemma DividesAbs(d: nat, x: int)
    ensures Divides(d, x) <==> Divides(d, Abs(x))
  {
    if Divides(d, x) { DividesCombination(d, 0, x, if x < 0 then -1 else 1); }
    if Divides(d, Abs(x)) { DividesCombination(d, 0, Abs(x), if x < 0 then -1 else 1); }
  }

  // Gcd is a common divisor that every common divisor divides.
  lemma {:induction false} GcdDivides(a: nat, b: nat)
    ensures Divides(Gcd(a, b), a) && Divides(Gcd(a, b), b)
    decreases b
  {
    var g := Gcd(a, b);
    if b == 0 {
      TimesDivides(a, 1);
      TimesDivides(a, 0);
    } else {
      GcdDivides(b, a % b);
      DivModDef(a, b);
      DividesCombination(g, a % b, b, a / b);
    }
  }

  lemma {:induction false} GcdGreatest(a: nat, b: nat, d: nat)
    requires Divides(d, a) && Divides(d, b)
    ensures Divides(d, Gcd(a, b))
    decreases b
  {
    if b != 0 {
      DivModDef(a, b);
      DividesCombination(d, a, b, -(a / b));
      assert a % b == a + b * -(a / b);
      GcdGreatest(b, a % b, d);
    }
  }

  // Subtracting a multiple of one number from the other keeps the gcd, whatever the signs.
  lemma GcdStep(m: int, n: int, q: int)
    ensures Gcd(Abs(m), Abs(n)) == Gcd(Abs(n), Abs(m - n * q))
  {
    var r := m - n * q;
    var g, h := Gcd(Abs(m), Abs(n)), Gcd(Abs(n), Abs(r));
    GcdCommon(m, n);
    GcdCommon(n, r);
    DividesCombination(g, m, n, -q);
    DividesCombination(h, r, n, q);
    assert m + n * -q == r && r + n * q == m;
    DividesAbs(g, r);
    DividesAbs(g, n);
    DividesAbs(h, m);
    DividesAbs(h, n);
    GcdGreatest(Abs(n), Abs(r), g);
    GcdGreatest(Abs(m), Abs(n), h);
    DividesAntisym(g, h);
  }

  lemma GcdCommon(m: int, n: int)
    ensures Divides(Gcd(Abs(m), Abs(n)), m) && Divides(Gcd(Abs(m), Abs(n)), n)
  {
    GcdDivides(Abs(m), Abs(n));
    DividesAbs(Gcd(Abs(m), Abs(n)), m);
    DividesAbs(Gcd(Abs(m), Abs(n)), n);
  }

  // ---- gcd ----

  // Which variable the result is in.
  datatype Found = First | Second | NotYet

  // The parameters are passed by value: the method works on copies.
  method ComputeGcd(a0: BigUnsigned, b0: BigUnsigned) returns (g: BigUnsigned)
    requires a0.Valid() && b0.Valid()
    ensures fresh(g) && fresh(g.blk) && g.Valid() && g.Value() == Gcd(a0.Value(), b0.Value())
  {
    hide BigUnsigned.Valid, BigUnsigned.Value, Gcd;
    var a := new BigUnsigned.Copy(a0);
    var b := new BigUnsigned.Copy(b0);
    var trash := new BigUnsigned();
    ghost var d := Gcd(a.Value(), b.Value());
    var found := NotYet;
    while found == NotYet
      invariant fresh({a, b, trash, a.blk, b.blk, trash.blk})
      invariant a.Valid() && b.Valid() && trash.Valid() && AllApart(a, b, trash)
      invariant found == NotYet ==> Gcd(a.Value(), b.Value()) == d
      invariant found == First ==> a.Value() == d
      invariant found == Second ==> b.Value() == d
      decreases found == NotYet, b.Value()
    {
      found := GcdRound(a, b, trash);
    }
    g := if found == First then a else b;
  }

  // One round of the loop: the result, or the same gcd with a smaller b.
  method GcdRound(a: BigUnsigned, b: BigUnsigned, trash: BigUnsigned) returns (found: Found)
    requires a.Valid() && b.Valid() && trash.Valid() && AllApart(a, b, trash)
    modifies a, a.blk, b, b.blk, trash, trash.blk
    ensures a.Valid() && b.Valid() && trash.Valid() && AllApart(a, b, trash)
    ensures a.blk == old(a.blk) || fresh(a.blk)
    ensures b.blk == old(b.blk) || fresh(b.blk)
    ensures trash.blk == old(trash.blk) || fresh(trash.blk)
    ensures found == First ==> a.Value() == old(Gcd(a.Value(), b.Value()))
    ensures found == Second ==> b.Value() == old(Gcd(a.Value(), b.Value()))
    ensures found == NotYet ==>
              Gcd(a.Value(), b.Value()) == old(Gcd(a.Value(), b.Value())) && b.Value() < old(b.Value())
  {
    hide BigUnsigned.Valid, BigUnsigned.Value, Gcd;
    b.ZeroIffEmpty();
    GcdTurn(a.Value(), b.Value());
    if b.len == 0 { return First; }
    var thrown := RemainderInto(a, b, trash);
    a.ZeroIffEmpty();
    GcdTurn(b.Value(), a.Value());
    if a.len == 0 { return Second; }
    thrown := RemainderInto(b, a, trash);
    return NotYet;
  }

  lemma GcdTurn(a: nat, b: nat)
    ensures Gcd(a, b) == if b == 0 then a else Gcd(b, a % b)
  {}

  // a.divide_with_remainder(b, trash), seen only for its remainder.
  method RemainderInto(a: BigUnsigned, b: BigUnsigned, trash: BigUnsigned) returns (thrown: bool)
    requires a.Valid() && b.Valid() && trash.Valid() && a != b && a != trash && b != trash
    requires a.blk != b.blk && a.blk != trash.blk && b.blk != trash.blk && b.Value() != 0
    modifies a, a.blk, trash, trash.blk
    ensures a.Valid() && trash.Valid() && a.blk != trash.blk && !thrown
    ensures a.blk == old(a.blk) || fresh(a.blk)
    ensures trash.blk == old(trash.blk) || fresh(trash.blk)
    ensures a.Value() == old(a.Value()) % b.Value() < b.Value()
  {
    ghost var v, d := a.Value(), b.Value();
    thrown := a.DivideWithRemainder(b, trash);
    DivModUnique(v, d, trash.Value(), a.Value());
  }

  // ---- extended Euclid ----

  // Different objects that share nothing.
  ghost predicate Disjoint(x: BigInteger, y: BigInteger)
    reads x.mag, y.mag
  {
    x != y && x.mag != y.mag && x.mag.blk != y.mag.blk
  }

  // The variables of the algorithm: the two current numbers, the quotient, and the row of
  // coefficients that goes with each number.
  ghost predicate Separate(m: BigInteger, n: BigInteger, q: BigInteger,
                           r1: BigInteger, s1: BigInteger, r2: BigInteger, s2: BigInteger)
    reads m.mag, n.mag, q.mag, r1.mag, s1.mag, r2.mag, s2.mag
  {
    && Disjoint(m, n) && Disjoint(m, q) && Disjoint(m, r1) && Disjoint(m, s1) && Disjoint(m, r2) && Disjoint(m, s2)
    && Disjoint(n, q) && Disjoint(n, r1) && Disjoint(n, s1) && Disjoint(n, r2) && Disjoint(n, s2)
    && Disjoint(q, r1) && Disjoint(q, s1) && Disjoint(q, r2) && Disjoint(q, s2)
    && Disjoint(r1, s1) && Disjoint(r1, r2) && Disjoint(r1, s2)
    && Disjoint(s1, r2) && Disjoint(s1, s2) && Disjoint(r2, s2)
  }

  ghost predicate AllValid(m: BigInteger, n: BigInteger, q: BigInteger,
                           r1: BigInteger, s1: BigInteger, r2: BigInteger, s2: BigInteger)
    reads m, m.mag, m.mag.blk, n, n.mag, n.mag.blk, q, q.mag, q.mag.blk, r1, r1.mag, r1.mag.blk
    reads s1, s1.mag, s1.mag.blk, r2, r2.mag, r2.mag.blk, s2, s2.mag, s2.mag.blk
  {
    m.Valid() && n.Valid() && q.Valid() && r1.Valid() && s1.Valid() && r2.Valid() && s2.Valid()
  }

  // Takes q times y off x.
  method SubtractProduct(x: BigInteger, q: BigInteger, y: BigInteger)
    requires x.Valid() && q.Valid() && y.Valid()
    modifies x, x.mag, x.mag.blk
    ensures x.Valid() && x.Value() == old(x.Value()) - old(q.Value() * y.Value())
    ensures x.mag.blk == old(x.mag.blk) || fresh(x.mag.blk)
  {
    var t := q.Times(y);
    x.Subtract(x, t);
  }

  // What the loop keeps: both rows express the current numbers, the gcd is unchanged, and
  // the numbers stay on the side of zero the original n is on.
  ghost predicate Bezout(m0: int, n0: int, m: int, n: int, r1: int, s1: int, r2: int, s2: int) {
    && r1 * m0 + s1 * n0 == m
    && r2 * m0 + s2 * n0 == n
    && Gcd(Abs(m), Abs(n)) == Gcd(Abs(m0), Abs(n0))
    && (n0 > 0 ==> n > 0 || (n == 0 && m > 0))
    && (n0 < 0 ==> n < 0 || (n == 0 && m < 0))
    && (n0 == 0 ==> n == 0 && m == m0)
  }

  // A gcd whose sign follows n0.
  ghost predicate IsSignedGcd(m0: int, n0: int, g: int) {
    && Abs(g) == Gcd(Abs(m0), Abs(n0))
    && (n0 > 0 ==> g > 0) && (n0 < 0 ==> g < 0) && (n0 == 0 ==> g == m0)
  }

  // One half of the loop reduces the first number below the second; the rows change places.
  lemma BezoutStep(m0: int, n0: int, m: int, n: int, r1: int, s1: int, r2: int, s2: int, q: int, m': int)
    requires Bezout(m0, n0, m, n, r1, s1, r2, s2) && n != 0 && FlooredDivision(m, n, q, m')
    ensures Bezout(m0, n0, n, m', r2, s2, r1 - q * r2, s1 - q * s2) && Abs(m') < Abs(n)
  {
    GcdStep(m, n, q);
    RowMinus(m0, r1, r2, q);
    RowMinus(n0, s1, s2, q);
    MulDist(r2 * m0, s2 * n0, q);
  }

  lemma RowMinus(x: int, r1: int, r2: int, q: int)
    ensures (r1 - q * r2) * x == r1 * x - q * (r2 * x)
  {
    MulDist(r1, -(q * r2), x);
    MulAssoc(q, r2, x);
  }

  lemma BezoutEnds(m0: int, n0: int, m: int, n: int, r1: int, s1: int, r2: int, s2: int)
    ensures Bezout(m0, n0, m0, n0, 1, 0, 0, 1)
    ensures Bezout(m0, n0, m, n, r1, s1, r2, s2) && n == 0 ==> IsSignedGcd(m0, n0, m) && r1 * m0 + s1 * n0 == m
  {}

  // One half of the loop: m is reduced by n and its row by the same multiple of the other row.
  method EuclidStep(m: BigInteger, n: BigInteger, q: BigInteger,
                    r1: BigInteger, s1: BigInteger, r2: BigInteger, s2: BigInteger)
    requires Separate(m, n, q, r1, s1, r2, s2)
    requires AllValid(m, n, q, r1, s1, r2, s2)
    requires n.Value() != 0
    modifies m, m.mag, m.mag.blk, q, q.mag, q.mag.blk, r1, r1.mag, r1.mag.blk, s1, s1.mag, s1.mag.blk
    ensures Separate(m, n, q, r1, s1, r2, s2)
    ensures AllValid(m, n, q, r1, s1, r2, s2)
    ensures m.mag.blk == old(m.mag.blk) || fresh(m.mag.blk)
    ensures q.mag.blk == old(q.mag.blk) || fresh(q.mag.blk)
    ensures r1.mag.blk == old(r1.mag.blk) || fresh(r1.mag.blk)
    ensures s1.mag.blk == old(s1.mag.blk) || fresh(s1.mag.blk)
    ensures n.Value() == old(n.Value()) && r2.Value() == old(r2.Value()) && s2.Value() == old(s2.Value())
    ensures FlooredDivision(old(m.Value()), n.Value(), q.Value(), m.Value())
    ensures r1.Value() == old(r1.Value()) - q.Value() * r2.Value()
    ensures s1.Value() == old(s1.Value()) - q.Value() * s2.Value()
  {
    hide BigInteger.Valid, BigInteger.Value, FlooredDivision;
    var thrown := m.DivideWithRemainder(n, q);
    SubtractRow(q, r1, s1, r2, s2);
  }

  // One row minus q times the other.
  method SubtractRow(q: BigInteger, r1: BigInteger, s1: BigInteger, r2: BigInteger, s2: BigInteger)
    requires q.Valid() && r1.Valid() && s1.Valid() && r2.Valid() && s2.Valid()
    requires Disjoint(q, r1) && Disjoint(q, s1) && Disjoint(r1, s1)
    requires Disjoint(r1, r2) && Disjoint(r1, s2) && Disjoint(s1, r2) && Disjoint(s1, s2)
    modifies r1, r1.mag, r1.mag.blk, s1, s1.mag, s1.mag.blk
    ensures r1.Valid() && s1.Valid() && Disjoint(r1, s1)
    ensures r1.mag.blk == old(r1.mag.blk) || fresh(r1.mag.blk)
    ensures s1.mag.blk == old(s1.mag.blk) || fresh(s1.mag.blk)
    ensures r1.Value() == old(r1.Value()) - q.Value() * r2.Value()
    ensures s1.Value() == old(s1.Value()) - q.Value() * s2.Value()
  {
    hide BigInteger.Valid, BigInteger.Value;
    SubtractProduct(r1, q, r2);
    SubtractProduct(s1, q, s2);
  }

  // The same with what the loop keeps.
  method EuclidHalf(ghost m0: int, ghost n0: int, m: BigInteger, n: BigInteger, q: BigInteger,
                    r1: BigInteger, s1: BigInteger, r2: BigInteger, s2: BigInteger)
    requires Separate(m, n, q, r1, s1, r2, s2) && AllValid(m, n, q, r1, s1, r2, s2)
    requires n.Value() != 0
    requires Bezout(m0, n0, m.Value(), n.Value(), r1.Value(), s1.Value(), r2.Value(), s2.Value())
    modifies m, m.mag, m.mag.blk, q, q.mag, q.mag.blk, r1, r1.mag, r1.mag.blk, s1, s1.mag, s1.mag.blk
    ensures Separate(n, m, q, r2, s2, r1, s1) && AllValid(n, m, q, r2, s2, r1, s1)
    ensures m.mag.blk == old(m.mag.blk) || fresh(m.mag.blk)
    ensures q.mag.blk == old(q.mag.blk) || fresh(q.mag.blk)
    ensures r1.mag.blk == old(r1.mag.blk) || fresh(r1.mag.blk)
    ensures s1.mag.blk == old(s1.mag.blk) || fresh(s1.mag.blk)
    ensures Bezout(m0, n0, n.Value(), m.Value(), r2.Value(), s2.Value(), r1.Value(), s1.Value())
    ensures n.Value() == old(n.Value()) && Abs(m.Value()) < Abs(n.Value())
  {
    hide BigInteger.Valid, BigInteger.Value, FlooredDivision;
    ghost var mv, r, s := m.Value(), r1.Value(), s1.Value();
    EuclidStep(m, n, q, r1, s1, r2, s2);
    BezoutStep(m0, n0, mv, n.Value(), r, s, r2.Value(), s2.Value(), q.Value(), m.Value());
  }

  // One round of the loop: a result, or a smaller n.
  method EuclidRound(ghost m0: int, ghost n0: int, m: BigInteger, n: BigInteger, q: BigInteger,
                     r1: BigInteger, s1: BigInteger, r2: BigInteger, s2: BigInteger) returns (found: Found)
    requires Separate(m, n, q, r1, s1, r2, s2) && AllValid(m, n, q, r1, s1, r2, s2)
    requires Bezout(m0, n0, m.Value(), n.Value(), r1.Value(), s1.Value(), r2.Value(), s2.Value())
    modifies m, m.mag, m.mag.blk, n, n.mag, n.mag.blk, q, q.mag, q.mag.blk, r1, r1.mag, r1.mag.blk
    modifies s1, s1.mag, s1.mag.blk, r2, r2.mag, r2.mag.blk, s2, s2.mag, s2.mag.blk
    ensures AllValid(m, n, q, r1, s1, r2, s2)
    ensures m.mag.blk == old(m.mag.blk) || fresh(m.mag.blk)
    ensures n.mag.blk == old(n.mag.blk) || fresh(n.mag.blk)
    ensures q.mag.blk == old(q.mag.blk) || fresh(q.mag.blk)
    ensures r1.mag.blk == old(r1.mag.blk) || fresh(r1.mag.blk)
    ensures s1.mag.blk == old(s1.mag.blk) || fresh(s1.mag.blk)
    ensures r2.mag.blk == old(r2.mag.blk) || fresh(r2.mag.blk)
    ensures s2.mag.blk == old(s2.mag.blk) || fresh(s2.mag.blk)
    ensures found == First ==> IsSignedGcd(m0, n0, m.Value()) && r1.Value() * m0 + s1.Value() * n0 == m.Value()
    ensures found == Second ==> IsSignedGcd(m0, n0, n.Value()) && r2.Value() * m0 + s2.Value() * n0 == n.Value()
    ensures found == NotYet ==>
              && Separate(m, n, q, r1, s1, r2, s2) && Abs(n.Value()) < old(Abs(n.Value()))
              && Bezout(m0, n0, m.Value(), n.Value(), r1.Value(), s1.Value(), r2.Value(), s2.Value())
  {
    hide BigInteger.Valid, BigInteger.Value, FlooredDivision, Bezout, IsSignedGcd, Separate;
    n.ZeroIffSignZero();
    if n.sign == Zero {
      BezoutEnds(m0, n0, m.Value(), n.Value(), r1.Value(), s1.Value(), r2.Value(), s2.Value());
      return First;
    }
    EuclidHalf(m0, n0, m, n, q, r1, s1, r2, s2);
    m.ZeroIffSignZero();
    if m.sign == Zero {
      BezoutEnds(m0, n0, n.Value(), m.Value(), r2.Value(), s2.Value(), r1.Value(), s1.Value());
      return Second;
    }
    EuclidHalf(m0, n0, n, m, q, r2, s2, r1, s1);
    return NotYet;
  }

  method EuclidLoop(m: BigInteger, n: BigInteger, q: BigInteger,
                    r1: BigInteger, s1: BigInteger, r2: BigInteger, s2: BigInteger) returns (found: Found)
    requires Separate(m, n, q, r1, s1, r2, s2) && AllValid(m, n, q, r1, s1, r2, s2)
    requires r1.Value() == 1 && s1.Value() == 0 && r2.Value() == 0 && s2.Value() == 1
    modifies m, m.mag, m.mag.blk, n, n.mag, n.mag.blk, q, q.mag, q.mag.blk, r1, r1.mag, r1.mag.blk
    modifies s1, s1.mag, s1.mag.blk, r2, r2.mag, r2.mag.blk, s2, s2.mag, s2.mag.blk
    ensures AllValid(m, n, q, r1, s1, r2, s2) && found != NotYet
    ensures m.mag.blk == old(m.mag.blk) || fresh(m.mag.blk)
    ensures n.mag.blk == old(n.mag.blk) || fresh(n.mag.blk)
    ensures q.mag.blk == old(q.mag.blk) || fresh(q.mag.blk)
    ensures r1.mag.blk == old(r1.mag.blk) || fresh(r1.mag.blk)
    ensures s1.mag.blk == old(s1.mag.blk) || fresh(s1.mag.blk)
    ensures r2.mag.blk == old(r2.mag.blk) || fresh(r2.mag.blk)
    ensures s2.mag.blk == old(s2.mag.blk) || fresh(s2.mag.blk)
    ensures var m0, n0 := old(m.Value()), old(n.Value());
            if found == First then IsSignedGcd(m0, n0, m.Value()) && r1.Value() * m0 + s1.Value() * n0 == m.Value()
            else IsSignedGcd(m0, n0, n.Value()) && r2.Value() * m0 + s2.Value() * n0 == n.Value()
  {
    hide BigInteger.Valid, BigInteger.Value, FlooredDivision, Bezout, IsSignedGcd, Separate;
    ghost var m0, n0 := m.Value(), n.Value();
    BezoutEnds(m0, n0, m0, n0, 1, 0, 0, 1);
    found := NotYet;
    while found == NotYet
      invariant AllValid(m, n, q, r1, s1, r2, s2)
      invariant m.mag.blk == old(m.mag.blk) || fresh(m.mag.blk)
      invariant n.mag.blk == old(n.mag.blk) || fresh(n.mag.blk)
      invariant q.mag.blk == old(q.mag.blk) || fresh(q.mag.blk)
      invariant r1.mag.blk == old(r1.mag.blk) || fresh(r1.mag.blk)
      invariant s1.mag.blk == old(s1.mag.blk) || fresh(s1.mag.blk)
      invariant r2.mag.blk == old(r2.mag.blk) || fresh(r2.mag.blk)
      invariant s2.mag.blk == old(s2.mag.blk) || fresh(s2.mag.blk)
      invariant found == First ==> IsSignedGcd(m0, n0, m.Value()) && r1.Value() * m0 + s1.Value() * n0 == m.Value()
      invariant found == Second ==> IsSignedGcd(m0, n0, n.Value()) && r2.Value() * m0 + s2.Value() * n0 == n.Value()
      invariant found == NotYet ==>
                  && Separate(m, n, q, r1, s1, r2, s2)
                  && Bezout(m0, n0, m.Value(), n.Value(), r1.Value(), s1.Value(), r2.Value(), s2.Value())
      decreases found == NotYet, Abs(n.Value())
    {
      found := EuclidRound(m0, n0, m, n, q, r1, s1, r2, s2);
    }
  }

  // Throws exactly when two outputs are the same object.
  method ExtendedEuclidean(m0: BigInteger, n0: BigInteger, g: BigInteger, r: BigInteger, s: BigInteger)
    returns (thrown: bool)
    requires m0.Valid() && n0.Valid() && g.Valid() && r.Valid() && s.Valid()
    requires g.Apart(r) && g.Apart(s) && r.Apart(s)
    modifies g, g.mag, g.mag.blk, r, r.mag, r.mag.blk, s, s.mag, s.mag.blk
    ensures g.Valid() && r.Valid() && s.Valid()
    ensures thrown <==> g == r || g == s || r == s
    ensures thrown ==> g.Value() == old(g.Value()) && r.Value() == old(r.Value()) && s.Value() == old(s.Value())
    ensures !thrown ==>
              && IsSignedGcd(old(m0.Value()), old(n0.Value()), g.Value())
              && r.Value() * old(m0.Value()) + s.Value() * old(n0.Value()) == g.Value()
  {
    hide BigInteger.Value, BigInteger.Valid, IsSignedGcd;
    if g == r || g == s || r == s {
      return true;
    }
    var gg, rr, ss := EuclidOnCopies(m0, n0);
    AssignResults(g, r, s, gg, rr, ss);
    return false;
  }

  method AssignResults(g: BigInteger, r: BigInteger, s: BigInteger, gg: BigInteger, rr: BigInteger, ss: BigInteger)
    requires g.Valid() && r.Valid() && s.Valid() && gg.Valid() && rr.Valid() && ss.Valid()
    requires Disjoint(g, r) && Disjoint(g, s) && Disjoint(r, s)
    requires Disjoint(g, gg) && Disjoint(g, rr) && Disjoint(g, ss)
    requires Disjoint(r, gg) && Disjoint(r, rr) && Disjoint(r, ss)
    requires Disjoint(s, gg) && Disjoint(s, rr) && Disjoint(s, ss)
    modifies g, g.mag, g.mag.blk, r, r.mag, r.mag.blk, s, s.mag, s.mag.blk
    ensures g.Valid() && r.Valid() && s.Valid()
    ensures g.Value() == old(gg.Value()) && r.Value() == old(rr.Value()) && s.Value() == old(ss.Value())
  {
    hide BigInteger.Value, BigInteger.Valid;
    r.Assign(rr);
    s.Assign(ss);
    g.Assign(gg);
  }

  method NewRow(a: Block, b: Block) returns (r: BigInteger, s: BigInteger)
    ensures fresh({r, s, r.mag, s.mag, r.mag.blk, s.mag.blk}) && Disjoint(r, s)
    ensures r.Valid() && s.Valid() && r.Value() == a && s.Value() == b
  {
    r := new BigInteger.FromBlock(a);
    s := new BigInteger.FromBlock(b);
  }

  // The quotient and the rows (1, 0) and (0, 1).
  method NewRows() returns (q: BigInteger, r1: BigInteger, s1: BigInteger, r2: BigInteger, s2: BigInteger)
    ensures fresh({q, r1, s1, r2, s2, q.mag, r1.mag, s1.mag, r2.mag, s2.mag})
    ensures fresh({q.mag.blk, r1.mag.blk, s1.mag.blk, r2.mag.blk, s2.mag.blk})
    ensures Disjoint(q, r1) && Disjoint(q, s1) && Disjoint(q, r2) && Disjoint(q, s2) && Disjoint(r1, s1)
    ensures Disjoint(r1, r2) && Disjoint(r1, s2) && Disjoint(s1, r2) && Disjoint(s1, s2) && Disjoint(r2, s2)
    ensures q.Valid() && r1.Valid() && s1.Valid() && r2.Valid() && s2.Valid()
    ensures r1.Value() == 1 && s1.Value() == 0 && r2.Value() == 0 && s2.Value() == 1
  {
    hide BigInteger.Valid, BigInteger.Value;
    r1, s1 := NewRow(1, 0);
    r2, s2 := NewRow(0, 1);
    q := new BigInteger();
  }

  // All of them, with copies of the parameters.
  method NewVariables(m0: BigInteger, n0: BigInteger)
    returns (m: BigInteger, n: BigInteger, q: BigInteger, r1: BigInteger, s1: BigInteger, r2: BigInteger, s2: BigInteger)
    requires m0.Valid() && n0.Valid()
    ensures fresh({m, n, q, r1, s1, r2, s2, m.mag, n.mag, q.mag, r1.mag, s1.mag, r2.mag, s2.mag})
    ensures fresh({m.mag.blk, n.mag.blk, q.mag.blk, r1.mag.blk, s1.mag.blk, r2.mag.blk, s2.mag.blk})
    ensures Separate(m, n, q, r1, s1, r2, s2) && AllValid(m, n, q, r1, s1, r2, s2)
    ensures m.Value() == m0.Value() && n.Value() == n0.Value()
    ensures r1.Value() == 1 && s1.Value() == 0 && r2.Value() == 0 && s2.Value() == 1
  {
    hide BigInteger.Valid, BigInteger.Value;
    m := new BigInteger.Copy(m0);
    n := new BigInteger.Copy(n0);
    q, r1, s1, r2, s2 := NewRows();
  }

  // The variables of the algorithm and its loop; parameters are passed by value.
  method EuclidOnCopies(m0: BigInteger, n0: BigInteger) returns (g: BigInteger, r: BigInteger, s: BigInteger)
    requires m0.Valid() && n0.Valid()
    ensures fresh({g, r, s, g.mag, r.mag, s.mag, g.mag.blk, r.mag.blk, s.mag.blk})
    ensures g.Valid() && r.Valid() && s.Valid()
    ensures IsSignedGcd(m0.Value(), n0.Value(), g.Value())
    ensures r.Value() * m0.Value() + s.Value() * n0.Value() == g.Value()
  {
    hide BigInteger.Valid, BigInteger.Value, IsSignedGcd, Separate;
    var m, n, q, r1, s1, r2, s2 := NewVariables(m0, n0);
    var found := EuclidLoop(m, n, q, r1, s1, r2, s2);
    if found == First {
      g, r, s := m, r1, s1;
    } else {
      g, r, s := n, r2, s2;
    }
  }

  // ---- modular inverse and power ----

  lemma InverseStep(x: int, r: int, s: int, n: int, k: int, a: int)
    requires r * x + s * n == 1 && n > 0 && r == n * k + a
    ensures x * a % n == 1 % n
  {
    DivModDef(1, n);
    var c := 1 / n - s - x * k;
    assert x * a == 1 % n + n * c by {
      assert x * a == x * r - x * (n * k) by { MulDist(n * k, a, x); }
      assert x * (n * k) == n * (x * k) by { MulAssoc(x, n, k); MulAssoc(n, x, k); }
      MulDist(1 / n - s, -(x * k), n);
      MulDist(1 / n, -s, n);
    }
    DivModOf(x * a, n, c, 1 % n);
  }

  // Throws exactly when x has no inverse modulo n.
  method ModInv(x: BigInteger, n: BigUnsigned) returns (thrown: bool, ans: BigUnsigned)
    requires x.Valid() && n.Valid()
    ensures !thrown ==> ans.Valid()
    ensures thrown <==> n.Value() == 0 || Gcd(Abs(x.Value()), n.Value()) != 1
    ensures !thrown ==> ans.Value() < n.Value() && x.Value() * ans.Value() % n.Value() == 1 % n.Value()
  {
    hide BigInteger.Valid, BigInteger.Value, IsSignedGcd, Gcd;
    var n2 := new BigInteger.FromUnsigned(n);
    var g, r, s := EuclidResults(x, n2);
    SignedGcdOne(x.Value(), n.Value(), g.Value());
    var one := new BigInteger.FromBlock(1);
    var isOne := g.Equals(one);
    if !isOne {
      return true, one.mag;
    }
    thrown, ans := ReduceInverse(x, n, n2, r, s.Value());
  }

  // The three outputs, declared and filled.
  method EuclidResults(x: BigInteger, n: BigInteger) returns (g: BigInteger, r: BigInteger, s: BigInteger)
    requires x.Valid() && n.Valid()
    ensures fresh({g, r, s}) && g.Valid() && r.Valid() && s.Valid()
    ensures IsSignedGcd(x.Value(), n.Value(), g.Value())
    ensures r.Value() * x.Value() + s.Value() * n.Value() == g.Value()
  {
    hide BigInteger.Valid, BigInteger.Value, IsSignedGcd, Gcd;
    g := new BigInteger();
    r := new BigInteger();
    s := new BigInteger();
    var thrown := ExtendedEuclidean(x, n, g, r, s);
  }

  lemma SignedGcdOne(x: int, n: nat, g: int)
    requires IsSignedGcd(x, n, g)
    ensures n != 0 ==> (g == 1 <==> Gcd(Abs(x), n) == 1)
  {}

  // The coefficient of x, reduced modulo n.
  method ReduceInverse(x: BigInteger, n: BigUnsigned, n2: BigInteger, r: BigInteger, ghost s: int)
    returns (thrown: bool, ans: BigUnsigned)
    requires x.Valid() && n.Valid() && n2.Valid() && r.Valid() && n2.Value() == n.Value()
    requires r.Value() * x.Value() + s * n.Value() == 1
    ensures ans.Valid()
    ensures thrown <==> n.Value() == 0
    ensures !thrown ==> ans.Value() < n.Value() && x.Value() * ans.Value() % n.Value() == 1 % n.Value()
  {
    var rem;
    ghost var k;
    thrown, rem, k := r.Mod(n2);
    if !thrown {
      InverseStep(x.Value(), r.Value(), s, n.Value(), k, rem.Value());
    }
    return thrown, rem.mag;
  }

  function IntPow(b: int, e: nat): int {
    if e == 0 then 1 else b * IntPow(b, e - 1)
  }

  lemma {:induction false} IntPowDouble(b: int, e: nat)
    ensures IntPow(b, 2 * e) == IntPow(b, e) * IntPow(b, e)
  {
    if e > 0 {
      IntPowDouble(b, e - 1);
      var p := IntPow(b, e - 1);
      assert IntPow(b, 2 * e) == b * IntPow(b, 2 * e - 1) == b * (b * IntPow(b, 2 * (e - 1)));
      MulSwap(b, p, b, p);
      MulAssoc(b, b, p * p);
      MulSwap(b, b, p, p);
    }
  }

  // Congruence modulo m.
  ghost predicate Congruent(x: int, y: int, m: int)
    requires m > 0
  {
    x % m == y % m
  }

  lemma CongruentProduct(x: int, x': int, y: int, y': int, m: int)
    requires m > 0 && Congruent(x, x', m) && Congruent(y, y', m)
    ensures Congruent(x * y, x' * y', m)
  {
    ProductMod(x, y, m);
    ProductMod(x', y', m);
  }

  lemma ProductMod(x: int, y: int, m: int)
    requires m > 0
    ensures x * y % m == (x % m) * (y % m) % m
  {
    var i, a, j, b := x / m, x % m, y / m, y % m;
    DivModDef(x, m);
    DivModDef(y, m);
    DivModDef(a * b, m);
    var c := i * y + a * j;
    assert x * y == a * b + m * c by {
      assert x * y == a * y + m * (i * y) by { MulDist(a, m * i, y); MulAssoc(m, i, y); }
      assert a * y == a * b + m * (a * j) by { MulDist(b, m * j, a); MulRotate(a, m, j); MulAssoc(m, j, a); }
      MulDist(i * y, a * j, m);
    }
    MulDist(a * b / m, c, m);
    DivModOf(x * y, m, a * b / m + c, a * b % m);
  }

  lemma CongruentMod(x: int, m: int)
    requires m > 0
    ensures Congruent(x % m, x, m) && 0 <= x % m < m
  {
    DivModDef(x, m);
    DivModOf(x % m, m, 0, x % m);
  }

  // One round of square-and-multiply: the power's exponent takes in one more bit.
  lemma ModExpStep(b: int, b2: int, e: nat, bit: bool, a: int, a': int, m: int)
    requires m > 0 && Congruent(a, IntPow(b, e), m) && Congruent(b2, b, m)
    requires a' == if bit then (a * a % m) * b2 % m else a * a % m
    ensures Congruent(a', IntPow(b, 2 * e + if bit then 1 else 0), m) && 0 <= a' < m
  {
    var p := IntPow(b, e);
    IntPowDouble(b, e);
    CongruentProduct(a, p, a, p, m);
    CongruentMod(a * a, m);
    if bit {
      CongruentProduct(a * a % m, p * p, b2, b, m);
      CongruentMod((a * a % m) * b2, m);
      assert IntPow(b, 2 * e + 1) == b * IntPow(b, 2 * e);
    }
  }

  // Squares ans modulo the modulus, and multiplies it by base2 if the bit is set.
  method SquareAndMultiply(ans: BigUnsigned, base2: BigUnsigned, modulus: BigUnsigned, bit: bool)
    requires ans.Valid() && base2.Valid() && modulus.Valid() && modulus.Value() > 0
    requires ans != base2 && ans != modulus && ans.blk != base2.blk && ans.blk != modulus.blk
    modifies ans, ans.blk
    ensures ans.Valid() && (ans.blk == old(ans.blk) || fresh(ans.blk))
    ensures var sq := old(ans.Value()) * old(ans.Value()) % modulus.Value();
            ans.Value() == if bit then sq * base2.Value() % modulus.Value() else sq
  {
    hide BigUnsigned.Valid, BigUnsigned.Value;
    ans.Multiply(ans, ans);
    var thrown := ans.ModAssign(modulus);
    if bit {
      ans.Multiply(ans, base2);
      thrown := ans.ModAssign(modulus);
    }
  }

  // The number made of the bits of e from bit i on.
  ghost function LeadingBits(e: nat, i: nat): nat {
    e / Pow(2, i)
  }

  lemma LeadingBitsStep(e: nat, i: nat)
    ensures LeadingBits(e, i) == 2 * LeadingBits(e, i + 1) + if Bit(e, i) then 1 else 0
  {
    QuotientBits(e, i);
  }

  lemma LeadingBitsEnds(e: nat, n: nat)
    ensures e < Pow(2, n) ==> LeadingBits(e, n) == 0
    ensures Pow(2, 0) == 1 && LeadingBits(e, 0) == e
  {
    if e < Pow(2, n) { DivModOf(e, Pow(2, n), 0, e); }
  }

  lemma FirstPower(b: int, m: int)
    requires m > 0
    ensures Congruent(1, IntPow(b, 0), m)
  {}

  // The one case in which a zero exponent goes wrong: 1 is returned, the remainder is 0.
  lemma ModExpExample(b: int)
    ensures IntPow(b, 0) % 1 == 0 != 1
  {
    DivModOf(1, 1, 1, 0);
  }

  // The power modulo the modulus, except that a zero exponent always gives 1, which is not
  // reduced when the modulus is 1.
  method ModExp(base: BigInteger, exponent: BigUnsigned, modulus: BigUnsigned) returns (thrown: bool, ans: BigUnsigned)
    requires base.Valid() && exponent.Valid() && modulus.Valid()
    ensures thrown <==> modulus.Value() == 0
    ensures !thrown ==> ans.Valid()
    ensures !thrown ==>
              (ans.Value() == IntPow(base.Value(), exponent.Value()) % modulus.Value()
               <==> !(exponent.Value() == 0 && modulus.Value() == 1))
    ensures !thrown && exponent.Value() == 0 ==> ans.Value() == 1
  {
    ans := new BigUnsigned.FromBlock(1);
    var base2;
    thrown, base2 := ReduceBase(base, modulus);
    if thrown {
      return;
    }
    ModExpLoop(base.Value(), ans, base2, exponent, modulus);
    ModExpDone(ans.Value(), base.Value(), exponent.Value(), modulus.Value());
  }

  // base % modulus, which throws on a zero modulus.
  method ReduceBase(base: BigInteger, modulus: BigUnsigned) returns (thrown: bool, base2: BigUnsigned)
    requires base.Valid() && modulus.Valid()
    ensures fresh(base2) && fresh(base2.blk)
    ensures thrown <==> modulus.Value() == 0
    ensures !thrown ==> base2.Valid() && Congruent(base2.Value(), base.Value(), modulus.Value())
  {
    var mod2 := new BigInteger.FromUnsigned(modulus);
    var rem;
    ghost var k;
    thrown, rem, k := base.Mod(mod2);
    base2 := rem.mag;
    if !thrown {
      RemainderCongruent(base.Value(), modulus.Value(), k, rem.Value());
    }
  }

  lemma ModExpDone(a: nat, b: int, e: nat, m: nat)
    requires m > 0 && Congruent(a, IntPow(b, e), m) && if e == 0 then a == 1 else a < m
    ensures a == IntPow(b, e) % m <==> !(e == 0 && m == 1)
  {
    if a < m {
      DivModOf(a, m, 0, a);
    } else {
      CongruentMod(IntPow(b, e), m);
    }
  }

  lemma RemainderCongruent(b: int, m: int, k: int, r: int)
    requires m > 0 && FlooredDivision(b, m, k, r)
    ensures Congruent(r, b, m) && 0 <= r < m
  {
    DivModOf(b, m, k, r);
    DivModOf(r, m, 0, r);
  }

  method ModExpLoop(ghost b: int, ans: BigUnsigned, base2: BigUnsigned, exponent: BigUnsigned, modulus: BigUnsigned)
    requires ans.Valid() && base2.Valid() && exponent.Valid() && modulus.Valid() && modulus.Value() > 0
    requires ans != base2 && ans != modulus && ans != exponent
    requires ans.blk != base2.blk && ans.blk != modulus.blk && ans.blk != exponent.blk
    requires ans.Value() == 1 && Congruent(base2.Value(), b, modulus.Value())
    modifies ans, ans.blk
    ensures ans.Valid()
    ensures Congruent(ans.Value(), IntPow(b, exponent.Value()), modulus.Value())
    ensures if exponent.Value() == 0 then ans.Value() == 1 else ans.Value() < modulus.Value()
  {
    hide BigUnsigned.Valid, BigUnsigned.Value, BigUnsigned.GetBit, IntPow, Congruent, Pow, LeadingBits;
    ghost var e, m := exponent.Value(), modulus.Value();
    var i := exponent.BitLength();
    ghost var n := i;
    LeadingBitsEnds(e, n);
    FirstPower(b, m);
    while i > 0
      invariant 0 <= i <= n && ans.Valid() && (ans.blk == old(ans.blk) || fresh(ans.blk))
      invariant Congruent(ans.Value(), IntPow(b, LeadingBits(e, i)), m)
      invariant if i == n then ans.Value() == 1 else ans.Value() < m
    {
      i := i - 1;
      ModExpRound(b, ans, base2, exponent, modulus, i);
    }
  }

  // The round for bit i of the exponent.
  method ModExpRound(ghost b: int, ans: BigUnsigned, base2: BigUnsigned, exponent: BigUnsigned, modulus: BigUnsigned, i: nat)
    requires ans.Valid() && base2.Valid() && exponent.Valid() && modulus.Valid() && modulus.Value() > 0
    requires ans != base2 && ans != modulus && ans != exponent
    requires ans.blk != base2.blk && ans.blk != modulus.blk && ans.blk != exponent.blk
    requires Congruent(base2.Value(), b, modulus.Value())
    requires Congruent(ans.Value(), IntPow(b, LeadingBits(exponent.Value(), i + 1)), modulus.Value())
    modifies ans, ans.blk
    ensures ans.Valid() && (ans.blk == old(ans.blk) || fresh(ans.blk)) && ans.Value() < modulus.Value()
    ensures Congruent(ans.Value(), IntPow(b, LeadingBits(exponent.Value(), i)), modulus.Value())
  {
    hide BigUnsigned.Valid, BigUnsigned.Value, BigUnsigned.GetBit, IntPow, Congruent, LeadingBits, Bit;
    ghost var e, m, a := exponent.Value(), modulus.Value(), ans.Value();
    LeadingBitsStep(e, i);
    exponent.GetBitMeaning(i);
    SquareAndMultiply(ans, base2, modulus, exponent.GetBit(i));
    ModExpStep(b, base2.Value(), LeadingBits(e, i + 1), Bit(e, i), a, ans.Value(), m);
  }
}
