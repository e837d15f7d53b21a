/** Powers, and the laws of products and quotients that the other proofs call by name. */
module Arithmetic {

  function Pow(b: nat, e: nat): (p: nat)
    ensures b > 0 ==> p > 0
  {
    if e == 0 then 1 else b * Pow(b, e - 1)
  }

  lemma {:induction false} PowAdd(b: nat, m: nat, n: nat)
    ensures Pow(b, m + n) == Pow(b, m) * Pow(b, n)
  {
    if m == 0 {
    } else {
      PowAdd(b, m - 1, n);
      MulAssoc(b, Pow(b, m - 1), Pow(b, n));
    }
  }

  lemma {:induction false} PowMul(b: nat, m: nat, n: nat)
    ensures Pow(b, m * n) == Pow(Pow(b, m), n)
  {
    if n == 0 {
      assert m * n == 0;
    } else {
      PowMul(b, m, n - 1);
      assert m * n == m + m * (n - 1);
      PowAdd(b, m, m * (n - 1));
    }
  }

  lemma {:induction false} PowMono(b: nat, m: nat, n: nat)
    requires b >= 1 && m <= n
    ensures Pow(b, m) <= Pow(b, n)
  {
    PowAdd(b, m, n - m);
    MulMono(1, Pow(b, n - m), Pow(b, m));
  }

  lemma {:induction false} PowStrict(b: nat, m: nat, n: nat)
    requires b >= 2 && m < n
    ensures Pow(b, m) < Pow(b, n)
  {
    PowMono(b, m, n - 1);
    MulMono(2, b, Pow(b, n - 1));
  }

  lemma {:induction false} PowDistributes(a: nat, b: nat, e: nat)
    ensures Pow(a * b, e) == Pow(a, e) * Pow(b, e)
  {
    if e > 0 {
      PowDistributes(a, b, e - 1);
      var x, y := Pow(a, e - 1), Pow(b, e - 1);
      assert (a * b) * (x * y) == (a * x) * (b * y) by { MulSwap(a, b, x, y); }
    }
  }

  lemma MulSwap(a: int, b: int, x: int, y: int)
    ensures (a * b) * (x * y) == (a * x) * (b * y)
  {
    MulAssoc(a, b, x * y);
    MulAssoc(b, x, y);
    MulAssoc(x, b, y);
    MulAssoc(a, x, b * y);
    assert b * x == x * b;
  }

  lemma MulAssoc(x: int, y: int, z: int)
    ensures (x * y) * z == x * (y * z)
  {}

  lemma MulDist(x: int, y: int, z: int)
    ensures (x + y) * z == x * z + y * z
    ensures z * (x + y) == z * x + z * y
  {}

  lemma MulMono(x: int, y: int, z: int)
    requires x <= y && 0 <= z
    ensures x * z <= y * z
    ensures z * x <= z * y
  {}

  lemma MulStrict(x: int, y: int, z: int)
    requires x < y && 0 < z
    ensures x * z < y * z
    ensures x * z + z <= y * z
  {
    MulMono(x + 1, y, z);
    MulDist(x, 1, z);
  }

  lemma MulCancel(x: int, y: int, z: int)
    requires 0 < z && x * z <= y * z
    ensures x <= y
  {}

  lemma DivModUnique(x: int, d: int, q: int, r: int)
    requires 0 < d && 0 <= r < d && x == q * d + r
    ensures x / d == q && x % d == r
  {
    var q', r' := x / d, x % d;
    assert x == q' * d + r';
    if q' < q {
      MulStrict(q', q, d);
    } else if q' > q {
      MulStrict(q, q', d);
    }
  }

  lemma DivModOf(x: int, d: int, q: int, r: int)
    requires 0 < d && 0 <= r < d && x == r + d * q
    ensures x / d == q && x % d == r
  {
    DivModUnique(x, d, q, r);
  }

  lemma DivDiv(x: nat, a: nat, b: nat)
    requires 0 < a && 0 < b
    ensures a * b > 0 && x / a / b == x / (a * b)
  {
    var q, r := x / a, x % a;
    var q2, r2 := q / b, q % b;
    assert x == q2 * (a * b) + (r2 * a + r) by {
      assert x == q * a + r;
      assert q == q2 * b + r2;
      MulDist(q2 * b, r2, a);
      MulAssoc(q2, b, a);
    }
    MulMono(r2, b - 1, a);
    assert (b - 1) * a == b * a - a;
    DivModUnique(x, a * b, q2, r2 * a + r);
  }

  lemma QuotientPositive(x: nat, d: nat, q: int)
    requires 0 < d && q == x / d
    ensures q > 0 <==> d <= x
  {
    assert x == q * d + x % d;
    if q > 0 {
      MulMono(1, q, d);
    } else {
      MulMono(q, 0, d);
    }
  }

  lemma DivModDef(x: int, d: int)
    requires 0 < d
    ensures x == x % d + d * (x / d) && 0 <= x % d < d
  {}

  lemma MulBounds(u: nat, p: nat, v: nat, q: nat)
    ensures u <= p && v <= q ==> u * v <= p * q
    ensures u < p && v < q ==> u * v < p * q
  {
    if u <= p && v <= q {
      MulMono(u, p, v);
      MulMono(v, q, p);
    }
    if u < p && v < q {
      MulStrict(v, q, p);
    }
  }

  lemma MulRotate(p: int, n: int, k: int)
    ensures p * (n * k) == n * (k * p)
  {
    MulAssoc(n, k, p);
  }

  // A word of value m * k shifted left by k: the quotient by m is pushed out, the rest is kept.
  lemma ShiftScaled(v: nat, m: nat, k: nat)
    requires m > 0 && k > 0 && v < m * k
    ensures v / m < k && v * k % (m * k) == v % m * k && v % m * k + k <= m * k
    ensures v * k == v / m * (m * k) + v % m * k
  {
    var lost, kept := v / m, v % m;
    DivModDef(v, m);
    if lost >= k { MulMono(k, lost, m); }
    MulMono(kept + 1, m, k);
    MulDist(kept, 1, k);
    MulDist(lost * m, kept, k);
    MulAssoc(lost, m, k);
    DivModUnique(v * k, m * k, lost, kept * k);
  }

  function Signum(x: int): int {
    if x < 0 then -1 else if x == 0 then 0 else 1
  }

  lemma {:induction false} PowBaseMono(a: nat, b: nat, n: nat)
    requires a <= b
    ensures Pow(a, n) <= Pow(b, n)
  {
    if n > 0 {
      PowBaseMono(a, b, n - 1);
      MulBounds(a, b, Pow(a, n - 1), Pow(b, n - 1));
    }
  }
}
