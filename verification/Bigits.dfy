/** Numbers as 32-bit "big digits" scaled by a power of the base, and the sums behind
    multiplication, squaring and comparison of such numbers. */
module Bigits {
  import opened Arithmetic
  import opened Positional

  const BASE: nat := 0x1_0000_0000
  const TWO64: nat := 0x1_0000_0000_0000_0000

  type Bigit = x: nat | x < BASE witness 0
  type DoubleBigit = x: nat | x < TWO64 witness 0

  // The value a 64-bit register holds of v.
  function Wrap64(v: int): (r: DoubleBigit)
    ensures 0 <= v < TWO64 ==> r == v
    ensures 0 - TWO64 <= v < 0 ==> r == v + TWO64
  {
    v % TWO64
  }

  // The number made of bigits, least significant first.
  function Num(s: seq<Bigit>): nat {
    Val(BASE, s)
  }

  // The weight of the bigit at index i.
  function W(i: nat): (w: nat)
    ensures w > 0
  {
    Pow(BASE, i)
  }

  lemma WStep(i: nat)
    ensures W(i + 1) == BASE * W(i) && W(0) == 1
  {}

  lemma WAdd(i: nat, j: nat)
    ensures W(i + j) == W(i) * W(j)
  {
    PowAdd(BASE, i, j);
  }

  lemma WMono(i: nat, j: nat)
    ensures i <= j ==> W(i) <= W(j)
  {
    if i <= j { PowMono(BASE, i, j); }
  }

  lemma BaseIsPower()
    ensures BASE == Pow(2, 32)
  {
    assert Pow(2, 8) == 256;
    PowAdd(2, 8, 8);
    PowAdd(2, 16, 16);
  }

  lemma NumAppend(s: seq<Bigit>, d: Bigit)
    ensures Num(s + [d]) == Num(s) + d * W(|s|)
  {
    ValAppend(BASE, s, d);
  }

  lemma NumEmpty()
    ensures Num([]) == 0
  {}

  lemma NumPrefix(s: seq<Bigit>, i: nat)
    requires i < |s|
    ensures Num(s[..i + 1]) == Num(s[..i]) + s[i] * W(i)
  {
    ValPrefix(BASE, s, i);
  }

  lemma NumSplit(s: seq<Bigit>, i: nat)
    requires i <= |s|
    ensures Num(s) == Num(s[..i]) + W(i) * Num(s[i..])
  {
    ValSplit(BASE, s, i);
  }

  lemma NumBound(s: seq<Bigit>)
    ensures Num(s) < W(|s|)
  {
    ValBound(BASE, s);
  }

  lemma NumTop(s: seq<Bigit>)
    requires |s| > 0
    ensures s[|s| - 1] != 0 <==> Num(s) >= W(|s| - 1)
  {
    ValTopIff(BASE, s);
  }

  // ---- carries ----

  // r holds the low bigits of a number v, of which carry times the next weight is left.
  ghost predicate Carried(r: seq<Bigit>, carry: nat, v: nat) {
    Num(r) + carry * W(|r|) == v
  }

  // A column of value d + BASE * carry' on top of what was carried into it.
  lemma CarriedStep(r: seq<Bigit>, carry: nat, v: nat, d: Bigit, carry': nat, column: nat)
    requires Carried(r, carry, v) && carry + column == d + BASE * carry'
    ensures Carried(r + [d], carry', v + column * W(|r|))
  {
    var w := W(|r|);
    NumAppend(r, d);
    MulDist(carry, column, w);
    MulDist(d, BASE * carry', w);
    MulAssoc(BASE, carry', w);
    MulRotate(carry', BASE, w);
    WStep(|r|);
    assert BASE * (carry' * w) == carry' * (BASE * w) by { MulAssoc(BASE, carry', w); MulAssoc(carry', BASE, w); }
  }

  // A carry that is itself a bigit completes the number.
  lemma CarriedDone(r: seq<Bigit>, carry: nat, v: nat)
    requires Carried(r, carry, v)
    ensures carry == 0 ==> Num(r) == v
    ensures carry < BASE ==> Num(r + [carry]) == v
  {
    if carry < BASE { NumAppend(r, carry); }
  }

  // Multiplying bigit by bigit: the prefix products.
  lemma ProductPrefix(s: seq<Bigit>, i: nat, k: nat)
    requires i < |s|
    ensures Num(s[..i + 1]) * k == Num(s[..i]) * k + s[i] * k * W(i)
  {
    NumPrefix(s, i);
    MulDist(Num(s[..i]), s[i] * W(i), k);
    assert s[i] * W(i) * k == s[i] * k * W(i) by { MulAssoc(s[i], W(i), k); MulAssoc(s[i], k, W(i)); }
  }

  // The 64-bit intermediate results of multiplication by a 32-bit factor do not overflow.
  lemma Fits32(x: Bigit, k: Bigit, carry: Bigit)
    ensures x * k + carry < TWO64 && (x * k + carry) / BASE < BASE
  {
    MulBounds(x, BASE - 1, k, BASE - 1);
  }

  // The two 64-bit results in a column of multiplication by a 64-bit factor.
  function LowResult(x: Bigit, k: DoubleBigit, carry: DoubleBigit): DoubleBigit {
    Wrap64(x * (k % BASE) + carry % BASE)
  }

  function HighResult(x: Bigit, k: DoubleBigit, carry: DoubleBigit, low: DoubleBigit): DoubleBigit {
    Wrap64(x * (k / BASE) + low / BASE + carry / BASE)
  }

  // They do not overflow either: the bound is met exactly.
  lemma Fits64(x: Bigit, k: DoubleBigit, carry: DoubleBigit)
    ensures var low := LowResult(x, k, carry);
            && low == x * (k % BASE) + carry % BASE
            && HighResult(x, k, carry, low) == x * (k / BASE) + low / BASE + carry / BASE
            && x * k + carry == low % BASE + BASE * HighResult(x, k, carry, low)
  {
    hide Wrap64;
    SplitProduct(x, k % BASE, k / BASE);
    Column64(x * (k % BASE), x * (k / BASE), carry);
    assert k == k % BASE + BASE * (k / BASE);
  }

  lemma SplitProduct(x: Bigit, lower: Bigit, upper: Bigit)
    ensures x * (lower + BASE * upper) == x * lower + BASE * (x * upper)
    ensures x * lower <= (BASE - 1) * (BASE - 1) && x * upper <= (BASE - 1) * (BASE - 1)
  {
    MulBounds(x, BASE - 1, lower, BASE - 1);
    MulBounds(x, BASE - 1, upper, BASE - 1);
    MulDist(lower, BASE * upper, x);
    MulRotate(x, BASE, upper);
    MulRotate(BASE, x, upper);
  }

  lemma Column64(p: nat, q: nat, carry: DoubleBigit)
    requires p <= (BASE - 1) * (BASE - 1) && q <= (BASE - 1) * (BASE - 1)
    ensures var low := p + carry % BASE;
            var high := q + low / BASE + carry / BASE;
            low < TWO64 && high < TWO64 && p + BASE * q + carry == low % BASE + BASE * high
  {}

  // Shifting a bigit left by k < 32 bits: what is pushed out, and what is kept with the carry in.
  lemma ShiftBigit(x: Bigit, k: nat, carry: nat)
    requires 0 < k < 32 && carry < Pow(2, k)
    ensures Pow(2, 32 - k) > 0 && Pow(2, k) <= BASE
    ensures var c := x / Pow(2, 32 - k);
            var kept := x * Pow(2, k) % BASE + carry;
            c < Pow(2, k) && kept < BASE && x * Pow(2, k) + carry == kept + BASE * c
  {
    BaseIsPower();
    PowAdd(2, 32 - k, k);
    ShiftScaled(x, Pow(2, 32 - k), Pow(2, k));
  }

  // A shift by n bits is one by n / 32 bigits and n % 32 bits.
  lemma ShiftWeight(v: nat, n: nat, e: nat)
    ensures v * Pow(2, n % 32) * W(e + n / 32) == v * W(e) * Pow(2, n)
  {
    BaseIsPower();
    PowAdd(2, n % 32, 32 * (n / 32));
    PowMul(2, 32, n / 32);
    WAdd(e, n / 32);
    var a, b, c := Pow(2, n % 32), W(e), W(n / 32);
    MulSwap(v, a, b, c);
  }

  // ---- borrows ----

  // r holds the low bigits of x - y, with a borrow from the next bigit if b is 1.
  ghost predicate Borrowed(r: seq<Bigit>, b: nat, x: int, y: int) {
    x + b * W(|r|) == Num(r) + y
  }

  lemma BorrowedStep(r: seq<Bigit>, b: nat, x: int, y: int, d: Bigit, b': nat, xd: int, yd: int)
    requires Borrowed(r, b, x, y) && xd + BASE * b' == d + yd + b
    ensures Borrowed(r + [d], b', x + xd * W(|r|), y + yd * W(|r|))
  {
    var w := W(|r|);
    NumAppend(r, d);
    WStep(|r|);
    MulDist(xd, BASE * b', w);
    MulDist(d + yd, b, w);
    MulDist(d, yd, w);
    assert BASE * b' * w == b' * (BASE * w) by { MulAssoc(BASE, b', w); MulAssoc(b', BASE, w); }
  }

  // One 64-bit subtraction of bigits: the top bit of the wrapped result is the borrow.
  lemma WrappedDifference(x: Bigit, y: Bigit, b: nat)
    requires b <= 1
    ensures var result := Wrap64(x - y - b);
            var d, b' := result % BASE, result / (TWO64 / 2);
            b' <= 1 && d == x - y - b + BASE * b'
  {
    hide Wrap64;
  }

  // A number in three parts: below off, the segment up to m, and the rest.
  lemma SegmentNumber(s: seq<Bigit>, off: nat, m: nat)
    requires off <= m <= |s|
    ensures Num(s) == Num(s[..off]) + W(off) * (Num(s[off..m]) + W(m - off) * Num(s[m..]))
  {
    NumSplit(s, off);
    NumSplit(s[off..], m - off);
    assert s[off..][..m - off] == s[off..m] && s[off..][m - off..] == s[m..];
  }

  // The segment of s aligned with t is smaller than t, and the bigit above it is zero.
  ghost predicate SkipsBorrow(s: seq<Bigit>, off: nat, t: seq<Bigit>) {
    off + |t| < |s| && Num(s[off..off + |t|]) < Num(t) && s[off + |t|] == 0
  }

  // 2^64 - 1 is a subtraction whose borrow has to pass a zero bigit.
  lemma SkippedBorrowExample()
    ensures SkipsBorrow([0, 0, 1], 0, [1]) && Num([0, 0, 1]) > Num([1]) * W(0)
  {
    WStep(0);
    WStep(1);
    NumDigit(0);
    NumDigit(1);
    NumAppend([0], 0);
    NumAppend([0, 0], 1);
    assert [0] + [0] == [0, 0] && [0, 0] + [1] == [0, 0, 1];
    assert [0, 0, 1][0..1] == [0];
  }

  lemma NumDigit(d: Bigit)
    ensures Num([d]) == d
  {
    NumEmpty();
    WStep(0);
    NumAppend([], d);
    assert [] + [d] == [d];
  }

  // What a comparison goes by: the number of bigits in all, then the value, then the exponent,
  // the smaller one being greater.
  ghost function Order(s: seq<Bigit>, e: nat, t: seq<Bigit>, e': nat): int {
    var v, v' := Num(s) * W(e), Num(t) * W(e');
    if |s| + e != |t| + e' then Signum(|s| + e - (|t| + e')) else if v != v' then Signum(v - v') else Signum(e' - e)
  }

  // The same number with and without a low zero bigit: the order is not numerical.
  lemma EqualValuesExample()
    ensures Num([0, 1]) * W(0) == Num([1]) * W(1) && Order([0, 1], 0, [1], 1) == 1
  {
    WStep(0);
    NumDigit(0);
    NumDigit(1);
    NumAppend([0], 1);
    assert [0] + [1] == [0, 1];
  }

  // Nor is it for zero shifted left by 32 bits and one.
  lemma LiftedZeroExample()
    ensures Num([0]) * W(1) < Num([1]) * W(0) && Order([0], 1, [1], 0) == 1
  {
    WStep(0);
    NumDigit(0);
    NumDigit(1);
  }

  // A borrow is left exactly if the segment is smaller, and then there is a bigit above it.
  lemma BorrowLeft(r: seq<Bigit>, b: nat, s: seq<Bigit>, off: nat, t: seq<Bigit>)
    requires off + |t| <= |s| && |r| == |t| && b <= 1 && (off + |t| < |s| || Num(s) >= Num(t) * W(off))
    requires Borrowed(r, b, Num(s[off..off + |t|]), Num(t))
    ensures b == 1 <==> Num(s[off..off + |t|]) < Num(t)
    ensures b == 1 ==> off + |t| < |s|
  {
    hide Num, W;
    NumBound(r);
    if b == 1 && off + |t| == |s| {
      SegmentNumber(s, off, |s|);
      NumBound(s[..off]);
      NumEmpty();
      assert s[|s|..] == [] && W(|t|) * Num([]) == 0;
      MulStrict(Num(s[off..|s|]), Num(t), W(off));
    }
  }

  // When the bigit above the segment is the last one, no borrow is skipped.
  lemma OneMoreBigit(s: seq<Bigit>, off: nat, t: seq<Bigit>)
    requires Num(s) >= Num(t) * W(off) && |s| <= off + |t| + 1
    ensures !SkipsBorrow(s, off, t)
  {
    var m := off + |t|;
    hide Num, W;
    if SkipsBorrow(s, off, t) {
      SegmentNumber(s, off, m);
      NumBound(s[..off]);
      NumEmpty();
      NumAppend([], 0);
      assert s[m..] == [] + [0] && W(|t|) * 0 == 0;
      MulStrict(Num(s[off..m]), Num(t), W(off));
    }
  }

  // The result of replacing the segment by r and passing the borrow b on to the bigits above.
  lemma SubtractedNumber(s: seq<Bigit>, off: nat, t: seq<Bigit>, r: seq<Bigit>, b: nat, high: seq<Bigit>, high': int)
    requires off + |t| <= |s| && |r| == |t| && b <= 1
    requires Borrowed(r, b, Num(s[off..off + |t|]), Num(t))
    requires Num(high) == Num(s[off + |t|..]) + high'
    ensures Num(s[..off] + r + high) == Num(s) - W(off) * Num(t) + W(off + |t|) * (high' + b)
  {
    var m, u := off + |t|, s[..off] + r + high;
    SegmentNumber(s, off, m);
    SegmentNumber(u, off, m);
    assert u[..off] == s[..off] && u[off..m] == r && u[m..] == high;
    WAdd(off, |t|);
    SubtractedScalar(W(off), W(|t|), Num(s[off..m]), Num(s[m..]), Num(r), Num(t), b, high');
  }

  lemma SubtractedScalar(w: int, n: int, seg: int, c: int, r: int, t: int, b: int, h: int)
    requires seg + b * n == r + t
    ensures w * (r + n * (c + h)) == w * (seg + n * c) - w * t + w * n * (h + b)
  {
    MulDist(c, h, n);
    MulDist(h, b, n);
    MulDist(seg + n * c, n * (h + b) - t, w);
    MulDist(n * (h + b), -t, w);
    MulAssoc(w, n, h + b);
    assert r + n * (c + h) == (seg + n * c) + (n * (h + b) - t);
  }

  // What the borrow loop leaves above the segment.
  lemma HighAfterBorrow(c: seq<Bigit>)
    requires |c| > 0
    ensures c[0] > 0 ==> Num(c[0 := c[0] - 1]) == Num(c) - 1
    ensures c[0] == 0 ==> Num(c[0 := BASE - 2]) == Num(c) + BASE - 2
  {
    WStep(0);
    if c[0] > 0 {
      ValUpdate(BASE, c, 0, c[0] - 1);
    } else {
      ValUpdate(BASE, c, 0, BASE - 2);
    }
  }

  // ---- numbers seen from the top ----

  // The bigit at absolute position i of s scaled by W(e).
  function At(s: seq<Bigit>, e: nat, i: nat): Bigit {
    if e <= i < e + |s| then s[i - e] else 0
  }

  // The number made of the bigits at absolute positions i and up.
  ghost function Hi(s: seq<Bigit>, e: nat, i: nat): nat {
    if i >= e + |s| then 0 else if i >= e then Num(s[i - e..]) else Num(s) * W(e - i)
  }

  lemma HiStep(s: seq<Bigit>, e: nat, i: nat)
    ensures Hi(s, e, i) == BASE * Hi(s, e, i + 1) + At(s, e, i)
  {
    if e <= i < e + |s| {
      ValFirst(BASE, s[i - e..]);
      assert s[i - e..][1..] == s[i + 1 - e..];
      if i + 1 == e + |s| { NumEmpty(); }
    } else if i < e {
      WStep(e - i - 1);
      MulRotate(BASE, Num(s), W(e - i - 1));
      assert s[0..] == s;
      HiFull(s, e);
      assert Num(s) * (W(e - i - 1) * BASE) == Num(s) * W(e - i);
    }
  }

  // At the exponent itself, the whole number.
  lemma HiFull(s: seq<Bigit>, e: nat)
    ensures Hi(s, e, e) == Num(s) == Num(s) * W(0)
  {
    NumEmpty();
    assert s[0..] == s;
    if |s| == 0 { assert s == []; }
    WStep(0);
  }

  // The bigits from i up determine the number up to the weight of position i.
  lemma HiBounds(s: seq<Bigit>, e: nat, i: nat)
    ensures Hi(s, e, i) * W(i) <= Num(s) * W(e) < (Hi(s, e, i) + 1) * W(i)
    ensures i <= e ==> Hi(s, e, i) * W(i) == Num(s) * W(e)
  {
    hide Num, W;
    MulDist(Hi(s, e, i), 1, W(i));
    if i >= e + |s| {
      NumBound(s);
      WAdd(|s|, e);
      MulStrict(Num(s), W(|s|), W(e));
      WMono(|s| + e, i);
    } else if i >= e {
      var k := i - e;
      NumSplit(s, k);
      NumBound(s[..k]);
      WAdd(k, e);
      HiScalar(Num(s), Num(s[..k]), W(k), Num(s[k..]), W(e));
      if i == e { assert s[..0] == [] && s[0..] == s; HiFull(s, e); NumEmpty(); }
    } else {
      WAdd(e - i, i);
      MulAssoc(Num(s), W(e - i), W(i));
    }
  }

  lemma HiScalar(v: int, lo: int, w: int, hi: int, x: int)
    requires v == lo + w * hi && 0 <= lo < w && x > 0
    ensures hi * (w * x) <= v * x < hi * (w * x) + w * x
    ensures lo == 0 ==> v * x == hi * (w * x)
  {
    MulDist(lo, w * hi, x);
    MulAssoc(hi, w, x);
    MulStrict(lo, w, x);
    MulMono(0, lo, x);
  }

  // A higher part that is larger, or larger by two, decides.
  lemma HiDecides(a: nat, b: nat, w: nat, x: int, y: int)
    requires a * w <= x && y < (b + 1) * w && a > b
    ensures x > y
  {
    MulMono(b + 1, a, w);
  }

  // A number with more bigits in all is larger if its top is nonzero.
  lemma MoreBigits(s: seq<Bigit>, e: nat, t: seq<Bigit>, e': nat)
    requires |s| >= 1 && s[|s| - 1] != 0 && |s| + e > |t| + e'
    ensures Num(s) * W(e) >= W(|s| + e - 1) && Num(s) * W(e) > Num(t) * W(e')
  {
    hide Num, W;
    NumTop(s);
    NumBound(t);
    WAdd(|s| - 1, e);
    WAdd(|t|, e');
    WMono(|t| + e', |s| - 1 + e);
    MulMono(W(|s| - 1), Num(s), W(e));
    MulStrict(Num(t), W(|t|), W(e'));
  }

  // ---- squaring by convolution ----

  // The bigit at index t, zero beyond the top.
  function D(s: seq<Bigit>, t: int): Bigit {
    if 0 <= t < |s| then s[t] else 0
  }

  // The first r terms of column k of s * s: the products of bigits whose indices add up to k.
  function Column(s: seq<Bigit>, k: nat, r: nat): nat {
    if r == 0 then 0 else Column(s, k, r - 1) + D(s, r - 1) * D(s, k - (r - 1))
  }

  // Columns 0 to m - 1, each with its first r terms, put together.
  ghost function Columns(s: seq<Bigit>, r: nat, m: nat): nat {
    if m == 0 then 0 else Columns(s, r, m - 1) + Column(s, m - 1, r) * W(m - 1)
  }

  // The number made of the i low bigits.
  ghost function LowNum(s: seq<Bigit>, i: int): nat {
    if i <= 0 then 0 else if i <= |s| then Num(s[..i]) else Num(s)
  }

  lemma LowNumStep(s: seq<Bigit>, i: nat)
    ensures LowNum(s, i + 1) == LowNum(s, i) + D(s, i) * W(i)
  {
    if i < |s| {
      NumPrefix(s, i);
      if i == 0 { assert s[..0] == []; NumEmpty(); }
    } else {
      assert s[..|s|] == s;
      if |s| == 0 { NumEmpty(); }
    }
  }

  // Adding term r to every column adds bigit r times the whole number.
  lemma {:induction false} ColumnsRow(s: seq<Bigit>, r: nat, m: nat)
    ensures Columns(s, r + 1, m) == Columns(s, r, m) + D(s, r) * W(r) * LowNum(s, m - r)
  {
    hide W, LowNum, D, Num;
    if m == 0 {
      LowNumNone(s, m - r);
    } else {
      var k := m - 1;
      ColumnsRow(s, r, k);
      RowInColumn(s, r, k);
      MulDist(Column(s, k, r), D(s, r) as int * D(s, k - r) as int, W(k));
    }
  }

  // What term r adds to column k.
  lemma RowInColumn(s: seq<Bigit>, r: nat, k: nat)
    ensures D(s, r) * W(r) * LowNum(s, k + 1 - r)
            == D(s, r) * W(r) * LowNum(s, k - r) + D(s, r) as int * D(s, k - r) as int * W(k)
  {
    hide W, LowNum, Num;
    if k >= r {
      LowNumStep(s, k - r);
      WAdd(r, k - r);
      RowTerm(D(s, r), W(r), LowNum(s, k - r), D(s, k - r), W(k - r));
    } else {
      LowNumNone(s, k - r);
      LowNumNone(s, k + 1 - r);
    }
  }

  lemma LowNumNone(s: seq<Bigit>, i: int)
    ensures i <= 0 ==> LowNum(s, i) == 0
  {}

  lemma RowTerm(x: int, w: int, low: int, y: int, v: int)
    ensures x * w * (low + y * v) == x * w * low + x * y * (w * v)
  {
    MulDist(low, y * v, x * w);
    MulSwap(x, w, y, v);
  }

  // All the columns put together are the square.
  lemma {:induction false} ColumnsSquare(s: seq<Bigit>, r: nat)
    requires r <= |s|
    ensures Columns(s, r, 2 * |s|) == LowNum(s, r) * Num(s)
  {
    if r == 0 {
      ColumnsEmpty(s, 2 * |s|);
    } else {
      ColumnsSquare(s, r - 1);
      ColumnsRow(s, r - 1, 2 * |s|);
      LowNumStep(s, r - 1);
      assert s[..|s|] == s;
      MulDist(LowNum(s, r - 1), D(s, r - 1) * W(r - 1), Num(s));
    }
  }

  lemma {:induction false} ColumnsEmpty(s: seq<Bigit>, m: nat)
    ensures Columns(s, 0, m) == 0
  {
    if m > 0 { ColumnsEmpty(s, m - 1); }
  }

  // A column has no terms beyond its own index, nor beyond the top bigit.
  lemma {:induction false} ColumnFull(s: seq<Bigit>, k: nat, r: nat, r': nat)
    requires r <= r' && (r > k || r >= |s|)
    ensures Column(s, k, r) == Column(s, k, r')
  {
    if r < r' { ColumnFull(s, k, r, r' - 1); }
  }

  // The terms below k - |s| + 1 of a high column are zero.
  lemma {:induction false} ColumnSkips(s: seq<Bigit>, k: nat, r: nat)
    requires r + |s| <= k + 1
    ensures Column(s, k, r) == 0
  {
    if r > 0 { ColumnSkips(s, k, r - 1); }
  }

  lemma {:induction false} ColumnBound(s: seq<Bigit>, k: nat, r: nat)
    ensures Column(s, k, r) <= r * ((BASE - 1) * (BASE - 1))
  {
    if r > 0 {
      ColumnBound(s, k, r - 1);
      MulBounds(D(s, r - 1), BASE - 1, D(s, k - (r - 1)), BASE - 1);
    }
  }

  // A column and what is carried into it fit a 128-bit accumulator, and the carry stays small.
  lemma ColumnFits(s: seq<Bigit>, k: nat, r: nat, carry: nat)
    requires r <= |s| < 0x4000_0000 && carry <= |s| * BASE
    ensures carry + Column(s, k, r) < TWO64 * TWO64
    ensures (carry + Column(s, k, r)) / BASE <= |s| * BASE
  {
    ColumnBound(s, k, r);
    MulMono(r, |s|, (BASE - 1) * (BASE - 1));
  }

  // Squaring leaves no carry past the last column.
  lemma SquareDone(r: seq<Bigit>, carry: nat, s: seq<Bigit>)
    requires |r| == 2 * |s| && Carried(r, carry, Columns(s, |s|, 2 * |s|))
    ensures carry == 0 && Num(r) == Num(s) * Num(s)
  {
    hide W;
    ColumnsSquare(s, |s|);
    assert s[..|s|] == s;
    assert LowNum(s, |s|) == Num(s) by { if |s| == 0 { NumEmpty(); } }
    NumBound(s);
    WAdd(|s|, |s|);
    MulBounds(Num(s), W(|s|), Num(s), W(|s|));
    if carry >= 1 { MulMono(1, carry, W(|r|)); }
  }
}
