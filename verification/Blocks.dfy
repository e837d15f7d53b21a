/** Blocks: the fixed-width words a bigunsigned is made of, their wrap-around
    arithmetic, and the word-by-word left shift of a block sequence. */
module Blocks {
  import opened Arithmetic
  import opened Positional
  import opened Bits

  // The number of bits in a block; every width of at least 16 bits is allowed.
  type BlockWidth = n: nat | 16 <= n witness 64
  const N: BlockWidth
  const B: nat := Pow(2, N)
  type Block = x: nat | x < B witness 0

  // The number a little-endian block sequence stands for.
  function Number(s: seq<Block>): nat {
    Val(B, s)
  }

  // The weight of the block at index i.
  function P(i: nat): (p: nat)
    ensures p > 0
  {
    Pow(B, i)
  }

  lemma BaseIsLarge()
    ensures B >= 65536
  {
    PowMono(2, 16, N);
    assert Pow(2, 8) == 256;
    PowAdd(2, 8, 8);
  }

  function WrappingAdd(x: Block, y: Block): (r: Block)
    ensures r == if x + y < B then x + y else x + y - B
  {
    DivModOf(x + y, B, if x + y < B then 0 else 1, if x + y < B then x + y else x + y - B);
    (x + y) % B
  }

  function WrappingSub(x: Block, y: Block): (r: Block)
    ensures r == if y <= x then x - y else x - y + B
  {
    DivModOf(x - y, B, if y <= x then 0 else -1, if y <= x then x - y else x - y + B);
    (x - y) % B
  }

  // ---- shifting left by y < N bits ----

  // The y high bits of a block, which a left shift by y bits pushes out of it.
  function LostBits(v: Block, y: nat): nat
    requires y < N
  {
    v / Pow(2, N - y)
  }

  // What the shift leaves in the block.
  function KeptBits(v: Block, y: nat): nat
    requires y < N
  {
    v * Pow(2, y) % B
  }

  lemma ShiftParts(v: Block, y: nat)
    requires y < N
    ensures LostBits(v, y) < Pow(2, y) <= Pow(2, N)
    ensures KeptBits(v, y) == v % Pow(2, N - y) * Pow(2, y) && KeptBits(v, y) + Pow(2, y) <= B
    ensures v * Pow(2, y) == LostBits(v, y) * B + KeptBits(v, y)
  {
    PowAdd(2, N - y, y);
    PowMono(2, y, N);
    ShiftScaled(v, Pow(2, N - y), Pow(2, y));
  }

  // Block x of the number s << y.
  function ShiftedBlock(s: seq<Block>, x: nat, y: nat): (r: Block)
    requires x <= |s| && y < N
    ensures r == (if x == 0 then 0 else LostBits(s[x - 1], y)) + (if x == |s| then 0 else KeptBits(s[x], y))
  {
    var part1 := if x == 0 || y == 0 then 0 else LostBits(s[x - 1], y);
    var part2 := if x == |s| then 0 else KeptBits(s[x], y);
    ShiftedBlockIsSum(s, x, y);
    BitOr(part1, part2)
  }

  lemma ShiftedBlockIsSum(s: seq<Block>, x: nat, y: nat)
    requires x <= |s| && y < N
    ensures var lost := if x == 0 then 0 else LostBits(s[x - 1], y);
            var part1 := if x == 0 || y == 0 then 0 else lost;
            var part2 := if x == |s| then 0 else KeptBits(s[x], y);
            part1 == lost && BitOr(part1, part2) == lost + part2 < B
  {
    hide LostBits, KeptBits, BitOr;
    var lost := if x == 0 then 0 else LostBits(s[x - 1], y);
    if x > 0 { ShiftParts(s[x - 1], y); }
    assert Pow(2, 0) == 1;
    PowStrict(2, y, N);
    if x == |s| {
      BitOrZero(lost);
    } else {
      ShiftParts(s[x], y);
      BitOrDisjoint(lost, s[x] % Pow(2, N - y), y);
    }
  }

  // All blocks of s << y.
  function Shifted(s: seq<Block>, y: nat): (r: seq<Block>)
    requires y < N
    ensures |r| == |s| + 1
  {
    seq(|s| + 1, x requires 0 <= x <= |s| => ShiftedBlock(s, x, y))
  }

  lemma {:induction false} ShiftedPrefix(s: seq<Block>, y: nat, j: nat)
    requires y < N && j <= |s|
    ensures Number(Shifted(s, y)[..j]) + (if j == 0 then 0 else LostBits(s[j - 1], y) * P(j))
            == Number(s[..j]) * Pow(2, y)
  {
    hide LostBits, KeptBits;
    if j > 0 {
      var i, r := j - 1, Shifted(s, y);
      ShiftedPrefix(s, y, i);
      ValPrefix(B, r, i);
      ValPrefix(B, s, i);
      var before := if i == 0 then 0 else LostBits(s[i - 1], y);
      ShiftParts(s[i], y);
      ShiftStep(Number(r[..i]), before, Number(s[..i]), Pow(2, y), s[i], LostBits(s[i], y), KeptBits(s[i], y), P(i), P(j));
    }
  }

  lemma ShiftStep(rv: int, before: int, sv: int, k: int, d: int, lost: int, kept: int, p: int, pb: int)
    requires rv + before * p == sv * k && d * k == lost * B + kept && pb == B * p
    ensures rv + (before + kept) * p + lost * pb == (sv + d * p) * k
  {
    MulDist(before, kept, p);
    MulDist(sv, d * p, k);
    MulDist(lost * B, kept, p);
    MulAssoc(lost, B, p);
    assert d * p * k == d * k * p by { MulAssoc(d, p, k); MulAssoc(d, k, p); }
  }

  // The shifted blocks denote the number times 2^y.
  lemma ShiftedNumber(s: seq<Block>, y: nat)
    requires y < N
    ensures Number(Shifted(s, y)) == Number(s) * Pow(2, y)
  {
    hide LostBits, KeptBits;
    var r := Shifted(s, y);
    ShiftedPrefix(s, y, |s|);
    assert s[..|s|] == s && r[..|s| + 1] == r;
    ValPrefix(B, r, |s|);
  }

  // Each block by itself: block x of s << y is block x of the shifted number.
  lemma ShiftedBlockMeaning(s: seq<Block>, x: nat, y: nat)
    requires x <= |s| && y < N
    ensures ShiftedBlock(s, x, y) == Number(s) * Pow(2, y) / P(x) % B
  {
    ShiftedNumber(s, y);
    DigitAt(B, Shifted(s, y), x);
  }

  // ---- steps of the carry and borrow loops ----

  // One column of an addition: the carries are the wrap-arounds.
  lemma AddColumn(sum: int, x: int, y: int, temp: int, a: int, b: int, cin: bool, cout: bool, i: nat)
    requires sum + (if cin then P(i) else 0) == x + y
    requires temp + (if cout then B else 0) == a + b + (if cin then 1 else 0)
    ensures (sum + temp * P(i)) + (if cout then P(i + 1) else 0) == (x + a * P(i)) + (y + b * P(i))
  {
    MulDist(a, b, P(i));
    MulDist(a + b, if cin then 1 else 0, P(i));
    MulDist(temp, if cout then B else 0, P(i));
  }

  // The block of s at i, taking s to be padded with zero blocks.
  function BlockOr0(s: seq<Block>, i: nat): Block {
    if i < |s| then s[i] else 0
  }

  // The number made of the i low blocks of s, taking s to be padded with zero blocks.
  function Low(s: seq<Block>, i: nat): nat {
    if i <= |s| then Number(s[..i]) else Number(s)
  }

  lemma LowStep(s: seq<Block>, i: nat)
    ensures Low(s, i + 1) == Low(s, i) + BlockOr0(s, i) * P(i)
  {
    if i < |s| {
      NumberPrefix(s, i);
    } else {
      assert s[..|s|] == s;
    }
  }

  lemma LowAll(s: seq<Block>, i: nat)
    requires i >= |s|
    ensures Low(s, i) == Number(s)
  {
    assert s[..|s|] == s;
  }

  // r holds i blocks of x + y, with a carry out of block i - 1 if c.
  ghost predicate Sum(r: seq<Block>, x: seq<Block>, y: seq<Block>, c: bool) {
    Number(r) + (if c then P(|r|) else 0) == Low(x, |r|) + Low(y, |r|)
  }

  lemma SumStart(x: seq<Block>, y: seq<Block>, i: nat)
    requires i <= |x| && Low(y, i) == 0
    ensures Sum(x[..i], x, y, false) && Difference(x[..i], x, y, false)
  {}

  lemma SumEmpty(x: seq<Block>, y: seq<Block>)
    ensures Sum([], x, y, false) && Difference([], x, y, false)
  {
    assert x[..0] == [] && y[..0] == [];
  }

  lemma SumStep(r: seq<Block>, temp: Block, x: seq<Block>, y: seq<Block>, cin: bool, cout: bool)
    requires Sum(r, x, y, cin)
    requires temp + (if cout then B else 0) == BlockOr0(x, |r|) + BlockOr0(y, |r|) + (if cin then 1 else 0)
    ensures Sum(r + [temp], x, y, cout)
  {
    var i := |r|;
    LowStep(x, i);
    LowStep(y, i);
    assert (r + [temp])[..i] == r;
    NumberPrefix(r + [temp], i);
    assert (r + [temp])[..i + 1] == r + [temp];
    AddColumn(Number(r), Low(x, i), Low(y, i), temp, BlockOr0(x, i), BlockOr0(y, i), cin, cout, i);
  }

  // Once y is exhausted and no carry is left, the rest of x completes the sum.
  lemma SumTotal(r: seq<Block>, x: seq<Block>, y: seq<Block>)
    requires Sum(r, x, y, false) && |y| <= |r| <= |x|
    ensures Number(r + x[|r|..]) == Number(x) + Number(y)
  {
    var i := |r|;
    LowAll(y, i);
    ValConcat(B, r, x[i..]);
    ValSplit(B, x, i);
  }

  // The end of an addition, r being copied up with the rest of x: the carry makes one
  // more block, or there is none.
  lemma SumDone(r: seq<Block>, x: seq<Block>, y: seq<Block>, c: bool)
    requires Sum(r, x, y, c) && |y| <= |r| <= |x| && |x| > 0 && Canonical(x) && (|r| < |x| ==> !c)
    ensures var t := r + x[|r|..];
            if c then Number(t + [1]) == Number(x) + Number(y)
            else Number(t) == Number(x) + Number(y) && Canonical(t)
  {
    var i, t := |r|, r + x[|r|..];
    if c {
      LowAll(x, i);
      LowAll(y, i);
      assert t == r;
      NumberPrefix(t + [1], i);
      assert (t + [1])[..i] == r && (t + [1])[..i + 1] == t + [1];
    } else {
      SumTotal(r, x, y);
      TopBlock(x);
      TopBlock(t);
    }
  }

  // A carry out of all of x means the sum does not fit in |x| blocks.
  lemma SumOverflow(r: seq<Block>, x: seq<Block>, y: seq<Block>)
    requires Sum(r, x, y, true) && |y| <= |r| == |x|
    ensures Number(x) + Number(y) >= P(|x|)
  {
    LowAll(x, |r|);
    LowAll(y, |r|);
  }

  // r holds i blocks of x - y, with a borrow from block i if c.
  ghost predicate Difference(r: seq<Block>, x: seq<Block>, y: seq<Block>, c: bool) {
    Low(x, |r|) + (if c then P(|r|) else 0) == Number(r) + Low(y, |r|)
  }

  lemma DifferenceStep(r: seq<Block>, temp: Block, x: seq<Block>, y: seq<Block>, cin: bool, cout: bool)
    requires Difference(r, x, y, cin)
    requires BlockOr0(x, |r|) + (if cout then B else 0) == temp + BlockOr0(y, |r|) + (if cin then 1 else 0)
    ensures Difference(r + [temp], x, y, cout)
  {
    var i := |r|;
    LowStep(x, i);
    LowStep(y, i);
    assert (r + [temp])[..i] == r;
    NumberPrefix(r + [temp], i);
    assert (r + [temp])[..i + 1] == r + [temp];
    AddColumn(Low(x, i), Number(r), Low(y, i), BlockOr0(x, i), temp, BlockOr0(y, i), cin, cout, i);
  }

  // The end of a subtraction: a borrow is left exactly when x < y.
  lemma DifferenceDone(r: seq<Block>, x: seq<Block>, y: seq<Block>, c: bool)
    requires Difference(r, x, y, c) && |y| <= |r| <= |x| && (|r| < |x| ==> !c)
    ensures c <==> Number(x) < Number(y)
    ensures !c ==> Number(r + x[|r|..]) == Number(x) - Number(y)
  {
    var i := |r|;
    LowAll(y, i);
    ValConcat(B, r, x[i..]);
    ValSplit(B, x, i);
    NumberBound(r);
    if c { assert x[..i] == x; }
  }

  // A borrow out of the last nonzero block of x means x < y.
  lemma DifferenceFails(r: seq<Block>, x: seq<Block>, y: seq<Block>)
    requires Difference(r, x, y, true) && |y| <= |r| <= |x|
    requires forall k :: |r| <= k < |x| ==> x[k] == 0
    ensures Number(x) < Number(y)
  {
    LowAll(y, |r|);
    NumberBound(r);
    ValPad(B, x, |r|);
  }

  // The length is minimal exactly when the number reaches the weight of its top block.
  lemma TopBlock(s: seq<Block>)
    requires |s| > 0
    ensures s[|s| - 1] != 0 <==> Number(s) >= P(|s| - 1)
  {
    ValTopIff(B, s);
  }

  lemma NumberBound(s: seq<Block>)
    ensures Number(s) < P(|s|)
  {
    ValBound(B, s);
  }

  lemma NumberUpdate(s: seq<Block>, i: nat, d: Block)
    requires i < |s|
    ensures Number(s[i := d]) == Number(s) + (d - s[i]) * P(i)
  {
    ValUpdate(B, s, i, d);
  }

  // Zero blocks above index i do not count.
  lemma NumberPad(s: seq<Block>, i: nat)
    requires i <= |s| && forall k :: i <= k < |s| ==> s[k] == 0
    ensures Number(s) == Number(s[..i])
  {
    ValPad(B, s, i);
  }

  lemma NumberEmpty()
    ensures Number([]) == 0
  {}

  lemma NumberOne(s: seq<Block>)
    requires |s| == 1
    ensures Number(s) == s[0]
  {
    ValPrefix(B, s, 0);
    assert s[..1] == s && Pow(B, 0) == 1;
  }

  lemma LongIsLarge(s: seq<Block>)
    requires |s| >= 2 && Canonical(s)
    ensures Number(s) >= B
  {
    TopBlock(s);
    PowMono(B, 1, |s| - 1);
    assert Pow(B, 1) == B * Pow(B, 0) == B;
  }

  lemma NumberAppend(s: seq<Block>, d: Block)
    ensures Number(s + [d]) == Number(s) + d * P(|s|)
  {
    var t := s + [d];
    ValPrefix(B, t, |s|);
    assert t[..|s|] == s && t[..|s| + 1] == t;
  }

  lemma NumberPrefix(s: seq<Block>, i: nat)
    requires i < |s|
    ensures Number(s[..i + 1]) == Number(s[..i]) + s[i] * P(i)
  {
    ValPrefix(B, s, i);
  }

  // ---- a number taken bit by bit ----

  // s << y << (i blocks).
  function ShiftedAt(s: seq<Block>, i: nat, y: nat): (r: seq<Block>)
    requires y < N
    ensures |r| == i + |s| + 1
  {
    seq(i, _ => 0) + Shifted(s, y)
  }

  lemma ShiftedAtBlock(s: seq<Block>, i: nat, y: nat, j: nat)
    requires y < N && j <= |s|
    ensures BlockOr0(ShiftedAt(s, i, y), i + j) == ShiftedBlock(s, j, y)
  {}

  // Shifting zero left gives zero blocks only, one too many to be canonical past the first.
  lemma ShiftedZero(i: nat, y: nat)
    requires y < N
    ensures forall k :: 0 <= k < i + 1 ==> ShiftedAt([], i, y)[k] == 0
    ensures Number(ShiftedAt([], i, y)[..i]) == 0
    ensures Canonical(ShiftedAt([], i, y)[..i]) <==> i == 0
  {
    assert ShiftedBlock([], 0, y) == 0;
    ValZeros(B, ShiftedAt([], i, y)[..i]);
  }

  // So shifting zero left by one block leaves a zero that is not canonical.
  lemma ShiftedZeroExample()
    ensures !Canonical(ShiftedAt([], 1, 0)[..1]) && Number(ShiftedAt([], 1, 0)[..1]) == 0
  {
    ShiftedZero(1, 0);
  }

  lemma ShiftedAtNumber(s: seq<Block>, i: nat, y: nat)
    requires y < N
    ensures Number(ShiftedAt(s, i, y)) == Number(s) * (Pow(2, y) * P(i))
    ensures Low(ShiftedAt(s, i, y), i) == 0
  {
    var z: seq<Block> := seq(i, _ => 0);
    ValConcat(B, z, Shifted(s, y));
    ValZeros(B, z);
    ShiftedNumber(s, y);
    assert ShiftedAt(s, i, y)[..i] == z;
    MulRotate(P(i), Number(s), Pow(2, y));
  }

  // The number made of blocks below i and the y low bits of block i.
  ghost function Partial(s: seq<Block>, i: nat, y: nat): nat
    requires i < |s|
  {
    Low(s, i) + s[i] % Pow(2, y) * P(i)
  }

  lemma PartialStep(s: seq<Block>, i: nat, y: nat)
    requires i < |s|
    ensures Partial(s, i, y + 1) == Partial(s, i, y) + if Bit(s[i], y) then Pow(2, y) * P(i) else 0
  {
    LowBits(s[i], y);
    MulDist(s[i] % Pow(2, y), if Bit(s[i], y) then Pow(2, y) else 0, P(i));
  }

  lemma PartialEnds(s: seq<Block>, i: nat)
    requires i < |s|
    ensures Partial(s, i, 0) == Low(s, i) && Partial(s, i, N) == Low(s, i + 1)
  {
    assert Pow(2, 0) == 1;
    DivModOf(s[i], B, 0, s[i]);
    LowStep(s, i);
  }

  lemma PartialBound(s: seq<Block>, i: nat, y: nat)
    requires i < |s|
    ensures Partial(s, i, y) <= Number(s)
  {
    ModAtMost(s[i], Pow(2, y));
    MulMono(s[i] % Pow(2, y), s[i], P(i));
    LowStep(s, i);
    LowAtMost(s, i + 1);
  }

  lemma LowAtMost(s: seq<Block>, i: nat)
    requires i <= |s|
    ensures Low(s, i) <= Number(s)
  {
    ValSplit(B, s, i);
  }

  lemma ModAtMost(x: nat, d: nat)
    requires d > 0
    ensures x % d <= x
  {
    DivModDef(x, d);
  }

  lemma ProductBounds(s: seq<Block>, t: seq<Block>)
    ensures Number(s) * Number(t) < P(|s| + |t|)
    ensures |s| > 0 && |t| > 0 && Canonical(s) && Canonical(t)
            ==> Number(s) * Number(t) >= P(|s| + |t| - 2)
  {
    NumberBound(s);
    NumberBound(t);
    PowAdd(B, |s|, |t|);
    MulBounds(Number(s), P(|s|), Number(t), P(|t|));
    if |s| > 0 && |t| > 0 && Canonical(s) && Canonical(t) {
      TopBlock(s);
      TopBlock(t);
      PowAdd(B, |s| - 1, |t| - 1);
      MulBounds(P(|s| - 1), Number(s), P(|t| - 1), Number(t));
    }
  }

  // Adding the next shifted multiplicand keeps the product within its blocks.
  lemma MultiplyFits(x: seq<Block>, y: seq<Block>, i: nat, y2: nat)
    requires i < |x| && Bit(x[i], y2)
    ensures Partial(x, i, y2) * Number(y) + Number(y) * (Pow(2, y2) * P(i)) == Partial(x, i, y2 + 1) * Number(y)
    ensures Partial(x, i, y2 + 1) * Number(y) < P(|x| + |y|)
  {
    PartialStep(x, i, y2);
    MulDist(Partial(x, i, y2), Pow(2, y2) * P(i), Number(y));
    PartialBound(x, i, y2 + 1);
    MulMono(Partial(x, i, y2 + 1), Number(x), Number(y));
    ProductBounds(x, y);
  }

  // The quotient bits to be found: a remainder below b << (i blocks and y bits).
  ghost predicate Below(v: nat, b: nat, i: nat, y: nat) {
    v < b * (Pow(2, y) * P(i))
  }

  lemma BelowEnds(v: nat, b: nat, i: nat)
    ensures Below(v, b, i, N) <==> Below(v, b, i + 1, 0)
    ensures Below(v, b, 0, 0) <==> v < b
  {
    assert Pow(2, 0) == 1 && P(0) == 1;
  }

  // Halving the shift: what is left after one trial subtraction is below the smaller multiple.
  lemma BelowStep(v: nat, b: nat, i: nat, y: nat)
    requires Below(v, b, i, y + 1)
    ensures v >= b * (Pow(2, y) * P(i)) ==> Below(v - b * (Pow(2, y) * P(i)), b, i, y)
    ensures v < b * (Pow(2, y) * P(i)) ==> Below(v, b, i, y)
  {
    var w := Pow(2, y) * P(i);
    assert Pow(2, y + 1) * P(i) == 2 * w by { MulAssoc(2, Pow(2, y), P(i)); }
    MulAssoc(b, 2, w);
  }

  // A dividend of n blocks is below the divisor shifted past the quotient's length.
  lemma BelowStart(s: seq<Block>, t: seq<Block>)
    requires 0 < |t| <= |s| && Canonical(t)
    ensures Below(Number(s), Number(t), |s| - |t| + 1, 0)
  {
    NumberBound(s);
    TopBlock(t);
    PowAdd(B, |t| - 1, |s| - |t| + 1);
    assert Pow(2, 0) == 1;
    MulMono(P(|t| - 1), Number(t), P(|s| - |t| + 1));
  }

  // Blocks of a remainder above the shifted divisor are zero.
  lemma BelowTop(s: seq<Block>, t: seq<Block>, i: nat, y: nat)
    requires y < N && Below(Number(s), Number(t), i, y + 1) && i + |t| + 1 < |s|
    ensures s[|s| - 1] == 0
  {
    NumberBound(t);
    PowMono(2, y + 1, N);
    MulMono(Pow(2, y + 1), B, P(i));
    PowAdd(B, |t|, i + 1);
    MulBounds(Number(t), P(|t|), Pow(2, y + 1) * P(i), P(i + 1));
    PowMono(B, |t| + (i + 1), |s| - 1);
    TopBlock(s);
  }

  // The quotient has at most one leading zero block.
  lemma QuotientTop(s: seq<Block>, t: seq<Block>, q: nat, r: nat)
    requires |t| < |s| && Canonical(s) && Number(s) == q * Number(t) + r && r < Number(t)
    ensures q >= P(|s| - |t| - 1)
  {
    var n := |s| - |t| - 1;
    TopBlock(s);
    NumberBound(t);
    PowAdd(B, n, |t|);
    if q < P(n) {
      MulDist(q, 1, Number(t));
      MulMono(q + 1, P(n), Number(t));
      MulMono(Number(t), P(|t|), P(n));
    }
  }

  // Setting bit y of a quotient block whose bits up to y are still clear.
  lemma QuotientBit(qb: Block, y: nat)
    requires y < N && qb % Pow(2, y + 1) == 0
    ensures BitOr(qb, Pow(2, y)) == qb + Pow(2, y) < B
    ensures (qb + Pow(2, y)) % Pow(2, y) == 0 && qb % Pow(2, y) == 0
  {
    LowBits(qb, y);
    BitOrSets(qb, y);
    ClearBitRoom(qb, y, N);
    DivModDef(qb, Pow(2, y));
    MulDist(qb / Pow(2, y), 1, Pow(2, y));
    DivModOf(qb + Pow(2, y), Pow(2, y), qb / Pow(2, y) + 1, 0);
  }

  // ---- whole-number shifts, increment, decrement ----

  // A left shift by b bits is one by b / N blocks and b % N bits.
  lemma ShiftLeftNumber(s: seq<Block>, b: nat)
    ensures Number(ShiftedAt(s, b / N, b % N)) == Number(s) * Pow(2, b)
    ensures |s| > 0 && Canonical(s) ==> Number(s) * Pow(2, b) >= P(b / N + |s| - 1)
  {
    ShiftedAtNumber(s, b / N, b % N);
    BitWeight(b);
    if |s| > 0 && Canonical(s) {
      TopBlock(s);
      PowAdd(B, |s| - 1, b / N);
      MulMono(1, Pow(2, b % N), P(b / N));
      MulBounds(P(|s| - 1), Number(s), P(b / N), Pow(2, b));
    }
  }

  // A right shift by b bits drops the low n blocks of a left shift by y bits.
  lemma ShiftRightNumber(s: seq<Block>, b: int, n: nat, y: nat)
    requires 0 <= b && y < N && n * N == b + y && n <= |s|
    ensures Number(Shifted(s, y)[n..]) == Number(s) / Pow(2, b)
    ensures Canonical(s) && n < |s| ==> Number(s) / Pow(2, b) >= P(|s| - 1 - n)
  {
    ShiftedNumber(s, y);
    ValDivMod(B, Shifted(s, y), n);
    ShiftedWeight(b, n, y);
    ShiftCancel(Number(s), Pow(2, y), Pow(2, b));
    assert Pow(2, 0) == 1;
    if Canonical(s) && n < |s| {
      ShiftRightAtLeast(s, n, Pow(2, b), Pow(2, y));
    }
  }

  lemma ShiftedWeight(b: nat, n: nat, y: nat)
    requires n * N == b + y
    ensures P(n) == Pow(2, b) * Pow(2, y)
  {
    PowMul(2, N, n);
    PowAdd(2, b, y);
  }

  lemma ShiftRightAtLeast(s: seq<Block>, n: nat, d: nat, k: nat)
    requires Canonical(s) && n < |s| && d > 0 && k > 0 && P(n) == d * k
    ensures Number(s) / d >= P(|s| - 1 - n)
  {
    TopBlock(s);
    PowAdd(B, |s| - 1 - n, n);
    QuotientAtLeast(Number(s), d, k, P(|s| - 1 - n));
  }

  lemma ShiftCancel(v: nat, k: nat, d: nat)
    requires k > 0 && d > 0
    ensures d * k > 0 && v * k / (d * k) == v / d
  {
    DivModUnique(v * k, k, v, 0);
    DivDiv(v * k, k, d);
    assert k * d == d * k;
  }

  lemma QuotientAtLeast(v: nat, d: nat, k: nat, m: nat)
    requires d > 0 && k > 0 && v >= m * (d * k)
    ensures v / d >= m
  {
    MulMono(1, k, d);
    MulMono(d, d * k, m);
    DivModDef(v, d);
    if v / d < m {
      MulMono(v / d + 1, m, d);
      MulDist(v / d, 1, d);
    }
  }

  // A right shift past all blocks leaves nothing.
  lemma ShiftedOff(s: seq<Block>, b: int, n: nat, y: nat)
    requires 0 <= b && y < N && n * N == b + y && n > |s|
    ensures Number(s) / Pow(2, b) == 0
  {
    hide Number;
    NumberBound(s);
    PowMul(2, N, |s|);
    PastAll(|s|, b, n, y);
    PowMono(2, N * |s|, b);
    DivModOf(Number(s), Pow(2, b), 0, Number(s));
  }

  lemma PastAll(l: nat, b: int, n: nat, y: nat)
    requires y < N && n * N == b + y && n > l
    ensures N * l <= b
  {
    MulMono(l + 1, n, N);
    MulDist(l, 1, N);
  }

  // r holds the low blocks of x + 1, with a carry out if c.
  ghost predicate Successor(r: seq<Block>, x: seq<Block>, c: bool) {
    Number(r) + (if c then P(|r|) else 0) == Low(x, |r|) + 1
  }

  lemma SuccessorStep(r: seq<Block>, temp: Block, x: seq<Block>, cout: bool)
    requires |r| < |x| && Successor(r, x, true)
    requires temp + (if cout then B else 0) == x[|r|] as int + 1
    ensures Successor(r + [temp], x, cout)
  {
    var i, t := |r|, r + [temp];
    LowStep(x, i);
    NumberPrefix(t, i);
    assert t[..i] == r && t[..i + 1] == t;
    AddColumn(Number(r), Low(x, i), 1, temp, x[i], 0, true, cout, i);
  }

  lemma SuccessorDone(r: seq<Block>, x: seq<Block>, c: bool)
    requires |r| <= |x| && Successor(r, x, c) && (|r| < |x| ==> !c) && Canonical(x)
    ensures c ==> Number(r + [1]) == Number(x) + 1
    ensures !c ==> Number(r + x[|r|..]) == Number(x) + 1 && Canonical(r + x[|r|..])
    ensures c <==> Number(x) + 1 == P(|x|)
  {
    NumberBound(x);
    var i, t := |r|, r + x[|r|..];
    ValConcat(B, r, x[i..]);
    ValSplit(B, x, i);
    if c {
      assert x[..i] == x;
      NumberPrefix(r + [1], i);
      assert (r + [1])[..i] == r && (r + [1])[..i + 1] == r + [1];
    } else {
      NumberBound(t);
      if |x| > 0 {
        TopBlock(x);
        TopBlock(t);
      }
    }
  }

  // r holds the low blocks of x - 1, with a borrow if c.
  ghost predicate Predecessor(r: seq<Block>, x: seq<Block>, c: bool) {
    Low(x, |r|) + (if c then P(|r|) else 0) == Number(r) + 1
  }

  lemma SuccessorStart(x: seq<Block>)
    ensures Successor([], x, true) && Predecessor([], x, true)
  {
    assert x[..0] == [] && P(0) == 1;
  }

  lemma PredecessorStep(r: seq<Block>, temp: Block, x: seq<Block>, cout: bool)
    requires |r| < |x| && Predecessor(r, x, true)
    requires x[|r|] + (if cout then B else 0) == temp + 1
    ensures Predecessor(r + [temp], x, cout)
  {
    var i, t := |r|, r + [temp];
    LowStep(x, i);
    NumberPrefix(t, i);
    assert t[..i] == r && t[..i + 1] == t;
    AddColumn(Low(x, i), Number(r), 1, x[i], temp, 0, true, cout, i);
  }

  lemma PredecessorDone(r: seq<Block>, x: seq<Block>)
    requires |r| <= |x| && Predecessor(r, x, false) && |x| > 0 && Canonical(x)
    ensures Number(r + x[|r|..]) == Number(x) - 1
    ensures |x| > 1 ==> Number(x) - 1 >= P(|x| - 2)
  {
    ValConcat(B, r, x[|r|..]);
    ValSplit(B, x, |r|);
    if |x| > 1 {
      TopBlock(x);
      PowStrict(B, |x| - 2, |x| - 1);
    }
  }

  // A borrow cannot run past the top of a nonzero number.
  lemma PredecessorEnds(r: seq<Block>, x: seq<Block>, c: bool)
    requires |r| == |x| && Predecessor(r, x, c) && Number(x) > 0
    ensures !c
  {
    assert x[..|x|] == x;
    NumberBound(r);
  }

  // ---- bits of a number and bits of its blocks ----

  // P counts bits in units of blocks.
  lemma BitWeight(bi: nat)
    ensures Pow(2, bi) == Pow(2, bi % N) * P(bi / N)
  {
    var q, r := bi / N, bi % N;
    DivModDef(bi, N);
    PowMul(2, N, q);
    WeightOfSum(N * q, r, bi);
  }

  lemma WeightOfSum(m: nat, r: nat, bi: nat)
    requires bi == r + m
    ensures Pow(2, bi) == Pow(2, r) * Pow(2, m)
  {
    PowAdd(2, r, m);
  }

  lemma BlockOfNumber(s: seq<Block>, i: nat)
    ensures (if i < |s| then s[i] else 0) == Number(s) / P(i) % B
  {
    if i < |s| {
      DigitAt(B, s, i);
    } else {
      NumberBound(s);
      PowMono(B, |s|, i);
      DivModOf(Number(s), P(i), 0, Number(s));
    }
  }

  lemma BitOfBlock(v: nat, bi: nat)
    ensures Bit(v / P(bi / N) % B, bi % N) == Bit(v, bi)
  {
    BitWeight(bi);
    BitOfQuotient(v, P(bi / N), bi % N, bi);
  }

  lemma BitOfQuotient(v: nat, p: nat, r: nat, bi: nat)
    requires p > 0 && r < N && Pow(2, bi) == Pow(2, r) * p
    ensures Bit(v / p % B, r) == Bit(v, bi)
  {
    hide Bit;
    BitBelow(v / p, N, r);
    BitShifted(v, p, Pow(2, r), bi, r);
  }

  lemma BitShifted(v: nat, p: nat, m: nat, bi: nat, r: nat)
    requires p > 0 && m == Pow(2, r) && Pow(2, bi) == m * p
    ensures Bit(v / p, r) == Bit(v, bi)
  {
    hide Pow;
    DivDiv(v, p, m);
    assert p * m == m * p;
  }

  // The two ways set_bit masks a block.
  lemma MaskBits(block: Block, k: nat, newBit: bool)
    requires k < N
    ensures Pow(2, k) < B
    ensures var mask := Pow(2, k);
            var masked := if newBit then BitOr(block, mask) else BitAnd(block, B - 1 - mask);
            masked < B && masked == block + (if newBit then mask else 0) - (if Bit(block, k) then mask else 0)
  {
    BitOrSets(block, k);
    BitAndClears(block, k, N);
    if !Bit(block, k) {
      ClearBitRoom(block, k, N);
    }
  }

  // What that does to the number.
  lemma MaskBlock(v: nat, block: Block, masked: int, bi: nat, newBit: bool)
    requires block == v / P(bi / N) % B
    requires var mask := Pow(2, bi % N);
             masked == block + (if newBit then mask else 0) - (if Bit(block, bi % N) then mask else 0)
    ensures (masked - block) * P(bi / N)
            == (if newBit then Pow(2, bi) else 0) - (if Bit(v, bi) then Pow(2, bi) else 0)
  {
    BitOfBlock(v, bi);
    BitWeight(bi);
    MaskWeight(Pow(2, bi % N), P(bi / N), masked - block, newBit, Bit(v, bi));
  }

  lemma MaskWeight(mask: int, p: int, change: int, newBit: bool, oldBit: bool)
    requires change == (if newBit then mask else 0) - (if oldBit then mask else 0)
    ensures change * p == (if newBit then mask * p else 0) - (if oldBit then mask * p else 0)
  {
    MulDist(mask, -mask, p);
  }

  lemma {:induction false} ClearBitRoom(x: nat, k: nat, n: nat)
    requires k < n && x < Pow(2, n) && !Bit(x, k)
    ensures x + Pow(2, k) < Pow(2, n)
  {
    hide Bit;
    assert Pow(2, n) == 2 * Pow(2, n - 1);
    if k == 0 {
      assert Pow(2, 0) == 1;
      BitZeroth(x);
    } else {
      BitHalf(x, k);
      ClearBitRoom(x / 2, k - 1, n - 1);
    }
  }

  // The bit length of the top block and the number of lower blocks give the bit length.
  lemma TopBits(s: seq<Block>, t: nat, n: nat)
    requires |s| > 0 && t > 0 && n == t + (|s| - 1) * N
    requires Pow(2, t - 1) <= s[|s| - 1] < Pow(2, t)
    ensures Number(s) < Pow(2, n)
    ensures forall m: nat :: Number(s) < Pow(2, m) ==> n <= m
  {
    var h := |s| - 1;
    var w := Pow(2, N * h);
    PowMul(2, N, h);
    PowAdd(2, t, N * h);
    PowAdd(2, t - 1, N * h);
    NumberPrefix(s, h);
    assert s[..h + 1] == s;
    NumberBound(s[..h]);
    MulStrict(s[h], Pow(2, t), w);
    MulMono(Pow(2, t - 1), s[h], w);
    forall m: nat | Number(s) < Pow(2, m)
      ensures n <= m
    {
      if m <= n - 1 { PowMono(2, m, n - 1); }
    }
  }

  // Canonical block sequences that differ denote different numbers.
  lemma LengthsDiffer(s: seq<Block>, t: seq<Block>)
    requires Canonical(s) && Canonical(t) && |s| != |t|
    ensures Number(s) != Number(t)
  {
    if Number(s) == Number(t) { ValInjective(B, s, t); }
  }

  lemma BlocksDiffer(s: seq<Block>, t: seq<Block>, i: nat)
    requires i < |s| == |t| && s[i] != t[i]
    ensures Number(s) != Number(t)
  {
    if Number(s) == Number(t) { ValInjective(B, s, t); }
  }
}
