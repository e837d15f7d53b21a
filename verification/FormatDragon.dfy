/** Generating a given number of decimal digits of a binary floating-point number. */
module FormatDragon {
  import opened Arithmetic
  import opened Positional
  import opened Bigits
  import opened FmtBigints

  // ---- rounding ----

  // a / b to the nearest integer, ties to even.
  function RoundHalfEven(a: nat, b: nat): nat
    requires b > 0
  {
    var q, r := a / b, a % b;
    if 2 * r > b || (2 * r == b && q % 2 == 1) then q + 1 else q
  }

  // No integer is nearer, and in a tie the even one is taken.
  lemma RoundsToNearest(a: nat, b: nat, k: nat)
    requires b > 0
    ensures var d := RoundHalfEven(a, b);
            && 2 * d * b <= 2 * a + b && 2 * a <= 2 * d * b + b
            && (2 * k * b < 2 * a + b && 2 * a < 2 * k * b + b ==> k == d)
            && (2 * d * b == 2 * a + b || 2 * a == 2 * d * b + b ==> d % 2 == 0)
  {
    DivModDef(a, b);
    var q, r, d := a / b, a % b, RoundHalfEven(a, b);
    MulDist(q, 1, b);
    assert 2 * q * b == 2 * (q * b) && 2 * (q + 1) * b == 2 * (q * b) + 2 * b by { MulAssoc(2, q, b); MulAssoc(2, q + 1, b); }
    MulAssoc(2, k, b);
    if k < q { MulStrict(k, q, b); } else if k > q + 1 { MulStrict(q + 1, k, b); }
  }

  // Rounding depends on the quotient as a fraction only.
  lemma RoundScale(a: nat, b: nat, c: nat, d: nat)
    requires b > 0 && d > 0 && a * d == c * b
    ensures RoundHalfEven(a, b) == RoundHalfEven(c, d)
  {
    var q, r := a / b, a % b;
    DivModDef(a, b);
    var r' := c - q * d;
    assert r' * b == r * d by {
      MulDist(c, -(q * d), b);
      MulDist(r, b * q, d);
      assert q * d * b == b * q * d by { MulAssoc(q, d, b); MulRotate(b, q, d); MulAssoc(b, q, d); }
    }
    MulStrict(r, b, d);
    if r' < 0 { MulStrict(r', 0, b); MulMono(0, r, d); }
    if r' >= d { MulMono(d, r', b); }
    DivModOf(c, d, q, r');
    SameSide(r, b, r', d);
  }

  lemma SameSide(r: nat, b: nat, r': nat, d: nat)
    requires b > 0 && d > 0 && r' * b == r * d
    ensures 2 * r > b <==> 2 * r' > d
    ensures 2 * r == b <==> 2 * r' == d
  {
    MulAssoc(2, r', b);
    MulAssoc(2, r, d);
    if 2 * r > b { MulStrict(b, 2 * r, d); }
    if 2 * r < b { MulStrict(2 * r, b, d); }
    if 2 * r' > d { MulStrict(d, 2 * r', b); }
    if 2 * r' < d { MulStrict(2 * r', d, b); }
  }

  // ---- digit characters ----

  predicate AllDigits(s: string) {
    forall k :: 0 <= k < |s| ==> '0' <= s[k] <= '9'
  }

  // The overflow character stands for the digit ten while the carry is being propagated.
  const OVERFLOW: char := ('0' as int + 10) as char

  function CharDigit(c: char): nat {
    if c >= '0' then c as int - '0' as int else 0
  }

  function DigitChar(d: nat): char
    requires d <= 10
  {
    ('0' as int + d) as char
  }

  function DigitSeq(s: string): (r: seq<nat>)
    ensures |r| == |s|
  {
    seq(|s|, k requires 0 <= k < |s| => CharDigit(s[|s| - 1 - k]))
  }

  // The integer a digit string denotes.
  function Decimal(s: string): nat {
    Val(10, DigitSeq(s))
  }

  lemma DecimalAppend(s: string, c: char)
    ensures Decimal(s + [c]) == 10 * Decimal(s) + CharDigit(c)
  {
    var t := DigitSeq(s + [c]);
    ValFirst(10, t);
    assert t[1..] == DigitSeq(s);
  }

  // The characters of the digits, and the integer a string of them denotes by Horner's rule.
  lemma DecimalHorner(s: string, d: nat)
    requires d < 10
    ensures DigitChar(d) == "0123456789"[d] && Decimal("") == 0
    ensures Decimal(s + ["0123456789"[d]]) == 10 * Decimal(s) + d
  {
    hide Decimal;
    DigitTable(d);
    DecimalAppend(s, DigitChar(d));
    DecimalEmpty();
  }

  lemma DecimalEmpty()
    ensures Decimal("") == 0
  {}

  lemma DigitTable(d: nat)
    requires d < 10
    ensures DigitChar(d) == "0123456789"[d] && CharDigit(DigitChar(d)) == d
  {}

  // The character at index i of a string of digits is that digit of the integer it denotes.
  lemma DecimalAt(s: string, i: nat)
    requires AllDigits(s) && i < |s|
    ensures s[i] == "0123456789"[Decimal(s) / Pow(10, |s| - 1 - i) % 10]
  {
    hide Pow, Val;
    var t, k := DigitSeq(s), |s| - 1 - i;
    assert Digits(10, t) by { AllBelowTen(s); }
    DigitAt(10, t, k);
    assert t[k] == CharDigit(s[i]);
    CharAt(s[i]);
  }

  lemma AllBelowTen(s: string)
    requires AllDigits(s)
    ensures Digits(10, DigitSeq(s))
  {
    forall k | 0 <= k < |s|
      ensures DigitSeq(s)[k] < 10
    {
      assert DigitSeq(s)[k] == CharDigit(s[|s| - 1 - k]);
      assert s[|s| - 1 - k] <= '9';
    }
  }

  lemma CharAt(c: char)
    requires '0' <= c <= '9'
    ensures CharDigit(c) < 10 && c == "0123456789"[CharDigit(c)]
  {
    DigitTable(CharDigit(c));
  }

  // Replacing the character at index i.
  lemma DecimalUpdate(s: string, i: nat, c: char)
    requires i < |s|
    ensures Decimal(s[i := c]) == Decimal(s) + (CharDigit(c) - CharDigit(s[i])) * Pow(10, |s| - 1 - i)
  {
    hide Pow, Val, DigitSeq;
    DigitSeqUpdate(s, i, c);
    ValUpdate(10, DigitSeq(s), |s| - 1 - i, CharDigit(c));
  }

  lemma DigitSeqUpdate(s: string, i: nat, c: char)
    requires i < |s|
    ensures DigitSeq(s)[|s| - 1 - i] == CharDigit(s[i])
    ensures DigitSeq(s[i := c]) == DigitSeq(s)[|s| - 1 - i := CharDigit(c)]
  {
    hide CharDigit;
    assert DigitSeq(s[i := c]) == DigitSeq(s)[|s| - 1 - i := CharDigit(c)];
  }

  // A leading character followed by zeros.
  lemma DecimalLeading(s: string)
    requires |s| > 0 && forall k :: 0 < k < |s| ==> s[k] == '0'
    ensures Decimal(s) == CharDigit(s[0]) * Pow(10, |s| - 1)
  {
    var t := DigitSeq(s);
    forall k | 0 <= k < |s| - 1
      ensures t[k] == 0
    {
      assert t[k] == CharDigit(s[|s| - 1 - k]);
      assert s[|s| - 1 - k] == '0';
    }
    ValZeros(10, t[..|s| - 1]);
  }

  lemma DecimalBound(s: string)
    requires AllDigits(s)
    ensures Decimal(s) < Pow(10, |s|)
  {
    AllBelowTen(s);
    ValBound(10, DigitSeq(s));
  }

  // ---- the digit loop ----

  class Buffer {
    var data: string

    constructor ()
      ensures data == ""
    {
      data := "";
    }

    method TryResize(n: nat)
      modifies this
      ensures |data| == n
    {
      data := if n <= |data| then data[..n] else data + seq(n - |data|, _ => ' ');
    }

    method PushBack(c: char)
      modifies this
      ensures data == old(data) + [c]
    {
      data := data + [c];
    }
  }

  // The numerator's exponent is no bigger than the denominator's, or some power of two
  // divides the numerator only: then division finds no equal number of different exponent.
  ghost predicate Ready(numerator: Bigint, denominator: Bigint, k: nat)
    reads numerator, denominator
  {
    && numerator.Valid() && denominator.Valid() && denominator.NonzeroTop()
    && !Lifted(numerator, denominator)
    && (numerator.exp <= denominator.exp
        || (numerator.Value() % Pow(2, k) == 0 && denominator.Value() % Pow(2, k) != 0))
  }

  // One digit: the quotient, leaving the remainder in the numerator.
  method NextDigit(numerator: Bigint, denominator: Bigint, ghost k: nat) returns (digit: nat)
    requires numerator != denominator && Ready(numerator, denominator, k)
    requires numerator.Value() < 10 * denominator.Value()
    modifies numerator
    ensures Ready(numerator, denominator, k)
    ensures old(numerator.Value()) == digit * denominator.Value() + numerator.Value()
    ensures digit <= 9 && numerator.Value() < denominator.Value()
  {
    hide Num, W;
    ghost var v, d := numerator.Value(), denominator.Value();
    var overflow;
    digit, overflow := numerator.DivModAssign(denominator);
    assert !overflow by { MulMono(10, INT_LIMIT, d); }
    if digit >= 10 { MulMono(10, digit, d); }
    if digit == 0 { assert digit * d == 0; }
    QuotientZero(digit, d, v, numerator.Value());
  }

  lemma QuotientZero(q: nat, d: nat, v: nat, r: nat)
    requires v == q * d + r && r < d
    ensures q > 0 ==> v >= d
    ensures q == 0 ==> v == r
  {
    if q > 0 { MulMono(1, q, d); }
  }

  // Moves the numerator to the next digit.
  method TimesTen(numerator: Bigint, denominator: Bigint, ghost k: nat)
    requires numerator != denominator && Ready(numerator, denominator, k)
    modifies numerator
    ensures Ready(numerator, denominator, k)
    ensures numerator.Value() == 10 * old(numerator.Value())
  {
    hide Num, W;
    ghost var v := numerator.Value();
    numerator.ZeroIff();
    numerator.MultiplyBy(10);
    numerator.ZeroIff();
    if v % Pow(2, k) == 0 { MultipleOf(v, Pow(2, k)); }
  }

  lemma MultipleOf(v: nat, d: nat)
    requires d > 0 && v % d == 0
    ensures 10 * v % d == 0
  {
    DivModDef(v, d);
    MulRotate(10, d, v / d);
    MulAssoc(d, 10, v / d);
    MulAssoc(10, d, v / d);
    DivModOf(10 * v, d, 10 * (v / d), 0);
  }

  // The digits so far and the numerator make up the scaled original numerator.
  ghost predicate Generated(num: nat, den: nat, s: string, rest: nat) {
    num * Pow(10, |s|) == Decimal(s) * (10 * den) + rest
  }

  lemma GeneratedStart(num: nat, den: nat)
    ensures Generated(num, den, "", num)
  {
    assert Pow(10, 0) == 1 && Decimal("") == 0;
  }

  lemma GeneratedStep(num: nat, den: nat, s: string, rest: nat, digit: nat, rest': nat)
    requires Generated(num, den, s, rest) && digit <= 9 && rest == digit * den + rest'
    ensures Generated(num, den, s + [DigitChar(digit)], 10 * rest')
    ensures num * Pow(10, |s|) == Decimal(s + [DigitChar(digit)]) * den + rest'
  {
    DecimalAppend(s, DigitChar(digit));
    StepScalar(num, Pow(10, |s|), Decimal(s), den, digit, rest');
    assert Pow(10, |s| + 1) == 10 * Pow(10, |s|);
  }

  lemma StepScalar(num: int, p: int, v: int, den: int, digit: int, r: int)
    requires num * p == v * (10 * den) + digit * den + r
    ensures num * p == (10 * v + digit) * den + r
    ensures num * (10 * p) == (10 * v + digit) * (10 * den) + 10 * r
  {
    MulDist(10 * v, digit, den);
    MulAssoc(10, v, den);
    MulRotate(v, 10, den);
    assert v * (10 * den) == 10 * (v * den) by { MulAssoc(v, 10, den); MulAssoc(10, v, den); }
    assert num * (10 * p) == 10 * (num * p) by { MulAssoc(num, 10, p); MulAssoc(10, num, p); }
    var u := 10 * v + digit;
    assert u * (10 * den) == 10 * (u * den) by { MulAssoc(u, 10, den); MulAssoc(10, u, den); }
  }

  // The loop for all digits but the last.
  method LeadingDigits(numerator: Bigint, denominator: Bigint, numDigits: nat, buf: Buffer, ghost k: nat)
    requires numerator != denominator && Ready(numerator, denominator, k)
    requires numerator.Value() < 10 * denominator.Value()
    requires numDigits >= 1 && |buf.data| == numDigits
    modifies numerator, buf
    ensures Ready(numerator, denominator, k) && numerator.Value() < 10 * denominator.Value()
    ensures |buf.data| == numDigits && AllDigits(buf.data[..numDigits - 1])
    ensures Generated(old(numerator.Value()), denominator.Value(), buf.data[..numDigits - 1], numerator.Value())
  {
    hide Num, W, Pow, Decimal, Generated;
    ghost var num, den := numerator.Value(), denominator.Value();
    GeneratedStart(num, den);
    for i := 0 to numDigits - 1
      invariant Ready(numerator, denominator, k) && numerator.Value() < 10 * den && denominator.Value() == den
      invariant |buf.data| == numDigits && AllDigits(buf.data[..i])
      invariant Generated(num, den, buf.data[..i], numerator.Value())
    {
      ghost var s, rest := buf.data[..i], numerator.Value();
      var digit := NextDigit(numerator, denominator, k);
      GeneratedStep(num, den, s, rest, digit, numerator.Value());
      buf.data := buf.data[i := DigitChar(digit)];
      assert buf.data[..i + 1] == s + [DigitChar(digit)];
      TimesTen(numerator, denominator, k);
    }
  }

  // Rounding by the remainder and the last digit's parity.
  lemma RoundByDigit(a: nat, den: nat, v: nat, digit: nat, r: nat)
    requires r < den && a == (10 * v + digit) * den + r
    ensures var q := 10 * v + digit;
            RoundHalfEven(a, den) == if 2 * r > den || (2 * r == den && digit % 2 != 0) then q + 1 else q
  {
    DivModUnique(a, den, 10 * v + digit, r);
    DivModOf(10 * v + digit, 2, 5 * v + digit / 2, digit % 2);
  }

  // What the digits must be: the rounded integer, or a one followed by zeros with the
  // exponent one higher if rounding reaches the next power of ten.
  ghost predicate IsRounded(s: string, n: nat, d: nat, e: int, e': int) {
    && |s| == n >= 1 && AllDigits(s)
    && (d < Pow(10, n) ==> Decimal(s) == d && e' == e)
    && (d >= Pow(10, n) ==>
          d == Pow(10, n) && s[0] == '1' && (forall k :: 0 < k < n ==> s[k] == '0') && e' == e + 1)
  }

  // In either case the digits, scaled by the raise of the exponent, are the rounded integer.
  lemma RoundedValue(s: string, n: nat, d: nat, e: int, e': int)
    requires IsRounded(s, n, d, e, e')
    ensures e' >= e && Decimal(s) * Pow(10, e' - e) == d
  {
    hide Pow, Decimal;
    PowZero(10);
    PowTen(0);
    PowTen(n - 1);
    if d >= Pow(10, n) {
      DecimalLeading(s);
      assert CharDigit('1') == 1;
    }
  }

  // The same character by character, or a one, zeros and the exponent one higher.
  ghost predicate Shows(s: string, n: nat, d: nat, e: int, e': int) {
    && |s| == n >= 1
    && (d < Pow(10, n) ==>
          e' == e && forall i :: 0 <= i < n ==> s[i] == "0123456789"[d / Pow(10, n - 1 - i) % 10])
    && (d >= Pow(10, n) ==>
          d == Pow(10, n) && e' == e + 1 && s[0] == '1' && forall i :: 0 < i < n ==> s[i] == '0')
  }

  lemma RoundedShows(s: string, n: nat, d: nat, e: int, e': int)
    requires IsRounded(s, n, d, e, e')
    ensures Shows(s, n, d, e, e')
  {
    hide Pow, Decimal;
    forall i | 0 <= i < n
      ensures s[i] == "0123456789"[Decimal(s) / Pow(10, n - 1 - i) % 10]
    {
      DecimalAt(s, i);
    }
  }

  // The 9 to be rounded up becomes an overflow digit, which is carried to the left.
  method PropagateCarry(buf: Buffer, exp10: int, ghost v: nat) returns (exp10': int)
    requires |buf.data| >= 1 && AllDigits(buf.data[..|buf.data| - 1])
    requires v == 10 * Decimal(buf.data[..|buf.data| - 1]) + 10
    modifies buf
    ensures IsRounded(buf.data, old(|buf.data|), v, exp10, exp10')
  {
    hide Pow, Decimal;
    exp10' := exp10;
    var n := |buf.data|;
    ghost var s := buf.data[..n - 1];
    DecimalAppend(s, OVERFLOW);
    buf.data := buf.data[n - 1 := OVERFLOW];
    assert buf.data == s + [OVERFLOW];
    CarryLoop(buf, v);
    if buf.data[0] == OVERFLOW {
      DecimalLeading(buf.data);
      PowTen(n - 1);
      buf.data := buf.data[0 := '1'];
      exp10' := exp10' + 1;
    } else {
      DecimalBound(buf.data);
    }
  }

  lemma PowTen(n: nat)
    ensures Pow(10, n + 1) == 10 * Pow(10, n)
  {}

  method CarryLoop(buf: Buffer, ghost v: nat)
    requires |buf.data| >= 1 && Decimal(buf.data) == v
    requires AllDigits(buf.data[..|buf.data| - 1]) && buf.data[|buf.data| - 1] == OVERFLOW
    modifies buf
    ensures |buf.data| == old(|buf.data|) && Decimal(buf.data) == v
    ensures AllDigits(buf.data[1..]) && (buf.data[0] == OVERFLOW || AllDigits(buf.data))
    ensures buf.data[0] == OVERFLOW ==> forall k :: 0 < k < |buf.data| ==> buf.data[k] == '0'
  {
    hide Pow, Decimal;
    var n := |buf.data|;
    var i := n - 1;
    while i > 0 && buf.data[i] == OVERFLOW
      invariant 0 <= i < |buf.data| == n && Decimal(buf.data) == v
      invariant forall k :: 0 <= k < n && k != i ==> '0' <= buf.data[k] <= '9'
      invariant forall k :: i < k < n ==> buf.data[k] == '0'
      invariant '0' <= buf.data[i] <= OVERFLOW
    {
      ghost var s := buf.data;
      var next := (buf.data[i - 1] as int + 1) as char;
      DecimalUpdate(s, i, '0');
      DecimalUpdate(s[i := '0'], i - 1, next);
      PowTen(n - 1 - i);
      buf.data := buf.data[i := '0'];
      buf.data := buf.data[i - 1 := next];
      i := i - 1;
    }
    assert buf.data[0] == OVERFLOW ==> i == 0;
    assert forall k :: 0 <= k < n - 1 ==> buf.data[1..][k] == buf.data[k + 1];
  }

  // The fixed-digit branch for at least one digit.
  method FixedDigits(numerator: Bigint, denominator: Bigint, numDigits: nat, buf: Buffer, exp10: int, ghost k: nat)
    returns (exp10': int)
    requires numerator != denominator && Ready(numerator, denominator, k)
    requires numerator.Value() < 10 * denominator.Value() && numDigits >= 1
    modifies numerator, buf
    ensures IsRounded(buf.data, numDigits,
                      RoundHalfEven(old(numerator.Value()) * Pow(10, numDigits - 1), denominator.Value()),
                      exp10 - (numDigits - 1), exp10')
  {
    hide Num, W, Pow, Decimal, Generated, RoundHalfEven;
    ghost var num := numerator.Value();
    exp10' := exp10 - (numDigits - 1);
    buf.TryResize(numDigits);
    LeadingDigits(numerator, denominator, numDigits, buf, k);
    exp10' := LastDigit(numerator, denominator, buf, exp10', num, k);
  }

  // The last digit, rounded.
  method LastDigit(numerator: Bigint, denominator: Bigint, buf: Buffer, exp10: int, ghost num: nat, ghost k: nat)
    returns (exp10': int)
    requires numerator != denominator && Ready(numerator, denominator, k)
    requires numerator.Value() < 10 * denominator.Value()
    requires |buf.data| >= 1 && AllDigits(buf.data[..|buf.data| - 1])
    requires Generated(num, denominator.Value(), buf.data[..|buf.data| - 1], numerator.Value())
    modifies numerator, buf
    ensures IsRounded(buf.data, old(|buf.data|),
                      RoundHalfEven(num * Pow(10, old(|buf.data|) - 1), denominator.Value()), exp10, exp10')
  {
    hide Num, W, Pow, Decimal, Generated, RoundHalfEven, IsRounded;
    var n := |buf.data|;
    ghost var s, rest := buf.data[..n - 1], numerator.Value();
    var digit := NextDigit(numerator, denominator, k);
    GeneratedStep(num, denominator.Value(), s, rest, digit, numerator.Value());
    DecimalAppend(s, DigitChar(digit));
    RoundByDigit(num * Pow(10, n - 1), denominator.Value(), Decimal(s), digit, numerator.Value());
    var result := AddCompare(numerator, numerator, denominator);
    if result > 0 || (result == 0 && digit % 2 != 0) {
      if digit == 9 {
        exp10' := PropagateCarry(buf, exp10, 10 * Decimal(s) + 10);
        return;
      }
      digit := digit + 1;
    }
    exp10' := exp10;
    PutDigit(buf, digit, exp10);
  }

  method PutDigit(buf: Buffer, digit: nat, ghost e: int)
    requires |buf.data| >= 1 && AllDigits(buf.data[..|buf.data| - 1]) && digit <= 9
    modifies buf
    ensures IsRounded(buf.data, old(|buf.data|), 10 * Decimal(old(buf.data)[..old(|buf.data|) - 1]) + digit, e, e)
  {
    hide Pow, Decimal;
    var n := |buf.data|;
    ghost var s := buf.data[..n - 1];
    DecimalAppend(s, DigitChar(digit));
    buf.data := buf.data[n - 1 := DigitChar(digit)];
    assert buf.data == s + [DigitChar(digit)];
    DecimalBound(buf.data);
  }

  // The branch for no digits at all: one digit tells whether the number rounds up.
  method NoDigits(numerator: Bigint, denominator: Bigint, buf: Buffer, exp10: int, ghost k: nat) returns (exp10': int)
    requires numerator != denominator && Ready(numerator, denominator, k)
    requires numerator.Value() < 10 * denominator.Value()
    modifies denominator, buf
    ensures exp10' == exp10 + 1
    ensures buf.data == old(buf.data)
                        + [if RoundHalfEven(numerator.Value(), 10 * old(denominator.Value())) == 1 then '1' else '0']
    ensures RoundHalfEven(numerator.Value(), 10 * old(denominator.Value())) <= 1
  {
    hide Num, W, RoundHalfEven;
    exp10' := exp10 + 1;
    denominator.MultiplyBy(10);
    RoundByDigit(numerator.Value(), denominator.Value(), 0, 0, numerator.Value());
    var c := AddCompare(numerator, numerator, denominator);
    buf.PushBack(if c > 0 then '1' else '0');
  }

  // ---- setting up numerator and denominator ----

  function Max0(x: int): nat {
    if x > 0 then x else 0
  }

  // f * 2^e / 10^exp10 as a fraction of integers.
  function ScaledNumerator(f: nat, e: int, exp10: int): nat {
    f * Pow(2, Max0(e)) * Pow(10, Max0(-exp10))
  }

  function ScaledDenominator(e: int, exp10: int): (d: nat)
    ensures d > 0
  {
    Pow(2, Max0(-e)) * Pow(10, Max0(exp10))
  }

  // The integers are those of f * 2^e / 10^exp10 with each power on the side of its sign.
  lemma ScaledMeaning(f: nat, e: int, exp10: int)
    ensures e >= 0 && exp10 >= 0 ==>
              ScaledNumerator(f, e, exp10) == f * Pow(2, e) && ScaledDenominator(e, exp10) == Pow(10, exp10)
    ensures e < 0 && exp10 >= 0 ==>
              ScaledNumerator(f, e, exp10) == f && ScaledDenominator(e, exp10) == Pow(2, -e) * Pow(10, exp10)
    ensures e < 0 && exp10 < 0 ==>
              ScaledNumerator(f, e, exp10) == f * Pow(10, -exp10) && ScaledDenominator(e, exp10) == Pow(2, -e)
    ensures e >= 0 && exp10 < 0 ==>
              ScaledNumerator(f, e, exp10) == f * Pow(2, e) * Pow(10, -exp10) && ScaledDenominator(e, exp10) == 1
  {
    assert Pow(2, 0) == 1 && Pow(10, 0) == 1;
  }

  // x and y are the same fraction as f * 2^e / 10^exp10.
  ghost predicate SameFraction(x: nat, y: nat, f: nat, e: int, exp10: int) {
    x * ScaledDenominator(e, exp10) == ScaledNumerator(f, e, exp10) * y
  }

  // An odd multiple of 2^k is no multiple of 2^(k+1).
  lemma OddMultiple(m: nat, k: nat)
    requires m % 2 == 1
    ensures m * Pow(2, k) % Pow(2, k + 1) != 0
  {
    var p := Pow(2, k);
    assert m == 2 * (m / 2) + 1;
    MulDist(2 * (m / 2), 1, p);
    assert m * p == p + 2 * p * (m / 2) by { MulAssoc(2, m / 2, p); MulAssoc(2, p, m / 2); }
    DivModOf(m * p, 2 * p, m / 2, p);
  }

  lemma {:induction false} Pow5Odd(x: nat)
    ensures Pow(5, x) % 2 == 1
  {
    if x > 0 { Pow5Odd(x - 1); }
  }

  lemma PowerDivides(m: nat, k: nat, j: nat)
    requires k <= j
    ensures m * Pow(2, j) % Pow(2, k) == 0
  {
    PowAdd(2, k, j - k);
    MulRotate(m, Pow(2, k), Pow(2, j - k));
    MulRotate(Pow(2, k), m, Pow(2, j - k));
    DivModOf(m * Pow(2, j), Pow(2, k), m * Pow(2, j - k), 0);
  }

  // The branch for e >= 0: numerator f << shift << e, denominator 10^exp10 << shift.
  lemma PositiveExponentReady(f: nat, e: nat, x: nat, shift: nat)
    requires e > x
    ensures var k := x + shift + 1;
            && f * Pow(2, shift) * Pow(2, e) % Pow(2, k) == 0
            && Pow(10, x) * Pow(2, shift) % Pow(2, k) != 0
  {
    PowAdd(2, shift, e);
    MulAssoc(f, Pow(2, shift), Pow(2, e));
    PowerDivides(f, x + shift + 1, shift + e);
    PowDistributes(5, 2, x);
    PowAdd(2, x, shift);
    MulAssoc(Pow(5, x), Pow(2, x), Pow(2, shift));
    Pow5Odd(x);
    OddMultiple(Pow(5, x), x + shift);
  }

  // The branch for negative e and exp10: numerator 10^x * (f << shift), denominator 1 << y.
  lemma NegativeExponentsReady(m: nat, x: nat, y: nat)
    requires x > y
    ensures Pow(10, x) * m % Pow(2, y + 1) == 0 && 1 * Pow(2, y) % Pow(2, y + 1) != 0
  {
    PowDistributes(5, 2, x);
    assert Pow(10, x) * m == Pow(5, x) * m * Pow(2, x) by {
      MulAssoc(Pow(5, x), Pow(2, x), m);
      MulAssoc(Pow(5, x), m, Pow(2, x));
    }
    PowerDivides(Pow(5, x) * m, y + 1, x);
    OddMultiple(1, y);
  }

  // 2 * f or 4 * f: the significand shifted to make the boundaries integers.
  method Significand(f: DoubleBigit, shift: nat) returns (s: DoubleBigit)
    requires 0 < f < 0x4000_0000_0000_0000 && 1 <= shift <= 2
    ensures s == f * Pow(2, shift) && s > 0
  {
    assert Pow(2, 1) == 2 && Pow(2, 2) == 4;
    s := Wrap64(if shift == 1 then 2 * f else 4 * f);
  }

  // numerator / denominator == f * 2^e / 10^exp10.
  method SetUp(f: DoubleBigit, e: int, shift: nat, exp10: int, numerator: Bigint, denominator: Bigint)
    returns (ghost k: nat)
    requires 0 < f < 0x4000_0000_0000_0000 && 1 <= shift <= 2 && -0x4000_0000 < exp10 < 0x4000_0000
    requires e >= 0 ==> exp10 >= 0
    requires numerator != denominator
    modifies numerator, denominator
    ensures Ready(numerator, denominator, k)
    ensures SameFraction(numerator.Value(), denominator.Value(), f, e, exp10)
  {
    hide Num, W, Pow, Wrap64;
    var significand := Significand(f, shift);
    if e >= 0 {
      numerator.Assign(significand);
      numerator.ShiftLeft(e);
      denominator.AssignPow10(exp10);
      denominator.ShiftLeft(shift);
      k := exp10 + shift + 1;
      if e > exp10 { PositiveExponentReady(f, e, exp10, shift); }
      FractionPositive(f, e, exp10, shift);
    } else if exp10 < 0 {
      numerator.AssignPow10(-exp10);
      numerator.MultiplyBy64(significand);
      denominator.Assign(1);
      denominator.ShiftLeft(shift - e);
      k := shift - e + 1;
      if -exp10 > shift - e { NegativeExponentsReady(f * Pow(2, shift), -exp10, shift - e); }
      FractionNegative(f, e, exp10, shift);
    } else {
      numerator.Assign(significand);
      denominator.AssignPow10(exp10);
      denominator.ShiftLeft(shift - e);
      k := 0;
      FractionMixed(f, e, exp10, shift);
    }
  }

  lemma FractionPositive(f: nat, e: int, exp10: int, shift: nat)
    requires e >= 0 && exp10 >= 0
    ensures SameFraction(f * Pow(2, shift) * Pow(2, e), Pow(10, exp10) * Pow(2, shift), f, e, exp10)
  {
    var a, b, c := Pow(2, shift), Pow(2, e), Pow(10, exp10);
    assert Pow(2, 0) == 1 && Pow(10, 0) == 1;
    Products(f, a, b, c);
  }

  lemma Products(f: int, a: int, b: int, c: int)
    ensures f * a * b * (1 * c) == f * b * 1 * (c * a)
  {
    MulSwap(f, b, a, c);
    MulAssoc(f, a, b);
    MulSwap(f, a, b, c);
  }

  lemma FractionNegative(f: nat, e: int, exp10: int, shift: nat)
    requires e < 0 && exp10 < 0
    ensures SameFraction(Pow(10, -exp10) * (f * Pow(2, shift)), 1 * Pow(2, shift - e), f, e, exp10)
  {
    var a, b, c := Pow(2, shift), Pow(2, -e), Pow(10, -exp10);
    assert Pow(2, 0) == 1 && Pow(10, 0) == 1;
    PowAdd(2, shift, -e);
    assert c * (f * a) == f * c * a by { MulAssoc(f, c, a); MulAssoc(c, f, a); }
    MulAssoc(f * c, a, b);
  }

  lemma FractionMixed(f: nat, e: int, exp10: int, shift: nat)
    requires e < 0 && exp10 >= 0
    ensures SameFraction(f * Pow(2, shift), Pow(10, exp10) * Pow(2, shift - e), f, e, exp10)
  {
    var a, b, c := Pow(2, shift), Pow(2, -e), Pow(10, exp10);
    assert Pow(2, 0) == 1 && Pow(10, 0) == 1;
    PowAdd(2, shift, -e);
    MulAssoc(f, a, b * c);
    MulAssoc(a, b, c);
    assert c * (a * b) == a * (b * c);
  }

  // The whole fixed-digit run: the digits of f * 2^e, rounded to numDigits significant digits
  // counted from the power 10^exp10; with no digits asked for, one that tells the rounding.
  method FormatFixed(f: DoubleBigit, e: int, isPredecessorCloser: bool, numDigits: nat, buf: Buffer, exp10: int)
    returns (exp10': int)
    requires 0 < f < 0x4000_0000_0000_0000 && -0x4000_0000 < exp10 < 0x4000_0000
    requires ScaledNumerator(f, e, exp10) < 10 * ScaledDenominator(e, exp10)
    modifies buf
    ensures numDigits >= 1 ==>
              var a, b := ScaledNumerator(f, e, exp10) * Pow(10, numDigits - 1), ScaledDenominator(e, exp10);
              Shows(buf.data, numDigits, RoundHalfEven(a, b), exp10 - (numDigits - 1), exp10')
    ensures numDigits == 0 ==>
              var d := RoundHalfEven(ScaledNumerator(f, e, exp10), 10 * ScaledDenominator(e, exp10));
              d <= 1 && buf.data == old(buf.data) + ["01"[d]] && exp10' == exp10 + 1
  {
    hide Num, W, Pow, RoundHalfEven, IsRounded, Shows, ScaledNumerator, ScaledDenominator;
    var shift := if isPredecessorCloser then 2 else 1;
    ExponentSigns(f, e, exp10);
    var numerator := new Bigint();
    var denominator := new Bigint();
    ghost var k := SetUp(f, e, shift, exp10, numerator, denominator);
    denominator.ZeroIff();
    FractionFacts(numerator.Value(), denominator.Value(), f, e, exp10, if numDigits == 0 then 0 else numDigits - 1);
    if numDigits == 0 {
      exp10' := NoDigits(numerator, denominator, buf, exp10, k);
    } else {
      exp10' := FixedDigits(numerator, denominator, numDigits, buf, exp10, k);
      ghost var d := RoundHalfEven(ScaledNumerator(f, e, exp10) * Pow(10, numDigits - 1), ScaledDenominator(e, exp10));
      RoundedShows(buf.data, numDigits, d, exp10 - (numDigits - 1), exp10');
    }
  }

  // A number that is at least 1 has a nonnegative decimal exponent.
  lemma ExponentSigns(f: nat, e: int, exp10: int)
    requires f > 0 && ScaledNumerator(f, e, exp10) < 10 * ScaledDenominator(e, exp10)
    ensures e >= 0 ==> exp10 >= 0
  {
    if e >= 0 && exp10 < 0 {
      assert Pow(2, 0) == 1 && Pow(10, 0) == 1;
      MulBounds(1, f, 1, Pow(2, e));
      PowMono(10, 1, -exp10);
      assert Pow(10, 1) == 10 * Pow(10, 0);
      MulBounds(1, f * Pow(2, e), 10, Pow(10, -exp10));
    }
  }

  // Equal fractions are below ten together and round alike.
  lemma FractionFacts(x: nat, y: nat, f: nat, e: int, exp10: int, n: nat)
    requires y > 0 && SameFraction(x, y, f, e, exp10)
    requires ScaledNumerator(f, e, exp10) < 10 * ScaledDenominator(e, exp10)
    ensures x < 10 * y
    ensures RoundHalfEven(x * Pow(10, n), y)
            == RoundHalfEven(ScaledNumerator(f, e, exp10) * Pow(10, n), ScaledDenominator(e, exp10))
    ensures RoundHalfEven(x, 10 * y) == RoundHalfEven(ScaledNumerator(f, e, exp10), 10 * ScaledDenominator(e, exp10))
  {
    hide ScaledNumerator, ScaledDenominator, RoundHalfEven, Pow;
    var a, b, p := ScaledNumerator(f, e, exp10), ScaledDenominator(e, exp10), Pow(10, n);
    if x >= 10 * y {
      MulMono(10 * y, x, b);
      MulStrict(a, 10 * b, y);
      MulSwap(10, y, b, 1);
      MulSwap(10, b, y, 1);
    }
    assert x * p * b == a * p * y by {
      MulAssoc(x, p, b);
      MulAssoc(x, b, p);
      MulAssoc(a, y, p);
      MulAssoc(a, p, y);
    }
    RoundScale(x * p, y, a * p, b);
    assert x * (10 * b) == a * (10 * y) by {
      MulRotate(x, 10, b);
      MulRotate(a, 10, y);
      MulAssoc(10, x, b);
      MulAssoc(10, a, y);
    }
    RoundScale(x, 10 * y, a, 10 * b);
  }
}
