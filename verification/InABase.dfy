/** Nonnegative integers as digits in a chosen base, the intermediary between numbers and
    strings, and the string conversions built on it. */
module InABase {
  import opened Arithmetic
  import opened Positional
  import opened Numerals
  import opened Blocks
  import opened BigUnsigneds

  // unsigned short: the type of digits and of bases.
  type Short = x: nat | x < 65536 witness 0

  // ---- the bound on the number of digits ----

  method BitLen(x: nat) returns (len: nat)
    ensures x < Pow(2, len) && (len > 0 ==> Pow(2, len - 1) <= x)
  {
    hide Pow;
    var y := x;
    len := 0;
    ShiftedOut(x);
    while y > 0
      invariant y == x / Pow(2, len) && (len > 0 ==> Pow(2, len - 1) <= x)
      decreases y
    {
      HalveShifted(x, len);
      y := y / 2;
      len := len + 1;
    }
    HalveShifted(x, len);
  }

  function CeilingDiv(a: nat, b: nat): (c: nat)
    requires b > 0
    ensures c * b >= a
  {
    DivModDef(a + b - 1, b);
    (a + b - 1) / b
  }

  // While something is left of x after d digits, there is room for digit d.
  lemma RoomForDigit(x: nat, rest: nat, low: nat, b: nat, d: nat, blocks: nat, bits: nat, room: nat)
    requires b >= 2 && bits >= 1 && Pow(2, bits) <= b && x < P(blocks)
    requires x == low + rest * Pow(b, d) && rest > 0
    requires room * bits >= blocks * N
    ensures d < room
  {
    hide Pow, P;
    RoomCovers(b, blocks, bits, room);
    RoomLeft(x, rest, low, Pow(b, d), Pow(b, room));
    if d >= room { PowMono(b, room, d); }
  }

  // As many digits as computed can hold any number of the given length.
  lemma RoomCovers(b: nat, blocks: nat, bits: nat, room: nat)
    requires Pow(2, bits) <= b && room * bits >= blocks * N
    ensures P(blocks) <= Pow(b, room)
  {
    hide Pow;
    PowMul(2, N, blocks);
    PowMono(2, N * blocks, bits * room);
    PowMul(2, bits, room);
    PowBaseMono(Pow(2, bits), b, room);
  }

  lemma RoomLeft(x: nat, rest: nat, low: nat, p: nat, q: nat)
    requires x == low + rest * p && rest > 0 && x < q
    ensures p < q
  {
    MulMono(1, rest, p);
  }

  class BigUnsignedInABase {
    var cap: nat
    var len: nat
    var blk: array<Short>
    var base: Short

    ghost predicate Rep()
      reads this
    {
      len <= cap == blk.Length
    }

    // Digits below the base, no leading zeros.
    ghost predicate Valid()
      reads this, blk
    {
      Rep() && Canonical(blk[..len]) && Digits(base, blk[..len])
    }

    ghost function Value(): nat
      requires Rep()
      reads this, blk
    {
      Val(base, blk[..len])
    }

    // Zero in the given base, with room for c digits.
    constructor (base: Short, c: nat)
      ensures Rep() && len == 0 && cap == c && this.base == base && fresh(blk)
    {
      this.base := base;
      cap, len, blk := c, 0, new Short[c];
    }

    method ZapLeadingZeros()
      requires Rep()
      modifies this`len
      ensures Rep() && len <= old(len) && Canonical(blk[..len]) && Value() == old(Value())
    {
      while len > 0 && blk[len - 1] == 0
        invariant Rep() && len <= old(len) && Value() == old(Value())
      {
        assert blk[..len][..len - 1] == blk[..len - 1];
        len := len - 1;
      }
    }

    // From an array of digits; throws exactly for a bad base or a digit that is too large.
    static method FromDigits(d: seq<Short>, base: Short) returns (thrown: bool, r: BigUnsignedInABase)
      ensures thrown <==> base < 2 || !Digits(base, d)
      ensures !thrown ==> r.Valid() && r.base == base && r.Value() == Val(base, d)
    {
      r := new BigUnsignedInABase(base, |d|);
      r.len := |d|;
      for i := 0 to |d|
        invariant r.Rep() && r.len == |d| && fresh(r) && fresh(r.blk) && r.base == base && r.blk[..i] == d[..i]
      {
        r.blk[i] := d[i];
      }
      if base < 2 {
        return true, r;
      }
      for i := 0 to |d|
        invariant Digits(base, d[..i])
      {
        if r.blk[i] >= base {
          return true, r;
        }
      }
      assert d[..|d|] == d && r.blk[..r.len] == d;
      r.ZapLeadingZeros();
      return false, r;
    }

    // The digits of x; throws exactly for a base below 2.
    static method FromUnsigned(x: BigUnsigned, base: Short) returns (thrown: bool, r: BigUnsignedInABase)
      requires x.Valid()
      ensures fresh(r)
      ensures thrown <==> base < 2
      ensures !thrown ==> r.Valid() && r.base == base && r.blk[..r.len] == DigitsOf(x.Value(), base)
    {
      if base < 2 {
        r := new BigUnsignedInABase(base, 0);
        return true, r;
      }
      var maxBitLenOfX := x.len * N;
      var baseLen := BitLen(base);
      BaseBits(base, baseLen);
      var minBitsPerDigit := baseLen - 1;
      var maxDigitLenOfX := CeilingDiv(maxBitLenOfX, minBitsPerDigit);
      r := new BigUnsignedInABase(base, maxDigitLenOfX);
      NumberBound(x.blk[..x.len]);
      var x2 := new BigUnsigned.Copy(x);
      r.ExtractDigits(x2, x.len, minBitsPerDigit);
      return false, r;
    }

    // The digit loop: x2 is divided down to zero.
    method ExtractDigits(x2: BigUnsigned, ghost blocks: nat, ghost bits: nat)
      requires Rep() && base >= 2 && x2.Valid() && x2.Value() < P(blocks)
      requires bits >= 1 && Pow(2, bits) <= base && cap * bits >= blocks * N
      modifies this`len, blk, x2, x2.blk
      ensures Valid() && blk[..len] == DigitsOf(old(x2.Value()), base)
    {
      hide P, Pow, DigitsOf, Val, BigUnsigned.Valid, BigUnsigned.Value;
      ghost var x := x2.Value();
      BaseIsLarge();
      var buBase := new BigUnsigned.FromBlock(base);
      var digitNum := 0;
      ExtractStart(base, x);
      while x2.len > 0
        invariant digitNum <= blk.Length && x2.Valid() && buBase.Valid() && buBase.Value() == base
        invariant fresh(buBase) && fresh(buBase.blk) && buBase.blk != x2.blk && buBase != x2
        invariant x2.blk == old(x2.blk) || fresh(x2.blk)
        invariant Extracting(blk[..digitNum], base, x2.Value(), x)
        decreases x2.Value()
      {
        x2.ZeroIffEmpty();
        ghost var rest := x2.Value();
        RoomForDigit(x, rest, Val(base, blk[..digitNum]), base, digitNum, blocks, bits, cap);
        var digit := NextDigit(x2, buBase);
        ExtractStep(blk[..digitNum], base, rest, x);
        QuotientSmaller(rest, base);
        ghost var ds := blk[..digitNum];
        blk[digitNum] := digit;
        digitNum := digitNum + 1;
        assert blk[..digitNum] == ds + [digit];
      }
      x2.ZeroIffEmpty();
      len := digitNum;
      ExtractDone(blk[..len], base, x);
    }

    // From a numeral; throws exactly for a base over 36 or a symbol that is no digit of the base.
    static method FromString(s: string, base: Short) returns (thrown: bool, r: BigUnsignedInABase)
      ensures fresh(r)
      ensures thrown <==> base > 36 || exists k :: 0 <= k < |s| && !IsSymbol(s[k], base)
      ensures !thrown ==> ValidNumeral(s, base)
      ensures !thrown ==> r.Valid() && r.base == base && r.Value() == Parsed(s, base)
    {
      hide IsSymbol, DigitOf;
      ValidNumeralMeaning(s, base);
      r := new BigUnsignedInABase(base, |s|);
      if base > 36 {
        return true, r;
      }
      r.len := |s|;
      for digitNum := 0 to |s|
        invariant r.Rep() && r.len == |s| && fresh(r) && fresh(r.blk) && r.base == base
        invariant forall k :: 0 <= k < digitNum ==> r.blk[k] == DigitOf(s[|s| - 1 - k]) < base
      {
        var known, digit := ReadSymbol(s[|s| - 1 - digitNum]);
        if !known {
          return true, r;
        }
        r.blk[digitNum] := digit;
        if r.blk[digitNum] >= base {
          return true, r;
        }
      }
      ghost var ds := r.blk[..r.len];
      assert forall k :: 0 <= k < |s| ==> ds[k] == r.blk[k];
      AllSymbolsValid(s, ds, base);
      r.ZapLeadingZeros();
      return false, r;
    }

    // The numeral; throws exactly for a base over 36.
    method ToStdString() returns (thrown: bool, s2: string)
      requires Valid()
      ensures thrown <==> base > 36
      ensures !thrown ==> s2 == if base < 2 then "0" else Printed(Value(), base)
    {
      if base > 36 {
        return true, "";
      }
      if len == 0 {
        return false, "0";
      }
      ghost var ds := blk[..len];
      ValTop(base, ds);
      DigitsOfUnique(base, ds);
      var s := new char[len];
      for symbolNumInString := 0 to len
        invariant forall k :: 0 <= k < symbolNumInString ==> s[k] == Symbol(ds[len - 1 - k])
      {
        var theDigit := blk[len - 1 - symbolNumInString];
        s[symbolNumInString] :=
          if theDigit < 10 then ('0' as int + theDigit) as char else ('A' as int + theDigit - 10) as char;
      }
      s2 := s[..];
      assert s2 == Spelled(ds);
      return false, s2;
    }

    // Horner's rule.
    method ToUnsigned() returns (ans: BigUnsigned)
      requires Rep()
      ensures fresh(ans) && fresh(ans.blk) && ans.Valid() && ans.Value() == Value()
    {
      hide BigUnsigned.Valid, BigUnsigned.Value, Val;
      BaseIsLarge();
      ans := new BigUnsigned.FromBlock(0);
      var buBase := new BigUnsigned.FromBlock(base);
      var temp := new BigUnsigned();
      var digitNum := len;
      ghost var s := blk[..len];
      HornerStart(base, s);
      while digitNum > 0
        invariant 0 <= digitNum <= len == |s| && ans.Valid() && buBase.Valid() && temp.Valid()
        invariant fresh({ans, buBase, temp, ans.blk, buBase.blk, temp.blk}) && AllApart(ans, buBase, temp)
        invariant buBase.Value() == base && ans.Value() == Val(base, s[digitNum..])
      {
        digitNum := digitNum - 1;
        HornerStep(base, s, digitNum);
        MultiplyAndAdd(ans, buBase, temp, blk[digitNum]);
      }
    }
  }

  lemma HornerStart(b: nat, s: seq<nat>)
    ensures Val(b, s[|s|..]) == 0 && s[0..] == s
  {}

  lemma HornerStep(b: nat, s: seq<nat>, i: nat)
    requires i < |s|
    ensures Val(b, s[i..]) == Val(b, s[i + 1..]) * b + s[i]
  {
    ValFirst(b, s[i..]);
    assert s[i..][1..] == s[i + 1..];
  }

  // One round of Horner's rule.
  method MultiplyAndAdd(ans: BigUnsigned, buBase: BigUnsigned, temp: BigUnsigned, digit: Block)
    requires ans.Valid() && buBase.Valid() && temp.Valid() && AllApart(ans, buBase, temp)
    modifies ans, ans.blk, temp, temp.blk
    ensures ans.Valid() && buBase.Valid() && temp.Valid() && AllApart(ans, buBase, temp)
    ensures ans.blk == old(ans.blk) || fresh(ans.blk)
    ensures temp.blk == old(temp.blk) || fresh(temp.blk)
    ensures ans.Value() == old(ans.Value()) * buBase.Value() + digit
  {
    hide BigUnsigned.Valid, BigUnsigned.Value;
    temp.Multiply(ans, buBase);
    var d := new BigUnsigned.FromBlock(digit);
    ans.Add(temp, d);
  }

  // The digit of one symbol, if it is one.
  method ReadSymbol(theSymbol: char) returns (known: bool, digit: Short)
    ensures known <==> DigitOf(theSymbol) >= 0
    ensures known ==> digit == DigitOf(theSymbol)
  {
    if '0' <= theSymbol <= '9' {
      return true, theSymbol as int - '0' as int;
    } else if 'A' <= theSymbol <= 'Z' {
      return true, theSymbol as int - 'A' as int + 10;
    } else if 'a' <= theSymbol <= 'z' {
      return true, theSymbol as int - 'a' as int + 10;
    }
    return false, 0;
  }

  lemma AllSymbolsValid(s: string, ds: seq<Short>, b: nat)
    requires |ds| == |s| && forall k :: 0 <= k < |s| ==> ds[k] == DigitOf(s[|s| - 1 - k]) < b
    ensures ValidNumeral(s, b) && ds == ReadDigits(s, b)
  {
    forall k | 0 <= k < |s|
      ensures 0 <= DigitOf(s[k]) < b
    {
      assert ds[|s| - 1 - k] == DigitOf(s[k]);
    }
  }

  lemma BaseBits(base: nat, l: nat)
    requires base >= 2 && base < Pow(2, l) && (l > 0 ==> Pow(2, l - 1) <= base)
    ensures l >= 2
  {
    assert Pow(2, 0) == 1 && Pow(2, 1) == 2;
  }

  // Takes the lowest digit off x2.
  method NextDigit(x2: BigUnsigned, buBase: BigUnsigned) returns (digit: Short)
    requires x2.Valid() && buBase.Valid() && x2 != buBase && x2.blk != buBase.blk && 0 < buBase.Value() < 65536
    modifies x2, x2.blk
    ensures x2.Valid() && (x2.blk == old(x2.blk) || fresh(x2.blk))
    ensures digit == old(x2.Value()) % buBase.Value() && x2.Value() == old(x2.Value()) / buBase.Value()
  {
    ghost var v, b := x2.Value(), buBase.Value();
    var lastDigit := new BigUnsigned.Copy(x2);
    var thrown := lastDigit.DivideWithRemainder(buBase, x2);
    DivModUnique(v, b, x2.Value(), lastDigit.Value());
    thrown, digit := lastDigit.ToUnsignedShort();
  }

  // The digits found so far and what is left to find make up x.
  ghost predicate Extracting(ds: seq<nat>, b: nat, rest: nat, x: nat) {
    && x == Val(b, ds) + rest * Pow(b, |ds|)
    && Digits(b, ds)
    && (rest == 0 ==> Canonical(ds))
  }

  lemma ExtractStart(b: nat, x: nat)
    ensures Extracting([], b, x, x)
  {}

  lemma ExtractStep(ds: seq<nat>, b: nat, rest: nat, x: nat)
    requires b >= 2 && rest > 0 && Extracting(ds, b, rest, x)
    ensures Extracting(ds + [rest % b], b, rest / b, x)
  {
    DivModDef(rest, b);
    ValAppend(b, ds, rest % b);
    ScaledQuotient(rest, rest % b, b, rest / b, Pow(b, |ds|));
    ExtractTop(ds, rest, b);
  }

  lemma ScaledQuotient(v: int, d: int, b: int, q: int, p: int)
    requires v == d + b * q
    ensures v * p == d * p + q * (b * p)
  {
    MulDist(d, b * q, p);
    MulAssoc(b, q, p);
    MulAssoc(q, b, p);
  }

  // The last digit found is not zero when nothing is left.
  lemma ExtractTop(ds: seq<nat>, rest: nat, b: nat)
    requires b >= 2 && rest > 0
    ensures rest / b == 0 ==> Canonical(ds + [rest % b])
  {
    DivModDef(rest, b);
  }

  lemma ExtractDone(ds: seq<nat>, b: nat, x: nat)
    requires b >= 2 && Extracting(ds, b, 0, x)
    ensures ds == DigitsOf(x, b) && Canonical(ds) && Digits(b, ds)
  {
    DigitsOfUnique(b, ds);
  }
}
