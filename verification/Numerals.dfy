/** Numbers written with digits: the digit sequence of a number in a base, and its
    printed form with the symbols 0-9, A-Z. */
module Numerals {
  import opened Arithmetic
  import opened Positional

  // The digits of v in base b, least significant first, without leading zeros.
  function DigitsOf(v: nat, b: nat): seq<nat>
    requires b >= 2
  {
    if v == 0 then []
    else QuotientSmaller(v, b); [v % b] + DigitsOf(v / b, b)
  }

  lemma QuotientSmaller(v: nat, b: nat)
    requires b >= 2 && v > 0
    ensures v / b < v
  {
    DivModDef(v, b);
    if v / b >= v { MulMono(2, b, v / b); }
  }

  lemma {:induction false} DigitsOfCorrect(v: nat, b: nat)
    requires b >= 2
    ensures Val(b, DigitsOf(v, b)) == v && Digits(b, DigitsOf(v, b)) && Canonical(DigitsOf(v, b))
  {
    if v > 0 {
      QuotientSmaller(v, b);
      DigitsOfCorrect(v / b, b);
      var s := DigitsOf(v, b);
      ValFirst(b, s);
      assert s[1..] == DigitsOf(v / b, b);
      DivModDef(v, b);
    }
  }

  // Any canonical digit sequence is the one of its number.
  lemma DigitsOfUnique(b: nat, s: seq<nat>)
    requires b >= 2 && Digits(b, s) && Canonical(s)
    ensures s == DigitsOf(Val(b, s), b)
  {
    DigitsOfCorrect(Val(b, s), b);
    ValInjective(b, s, DigitsOf(Val(b, s), b));
  }

  // ---- symbols ----

  function Symbol(d: nat): char
    requires d < 36
  {
    if d < 10 then ('0' as int + d) as char else ('A' as int + d - 10) as char
  }

  // The digit a symbol stands for, upper or lower case, or -1.
  function DigitOf(c: char): int {
    if '0' <= c <= '9' then c as int - '0' as int
    else if 'A' <= c <= 'Z' then c as int - 'A' as int + 10
    else if 'a' <= c <= 'z' then c as int - 'a' as int + 10
    else -1
  }

  // The symbols in upper and lower case.
  lemma SymbolTable(d: nat)
    requires d < 36
    ensures Symbol(d) == "0123456789ABCDEFGHIJKLMNOPQRSTUVWXYZ"[d]
  {}

  lemma LowerTable(d: nat)
    requires d < 36
    ensures "0123456789abcdefghijklmnopqrstuvwxyz"[d] == if d < 10 then Symbol(d) else ('a' as int + d - 10) as char
  {}

  // Reading a symbol in either case.
  lemma DigitTables(d: nat)
    requires d < 36
    ensures DigitOf("0123456789ABCDEFGHIJKLMNOPQRSTUVWXYZ"[d]) == d
    ensures DigitOf("0123456789abcdefghijklmnopqrstuvwxyz"[d]) == d
  {
    hide DigitOf, Symbol;
    SymbolTable(d);
    LowerTable(d);
    SymbolRoundTrip(d);
  }

  // c is a symbol of digit d, in either case.
  predicate Stands(c: char, d: nat) {
    d < 36 && (c == "0123456789ABCDEFGHIJKLMNOPQRSTUVWXYZ"[d] || c == "0123456789abcdefghijklmnopqrstuvwxyz"[d])
  }

  // The symbols of the digits, and no other characters, are read as digits.
  lemma DigitOfStands(c: char)
    ensures DigitOf(c) == -1 || (0 <= DigitOf(c) && Stands(c, DigitOf(c)))
    ensures forall d: nat :: Stands(c, d) ==> DigitOf(c) == d
  {
    hide DigitOf, Symbol;
    ReadBack(c);
    if DigitOf(c) != -1 {
      SymbolTable(DigitOf(c));
      LowerTable(DigitOf(c));
    }
    forall d: nat | Stands(c, d)
      ensures DigitOf(c) == d
    {
      DigitTables(d);
    }
  }

  lemma ReadBack(c: char)
    ensures DigitOf(c) == -1 || 0 <= DigitOf(c) < 36
    ensures DigitOf(c) != -1 ==>
              var d := DigitOf(c);
              c == Symbol(d) || (d >= 10 && c == ('a' as int + d - 10) as char)
  {}

  function Upper(c: char): char {
    if 'a' <= c <= 'z' then (c as int - 'a' as int + 'A' as int) as char else c
  }

  predicate ValidNumeral(s: string, b: nat) {
    forall k :: 0 <= k < |s| ==> 0 <= DigitOf(s[k]) < b
  }

  // The digits of a numeral, least significant first.
  function ReadDigits(s: string, b: nat): (r: seq<nat>)
    requires ValidNumeral(s, b)
    ensures |r| == |s| && Digits(b, r)
  {
    seq(|s|, k requires 0 <= k < |s| => DigitOf(s[|s| - 1 - k]) as nat)
  }

  // What a numeral stands for.
  function Parsed(s: string, b: nat): nat
    requires ValidNumeral(s, b)
  {
    Val(b, ReadDigits(s, b))
  }

  function Spelled(ds: seq<nat>): (r: string)
    requires Digits(36, ds)
    ensures |r| == |ds|
  {
    seq(|ds|, k requires 0 <= k < |ds| => Symbol(ds[|ds| - 1 - k]))
  }

  // A number's numeral; zero has one, too.
  function Printed(v: nat, b: nat): string
    requires 2 <= b <= 36
  {
    if v == 0 then "0"
    else DigitsOfCorrect(v, b); Spelled(DigitsOf(v, b))
  }

  lemma SymbolRoundTrip(d: nat)
    requires d < 36
    ensures DigitOf(Symbol(d)) == d
    ensures d >= 10 ==> DigitOf(('a' as int + d - 10) as char) == d
  {}

  lemma SpelledReads(ds: seq<nat>, b: nat)
    requires b <= 36 && Digits(b, ds)
    ensures ValidNumeral(Spelled(ds), b) && ReadDigits(Spelled(ds), b) == ds
  {
    hide Symbol, DigitOf;
    var s := Spelled(ds);
    forall k | 0 <= k < |s|
      ensures DigitOf(s[k]) == ds[|s| - 1 - k]
    {
      SymbolRoundTrip(ds[|s| - 1 - k]);
    }
  }

  // Reading a printed number gives the number back.
  lemma PrintedParses(v: nat, b: nat)
    requires 2 <= b <= 36
    ensures ValidNumeral(Printed(v, b), b) && Parsed(Printed(v, b), b) == v
  {
    if v == 0 {
      ValZeros(b, ReadDigits("0", b));
    } else {
      DigitsOfCorrect(v, b);
      SpelledReads(DigitsOf(v, b), b);
    }
  }

  // c is a symbol of a digit below b.
  predicate IsSymbol(c: char, b: nat) {
    exists d: nat :: d < b && Stands(c, d)
  }

  lemma SymbolBelow(c: char, b: nat)
    ensures IsSymbol(c, b) <==> 0 <= DigitOf(c) < b
  {
    hide DigitOf, Stands;
    DigitOfStands(c);
  }

  // A numeral is made of symbols of digits below the base, in either case.
  lemma ValidNumeralMeaning(s: string, b: nat)
    ensures ValidNumeral(s, b) <==> forall k :: 0 <= k < |s| ==> IsSymbol(s[k], b)
  {
    hide DigitOf, IsSymbol;
    forall k | 0 <= k < |s|
      ensures IsSymbol(s[k], b) <==> 0 <= DigitOf(s[k]) < b
    {
      SymbolBelow(s[k], b);
    }
  }

  // It is read by Horner's rule.
  lemma ParsedHorner(s: string, c: char, d: nat, b: nat)
    requires ValidNumeral(s, b) && d < b && Stands(c, d)
    ensures Parsed("", b) == 0
    ensures ValidNumeral(s + [c], b) && Parsed(s + [c], b) == Parsed(s, b) * b + d
  {
    hide DigitOf, Stands, Val;
    DigitOfStands(c);
    assert ValidNumeral(s + [c], b);
    var ds := ReadDigits(s + [c], b);
    ValFirst(b, ds);
    assert ds[1..] == ReadDigits(s, b) && ds[0] == DigitOf((s + [c])[|s|]) == d;
    NothingRead(b);
    assert Parsed(s + [c], b) == d + b * Parsed(s, b);
  }

  lemma NothingRead(b: nat)
    ensures Parsed("", b) == 0
  {}

  // The case of the letters does not matter.
  lemma EitherCase(s: string, t: string, b: nat)
    requires |s| == |t|
    requires forall k :: 0 <= k < |s| ==> exists d: nat :: Stands(s[k], d) && Stands(t[k], d)
    ensures ValidNumeral(s, b) <==> ValidNumeral(t, b)
    ensures ValidNumeral(s, b) ==> Parsed(s, b) == Parsed(t, b)
  {
    hide DigitOf, Stands;
    forall k | 0 <= k < |s|
      ensures DigitOf(s[k]) == DigitOf(t[k])
    {
      DigitOfStands(s[k]);
      DigitOfStands(t[k]);
    }
    if ValidNumeral(s, b) {
      assert ReadDigits(s, b) == ReadDigits(t, b);
    }
  }

  // The symbols of a printed number, from the top: as many as it has digits, and one for zero.
  lemma PrintedSymbols(v: nat, b: nat)
    requires 2 <= b <= 36
    ensures var s := Printed(v, b);
            && |s| >= 1 && v < Pow(b, |s|) && (|s| > 1 ==> Pow(b, |s| - 1) <= v)
            && forall i :: 0 <= i < |s| ==> s[i] == "0123456789ABCDEFGHIJKLMNOPQRSTUVWXYZ"[v / Pow(b, |s| - 1 - i) % b]
  {
    hide Pow, Val, Spelled, DigitsOf, Printed;
    var ds := if v == 0 then [0] else DigitsOf(v, b);
    DigitsPrinted(v, b);
    ValBound(b, ds);
    if |ds| > 1 { ValTop(b, ds); }
    forall i | 0 <= i < |ds|
      ensures Spelled(ds)[i] == "0123456789ABCDEFGHIJKLMNOPQRSTUVWXYZ"[v / Pow(b, |ds| - 1 - i) % b]
    {
      SymbolPrinted(b, ds, i);
    }
  }

  lemma SymbolPrinted(b: nat, ds: seq<nat>, i: nat)
    requires 2 <= b <= 36 && Digits(b, ds) && i < |ds|
    ensures Spelled(ds)[i] == "0123456789ABCDEFGHIJKLMNOPQRSTUVWXYZ"[Val(b, ds) / Pow(b, |ds| - 1 - i) % b]
  {
    hide Pow, Val, Symbol;
    DigitAt(b, ds, |ds| - 1 - i);
    SymbolTable(ds[|ds| - 1 - i]);
  }

  lemma DigitsPrinted(v: nat, b: nat)
    requires 2 <= b <= 36
    ensures var ds := if v == 0 then [0] else DigitsOf(v, b);
            && |ds| > 0 && Digits(b, ds) && Val(b, ds) == v && Canonical(DigitsOf(v, b)) && Printed(v, b) == Spelled(ds)
  {
    DigitsOfCorrect(v, b);
    if v == 0 {
      ValZeros(b, [0]);
      assert Spelled([0])[0] == Symbol(0) == '0';
      assert Spelled([0]) == "0";
    }
  }

  // The numeral without leading '0' symbols, in upper case; "0" if nothing remains.
  function Normalized(s: string): string {
    if |s| == 0 then "0"
    else if s[0] == '0' then Normalized(s[1..])
    else seq(|s|, k requires 0 <= k < |s| => Upper(s[k]))
  }

  lemma SymbolUpper(c: char)
    requires DigitOf(c) >= 0
    ensures DigitOf(c) < 36 && Symbol(DigitOf(c)) == Upper(c)
    ensures DigitOf(c) == 0 <==> c == '0'
  {}

  // Printing a parsed numeral gives its normalized form.
  lemma {:induction false} ParsedPrints(s: string, b: nat)
    requires 2 <= b <= 36 && ValidNumeral(s, b)
    ensures Printed(Parsed(s, b), b) == Normalized(s)
  {
    if |s| == 0 {
    } else if s[0] == '0' {
      var t := s[1..];
      ParsedPrints(t, b);
      ValPad(b, ReadDigits(s, b), |t|);
      assert ReadDigits(s, b)[..|t|] == ReadDigits(t, b);
    } else {
      NumeralPrints(s, b);
    }
  }

  lemma NumeralPrints(s: string, b: nat)
    requires 2 <= b <= 36 && ValidNumeral(s, b) && |s| > 0 && s[0] != '0'
    ensures Printed(Parsed(s, b), b) == Normalized(s)
  {
    hide Symbol, DigitOf, Upper;
    var ds := ReadDigits(s, b);
    SymbolUpper(s[0]);
    ValTop(b, ds);
    DigitsOfUnique(b, ds);
    forall k | 0 <= k < |s|
      ensures Symbol(ds[|s| - 1 - k]) == Upper(s[k])
    {
      SymbolUpper(s[k]);
    }
    assert Spelled(ds) == Normalized(s);
  }

  // ---- signed numerals ----

  function PrintedInt(v: int, b: nat): string
    requires 2 <= b <= 36
  {
    if v < 0 then "-" + Printed(-v, b) else Printed(v, b)
  }

  datatype IntNumeral = IntNumeral(negative: bool, magnitude: string)

  // A sign symbol, if there is one, and the rest.
  function SplitSign(s: string): IntNumeral {
    if |s| > 0 && s[0] == '-' then IntNumeral(true, s[1..])
    else if |s| > 0 && s[0] == '+' then IntNumeral(false, s[1..])
    else IntNumeral(false, s)
  }

  predicate ValidIntNumeral(s: string, b: nat) {
    ValidNumeral(SplitSign(s).magnitude, b)
  }

  function ParsedInt(s: string, b: nat): int
    requires ValidIntNumeral(s, b)
  {
    var m := Parsed(SplitSign(s).magnitude, b) as int;
    if SplitSign(s).negative then -m else m
  }

  lemma PrintedIntParses(v: int, b: nat)
    requires 2 <= b <= 36
    ensures ValidIntNumeral(PrintedInt(v, b), b) && ParsedInt(PrintedInt(v, b), b) == v
  {
    var m := if v < 0 then -v else v;
    PrintedParses(m, b);
    var s := Printed(m, b);
    if v < 0 {
      assert ("-" + s)[1..] == s;
    } else {
      SignsAreNoSymbols(s, b);
    }
  }

  // A numeral with and without a sign.
  lemma SignedNumerals(t: string, b: nat)
    requires b <= 36 && ValidNumeral(t, b)
    ensures ValidIntNumeral("+" + t, b) && ParsedInt("+" + t, b) == Parsed(t, b)
    ensures ValidIntNumeral("-" + t, b) && ParsedInt("-" + t, b) == 0 - Parsed(t, b)
    ensures ValidIntNumeral(t, b) && ParsedInt(t, b) == Parsed(t, b)
  {
    assert ("+" + t)[1..] == t && ("-" + t)[1..] == t;
    SignsAreNoSymbols(t, b);
  }

  lemma SignsAreNoSymbols(t: string, b: nat)
    requires ValidNumeral(t, b)
    ensures |t| > 0 ==> t[0] != '+' && t[0] != '-'
  {
    assert DigitOf('-') == -1 && DigitOf('+') == -1;
  }

  // Printing a parsed numeral with a sign: the sign is kept for negative numbers only.
  lemma ParsedIntPrints(t: string, b: nat)
    requires 2 <= b <= 36 && ValidNumeral(t, b)
    ensures ValidIntNumeral("+" + t, b) && PrintedInt(ParsedInt("+" + t, b), b) == Normalized(t)
    ensures ValidIntNumeral(t, b) && PrintedInt(ParsedInt(t, b), b) == Normalized(t)
    ensures ValidIntNumeral("-" + t, b)
            && PrintedInt(ParsedInt("-" + t, b), b) == (if Parsed(t, b) > 0 then "-" else "") + Normalized(t)
  {
    hide Parsed, ParsedInt, ValidIntNumeral, Printed, Normalized;
    SignedNumerals(t, b);
    ParsedPrints(t, b);
    assert "" + Normalized(t) == Normalized(t);
  }

  // Numbers that are not negative are printed without a sign.
  lemma PrintedIntSign(v: int, b: nat)
    requires 2 <= b <= 36
    ensures v >= 0 ==> ValidNumeral(PrintedInt(v, b), b) && Parsed(PrintedInt(v, b), b) == v
    ensures v < 0 ==>
              var s := PrintedInt(v, b);
              |s| > 0 && s[0] == '-' && ValidNumeral(s[1..], b) && Parsed(s[1..], b) == -v
  {
    PrintedParses(if v < 0 then -v else v, b);
    if v < 0 {
      assert ("-" + Printed(-v, b))[1..] == Printed(-v, b);
    }
  }
}
