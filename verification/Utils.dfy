/** Conversions between numbers and strings. */
module Utils {
  import opened Numerals
  import opened BigUnsigneds
  import opened BigIntegers
  import opened InABase

  // Throws exactly for a base outside 2..36.
  method UnsignedToString(x: BigUnsigned, base: Short) returns (thrown: bool, s: string)
    requires x.Valid()
    ensures thrown <==> !(2 <= base <= 36)
    ensures !thrown ==> s == Printed(x.Value(), base)
  {
    var d;
    s := "";
    thrown, d := BigUnsignedInABase.FromUnsigned(x, base);
    if !thrown {
      DigitsOfCorrect(x.Value(), base);
      thrown, s := d.ToStdString();
    }
  }

  method IntegerToString(x: BigInteger, base: Short) returns (thrown: bool, s: string)
    requires x.Valid()
    ensures thrown <==> !(2 <= base <= 36)
    ensures !thrown ==> s == if x.Value() < 0 then "-" + Printed(-x.Value(), base) else Printed(x.Value(), base)
  {
    x.SignAndMagnitude();
    thrown, s := UnsignedToString(x.mag, base);
    if x.sign == Negative {
      s := "-" + s;
    }
  }

  // Throws exactly when the string is no numeral in the base.
  method ToUnsigned(s: string, base: Short) returns (thrown: bool, r: BigUnsigned)
    ensures thrown <==> base > 36 || !ValidNumeral(s, base)
    ensures !thrown ==> r.Valid() && r.Value() == Parsed(s, base)
  {
    hide IsSymbol;
    ValidNumeralMeaning(s, base);
    var d;
    thrown, d := BigUnsignedInABase.FromString(s, base);
    if thrown {
      r := new BigUnsigned();
    } else {
      r := d.ToUnsigned();
    }
  }

  // A sign and a numeral; no character at all reads as no sign.
  method ToInteger(s: string, base: Short) returns (thrown: bool, r: BigInteger)
    ensures thrown <==>
              || base > 36
              || !(ValidNumeral(s, base) || (|s| > 0 && (s[0] == '+' || s[0] == '-') && ValidNumeral(s[1..], base)))
    ensures !thrown ==> r.Valid()
    ensures !thrown && |s| > 0 && s[0] == '-' ==> r.Value() == 0 - Parsed(s[1..], base)
    ensures !thrown && |s| > 0 && s[0] == '+' ==> r.Value() == Parsed(s[1..], base)
    ensures !thrown && ValidNumeral(s, base) ==> r.Value() == Parsed(s, base)
    ensures !thrown ==> ValidIntNumeral(s, base) && r.Value() == ParsedInt(s, base)
  {
    if ValidNumeral(s, base) { SignsAreNoSymbols(s, base); }
    var m;
    if |s| > 0 && s[0] == '-' {
      thrown, m := ToUnsigned(s[1..], base);
      if !thrown {
        thrown, r := BigInteger.FromSign(m, Negative);
        return;
      }
    } else if |s| > 0 && s[0] == '+' {
      thrown, m := ToUnsigned(s[1..], base);
      if !thrown {
        r := new BigInteger.FromUnsigned(m);
        return;
      }
    } else {
      thrown, m := ToUnsigned(s, base);
      if !thrown {
        r := new BigInteger.FromUnsigned(m);
        return;
      }
    }
    r := new BigInteger();
  }

  // Printing and reading back gives the number.
  method PrintThenParse(x: BigInteger, base: Short) returns (r: BigInteger)
    requires x.Valid() && 2 <= base <= 36
    ensures r.Valid() && r.Value() == x.Value()
  {
    hide Parsed, Printed, ParsedInt, ValidNumeral, ValidIntNumeral;
    var thrown, s := IntegerToString(x, base);
    PrintedIntParses(x.Value(), base);
    PrintedIntSign(x.Value(), base);
    thrown, r := ToInteger(s, base);
  }

  // Reading and printing gives the numeral in upper case without leading zeros.
  method ParseThenPrint(s: string, base: Short) returns (r: string)
    requires 2 <= base <= 36 && ValidNumeral(s, base)
    ensures r == Normalized(s)
  {
    var thrown, x := ToUnsigned(s, base);
    ParsedPrints(s, base);
    thrown, r := UnsignedToString(x, base);
  }
}
