/** Little-endian positional notation: the number a sequence of digits denotes,
    and the facts that make canonical sequences and numbers correspond. */
module Positional {
  import opened Arithmetic

  // The number denoted by s in base b, least significant digit first.
  function Val(b: nat, s: seq<nat>): nat
  {
    if |s| == 0 then 0 else Val(b, s[..|s| - 1]) + s[|s| - 1] * Pow(b, |s| - 1)
  }

  predicate Digits(b: nat, s: seq<nat>) {
    forall i :: 0 <= i < |s| ==> s[i] < b
  }

  // No leading (most significant) zero.
  predicate Canonical(s: seq<nat>) {
    |s| > 0 ==> s[|s| - 1] != 0
  }

  lemma ValPrefix(b: nat, s: seq<nat>, i: nat)
    requires i < |s|
    ensures Val(b, s[..i + 1]) == Val(b, s[..i]) + s[i] * Pow(b, i)
  {
    assert s[..i + 1][..i] == s[..i];
  }

  lemma ValAppend(b: nat, s: seq<nat>, d: nat)
    ensures Val(b, s + [d]) == Val(b, s) + d * Pow(b, |s|)
  {
    ValPrefix(b, s + [d], |s|);
    assert (s + [d])[..|s|] == s && (s + [d])[..|s| + 1] == s + [d];
  }

  lemma {:induction false} ValConcat(b: nat, s: seq<nat>, t: seq<nat>)
    ensures Val(b, s + t) == Val(b, s) + Pow(b, |s|) * Val(b, t)
  {
    if |t| == 0 {
      assert s + t == s;
    } else {
      var n := |t| - 1;
      assert (s + t)[..|s| + n] == s + t[..n];
      ValConcat(b, s, t[..n]);
      PowAdd(b, |s|, n);
      MulAssoc(Pow(b, |s|), t[n], Pow(b, n));
      assert t[n] * (Pow(b, |s|) * Pow(b, n)) == Pow(b, |s|) * (t[n] * Pow(b, n)) by {
        MulAssoc(t[n], Pow(b, |s|), Pow(b, n));
      }
      MulDist(Val(b, t[..n]), t[n] * Pow(b, n), Pow(b, |s|));
    }
  }

  lemma ValSplit(b: nat, s: seq<nat>, i: nat)
    requires i <= |s|
    ensures Val(b, s) == Val(b, s[..i]) + Pow(b, i) * Val(b, s[i..])
  {
    assert s == s[..i] + s[i..];
    ValConcat(b, s[..i], s[i..]);
  }

  lemma {:induction false} ValBound(b: nat, s: seq<nat>)
    requires b > 0 && Digits(b, s)
    ensures Val(b, s) < Pow(b, |s|)
  {
    if |s| > 0 {
      var n := |s| - 1;
      ValBound(b, s[..n]);
      MulMono(s[n], b - 1, Pow(b, n));
      MulDist(b - 1, 1, Pow(b, n));
    }
  }

  lemma ValTop(b: nat, s: seq<nat>)
    requires |s| > 0 && s[|s| - 1] > 0
    ensures Val(b, s) >= Pow(b, |s| - 1)
  {
    MulMono(1, s[|s| - 1], Pow(b, |s| - 1));
  }

  // The top digit is nonzero exactly when the number reaches its weight.
  lemma ValTopIff(b: nat, s: seq<nat>)
    requires b > 0 && Digits(b, s) && |s| > 0
    ensures s[|s| - 1] != 0 <==> Val(b, s) >= Pow(b, |s| - 1)
  {
    if s[|s| - 1] != 0 {
      ValTop(b, s);
    } else {
      ValBound(b, s[..|s| - 1]);
    }
  }

  lemma {:induction false} ValZeros(b: nat, s: seq<nat>)
    requires forall i :: 0 <= i < |s| ==> s[i] == 0
    ensures Val(b, s) == 0
  {
    if |s| > 0 {
      ValZeros(b, s[..|s| - 1]);
    }
  }

  // A digit that is larger, below equal higher digits, makes the number larger.
  lemma {:induction false} ValLess(b: nat, s: seq<nat>, t: seq<nat>, i: nat)
    requires b > 0 && Digits(b, s) && Digits(b, t)
    requires i < |s| == |t| && s[i + 1..] == t[i + 1..] && s[i] < t[i]
    ensures Val(b, s) < Val(b, t)
  {
    ValSplit(b, s, i + 1);
    ValSplit(b, t, i + 1);
    ValPrefix(b, s, i);
    ValPrefix(b, t, i);
    ValBound(b, s[..i]);
    MulStrict(s[i], t[i], Pow(b, i));
  }

  // Without leading zeros, the longer number is the larger one.
  lemma ValLonger(b: nat, s: seq<nat>, t: seq<nat>)
    requires b > 0 && Digits(b, s) && Canonical(t) && |s| < |t|
    ensures Val(b, s) < Val(b, t)
  {
    ValBound(b, s);
    ValTop(b, t);
    PowMono(b, |s|, |t| - 1);
  }

  // Canonical notation is unique.
  lemma {:induction false} ValInjective(b: nat, s: seq<nat>, t: seq<nat>)
    requires b > 0 && Digits(b, s) && Digits(b, t) && Val(b, s) == Val(b, t)
    requires |s| == |t| || (Canonical(s) && Canonical(t))
    ensures s == t
    decreases |s|
  {
    if |s| < |t| {
      ValLonger(b, s, t);
    } else if |t| < |s| {
      ValLonger(b, t, s);
    } else if |s| > 0 {
      var n := |s| - 1;
      assert s[n + 1..] == t[n + 1..];
      if s[n] < t[n] {
        ValLess(b, s, t, n);
      } else if t[n] < s[n] {
        ValLess(b, t, s, n);
      }
      ValInjective(b, s[..n], t[..n]);
      assert s == s[..n] + [s[n]] && t == t[..n] + [t[n]];
    }
  }

  // Dropping the i low digits is flooring division by b^i, keeping them is the remainder.
  lemma ValDivMod(b: nat, s: seq<nat>, i: nat)
    requires b > 0 && Digits(b, s) && i <= |s|
    ensures Val(b, s) / Pow(b, i) == Val(b, s[i..])
    ensures Val(b, s) % Pow(b, i) == Val(b, s[..i])
  {
    ValSplit(b, s, i);
    ValBound(b, s[..i]);
    DivModOf(Val(b, s), Pow(b, i), Val(b, s[i..]), Val(b, s[..i]));
  }

  lemma ValFirst(b: nat, s: seq<nat>)
    requires |s| > 0
    ensures Val(b, s) == s[0] + b * Val(b, s[1..])
  {
    ValSplit(b, s, 1);
    ValPrefix(b, s, 0);
    assert Pow(b, 1) == b * Pow(b, 0) == b;
  }

  lemma DigitAt(b: nat, s: seq<nat>, i: nat)
    requires b > 0 && Digits(b, s) && i < |s|
    ensures Val(b, s) / Pow(b, i) % b == s[i]
  {
    ValDivMod(b, s, i);
    var t := s[i..];
    ValFirst(b, t);
    DivModOf(Val(b, t), b, Val(b, t[1..]), s[i]);
  }

  lemma ValUpdate(b: nat, s: seq<nat>, i: nat, d: nat)
    requires i < |s|
    ensures Val(b, s[i := d]) == Val(b, s) + (d - s[i]) * Pow(b, i)
  {
    var t := s[i := d];
    ValSplit(b, s, i + 1);
    ValSplit(b, t, i + 1);
    ValPrefix(b, s, i);
    ValPrefix(b, t, i);
    assert t[..i] == s[..i] && t[i + 1..] == s[i + 1..];
    MulDist(d - s[i], s[i], Pow(b, i));
  }

  // Only zeros were dropped or added.
  lemma ValPad(b: nat, s: seq<nat>, i: nat)
    requires i <= |s| && forall k :: i <= k < |s| ==> s[k] == 0
    ensures Val(b, s) == Val(b, s[..i])
  {
    ValSplit(b, s, i);
    ValZeros(b, s[i..]);
  }
}
