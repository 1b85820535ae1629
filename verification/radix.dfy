/**
 The radix layer of the codec (`enbase` and `debase` in shorten_utils.py):
 a natural number written in base `|a|` over an alphabet `a`, most
 significant digit first, where the digit value of a character is its
 position in `a`. The codec instantiates `a` with its 36-character alphabet.
 */
module Radix {
  import opened Naturals
  import opened Results

  /** An alphabet usable as a numeral system: at least two characters, none
      repeated, so that each character has exactly one digit value. */
  predicate ValidAlphabet(a: string)
  {
    && |a| >= 2
    && forall i, j :: 0 <= i < j < |a| ==> a[i] != a[j]
  }

  /** The first position of `c` in `s`, or `None` when `c` does not occur:
      Python's `s.index(c)`, with `None` standing for the `ValueError`. */
  function IndexOf(s: string, c: char): (r: Option<nat>)
    ensures r.Some? ==> r.value < |s| && s[r.value] == c
    ensures r.Some? ==> forall j :: 0 <= j < r.value ==> s[j] != c
    ensures r.None? <==> c !in s
  {
    if |s| == 0 then None
    else if s[0] == c then Some(0)
    else match IndexOf(s[1..], c)
      case None => None
      case Some(i) => Some(i + 1)
  }

  /** Looking up the character at position `i` of a valid alphabet gives
      back `i`. */
  lemma IndexOfDistinct(a: string, i: nat)
    requires ValidAlphabet(a) && i < |a|
    ensures IndexOf(a, a[i]) == Some(i)
  {
  }

  /** Every character of `s` is in the alphabet `a`. */
  predicate InAlphabet(a: string, s: string)
  {
    forall k :: 0 <= k < |s| ==> s[k] in a
  }

  /** A token that `enbase` can produce: non-empty, over the alphabet, and
      without a leading zero digit unless it is the single digit zero. */
  predicate Canonical(a: string, s: string)
    requires |a| >= 1
  {
    |s| >= 1 && InAlphabet(a, s) && (|s| == 1 || s[0] != a[0])
  }

  /** The digit value of an alphabet character. */
  function Digit(a: string, c: char): (d: nat)
    requires c in a
    ensures d < |a| && a[d] == c
  {
    IndexOf(a, c).value
  }

  /** `enbase(x)`: the digits of `x` in base `|a|`, most significant first,
      with the single-character base case `x < |a|`. */
  function Enbase(a: string, x: nat): (r: string)
    requires ValidAlphabet(a)
    ensures Canonical(a, r)
    ensures |r| == 1 <==> x < |a|
    ensures r[0] == a[0] <==> x == 0
    decreases x
  {
    if x < |a| then [a[x]]
    else
      DivBounds(x, |a|);
      var p := Enbase(a, x / |a|);
      p + [a[x % |a|]]
  }

  /** The loop of `debase(s)` after its first `k` iterations over the reversed
      string: iteration `i` adds the digit of `s[|s|-1-i]` times `|a|^i`, and
      the first character missing from the alphabet raises. */
  function DebaseSteps(a: string, s: string, k: nat): (r: Result<nat>)
    requires k <= |s|
    ensures r.Ok? <==> InAlphabet(a, s[|s| - k..])
  {
    if k == 0 then Ok(0)
    else
      match DebaseSteps(a, s, k - 1)
      case Err(e) => Err(e)
      case Ok(acc) =>
        assert s[|s| - k..] == [s[|s| - k]] + s[|s| - (k - 1)..];
        match IndexOf(a, s[|s| - k])
        case None => Err(InvalidToken)
        case Some(d) => Ok(acc + d * Pow(|a|, k - 1))
  }

  /** `debase(s)`: the value of `s` read as digits in base `|a|`. It fails
      exactly when some character of `s` is not in the alphabet, and the
      empty string reads as zero. */
  function Debase(a: string, s: string): (r: Result<nat>)
    ensures r.Ok? <==> InAlphabet(a, s)
    ensures |s| == 0 ==> r == Ok(0)
  {
    assert s[|s| - |s|..] == s;
    DebaseSteps(a, s, |s|)
  }

  /** Reference reading of a digit string, Horner style: the prefix's value
      times the radix plus the last digit. */
  function Value(a: string, s: string): nat
    requires InAlphabet(a, s)
  {
    if |s| == 0 then 0 else Value(a, s[..|s| - 1]) * |a| + Digit(a, s[|s| - 1])
  }

  /** A leading digit contributes its value times the radix raised to the
      number of digits after it. */
  lemma {:induction false} ValuePrepend(a: string, c: char, t: string)
    requires c in a && InAlphabet(a, t)
    ensures InAlphabet(a, [c] + t)
    ensures Value(a, [c] + t) == Digit(a, c) * Pow(|a|, |t|) + Value(a, t)
  {
    var s := [c] + t;
    if |t| > 0 {
      var t' := t[..|t| - 1];
      var e := t[|t| - 1];
      assert s[..|s| - 1] == [c] + t';
      ValuePrepend(a, c, t');
      var b, d, p := |a|, Digit(a, c), Pow(|a|, |t'|);
      assert t[..|t| - 1] == t';
      assert Value(a, s) == (d * p + Value(a, t')) * b + Digit(a, e);
      assert Value(a, t) == Value(a, t') * b + Digit(a, e);
      assert Pow(b, |t|) == b * p;
      Distribute(d, p, Value(a, t'), b);
    }
  }

  /** Multiplying a leading term and a remainder by the radix. */
  lemma Distribute(d: nat, p: nat, v: nat, b: nat)
    ensures (d * p + v) * b == d * (b * p) + v * b
  {
  }

  /** `debase`'s positional loop over the reversed string computes the
      reference value of every suffix it has consumed. */
  lemma {:induction false} DebaseStepsValue(a: string, s: string, k: nat)
    requires k <= |s| && InAlphabet(a, s)
    ensures DebaseSteps(a, s, k) == Ok(Value(a, s[|s| - k..]))
  {
    if k > 0 {
      var c, t := s[|s| - k], s[|s| - (k - 1)..];
      assert c in a;
      assert InAlphabet(a, t) by {
        forall j | 0 <= j < |t| ensures t[j] in a {
          assert t[j] == s[|s| - (k - 1) + j];
        }
      }
      DebaseStepsValue(a, s, k - 1);
      DebaseStepsStep(a, s, k);
      ValuePrepend(a, c, t);
      assert s[|s| - k..] == [c] + t;
    } else {
      assert s[|s| - k..] == [];
    }
  }

  /** One iteration of `debase`'s loop over an alphabet character adds its
      digit times the radix raised to the iteration number. */
  lemma DebaseStepsStep(a: string, s: string, k: nat)
    requires 0 < k <= |s| && s[|s| - k] in a
    requires DebaseSteps(a, s, k - 1).Ok?
    ensures DebaseSteps(a, s, k) == Ok(DebaseSteps(a, s, k - 1).value + Digit(a, s[|s| - k]) * Pow(|a|, k - 1))
  {
  }

  /** On a string over the alphabet, `debase` returns its value. */
  lemma DebaseValue(a: string, s: string)
    requires InAlphabet(a, s)
    ensures Debase(a, s) == Ok(Value(a, s))
  {
    DebaseStepsValue(a, s, |s|);
    assert s[|s| - |s|..] == s;
  }

  /** Reading back the digits `enbase` writes gives the number again. */
  lemma {:induction false} ValueEnbase(a: string, x: nat)
    requires ValidAlphabet(a)
    ensures Value(a, Enbase(a, x)) == x
    decreases x
  {
    var b := |a|;
    if x < b {
      ValueAppendDigit(a, [], x);
      assert [] + [a[x]] == Enbase(a, x);
    } else {
      var q, m := x / b, x % b;
      DivBounds(x, b);
      ValueEnbase(a, q);
      ValueAppendDigit(a, Enbase(a, q), m);
      DivMod(x, b);
    }
  }

  /** Appending a digit multiplies the value by the radix and adds the digit. */
  lemma ValueAppend(a: string, p: string, c: char)
    requires InAlphabet(a, p) && c in a
    ensures InAlphabet(a, p + [c])
    ensures Value(a, p + [c]) == Value(a, p) * |a| + Digit(a, c)
  {
    assert (p + [c])[..|p|] == p;
  }

  /** Appending the character of digit `d` multiplies the value by the radix
      and adds `d`. */
  lemma ValueAppendDigit(a: string, p: string, d: nat)
    requires ValidAlphabet(a) && InAlphabet(a, p) && d < |a|
    ensures InAlphabet(a, p + [a[d]])
    ensures Value(a, p + [a[d]]) == Value(a, p) * |a| + d
  {
    ValueAppend(a, p, a[d]);
    IndexOfDistinct(a, d);
  }

  /** `debase(enbase(x)) == x` for every natural `x`. */
  lemma DebaseEnbase(a: string, x: nat)
    requires ValidAlphabet(a)
    ensures Debase(a, Enbase(a, x)) == Ok(x)
  {
    ValueEnbase(a, x);
    DebaseValue(a, Enbase(a, x));
  }

  /** A string over the alphabet whose first digit is not zero has a value of
      at least one. */
  lemma {:induction false} LeadingDigitPositive(a: string, s: string)
    requires ValidAlphabet(a)
    requires |s| >= 1 && InAlphabet(a, s) && s[0] != a[0]
    ensures Value(a, s) >= 1
    decreases |s|
  {
    var p := s[..|s| - 1];
    if |s| == 1 {
      assert Value(a, s) == Value(a, p) * |a| + Digit(a, s[0]);
    } else {
      LeadingDigitPositive(a, p);
      MulMonotone(Value(a, p), 1, |a|);
    }
  }

  /** `enbase(debase(s)) == s` for every canonical token `s`. */
  lemma {:induction false} EnbaseValue(a: string, s: string)
    requires ValidAlphabet(a) && Canonical(a, s)
    ensures Enbase(a, Value(a, s)) == s
    decreases |s|
  {
    if |s| == 1 {
      assert Value(a, s) == Digit(a, s[0]);
    } else {
      var p := s[..|s| - 1];
      assert Canonical(a, p);
      EnbaseValue(a, p);
      LeadingDigitPositive(a, p);
      var v, b := Value(a, s), |a|;
      var vp, d := Value(a, p), Digit(a, s[|s| - 1]);
      assert v == vp * b + d;
      DivModUnique(v, b, vp, d);
      MulMonotone(b, 1, vp);
      assert s == p + [s[|s| - 1]];
    }
  }

  /** `debase` accepts every canonical token, and `enbase` gives it back. */
  lemma EnbaseDebase(a: string, s: string)
    requires ValidAlphabet(a) && Canonical(a, s)
    ensures Debase(a, s).Ok? && Enbase(a, Debase(a, s).value) == s
  {
    DebaseValue(a, s);
    EnbaseValue(a, s);
  }
}
