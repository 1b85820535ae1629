/**
 Arithmetic on natural numbers read as unbounded bit strings: powers, the
 bit at a position, and setting one bit. This is how the codec's integers
 behave under Python's `<<`, `&` and `|=` when every operand is non-negative.
 */
module Naturals {

  /** `b` raised to the power `e`: Python's `b ** e`, and `1 << e` when `b == 2`. */
  function Pow(b: nat, e: nat): (r: nat)
    ensures b >= 1 ==> r >= 1
  {
    if e == 0 then 1 else b * Pow(b, e - 1)
  }

  /** Bit `i` of `n`, counting from the least significant bit: 1 exactly when
      Python's `n & (1 << i)` is truthy. */
  function Bit(n: nat, i: nat): (b: nat)
    ensures b <= 1
  {
    if i == 0 then n % 2 else Bit(n / 2, i - 1)
  }

  /** `n` with bit `k` set: Python's `n | (1 << k)`. Every other bit is kept. */
  function SetBit(n: nat, k: nat): (r: nat)
    ensures forall j: nat :: Bit(r, j) == if j == k then 1 else Bit(n, j)
  {
    if k == 0 then n / 2 * 2 + 1 else 2 * SetBit(n / 2, k - 1) + n % 2
  }

  /** Bit `i` of `n` is the last binary digit of `n / 2^i`: the value
      `n & (1 << i)` tests, stated arithmetically. */
  lemma {:induction false} BitIsDivMod(n: nat, i: nat)
    ensures Bit(n, i) == n / Pow(2, i) % 2
  {
    if i > 0 {
      BitIsDivMod(n / 2, i - 1);
      Div2Div(n, Pow(2, i - 1));
    }
  }

  /** Halving and then dividing by `p` is dividing by `2p`. */
  lemma Div2Div(n: nat, p: nat)
    requires p > 0
    ensures n / 2 / p == n / (2 * p)
  {
    var q, r := n / 2 / p, n / 2 % p;
    assert n == 2 * p * q + (2 * r + n % 2);
    DivModUnique(n, 2 * p, q, 2 * r + n % 2);
  }

  /** Zero has no bit set. */
  lemma ZeroBits()
    ensures forall j: nat :: Bit(0, j) == 0
  {
    forall j: nat ensures Bit(0, j) == 0 {
      ZeroBit(j);
    }
  }

  /** Bit `j` of zero is clear. */
  lemma {:induction false} ZeroBit(j: nat)
    ensures Bit(0, j) == 0
  {
    if j > 0 {
      ZeroBit(j - 1);
    }
  }

  /** Two naturals with the same bit at every position are equal. */
  lemma {:induction false} BitsDetermine(x: nat, y: nat)
    requires forall j: nat :: Bit(x, j) == Bit(y, j)
    ensures x == y
    decreases x + y
  {
    if x + y > 0 {
      forall j: nat ensures Bit(x / 2, j) == Bit(y / 2, j) {
        assert Bit(x, j + 1) == Bit(y, j + 1);
      }
      BitsDetermine(x / 2, y / 2);
      assert Bit(x, 0) == Bit(y, 0);
    }
  }

  /** A natural with no bit set at or above position `w` is below `2^w`. */
  lemma {:induction false} BoundFromBits(x: nat, w: nat)
    requires forall j: nat :: w <= j ==> Bit(x, j) == 0
    ensures x < Pow(2, w)
  {
    if w == 0 {
      ZeroBits();
      BitsDetermine(x, 0);
    } else {
      forall j: nat | w - 1 <= j ensures Bit(x / 2, j) == 0 {
        assert Bit(x, j + 1) == 0;
      }
      BoundFromBits(x / 2, w - 1);
    }
  }

  /** A natural below `2^w` has no bit set at or above position `w`. */
  lemma {:induction false} BitsAboveWidth(x: nat, w: nat)
    requires x < Pow(2, w)
    ensures forall j: nat :: w <= j ==> Bit(x, j) == 0
  {
    if w == 0 {
      ZeroBits();
    } else {
      BitsAboveWidth(x / 2, w - 1);
    }
  }

  /** Reducing modulo `2^w` keeps the low `w` bits and clears all others. */
  lemma {:induction false} BitsOfMod(x: nat, w: nat)
    ensures forall j: nat :: Bit(x % Pow(2, w), j) == if j < w then Bit(x, j) else 0
  {
    if w == 0 {
      ZeroBits();
    } else {
      var p := Pow(2, w - 1);
      var y := x % Pow(2, w);
      var q := x / Pow(2, w);
      assert x == 2 * (p * q) + y;
      assert x / 2 == p * q + y / 2;
      assert y / 2 < p;
      assert (x / 2) % p == y / 2 by {
        DivModUnique(x / 2, p, q, y / 2);
      }
      BitsOfMod(x / 2, w - 1);
      forall j: nat ensures Bit(y, j) == if j < w then Bit(x, j) else 0 {
        if j > 0 {
          assert Bit(y, j) == Bit(y / 2, j - 1);
        }
      }
    }
  }

  /** Quotient and remainder are the only ones that rebuild `a`. */
  lemma DivModUnique(a: nat, p: nat, q: nat, r: nat)
    requires p > 0 && r < p && a == p * q + r
    ensures a / p == q && a % p == r
  {
    var q', r' := a / p, a % p;
    assert a == p * q' + r';
    if q' > q {
      assert p * q' >= p * (q + 1) by { MulMonotone(p, q + 1, q'); }
      assert false;
    } else if q' < q {
      assert p * q >= p * (q' + 1) by { MulMonotone(p, q' + 1, q); }
      assert false;
    }
  }

  /** Multiplication by a natural preserves order. */
  lemma MulMonotone(p: nat, s: nat, t: nat)
    requires s <= t
    ensures p * s <= p * t
  {
  }

  /** Powers of two grow with the exponent. */
  lemma {:induction false} PowMonotone(e: nat, f: nat)
    requires e <= f
    ensures Pow(2, e) <= Pow(2, f)
  {
    if e < f {
      PowMonotone(e, f - 1);
    }
  }

  /** Dividing a number at least `b` by `b >= 2` gives a smaller positive
      quotient. */
  lemma DivBounds(x: nat, b: nat)
    requires b >= 2 && x >= b
    ensures 1 <= x / b < x
  {
    var q, m := x / b, x % b;
    DivModUnique(x, b, q, m);
    MulMonotone(q, 2, b);
  }

  /** Euclidean division rebuilds its dividend. */
  lemma DivMod(x: nat, b: nat)
    requires b > 0
    ensures x == (x / b) * b + x % b
  {
  }
}
