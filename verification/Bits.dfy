/**
 Unsigned machine integers as natural numbers: the bitwise operators and shifts of an
 arbitrary width, each characterised bit by bit.
 */
module Bits {

  function Pow2(n: nat): (p: nat)
    ensures p >= 1
  {
    if n == 0 then 1 else 2 * Pow2(n - 1)
  }

  /** Bit `i` of `x`. */
  predicate Bit(x: nat, i: nat) {
    if i == 0 then x % 2 == 1 else Bit(x / 2, i - 1)
  }

  function And(x: nat, y: nat): nat {
    if x == 0 || y == 0 then 0
    else 2 * And(x / 2, y / 2) + (if x % 2 == 1 && y % 2 == 1 then 1 else 0)
  }

  function Or(x: nat, y: nat): nat {
    if x == 0 then y else if y == 0 then x
    else 2 * Or(x / 2, y / 2) + (if x % 2 == 1 || y % 2 == 1 then 1 else 0)
  }

  function Xor(x: nat, y: nat): nat {
    if x == 0 then y else if y == 0 then x
    else 2 * Xor(x / 2, y / 2) + (if x % 2 != y % 2 then 1 else 0)
  }

  /** Complement of a `w`-bit value. */
  function Not(w: nat, x: nat): nat
    requires x < Pow2(w)
  {
    Pow2(w) - 1 - x
  }

  /** `x` without its low `k` bits, by repeated halving. */
  function High(x: nat, k: nat): nat {
    if k == 0 then x else High(x / 2, k - 1)
  }

  /** The low `k` bits of `x`. */
  function Low(x: nat, k: nat): nat {
    if k == 0 then 0 else 2 * Low(x / 2, k - 1) + x % 2
  }

  /** Left shift of a `w`-bit value; bits shifted past the width are lost.
      A shift amount that reaches the width is an overflow in the source language. */
  function Shl(w: nat, x: nat, k: nat): (y: nat)
    requires k < w
    ensures y < Pow2(w)
  {
    LowFits(x * Pow2(k), w);
    Low(x * Pow2(k), w)
  }

  /** Logical right shift of a `w`-bit value. */
  function Shr(w: nat, x: nat, k: nat): nat
    requires k < w
  {
    High(x, k)
  }

  // ---------- arithmetic of powers of two ----------

  lemma {:induction false} Pow2Add(a: nat, b: nat)
    ensures Pow2(a + b) == Pow2(a) * Pow2(b)
  {
    if a != 0 {
      Pow2Add(a - 1, b);
      assert Pow2(a + b) == 2 * Pow2(a - 1 + b);
    }
  }

  lemma {:induction false} Pow2Monotone(a: nat, b: nat)
    requires a <= b
    ensures Pow2(a) <= Pow2(b)
  {
    if a < b {
      Pow2Monotone(a, b - 1);
    }
  }

  lemma DivUnique(x: nat, d: nat, q: nat, r: nat)
    requires d > 0 && r < d && x == q * d + r
    ensures x / d == q && x % d == r
  {
    var q', r' := x / d, x % d;
    QuotientUnique(d, q, r, q', r');
  }

  lemma QuotientUnique(d: nat, q: nat, r: nat, q': nat, r': nat)
    requires d > 0 && r < d && r' < d && q * d + r == q' * d + r'
    ensures q == q' && r == r'
  {
    if q' < q {
      MultiplesApart(d, q', q);
    } else if q < q' {
      MultiplesApart(d, q, q');
    }
  }

  lemma {:induction false} MultiplesApart(d: nat, q: nat, q': nat)
    requires q < q'
    ensures q * d + d <= q' * d
  {
    if q + 1 < q' {
      MultiplesApart(d, q, q' - 1);
    }
    assert q' * d == (q' - 1) * d + d;
  }

  /** Dividing by `2 * p` is halving and then dividing by `p`. */
  lemma HalveThenDivide(x: nat, p: nat)
    requires p > 0
    ensures x / (2 * p) == (x / 2) / p
    ensures x % (2 * p) == 2 * ((x / 2) % p) + x % 2
  {
    var q, r := (x / 2) / p, (x / 2) % p;
    assert x / 2 == q * p + r;
    assert x == q * (2 * p) + (2 * r + x % 2);
    DivUnique(x, 2 * p, q, 2 * r + x % 2);
  }

  /** `High` and `Low` are division by and remainder of a power of two. */
  lemma {:induction false} HighLowAreDivMod(x: nat, k: nat)
    ensures High(x, k) == x / Pow2(k)
    ensures Low(x, k) == x % Pow2(k)
  {
    if k != 0 {
      HalveThenDivide(x, Pow2(k - 1));
      HighLowAreDivMod(x / 2, k - 1);
    }
  }

  lemma HighLowSplit(x: nat, k: nat)
    ensures x == High(x, k) * Pow2(k) + Low(x, k)
  {
    hide High, Low, Pow2;
    HighLowAreDivMod(x, k);
  }

  lemma {:induction false} LowLow(x: nat, s: nat, e: nat)
    requires s <= e
    ensures Low(Low(x, e), s) == Low(x, s)
  {
    if s != 0 {
      LowLow(x / 2, s - 1, e - 1);
    }
  }

  lemma {:induction false} LowFits(x: nat, k: nat)
    ensures Low(x, k) < Pow2(k)
  {
    if k != 0 {
      LowFits(x / 2, k - 1);
    }
  }

  lemma {:induction false} LowKeepsIffFits(x: nat, k: nat)
    ensures Low(x, k) == x <==> x < Pow2(k)
  {
    LowFits(x, k);
    if k != 0 {
      LowKeepsIffFits(x / 2, k - 1);
    }
  }

  // ---------- numbers are their bits ----------

  lemma {:induction false} NoBitsAbove(w: nat, x: nat, i: nat)
    requires x < Pow2(w) && w <= i
    ensures !Bit(x, i)
  {
    if w == 0 {
      if i != 0 {
        NoBitsAbove(0, 0, i - 1);
      }
    } else {
      NoBitsAbove(w - 1, x / 2, i - 1);
    }
  }

  lemma {:induction false} ZeroHasNoBits(i: nat)
    ensures !Bit(0, i)
  {
    NoBitsAbove(0, 0, i);
  }

  lemma {:induction false} FitsWhenNoBitsAbove(w: nat, x: nat)
    requires forall i :: w <= i ==> !Bit(x, i)
    ensures x < Pow2(w)
    decreases w + x
  {
    if x != 0 {
      forall i: nat | w - 1 <= i
        ensures !Bit(x / 2, i)
      {
        assert !Bit(x, i + 1) || i + 1 < w;
      }
      if w == 0 {
        assert !Bit(x, 0);
        FitsWhenNoBitsAbove(0, x / 2);
      } else {
        FitsWhenNoBitsAbove(w - 1, x / 2);
      }
    }
  }

  /** Two numbers with the same bits are equal. */
  lemma {:induction false} SameBits(x: nat, y: nat)
    requires forall i: nat :: Bit(x, i) == Bit(y, i)
    ensures x == y
    decreases x + y
  {
    assert Bit(x, 0) == Bit(y, 0);
    if x + y != 0 {
      forall i: nat
        ensures Bit(x / 2, i) == Bit(y / 2, i)
      {
        assert Bit(x, i + 1) == Bit(y, i + 1);
      }
      SameBits(x / 2, y / 2);
    }
  }

  // ---------- each operator, bit by bit ----------

  lemma {:induction false} BitOfAnd(x: nat, y: nat, i: nat)
    ensures Bit(And(x, y), i) == (Bit(x, i) && Bit(y, i))
  {
    if x == 0 || y == 0 {
      ZeroHasNoBits(i);
    } else if i != 0 {
      BitOfAnd(x / 2, y / 2, i - 1);
    }
  }

  lemma {:induction false} BitOfOr(x: nat, y: nat, i: nat)
    ensures Bit(Or(x, y), i) == (Bit(x, i) || Bit(y, i))
  {
    if x == 0 || y == 0 {
      ZeroHasNoBits(i);
    } else if i != 0 {
      BitOfOr(x / 2, y / 2, i - 1);
    }
  }

  lemma {:induction false} BitOfXor(x: nat, y: nat, i: nat)
    ensures Bit(Xor(x, y), i) == (Bit(x, i) != Bit(y, i))
  {
    if x == 0 || y == 0 {
      ZeroHasNoBits(i);
    } else if i != 0 {
      BitOfXor(x / 2, y / 2, i - 1);
    }
  }

  lemma NotHalves(w: nat, x: nat)
    requires w >= 1 && x < Pow2(w)
    ensures x / 2 < Pow2(w - 1)
    ensures Not(w, x) / 2 == Not(w - 1, x / 2) && Not(w, x) % 2 != x % 2
  {
  }

  lemma {:induction false} BitOfNot(w: nat, x: nat, i: nat)
    requires x < Pow2(w)
    ensures Bit(Not(w, x), i) == (i < w && !Bit(x, i))
  {
    if w == 0 {
      ZeroHasNoBits(i);
    } else {
      hide Not;
      NotHalves(w, x);
      if i != 0 {
        BitOfNot(w - 1, x / 2, i - 1);
      }
    }
  }

  lemma {:induction false} BitOfLow(x: nat, k: nat, i: nat)
    ensures Bit(Low(x, k), i) == (i < k && Bit(x, i))
  {
    if k == 0 {
      ZeroHasNoBits(i);
    } else if i != 0 {
      BitOfLow(x / 2, k - 1, i - 1);
    }
  }

  lemma {:induction false} BitOfMul(x: nat, k: nat, i: nat)
    ensures Bit(x * Pow2(k), i) == (k <= i && Bit(x, i - k))
  {
    if k != 0 {
      assert x * Pow2(k) == 2 * (x * Pow2(k - 1));
      if i != 0 {
        BitOfMul(x, k - 1, i - 1);
      }
    }
  }

  lemma {:induction false} BitOfHigh(x: nat, k: nat, i: nat)
    ensures Bit(High(x, k), i) == Bit(x, i + k)
  {
    if k != 0 {
      BitOfHigh(x / 2, k - 1, i);
    }
  }

  lemma BitOfShl(w: nat, x: nat, k: nat, i: nat)
    requires k < w
    ensures Bit(Shl(w, x, k), i) == (k <= i < w && Bit(x, i - k))
  {
    BitOfLow(x * Pow2(k), w, i);
    BitOfMul(x, k, i);
  }

  lemma BitOfShr(w: nat, x: nat, k: nat, i: nat)
    requires k < w
    ensures Bit(Shr(w, x, k), i) == Bit(x, i + k)
  {
    BitOfHigh(x, k, i);
  }

  lemma {:induction false} BitOfOne(i: nat)
    ensures Bit(1, i) == (i == 0)
  {
    if i != 0 {
      ZeroHasNoBits(i - 1);
    }
  }

  lemma {:induction false} BitOfOnes(w: nat, i: nat)
    ensures Bit(Pow2(w) - 1, i) == (i < w)
  {
    BitOfNot(w, 0, i);
    ZeroHasNoBits(i);
  }

  // ---------- results stay within the width ----------

  lemma AndFits(w: nat, x: nat, y: nat)
    requires x < Pow2(w)
    ensures And(x, y) < Pow2(w)
  {
  }

  lemma OrFits(w: nat, x: nat, y: nat)
    requires x < Pow2(w) && y < Pow2(w)
    ensures Or(x, y) < Pow2(w)
  {
  }

  lemma XorFits(w: nat, x: nat, y: nat)
    requires x < Pow2(w) && y < Pow2(w)
    ensures Xor(x, y) < Pow2(w)
  {
  }

  // ---------- single-bit masks ----------

  /** `1 << k` has exactly bit `k`. */
  lemma BitOfMask(w: nat, k: nat, i: nat)
    requires k < w
    ensures Bit(Shl(w, 1, k), i) == (i == k)
  {
    BitOfShl(w, 1, k, i);
    if k <= i {
      BitOfOne(i - k);
    }
  }

  /** `x & (1 << k) != 0` tests bit `k`. */
  lemma MaskTests(w: nat, x: nat, k: nat)
    requires k < w
    ensures And(x, Shl(w, 1, k)) != 0 <==> Bit(x, k)
  {
    var m := And(x, Shl(w, 1, k));
    BitOfAnd(x, Shl(w, 1, k), k);
    BitOfMask(w, k, k);
    if Bit(x, k) {
      ZeroHasNoBits(k);
    } else {
      forall i: nat
        ensures Bit(m, i) == Bit(0, i)
      {
        BitOfAnd(x, Shl(w, 1, k), i);
        BitOfMask(w, k, i);
        ZeroHasNoBits(i);
      }
      SameBits(m, 0);
    }
  }
}
