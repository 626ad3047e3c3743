// Single bits of words, and what the C operators do to them.

module BitTests {
  import opened Bits

  /** Bit j of a word. */
  function Bit(x: nat, j: nat): bool {
    Shr(x, j) % 2 == 1
  }

  lemma {:induction false} BitAnd(a: nat, b: nat, j: nat)
    ensures Bit(And(a, b), j) <==> Bit(a, j) && Bit(b, j)
    decreases j
  {
    AndHalf(a, b);
    if j > 0 {
      BitAnd(a / 2, b / 2, j - 1);
    }
  }

  lemma {:induction false} BitOr(a: nat, b: nat, j: nat)
    ensures Bit(Or(a, b), j) <==> Bit(a, j) || Bit(b, j)
    decreases j
  {
    OrHalf(a, b);
    if j > 0 {
      BitOr(a / 2, b / 2, j - 1);
    }
  }

  lemma {:induction false} BitOfZero(j: nat)
    ensures !Bit(0, j)
  {
    if j > 0 {
      BitOfZero(j - 1);
    }
  }

  lemma {:induction false} BitOfOne(k: nat, j: nat)
    ensures Bit(Shl(1, k), j) <==> j == k
    decreases j
  {
    if j > 0 {
      if k == 0 {
        BitOfZero(j - 1);
      } else {
        BitOfOne(k - 1, j - 1);
      }
    }
  }

  lemma {:induction false} BitOfLowMask(n: nat, j: nat)
    ensures Bit(Pow2(n) - 1, j) <==> j < n
    decreases j
  {
    if n == 0 {
      BitOfZero(j);
    } else if j > 0 {
      BitOfLowMask(n - 1, j - 1);
    }
  }

  lemma {:induction false} ShlOneIsPow2(k: nat)
    ensures Shl(1, k) == Pow2(k)
  {
    if k > 0 {
      ShlOneIsPow2(k - 1);
    }
  }

  /** All n bits but bit k. */
  lemma {:induction false} BitOfHole(n: nat, k: nat, j: nat)
    requires k < n
    ensures Shl(1, k) < Pow2(n)
    ensures Bit(Pow2(n) - 1 - Shl(1, k), j) <==> j < n && j != k
    decreases j
  {
    ShlBelow(1, 1, k);
    PowGrows(k + 1, n);
    if k == 0 {
      if j > 0 {
        BitOfLowMask(n - 1, j - 1);
      }
    } else if j > 0 {
      BitOfHole(n - 1, k - 1, j - 1);
    }
  }

  lemma {:induction false} PowGrows(a: nat, b: nat)
    requires a <= b
    ensures Pow2(a) <= Pow2(b)
    decreases b
  {
    if a < b {
      PowGrows(a, b - 1);
    }
  }

  lemma {:induction false} ShrOfLowMask(n: nat, m: nat)
    requires m <= n
    ensures Shr(Pow2(n) - 1, m) == Pow2(n - m) - 1
    decreases m
  {
    if m > 0 {
      ShrOfLowMask(n - 1, m - 1);
    }
  }

  /** A word without bits is zero. */
  lemma {:induction false} NoBitsIsZero(x: nat, n: nat)
    requires x < Pow2(n) && forall j :: 0 <= j < n ==> !Bit(x, j)
    ensures x == 0
    decreases n
  {
    if n > 0 {
      assert !Bit(x, 0);
      assert Shr(x, 0) == x;
      forall j | 0 <= j < n - 1
        ensures !Bit(x / 2, j)
      {
        assert !Bit(x, j + 1);
      }
      NoBitsIsZero(x / 2, n - 1);
    }
  }

  lemma {:induction false} AndAtMost(a: nat, b: nat)
    ensures And(a, b) <= a
  {
    if a != 0 && b != 0 {
      AndAtMost(a / 2, b / 2);
    }
  }

  lemma {:induction false} OrBelow(a: nat, b: nat, n: nat)
    requires a < Pow2(n) && b < Pow2(n)
    ensures Or(a, b) < Pow2(n)
    decreases n
  {
    if n > 0 && a != 0 && b != 0 {
      OrBelow(a / 2, b / 2, n - 1);
    }
  }
}
