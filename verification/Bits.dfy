// Unsigned machine words as naturals, with the C bit operators defined bit by bit.

module Bits {
  import opened Arith

  type byte = x: int | 0 <= x < 256

  function Pow2(k: nat): (p: nat)
    ensures p > 0
  {
    if k == 0 then 1 else 2 * Pow2(k - 1)
  }

  /** a & b */
  function And(a: nat, b: nat): nat {
    if a == 0 || b == 0 then 0
    else 2 * And(a / 2, b / 2) + (if a % 2 == 1 && b % 2 == 1 then 1 else 0)
  }

  /** a | b */
  function Or(a: nat, b: nat): nat {
    if a == 0 then b
    else if b == 0 then a
    else 2 * Or(a / 2, b / 2) + (if a % 2 == 1 || b % 2 == 1 then 1 else 0)
  }

  /** a << k, on unbounded words */
  function Shl(a: nat, k: nat): nat {
    if k == 0 then a else 2 * Shl(a, k - 1)
  }

  /** a >> k */
  function Shr(a: nat, k: nat): nat {
    if k == 0 then a else Shr(a / 2, k - 1)
  }

  lemma AndZero(a: nat)
    ensures And(a, 0) == 0
  {
  }

  lemma OrZero(a: nat)
    ensures Or(a, 0) == a
  {
  }

  lemma AndHalf(a: nat, b: nat)
    ensures And(a, b) / 2 == And(a / 2, b / 2)
    ensures And(a, b) % 2 == (if a % 2 == 1 && b % 2 == 1 then 1 else 0)
  {
  }

  lemma OrHalf(a: nat, b: nat)
    ensures Or(a, b) / 2 == Or(a / 2, b / 2)
    ensures Or(a, b) % 2 == (if a % 2 == 1 || b % 2 == 1 then 1 else 0)
  {
  }

  /** The bits of a | b are those of a and of b, also under a mask. */
  lemma {:induction false} AndOverOr(x: nat, a: nat, b: nat)
    ensures Or(And(x, a), And(x, b)) == And(x, Or(a, b))
  {
    if x != 0 && a != 0 && b != 0 {
      AndOverOr(x / 2, a / 2, b / 2);
      AndHalf(x, a);
      AndHalf(x, b);
      OrHalf(And(x, a), And(x, b));
    }
  }

  lemma {:induction false} OrCommutes(a: nat, b: nat)
    ensures Or(a, b) == Or(b, a)
  {
    if a != 0 && b != 0 {
      OrCommutes(a / 2, b / 2);
    }
  }

  lemma {:induction false} OrAssociates(a: nat, b: nat, c: nat)
    ensures Or(Or(a, b), c) == Or(a, Or(b, c))
  {
    if a != 0 && b != 0 && c != 0 {
      OrAssociates(a / 2, b / 2, c / 2);
      OrHalf(a, b);
      OrHalf(b, c);
      OrHalf(Or(a, b), c);
      OrHalf(a, Or(b, c));
    }
  }

  /** w one-bits placed on top of k one-bits. */
  lemma OrStacks(k: nat, w: nat)
    ensures Or(Pow2(k) - 1, Shl(Pow2(w) - 1, k)) == Pow2(k + w) - 1
  {
    OrAdds(Pow2(k) - 1, Pow2(w) - 1, k);
    ShlTimes(Pow2(w) - 1, k);
    PowSplit(k, w);
    MulAdd(Pow2(k), Pow2(w), -1);
  }

  lemma {:induction false} PowSplit(a: nat, b: nat)
    ensures Pow2(a + b) == Pow2(a) * Pow2(b)
  {
    if b > 0 {
      PowSplit(a, b - 1);
    }
  }

  /** A word of at most k bits is unchanged by the mask of the k lowest bits. */
  lemma {:induction false} AndLowMask(x: nat, k: nat)
    requires x < Pow2(k)
    ensures And(x, Pow2(k) - 1) == x
  {
    if k > 0 {
      AndLowMask(x / 2, k - 1);
    }
  }

  /** Masking leaves a word of at most k bits. */
  lemma {:induction false} AndBelow(x: nat, k: nat)
    ensures And(x, Pow2(k) - 1) < Pow2(k)
  {
    if k > 0 {
      AndBelow(x / 2, k - 1);
      AndHalf(x, Pow2(k) - 1);
    }
  }

  /** A mask that starts k bits up acts on the word shifted down by k. */
  lemma {:induction false} AndShifted(x: nat, m: nat, k: nat)
    ensures And(x, Shl(m, k)) == Shl(And(Shr(x, k), m), k)
  {
    if k > 0 {
      AndShifted(x / 2, m, k - 1);
      AndHalf(x, Shl(m, k));
    }
  }

  lemma {:induction false} ShlShr(a: nat, k: nat)
    ensures Shr(Shl(a, k), k) == a
  {
    if k > 0 {
      ShlShr(a, k - 1);
    }
  }

  /** Shifting a word of w bits by k gives a word of w + k bits. */
  lemma {:induction false} ShlBelow(a: nat, w: nat, k: nat)
    requires a < Pow2(w)
    ensures Shl(a, k) < Pow2(w + k)
  {
    if k > 0 {
      ShlBelow(a, w, k - 1);
    }
  }

  /** Shifting is multiplying and dividing by a power of two. */
  lemma {:induction false} ShlTimes(a: nat, k: nat)
    ensures Shl(a, k) == a * Pow2(k)
  {
    if k > 0 {
      ShlTimes(a, k - 1);
    }
  }

  lemma {:induction false} ShrDivides(a: nat, k: nat)
    ensures Shr(a, k) == a / Pow2(k)
  {
    if k > 0 {
      ShrDivides(a / 2, k - 1);
      HalfFirst(a, Pow2(k - 1));
    }
  }

  lemma HalfFirst(a: nat, p: int)
    requires p > 0
    ensures a / 2 / p == a / (2 * p)
  {
    var q, r := a / 2 / p, a / 2 % p;
    QuotientUnique(a, 2 * p, q, 2 * r + a % 2);
  }

  /** Words without a common bit, one below bit k and one from there on, are joined by adding them. */
  lemma {:induction false} OrAdds(x: nat, y: nat, k: nat)
    requires x < Pow2(k)
    ensures Or(x, Shl(y, k)) == x + Shl(y, k)
  {
    if k > 0 && x != 0 && Shl(y, k) != 0 {
      OrAdds(x / 2, y, k - 1);
    }
  }

  lemma {:induction false} AndCommutes(a: nat, b: nat)
    ensures And(a, b) == And(b, a)
  {
    if a != 0 && b != 0 {
      AndCommutes(a / 2, b / 2);
    }
  }

  /** They have no bit in common. */
  lemma {:induction false} AndApart(x: nat, y: nat, k: nat)
    requires x < Pow2(k)
    ensures And(x, Shl(y, k)) == 0
  {
    if k > 0 && x != 0 && Shl(y, k) != 0 {
      AndApart(x / 2, y, k - 1);
    }
  }

  lemma PowersOfTwo()
    ensures Pow2(0) == 1 && Pow2(1) == 2 && Pow2(2) == 4 && Pow2(3) == 8
    ensures Pow2(4) == 16 && Pow2(5) == 32 && Pow2(6) == 64 && Pow2(7) == 128 && Pow2(8) == 256
  {
    assert Pow2(4) == 16;
  }
}
