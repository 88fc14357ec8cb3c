/** Aligned runs of 2^k pages: what a buddy allocator splits and merges. */
module Dyadic {
  import opened Bits

  lemma Pow2Positive(k: nat)
    ensures Pow2(k) >= 1
  {
  }

  lemma {:induction false} Pow2Sum(j: nat, k: nat)
    ensures Pow2(j + k) == Pow2(j) * Pow2(k)
    decreases j
  {
    if j == 0 {
    } else {
      Pow2Sum(j - 1, k);
      assert Pow2(j + k) == 2 * (Pow2(j - 1) * Pow2(k));
    }
  }

  lemma {:induction false} Pow2Grows(j: nat, k: nat)
    requires j <= k
    ensures Pow2(j) <= Pow2(k)
    decreases k
  {
    if j == k {
    } else {
      Pow2Grows(j, k - 1);
    }
  }

  /** The page of 2^bits bytes that holds offset `d`. */
  function PageAt(d: nat, bits: nat): nat
  {
    Pow2Positive(bits);
    NonNegative(d, Pow2(bits));
    d / Pow2(bits)
  }

  /** The head of the aligned run of 2^k pages that holds page `p`. */
  function Base(p: nat, k: nat): nat
  {
    if k == 0 then p else 2 * Base(p / 2, k - 1)
  }

  predicate Inside(p: int, x: int, k: nat)
  {
    x <= p < x + Pow2(k)
  }

  predicate Aligned(x: nat, k: nat)
  {
    Base(x, k) == x
  }

  lemma {:induction false} BaseHolds(p: nat, k: nat)
    ensures Inside(p, Base(p, k), k) && Aligned(Base(p, k), k)
  {
    if k == 0 {
    } else {
      BaseHolds(p / 2, k - 1);
    }
  }

  /** The head of a run is the only aligned page at most 2^k - 1 below each of its pages. */
  lemma {:induction false} BaseIs(p: nat, x: nat, k: nat)
    requires Inside(p, x, k) && Aligned(x, k)
    ensures Base(p, k) == x
  {
    if k == 0 {
    } else {
      BaseIs(p / 2, x / 2, k - 1);
    }
  }

  /** A run of order j lies in one run of order k. */
  lemma {:induction false} BaseOfBase(p: nat, j: nat, k: nat)
    requires j <= k
    ensures Base(Base(p, j), k) == Base(p, k) && Aligned(Base(p, k), j)
    ensures Base(p, k) <= Base(p, j) && Base(p, j) + Pow2(j) <= Base(p, k) + Pow2(k)
  {
    if j > 0 {
      BaseOfBase(p / 2, j - 1, k - 1);
    } else {
      BaseHolds(p, k);
    }
  }

  /** Two aligned runs that meet are nested. */
  lemma Nested(x: nat, j: nat, y: nat, k: nat, p: nat)
    requires j <= k && Aligned(x, j) && Aligned(y, k) && Inside(p, x, j) && Inside(p, y, k)
    ensures y <= x && x + Pow2(j) <= y + Pow2(k) && Base(x, k) == y
  {
    BaseIs(p, x, j);
    BaseIs(p, y, k);
    BaseOfBase(p, j, k);
  }

  lemma {:induction false} AlignedMod(x: nat, k: nat)
    ensures Pow2(k) > 0 && (Aligned(x, k) <==> x % Pow2(k) == 0)
  {
    Pow2Positive(k);
    if k == 0 {
    } else {
      AlignedMod(x / 2, k - 1);
      DivDiv(x, 2, Pow2(k - 1));
    }
  }

  // ---------- the buddy of a run ----------

  /** `x ^ (1 << i)` */
  function FlipBit(x: nat, i: nat): nat
  {
    if i == 0 then (if x % 2 == 0 then x + 1 else x - 1)
    else 2 * FlipBit(x / 2, i - 1) + x % 2
  }

  /** The buddy of an aligned run is the other half of the run of the next order. */
  lemma {:induction false} BuddyIs(x: nat, i: nat)
    requires Aligned(x, i)
    ensures var b, parent := FlipBit(x, i), Base(x, i + 1);
      && Aligned(b, i) && Base(b, i + 1) == parent
      && (if x == parent then b == x + Pow2(i) else b == parent && x == parent + Pow2(i))
  {
    if i == 0 {
    } else {
      BuddyIs(x / 2, i - 1);
    }
  }
}
