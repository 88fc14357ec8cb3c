/**
  Which pages of a buddy area are free, which live block owns each other page,
  and what the free blocks then are: the maximal aligned free runs.
*/
module BuddyBlocks {
  import opened Bits
  import opened Dyadic

  const FREE: int := -1

  /** `own[p]` is the head of the live block that holds page `p`, or FREE; `live` gives the order of each live block. */
  type Owners = seq<int>

  /** An aligned run of free pages within the area. */
  predicate Full(own: Owners, x: nat, k: nat)
  {
    Aligned(x, k) && x + Pow2(k) <= |own| && forall p :: x <= p < x + Pow2(k) ==> own[p] == FREE
  }

  /** A free block: a free run that is not half of a longer one, `top` being the largest order. */
  predicate Head(own: Owners, top: nat, x: nat, k: nat)
  {
    k <= top && Full(own, x, k) && (k == top || !Full(own, Base(x, k + 1), k + 1))
  }

  ghost predicate HeadsFree(own: Owners, top: nat, x: nat)
  {
    exists k: nat :: Head(own, top, x, k)
  }

  ghost predicate HasHead(own: Owners, top: nat, k: nat)
  {
    exists x: nat :: Head(own, top, x, k)
  }

  ghost predicate HasRun(own: Owners, k: nat)
  {
    exists x: nat :: Full(own, x, k)
  }

  /** No free block of order `i` covers the run (x, k). */
  ghost predicate NoneCovers(own: Owners, top: nat, i: nat, x: nat, k: nat)
  {
    forall y: nat :: Head(own, top, y, i) ==> !(y <= x && x + Pow2(k) <= y + Pow2(i))
  }

  ghost predicate NoneCoversBelow(own: Owners, top: nat, i: nat, x: nat, k: nat)
  {
    forall m: nat :: k <= m < i && m <= top ==> NoneCovers(own, top, m, x, k)
  }

  /** (x, i) is a free block, and there is none of an order from k up to i. */
  ghost predicate Shortest(own: Owners, top: nat, k: nat, x: nat, i: nat)
  {
    k <= i && Head(own, top, x, i) && forall m: nat, y: nat :: k <= m < i ==> !Head(own, top, y, m)
  }

  ghost predicate FromShortest(own: Owners, top: nat, k: nat, x: nat)
  {
    exists i: nat :: Shortest(own, top, k, x, i)
  }

  function Fill(own: Owners, x: nat, k: nat, v: int): (r: Owners)
    requires x + Pow2(k) <= |own|
    ensures |r| == |own|
  {
    seq(|own|, p requires 0 <= p < |own| => if Inside(p, x, k) then v else own[p])
  }

  predicate OwnedBy(live: map<nat, nat>, h: nat, p: nat)
  {
    h in live && Inside(p, h, live[h])
  }

  /** Live blocks are aligned and disjoint, and own every page that is not free. */
  ghost predicate LiveOk(own: Owners, live: map<nat, nat>)
  {
    && (forall p :: 0 <= p < |own| && own[p] != FREE ==> own[p] >= 0 && OwnedBy(live, own[p], p))
    && (forall h :: h in live ==> Aligned(h, live[h]) && h + Pow2(live[h]) <= |own|)
    && (forall h, p :: h in live && Inside(p, h, live[h]) ==> own[p] == h)
  }

  // ---------- free blocks ----------

  lemma HeadIsFull(own: Owners, top: nat, x: nat, k: nat)
    requires Head(own, top, x, k)
    ensures k <= top && Full(own, x, k)
  {
  }

  lemma PartOfFull(own: Owners, y: nat, k: nat, x: nat, j: nat, p: nat)
    requires Full(own, y, k) && j <= k && Aligned(x, j) && Inside(p, x, j) && Inside(p, y, k)
    ensures Full(own, x, j)
  {
    Nested(x, j, y, k, p);
  }

  /** Every free run lies in a free block. */
  lemma {:induction false} Climb(own: Owners, top: nat, p: nat, k: nat) returns (j: nat)
    requires k <= top && Full(own, Base(p, k), k)
    ensures k <= j <= top && Head(own, top, Base(p, j), j) && Inside(p, Base(p, j), j)
    ensures Base(p, j) <= Base(p, k) && Base(p, k) + Pow2(k) <= Base(p, j) + Pow2(j)
    decreases top - k
  {
    BaseHolds(p, k);
    BaseOfBase(p, k, k + 1);
    if k == top || !Full(own, Base(p, k + 1), k + 1) {
      j := k;
    } else {
      j := Climb(own, top, p, k + 1);
    }
  }

  lemma HeadsApart(own: Owners, top: nat, x: nat, j: nat, y: nat, k: nat, p: nat)
    requires Head(own, top, x, j) && Head(own, top, y, k) && Inside(p, x, j) && Inside(p, y, k)
    ensures x == y && j == k
  {
    if j < k {
      NoLongerRun(own, top, x, j, y, k, p);
    } else if k < j {
      NoLongerRun(own, top, y, k, x, j, p);
    } else {
      BaseIs(p, x, j);
      BaseIs(p, y, j);
    }
  }

  lemma NoLongerRun(own: Owners, top: nat, x: nat, j: nat, y: nat, k: nat, p: nat)
    requires Head(own, top, x, j) && j < k <= top && Inside(p, x, j) && Inside(p, y, k)
    ensures !Full(own, y, k)
  {
    if Full(own, y, k) {
      BaseIs(p, x, j);
      BaseOfBase(p, j, j + 1);
      BaseHolds(p, j + 1);
      PartOfFull(own, y, k, Base(p, j + 1), j + 1, p);
    }
  }

  /** Taking a free block away leaves the other free blocks as they are. */
  lemma TakeBlock(own: Owners, top: nat, b: nat, k: nat, after: Owners, x: nat, j: nat)
    requires Head(own, top, b, k) && |after| == |own|
    requires forall p :: 0 <= p < |own| ==> (after[p] == FREE <==> own[p] == FREE && !Inside(p, b, k))
    ensures Head(after, top, x, j) <==> Head(own, top, x, j) && (x != b || j != k)
  {
    hide Base, Pow2;
    Pow2Positive(j);
    Pow2Positive(k);
    if Head(own, top, x, j) && (x != b || j != k) {
      forall p | x <= p < x + Pow2(j) ensures after[p] == FREE {
        if Inside(p, b, k) {
          HeadsApart(own, top, x, j, b, k, p);
        }
      }
    }
    if Head(after, top, x, j) {
      assert Full(own, x, j);
      assert after[x] == FREE;
      if j < top && Full(own, Base(x, j + 1), j + 1) {
        var y := Base(x, j + 1);
        BaseHolds(x, j + 1);
        var p :| y <= p < y + Pow2(j + 1) && after[p] != FREE;
        assert Inside(p, y, j + 1) && Inside(p, b, k);
        if j + 1 > k {
          NoLongerRun(own, top, b, k, y, j + 1, p);
        } else {
          Nested(y, j + 1, b, k, p);
          assert false;
        }
      }
    }
  }

  lemma OtherHalf(own: Owners, top: nat, b: nat, k: nat, after: Owners)
    requires k < top && Aligned(b, k) && b + Pow2(k) <= |own| && |after| == |own|
    requires forall p :: Inside(p, b, k) ==> own[p] != FREE
    requires forall p :: 0 <= p < |own| ==> (after[p] == FREE <==> own[p] == FREE || Inside(p, b, k))
    requires Full(after, Base(b, k + 1), k + 1)
    ensures Head(own, top, FlipBit(b, k), k)
  {
    hide Base, Pow2, FlipBit;
    Pow2Positive(k);
    BuddyIs(b, k);
    NextPow2(k);
    var c := FlipBit(b, k);
    assert forall p :: c <= p < c + Pow2(k) ==> !Inside(p, b, k) && after[p] == FREE;
    assert Full(own, c, k);
    assert Inside(b, b, k) && own[b] != FREE && Inside(b, Base(b, k + 1), k + 1);
  }

  /** Freeing an aligned run whose buddy is not a free block adds it to the free blocks. */
  lemma GiveBlock(own: Owners, top: nat, b: nat, k: nat, after: Owners, x: nat, j: nat)
    requires k <= top && Aligned(b, k) && b + Pow2(k) <= |own| && |after| == |own|
    requires forall p :: Inside(p, b, k) ==> own[p] != FREE
    requires k < top ==> !Head(own, top, FlipBit(b, k), k)
    requires forall p :: 0 <= p < |own| ==> (after[p] == FREE <==> own[p] == FREE || Inside(p, b, k))
    ensures Head(after, top, x, j) <==> Head(own, top, x, j) || (x == b && j == k)
  {
    hide Base, Pow2, FlipBit;
    Pow2Positive(k);
    assert Head(after, top, b, k) by {
      if k < top && Full(after, Base(b, k + 1), k + 1) {
        OtherHalf(own, top, b, k, after);
      }
    }
    TakeBlock(after, top, b, k, own, x, j);
  }

  lemma BaseZero(p: nat)
    ensures Base(p, 0) == p
  {
  }

  lemma NextPow2(k: nat)
    ensures Pow2(k + 1) == 2 * Pow2(k)
  {
  }

  // ---------- live blocks ----------

  /** What stands at the buddy of a live block is the head of a free block no longer than it, or of a live block. */
  lemma BuddyIsAHead(own: Owners, live: map<nat, nat>, top: nat, x: nat) returns (j: nat)
    requires LiveOk(own, live) && x in live && live[x] < top && FlipBit(x, live[x]) < |own|
    ensures var b := FlipBit(x, live[x]);
      b != x && (if b in live then own[b] == b else own[b] == FREE && j <= live[x] && Head(own, top, b, j))
  {
    hide Base, FlipBit;
    var k := live[x];
    var b := FlipBit(x, k);
    BuddyIs(x, k);
    Pow2Positive(k);
    j := 0;
    var y := Base(x, k + 1);
    BaseHolds(b, k + 1);
    BaseHolds(x, k + 1);
    assert Inside(x, x, k) && own[x] == x;
    if b in live {
      Pow2Positive(live[b]);
      assert Inside(b, b, live[b]);
    } else if own[b] == FREE {
      BaseZero(b);
      Pow2Zero();
      j := Climb(own, top, b, 0);
      if j > k {
        BaseOfBase(b, k + 1, j);
        assert false;
      }
      BaseOfBase(b, j, k);
    } else {
      var h: nat := own[b];
      assert OwnedBy(live, h, b);
      if live[h] > k {
        Nested(y, k + 1, h, live[h], b);
        assert false;
      }
      Nested(h, live[h], b, k, b);
    }
  }

  lemma Pow2Zero()
    ensures Pow2(0) == 1
  {
  }
}
