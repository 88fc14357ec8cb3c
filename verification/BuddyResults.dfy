/** What the free blocks of the buddy allocator come to, over any run. */
module BuddyResults {
  import opened Bits
  import opened Dyadic
  import opened BuddyBlocks
  import opened BuddyLists
  import opened BuddySteps

  /** A block that holds page `p`. */
  datatype Holder = FreeBlock(x: nat, k: nat) | LiveBlock(x: nat, k: nat)

  ghost predicate Holds(own: Owners, live: map<nat, nat>, top: nat, b: Holder, p: nat)
  {
    && Inside(p, b.x, b.k)
    && match b
       case FreeBlock(x, k) => Head(own, top, x, k)
       case LiveBlock(x, k) => x in live && live[x] == k
  }

  /** Free blocks and live blocks together cover every page, and no page twice. */
  lemma EveryPageOnce(own: Owners, live: map<nat, nat>, top: nat, p: nat) returns (b: Holder)
    requires LiveOk(own, live) && p < |own|
    ensures Holds(own, live, top, b, p) && (b.FreeBlock? <==> own[p] == FREE)
    ensures forall c: Holder :: Holds(own, live, top, c, p) ==> c == b
  {
    if own[p] == FREE {
      BaseZero(p);
      Pow2Zero();
      var k := Climb(own, top, p, 0);
      b := FreeBlock(Base(p, k), k);
    } else {
      var h: nat := own[p];
      assert OwnedBy(live, h, p);
      b := LiveBlock(h, live[h]);
    }
    forall c: Holder | Holds(own, live, top, c, p) ensures c == b {
      match c
      case LiveBlock(x, k) =>
        assert own[p] == x;
      case FreeBlock(x, k) =>
        assert own[p] == FREE;
        HeadsApart(own, top, x, k, b.x, b.k, p);
    }
  }

  /** Two free buddies are never left apart. */
  lemma BuddiesMerged(own: Owners, top: nat, x: nat, k: nat)
    requires k < top && Head(own, top, x, k)
    ensures !Head(own, top, FlipBit(x, k), k)
  {
    if Head(own, top, FlipBit(x, k), k) {
      WholeParent(own, top, x, k);
    }
  }

  lemma WholeParent(own: Owners, top: nat, x: nat, k: nat)
    requires Full(own, x, k) && Full(own, FlipBit(x, k), k)
    ensures Full(own, Base(x, k + 1), k + 1)
  {
    MergedRun(x, k);
    BuddyIs(x, k);
    NextPow2(k);
    hide Base, FlipBit, Pow2;
    var y := Base(x, k + 1);
    forall p | y <= p < y + Pow2(k + 1) ensures own[p] == FREE {
      assert Inside(p, y, k + 1);
    }
  }

  /**
    The free lists depend on which pages are free, not on how they came to be:
    whatever the order of past allocations and frees, the same free pages make
    the same free blocks.
  */
  lemma NoHistory(own: Owners, other: Owners, top: nat, lists: seq<seq<nat>>, others: seq<seq<nat>>, k: nat, x: nat)
    requires Canon(own, top, lists) && Canon(other, top, others) && k <= top && |own| == |other|
    requires forall p :: 0 <= p < |own| ==> (own[p] == FREE <==> other[p] == FREE)
    ensures x in lists[k] <==> x in others[k]
  {
    SameFull(own, other, x, k);
    SameFull(own, other, Base(x, k + 1), k + 1);
    assert Head(own, top, x, k) <==> Head(other, top, x, k);
  }

  lemma SameFull(own: Owners, other: Owners, x: nat, k: nat)
    requires |own| == |other|
    requires forall p :: 0 <= p < |own| ==> (own[p] == FREE <==> other[p] == FREE)
    ensures Full(own, x, k) <==> Full(other, x, k)
  {
  }

  /** Freeing what was just allocated gives the owners, and so the free blocks, back. */
  lemma AllocatedThenFreed(own: Owners, live: map<nat, nat>, x: nat, k: nat)
    requires LiveOk(own, live) && Full(own, x, k) && x < |own|
    ensures x + Pow2(k) <= |own| && Fill(Fill(own, x, k, x), x, k, FREE) == own && live[x := k] - {x} == live
  {
    Pow2Positive(k);
    FreeNotLive(own, live, x);
  }

  /** An area of 2^top pages has no live block exactly when all of it is one free block, and then there is no other. */
  lemma WholeAreaFree(own: Owners, live: map<nat, nat>, top: nat, lists: seq<seq<nat>>)
    requires LiveOk(own, live) && Canon(own, top, lists) && |own| == Pow2(top)
    ensures live == map[] <==> lists[top] != []
    ensures live == map[] ==> forall k: nat, x: nat :: k <= top ==> (x in lists[k] <==> k == top && x == 0)
  {
    hide Head, LiveOk, Full;
    if live == map[] {
      AllFree(own, live, top);
      forall k: nat, x: nat | k <= top ensures x in lists[k] <==> k == top && x == 0 {
        if Head(own, top, x, k) {
          OnlyHead(own, top, x, k);
        }
      }
      assert 0 in lists[top];
    } else if lists[top] != [] {
      var x := lists[top][0];
      assert x in lists[top];
      TopTakesAll(own, top, x);
      var h :| h in live;
      LiveOrder(own, live, top, h);
      assert false;
    }
  }

  lemma AllFree(own: Owners, live: map<nat, nat>, top: nat)
    requires LiveOk(own, live) && live == map[] && |own| == Pow2(top)
    ensures Head(own, top, 0, top) && forall p :: 0 <= p < |own| ==> own[p] == FREE
  {
    BaseOfZero(top);
  }

  lemma {:induction false} BaseOfZero(k: nat)
    ensures Base(0, k) == 0
  {
    if k == 0 {
    } else {
      BaseOfZero(k - 1);
    }
  }

  lemma OnlyHead(own: Owners, top: nat, x: nat, k: nat)
    requires |own| == Pow2(top) && Head(own, top, 0, top) && Head(own, top, x, k)
    ensures x == 0 && k == top
  {
    Pow2Positive(k);
    HeadsApart(own, top, x, k, 0, top, x);
  }

  lemma TopTakesAll(own: Owners, top: nat, x: nat)
    requires |own| == Pow2(top) && Head(own, top, x, top)
    ensures forall p :: 0 <= p < |own| ==> own[p] == FREE
  {
  }

  // ---------- the packed words ----------

  const FLAG_FREE: bv32 := 0x80000000
  const MASK_NEXT: bv32 := 0x0FFFFFFF
  const MASK_ORDER: bv32 := 0xF8000000
  const MASK_PREV: bv32 := 0x07FFFFFF

  /** An index below 2^27 comes back out of the word it is packed in, and replacing it keeps the free flag. */
  lemma NextPacks(free: bool, next: bv32, link: bv32)
    requires next < 0x8000000 && link < 0x8000000
    ensures var w := (if free then FLAG_FREE else 0) | next;
      && w & MASK_NEXT == next && (w & FLAG_FREE != 0 <==> free)
      && (w & MASK_ORDER) | link == (if free then FLAG_FREE else 0) | link
  {
  }

  /** So does an order below 32 beside it. */
  lemma PrevPacks(order: bv32, prev: bv32, link: bv32)
    requires order < 32 && prev < 0x8000000 && link < 0x8000000
    ensures var v := (order << 27) | prev;
      v & MASK_PREV == prev && v >> 27 == order && (v & MASK_ORDER) | link == (order << 27) | link
  {
  }
}
