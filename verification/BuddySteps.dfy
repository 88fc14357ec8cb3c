/** What one step of the buddy allocator does to the free blocks, their lists and their tags. */
module BuddySteps {
  import opened Sequences
  import opened Bits
  import opened Dyadic
  import opened BuddyBlocks
  import opened BuddyLists

  /** The list of each order holds exactly the free blocks of that order. */
  ghost predicate Canon(own: Owners, top: nat, lists: seq<seq<nat>>)
  {
    && |lists| == top + 1
    && forall k: nat, x: nat :: k <= top ==> (x in lists[k] <==> Head(own, top, x, k))
  }

  /**
    The page that heads a live block is tagged in use, with the order of the
    block.  `pending` is a block whose order is still to be recorded, `limbo`
    one that is being freed.
  */
  ghost predicate Tagged(all: seq<Tag>, live: map<nat, nat>, pending: int, limbo: int)
  {
    forall h :: h in live && h != limbo ==> h < |all| && !all[h].free && (h == pending || all[h].order == live[h])
  }

  lemma HeadTagged(all: seq<Tag>, free: seq<int>, lists: seq<seq<nat>>, own: Owners, top: nat, x: nat, k: nat)
    returns (j: nat)
    requires Linked(all, free, lists) && Canon(own, top, lists) && Head(own, top, x, k)
    ensures k <= top && j < |lists[k]| && lists[k][j] == x && x < |all| && all[x].free && all[x].order == k
  {
    assert x in lists[k];
    j :| 0 <= j < |lists[k]| && lists[k][j] == x;
    assert List(all, free[k], lists[k], k) && Node(all, lists[k], j, k);
  }

  lemma ListedIsFree(own: Owners, top: nat, lists: seq<seq<nat>>, k: nat, x: nat)
    requires Canon(own, top, lists) && k <= top && x in lists[k]
    ensures x < |own| && own[x] == FREE && Head(own, top, x, k)
  {
    assert Head(own, top, x, k);
    Pow2Positive(k);
  }

  /** The test buddy_free makes on the tag of the buddy tells whether it heads a free block of the same order. */
  lemma BuddyTest(all: seq<Tag>, free: seq<int>, lists: seq<seq<nat>>, own: Owners, live: map<nat, nat>, top: nat,
      pending: int, x: nat)
    requires Linked(all, free, lists) && Canon(own, top, lists) && LiveOk(own, live) && Tagged(all, live, pending, x)
    requires x in live && live[x] < top && FlipBit(x, live[x]) < |own| == |all|
    ensures var b := FlipBit(x, live[x]);
      all[b].free && all[b].order == live[x] <==> Head(own, top, b, live[x])
  {
    hide Head, LiveOk, Linked, FlipBit;
    var b := FlipBit(x, live[x]);
    var j := BuddyIsAHead(own, live, top, x);
    if Head(own, top, b, live[x]) {
      var _ := HeadTagged(all, free, lists, own, top, b, live[x]);
    }
    if b !in live {
      var _ := HeadTagged(all, free, lists, own, top, b, j);
    }
  }

  lemma CanonTaken(own: Owners, after: Owners, top: nat, lists: seq<seq<nat>>, k: nat, j: nat)
    requires Canon(own, top, lists) && k <= top && j < |lists[k]| && Distinct(lists[k]) && |after| == |own|
    requires forall p :: 0 <= p < |own| ==> (after[p] == FREE <==> own[p] == FREE && !Inside(p, lists[k][j], k))
    ensures Canon(after, top, lists[k := Without(lists[k], j)])
  {
    hide Head, Inside;
    var b := lists[k][j];
    var ls := lists[k := Without(lists[k], j)];
    assert b in lists[k] && Head(own, top, b, k);
    forall m: nat, x: nat | m <= top ensures x in ls[m] <==> Head(after, top, x, m) {
      TakeBlock(own, top, b, k, after, x, m);
      if m == k {
        WithoutHolds(lists[k], j, x);
      }
    }
  }

  lemma WithoutHolds(l: seq<nat>, j: nat, x: nat)
    requires j < |l| && Distinct(l)
    ensures x in Without(l, j) <==> x in l && x != l[j]
  {
    if x in l && x != l[j] {
      var i :| 0 <= i < |l| && l[i] == x;
      assert Without(l, j)[if i < j then i else i - 1] == x;
    }
  }

  lemma CanonGiven(own: Owners, after: Owners, top: nat, lists: seq<seq<nat>>, b: nat, k: nat)
    requires Canon(own, top, lists) && k <= top && Aligned(b, k) && b + Pow2(k) <= |own| && |after| == |own|
    requires forall p :: Inside(p, b, k) ==> own[p] != FREE
    requires k < top ==> !Head(own, top, FlipBit(b, k), k)
    requires forall p :: 0 <= p < |own| ==> (after[p] == FREE <==> own[p] == FREE || Inside(p, b, k))
    ensures Canon(after, top, lists[k := [b] + lists[k]])
  {
    hide Head, Inside, FlipBit;
    var ls := lists[k := [b] + lists[k]];
    forall m: nat, x: nat | m <= top ensures x in ls[m] <==> Head(after, top, x, m) {
      GiveBlock(own, top, b, k, after, x, m);
    }
  }

  // ---------- live blocks ----------

  lemma LiveOrder(own: Owners, live: map<nat, nat>, top: nat, h: nat)
    requires LiveOk(own, live) && h in live && |own| <= Pow2(top)
    ensures live[h] <= top && h < |own| && own[h] == h
  {
    Pow2Positive(live[h]);
    assert Inside(h, h, live[h]);
    if live[h] > top {
      Pow2Grows(top + 1, live[h]);
      Pow2Positive(top);
    }
  }

  /** Tags of live blocks stay when only those of listed pages, and of `x`, change. */
  lemma TagsKept(all: seq<Tag>, after: seq<Tag>, own: Owners, live: map<nat, nat>, top: nat, lists: seq<seq<nat>>,
      k: nat, x: nat, pending: int, limbo: int)
    requires Tagged(all, live, pending, limbo) && Canon(own, top, lists) && LiveOk(own, live) && k <= top
    requires |after| == |all| == |own| <= Pow2(top) && (x !in live || x == limbo)
    requires forall p :: 0 <= p < |all| && p != x && p !in lists[k] ==> after[p] == all[p]
    ensures Tagged(after, live, pending, limbo)
  {
    hide Head, LiveOk;
    forall h | h in live ensures h < |all| && h !in lists[k] {
      LiveOrder(own, live, top, h);
      if h in lists[k] {
        ListedIsFree(own, top, lists, k, h);
      }
    }
  }

  lemma LiveFreed(own: Owners, live: map<nat, nat>, h: nat)
    requires LiveOk(own, live) && h in live
    ensures LiveOk(Fill(own, h, live[h], FREE), live - {h})
  {
  }

  lemma FreeNotLive(own: Owners, live: map<nat, nat>, b: nat)
    requires LiveOk(own, live) && b < |own| && own[b] == FREE
    ensures b !in live
  {
    if b in live {
      Pow2Positive(live[b]);
      assert Inside(b, b, live[b]);
    }
  }

  lemma MergedRun(x: nat, k: nat)
    requires Aligned(x, k)
    ensures var y, b := Base(x, k + 1), FlipBit(x, k);
      && Aligned(y, k + 1) && (y == x || y == b)
      && (forall p :: Inside(p, y, k + 1) <==> Inside(p, x, k) || Inside(p, b, k))
      && (forall p :: !(Inside(p, x, k) && Inside(p, b, k))) && Inside(x, x, k) && Inside(b, b, k)
  {
    hide Base, FlipBit, Pow2;
    BuddyIs(x, k);
    NextPow2(k);
    Pow2Positive(k);
    BaseHolds(x, k + 1);
  }

  /** A live block, renamed, takes in free pages. */
  lemma LiveGrown(own: Owners, live: map<nat, nat>, x: nat, y: nat, m: nat)
    requires LiveOk(own, live) && x in live && Aligned(y, m) && y + Pow2(m) <= |own| && (y == x || y !in live)
    requires forall p :: Inside(p, x, live[x]) ==> Inside(p, y, m)
    requires forall p :: Inside(p, y, m) ==> Inside(p, x, live[x]) || own[p] == FREE
    ensures LiveOk(Fill(own, y, m, y), (live - {x})[y := m])
  {
    hide Base, Pow2;
    var after, alive := Fill(own, y, m, y), (live - {x})[y := m];
    forall p | 0 <= p < |own| && after[p] != FREE ensures after[p] >= 0 && OwnedBy(alive, after[p], p) {
      if !Inside(p, y, m) {
        var h: nat := own[p];
        assert OwnedBy(live, h, p);
        assert h != x;
      }
    }
    forall h, p | h in alive && Inside(p, h, alive[h]) ensures after[p] == h {
      if h != y {
        assert Inside(p, h, live[h]) && own[p] == h;
      }
    }
  }

  /** A block in limbo takes in its free buddy. */
  lemma LiveMerged(own: Owners, live: map<nat, nat>, x: nat)
    requires LiveOk(own, live) && x in live && Full(own, FlipBit(x, live[x]), live[x])
    ensures var k := live[x]; var y := Base(x, k + 1);
      && Aligned(y, k + 1) && y + Pow2(k + 1) <= |own|
      && (forall p :: Inside(p, y, k + 1) <==> Inside(p, x, k) || Inside(p, FlipBit(x, k), k))
      && (forall p :: 0 <= p < |own| ==>
           (Fill(own, y, k + 1, y)[p] == FREE <==> own[p] == FREE && !Inside(p, FlipBit(x, k), k)))
      && (y == x || y !in live) && LiveOk(Fill(own, y, k + 1, y), (live - {x})[y := k + 1])
  {
    var k := live[x];
    var y, b := Base(x, k + 1), FlipBit(x, k);
    MergedRun(x, k);
    BuddyIs(x, k);
    NextPow2(k);
    FreeNotLive(own, live, b);
    LiveGrown(own, live, x, y, k + 1);
  }

  /** The free runs of the area do not link through pages that are not free. */
  lemma LinkedFrame(all: seq<Tag>, after: seq<Tag>, free: seq<int>, lists: seq<seq<nat>>, own: Owners, top: nat, p: nat)
    requires Linked(all, free, lists) && Canon(own, top, lists) && p < |own| == |all| == |after| && own[p] != FREE
    requires forall q :: 0 <= q < |all| && q != p ==> after[q] == all[q]
    ensures Linked(after, free, lists)
  {
    hide Head;
    forall k | 0 <= k < |lists| ensures List(after, free[k], lists[k], k) {
      assert List(all, free[k], lists[k], k);
      forall j | 0 <= j < |lists[k]| ensures lists[k][j] != p {
        ListedIsFree(own, top, lists, k, lists[k][j]);
      }
      ListFrame(all, after, free[k], lists[k], k);
    }
  }

  // ---------- splitting ----------

  /**
    While the block (x, k) is split for (y, m): pages below `done` are free
    again, those of (y, m) taken, the rest live on their own.
  */
  function SplitOwners(own: Owners, x: nat, k: nat, y: nat, m: nat, done: nat): (r: Owners)
    ensures |r| == |own|
  {
    seq(|own|, p requires 0 <= p < |own| =>
      if Inside(p, y, m) then y else if Inside(p, x, k) && p >= done then p else own[p])
  }

  function SplitLive(live: map<nat, nat>, x: nat, k: nat, y: nat, m: nat, done: nat): map<nat, nat>
  {
    live + (map p: nat | done <= p < x + Pow2(k) && !Inside(p, y, m) :: 0)[y := m]
  }

  lemma SplitLiveAt(live: map<nat, nat>, x: nat, k: nat, y: nat, m: nat, done: nat, h: nat)
    ensures var l, single := SplitLive(live, x, k, y, m, done), done <= h < x + Pow2(k) && !Inside(h, y, m);
      && (h in l <==> h in live || single || h == y)
      && (h in l ==> l[h] == if h == y then m else if single then 0 else live[h])
  {
  }

  predicate Within(x: nat, k: nat, y: nat, m: nat)
  {
    m <= k && Aligned(y, m) && x <= y && y + Pow2(m) <= x + Pow2(k)
  }

  lemma SplitStart(own: Owners, live: map<nat, nat>, x: nat, k: nat, y: nat, m: nat)
    requires LiveOk(own, live) && Full(own, x, k) && Within(x, k, y, m)
    ensures LiveOk(SplitOwners(own, x, k, y, m, x), SplitLive(live, x, k, y, m, x))
    ensures forall h :: h in live ==> !Inside(h, x, k)
  {
    hide Base;
    var after, alive := SplitOwners(own, x, k, y, m, x), SplitLive(live, x, k, y, m, x);
    forall h | h in live ensures !Inside(h, x, k) {
      if Inside(h, x, k) {
        FreeNotLive(own, live, h);
      }
    }
    Pow2Positive(m);
    Pow2Zero();
    hide SplitLive, Pow2;
    assert Inside(y, x, k);
    forall p | 0 <= p < |own| && after[p] != FREE ensures after[p] >= 0 && OwnedBy(alive, after[p], p) {
      if !Inside(p, x, k) {
        assert OwnedBy(live, own[p], p);
      }
      SplitLiveAt(live, x, k, y, m, x, after[p]);
    }
    forall h | h in alive ensures Aligned(h, alive[h]) && h + Pow2(alive[h]) <= |own| {
      SplitLiveAt(live, x, k, y, m, x, h);
      BaseZero(h);
    }
    forall h, p | h in alive && Inside(p, h, alive[h]) ensures after[p] == h {
      SplitLiveAt(live, x, k, y, m, x, h);
      if h in live {
        assert h != y && Inside(p, h, live[h]) && own[p] == h;
        assert !Inside(p, x, k);
      }
    }
  }

  lemma SplitPage(own: Owners, live: map<nat, nat>, x: nat, k: nat, y: nat, m: nat, done: nat)
    requires LiveOk(own, live) && Full(own, x, k) && Within(x, k, y, m) && Inside(done, x, k) && !Inside(done, y, m)
    ensures var o, l := SplitOwners(own, x, k, y, m, done), SplitLive(live, x, k, y, m, done);
      && done in l && l[done] == 0 && done + Pow2(0) <= |own|
      && Fill(o, done, 0, FREE) == SplitOwners(own, x, k, y, m, done + 1)
      && l - {done} == SplitLive(live, x, k, y, m, done + 1)
  {
    FreeNotLive(own, live, done);
    Pow2Zero();
    Pow2Positive(m);
    var o, next := SplitOwners(own, x, k, y, m, done), SplitOwners(own, x, k, y, m, done + 1);
    var l, rest := SplitLive(live, x, k, y, m, done), SplitLive(live, x, k, y, m, done + 1);
    hide SplitLive, Pow2, LiveOk;
    SplitLiveAt(live, x, k, y, m, done, done);
    assert forall p :: 0 <= p < |own| ==> Fill(o, done, 0, FREE)[p] == next[p];
    forall h: nat ensures h in rest <==> h in l && h != done
    ensures h in rest ==> l[h] == rest[h] {
      SplitLiveAt(live, x, k, y, m, done, h);
      SplitLiveAt(live, x, k, y, m, done + 1, h);
    }
  }

  lemma SplitEnd(own: Owners, live: map<nat, nat>, x: nat, k: nat, y: nat, m: nat)
    requires Full(own, x, k) && Within(x, k, y, m)
    ensures SplitOwners(own, x, k, y, m, x + Pow2(k)) == Fill(own, y, m, y)
    ensures SplitLive(live, x, k, y, m, x + Pow2(k)) == live[y := m]
  {
    var none := map p: nat | x + Pow2(k) <= p < x + Pow2(k) && !Inside(p, y, m) :: 0;
    assert none == map[];
  }

  // ---------- merging ----------

  /** The block (start, o), in limbo, has grown to (x, k) by taking in free pages. */
  ghost predicate Grown(before: Owners, own: Owners, start: nat, o: nat, x: nat, k: nat)
  {
    && |own| == |before| && x + Pow2(k) <= |own| && start + Pow2(o) <= |own| && Aligned(x, k)
    && (forall p :: 0 <= p < |own| ==> own[p] == if Inside(p, x, k) then x else before[p])
    && (forall p :: Inside(p, start, o) ==> Inside(p, x, k))
    && (forall p :: Inside(p, x, k) && !Inside(p, start, o) ==> before[p] == FREE)
  }

  lemma LiveRun(own: Owners, live: map<nat, nat>, h: nat)
    requires LiveOk(own, live) && h in live
    ensures Grown(own, own, h, live[h], h, live[h])
  {
    hide Base, Pow2;
  }

  lemma FirstOfBuddies(own: Owners, live: map<nat, nat>, x: nat)
    requires LiveOk(own, live) && x in live
    ensures var b := FlipBit(x, live[x]);
      Base(x, live[x] + 1) == if b < x then b else x
  {
    BuddyIs(x, live[x]);
    Pow2Positive(live[x]);
  }

  lemma GrownMore(before: Owners, own: Owners, after: Owners, start: nat, o: nat, x: nat, k: nat)
    requires Grown(before, own, start, o, x, k) && Full(own, FlipBit(x, k), k)
    requires var y := Base(x, k + 1); y + Pow2(k + 1) <= |own| && after == Fill(own, y, k + 1, y)
    ensures Grown(before, after, start, o, Base(x, k + 1), k + 1)
  {
    MergedRun(x, k);
    hide Base, FlipBit, Pow2;
  }

  lemma GrownFreed(before: Owners, own: Owners, after: Owners, start: nat, o: nat, x: nat, k: nat)
    requires Grown(before, own, start, o, x, k) && x + Pow2(k) <= |own| && after == Fill(own, x, k, FREE)
    ensures start + Pow2(o) <= |before| && after == Fill(before, start, o, FREE)
  {
    hide Base, Pow2;
  }

  lemma OutOfRange(own: Owners, top: nat, b: nat, k: nat)
    requires b >= |own|
    ensures !Head(own, top, b, k)
  {
    Pow2Positive(k);
  }

  lemma NotListed(own: Owners, top: nat, lists: seq<seq<nat>>, x: nat)
    requires Canon(own, top, lists) && x < |own| && own[x] != FREE
    ensures forall m :: 0 <= m <= top ==> x !in lists[m]
  {
    hide Head;
    forall m | 0 <= m <= top ensures x !in lists[m] {
      if x in lists[m] {
        ListedIsFree(own, top, lists, m, x);
      }
    }
  }

  lemma SplitTakes(own: Owners, x: nat, k: nat, y: nat, m: nat)
    requires Full(own, x, k) && Within(x, k, y, m)
    ensures var o := SplitOwners(own, x, k, y, m, x);
      && (forall p :: 0 <= p < |own| ==> (o[p] == FREE <==> own[p] == FREE && !Inside(p, x, k)))
      && (forall p :: Inside(p, x, k) ==> o[p] != FREE)
  {
  }

  lemma SplitSkip(own: Owners, x: nat, k: nat, y: nat, m: nat)
    requires Within(x, k, y, m)
    ensures SplitOwners(own, x, k, y, m, y) == SplitOwners(own, x, k, y, m, y + Pow2(m))
  {
  }

  lemma SplitSkipLive(live: map<nat, nat>, x: nat, k: nat, y: nat, m: nat)
    requires Within(x, k, y, m)
    ensures SplitLive(live, x, k, y, m, y) == SplitLive(live, x, k, y, m, y + Pow2(m))
    ensures var l := SplitLive(live, x, k, y, m, y); y in l && l[y] == m
  {
    SplitLiveAt(live, x, k, y, m, y, y);
    hide Pow2, SplitLive;
    var l, n := SplitLive(live, x, k, y, m, y), SplitLive(live, x, k, y, m, y + Pow2(m));
    forall h: nat ensures h in l <==> h in n
    ensures h in l ==> l[h] == n[h] {
      SplitLiveAt(live, x, k, y, m, y, h);
      SplitLiveAt(live, x, k, y, m, y + Pow2(m), h);
    }
  }

  lemma SplitTagged(all: seq<Tag>, after: seq<Tag>, live: map<nat, nat>, x: nat, k: nat, y: nat, m: nat)
    requires Tagged(all, live, -1, -1) && Within(x, k, y, m) && |after| == |all| && x + Pow2(k) <= |all|
    requires forall h :: h in live ==> !Inside(h, x, k)
    requires forall p :: 0 <= p < |all| && !Inside(p, x, k) ==> after[p] == all[p]
    requires forall p :: Inside(p, x, k) && (p == y || !Inside(p, y, m)) ==> after[p] == Tag(false, 0, 0, 0)
    ensures Tagged(after, SplitLive(live, x, k, y, m, x), y, -1)
  {
    Pow2Positive(m);
    var l := SplitLive(live, x, k, y, m, x);
    hide SplitLive, Pow2, Base;
    assert Inside(y, x, k);
    forall h | h in l ensures h < |after| && !after[h].free && (h == y || after[h].order == l[h]) {
      SplitLiveAt(live, x, k, y, m, x, h);
    }
  }

  // ---------- looking for a run ----------

  lemma LinkedList(all: seq<Tag>, free: seq<int>, lists: seq<seq<nat>>, k: nat)
    requires Linked(all, free, lists) && k < |lists|
    ensures k < |free| && List(all, free[k], lists[k], k)
  {
  }

  lemma StartOfRun(own: Owners, top: nat, x: nat, k: nat, m: nat)
    requires Head(own, top, x, k) && m <= k
    ensures Within(x, k, x, m) && x + Pow2(m) <= |own| && x + Pow2(k) <= |own| && Full(own, x, m)
  {
    Pow2Positive(m);
    Pow2Grows(m, k);
    BaseOfBase(x, m, k);
    assert Aligned(x, m);
  }

  lemma NoneListed(own: Owners, top: nat, lists: seq<seq<nat>>, k: nat, i: nat)
    requires Canon(own, top, lists) && i <= top + 1 && forall m :: k <= m < i ==> lists[m] == []
    ensures forall m: nat, y: nat :: k <= m < i ==> !Head(own, top, y, m)
  {
    forall m: nat, y: nat | k <= m < i ensures !Head(own, top, y, m) {
      assert y !in lists[m];
    }
  }

  lemma SomeCovers(own: Owners, top: nat, x: nat, k: nat) returns (j: nat)
    requires k <= top && Full(own, x, k)
    ensures k <= j <= top && !NoneCovers(own, top, j, x, k)
  {
    j := Climb(own, top, x, k);
    var y := Base(x, j);
    assert Head(own, top, y, j) && y <= x && x + Pow2(k) <= y + Pow2(j);
  }

  lemma NotCovered(own: Owners, top: nat, x: nat, k: nat)
    requires |own| <= Pow2(top)
    requires NoneCoversBelow(own, top, top + 1, x, k)
    ensures !Full(own, x, k)
  {
    if Full(own, x, k) {
      if k > top {
        Pow2Grows(top + 1, k);
        Pow2Positive(top);
      } else {
        var j := SomeCovers(own, top, x, k);
      }
    }
  }

  lemma NoRun(own: Owners, top: nat, lists: seq<seq<nat>>, k: nat)
    requires Canon(own, top, lists) && |own| <= Pow2(top) && forall m :: k <= m <= top ==> lists[m] == []
    ensures forall x: nat :: !Full(own, x, k)
  {
    forall x: nat ensures !Full(own, x, k) {
      NoneListed(own, top, lists, k, top + 1);
      NotCovered(own, top, x, k);
    }
  }

  lemma RunFits(own: Owners, top: nat, y: nat, i: nat, x: nat, k: nat)
    requires Head(own, top, y, i) && Within(y, i, x, k)
    ensures Full(own, x, k) && x < |own|
  {
    Pow2Positive(k);
  }

  lemma RunAligned(offset: nat, k: nat, bits: nat)
    requires Pow2(k + bits) > 0 && offset % Pow2(k + bits) == 0
    ensures Aligned(PageAt(offset, bits), k) && offset == PageAt(offset, bits) * Pow2(bits)
  {
    Pow2Positive(bits);
    Pow2Positive(k);
    Pow2Sum(bits, k);
    var w := Pow2(bits);
    DivDiv(offset, w, Pow2(k));
    assert offset / w % Pow2(k) == 0 && offset % w == 0;
    AlignedMod(offset / w, k);
    assert offset == offset / w * w + offset % w;
  }

  lemma SameAddress(adr: nat, base: nat, offset: nat)
    requires adr < 0x1_0000_0000 && base + offset < 0x1_0000_0000 && (adr - base) % 0x1_0000_0000 == offset
    ensures adr == base + offset
  {
  }

  // ---------- the start ----------

  /** Every page a live block of its own. */
  function AllLive(n: nat): (own: Owners)
    ensures |own| == n && forall p :: 0 <= p < n ==> own[p] == p
  {
    seq(n, p => p)
  }

  function EachLive(n: nat): (live: map<nat, nat>)
    ensures forall p: nat :: p in live <==> p < n
    ensures forall p :: p in live ==> live[p] == 0
  {
    if n == 0 then map[] else EachLive(n - 1)[n - 1 := 0]
  }

  lemma FillOne(own: Owners, i: nat)
    requires i < |own|
    ensures i + Pow2(0) <= |own| && Fill(own, i, 0, FREE) == own[i := FREE]
  {
    Pow2Zero();
  }

  lemma NothingFree(all: seq<Tag>, free: seq<int>, own: Owners, live: map<nat, nat>, lists: seq<seq<nat>>, top: nat)
    requires own == AllLive(|all|) && live == EachLive(|all|) && lists == seq(top + 1, _ => [])
    requires (forall p :: 0 <= p < |all| ==> all[p] == Tag(false, 0, 0, 0)) && |free| >= |lists|
    requires forall k :: 0 <= k < |free| ==> free[k] == -1
    ensures Linked(all, free, lists) && Canon(own, top, lists) && LiveOk(own, live) && Tagged(all, live, -1, -1)
  {
    forall k: nat, x: nat | k <= top ensures x !in lists[k] && !Head(own, top, x, k) {
      Pow2Positive(k);
      assert x < |own| ==> own[x] != FREE;
    }
    forall k | 0 <= k < |lists| ensures List(all, free[k], lists[k], k) {
    }
    Pow2Zero();
    forall h | h in live ensures Aligned(h, live[h]) {
      BaseZero(h);
    }
  }

  lemma AreaFits(bytes: nat, bits: nat)
    ensures PageAt(bytes, bits) * Pow2(bits) <= bytes
  {
    Pow2Positive(bits);
    assert bytes == bytes / Pow2(bits) * Pow2(bits) + bytes % Pow2(bits);
  }

  /** `a & ~mask` and `(a + mask) & ~mask` for the mask of a page of 2^bits bytes. */
  function RoundDown(a: nat, bits: nat): nat
  {
    PageAt(a, bits) * Pow2(bits)
  }

  function RoundUp(a: nat, bits: nat): nat
  {
    Pow2Positive(bits);
    RoundDown(a + (Pow2(bits) - 1), bits)
  }

  lemma PageHolds(d: nat, bits: nat)
    ensures PageAt(d, bits) * Pow2(bits) <= d < PageAt(d, bits) * Pow2(bits) + Pow2(bits)
  {
    Pow2Positive(bits);
    assert d == d / Pow2(bits) * Pow2(bits) + d % Pow2(bits);
  }

  lemma PageIs(x: nat, bits: nat, d: nat)
    requires x * Pow2(bits) <= d < x * Pow2(bits) + Pow2(bits)
    ensures PageAt(d, bits) == x
  {
    Split(x, Pow2(bits), d - x * Pow2(bits));
  }

  lemma PagesFit(x: nat, bits: nat, n: nat)
    requires x < n
    ensures x * Pow2(bits) + Pow2(bits) <= n * Pow2(bits)
  {
    Pow2Positive(bits);
    MulAtLeast(n - x, Pow2(bits));
    assert n * Pow2(bits) == x * Pow2(bits) + (n - x) * Pow2(bits);
  }

  lemma MultipleTimes(x: nat, u: nat, w: nat)
    requires u >= 1 && w >= 1 && x % u == 0
    ensures u * w > 0 && x * w >= 0 && x * w % (u * w) == 0
  {
    var a := x / u;
    MulAtLeast(u, w);
    TimesBack(x, a, u, w);
    Split(a, u * w, 0);
  }

  lemma TimesBack(x: nat, a: nat, u: nat, w: nat)
    requires x == a * u
    ensures x * w == a * (u * w) && x * w >= 0
  {
  }

  /** An aligned run starts at a multiple of its size. */
  lemma RunStart(x: nat, k: nat, bits: nat)
    requires Aligned(x, k)
    ensures Pow2(k + bits) > 0 && x * Pow2(bits) >= 0 && x * Pow2(bits) % Pow2(k + bits) == 0
  {
    Pow2Positive(k);
    Pow2Positive(bits);
    Pow2Sum(k, bits);
    AlignedMod(x, k);
    MultipleTimes(x, Pow2(k), Pow2(bits));
  }

  lemma RunBytes(x: nat, k: nat, bits: nat, n: nat)
    requires x + Pow2(k) <= n
    ensures x * Pow2(bits) + Pow2(k + bits) <= n * Pow2(bits)
  {
    Pow2Sum(k, bits);
    Pow2Positive(bits);
    var w, m := Pow2(bits), Pow2(k);
    assert (x + m) * w == x * w + m * w;
    MulMonotone(x + m, n, w);
  }

  lemma MulMonotone(a: nat, b: nat, w: nat)
    requires a <= b
    ensures a * w <= b * w
  {
  }
}
