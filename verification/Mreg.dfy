/**
  The two-level region manager of library/mem/src/mreg.c: free regions of whole
  megabytes, and regions whose pages a buddy allocator hands out.  Addresses are
  integers below 2^32 whose sums do not wrap.
*/
module Mreg {
  import opened Bits
  import opened Dyadic
  import opened BuddyBlocks
  import opened BuddySteps
  import BuddyLists
  import BuddyResults
  import opened Buddy
  import opened MregRegions
  import opened MregBlocks
  import opened Sequences

  const MB_BITS: nat := 20

  /** Who has the byte at an address. */
  datatype Holder = Nobody | FreeMeg | Whole(region: Region) | Small(buddy: Area)

  // ---------- level 1 ----------

  /** mreg_find_ending; the list's length stands for null. */
  method FindEnding(l: seq<Region>, end: int) returns (i: nat)
    ensures i <= |l| && (i < |l| ==> l[i].end == end)
    ensures i == |l| ==> forall k :: 0 <= k < |l| ==> l[k].end != end
  {
    i := 0;
    while i < |l|
      invariant i <= |l| && forall k :: 0 <= k < i ==> l[k].end != end
    {
      if l[i].end == end {
        return;
      }
      i := i + 1;
    }
  }

  /** mreg_find_starting */
  method FindStarting(l: seq<Region>, start: int) returns (i: nat)
    ensures i <= |l| && (i < |l| ==> l[i].start == start)
    ensures i == |l| ==> forall k :: 0 <= k < |l| ==> l[k].start != start
  {
    i := 0;
    while i < |l|
      invariant i <= |l| && forall k :: 0 <= k < i ==> l[k].start != start
    {
      if l[i].start == start {
        return;
      }
      i := i + 1;
    }
  }

  /** mreg_level1_free: the region joins the free ones it is adjacent to. */
  method Level1Free(free: seq<Region>, mem: Region) returns (l: seq<Region>)
    requires Megs(free) && Meg(mem) && forall x :: In(mem, x) ==> !Covered(free, x)
    ensures Megs(l) && forall x :: Covered(l, x) <==> Covered(free, x) || In(mem, x)
  {
    l := [mem] + free;
    PushedMegs(free, mem);
    forall x ensures Covered(l, x) <==> Covered(free, x) || In(mem, x) {
      PushedCovers(free, mem, x);
    }
    var at := 0;
    var i := FindEnding(l, mem.start - 1);
    if i < |l| {
      ghost var was := l;
      HeadJoin(was, at, i);
      forall x ensures Covered(HeadJoined(was, at, i), x) <==> Covered(was, x) {
        JoinedCovers(was, i, at, Region(was[i].start, was[at].end), x);
      }
      l := l[i := Region(l[i].start, l[at].end)];
      l := Removed(l, at);
      at := i - 1;
    }
    var j := FindStarting(l, l[at].end + 1);
    if j < |l| {
      ghost var was := l;
      TailJoin(was, at, j);
      forall x ensures Covered(TailJoined(was, at, j), x) <==> Covered(was, x) {
        JoinedCovers(was, at, j, Region(was[at].start, was[j].end), x);
      }
      l := l[at := Region(l[at].start, l[j].end)];
      l := Removed(l, j);
    } else {
      NoJoin(l, at);
    }
  }

  /** The part of a region that mreg_level1_split keeps, and the part it gives to the list. */
  function Part(from: Region, size: int, first: bool): Region
  {
    if first then Region(from.start, from.start + size - 1) else Region(from.start + size, from.end)
  }

  method Level1Split(free: seq<Region>, from: Region, size: int, keepFirst: bool) returns (kept: Region, l: seq<Region>)
    requires Meg(from) && 0 < size < Size(from) && size % MB == 0
    requires Megs(free) && forall k :: 0 <= k < |free| ==>
      Apart(free[k], from) && Gap(free[k], Part(from, size, !keepFirst))
    ensures Meg(kept) && kept == Part(from, size, keepFirst) && l == [Part(from, size, !keepFirst)] + free
    ensures Taken(free, from, l, kept)
  {
    var second := Region(from.start + size, from.end);
    var first := Region(from.start, from.start + size - 1);
    l := [if keepFirst then second else first] + free;
    kept := if keepFirst then first else second;
    forall x ensures Covered(l, x) <==> Covered(free, x) || In(l[0], x) {
      PushedCovers(free, l[0], x);
    }
    assert forall x :: In(kept, x) ==> !Covered(free, x);
  }

  /** Of the bytes of `free` and `from`, those of `kept` are out of the list `l`, and all others are in it. */
  ghost predicate Taken(free: seq<Region>, from: Region, l: seq<Region>, kept: Region)
  {
    && Megs(l)
    && (forall x :: Covered(l, x) || In(kept, x) <==> Covered(free, x) || In(from, x))
    && (forall x :: In(kept, x) ==> !Covered(l, x))
  }

  /**
    mreg_level1_allocate: the first of the smallest free regions that will do,
    cut to size when a record for the rest can be had.
  */
  method Level1Allocate(free: seq<Region>, count: int, gotRecord: bool)
    returns (found: bool, best: Region, l: seq<Region>)
    requires Megs(free) && count >= 1
    ensures found <==> exists k :: 0 <= k < |free| && Size(free[k]) >= count * MB
    ensures !found ==> l == free
    ensures found ==> Meg(best) && Megs(l) && (forall x :: In(best, x) ==> !Covered(l, x))
    ensures found ==> forall x :: Covered(free, x) <==> Covered(l, x) || In(best, x)
    ensures found ==> Size(best) >= count * MB && (gotRecord ==> Size(best) == count * MB)
    ensures found ==> forall k :: 0 <= k < |free| && Size(free[k]) >= count * MB ==>
      exists i :: 0 <= i < |free| && free[i].start == best.start && count * MB <= Size(free[i]) <= Size(free[k])
  {
    var size := count * MB;
    found, best, l := false, Region(0, -1), free;
    var i, b := 0, 0;
    while i < |free|
      invariant i <= |free| && (found ==> b < |free| && Size(free[b]) >= size)
      invariant forall k :: 0 <= k < i && Size(free[k]) >= size ==> found && Size(free[b]) <= Size(free[k])
    {
      if Size(free[i]) >= size {
        if !found || Size(free[i]) < Size(free[b]) {
          found, b := true, i;
        }
      }
      i := i + 1;
    }
    if found {
      best := free[b];
      RemovedMegs(free, b);
      l := Removed(free, b);
      forall x ensures Covered(free, x) <==> Covered(l, x) || In(best, x) {
        RemovedCovers(free, b, x);
      }
      NotTwice(free, b);
      if Size(best) > size && gotRecord {
        best, l := Level1Split(l, best, size, true);
      }
    }
  }

  lemma WholeParts(r: Region, adr: int, count: int)
    requires Meg(r) && adr % MB == 0
    ensures (adr - r.start) % MB == 0 && (adr + count * MB - adr) % MB == 0
  {
  }

  lemma RemovedTaken(free: seq<Region>, i: nat)
    requires Megs(free) && i < |free|
    ensures Taken(free, free[i], Removed(free, i), free[i])
    ensures forall k :: 0 <= k < |free| - 1 ==> Gap(Removed(free, i)[k], free[i])
  {
    RemovedMegs(free, i);
    forall x ensures Covered(free, x) <==> Covered(Removed(free, i), x) || In(free[i], x) {
      RemovedCovers(free, i, x);
    }
    NotTwice(free, i);
  }

  lemma NotTwice(l: seq<Region>, b: nat)
    requires Megs(l) && b < |l|
    ensures forall x :: In(l[b], x) ==> !Covered(Removed(l, b), x)
  {
    var r := Removed(l, b);
    forall x | In(l[b], x) ensures !Covered(r, x) {
      if Covered(r, x) {
        var k :| 0 <= k < |r| && In(r[k], x);
        RemovedMegs(l, b);
      }
    }
  }

  /** mreg_level1_allocate_at: `count` megabytes from `adr` on, when a free region has them all. */
  method Level1AllocateAt(free: seq<Region>, adr: nat, count: int) returns (found: bool, target: Region, l: seq<Region>)
    requires Megs(free) && count >= 1
    ensures found <==>
      adr % MB == 0 && exists k :: 0 <= k < |free| && free[k].start <= adr && adr + count * MB - 1 <= free[k].end
    ensures !found ==> l == free
    ensures found ==> target == Region(adr, adr + count * MB - 1) && Meg(target) && Taken(free, target, l, target)
  {
    var end := adr + count * MB - 1;
    found, target, l := false, Region(0, -1), free;
    if adr % MB != 0 {
      return;
    }
    var i := 0;
    while i < |free| && !(free[i].start <= adr && end <= free[i].end)
      invariant i <= |free|
      invariant forall k :: 0 <= k < i ==> !(free[k].start <= adr && end <= free[k].end)
    {
      i := i + 1;
    }
    if i == |free| {
      return;
    }
    found, target, l := true, free[i], Removed(free, i);
    RemovedTaken(free, i);
    WholeParts(target, adr, count);
    hide Meg, Megs, Covered;
    target, l := CutOut(l, target, adr, end);
  }

  /** The space before `adr` and the space after `end` are split off a region that is on no list. */
  method CutOut(free: seq<Region>, from: Region, adr: nat, end: int) returns (target: Region, l: seq<Region>)
    requires Meg(from) && Megs(free) && from.start <= adr <= end <= from.end
    requires (adr - from.start) % MB == 0 && (end + 1 - adr) % MB == 0
    requires forall k :: 0 <= k < |free| ==> Gap(free[k], from)
    requires forall x :: In(from, x) ==> !Covered(free, x)
    ensures target == Region(adr, end) && Meg(target) && Taken(free, from, l, target)
  {
    hide Meg, Megs;
    target, l := from, free;
    if target.start < adr {
      target, l := Level1Split(l, target, adr - target.start, false);
    }
    if target.end > end {
      ghost var rest := Part(target, end - target.start + 1, false);
      forall k | 0 <= k < |l| ensures Apart(l[k], target) && Gap(l[k], rest) {
        assert |l| == |free| + 1 && k > 0 ==> l[k] == free[k - 1];
      }
      target, l := Level1Split(l, target, end - target.start + 1, true);
    }
  }

  // ---------- the manager ----------

  /** A buddy region: a whole megabyte, or the part of one at an end of an attached region. */
  ghost predicate ParentOk(p: Parent, bits: nat)
    reads p.buddy, p.buddy.all, p.buddy.free
  {
    && p.buddy.Valid() && p.buddy.base == p.region.start && p.buddy.pageBits == bits
    && p.buddy.indexMax * Pow2(bits) == Size(p.region) >= 1
    && (p.buddy.order > 1 ==> p.buddy.indexMax > Pow2(p.buddy.order - 2))
    && (Size(p.region) < MB || (Size(p.region) == MB && Meg(p.region)))
  }

  /** Each byte has one holder, and the lists say which. */
  ghost predicate Held(holder: int -> Holder, free: seq<Region>, live: set<Region>, parents: seq<Parent>)
  {
    && (forall x :: holder(x) == FreeMeg <==> Covered(free, x))
    && (forall r, x :: r in live && In(r, x) ==> holder(x) == Whole(r))
    && (forall x :: holder(x).Whole? ==> holder(x).region in live && In(holder(x).region, x))
    && (forall i, x :: 0 <= i < |parents| && In(parents[i].region, x) ==> holder(x) == Small(parents[i].buddy))
    && (forall x :: holder(x).Small? ==> exists i :: 0 <= i < |parents| && In(parents[i].region, x))
  }

  ghost function Reassigned(holder: int -> Holder, r: Region, to: Holder): int -> Holder
  {
    x => if In(r, x) then to else holder(x)
  }

  lemma HeldSame(holder: int -> Holder, free: seq<Region>, live: set<Region>, parents: seq<Parent>, l: seq<Region>)
    requires Held(holder, free, live, parents) && forall x :: Covered(l, x) <==> Covered(free, x)
    ensures Held(holder, l, live, parents)
  {
  }

  lemma HeldFree(holder: int -> Holder, free: seq<Region>, live: set<Region>, parents: seq<Parent>)
    requires Held(holder, free, live, parents)
    ensures forall x :: holder(x) == FreeMeg <==> Covered(free, x)
  {
  }

  /** A region leaves the free list for a caller. */
  lemma HeldTaken(holder: int -> Holder, free: seq<Region>, live: set<Region>, parents: seq<Parent>, r: Region,
      l: seq<Region>)
    requires Held(holder, free, live, parents) && Meg(r)
    requires forall x :: Covered(free, x) <==> Covered(l, x) || In(r, x)
    requires forall x :: In(r, x) ==> !Covered(l, x)
    ensures Held(Reassigned(holder, r, Whole(r)), l, live + {r}, parents) && r !in live
    ensures forall x :: In(r, x) ==> holder(x) == FreeMeg
  {
    assert In(r, r.start);
  }

  /** A caller gives a region back. */
  lemma HeldGiven(holder: int -> Holder, free: seq<Region>, live: set<Region>, parents: seq<Parent>, r: Region,
      l: seq<Region>)
    requires Held(holder, free, live, parents) && Meg(r) && r in live
    requires forall x :: Covered(l, x) <==> Covered(free, x) || In(r, x)
    ensures Held(Reassigned(holder, r, FreeMeg), l, live - {r}, parents)
  {
  }

  /** Memory that nobody has, or a free region, becomes a buddy region. */
  lemma HeldParent(holder: int -> Holder, free: seq<Region>, live: set<Region>, parents: seq<Parent>, p: Parent,
      l: seq<Region>)
    requires Held(holder, free, live, parents) && forall i :: 0 <= i < |parents| ==> parents[i].buddy != p.buddy
    requires forall x :: Covered(l, x) <==> Covered(free, x) && !In(p.region, x)
    requires forall x :: In(p.region, x) ==> holder(x) == FreeMeg || holder(x) == Nobody
    ensures Held(Reassigned(holder, p.region, Small(p.buddy)), l, live, [p] + parents)
  {
    var h, ps := Reassigned(holder, p.region, Small(p.buddy)), [p] + parents;
    forall i, x | 0 <= i < |ps| && In(ps[i].region, x) ensures h(x) == Small(ps[i].buddy) {
      if i > 0 {
        assert ps[i] == parents[i - 1];
      }
    }
    forall x | h(x).Small? ensures exists i :: 0 <= i < |ps| && In(ps[i].region, x) {
      if In(p.region, x) {
        assert In(ps[0].region, x);
      } else {
        var i :| 0 <= i < |parents| && In(parents[i].region, x);
        assert In(ps[i + 1].region, x);
      }
    }
  }

  lemma HeldApart(holder: int -> Holder, free: seq<Region>, live: set<Region>, parents: seq<Parent>, i: nat)
    requires Held(holder, free, live, parents) && i < |parents|
    ensures forall x :: In(parents[i].region, x) ==> !Covered(free, x) && holder(x).Small?
  {
  }

  ghost predicate InLive(live: set<Region>, x: int)
  {
    exists r :: r in live && In(r, x)
  }

  ghost predicate InParents(parents: seq<Parent>, x: int)
  {
    exists i :: 0 <= i < |parents| && In(parents[i].region, x)
  }

  /** Free megabytes, live regions and buddy regions partition the memory that somebody has. */
  lemma Partition(holder: int -> Holder, free: seq<Region>, live: set<Region>, parents: seq<Parent>, x: int)
    requires Held(holder, free, live, parents) && Megs(free)
    requires forall i, j :: 0 <= i < j < |parents| ==> parents[i].buddy != parents[j].buddy
    ensures holder(x) != Nobody <==> Covered(free, x) || InLive(live, x) || InParents(parents, x)
    ensures !(Covered(free, x) && InLive(live, x)) && !(Covered(free, x) && InParents(parents, x))
    ensures !(InLive(live, x) && InParents(parents, x))
    ensures forall i, j :: 0 <= i < j < |free| ==> !(In(free[i], x) && In(free[j], x))
    ensures forall r, q :: r in live && q in live && In(r, x) && In(q, x) ==> r == q
    ensures forall i, j :: 0 <= i < |parents| && 0 <= j < |parents| ==>
      In(parents[i].region, x) && In(parents[j].region, x) ==> i == j
  {
    assert holder(x).Whole? ==> InLive(live, x);
    assert holder(x).Small? ==> InParents(parents, x);
    assert InLive(live, x) ==> holder(x).Whole?;
    assert InParents(parents, x) ==> holder(x).Small?;
  }

  function WithoutParent(parents: seq<Parent>, i: nat): (r: seq<Parent>)
    requires i < |parents|
    ensures |r| == |parents| - 1 && forall k :: 0 <= k < |r| ==> r[k] == if k < i then parents[k] else parents[k + 1]
  {
    parents[..i] + parents[i + 1..]
  }

  /** A buddy region goes back to the free regions. */
  lemma HeldShrunk(holder: int -> Holder, free: seq<Region>, live: set<Region>, parents: seq<Parent>, i: nat,
      l: seq<Region>)
    requires Held(holder, free, live, parents) && i < |parents|
    requires forall j :: 0 <= j < |parents| && j != i ==> parents[j].buddy != parents[i].buddy
    requires forall x :: Covered(l, x) <==> Covered(free, x) || In(parents[i].region, x)
    ensures Held(Reassigned(holder, parents[i].region, FreeMeg), l, live, WithoutParent(parents, i))
  {
    var h, ps, p := Reassigned(holder, parents[i].region, FreeMeg), WithoutParent(parents, i), parents[i];
    forall j, x | 0 <= j < |ps| && In(ps[j].region, x) ensures h(x) == Small(ps[j].buddy) {
      var was := if j < i then j else j + 1;
      assert ps[j] == parents[was] && holder(x) == Small(parents[was].buddy);
    }
    forall x | h(x).Small? ensures exists j :: 0 <= j < |ps| && In(ps[j].region, x) {
      var j :| 0 <= j < |parents| && In(parents[j].region, x);
      assert ps[if j < i then j else j - 1] == parents[j];
    }
  }

  /** Memory that nobody has becomes free. */
  lemma HeldAttached(holder: int -> Holder, free: seq<Region>, live: set<Region>, parents: seq<Parent>, r: Region,
      l: seq<Region>)
    requires Held(holder, free, live, parents) && forall x :: In(r, x) ==> holder(x) == Nobody
    requires forall x :: Covered(l, x) <==> Covered(free, x) || In(r, x)
    ensures Held(Reassigned(holder, r, FreeMeg), l, live, parents)
  {
  }

  /** The aligned run of 2^k pages at `adr` is free in a buddy area that starts at `base`. */
  ghost predicate FreeAt(own: Owners, base: int, bits: nat, adr: nat, k: nat)
  {
    Pow2Positive(k + bits);
    (adr - base) % ADDRESSES % Pow2(k + bits) == 0 && Full(own, PageAt((adr - base) % ADDRESSES, bits), k)
  }

  ghost predicate WholePages(r: Region, bits: nat)
  {
    Pow2Positive(bits);
    r.start % Pow2(bits) == 0 && Size(r) % Pow2(bits) == 0
  }

  lemma PagesOf(r: Region, bits: nat)
    requires 0 <= r.start <= r.end && Size(r) <= MB && bits <= MB_BITS && WholePages(r, bits)
    ensures PageAt(Size(r), bits) * Pow2(bits) == Size(r) && 1 <= PageAt(Size(r), bits) <= Pow2(26)
  {
    Pow2Positive(bits);
    Exact(Size(r), Pow2(bits));
    AtLeastFactor(PageAt(Size(r), bits), Pow2(bits));
    MbIs();
    Pow2Grows(20, 26);
    hide Pow2;
  }

  lemma Exact(x: nat, w: nat)
    requires w >= 1 && x % w == 0
    ensures x / w * w == x
  {
  }

  lemma AtLeastFactor(n: nat, w: nat)
    requires n * w >= 1 && w >= 1
    ensures 1 <= n <= n * w
  {
  }

  lemma NoBounds(bits: nat)
    requires bits <= MB_BITS
    ensures RoundUp(0, bits) == 0 && RoundDown(0, bits) == 0 && Pow2(bits) <= ADDRESSES
  {
    Pow2Positive(bits);
    PageIs(0, bits, Pow2(bits) - 1);
    PageIs(0, bits, 0);
    Pow2Grows(bits, 20);
    MbIs();
  }

  lemma OneMeg(r: Region, bits: nat)
    requires Meg(r) && Size(r) == MB && bits <= MB_BITS
    ensures WholePages(r, bits)
  {
    MbIs();
    Pow2Positive(bits);
    Pow2Sum(bits, 20 - bits);
    Divides(r.start, Pow2(bits), Pow2(20 - bits));
    Divides(MB, Pow2(bits), Pow2(20 - bits));
  }

  lemma Divides(x: nat, w: nat, m: nat)
    requires w >= 1 && m >= 1 && w * m > 0 && x % (w * m) == 0
    ensures x % w == 0
  {
    DivDiv(x, w, m);
  }

  /** The order of an area of 2^k pages. */
  lemma OrderIs(n: nat, top: nat, k: nat)
    requires n == Pow2(k) && n <= Pow2(top) && (top > 0 ==> n > Pow2(top - 1))
    ensures top == k
  {
    Pow2Positive(k);
    if top < k {
      Pow2Grows(top, k - 1);
    } else if top > k {
      Pow2Grows(k, top - 1);
    }
  }

  /** What buddy_contains_order says of a whole megabyte: the region is a megabyte, and no block of it is live. */
  lemma ContainsMeans(own: Owners, live: map<nat, nat>, top: nat, bits: nat, size: int, contains: bool)
    requires LiveOk(own, live) && bits <= MB_BITS && |own| * Pow2(bits) == size <= MB
    requires |own| <= Pow2(top) && (top > 0 ==> |own| > Pow2(top - 1))
    requires contains ==> MB_BITS - bits <= top
    requires MB_BITS - bits <= top ==> (contains <==> HasHead(own, top, MB_BITS - bits))
    ensures contains <==> size == MB && live == map[]
  {
    var k := MB_BITS - bits;
    MbIs();
    Pow2Sum(k, bits);
    Pow2Positive(bits);
    if size == MB {
      SameFactor(|own|, Pow2(k), Pow2(bits));
      OrderIs(|own|, top, k);
      if live == map[] {
        BuddyResults.AllFree(own, live, top);
      }
    }
    if contains {
      var x: nat :| Head(own, top, x, k);
      HeadIsFull(own, top, x, k);
      MulMonotone(Pow2(k), |own|, Pow2(bits));
      SameFactor(|own|, Pow2(k), Pow2(bits));
      NoneLive(own, live, x, k);
    }
  }

  lemma NoneLive(own: Owners, live: map<nat, nat>, x: nat, k: nat)
    requires LiveOk(own, live) && Full(own, x, k) && |own| == Pow2(k)
    ensures live == map[]
  {
    forall h | h in live ensures false {
      Pow2Positive(live[h]);
      FreeNotLive(own, live, h);
    }
  }

  lemma RoundedUp(size: nat, bits: nat)
    ensures size <= RoundUp(size, bits) < size + Pow2(bits)
  {
    Pow2Positive(bits);
    PageHolds(size + (Pow2(bits) - 1), bits);
  }

  lemma RoundedDown(adr: nat, bits: nat)
    ensures RoundDown(adr, bits) <= adr < RoundDown(adr, bits) + Pow2(bits)
  {
    PageHolds(adr, bits);
  }

  // ---------- the parts of a new region ----------

  function UpMb(x: nat): int
  {
    (x + MB - 1) / MB * MB
  }

  /** The length of the whole megabytes between `first` and `end`. */
  function MegsIn(first: nat, end: int): int
  {
    (end - UpMb(first)) / MB * MB
  }

  /** The same length in 32 bits. */
  function MegsIn32(first: nat, end: int): int
  {
    (end - UpMb(first)) % ADDRESSES / MB * MB
  }

  /**
    The difference wraps exactly when the pages reach no boundary between
    megabytes; the length is then nearly that of the address space.
  */
  lemma MegsWrap(first: nat, end: nat)
    requires first <= end < ADDRESSES
    ensures MegsIn32(first, end) <= end - first <==> UpMb(first) <= end
    ensures MegsIn32(first, end) == if UpMb(first) <= end then MegsIn(first, end) else ADDRESSES - MB
  {
    var m := UpMb(first);
    assert first <= m < first + MB && m % MB == 0;
    if m > end {
      assert (end - m) % ADDRESSES == ADDRESSES + end - m;
      assert (ADDRESSES + end - m) / MB == ADDRESSES / MB - 1;
    }
  }

  lemma Pieces(first: nat, end: nat)
    requires UpMb(first) <= end <= ADDRESSES
    ensures var m, n := UpMb(first), MegsIn(first, end);
      && first <= m < first + MB && m % MB == 0 && 0 <= n && m + n <= end < m + n + MB && (m + n) % MB == 0
      && (n != 0 ==> Meg(Region(m, m + n - 1)))
  {
  }

  /** The end of the whole pages of a region that starts at `adr`. */
  function PagesEnd(adr: nat, size: nat, bits: nat): nat
  {
    var first := RoundUp(adr, bits);
    if adr + size >= first then first + RoundDown(size + adr - first, bits) else first
  }

  /**
    Byte `x` of a new region becomes available: always in its whole megabytes,
    elsewhere when `parts` can be managed.
  */
  predicate Attached(adr: nat, size: nat, bits: nat, parts: bool, x: int)
  {
    var first, end := RoundUp(adr, bits), PagesEnd(adr, size, bits);
    first <= x < end && (parts || UpMb(first) <= x < UpMb(first) + MegsIn(first, end))
  }

  ghost predicate OnPage(x: int, bits: nat)
  {
    Pow2Positive(bits);
    x % Pow2(bits) == 0
  }

  lemma RoundedOnPage(x: nat, bits: nat)
    ensures OnPage(RoundDown(x, bits), bits)
  {
    Pow2Positive(bits);
    Split(PageAt(x, bits), Pow2(bits), 0);
  }

  lemma MbOnPage(x: nat, bits: nat)
    requires x % MB == 0 && bits <= MB_BITS
    ensures OnPage(x, bits)
  {
    MbIs();
    Pow2Positive(bits);
    Pow2Positive(20 - bits);
    Pow2Sum(bits, 20 - bits);
    Divides(x, Pow2(bits), Pow2(20 - bits));
  }

  lemma PageNotBefore(adr: nat, base: nat, bits: nat)
    requires OnPage(base, bits) && base <= adr
    ensures base <= RoundDown(adr, bits)
  {
    Pow2Positive(bits);
    var w := Pow2(bits);
    var p, q := PageAt(adr, bits), base / w;
    PageHolds(adr, bits);
    Exact(base, w);
    if q > p {
      MulMonotone(p + 1, q, w);
    } else {
      MulMonotone(q, p, w);
    }
  }

  lemma OnPageSums(a: int, b: int, bits: nat)
    requires OnPage(a, bits) && OnPage(b, bits)
    ensures OnPage(a + b, bits) && OnPage(a - b, bits)
  {
    Pow2Positive(bits);
    var w := Pow2(bits);
    assert a == a / w * w + a % w && b == b / w * w + b % w;
    assert a + b == (a / w + b / w) * w;
    assert a - b == (a / w - b / w) * w;
    Split(a / w + b / w, w, 0);
    Split(a / w - b / w, w, 0);
  }

  lemma HeadWhole(adr: nat, adr1: nat, bits: nat)
    requires adr1 % MB == 0 && bits <= MB_BITS && RoundUp(adr, bits) < adr1
    ensures WholePages(Region(RoundUp(adr, bits), adr1 - 1), bits)
  {
    Pow2Positive(bits);
    RoundedOnPage(adr + (Pow2(bits) - 1), bits);
    MbOnPage(adr1, bits);
    OnPageSums(adr1, RoundUp(adr, bits), bits);
  }

  lemma TailWhole(adr: nat, d: nat, from: nat, bits: nat)
    requires from % MB == 0 && bits <= MB_BITS && from < RoundUp(adr, bits) + RoundDown(d, bits)
    ensures WholePages(Region(from, RoundUp(adr, bits) + RoundDown(d, bits) - 1), bits)
  {
    Pow2Positive(bits);
    RoundedOnPage(adr + (Pow2(bits) - 1), bits);
    RoundedOnPage(d, bits);
    MbOnPage(from, bits);
    OnPageSums(RoundUp(adr, bits), RoundDown(d, bits), bits);
    OnPageSums(RoundUp(adr, bits) + RoundDown(d, bits), from, bits);
  }

  /** No buddy region has a block for `size` bytes. */
  ghost predicate NoneHas(stocks: seq<Stock>, size: nat, bits: nat)
  {
    stocks == [] || exists k: nat :: OrderFor(size, k, bits) && forall j :: 0 <= j < |stocks| ==>
      !HasRun(stocks[j].own, k)
  }

  /** No buddy region has a free block for `size` bytes at `adr`. */
  ghost predicate NoneHasAt(stocks: seq<Stock>, parents: seq<Parent>, adr: nat, size: nat, bits: nat)
    requires |stocks| == |parents|
  {
    stocks == [] || exists k: nat ::
      OrderFor(size, k, bits) && forall j :: 0 <= j < |stocks| ==>
        !FreeAt(stocks[j].own, parents[j].region.start, bits, adr, k)
  }

  lemma MbIs()
    ensures Pow2(MB_BITS) == MB
  {
    assert Pow2(10) == 1024;
    Pow2Sum(10, 10);
  }

  lemma OrderSmall(size: nat, k: nat, bits: nat)
    requires OrderFor(size, k, bits) && size <= MB && bits <= MB_BITS
    ensures k + bits <= MB_BITS
  {
    MbIs();
    if k + bits > MB_BITS {
      Pow2Grows(MB_BITS, bits + k - 1);
    }
  }

  /** The least order whose blocks hold `size` bytes. */
  ghost predicate OrderFor(size: nat, k: nat, bits: nat)
  {
    size <= Pow2(bits + k) && (k > 0 ==> size > Pow2(bits + k - 1))
  }

  /** A whole megabyte of a buddy, with no live block. */
  ghost predicate Idle(p: Parent)
    reads p.buddy
  {
    Size(p.region) == MB && p.buddy.live == map[]
  }

  /** The live blocks of some buddy regions. */
  ghost function BlocksOf(parents: seq<Parent>, bits: nat): set<Mem>
    reads set i | 0 <= i < |parents| :: parents[i].buddy
  {
    set i, x | 0 <= i < |parents| && x in parents[i].buddy.live ::
      BlockOf(parents[i], x, parents[i].buddy.live[x], bits)
  }

  /** A region without a live block can go. */
  lemma BlocksWithout(was: seq<Parent>, i: nat, bits: nat)
    requires i < |was| && was[i].buddy.live == map[]
    ensures BlocksOf(WithoutParent(was, i), bits) == BlocksOf(was, bits)
  {
    hide BlockOf;
    var now := WithoutParent(was, i);
    forall h | h in BlocksOf(was, bits)
      ensures h in BlocksOf(now, bits)
    {
      var j, x :| 0 <= j < |was| && x in was[j].buddy.live && h == BlockOf(was[j], x, was[j].buddy.live[x], bits);
      assert was[j] == now[if j < i then j else j - 1];
    }
  }

  /** Regions without a live block can come. */
  lemma BlocksMore(more: seq<Parent>, was: seq<Parent>, bits: nat)
    requires forall j :: 0 <= j < |more| ==> more[j].buddy.live == map[]
    ensures BlocksOf(more + was, bits) == BlocksOf(was, bits)
  {
    hide BlockOf;
    var now := more + was;
    forall h | h in BlocksOf(was, bits)
      ensures h in BlocksOf(now, bits)
    {
      var j, x :| 0 <= j < |was| && x in was[j].buddy.live && h == BlockOf(was[j], x, was[j].buddy.live[x], bits);
      assert was[j] == now[|more| + j];
    }
  }

  /** A megabyte of which no block is live has a block for anything up to a megabyte. */
  lemma EmptyMegHasRun(own: Owners, live: map<nat, nat>, size: nat, k: nat, bits: nat)
    requires LiveOk(own, live) && live == map[] && |own| * Pow2(bits) == MB && bits <= MB_BITS
    requires OrderFor(size, k, bits) && size <= MB
    ensures HasRun(own, k)
  {
    OrderSmall(size, k, bits);
    MbIs();
    Pow2Sum(MB_BITS - bits, bits);
    Pow2Positive(bits);
    SameFactor(|own|, Pow2(MB_BITS - bits), Pow2(bits));
    Pow2Grows(k, MB_BITS - bits);
    BuddyResults.BaseOfZero(k);
    assert Full(own, 0, k);
  }

  /** A least order is the only one, so a block handed out shows that there was one. */
  lemma HandedOutHas(before: seq<Stock>, after: seq<Stock>, parents: seq<Parent>, bits: nat, i: nat, k: nat, x: nat,
      m: Mem, size: nat)
    requires OrderFor(size, k, bits) && HandedOut(before, after, parents, bits, i, k, x, m)
    ensures !NoneHas(before, size, bits)
  {
    forall j: nat | OrderFor(size, j, bits)
      ensures HasRun(before[i].own, j)
    {
      OneOrder(size, k, j, bits);
      assert Full(before[i].own, x, k);
    }
  }

  lemma HandedOutFrom(before: seq<Stock>, after: seq<Stock>, parents: seq<Parent>, bits: nat, i: nat, k: nat, x: nat,
      m: Mem)
    requires HandedOut(before, after, parents, bits, i, k, x, m)
    ensures i < |before| == |parents|
  {
  }

  lemma EmptyParentHasRun(p: Parent, bits: nat, size: nat, k: nat)
    requires ParentOk(p, bits) && bits <= MB_BITS && Size(p.region) == MB && p.buddy.live == map[]
    requires OrderFor(size, k, bits) && size <= MB
    ensures HasRun(p.buddy.own, k)
  {
    EmptyMegHasRun(p.buddy.own, p.buddy.live, size, k, bits);
  }

  lemma OneOrder(size: nat, k: nat, j: nat, bits: nat)
    requires OrderFor(size, k, bits) && OrderFor(size, j, bits)
    ensures k == j
  {
    if k < j {
      Pow2Grows(bits + k, bits + j - 1);
    } else if j < k {
      Pow2Grows(bits + j, bits + k - 1);
    }
  }

  lemma {:induction false} SomeOrder(size: nat, bits: nat, up: nat) returns (k: nat)
    requires size <= Pow2(bits + up)
    ensures OrderFor(size, k, bits)
    decreases up
  {
    if up == 0 || size > Pow2(bits + up - 1) {
      k := up;
    } else {
      k := SomeOrder(size, bits, up - 1);
    }
  }

  lemma NoneHasAtIs(stocks: seq<Stock>, parents: seq<Parent>, adr: nat, size: nat, k: nat, bits: nat)
    requires |stocks| == |parents| && OrderFor(size, k, bits)
    ensures NoneHasAt(stocks, parents, adr, size, bits) <==>
      forall j :: 0 <= j < |stocks| ==> !FreeAt(stocks[j].own, parents[j].region.start, bits, adr, k)
  {
    hide FreeAt, OrderFor;
    if NoneHasAt(stocks, parents, adr, size, bits) && stocks != [] {
      var l: nat :| OrderFor(size, l, bits)
        && forall j :: 0 <= j < |stocks| ==> !FreeAt(stocks[j].own, parents[j].region.start, bits, adr, l);
      OneOrder(size, k, l, bits);
    }
  }

  /** In a megabyte with no live block a run is free when it is aligned there. */
  lemma EmptyMegFreeAt(own: Owners, live: map<nat, nat>, base: nat, bits: nat, adr: nat, k: nat)
    requires LiveOk(own, live) && live == map[] && |own| * Pow2(bits) == MB && k + bits <= MB_BITS
    requires base % MB == 0 && base <= adr < base + MB
    ensures FreeAt(own, base, bits, adr, k) <==> AlignedAt(adr, k + bits)
  {
    OffsetInMeg(base, adr);
    Pow2Positive(k + bits);
    if (adr - base) % Pow2(k + bits) == 0 {
      AlignedRunFree(own, live, adr - base, bits, k);
    }
    hide LiveOk, Full, Pow2, PageAt;
  }

  lemma OffsetInMeg(base: nat, adr: nat)
    requires base % MB == 0 && base <= adr < base + MB
    ensures adr - base == adr % MB && (adr - base) % ADDRESSES == adr - base
  {
  }

  lemma AlignedRunFree(own: Owners, live: map<nat, nat>, offset: nat, bits: nat, k: nat)
    requires LiveOk(own, live) && live == map[] && |own| * Pow2(bits) == MB && k + bits <= MB_BITS
    requires offset < MB && Pow2(k + bits) > 0 && offset % Pow2(k + bits) == 0
    ensures Full(own, PageAt(offset, bits), k)
  {
    RunAligned(offset, k, bits);
    hide LiveOk, Full, Pow2, PageAt;
    EmptyMegRun(own, live, PageAt(offset, bits), k, bits);
  }

  /** The place of `adr` in its megabyte is a multiple of 2^n. */
  predicate AlignedAt(adr: nat, n: nat)
  {
    Pow2Positive(n);
    adr % MB % Pow2(n) == 0
  }

  lemma EmptyMegRun(own: Owners, live: map<nat, nat>, x: nat, k: nat, bits: nat)
    requires LiveOk(own, live) && live == map[] && |own| * Pow2(bits) == MB && k + bits <= MB_BITS
    requires Aligned(x, k) && x * Pow2(bits) < MB
    ensures Full(own, x, k)
  {
    MbIs();
    Pow2Sum(MB_BITS - bits, bits);
    Pow2Positive(bits);
    Pow2Positive(k);
    SameFactor(|own|, Pow2(MB_BITS - bits), Pow2(bits));
    if x >= |own| {
      MulMonotone(|own|, x, Pow2(bits));
    }
    BuddyResults.BaseOfZero(MB_BITS - bits);
    Nested(x, k, 0, MB_BITS - bits, x);
  }

  lemma EmptyParentFreeAt(p: Parent, bits: nat, adr: nat, k: nat)
    requires ParentOk(p, bits) && Size(p.region) == MB && p.region.start % MB == 0 && p.buddy.live == map[]
    requires k + bits <= MB_BITS && p.region.start <= adr < p.region.start + MB
    ensures FreeAt(p.buddy.own, p.region.start, bits, adr, k) <==> AlignedAt(adr, k + bits)
  {
    EmptyMegFreeAt(p.buddy.own, p.buddy.live, p.region.start, bits, adr, k);
  }

  /** A block for `size` bytes at `adr` would be aligned in the megabyte. */
  ghost predicate FitsMeg(adr: nat, size: nat, bits: nat)
  {
    exists k: nat :: OrderFor(size, k, bits) && AlignedAt(adr, k + bits)
  }

  // ---------- what a request finds ----------

  function InMegs(size: int): int
  {
    (size + MB - 1) / MB
  }

  lemma InMegsHolds(size: int)
    ensures size <= InMegs(size) * MB < size + MB
  {
  }

  ghost predicate NoMegs(free: seq<Region>, count: int)
  {
    forall k :: 0 <= k < |free| ==> Size(free[k]) < count * MB
  }

  /** Nothing changed in the regions there were, and new ones have nothing live. */
  ghost predicate More(there: seq<Parent>, was: seq<Stock>, parents: seq<Parent>, now: seq<Stock>)
  {
    && |now| == |parents| >= |there| == |was|
    && parents[|parents| - |there|..] == there && now[|now| - |was|..] == was
    && forall j :: 0 <= j < |now| - |was| ==> now[j].live == map[]
  }

  lemma MoreSame(parents: seq<Parent>, s: seq<Stock>)
    requires |parents| == |s|
    ensures More(parents, s, parents, s)
  {
  }

  /** The length of the whole pages that hold `size` bytes at `adr`. */
  function SizeAt(adr: nat, size: nat, bits: nat): nat
  {
    RoundedDown(adr, bits);
    RoundUp(size + adr - RoundDown(adr, bits), bits)
  }

  /** The whole pages that hold `size` bytes at `adr` lie within one megabyte. */
  predicate Near(adr: nat, size: nat, bits: nat)
  {
    RoundDown(adr, bits) / MB == (RoundDown(adr, bits) + SizeAt(adr, size, bits) - 1) / MB
  }

  lemma PagesUp(a: nat, t: nat, bits: nat)
    ensures t * Pow2(bits) >= 0 && RoundUp(t * Pow2(bits) + a, bits) == t * Pow2(bits) + RoundUp(a, bits)
  {
    Pow2Positive(bits);
    var w := Pow2(bits);
    var d := a + (w - 1);
    PageHolds(d, bits);
    var q := PageAt(d, bits);
    assert (t + q) * w == t * w + q * w;
    NonNegativeProduct(t, w);
    PageIs(t + q, bits, t * w + d);
  }

  lemma NonNegativeProduct(t: nat, w: nat)
    ensures t * w >= 0
  {
  }

  /** The pages counted from the page of `adr` end with the page of the last byte. */
  lemma SizeAtIs(adr: nat, size: nat, bits: nat)
    ensures RoundDown(adr, bits) + SizeAt(adr, size, bits) == RoundUp(adr + size, bits)
    ensures RoundDown(adr, bits) <= adr && adr + size <= RoundDown(adr, bits) + SizeAt(adr, size, bits)
  {
    RoundedDown(adr, bits);
    PagesUp(size + adr - RoundDown(adr, bits), PageAt(adr, bits), bits);
    RoundedUp(adr + size, bits);
    hide RoundUp;
  }

  /** The pages lie within one megabyte exactly when the bytes do. */
  lemma NearIs(adr: nat, size: nat, bits: nat)
    requires size > 0 && bits <= MB_BITS
    ensures Near(adr, size, bits) <==> adr / MB == (adr + size - 1) / MB
  {
    SizeAtIs(adr, size, bits);
    PageMeg(adr, RoundDown(adr, bits), bits);
    EndPage(adr + size, bits);
    PageMeg(adr + size - 1, RoundUp(adr + size, bits) - 1, bits);
    hide RoundUp, RoundDown, SizeAt;
  }

  lemma EndPage(e: nat, bits: nat)
    requires e > 0
    ensures RoundUp(e, bits) >= e && PageAt(RoundUp(e, bits) - 1, bits) == PageAt(e - 1, bits)
  {
    hide PageAt, Pow2;
    RoundedUp(e, bits);
    Pow2Positive(bits);
    var w := Pow2(bits);
    PageHolds(e + (w - 1), bits);
    var q := PageAt(e + (w - 1), bits);
    OneLess(q, w);
    PageIs(q - 1, bits, e - 1);
    PageIs(q - 1, bits, q * w - 1);
  }

  lemma OneLess(q: nat, w: nat)
    requires q * w >= 1
    ensures q >= 1 && (q - 1) * w == q * w - w
  {
  }

  /** A page lies within one megabyte. */
  lemma PageMeg(a: nat, b: nat, bits: nat)
    requires bits <= MB_BITS && (PageAt(a, bits) == PageAt(b, bits) || b == RoundDown(a, bits))
    ensures a / MB == b / MB
  {
    Pow2Positive(bits);
    PageIs(PageAt(a, bits), bits, PageAt(a, bits) * Pow2(bits));
    MbIs();
    Pow2Sum(bits, MB_BITS - bits);
    Pow2Positive(MB_BITS - bits);
    DivDiv(a, Pow2(bits), Pow2(MB_BITS - bits));
    DivDiv(b, Pow2(bits), Pow2(MB_BITS - bits));
  }

  /** A block has the size of its order. */
  lemma HandedSize(before: seq<Stock>, after: seq<Stock>, parents: seq<Parent>, bits: nat, i: nat, k: nat, x: nat,
      m: Mem, size: nat)
    requires HandedOut(before, after, parents, bits, i, k, x, m) && OrderFor(size, k, bits)
    ensures m.Child? && size <= Size(m.region) && (k > 0 ==> Size(m.region) < 2 * size)
  {
    hide GivenOut;
    assert k + bits == bits + k;
    if k > 0 {
      assert Pow2(bits + k) == 2 * Pow2(bits + k - 1);
    }
  }

  lemma BlockHoldsSize(before: seq<Stock>, after: seq<Stock>, parents: seq<Parent>, bits: nat, i: nat, k: nat, x: nat,
      m: Mem, adr: nat, size: nat)
    requires HandedOut(before, after, parents, bits, i, k, x, m) && OrderFor(SizeAt(adr, size, bits), k, bits)
    requires m != Null && m.region.start == RoundDown(adr, bits)
    ensures m.region.start <= adr && adr + size - 1 <= m.region.end
  {
    hide HandedOut, OrderFor, SizeAt, RoundDown;
    SizeAtIs(adr, size, bits);
    HandedSize(before, after, parents, bits, i, k, x, m, SizeAt(adr, size, bits));
  }

  lemma NearSmall(adr: nat, size: nat, bits: nat)
    requires Near(adr, size, bits)
    ensures SizeAt(adr, size, bits) <= MB
  {
    hide SizeAt, RoundDown;
  }

  /** The megabyte that holds an address. */
  function MegAt(adr: nat): nat
  {
    adr / MB * MB
  }

  /** An allocator can be made for a region: there is memory, and pages are of a size it accepts. */
  predicate CanManage(bits: nat, gotMemory: bool)
  {
    5 <= bits && gotMemory
  }

  /** A call of mreg_alloc or of mreg_alloc_at, and whether there is memory for an allocator and for a record. */
  datatype Ask =
    | Of(size: nat, gotMemory: bool, gotRecord: bool)
    | At(adr: nat, size: nat, gotMemory: bool, gotRecord: bool)

  /** Sizes whose rounding up does not wrap in 32 bits. */
  predicate Askable(ask: Ask)
  {
    match ask
    case Of(size, gotMemory, gotRecord) => size <= 0x8000_0000
    case At(adr, size, gotMemory, gotRecord) => adr + size <= ADDRESSES - MB
  }

  function Members(s: seq<Mem>): set<Mem>
  {
    set g | g in s
  }

  ghost predicate Disjoint(g: Mem, h: Mem)
  {
    g != Null && h != Null && Apart(g.region, h.region)
  }

  class Manager {
    var pageBits: nat
    var freeMegs: seq<Region>
    var freeBuddies: seq<Parent>
    ghost var live: set<Region>
    ghost var holder: int -> Holder

    ghost function Buddies(): set<Area>
      reads this
    {
      set i | 0 <= i < |freeBuddies| :: freeBuddies[i].buddy
    }

    ghost function Tags(): set<array<BuddyLists.Tag>>
      reads this, Buddies()
    {
      set i | 0 <= i < |freeBuddies| :: freeBuddies[i].buddy.all
    }

    ghost function Lists(): set<array<int>>
      reads this, Buddies()
    {
      set i | 0 <= i < |freeBuddies| :: freeBuddies[i].buddy.free
    }

    ghost predicate Separate()
      reads this, Buddies()
    {
      forall i, j :: 0 <= i < j < |freeBuddies| ==>
        var a, b := freeBuddies[i].buddy, freeBuddies[j].buddy; a != b && a.all != b.all && a.free != b.free
    }

    ghost predicate Parents()
      reads this, Buddies(), Tags(), Lists()
    {
      Separate() && forall i :: 0 <= i < |freeBuddies| ==> ParentOk(freeBuddies[i], pageBits)
    }

    ghost predicate Valid()
      reads this, Buddies(), Tags(), Lists()
    {
      pageBits <= MB_BITS && Megs(freeMegs) && (forall r :: r in live ==> Meg(r)) && Parents()
      && Held(holder, freeMegs, live, freeBuddies)
    }

    /** The blocks of buddy regions that callers have. */
    ghost function Blocks(): set<Mem>
      reads this, Buddies()
    {
      BlocksOf(freeBuddies, pageBits)
    }

    /** All that callers have. */
    ghost function Owned(): set<Mem>
      reads this, Buddies()
    {
      (set q | q in live :: Plain(q)) + Blocks()
    }

    lemma BlocksAre()
      ensures Blocks() == Children(freeBuddies, Stocks(), pageBits)
    {
    }

    lemma StocksOk()
      requires Valid()
      ensures OneBuddyEach(freeBuddies)
      ensures forall i :: 0 <= i < |freeBuddies| ==> LiveOk(Stocks()[i].own, Stocks()[i].live)
    {
      hide Held, LiveOk;
      forall i | 0 <= i < |freeBuddies|
        ensures LiveOk(Stocks()[i].own, Stocks()[i].live)
      {
        ParentFacts(freeBuddies[i]);
        LiveOfValid(freeBuddies[i].buddy);
      }
    }

    lemma LiveOfValid(b: Area)
      requires b.Valid()
      ensures LiveOk(b.own, b.live)
    {
    }

    /** What callers have never overlaps. */
    lemma OwnedApart(g: Mem, h: Mem)
      requires Valid() && g in Owned() && h in Owned() && g != h
      ensures Apart(g.region, h.region)
    {
      hide Valid;
      if !Apart(g.region, h.region) {
        OwnedHolds(g);
        OwnedHolds(h);
        var y := if g.region.start < h.region.start then h.region.start else g.region.start;
        assert In(g.region, y) && In(h.region, y);
        PlainNoBlock(g.region);
        PlainNoBlock(h.region);
        SameBuddyApart(g, h);
      }
    }

    /** Of what a caller has, each byte is held by that region or that buddy. */
    lemma OwnedHolds(g: Mem)
      requires Valid() && g in Owned()
      ensures g != Null && g.region.start <= g.region.end
      ensures forall y :: In(g.region, y) ==> holder(y) == if g.Plain? then Whole(g.region) else Small(g.buddy)
    {
      match g
      case Null =>
      case Plain(q) =>
      case Child(q, b) =>
        BlockHolds(g);
    }

    lemma BlockHolds(g: Mem)
      requires Valid() && g in Blocks()
      ensures g.Child? && g.region.start <= g.region.end
      ensures forall y :: In(g.region, y) ==> holder(y) == Small(g.buddy)
    {
      var i, x :| 0 <= i < |freeBuddies| && x in freeBuddies[i].buddy.live
        && g == BlockOf(freeBuddies[i], x, freeBuddies[i].buddy.live[x], pageBits);
      var p := freeBuddies[i];
      ParentBlock(p, x);
      hide ParentOk, BlockOf;
      assert forall y :: In(p.region, y) ==> holder(y) == Small(p.buddy);
    }

    lemma ParentBlock(p: Parent, x: nat)
      requires ParentOk(p, pageBits) && x in p.buddy.live
      ensures var q := BlockOf(p, x, p.buddy.live[x], pageBits).region;
        p.region.start <= q.start <= q.end <= p.region.end
    {
      LiveOfValid(p.buddy);
      BlockInside(p, p.buddy.own, p.buddy.live, x, pageBits);
    }

    lemma SameBuddyApart(g: Mem, h: Mem)
      requires Valid() && g in Blocks() && h in Blocks() && g != h && g.Child? && h.Child? && g.buddy == h.buddy
      ensures Apart(g.region, h.region)
    {
      StocksOk();
      var i, x := BlockPlace(g);
      var j, y := BlockPlace(h);
      hide Valid, BlockOf, LiveOk, BlocksOf, Stocks;
      assert i == j;
      var p, t := freeBuddies[i], Stocks()[i];
      if x < y {
        BlocksApart(p, t.own, t.live, x, y, pageBits);
      } else if y < x {
        BlocksApart(p, t.own, t.live, y, x, pageBits);
      }
    }

    /** Every whole megabyte of the buddies has a live block. */
    ghost predicate NoneIdle()
      reads this, Buddies()
    {
      forall i :: 0 <= i < |freeBuddies| ==> !Idle(freeBuddies[i])
    }

    /** Byte `x` is free, or in a megabyte of the buddies that nobody uses. */
    ghost predicate Available(x: int)
      reads this, Buddies()
    {
      holder(x) == FreeMeg || exists i :: 0 <= i < |freeBuddies| && Idle(freeBuddies[i]) && In(freeBuddies[i].region, x)
    }

    ghost predicate RoomAt(start: int, count: int)
      reads this, Buddies()
    {
      forall x :: start <= x < start + count * MB ==> Available(x)
    }

    /** There are `count` consecutive megabytes that nobody uses. */
    ghost predicate HasRoom(count: int)
      reads this, Buddies()
    {
      exists start: int :: RoomAt(start, count)
    }

    // ---------- level 2 ----------

    /** What each buddy has given out and has left. */
    ghost function Stocks(): (r: seq<Stock>)
      reads this, Buddies()
      ensures |r| == |freeBuddies|
      ensures forall i :: 0 <= i < |r| ==> r[i] == Stock(freeBuddies[i].buddy.own, freeBuddies[i].buddy.live)
    {
      seq(|freeBuddies|, i requires 0 <= i < |freeBuddies| reads this, Buddies() =>
        Stock(freeBuddies[i].buddy.own, freeBuddies[i].buddy.live))
    }

    /** One call of buddy_alloc, of which only buddy `i` is aware. */
    method AllocIn(i: nat, k: nat) returns (ok: bool, adr: nat, ghost x: nat)
      requires Valid() && i < |freeBuddies|
      modifies Buddies()`own, Buddies()`live, Buddies()`lists, Tags(), Lists()
      ensures Valid() && (ok <==> HasRun(old(Stocks())[i].own, k))
      ensures !ok ==> Stocks() == old(Stocks())
      ensures ok ==>
        GivenOut(old(Stocks()), Stocks(), i, x, k) && adr == freeBuddies[i].region.start + x * Pow2(pageBits)
    {
      hide ParentOk, Held, Full, Fill, Stocks, Pow2, Meg, Megs;
      var p := freeBuddies[i];
      ParentFacts(p);
      ok, adr := p.buddy.Alloc(k);
      ParentStill(p);
      x := if ok then p.buddy.Index(adr) else 0;
      ParentBase(p);
    }

    /** One call of buddy_alloc_at, in the same way. */
    method AllocAtIn(i: nat, adr: nat, k: nat) returns (ok: bool, ghost x: nat)
      requires Valid() && i < |freeBuddies| && adr < ADDRESSES && k + pageBits < 32
      modifies Buddies()`own, Buddies()`live, Buddies()`lists, Tags(), Lists()
      ensures Valid() && (ok <==> FreeAt(old(Stocks())[i].own, freeBuddies[i].region.start, pageBits, adr, k))
      ensures !ok ==> Stocks() == old(Stocks())
      ensures ok ==>
        GivenOut(old(Stocks()), Stocks(), i, x, k) && adr == freeBuddies[i].region.start + x * Pow2(pageBits)
    {
      hide ParentOk, Held, Full, Fill, Stocks, Pow2, Meg, Megs;
      var p := freeBuddies[i];
      ParentFacts(p);
      var ret;
      ok, ret := p.buddy.AllocAt(adr, k);
      ParentStill(p);
      ParentBase(p);
      x := if ok then p.buddy.Index(adr) else 0;
      if ok {
        AddressBack(p, adr, k, old(p.buddy.own));
      }
    }

    /** One call of buddy_free, in the same way. */
    method FreeIn(b: Area, adr: int, ghost i: nat, ghost x: nat)
      requires Valid() && i < |freeBuddies| && x in Stocks()[i].live && b == freeBuddies[i].buddy
      requires adr == freeBuddies[i].region.start + x * Pow2(pageBits)
      modifies Buddies()`own, Buddies()`live, Buddies()`lists, Tags(), Lists()
      ensures Valid()
      ensures var was := old(Stocks())[i];
        && x + Pow2(was.live[x]) <= |was.own|
        && Stocks() == old(Stocks())[i := Stock(Fill(was.own, x, was.live[x], FREE), was.live - {x})]
    {
      hide ParentOk, Held, Full, Fill, Stocks, Pow2, Meg, Megs, HeadsFree;
      ghost var p := freeBuddies[i];
      ParentFacts(p);
      LivePage(p, x);
      var _ := b.Free(adr, -1);
      ParentStill(p);
    }

    lemma ParentBase(p: Parent)
      requires ParentOk(p, pageBits)
      ensures p.buddy.base == p.region.start
      ensures |p.buddy.own| * Pow2(pageBits) == Size(p.region)
    {
    }

    /** The block that a buddy gave out, as a record; without memory for the record it goes back. */
    method Record(i: nat, adr: nat, k: nat, gotRecord: bool, ghost x: nat, ghost was: seq<Stock>) returns (m: Mem)
      requires Valid() && i < |freeBuddies| == |was|
      requires GivenOut(was, Stocks(), i, x, k) && adr == freeBuddies[i].region.start + x * Pow2(pageBits)
      requires LiveOk(was[i].own, was[i].live)
      modifies Buddies()`own, Buddies()`live, Buddies()`lists, Tags(), Lists()
      ensures Valid() && (m != Null <==> gotRecord)
      ensures gotRecord ==>
        m.Child? && m.region.start == adr && HandedOut(was, Stocks(), freeBuddies, pageBits, i, k, x, m)
      ensures !gotRecord ==> Stocks() == was
    {
      if gotRecord {
        RunInside(freeBuddies[i], was[i].own, x, k);
        m := Child(Region(adr, adr - 1 + Pow2(k + pageBits)), freeBuddies[i].buddy);
      } else {
        hide Valid, Fill, Full, LiveOk;
        RunStart(was[i].own, x, k);
        BuddyResults.AllocatedThenFreed(was[i].own, was[i].live, x, k);
        FreeIn(freeBuddies[i].buddy, adr, i, x);
        m := Null;
      }
    }

    lemma RunStart(own: Owners, x: nat, k: nat)
      requires x + Pow2(k) <= |own|
      ensures x < |own|
    {
      Pow2Positive(k);
    }

    /** One turn of the loop of mreg_level2_allocate. */
    method TryAlloc(i: nat, k: nat, gotRecord: bool) returns (m: Mem, ghost x: nat)
      requires Valid() && i < |freeBuddies|
      modifies Buddies()`own, Buddies()`live, Buddies()`lists, Tags(), Lists()
      ensures Valid()
      ensures (m == Null <==> !HasRun(old(Stocks())[i].own, k) || !gotRecord) && (m != Null ==> m.Child?)
      ensures if m == Null then Stocks() == old(Stocks())
              else HandedOut(old(Stocks()), Stocks(), freeBuddies, pageBits, i, k, x, m)
    {
      hide Valid, HasRun, HandedOut, LiveOk, Stocks;
      StocksOk();
      ghost var was := Stocks();
      var ok, adr;
      ok, adr, x := AllocIn(i, k);
      m := Null;
      if ok {
        m := Record(i, adr, k, gotRecord, x, was);
      }
    }

    /** One turn of the loop of mreg_level2_allocate_at. */
    method TryAllocAt(i: nat, adr: nat, k: nat, gotRecord: bool) returns (m: Mem, ghost x: nat)
      requires Valid() && i < |freeBuddies| && adr < ADDRESSES && k + pageBits < 32
      modifies Buddies()`own, Buddies()`live, Buddies()`lists, Tags(), Lists()
      ensures Valid()
      ensures m == Null <==> !FreeAt(old(Stocks())[i].own, freeBuddies[i].region.start, pageBits, adr, k) || !gotRecord
      ensures
        if m == Null then Stocks() == old(Stocks())
        else
          m.Child? && m.region.start == adr && HandedOut(old(Stocks()), Stocks(), freeBuddies, pageBits, i, k, x, m)
    {
      hide Valid, FreeAt, HandedOut, LiveOk, Stocks;
      StocksOk();
      ghost var was := Stocks();
      var ok;
      ok, x := AllocAtIn(i, adr, k);
      m := Null;
      if ok {
        m := Record(i, adr, k, gotRecord, x, was);
      }
    }

    lemma AddressBack(p: Parent, adr: nat, k: nat, own: Owners)
      requires ParentOk(p, pageBits) && adr < ADDRESSES && |own| == p.buddy.indexMax
      requires FreeAt(own, p.region.start, pageBits, adr, k)
      ensures p.buddy.Address(p.buddy.Index(adr)) == adr
    {
      var offset := (adr - p.buddy.base) % ADDRESSES;
      Pow2Positive(k + pageBits);
      RunAligned(offset, k, pageBits);
      RunBytes(p.buddy.Index(adr), k, pageBits, p.buddy.indexMax);
      hide Pow2, Base, PageAt;
      SameAddress(adr, p.buddy.base, p.buddy.Index(adr) * Pow2(pageBits));
    }

    lemma FirstParent()
      requires Valid() && freeBuddies != []
      ensures freeBuddies[0].buddy.Valid() && freeBuddies[0].buddy.pageBits == pageBits <= MB_BITS
    {
    }

    lemma RunInside(p: Parent, own: Owners, x: nat, k: nat)
      requires ParentOk(p, pageBits) && x + Pow2(k) <= |own| == |p.buddy.own|
      ensures var start := p.region.start + x * Pow2(pageBits);
        p.region.start <= start && start - 1 + Pow2(k + pageBits) <= p.region.end
    {
      RunBytes(x, k, pageBits, |own|);
      ParentBase(p);
      Pow2Positive(pageBits);
      hide Pow2, Base, ParentOk;
    }

    lemma ParentFacts(p: Parent)
      requires ParentOk(p, pageBits)
      ensures p.buddy.Valid() && p.buddy.pageBits == pageBits
    {
    }

    twostate lemma ParentStill(p: Parent)
      requires old(ParentOk(p, pageBits)) && p.buddy.Valid() && pageBits == old(pageBits)
      requires p.buddy.base == old(p.buddy.base) && p.buddy.pageBits == old(p.buddy.pageBits)
      requires p.buddy.indexMax == old(p.buddy.indexMax) && p.buddy.order == old(p.buddy.order)
      ensures ParentOk(p, pageBits)
    {
    }

    /** buddy_get_order_from_size, asked of the first buddy region. */
    method OrderOfSize(size: nat) returns (order: nat)
      requires Valid() && freeBuddies != [] && size <= 0x8000_0000
      ensures OrderFor(size, order, pageBits) && pageBits <= MB_BITS
    {
      hide ParentOk, Held;
      FirstParent();
      order := freeBuddies[0].buddy.GetOrderFromSize(size);
    }

    /** mreg_level2_allocate: a block of the first buddy region that has one. */
    method Level2Allocate(size: nat, gotRecord: bool) returns (m: Mem, ghost i: nat, ghost k: nat, ghost x: nat)
      requires Valid() && 0 < size <= 0x8000_0000
      modifies Buddies()`own, Buddies()`live, Buddies()`lists, Tags(), Lists()
      ensures Valid()
      ensures m != Null ==>
        m.Child? && OrderFor(size, k, pageBits) && HandedOut(old(Stocks()), Stocks(), freeBuddies, pageBits, i, k, x, m)
      ensures m == Null ==> Stocks() == old(Stocks()) && (NoneHas(Stocks(), size, pageBits) || !gotRecord)
      ensures m != Null ==> gotRecord
    {
      hide ParentOk, Held, Full, Fill, HasRun, Valid, HandedOut, Stocks;
      m, i, k, x := Null, 0, 0, 0;
      if freeBuddies == [] {
        return;
      }
      var order := OrderOfSize(size);
      hide OrderFor, Pow2;
      k := order;
      var j := 0;
      while j < |freeBuddies|
        invariant j <= |freeBuddies| && Valid() && m == Null && Stocks() == old(Stocks())
        invariant gotRecord ==> forall c :: 0 <= c < j ==> !HasRun(Stocks()[c].own, order)
      {
        m, x := TryAlloc(j, order, gotRecord);
        if m != Null {
          i := j;
          return;
        }
        j := j + 1;
      }
      assert OrderFor(size, order, pageBits);
    }

    /** mreg_level2_allocate_at: the block at `adr`, which at most one buddy region holds. */
    method Level2AllocateAt(adr: nat, size: nat, gotRecord: bool)
      returns (m: Mem, ghost i: nat, ghost k: nat, ghost x: nat)
      requires Valid() && adr < ADDRESSES && size <= MB
      modifies Buddies()`own, Buddies()`live, Buddies()`lists, Tags(), Lists()
      ensures Valid()
      ensures m != Null ==> OrderFor(size, k, pageBits) && m.Child? && m.region.start == adr
      ensures m != Null ==> HandedOut(old(Stocks()), Stocks(), freeBuddies, pageBits, i, k, x, m)
      ensures m == Null ==>
        Stocks() == old(Stocks()) && (NoneHasAt(Stocks(), freeBuddies, adr, size, pageBits) || !gotRecord)
      ensures m != Null ==> gotRecord && FreeAt(old(Stocks())[i].own, freeBuddies[i].region.start, pageBits, adr, k)
    {
      hide ParentOk, Held, Full, Fill, HasRun, Valid, HandedOut, FreeAt, Stocks;
      m, i, k, x := Null, 0, 0, 0;
      if freeBuddies == [] {
        return;
      }
      var order := OrderOfSize(size);
      OrderSmall(size, order, pageBits);
      hide OrderFor, Pow2;
      k := order;
      var j := 0;
      while j < |freeBuddies|
        invariant j <= |freeBuddies| && Valid() && m == Null && Stocks() == old(Stocks())
        invariant gotRecord ==>
          forall c :: 0 <= c < j ==> !FreeAt(Stocks()[c].own, freeBuddies[c].region.start, pageBits, adr, order)
      {
        m, x := TryAllocAt(j, adr, order, gotRecord);
        if m != Null {
          i := j;
          return;
        }
        j := j + 1;
      }
      assert OrderFor(size, order, pageBits);
    }

    /** mreg_level2_free of a block that is live. */
    method Level2Free(m: Mem, ghost i: nat, ghost x: nat)
      requires Valid() && i < |freeBuddies| && m.Child? && m.buddy == freeBuddies[i].buddy
      requires x in Stocks()[i].live && m.region.start == freeBuddies[i].region.start + x * Pow2(pageBits)
      modifies Buddies()`own, Buddies()`live, Buddies()`lists, Tags(), Lists()
      ensures Valid()
      ensures var was := old(Stocks())[i];
        && x + Pow2(was.live[x]) <= |was.own|
        && Stocks() == old(Stocks())[i := Stock(Fill(was.own, x, was.live[x], FREE), was.live - {x})]
      ensures Blocks() == old(Blocks()) - {BlockOf(freeBuddies[i], x, old(Stocks())[i].live[x], pageBits)}
    {
      hide Valid, Fill, LiveOk, Stocks, Pow2, BlocksOf, BlockOf;
      BlocksAre();
      StocksOk();
      ghost var was := Stocks();
      FreeIn(m.buddy, m.region.start, i, x);
      BlocksAre();
      FreedChildren(was, Stocks(), freeBuddies, pageBits, i, x);
    }

    lemma LivePage(p: Parent, x: nat)
      requires ParentOk(p, pageBits) && x in p.buddy.live
      ensures p.buddy.Address(x) < ADDRESSES && p.buddy.Index(p.buddy.Address(x)) == x
      ensures p.buddy.Address(x) == p.region.start + x * Pow2(pageBits)
    {
      LiveOrder(p.buddy.own, p.buddy.live, p.buddy.order - 1, x);
      p.buddy.IndexOfPage(x);
    }

    // ---------- buddy regions come and go ----------

    /** The allocator that memregion_attach_buddy makes for a region: all its pages are free. */
    method MakeBuddy(r: Region, gotMemory: bool) returns (ok: bool, b: Area)
      requires 0 <= r.start <= r.end < ADDRESSES && pageBits <= MB_BITS && WholePages(r, pageBits)
      requires Size(r) < MB || (Size(r) == MB && Meg(r))
      ensures ok <==> CanManage(pageBits, gotMemory)
      ensures fresh(b) && (ok ==> fresh(b.all) && fresh(b.free))
      ensures ok ==> ParentOk(Parent(r, b), pageBits) && b.live == map[]
    {
      MbIs();
      PagesOf(r, pageBits);
      NoBounds(pageBits);
      StartsPage(r, pageBits);
      hide Pow2, PageAt, RoundUp, RoundDown, Area.Valid, WholePages, ParentOk;
      b := new Area();
      ok := b.Init(r.start, Size(r), pageBits, 0, 0, gotMemory);
      if ok {
        ParentMade(r, b);
      }
    }

    lemma StartsPage(r: Region, bits: nat)
      requires WholePages(r, bits)
      ensures Pow2(bits) > 0 && r.start % Pow2(bits) == 0
    {
    }

    lemma ParentMade(r: Region, b: Area)
      requires b.Valid() && b.base == r.start && b.pageBits == pageBits && Size(r) >= 1
      requires b.indexMax == PageAt(Size(r), pageBits) && b.indexMax * Pow2(pageBits) == Size(r)
      requires b.order > 1 ==> b.indexMax > Pow2(b.order - 2)
      requires Size(r) < MB || (Size(r) == MB && Meg(r))
      ensures ParentOk(Parent(r, b), pageBits)
    {
    }

    /** The region becomes a buddy region; `l` is the free list without it. */
    method AddParent(r: Region, b: Area, l: seq<Region>)
      requires Valid() && ParentOk(Parent(r, b), pageBits)
      requires b !in Buddies() && b.all !in Tags() && b.free !in Lists()
      requires Megs(l) && forall x :: Covered(l, x) <==> Covered(freeMegs, x) && !In(r, x)
      requires forall x :: In(r, x) ==> holder(x) == FreeMeg || holder(x) == Nobody
      modifies `freeMegs, `freeBuddies, `holder
      ensures Valid() && freeMegs == l && freeBuddies == [Parent(r, b)] + old(freeBuddies)
      ensures holder == Reassigned(old(holder), r, Small(b))
    {
      hide ParentOk;
      HeldParent(holder, freeMegs, live, freeBuddies, Parent(r, b), l);
      freeMegs, freeBuddies, holder := l, [Parent(r, b)] + freeBuddies, Reassigned(holder, r, Small(b));
      hide Held;
    }

    /** What a new allocation leaves alone. */
    lemma InHeap()
      ensures forall i :: 0 <= i < |freeBuddies| ==>
        allocated(freeBuddies[i].buddy) && allocated(freeBuddies[i].buddy.all) && allocated(freeBuddies[i].buddy.free)
    {
      forall i | 0 <= i < |freeBuddies|
        ensures allocated(freeBuddies[i].buddy) && allocated(freeBuddies[i].buddy.all)
          && allocated(freeBuddies[i].buddy.free)
      {
        var p := freeBuddies[i];
        assert allocated(p);
        var b := p.buddy;
        var a, f := b.all, b.free;
        assert allocated(a) && allocated(f);
      }
    }

    /**
      memregion_attach_buddy of a free megabyte `mem`, and what its callers do
      when it fails; `l` is the free list without it.
    */
    method Install(mem: Region, l: seq<Region>, gotMemory: bool) returns (ok: bool, b: Area)
      requires Valid() && Meg(mem) && Size(mem) == MB && Taken(freeMegs, mem, l, mem)
      requires forall x :: In(mem, x) ==> Covered(freeMegs, x)
      modifies `freeMegs, `freeBuddies, `holder
      ensures Valid() && fresh(b)
      ensures ok ==> freeMegs == l && freeBuddies == [Parent(mem, b)] + old(freeBuddies) && b.live == map[]
      ensures ok ==> fresh(b.all) && fresh(b.free)
      ensures ok ==> holder == Reassigned(old(holder), mem, Small(b))
      ensures !ok ==> freeBuddies == old(freeBuddies) && holder == old(holder)
      ensures ok <==> CanManage(pageBits, gotMemory)
    {
      hide ParentOk, Held;
      OneMeg(mem, pageBits);
      HeldFree(holder, freeMegs, live, freeBuddies);
      InHeap();
      ok, b := MakeBuddy(mem, gotMemory);
      if ok {
        AddParent(mem, b, l);
      } else {
        ghost var was := freeMegs;
        freeMegs := Level1Free(l, mem);
        HeldSame(holder, was, live, freeBuddies, freeMegs);
      }
    }

    lemma AnyMeg(free: seq<Region>)
      requires Megs(free)
      ensures free != [] <==> exists k :: 0 <= k < |free| && Size(free[k]) >= 1 * MB
    {
      if free != [] {
        assert Meg(free[0]);
      }
    }

    /** mreg_level2_expand: one more megabyte for the buddies, if there is one. */
    method Level2Expand(gotMemory: bool) returns (ghost more: seq<Parent>)
      requires Valid()
      modifies `freeMegs, `freeBuddies, `holder
      ensures Valid() && freeBuddies == more + old(freeBuddies) && |more| <= 1
      ensures forall p :: p in more ==>
        fresh(p.buddy) && fresh(p.buddy.all) && fresh(p.buddy.free) && p.buddy.live == map[]
      ensures forall p :: p in more ==> Size(p.region) == MB
      ensures more == [] <==> old(freeMegs) == [] || !CanManage(pageBits, gotMemory)
      ensures forall x :: holder(x) == Nobody <==> old(holder)(x) == Nobody
    {
      hide ParentOk, Held, Meg, Megs;
      more := [];
      InHeap();
      HeldFree(holder, freeMegs, live, freeBuddies);
      var found, mem, l := Level1Allocate(freeMegs, 1, true);
      assert found <==> freeMegs != [] by {
        AnyMeg(freeMegs);
      }
      if found {
        var ok, b := Install(mem, l, gotMemory);
        if ok {
          more := [Parent(mem, b)];
        }
      }
    }

    // ---------- shrinking ----------

    lemma ContainsMeansOf(p: Parent, contains: bool)
      requires ParentOk(p, pageBits) && pageBits <= MB_BITS
      requires contains ==> MB_BITS - pageBits < p.buddy.order
      requires MB_BITS - pageBits < p.buddy.order ==>
        (contains <==> HasHead(p.buddy.own, p.buddy.order - 1, MB_BITS - pageBits))
      ensures contains <==> Size(p.region) == MB && p.buddy.live == map[]
    {
      ContainsMeans(p.buddy.own, p.buddy.live, p.buddy.order - 1, pageBits, Size(p.region), contains);
    }

    /** mreg_level2_shrink: the megabytes of which no block is live go back to the free list. */
    method Level2Shrink()
      requires Valid()
      modifies `freeMegs, `freeBuddies, `holder
      ensures Valid()
      ensures NoneIdle()
      ensures forall p :: p in freeBuddies ==> p in old(freeBuddies)
      ensures forall p :: p in old(freeBuddies) && p !in freeBuddies ==> p.buddy.live == map[]
      ensures Blocks() == old(Blocks())
      ensures forall x :: Available(x) <==> old(Available(x))
      ensures forall x :: holder(x) == Nobody <==> old(holder)(x) == Nobody
    {
      hide Valid, Available, BlocksOf;
      var i := 0;
      while i < |freeBuddies|
        invariant i <= |freeBuddies| && Valid()
        invariant forall j :: 0 <= j < i ==> !Idle(freeBuddies[j])
        invariant Blocks() == old(Blocks())
        invariant forall x :: Available(x) <==> old(Available(x))
        invariant forall p :: p in freeBuddies ==> p in old(freeBuddies)
        invariant forall p :: p in old(freeBuddies) && p !in freeBuddies ==> p.buddy.live == map[]
        invariant forall x :: holder(x) == Nobody <==> old(holder)(x) == Nobody
        decreases |freeBuddies| - i
      {
        var gone := WithdrawAt(i);
        i := if gone then i else i + 1;
      }
    }

    /** One turn of the loop: region `i` is withdrawn if it is a megabyte that nobody uses. */
    method WithdrawAt(i: nat) returns (gone: bool)
      requires Valid() && i < |freeBuddies|
      modifies `freeMegs, `freeBuddies, `holder
      ensures Valid() && (gone <==> old(Idle(freeBuddies[i])))
      ensures freeBuddies == if gone then WithoutParent(old(freeBuddies), i) else old(freeBuddies)
      ensures Blocks() == old(Blocks())
      ensures forall x :: Available(x) <==> old(Available(x))
      ensures forall x :: holder(x) == Nobody <==> old(holder)(x) == Nobody
    {
      hide ParentOk, Held, Covered, Megs, BlocksOf;
      ParentFacts(freeBuddies[i]);
      gone := freeBuddies[i].buddy.ContainsOrder(MB_BITS - pageBits, false);
      ContainsMeansOf(freeBuddies[i], gone);
      ParentSize(freeBuddies[i]);
      if gone {
        WithdrawIdle(i);
      }
    }

    lemma ParentSize(p: Parent)
      requires ParentOk(p, pageBits)
      ensures Size(p.region) <= MB && (Size(p.region) == MB ==> Meg(p.region))
    {
    }

    /** Withdrawing an idle megabyte makes no byte available or unavailable. */
    method WithdrawIdle(i: nat)
      requires Valid() && i < |freeBuddies| && Meg(freeBuddies[i].region) && Idle(freeBuddies[i])
      modifies `freeMegs, `freeBuddies, `holder
      ensures Valid() && freeBuddies == WithoutParent(old(freeBuddies), i)
      ensures Blocks() == old(Blocks())
      ensures forall x :: Available(x) <==> old(Available(x))
      ensures forall x :: holder(x) == Nobody <==> old(holder)(x) == Nobody
    {
      hide Valid, BlocksOf;
      ghost var was := freeBuddies;
      Withdraw(i);
      BlocksWithout(was, i, pageBits);
      forall x
        ensures Available(x) <==> old(Available(x))
      {
        IdleWithout(was, i, x);
      }
    }

    /** Only the region taken out was idle there and is not any more. */
    lemma IdleWithout(was: seq<Parent>, i: nat, x: int)
      requires i < |was| && Idle(was[i])
      ensures (exists j :: 0 <= j < |was| && Idle(was[j]) && In(was[j].region, x)) <==>
        In(was[i].region, x)
        || exists j :: 0 <= j < |was| - 1 && Idle(WithoutParent(was, i)[j]) && In(WithoutParent(was, i)[j].region, x)
    {
      var now := WithoutParent(was, i);
      forall j | 0 <= j < |was| && j != i
        ensures was[j] == now[if j < i then j else j - 1]
      {
      }
    }

    /** memregion_deattach_buddy, and the region is free again. */
    method Withdraw(i: nat)
      requires Valid() && i < |freeBuddies| && Meg(freeBuddies[i].region)
      modifies `freeMegs, `freeBuddies, `holder
      ensures Valid() && freeBuddies == WithoutParent(old(freeBuddies), i)
      ensures forall x :: holder(x) == if In(old(freeBuddies)[i].region, x) then FreeMeg else old(holder)(x)
      ensures forall x :: In(old(freeBuddies)[i].region, x) ==> old(holder)(x).Small?
    {
      hide ParentOk, Held, Covered, Meg, Megs;
      InHeap();
      ghost var was := freeMegs;
      var p := freeBuddies[i];
      HeldApart(holder, freeMegs, live, freeBuddies, i);
      freeMegs := Level1Free(freeMegs, p.region);
      HeldShrunk(holder, was, live, freeBuddies, i, freeMegs);
      hide Reassigned;
      freeBuddies, holder := WithoutParent(freeBuddies, i), Reassigned(holder, p.region, FreeMeg);
      hide Held;
    }

    // ---------- the interface ----------

    /** mreg_create */
    constructor (bits: nat)
      requires bits <= MB_BITS
      ensures Valid() && pageBits == bits && live == {} && Owned() == {} && forall x :: holder(x) == Nobody
    {
      pageBits, freeMegs, freeBuddies := bits, [], [];
      live, holder := {}, x => Nobody;
    }

    /** `count` megabytes from the free list. */
    method TakeMegs(count: int) returns (m: Mem)
      requires Valid() && count >= 1
      modifies `freeMegs, `live, `holder
      ensures Valid()
      ensures m == Null <==> NoMegs(old(freeMegs), count)
      ensures m == Null ==> freeMegs == old(freeMegs) && live == old(live) && holder == old(holder)
      ensures m != Null ==>
        m.Plain? && Size(m.region) == count * MB && m.region !in old(live) && live == old(live) + {m.region}
      ensures m != Null ==> holder == Reassigned(old(holder), m.region, Whole(m.region))
      ensures m != Null ==> forall x :: In(m.region, x) ==> old(holder)(x) == FreeMeg
    {
      hide ParentOk, Held;
      InHeap();
      m := Null;
      var found, best, l := Level1Allocate(freeMegs, count, true);
      if found {
        GiveOut(best, l);
        m := Plain(best);
      }
    }

    method GiveOut(r: Region, l: seq<Region>)
      requires Valid() && Meg(r) && Megs(l) && forall x :: In(r, x) ==> !Covered(l, x)
      requires forall x :: Covered(freeMegs, x) <==> Covered(l, x) || In(r, x)
      modifies `freeMegs, `live, `holder
      ensures Valid() && freeMegs == l && r !in old(live) && live == old(live) + {r}
      ensures holder == Reassigned(old(holder), r, Whole(r)) && forall x :: In(r, x) ==> old(holder)(x) == FreeMeg
    {
      hide ParentOk;
      HeldTaken(holder, freeMegs, live, freeBuddies, r, l);
      freeMegs, live, holder := l, live + {r}, Reassigned(holder, r, Whole(r));
      hide Held, Covered;
    }

    /** mreg_alloc of a megabyte or more. */
    method AllocMegs(count: int) returns (m: Mem)
      requires Valid() && count >= 1
      modifies `freeMegs, `freeBuddies, `live, `holder
      ensures Valid()
      ensures m == Null ==> live == old(live)
      ensures m == Null <==> !old(HasRoom(count))
      ensures m != Null ==>
        m.Plain? && Size(m.region) == count * MB && m.region !in old(live) && live == old(live) + {m.region}
      ensures m != Null ==> forall x :: In(m.region, x) ==> old(Available(x))
      ensures forall p :: p in freeBuddies ==> p in old(freeBuddies)
      ensures forall p :: p in old(freeBuddies) && p !in freeBuddies ==> p.buddy.live == map[]
      ensures Blocks() == old(Blocks())
      ensures forall x :: holder(x) == Nobody <==> old(holder)(x) == Nobody
    {
      hide Valid;
      RoomIfFree(count);
      m := TakeMegs(count);
      if m == Null {
        assert forall x :: Available(x) <==> old(Available(x));
        hide Available;
        Level2Shrink();
        RoomIfFree(count);
        FreeIfRoom(count);
        forall start: int
          ensures RoomAt(start, count) <==> old(RoomAt(start, count))
        {
        }
        FreeIsAvailable();
        m := TakeMegs(count);
      }
    }

    lemma FreeIsAvailable()
      ensures forall x :: holder(x) == FreeMeg ==> Available(x)
    {
    }

    lemma RoomIfFree(count: int)
      requires Valid() && count >= 1
      ensures !NoMegs(freeMegs, count) ==> HasRoom(count)
    {
      HeldFree(holder, freeMegs, live, freeBuddies);
      if !NoMegs(freeMegs, count) {
        var k :| 0 <= k < |freeMegs| && Size(freeMegs[k]) >= count * MB;
        assert RoomAt(freeMegs[k].start, count);
      }
    }

    lemma FreeIfRoom(count: int)
      requires Valid() && NoneIdle() && count >= 1
      ensures HasRoom(count) ==> !NoMegs(freeMegs, count)
    {
      HeldFree(holder, freeMegs, live, freeBuddies);
      if HasRoom(count) {
        var start: int :| RoomAt(start, count);
        forall x | start <= x < start + count * MB
          ensures Covered(freeMegs, x)
        {
          assert Available(x);
        }
        var k := InOneRegion(freeMegs, start, count * MB);
      }
    }

    /** What mreg_level2_expand does to the stocks. */
    method Widen(gotMemory: bool, ghost size: nat)
      requires Valid() && size <= MB
      modifies `freeMegs, `freeBuddies, `holder
      ensures Valid() && More(old(freeBuddies), old(Stocks()), freeBuddies, Stocks()) && Blocks() == old(Blocks())
      ensures if old(freeMegs) == [] || !CanManage(pageBits, gotMemory) then Stocks() == old(Stocks())
              else !NoneHas(Stocks(), size, pageBits)
      ensures forall p :: p in freeBuddies ==>
        p in old(freeBuddies) || (fresh(p.buddy) && fresh(p.buddy.all) && fresh(p.buddy.free))
      ensures forall x :: holder(x) == Nobody <==> old(holder)(x) == Nobody
    {
      hide Valid, NoneHas, CanManage, BlocksOf;
      ghost var more := Level2Expand(gotMemory);
      BlocksMore(more, old(freeBuddies), pageBits);
      if more != [] {
        assert freeBuddies[0] == more[0] && more[0] in more;
        FirstHasRun(size);
        assert Stocks()[1..] == old(Stocks());
      } else {
        assert Stocks() == old(Stocks());
      }
    }

    lemma StocksLength()
      ensures |Stocks()| == |freeBuddies|
    {
    }

    /**
      mreg_alloc of less than a megabyte: `before` is what the buddies had, a
      new one among them if there had to be one.
    */
    method AllocSmall(size: nat, gotMemory: bool, gotRecord: bool)
      returns (m: Mem, ghost before: seq<Stock>, ghost i: nat, ghost k: nat, ghost x: nat)
      requires Valid() && 0 < size <= MB
      modifies `freeMegs, `freeBuddies, `holder, Buddies()`own, Buddies()`live, Buddies()`lists, Tags(), Lists()
      ensures Valid()
      ensures More(old(freeBuddies), old(Stocks()), freeBuddies, before)
      ensures forall p :: p in freeBuddies ==>
        p in old(freeBuddies) || (fresh(p.buddy) && fresh(p.buddy.all) && fresh(p.buddy.free))
      ensures Blocks() == (if m == Null then old(Blocks()) else old(Blocks()) + {m}) && m !in old(Blocks())
      ensures m != Null ==>
        m.Child? && OrderFor(size, k, pageBits) && HandedOut(before, Stocks(), freeBuddies, pageBits, i, k, x, m)
      ensures m == Null ==> Stocks() == before
      ensures m == Null <==>
        || !gotRecord
        || (NoneHas(old(Stocks()), size, pageBits) && (old(freeMegs) == [] || !CanManage(pageBits, gotMemory)))
      ensures forall y :: holder(y) == Nobody <==> old(holder)(y) == Nobody
    {
      hide Valid, HandedOut, NoneHas, OrderFor, CanManage, More, Blocks, Stocks;
      before := Stocks();
      assert |before| == |freeBuddies| by { StocksLength(); }
      MoreSame(freeBuddies, before);
      m, i, k, x := FromBuddies(size, gotRecord);
      if m == Null {
        assert Blocks() == old(Blocks());
        Widen(gotMemory, size);
        before := Stocks();
        m, i, k, x := FromBuddies(size, gotRecord);
      }
    }

    /** mreg_level2_allocate fails exactly when no buddy region has a block. */
    method FromBuddies(size: nat, gotRecord: bool) returns (m: Mem, ghost i: nat, ghost k: nat, ghost x: nat)
      requires Valid() && 0 < size <= MB
      modifies Buddies()`own, Buddies()`live, Buddies()`lists, Tags(), Lists()
      ensures Valid() && (m == Null <==> NoneHas(old(Stocks()), size, pageBits) || !gotRecord)
      ensures Blocks() == (if m == Null then old(Blocks()) else old(Blocks()) + {m}) && m !in old(Blocks())
      ensures m == Null ==> Stocks() == old(Stocks())
      ensures m != Null ==>
        m.Child? && OrderFor(size, k, pageBits) && HandedOut(old(Stocks()), Stocks(), freeBuddies, pageBits, i, k, x, m)
    {
      hide Valid, HandedOut, NoneHas, OrderFor, BlocksOf;
      StocksOk();
      BlocksAre();
      m, i, k, x := Level2Allocate(size, gotRecord);
      BlocksAre();
      if m != Null {
        HandedOutHas(old(Stocks()), Stocks(), freeBuddies, pageBits, i, k, x, m, size);
        HandedOutFrom(old(Stocks()), Stocks(), freeBuddies, pageBits, i, k, x, m);
        GivenChildren(old(Stocks()), Stocks(), freeBuddies, pageBits, i, k, x, m);
      } else {
        NotNullBlock();
      }
    }

    lemma NotNullBlock()
      ensures Null !in Blocks()
    {
    }

    /** The buddies have a block if the first of them is an empty megabyte. */
    lemma FirstHasRun(size: nat)
      requires Valid() && freeBuddies != [] && size <= MB
      requires Size(freeBuddies[0].region) == MB && freeBuddies[0].buddy.live == map[]
      ensures !NoneHas(Stocks(), size, pageBits)
    {
      var p := freeBuddies[0];
      assert ParentOk(p, pageBits);
      forall k: nat | OrderFor(size, k, pageBits)
        ensures HasRun(Stocks()[0].own, k)
      {
        EmptyParentHasRun(p, pageBits, size, k);
      }
    }

    /** mreg_alloc: from the lists of whole megabytes or from the buddies, by size. */
    method Alloc(size: nat, gotMemory: bool, gotRecord: bool)
      returns (m: Mem, ghost before: seq<Stock>, ghost i: nat, ghost k: nat, ghost x: nat)
      requires Valid() && size <= 0x8000_0000
      modifies `freeMegs, `freeBuddies, `live, `holder, Buddies()`own, Buddies()`live, Buddies()`lists, Tags(), Lists()
      ensures Valid() && (size == 0 ==> m == Null)
      ensures Owned() == if m == Null then old(Owned()) else old(Owned()) + {m}
      ensures m !in old(Owned())
        && (m != Null ==> forall h :: h in old(Owned()) ==> h != Null && Apart(h.region, m.region))
      ensures forall p :: p in freeBuddies ==>
        p in old(freeBuddies) || (fresh(p.buddy) && fresh(p.buddy.all) && fresh(p.buddy.free))
      ensures m.Plain? ==> m.region !in old(live) && live == old(live) + {m.region}
      ensures m != Null ==> size <= Size(m.region)
      ensures m.Plain? ==> Size(m.region) % MB == 0 && Size(m.region) < RoundUp(size, pageBits) + MB
      ensures m.Child? && k > 0 ==> Size(m.region) < 2 * RoundUp(size, pageBits)
      ensures m.Plain? ==> forall y :: In(m.region, y) ==> old(Available(y))
      ensures !m.Plain? ==> live == old(live)
      ensures var rounded := RoundUp(size, pageBits);
        && (size > 0 && rounded >= MB ==> !m.Child? && (m.Plain? ==> Size(m.region) == InMegs(rounded) * MB))
        && (size > 0 && rounded >= MB ==> (m == Null <==> !old(HasRoom(InMegs(rounded)))))
      ensures RoundUp(size, pageBits) >= MB ==>
        && (forall p :: p in freeBuddies ==> p in old(freeBuddies))
        && (forall p :: p in old(freeBuddies) ==> p.buddy.own == old(p.buddy.own) && p.buddy.live == old(p.buddy.live))
        && (forall p :: p in old(freeBuddies) && p !in freeBuddies ==> p.buddy.live == map[])
      ensures var rounded := RoundUp(size, pageBits);
        && (rounded < MB ==> !m.Plain?)
        && (0 < size && rounded < MB ==> (m == Null <==>
          || !gotRecord
          || (NoneHas(old(Stocks()), rounded, pageBits) && (old(freeMegs) == [] || !CanManage(pageBits, gotMemory)))))
      ensures RoundUp(size, pageBits) < MB ==> More(old(freeBuddies), old(Stocks()), freeBuddies, before)
      ensures RoundUp(size, pageBits) < MB && m == Null ==> Stocks() == before
      ensures m.Child? ==>
        && OrderFor(RoundUp(size, pageBits), k, pageBits)
          && HandedOut(before, Stocks(), freeBuddies, pageBits, i, k, x, m)
      ensures forall y :: holder(y) == Nobody <==> old(holder)(y) == Nobody
    {
      hide Valid, HandedOut, RoundUp, OrderFor, NoneHas, NoMegs, More, BlocksOf, Available;
      m, before, i, k, x := Null, Stocks(), 0, 0, 0;
      MoreSame(freeBuddies, before);
      NotNullBlock();
      if size > 0 {
        var rounded := RoundUp(size, pageBits);
        RoundedUp(size, pageBits);
        if rounded >= MB {
          InMegsHolds(rounded);
          m := AllocMegs(InMegs(rounded));
        } else {
          m, before, i, k, x := AllocSmall(rounded, gotMemory, gotRecord);
          if m != Null {
            HandedSize(before, Stocks(), freeBuddies, pageBits, i, k, x, m, rounded);
          }
        }
      }
      if m.Plain? {
        PlainNoBlock(m.region);
      }
      NewApart(m, old(Owned()));
    }

    /** What was handed out last does not overlap what callers have from before. */
    lemma NewApart(m: Mem, was: set<Mem>)
      requires Valid() && Owned() == (if m == Null then was else was + {m}) && (m != Null ==> m !in was)
      ensures m != Null ==> forall h :: h in was ==> h != Null && Apart(h.region, m.region)
    {
      hide Valid, Owned;
      if m != Null {
        forall h | h in was
          ensures h != Null && Apart(h.region, m.region)
        {
          OwnedHolds(h);
          OwnedApart(h, m);
        }
      }
    }

    /** mreg_alloc_at, within one megabyte: from the buddies, or from a free megabyte that becomes a buddy region. */
    method AllocAt(adr: nat, size: nat, gotMemory: bool, gotRecord: bool)
      returns (m: Mem, ghost before: seq<Stock>, ghost i: nat, ghost k: nat, ghost x: nat)
      requires Valid() && adr + size <= ADDRESSES - MB
      modifies `freeMegs, `freeBuddies, `holder, Buddies()`own, Buddies()`live, Buddies()`lists, Tags(), Lists()
      ensures Valid() && More(old(freeBuddies), old(Stocks()), freeBuddies, before)
      ensures Owned() == if m == Null then old(Owned()) else old(Owned()) + {m}
      ensures m !in old(Owned())
        && (m != Null ==> forall h :: h in old(Owned()) ==> h != Null && Apart(h.region, m.region))
      ensures forall p :: p in freeBuddies ==>
        p in old(freeBuddies) || (fresh(p.buddy) && fresh(p.buddy.all) && fresh(p.buddy.free))
      ensures m != Null ==> m.Child? && m.region.start == RoundDown(adr, pageBits)
      ensures m != Null ==> m.region.start <= adr && adr + size - 1 <= m.region.end
      ensures m != Null ==> HandedOut(before, Stocks(), freeBuddies, pageBits, i, k, x, m)
      ensures m != Null ==> OrderFor(SizeAt(adr, size, pageBits), k, pageBits)
      ensures m == Null ==> Stocks() == before
      ensures var adr0, size0 := RoundDown(adr, pageBits), SizeAt(adr, size, pageBits);
        m == Null <==>
          || !Near(adr, size, pageBits) || !gotRecord
          || (NoneHasAt(old(Stocks()), old(freeBuddies), adr0, size0, pageBits)
            && !(old(Covered(freeMegs, MegAt(adr))) && CanManage(pageBits, gotMemory)
              && FitsMeg(adr0, size0, pageBits)))
      ensures forall y :: holder(y) == Nobody <==> old(holder)(y) == Nobody
    {
      hide Valid, HandedOut, NoneHasAt, OrderFor, RoundDown, RoundUp, CanManage, More, Covered, Blocks, FitsMeg, FreeAt;
      MoreSame(freeBuddies, Stocks());
      NotNullBlock();
      m, before, i, k, x := Null, Stocks(), 0, 0, 0;
      BitsOk();
      RoundedDown(adr, pageBits);
      var adr0 := RoundDown(adr, pageBits);
      var size0 := SizeAt(adr, size, pageBits);
      if !Near(adr, size, pageBits) {
        return;
      }
      NearSmall(adr, size, pageBits);
      hide Near, MegAt, SizeAt;
      m, i, k, x := FromBuddiesAt(adr0, size0, gotRecord);
      if m == Null {
        assert Blocks() == old(Blocks());
        SameMeg(adr, pageBits);
        var ok := WidenAt(MegAt(adr), adr0, size0, gotMemory);
        before := Stocks();
        if ok {
          m, i, k, x := FromBuddiesAt(adr0, size0, gotRecord);
        }
      }
      if m != Null {
        BlockHoldsSize(before, Stocks(), freeBuddies, pageBits, i, k, x, m, adr, size);
      }
      NewApart(m, old(Owned()));
    }

    /** The page of an address lies in the same megabyte. */
    lemma SameMeg(adr: nat, bits: nat)
      requires bits <= MB_BITS
      ensures MegAt(adr) % MB == 0 && MegAt(adr) <= RoundDown(adr, bits) < MegAt(adr) + MB
    {
      var base := MegAt(adr);
      RoundedDown(adr, bits);
      RoundedOnPage(adr, bits);
      MbOnPage(base, bits);
      PageNotBefore(adr, base, bits);
    }

    /** mreg_level2_allocate_at fails exactly when no buddy region has the run. */
    method FromBuddiesAt(adr: nat, size: nat, gotRecord: bool)
      returns (m: Mem, ghost i: nat, ghost k: nat, ghost x: nat)
      requires Valid() && adr < ADDRESSES && size <= MB
      modifies Buddies()`own, Buddies()`live, Buddies()`lists, Tags(), Lists()
      ensures Valid() && (m == Null <==> NoneHasAt(old(Stocks()), freeBuddies, adr, size, pageBits) || !gotRecord)
      ensures Blocks() == (if m == Null then old(Blocks()) else old(Blocks()) + {m}) && m !in old(Blocks())
      ensures m == Null ==> Stocks() == old(Stocks())
      ensures m != Null ==> m.Child? && m.region.start == adr && OrderFor(size, k, pageBits)
      ensures m != Null ==> HandedOut(old(Stocks()), Stocks(), freeBuddies, pageBits, i, k, x, m)
    {
      hide Valid, HandedOut, NoneHasAt, OrderFor, BlocksOf, FreeAt;
      StocksOk();
      BlocksAre();
      m, i, k, x := Level2AllocateAt(adr, size, gotRecord);
      BlocksAre();
      if m != Null {
        HandedOutFrom(old(Stocks()), Stocks(), freeBuddies, pageBits, i, k, x, m);
        NoneHasAtIs(old(Stocks()), freeBuddies, adr, size, k, pageBits);
        GivenChildren(old(Stocks()), Stocks(), freeBuddies, pageBits, i, k, x, m);
      } else {
        NotNullBlock();
      }
    }

    lemma BitsOk()
      requires Valid()
      ensures pageBits <= MB_BITS && Pow2(pageBits) <= MB
    {
      Pow2Grows(pageBits, MB_BITS);
      MbIs();
    }

    /**
      The megabyte at `adr` becomes a buddy region; that helps a request at
      `at` exactly when its block is aligned there.
    */
    method WidenAt(adr: nat, ghost at: nat, ghost size: nat, gotMemory: bool) returns (ok: bool)
      requires Valid() && adr % MB == 0 && adr <= at < adr + MB && size <= MB
      modifies `freeMegs, `freeBuddies, `holder
      ensures Valid() && More(old(freeBuddies), old(Stocks()), freeBuddies, Stocks()) && Blocks() == old(Blocks())
      ensures ok <==> old(Covered(freeMegs, adr)) && CanManage(pageBits, gotMemory)
      ensures !ok ==> freeBuddies == old(freeBuddies) && Stocks() == old(Stocks())
      ensures ok ==> (NoneHasAt(Stocks(), freeBuddies, at, size, pageBits) <==>
        NoneHasAt(old(Stocks()), old(freeBuddies), at, size, pageBits) && !FitsMeg(at, size, pageBits))
      ensures forall p :: p in freeBuddies ==>
        p in old(freeBuddies) || (fresh(p.buddy) && fresh(p.buddy.all) && fresh(p.buddy.free))
      ensures forall y :: holder(y) == Nobody <==> old(holder)(y) == Nobody
    {
      hide Valid, CanManage, Covered, NoneHasAt, BlocksOf, FitsMeg;
      ghost var more;
      ok, more := OpenMeg(adr, gotMemory);
      BlocksMore(more, old(freeBuddies), pageBits);
      assert Stocks()[|more|..] == old(Stocks());
      if ok {
        FirstAt(old(Stocks()), old(freeBuddies), at, size);
      }
    }

    /** What an empty megabyte in front of the buddies adds for a request at `at`. */
    lemma FirstAt(was: seq<Stock>, there: seq<Parent>, at: nat, size: nat)
      requires Valid() && freeBuddies != [] && freeBuddies[1..] == there && |was| == |there| && Stocks()[1..] == was
      requires var p := freeBuddies[0];
        && p.buddy.live == map[] && Size(p.region) == MB && p.region.start % MB == 0
        && p.region.start <= at < p.region.start + MB
      requires size <= MB
      ensures NoneHasAt(Stocks(), freeBuddies, at, size, pageBits) <==>
        NoneHasAt(was, there, at, size, pageBits) && !FitsMeg(at, size, pageBits)
    {
      hide NoneHasAt, FitsMeg, FreeAt, Valid, AlignedAt, OrderFor, Pow2, Stocks;
      var k := FirstFree(at, size);
      NoneHasAtIs(Stocks(), freeBuddies, at, size, k, pageBits);
      NoneHasAtIs(was, there, at, size, k, pageBits);
      FitsIs(at, size, k, pageBits);
      forall j | 1 <= j < |freeBuddies|
        ensures Stocks()[j] == was[j - 1] && freeBuddies[j] == there[j - 1]
      {
        assert Stocks()[1..][j - 1] == Stocks()[j] && freeBuddies[1..][j - 1] == freeBuddies[j];
      }
    }

    lemma FirstFree(at: nat, size: nat) returns (k: nat)
      requires Valid() && freeBuddies != [] && size <= MB
      requires var p := freeBuddies[0];
        && p.buddy.live == map[] && Size(p.region) == MB && p.region.start % MB == 0
        && p.region.start <= at < p.region.start + MB
      ensures OrderFor(size, k, pageBits)
      ensures FreeAt(Stocks()[0].own, freeBuddies[0].region.start, pageBits, at, k) <==> AlignedAt(at, k + pageBits)
    {
      assert ParentOk(freeBuddies[0], pageBits);
      MbIs();
      k := SomeOrder(size, pageBits, MB_BITS - pageBits);
      hide FreeAt, AlignedAt, Pow2, Held, ParentOk;
      OrderSmall(size, k, pageBits);
      EmptyParentFreeAt(freeBuddies[0], pageBits, at, k);
    }

    lemma FitsIs(at: nat, size: nat, k: nat, bits: nat)
      requires OrderFor(size, k, bits)
      ensures FitsMeg(at, size, bits) <==> AlignedAt(at, k + bits)
    {
      hide OrderFor, AlignedAt;
      if FitsMeg(at, size, bits) {
        var l: nat :| OrderFor(size, l, bits) && AlignedAt(at, l + bits);
        OneOrder(size, k, l, bits);
      }
    }

    lemma TakenInside(free: seq<Region>, mem: Region, l: seq<Region>)
      requires Taken(free, mem, l, mem)
      requires exists k :: 0 <= k < |free| && free[k].start <= mem.start && mem.end <= free[k].end
      ensures forall x :: In(mem, x) ==> Covered(free, x)
    {
    }

    /** A free region holds a megabyte when it holds its first byte. */
    lemma FoundMeg(free: seq<Region>, adr: nat)
      requires Megs(free) && adr % MB == 0
      ensures (exists k :: 0 <= k < |free| && free[k].start <= adr && adr + 1 * MB - 1 <= free[k].end) <==>
        Covered(free, adr)
    {
      forall k | 0 <= k < |free| && In(free[k], adr)
        ensures adr + MB - 1 <= free[k].end
      {
        assert Meg(free[k]);
      }
    }

    /** mreg_level1_allocate_at of the megabyte at `adr`, and memregion_attach_buddy of it. */
    method OpenMeg(adr: nat, gotMemory: bool) returns (ok: bool, ghost more: seq<Parent>)
      requires Valid() && adr % MB == 0
      modifies `freeMegs, `freeBuddies, `holder
      ensures Valid() && freeBuddies == more + old(freeBuddies) && |more| == if ok then 1 else 0
      ensures forall p :: p in more ==> fresh(p.buddy) && fresh(p.buddy.all) && fresh(p.buddy.free)
      ensures forall p :: p in more ==> p.buddy.live == map[] && p.region == Region(adr, adr + MB - 1)
      ensures ok <==> old(Covered(freeMegs, adr)) && CanManage(pageBits, gotMemory)
      ensures forall y :: holder(y) == Nobody <==> old(holder)(y) == Nobody
    {
      hide ParentOk, Held, Meg, Megs, Taken, Covered;
      InHeap();
      ok, more := false, [];
      HeldFree(holder, freeMegs, live, freeBuddies);
      var found, mem, l := Level1AllocateAt(freeMegs, adr, 1);
      FoundMeg(freeMegs, adr);
      if found {
        TakenInside(freeMegs, mem, l);
        var b;
        ok, b := Install(mem, l, gotMemory);
        if ok {
          more := [Parent(mem, b)];
        }
      }
    }

    /** mreg_free of null, of a live region, or of a live block, which is that of page `x` of buddy `i`. */
    method Free(m: Mem) returns (ghost i: nat, ghost x: nat)
      requires Valid() && (m != Null ==> m in Owned())
      modifies `freeMegs, `live, `holder, Buddies()`own, Buddies()`live, Buddies()`lists, Tags(), Lists()
      ensures Valid() && freeBuddies == old(freeBuddies) && Owned() == old(Owned()) - {m}
      ensures live == if m.Plain? then old(live) - {m.region} else old(live)
      ensures holder == if m.Plain? then Reassigned(old(holder), m.region, FreeMeg) else old(holder)
      ensures if m.Child? then i < |freeBuddies| && x in old(Stocks())[i].live && var was := old(Stocks())[i];
                && m == BlockOf(freeBuddies[i], x, was.live[x], pageBits) && x + Pow2(was.live[x]) <= |was.own|
                && Stocks() == old(Stocks())[i := Stock(Fill(was.own, x, was.live[x], FREE), was.live - {x})]
              else Stocks() == old(Stocks())
    {
      hide Valid, BlocksOf;
      i, x := 0, 0;
      NotNullBlock();
      match m
      case Null =>
      case Plain(q) =>
        PlainNoBlock(q);
        TakeBack(q);
      case Child(_, _) =>
        i, x := BlockPlace(m);
        Level2Free(m, i, x);
    }

    lemma PlainNoBlock(q: Region)
      ensures Plain(q) !in Blocks()
    {
    }

    lemma BlockPlace(m: Mem) returns (i: nat, x: nat)
      requires m in Blocks()
      ensures i < |freeBuddies| && x in Stocks()[i].live
        && m == BlockOf(freeBuddies[i], x, Stocks()[i].live[x], pageBits)
      ensures m.Child? && m.buddy == freeBuddies[i].buddy
      ensures m.region.start == freeBuddies[i].region.start + x * Pow2(pageBits)
    {
      i, x :| i < |freeBuddies| && x in freeBuddies[i].buddy.live
        && m == BlockOf(freeBuddies[i], x, freeBuddies[i].buddy.live[x], pageBits);
    }

    method TakeBack(r: Region)
      requires Valid() && r in live
      modifies `freeMegs, `live, `holder
      ensures Valid() && live == old(live) - {r} && holder == Reassigned(old(holder), r, FreeMeg)
    {
      hide ParentOk;
      InHeap();
      ghost var was := freeMegs;
      freeMegs := Level1Free(freeMegs, r);
      HeldGiven(holder, was, live, freeBuddies, r, freeMegs);
      live, holder := live - {r}, Reassigned(holder, r, FreeMeg);
      hide Held, Covered;
    }

    // ---------- a caller's view ----------

    /** What a caller needs to know of mreg_alloc and mreg_alloc_at. */
    method Request(ask: Ask) returns (m: Mem)
      requires Valid() && Askable(ask)
      modifies `freeMegs, `freeBuddies, `live, `holder, Buddies()`own, Buddies()`live, Buddies()`lists, Tags(), Lists()
      ensures Valid() && Owned() == (if m == Null then old(Owned()) else old(Owned()) + {m}) && m !in old(Owned())
      ensures forall p :: p in freeBuddies ==>
        p in old(freeBuddies) || (fresh(p.buddy) && fresh(p.buddy.all) && fresh(p.buddy.free))
    {
      hide Valid, HandedOut, RoundUp, OrderFor, NoneHas, More, Blocks, Owned, Available, CanManage, Stocks;
      hide RoundDown, SizeAt, NoneHasAt, Near, FitsMeg;
      ghost var before, i, k, x;
      match ask
      case Of(size, gotMemory, gotRecord) => m, before, i, k, x := Alloc(size, gotMemory, gotRecord);
      case At(adr, size, gotMemory, gotRecord) => m, before, i, k, x := AllocAt(adr, size, gotMemory, gotRecord);
    }

    /**
      Over any requests of either kind, all that was handed out is still there,
      apart from what was there before and from each other.
    */
    method RequestAll(asks: seq<Ask>) returns (got: seq<Mem>)
      requires Valid() && forall i :: 0 <= i < |asks| ==> Askable(asks[i])
      modifies `freeMegs, `freeBuddies, `live, `holder, Buddies()`own, Buddies()`live, Buddies()`lists, Tags(), Lists()
      ensures Valid() && Owned() == old(Owned()) + Members(got) && Distinct(got) && old(Owned()) !! Members(got)
      ensures forall g, h :: g in got && h in Owned() && g != h ==> Disjoint(g, h)
      ensures forall p :: p in freeBuddies ==>
        p in old(freeBuddies) || (fresh(p.buddy) && fresh(p.buddy.all) && fresh(p.buddy.free))
    {
      hide Valid, Owned, Disjoint;
      got := [];
      var i := 0;
      while i < |asks|
        invariant i <= |asks| && Valid() && Owned() == old(Owned()) + Members(got) && Distinct(got)
        invariant old(Owned()) !! Members(got)
        invariant forall p :: p in freeBuddies ==>
          p in old(freeBuddies) || (fresh(p.buddy) && fresh(p.buddy.all) && fresh(p.buddy.free))
      {
        var m := Request(asks[i]);
        if m != Null {
          assert Members(got + [m]) == Members(got) + {m};
          got := got + [m];
        }
        i := i + 1;
      }
      forall g, h | g in got && h in Owned() && g != h
        ensures Disjoint(g, h)
      {
        AllDisjoint(g, h);
      }
    }

    lemma AllDisjoint(g: Mem, h: Mem)
      requires Valid() && g in Owned() && h in Owned() && g != h
      ensures Disjoint(g, h)
    {
      OwnedHolds(g);
      OwnedHolds(h);
      OwnedApart(g, h);
    }

    /** What a caller has can be given back in any order. */
    method ReleaseAll(got: seq<Mem>)
      requires Valid() && Distinct(got) && forall g :: g in got ==> g in Owned()
      modifies `freeMegs, `live, `holder, Buddies()`own, Buddies()`live, Buddies()`lists, Tags(), Lists()
      ensures Valid() && freeBuddies == old(freeBuddies) && Owned() == old(Owned()) - Members(got)
    {
      hide Valid, Owned, Stocks;
      var i := 0;
      while i < |got|
        invariant i <= |got| && Valid() && freeBuddies == old(freeBuddies)
        invariant Owned() == old(Owned()) - Members(got[..i])
      {
        assert got[i] !in got[..i] && got[..i + 1] == got[..i] + [got[i]];
        assert Members(got[..i + 1]) == Members(got[..i]) + {got[i]};
        var _, _ := Free(got[i]);
        i := i + 1;
      }
      assert got[..i] == got;
    }

    /** So a caller that gives back all it got leaves what others have as it was. */
    method Session(asks: seq<Ask>)
      requires Valid() && forall i :: 0 <= i < |asks| ==> Askable(asks[i])
      modifies `freeMegs, `freeBuddies, `live, `holder, Buddies()`own, Buddies()`live, Buddies()`lists, Tags(), Lists()
      ensures Valid() && Owned() == old(Owned())
    {
      hide Valid, Owned, Disjoint, Distinct;
      var got := RequestAll(asks);
      ReleaseAll(got);
    }

    // ---------- attaching memory ----------

    /** The whole megabytes of a new region become free. */
    method AttachMegs(r: Region)
      requires Valid() && Meg(r) && forall x :: In(r, x) ==> holder(x) == Nobody
      modifies `freeMegs, `holder
      ensures Valid() && holder == Reassigned(old(holder), r, FreeMeg) && Owned() == old(Owned())
    {
      hide ParentOk, Held, Covered, BlockOf, Meg, Megs;
      InHeap();
      ghost var was := freeMegs;
      HeldFree(holder, freeMegs, live, freeBuddies);
      freeMegs := Level1Free(freeMegs, r);
      HeldAttached(holder, was, live, freeBuddies, r, freeMegs);
      holder := Reassigned(holder, r, FreeMeg);
      hide Held, Covered;
    }

    /** A part of a megabyte at an end of a new region becomes a buddy region, when there is memory for it. */
    method AttachPart(r: Region, gotMemory: bool)
      requires Valid() && 0 <= r.start <= r.end < ADDRESSES && WholePages(r, pageBits) && Size(r) < MB
      requires forall x :: In(r, x) ==> holder(x) == Nobody
      modifies `freeMegs, `freeBuddies, `holder
      ensures Valid() && Owned() == old(Owned())
      ensures forall p :: p in freeBuddies ==>
        p in old(freeBuddies) || (fresh(p.buddy) && fresh(p.buddy.all) && fresh(p.buddy.free))
      ensures forall x :: holder(x) == Nobody <==>
        old(holder)(x) == Nobody && !(In(r, x) && CanManage(pageBits, gotMemory))
    {
      hide ParentOk, Held, BlocksOf;
      InHeap();
      HeldFree(holder, freeMegs, live, freeBuddies);
      var ok, b := MakeBuddy(r, gotMemory);
      if ok {
        AddParent(r, b, freeMegs);
        BlocksMore([Parent(r, b)], old(freeBuddies), pageBits);
      }
    }

    /** The pages before the whole megabytes of a new region, and those after. */
    method AttachEnds(adr0: nat, adr1: nat, end1: int, end0: int, gotMemory: bool)
      requires Valid() && adr0 <= adr1 < adr0 + MB && adr1 - 1 <= end1 <= end0 < end1 + MB && end0 < ADDRESSES
      requires adr0 < adr1 ==> WholePages(Region(adr0, adr1 - 1), pageBits)
      requires end1 < end0 ==> WholePages(Region(end1 + 1, end0), pageBits)
      requires forall x :: adr0 <= x < adr1 || end1 < x <= end0 ==> holder(x) == Nobody
      modifies `freeMegs, `freeBuddies, `holder
      ensures Valid() && Owned() == old(Owned())
      ensures forall p :: p in freeBuddies ==>
        p in old(freeBuddies) || (fresh(p.buddy) && fresh(p.buddy.all) && fresh(p.buddy.free))
      ensures forall x :: holder(x) == Nobody <==>
        old(holder)(x) == Nobody && !((adr0 <= x < adr1 || end1 < x <= end0) && CanManage(pageBits, gotMemory))
    {
      hide Valid, WholePages, CanManage, Owned;
      if adr0 < adr1 {
        AttachPart(Region(adr0, adr1 - 1), gotMemory);
      }
      if end0 != end1 && end0 >= 1 + end1 {
        AttachPart(Region(end1 + 1, end0), gotMemory);
      }
    }

    /**
      mreg_region_attach of memory that nobody has.  The region holds a
      boundary between megabytes.  What becomes available is its whole
      megabytes, and the whole pages before and after them.
    */
    method RegionAttach(adr: nat, size: nat, gotMemory: bool) returns (ok: bool)
      requires Valid() && adr + size + MB <= ADDRESSES
      requires size >= 2 * Pow2(pageBits) ==> UpMb(RoundUp(adr, pageBits)) <= PagesEnd(adr, size, pageBits)
      requires forall x :: RoundUp(adr, pageBits) <= x < PagesEnd(adr, size, pageBits) ==> holder(x) == Nobody
      modifies `freeMegs, `freeBuddies, `holder
      ensures forall p :: p in freeBuddies ==>
        p in old(freeBuddies) || (fresh(p.buddy) && fresh(p.buddy.all) && fresh(p.buddy.free))
      ensures Valid() && Owned() == old(Owned()) && (ok <==> size >= 2 * Pow2(pageBits))
      ensures !ok ==> holder == old(holder)
      ensures ok ==> forall x :: holder(x) == Nobody <==>
        (old(holder)(x) == Nobody && !Attached(adr, size, pageBits, CanManage(pageBits, gotMemory), x))
    {
      hide Valid, RoundUp, RoundDown, WholePages, CanManage, UpMb, MegsIn, MegsIn32, Owned;
      var pageSize := Pow2(pageBits);
      if size < 2 * pageSize {
        return false;
      }
      ok := true;
      BitsOk();
      RoundedUp(adr, pageBits);
      var adr0 := RoundUp(adr, pageBits);
      var size0 := RoundDown(size + adr - adr0, pageBits);
      RoundedDown(size + adr - adr0, pageBits);
      var end0 := adr0 + size0 - 1;
      Pieces(adr0, adr0 + size0);
      var adr1 := UpMb(adr0);
      MegsWrap(adr0, adr0 + size0);
      var size1 := MegsIn32(adr0, adr0 + size0);
      var end1 := adr1 + size1 - 1;
      if size1 != 0 {
        AttachMegs(Region(adr1, end1));
      }
      if adr0 < adr1 {
        HeadWhole(adr, adr1, pageBits);
      }
      if end1 < end0 {
        TailWhole(adr, size + adr - adr0, end1 + 1, pageBits);
      }
      AttachEnds(adr0, adr1, end1, end0, gotMemory);
    }
  }
}
