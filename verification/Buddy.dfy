/** The buddy allocator of library/mem/src/buddy.c. */
module Buddy {
  import opened Bits
  import opened Dyadic
  import opened BuddyBlocks
  import opened BuddyLists
  import opened BuddySteps

  const ORDERS: nat := 27
  const ADDRESSES: int := 0x1_0000_0000

  class Area {
    var base: nat
    var pageBits: nat
    var indexMax: nat
    var order: nat
    var all: array<Tag>
    var free: array<int>
    ghost var own: Owners
    ghost var live: map<nat, nat>
    ghost var lists: seq<seq<nat>>

    constructor ()
    {
      base, pageBits, indexMax, order := 0, 0, 0, 0;
      all := new Tag[0];
      free := new int[ORDERS];
      own, live, lists := [], map[], [];
    }

    ghost predicate Shape()
      reads this
    {
      && 1 <= order <= ORDERS == free.Length && |lists| == order
      && 0 < indexMax == all.Length == |own| && indexMax <= Pow2(order - 1)
      && base + indexMax * Pow2(pageBits) <= ADDRESSES
    }

    /** buddy_add_free: in front of the list. */
    method AddFree(index: nat, k: nat)
      requires Shape() && Linked(all[..], free[..], lists) && k < order && index < indexMax
      requires forall m :: 0 <= m < order ==> index !in lists[m]
      modifies all, free, `lists
      ensures Shape() && Linked(all[..], free[..], lists)
      ensures lists == old(lists)[k := [index] + old(lists)[k]]
      ensures forall p :: 0 <= p < indexMax && p != index && p !in old(lists)[k] ==> all[p] == old(all[p])
    {
      ghost var tags, firsts := all[..], free[..];
      ghost var l := lists[k];
      assert List(tags, firsts[k], l, k);
      var first := free[k];
      if first == -1 {
        all[index] := all[index].(free := true, next := index);
      } else {
        assert Node(tags, l, 0, k) && l[0] in l;
        all[first] := all[first].(prev := index);
        all[index] := all[index].(free := true, next := first);
      }
      all[index] := all[index].(order := k, prev := index);
      free[k] := index;
      LinkedPush(tags, all[..], firsts, lists, k, index);
      assert free[..] == firsts[k := index];
      lists := lists[k := [index] + l];
    }

    /** buddy_remove_free: from anywhere in the list.  The tag of the block itself stays as it is, free flag and all. */
    method RemoveFree(index: nat, k: nat, ghost j: nat)
      requires Shape() && Linked(all[..], free[..], lists) && k < order && j < |lists[k]| && lists[k][j] == index
      modifies all, free, `lists
      ensures Shape() && Linked(all[..], free[..], lists)
      ensures lists == old(lists)[k := Without(old(lists)[k], j)]
      ensures forall p :: 0 <= p < indexMax && p !in old(lists)[k] ==> all[p] == old(all[p])
    {
      hide Linked, Pow2;
      ghost var tags, firsts := all[..], free[..];
      ghost var l := lists[k];
      Around(tags, firsts, lists, k, j);
      var next, prev := all[index].next, all[index].prev;
      if prev == index {
        if next == index {
          free[k] := -1;
        } else {
          free[k] := next;
          all[next] := all[next].(prev := next);
        }
      } else {
        if next == index {
          all[prev] := all[prev].(next := prev);
        } else {
          all[next] := all[next].(prev := prev);
          all[prev] := all[prev].(next := next);
        }
      }
      forall i | 0 <= i < |l| && i != j && l[i] < |tags|
        ensures all[l[i]] == Relinked(tags, l, i, j)
      {
      }
      LinkedRemove(tags, all[..], firsts, lists, k, j);
      assert free[..] == firsts[k := if j > 0 then firsts[k] else if |l| > 1 then l[1] else -1];
      lists := lists[k := Without(l, j)];
    }

    /** Everything holds, but for the tags of `pending` and `limbo`. */
    ghost predicate Parts(pending: int, limbo: int)
      reads this, all, free
    {
      && Shape() && Linked(all[..], free[..], lists) && Canon(own, order - 1, lists)
      && LiveOk(own, live) && Tagged(all[..], live, pending, limbo)
    }

    ghost predicate Valid()
      reads this, all, free
    {
      Parts(-1, -1)
    }

    // ---------- free ----------

    /** One turn of the merge loop: the free buddy leaves its list and joins the block in limbo. */
    method Absorb(index: nat, b: nat, k: nat, ghost pending: int)
      requires Parts(pending, index) && index in live && live[index] == k < order - 1
      requires b == FlipBit(index, k) && Head(own, order - 1, b, k)
      modifies all, free, `lists, `own, `live
      ensures Base(index, k + 1) + Pow2(k + 1) <= |old(own)|
      ensures var y := Base(index, k + 1);
        && Parts(pending, y) && own == Fill(old(own), y, k + 1, y) && live == (old(live) - {index})[y := k + 1]
    {
      hide Head, LiveOk, Linked, FlipBit, Canon, Base, Pow2, Full;
      ghost var j := HeadTagged(all[..], free[..], lists, own, order - 1, b, k);
      ghost var was, tags := lists, all[..];
      RemoveFree(b, k, j);
      HeadIsFull(own, order - 1, b, k);
      LiveMerged(own, live, index);
      ghost var y := Base(index, k + 1);
      TagsKept(tags, all[..], own, live, order - 1, was, k, index, pending, index);
      Around(tags, old(free[..]), was, k, j);
      CanonTaken(own, Fill(own, y, k + 1, y), order - 1, was, k, j);
      own, live := Fill(own, y, k + 1, y), (live - {index})[y := k + 1];
    }

    /** The end of buddy_free: the merged block goes to its list. */
    method Insert(index: nat, k: nat, ghost pending: int)
      requires Parts(pending, index) && index in live && live[index] == k
      requires k < order - 1 ==> !Head(own, order - 1, FlipBit(index, k), k)
      modifies all, free, `lists, `own, `live
      ensures index + Pow2(k) <= |old(own)|
      ensures Parts(pending, -1) && own == Fill(old(own), index, k, FREE) && live == old(live) - {index}
    {
      hide Head, Linked, FlipBit, Canon, Base, Pow2;
      ghost var was, tags := lists, all[..];
      LiveOrder(own, live, order - 1, index);
      NotListed(own, order - 1, lists, index);
      AddFree(index, k);
      ghost var rest := live - {index};
      TagsKept(tags, all[..], own, live, order - 1, was, k, index, pending, index);
      LiveFreed(own, live, index);
      CanonGiven(own, Fill(own, index, k, FREE), order - 1, was, index, k);
      own, live := Fill(own, index, k, FREE), rest;
    }

    /** What buddy_free does to the block at page `start`, merging it with free buddies as far as they go. */
    method FreeBlock(start: nat, ghost pending: int)
      requires Parts(pending, -1) && start in live && start != pending
      modifies all, free, `lists, `own, `live
      ensures start + Pow2(old(live)[start]) <= |old(own)|
      ensures Parts(pending, -1)
      ensures own == Fill(old(own), start, old(live)[start], FREE) && live == old(live) - {start}
    {
      hide Head, LiveOk, Linked, FlipBit, Canon, Fill, Grown, Base, Pow2, Full;
      var index, orderMax := start, order - 1;
      var i := all[index].order;
      ghost var o := live[start];
      LiveOrder(own, live, order - 1, start);
      LiveRun(own, live, start);
      while i < orderMax
        invariant i <= orderMax && Parts(pending, index) && index in live && live[index] == i
        invariant live - {index} == old(live) - {start}
        invariant Grown(old(own), own, start, o, index, i)
      {
        var b := FlipBit(index, i);
        if b >= indexMax {
          OutOfRange(own, order - 1, b, i);
          break;
        }
        BuddyTest(all[..], free[..], lists, own, live, order - 1, pending, index);
        if !all[b].free || all[b].order != i {
          break;
        }
        FirstOfBuddies(own, live, index);
        ghost var before := own;
        HeadIsFull(own, order - 1, b, i);
        Absorb(index, b, i, pending);
        GrownMore(old(own), before, own, start, o, index, i);
        if b < index {
          index := b;
        }
        i := i + 1;
      }
      ghost var before := own;
      Insert(index, i, pending);
      GrownFreed(old(own), before, own, start, o, index, i);
    }

    /** The page number buddy_free works out, in 32-bit arithmetic. */
    function Index(adr: nat): (x: nat)
      reads this`base, this`pageBits
    {
      PageAt((adr - base) % ADDRESSES, pageBits)
    }

    function Address(x: nat): nat
      reads this`base, this`pageBits
    {
      base + x * Pow2(pageBits)
    }

    lemma IndexOfPage(x: nat)
      requires Shape() && x < indexMax
      ensures Address(x) < ADDRESSES && Index(Address(x)) == x
    {
      var w := Pow2(pageBits);
      Pow2Positive(pageBits);
      assert (indexMax - x) * w >= w by { MulAtLeast(indexMax - x, w); }
      assert indexMax * w == x * w + (indexMax - x) * w;
      Split(x, w, 0);
    }

    /** Where a run of pages lies. */
    lemma BlockPlace(x: nat, k: nat)
      requires x + Pow2(k) <= indexMax && Aligned(x, k)
      ensures Pow2(k + pageBits) > 0 && Address(x) >= base && (Address(x) - base) % Pow2(k + pageBits) == 0
      ensures Address(x) + Pow2(k + pageBits) <= base + indexMax * Pow2(pageBits)
    {
      Pow2Positive(k);
      Pow2Positive(pageBits);
      Pow2Positive(k + pageBits);
      RunBytes(x, k, pageBits, indexMax);
      RunStart(x, k, pageBits);
    }

    /** buddy_free.  The address is outside the area, or in the first page of a block, live or free. */
    method Free(adr: nat, ghost pending: int) returns (ok: bool)
      requires Parts(pending, -1) && adr < ADDRESSES
      requires var x := Index(adr);
        x >= indexMax || (x in live && x != pending) || HeadsFree(own, order - 1, x)
      modifies all, free, `lists, `own, `live
      ensures Parts(pending, -1)
      ensures ok <==> Index(adr) in old(live)
      ensures ok ==> var x := Index(adr);
        && x + Pow2(old(live)[x]) <= |old(own)|
        && own == Fill(old(own), x, old(live)[x], FREE) && live == old(live) - {x}
      ensures !ok ==> own == old(own) && live == old(live)
      ensures !ok ==> lists == old(lists) && all[..] == old(all[..]) && free[..] == old(free[..])
    {
      hide Head, LiveOk, Linked, Canon, Fill;
      var index := Index(adr);
      if index < indexMax {
        if HeadsFree(own, order - 1, index) {
          ghost var k: nat :| Head(own, order - 1, index, k);
          ghost var j := HeadTagged(all[..], free[..], lists, own, order - 1, index, k);
          ListedIsFree(own, order - 1, lists, k, index);
          FreeNotLive(own, live, index);
        }
        if !all[index].free {
          FreeBlock(index, pending);
          return true;
        }
      }
      return false;
    }

    // ---------- allocate ----------

    /**
      The first loop of buddy_allocate_subset: every page but the inner ones of
      the block to allocate is in use, of order 0.
    */
    method ClearTags(x: nat, k: nat, y: nat, m: nat)
      requires Shape() && Linked(all[..], free[..], lists) && Canon(own, order - 1, lists)
      requires Within(x, k, y, m) && x + Pow2(k) <= indexMax && forall p :: Inside(p, x, k) ==> own[p] != FREE
      modifies all
      ensures Linked(all[..], free[..], lists)
      ensures forall p :: 0 <= p < indexMax && !Inside(p, x, k) ==> all[p] == old(all[p])
      ensures forall p :: Inside(p, x, k) && (p == y || !Inside(p, y, m)) ==> all[p] == Tag(false, 0, 0, 0)
    {
      hide Linked, Canon, Base, Pow2;
      Pow2Positive(m);
      var i := 0;
      while i < Pow2(k)
        invariant i <= Pow2(k) && (x + i <= y || x + i >= y + Pow2(m))
        invariant Linked(all[..], free[..], lists)
        invariant forall p :: 0 <= p < indexMax && !Inside(p, x, k) ==> all[p] == old(all[p])
        invariant forall p :: x <= p < x + i && (p == y || !Inside(p, y, m)) ==> all[p] == Tag(false, 0, 0, 0)
      {
        ghost var tags := all[..];
        all[x + i] := Tag(false, 0, 0, 0);
        LinkedFrame(tags, all[..], free[..], lists, own, order - 1, x + i);
        if x + i == y {
          i := i + (Pow2(m) - 1);
        }
        i := i + 1;
      }
    }

    /** The second loop: pages outside the block to allocate are freed one by one, the block gets its order. */
    method ReturnRest(x: nat, k: nat, y: nat, m: nat, ghost before: Owners, ghost alive: map<nat, nat>)
      requires Parts(y, -1) && LiveOk(before, alive) && Full(before, x, k) && Within(x, k, y, m)
      requires own == SplitOwners(before, x, k, y, m, x) && live == SplitLive(alive, x, k, y, m, x)
      modifies all, free, `lists, `own, `live
      ensures Valid() && own == SplitOwners(before, x, k, y, m, x + Pow2(k))
        && live == SplitLive(alive, x, k, y, m, x + Pow2(k))
    {
      hide Linked, Canon, LiveOk, Head, SplitOwners, SplitLive, Pow2, Base, Fill;
      Pow2Positive(m);
      var i := 0;
      while i < Pow2(k)
        invariant i <= Pow2(k) && (x + i <= y || x + i >= y + Pow2(m))
        invariant Parts(if x + i <= y then y else -1, -1)
        invariant own == SplitOwners(before, x, k, y, m, x + i) && live == SplitLive(alive, x, k, y, m, x + i)
      {
        if x + i == y {
          SplitSkip(before, x, k, y, m);
          SplitSkipLive(alive, x, k, y, m);
          SetOrder(y, m);
          i := i + (Pow2(m) - 1);
        } else {
          IndexOfPage(x + i);
          SplitPage(before, alive, x, k, y, m, x + i);
          var ok := Free(Address(x + i), if x + i < y then y else -1);
        }
        i := i + 1;
      }
    }

    method SetOrder(y: nat, m: nat)
      requires Parts(y, -1) && y in live && live[y] == m
      modifies all
      ensures Valid()
    {
      hide Linked, Canon, Base, Pow2;
      ghost var tags := all[..];
      LiveOrder(own, live, order - 1, y);
      all[y] := all[y].(order := m, prev := 0);
      LinkedFrame(tags, all[..], free[..], lists, own, order - 1, y);
    }

    /** buddy_allocate_subset: of the free block (x, k), (y, m) becomes live and the rest is free. */
    method AllocateSubset(x: nat, k: nat, y: nat, m: nat)
      requires Valid() && Head(own, order - 1, x, k) && Within(x, k, y, m)
      modifies all, free, `lists, `own, `live
      ensures y + Pow2(m) <= |old(own)|
      ensures Valid() && own == Fill(old(own), y, m, y) && live == old(live)[y := m]
    {
      hide Linked, LiveOk, Head, SplitOwners, SplitLive, Pow2, Base, Fill, Canon;
      ghost var before, alive, was, tags := own, live, lists, all[..];
      ghost var j := HeadTagged(all[..], free[..], lists, own, order - 1, x, k);
      HeadIsFull(own, order - 1, x, k);
      Around(tags, free[..], was, k, j);
      RemoveFree(x, k, j);
      SplitStart(before, alive, x, k, y, m);
      SplitTakes(before, x, k, y, m);
      CanonTaken(before, SplitOwners(before, x, k, y, m, x), order - 1, was, k, j);
      TagsKept(tags, all[..], before, alive, order - 1, was, k, x, -1, -1);
      own, live := SplitOwners(before, x, k, y, m, x), SplitLive(alive, x, k, y, m, x);
      ghost var mid := all[..];
      ClearTags(x, k, y, m);
      SplitTagged(mid, all[..], alive, x, k, y, m);
      ReturnRest(x, k, y, m, before, alive);
      SplitEnd(before, alive, x, k, y, m);
    }

    /**
      buddy_alloc: fails exactly when no aligned run of 2^k free pages exists,
      and splits the shortest free block that will do.
    */
    method Alloc(k: nat) returns (ok: bool, adr: nat)
      requires Valid()
      modifies all, free, `lists, `own, `live
      ensures Valid()
      ensures ok <==> exists x: nat :: Full(old(own), x, k)
      ensures ok ==> var x := Index(adr);
        && adr == Address(x) && x + Pow2(k) <= |old(own)| && Full(old(own), x, k)
        && own == Fill(old(own), x, k, x) && live == old(live)[x := k]
        && FromShortest(old(own), order - 1, k, x)
      ensures Pow2(k + pageBits) > 0
      ensures ok ==> base <= adr && adr + Pow2(k + pageBits) <= base + indexMax * Pow2(pageBits)
      ensures ok ==> (adr - base) % Pow2(k + pageBits) == 0
      ensures !ok ==> own == old(own) && live == old(live) && lists == old(lists)
      ensures !ok ==> all[..] == old(all[..]) && free[..] == old(free[..])
    {
      hide Linked, LiveOk, Head, Pow2, Base, Fill, Full;
      Pow2Positive(k + pageBits);
      adr := 0;
      var i := k;
      while i < order
        invariant k <= i
        invariant forall m :: k <= m < i && m < order ==> lists[m] == []
      {
        assert List(all[..], free[i], lists[i], i) by { LinkedList(all[..], free[..], lists, i); }
        var ret := free[i];
        if ret != -1 {
          assert ret in lists[i];
          ListedIsFree(own, order - 1, lists, i, ret);
          StartOfRun(own, order - 1, ret, i, k);
          NoneListed(own, order - 1, lists, k, i);
          assert Shortest(own, order - 1, k, ret, i);
          AllocateSubset(ret, i, ret, k);
          IndexOfPage(ret);
          BlockPlace(ret, k);
          adr := Address(ret);
          return true, adr;
        }
        i := i + 1;
      }
      NoRun(own, order - 1, lists, k);
      return false, adr;
    }

    /** The inner loop of buddy_alloc_at: along the list of order i for a free block that covers the run (x, k). */
    method Covering(i: nat, x: nat, k: nat) returns (found: bool, index: nat)
      requires Valid() && i < order && k <= i && Aligned(x, k)
      ensures found ==> Head(own, order - 1, index, i) && Within(index, i, x, k)
      ensures !found ==> NoneCovers(own, order - 1, i, x, k)
    {
      hide Linked, LiveOk, Head, Pow2, Base;
      ghost var l := lists[i];
      LinkedList(all[..], free[..], lists, i);
      index := 0;
      if free[i] == -1 {
        return false, index;
      }
      index := free[i];
      ghost var j := 0;
      while true
        invariant j < |l| && index == l[j]
        invariant forall c :: 0 <= c < j ==> !(l[c] <= x && x + Pow2(k) <= l[c] + Pow2(i))
        decreases |l| - j
      {
        if x >= index && x + Pow2(k) - 1 < index + Pow2(i) {
          assert l[j] in l;
          return true, index;
        }
        Around(all[..], free[..], lists, i, j);
        var next := all[index].next;
        if index == next {
          break;
        }
        index := next;
        j := j + 1;
      }
      return false, index;
    }

    /** buddy_alloc_at: succeeds exactly on an aligned run of free pages. */
    method AllocAt(adr: nat, k: nat) returns (ok: bool, ret: nat)
      requires Valid() && adr < ADDRESSES && k + pageBits < 32
      modifies all, free, `lists, `own, `live
      ensures Valid() && Pow2(k + pageBits) > 0
      ensures ok <==> (adr - base) % ADDRESSES % Pow2(k + pageBits) == 0 && Full(old(own), Index(adr), k)
      ensures ok ==> var x := Index(adr);
        && ret == adr && x + Pow2(k) <= |old(own)|
        && own == Fill(old(own), x, k, x) && live == old(live)[x := k]
      ensures !ok ==> own == old(own) && live == old(live) && lists == old(lists)
      ensures !ok ==> all[..] == old(all[..]) && free[..] == old(free[..])
    {
      hide Linked, LiveOk, Head, Pow2, Base, Fill, Full, Within;
      ret := 0;
      Pow2Positive(k + pageBits);
      var offset := (adr - base) % ADDRESSES;
      var size := Pow2(k + pageBits);
      if offset % size != 0 {
        return false, ret;
      }
      var x := PageAt(offset, pageBits);
      RunAligned(offset, k, pageBits);
      var i := k;
      while i < order
        invariant k <= i && unchanged(this) && unchanged(all) && unchanged(free) && Valid()
        invariant NoneCoversBelow(own, order - 1, i, x, k)
      {
        var found, index := Covering(i, x, k);
        if found {
          RunFits(own, order - 1, index, i, x, k);
          AllocateSubset(index, i, x, k);
          IndexOfPage(x);
          SameAddress(adr, base, x * Pow2(pageBits));
          return true, Address(x);
        }
        i := i + 1;
      }
      assert Shape();
      NotCovered(own, order - 1, x, k);
      return false, ret;
    }
    // ---------- queries ----------

    /** buddy_get_order_from_size: the least order whose blocks hold `size` bytes. */
    method GetOrderFromSize(size: nat) returns (r: nat)
      requires size <= 0x8000_0000 && pageBits < 32
      ensures size <= Pow2(pageBits + r) && (r > 0 ==> size > Pow2(pageBits + r - 1))
    {
      var ret := pageBits;
      Pow2Positive(ret);
      while size > Pow2(ret)
        invariant pageBits <= ret && (ret > pageBits ==> size > Pow2(ret - 1)) && Pow2(ret) >= 1
        decreases size - Pow2(ret)
      {
        ret := ret + 1;
      }
      return ret - pageBits;
    }

    /**
      buddy_contains_order: there is a free block of that order; or, with
      `orLarger`, a run of that many free pages.
    */
    method ContainsOrder(k: int, orLarger: bool) returns (r: bool)
      requires Valid()
      ensures r ==> 0 <= k < order
      ensures 0 <= k < order ==> (r <==> if orLarger then HasRun(own, k) else HasHead(own, order - 1, k))
    {
      hide Linked, LiveOk, Head, Pow2, Base, Full;
      if k < 0 || k >= order {
        return false;
      }
      var i: nat := k;
      while i < order
        invariant k <= i && (i > k ==> orLarger)
        invariant forall m :: k <= m < i && m < order ==> lists[m] == []
      {
        LinkedList(all[..], free[..], lists, i);
        if free[i] != -1 {
          var x := free[i];
          assert x in lists[i] && Head(own, order - 1, x, i);
          StartOfRun(own, order - 1, x, i, k);
          return true;
        }
        if !orLarger {
          break;
        }
        i := i + 1;
      }
      if orLarger {
        NoRun(own, order - 1, lists, k);
      } else {
        NoneListed(own, order - 1, lists, k, k + 1);
      }
      return false;
    }

    method BelongsTo(adr: nat) returns (r: bool)
      requires Valid() && adr < ADDRESSES
      ensures r <==> exists x: nat :: x < indexMax && Address(x) <= adr < Address(x) + Pow2(pageBits)
    {
      hide Pow2, PageAt, Index, Address, Linked, LiveOk, Tagged, Canon;
      var index := Index(adr);
      r := index < indexMax;
      forall x: nat | x < indexMax
        ensures index == x <==> Address(x) <= adr < Address(x) + Pow2(pageBits)
      {
        PageOfAddress(adr, x);
      }
      if r {
        PageOfAddress(adr, index);
        assert index < indexMax && Address(index) <= adr < Address(index) + Pow2(pageBits);
      }
    }

    lemma PageOfAddress(adr: nat, x: nat)
      requires Shape() && adr < ADDRESSES && x < indexMax
      ensures Index(adr) == x <==> Address(x) <= adr < Address(x) + Pow2(pageBits)
    {
      hide Pow2, PageAt;
      var offset := (adr - base) % ADDRESSES;
      PageHolds(offset, pageBits);
      PagesFit(x, pageBits, indexMax);
      if Index(adr) == x {
        SameAddress(adr, base, offset);
      } else if Address(x) <= adr < Address(x) + Pow2(pageBits) {
        assert adr - base >= 0 ==> offset == adr - base;
        NonNegativeTimes(x, Pow2(pageBits));
        PageIs(x, pageBits, adr - base);
      }
    }

    lemma NonNegativeTimes(x: nat, w: nat)
      ensures x * w >= 0
    {
    }

    // ---------- init ----------

    /** The pages buddy_init gives to the free lists: `first` and `last` bound them where they are not zero. */
    predicate Offered(x: nat, first: nat, last: nat)
      reads this`base, this`pageBits
    {
      (first == 0 || Address(x) >= first) && (last == 0 || Address(x) < last)
    }

    /** buddy_init.  `gotMemory` is whether malloc gave it memory for the tags. */
    method Init(start: nat, bytes: nat, bits: nat, firstFree: nat, lastFree: nat, gotMemory: bool) returns (ok: bool)
      requires bits < 32 && start + bytes <= ADDRESSES && firstFree + Pow2(bits) <= ADDRESSES && lastFree < ADDRESSES
      requires PageAt(bytes, bits) <= Pow2(26)
      modifies this
      ensures Pow2(bits) > 0
      ensures ok <==> start % Pow2(bits) == 0 && 5 <= bits <= 24 && PageAt(bytes, bits) >= 1 && gotMemory
      ensures ok ==> Valid() && fresh(all) && fresh(free)
      ensures ok ==> base == start && pageBits == bits && indexMax == PageAt(bytes, bits)
      ensures ok ==> indexMax <= Pow2(order - 1) && (order > 1 ==> indexMax > Pow2(order - 2))
      ensures ok ==> forall x: nat :: x < indexMax ==>
        own[x] == if Offered(x, RoundUp(firstFree, bits), RoundDown(lastFree, bits)) then FREE else x
      ensures ok ==> forall x: nat :: x in live <==> x < indexMax && own[x] != FREE
      ensures ok ==> forall x :: x in live ==> live[x] == 0
    {
      hide Linked, LiveOk, Canon, Tagged, Pow2, Offered;
      Pow2Positive(bits);
      if start % Pow2(bits) != 0 {
        return false;
      }
      var size := PageAt(bytes, bits);
      base, pageBits, indexMax := start, bits, size;
      if bits < 5 || bits > 24 || size < 1 {
        return false;
      }
      order := OrdersFor(size);
      if !gotMemory {
        return false;
      }
      AreaFits(bytes, bits);
      ClearArea();
      var first, last := RoundUp(firstFree, bits), RoundDown(lastFree, bits);
      OfferPages(first, last);
      return true;
    }

    /** Zeroed tags and empty lists: every page is in use, a block of order 0. */
    method ClearArea()
      requires 1 <= order <= ORDERS && 0 < indexMax <= Pow2(order - 1)
      requires base + indexMax * Pow2(pageBits) <= ADDRESSES
      modifies this`all, this`free, `lists, `own, `live
      ensures Valid() && fresh(all) && fresh(free) && own == AllLive(indexMax) && live == EachLive(indexMax)
    {
      hide Linked, LiveOk, Canon, Tagged, Pow2;
      all := new Tag[indexMax](_ => Tag(false, 0, 0, 0));
      free := new int[ORDERS](_ => -1);
      own, live, lists := AllLive(indexMax), EachLive(indexMax), seq(order, _ => []);
      NothingFree(all[..], free[..], own, live, lists, order - 1);
    }

    method OfferPages(first: nat, last: nat)
      requires Valid() && own == AllLive(indexMax) && live == EachLive(indexMax)
      modifies all, free, `lists, `own, `live
      ensures Valid()
      ensures forall x: nat :: x < indexMax ==> own[x] == if Offered(x, first, last) then FREE else x
      ensures forall x: nat :: x in live <==> x < indexMax && own[x] != FREE
      ensures forall x :: x in live ==> live[x] == 0
    {
      hide Linked, LiveOk, Canon, Tagged, Pow2, Address, Offered, Fill, Index;
      var i := 0;
      while i < indexMax
        invariant i <= indexMax && Valid()
        invariant forall x: nat :: x < indexMax ==> own[x] == if x < i && Offered(x, first, last) then FREE else x
        invariant forall x: nat :: x in live <==> x < indexMax && own[x] != FREE
        invariant forall x :: x in live ==> live[x] == 0
      {
        if Offered(i, first, last) {
          IndexOfPage(i);
          FillOne(own, i);
          var _ := Free(Address(i), -1);
        }
        i := i + 1;
      }
    }
  }

  /** The number of orders for an area of `size` pages. */
  method OrdersFor(size: nat) returns (order: nat)
    requires 1 <= size <= Pow2(26)
    ensures 1 <= order <= ORDERS && size <= Pow2(order - 1) && (order > 1 ==> size > Pow2(order - 2))
  {
    order := 0;
    while size > Pow2(order)
      invariant order > 0 ==> size > Pow2(order - 1)
      invariant order <= 26
      decreases 26 - order
    {
      if order == 26 {
        assert false;
      }
      order := order + 1;
    }
    order := order + 1;
  }
}
