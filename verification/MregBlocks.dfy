/** Blocks of buddy regions, as the region manager hands them out: which there are, and that they do not overlap. */
module MregBlocks {
  import opened Bits
  import opened Dyadic
  import opened BuddyBlocks
  import opened BuddySteps
  import opened Buddy
  import opened MregRegions

  /** A region flagged MEMREGION_FLAGS_IS_BUDDY_PARENT, with its allocator. */
  datatype Parent = Parent(region: Region, buddy: Area)

  /** What a caller gets: null, a region of whole megabytes, or a block of a buddy region. */
  datatype Mem = Null | Plain(region: Region) | Child(region: Region, buddy: Area)

  /** The pages and the live blocks of one buddy. */
  datatype Stock = Stock(own: Owners, live: map<nat, nat>)

  /** The block of order `k` at page `x` of a buddy region. */
  function BlockOf(p: Parent, x: nat, k: nat, bits: nat): (m: Mem)
    ensures m.Child? && m.buddy == p.buddy
  {
    var start := p.region.start + x * Pow2(bits);
    Child(Region(start, start - 1 + Pow2(k + bits)), p.buddy)
  }

  /** The blocks that are live in the buddy regions. */
  ghost function Children(parents: seq<Parent>, stocks: seq<Stock>, bits: nat): set<Mem>
    requires |parents| == |stocks|
  {
    set i, x | 0 <= i < |parents| && x in stocks[i].live :: BlockOf(parents[i], x, stocks[i].live[x], bits)
  }

  ghost predicate OneBuddyEach(parents: seq<Parent>)
  {
    forall i, j :: 0 <= i < j < |parents| ==> parents[i].buddy != parents[j].buddy
  }

  /** Buddy `i`, and no other, gave out the free run (x, k). */
  ghost predicate GivenOut(before: seq<Stock>, after: seq<Stock>, i: nat, x: nat, k: nat)
  {
    && i < |before| && x + Pow2(k) <= |before[i].own| && Full(before[i].own, x, k)
    && after == before[i := Stock(Fill(before[i].own, x, k, x), before[i].live[x := k])]
  }

  /** Buddy `i`, and no other, gave out the run (x, k), which `m` describes. */
  ghost predicate HandedOut(before: seq<Stock>, after: seq<Stock>, parents: seq<Parent>, bits: nat, i: nat, k: nat,
      x: nat, m: Mem)
  {
    && i < |before| == |parents| && GivenOut(before, after, i, x, k)
    && m == BlockOf(parents[i], x, k, bits)
    && parents[i].region.start <= m.region.start && m.region.end <= parents[i].region.end
  }

  lemma SmallerProduct(a: nat, b: nat, w: nat)
    requires a < b && w >= 1
    ensures a * w < b * w
  {
    MulAtLeast(b - a, w);
    assert b * w == a * w + (b - a) * w;
  }

  lemma SameFactor(a: nat, b: nat, w: nat)
    requires w >= 1 && a * w == b * w
    ensures a == b
  {
    if a < b {
      SmallerProduct(a, b, w);
    } else if b < a {
      SmallerProduct(b, a, w);
    }
  }

  /** A block tells its buddy and its page. */
  lemma SameBlock(parents: seq<Parent>, i: nat, x: nat, k: nat, j: nat, y: nat, l: nat, bits: nat)
    requires OneBuddyEach(parents) && i < |parents| && j < |parents|
    requires BlockOf(parents[i], x, k, bits) == BlockOf(parents[j], y, l, bits)
    ensures i == j && x == y
  {
    Pow2Positive(bits);
    SameFactor(x, y, Pow2(bits));
  }

  /** Handing out a block adds that block to the live ones, and no other. */
  lemma GivenChildren(before: seq<Stock>, after: seq<Stock>, parents: seq<Parent>, bits: nat, i: nat, k: nat, x: nat,
      m: Mem)
    requires HandedOut(before, after, parents, bits, i, k, x, m) && OneBuddyEach(parents)
    requires LiveOk(before[i].own, before[i].live)
    ensures |after| == |parents| && m != Null && m !in Children(parents, before, bits)
    ensures Children(parents, after, bits) == Children(parents, before, bits) + {m}
  {
    hide BlockOf, LiveOk, Pow2;
    RunNotLive(before[i].own, before[i].live, x, k);
    var was, now := Children(parents, before, bits), Children(parents, after, bits);
    forall j, y | 0 <= j < |parents| && y in before[j].live
      ensures BlockOf(parents[j], y, before[j].live[y], bits) != m
      ensures y in after[j].live && after[j].live[y] == before[j].live[y]
    {
      if BlockOf(parents[j], y, before[j].live[y], bits) == m {
        SameBlock(parents, i, x, k, j, y, before[j].live[y], bits);
      }
    }
    assert x in after[i].live && after[i].live[x] == k;
    forall h | h in now
      ensures h in was + {m}
    {
      var j, y :| 0 <= j < |parents| && y in after[j].live && h == BlockOf(parents[j], y, after[j].live[y], bits);
      if j != i || y != x {
        assert y in before[j].live;
      }
    }
  }

  lemma RunNotLive(own: Owners, live: map<nat, nat>, x: nat, k: nat)
    requires LiveOk(own, live) && Full(own, x, k)
    ensures x !in live
  {
    Pow2Positive(k);
    FreeNotLive(own, live, x);
  }

  /** Giving back a block takes that block from the live ones, and no other. */
  lemma FreedChildren(before: seq<Stock>, after: seq<Stock>, parents: seq<Parent>, bits: nat, i: nat, x: nat)
    requires i < |before| == |parents| && x in before[i].live && OneBuddyEach(parents)
    requires |after| == |before| && after[i].live == before[i].live - {x}
    requires forall j :: 0 <= j < |before| && j != i ==> after[j] == before[j]
    ensures Children(parents, after, bits)
      == Children(parents, before, bits) - {BlockOf(parents[i], x, before[i].live[x], bits)}
  {
    hide BlockOf;
    var was, now, m := Children(parents, before, bits), Children(parents, after, bits),
      BlockOf(parents[i], x, before[i].live[x], bits);
    forall h | h in now
      ensures h in was - {m}
    {
      var j, y :| 0 <= j < |parents| && y in after[j].live && h == BlockOf(parents[j], y, after[j].live[y], bits);
      assert y in before[j].live && before[j].live[y] == after[j].live[y];
      if h == m {
        SameBlock(parents, i, x, before[i].live[x], j, y, after[j].live[y], bits);
      }
    }
    forall h | h in was - {m}
      ensures h in now
    {
      var j, y :| 0 <= j < |parents| && y in before[j].live && h == BlockOf(parents[j], y, before[j].live[y], bits);
      assert y in after[j].live;
    }
  }

  // ---------- blocks do not overlap ----------

  /** Two live runs of one buddy have no page in common. */
  lemma RunsApart(own: Owners, live: map<nat, nat>, x: nat, y: nat)
    requires LiveOk(own, live) && x in live && y in live && x < y
    ensures x + Pow2(live[x]) <= y
  {
    Pow2Positive(live[y]);
    assert Inside(y, y, live[y]) && own[y] == y;
    assert !Inside(y, x, live[x]);
  }

  lemma BlocksApart(p: Parent, own: Owners, live: map<nat, nat>, x: nat, y: nat, bits: nat)
    requires LiveOk(own, live) && x in live && y in live && x < y
    ensures BlockOf(p, x, live[x], bits).region.end < BlockOf(p, y, live[y], bits).region.start
  {
    hide Pow2, LiveOk;
    RunsApart(own, live, x, y);
    RunBytes(x, live[x], bits, y);
  }

  lemma LiveFits(own: Owners, live: map<nat, nat>, x: nat)
    requires LiveOk(own, live) && x in live
    ensures x + Pow2(live[x]) <= |own|
  {
  }

  /** A live block lies in its region. */
  lemma BlockInside(p: Parent, own: Owners, live: map<nat, nat>, x: nat, bits: nat)
    requires LiveOk(own, live) && x in live && |own| * Pow2(bits) == Size(p.region)
    ensures var r := BlockOf(p, x, live[x], bits).region;
      p.region.start <= r.start <= r.end <= p.region.end
  {
    LiveFits(own, live, x);
    hide Pow2, LiveOk;
    Pow2Positive(live[x] + bits);
    Pow2Positive(bits);
    RunBytes(x, live[x], bits, |own|);
  }
}
