/** Lists of free memory regions, whole megabytes each, as library/mem/src/mreg.c keeps them. */
module MregRegions {

  const MB: int := 0x10_0000

  // The fields `start` and `end` of a memregion_t; `end` is the last byte.
  datatype Region = Region(start: int, end: int)

  function Size(r: Region): int
  {
    r.end - r.start + 1
  }

  predicate In(r: Region, x: int)
  {
    r.start <= x <= r.end
  }

  predicate Meg(r: Region)
  {
    0 <= r.start <= r.end < 0x1_0000_0000 && r.start % MB == 0 && (r.end + 1) % MB == 0
  }

  predicate Apart(a: Region, b: Region)
  {
    a.end < b.start || b.end < a.start
  }

  /** Apart, and not even adjacent. */
  predicate Gap(a: Region, b: Region)
  {
    a.end + 1 < b.start || b.end + 1 < a.start
  }

  predicate Megs(l: seq<Region>)
  {
    && (forall i :: 0 <= i < |l| ==> Meg(l[i]))
    && (forall i, j :: 0 <= i < j < |l| ==> Gap(l[i], l[j]))
  }

  /** The same, but that the region at `at` may be adjacent to others. */
  predicate MegsBut(l: seq<Region>, at: nat)
  {
    && at < |l|
    && (forall i :: 0 <= i < |l| ==> Meg(l[i]))
    && (forall i :: 0 <= i < |l| && i != at ==> Apart(l[at], l[i]))
    && (forall i, j :: 0 <= i < j < |l| && i != at && j != at ==> Gap(l[i], l[j]))
  }

  ghost predicate Covered(l: seq<Region>, x: int)
  {
    exists i :: 0 <= i < |l| && In(l[i], x)
  }

  /** Free regions are not adjacent, so consecutive free bytes lie in one of them. */
  lemma {:induction false} InOneRegion(l: seq<Region>, start: int, n: nat) returns (k: nat)
    requires Megs(l) && n >= 1 && forall x :: start <= x < start + n ==> Covered(l, x)
    ensures k < |l| && l[k].start <= start && start + n - 1 <= l[k].end
    decreases n
  {
    if n == 1 {
      assert Covered(l, start);
      k :| k < |l| && In(l[k], start);
    } else {
      k := InOneRegion(l, start, n - 1);
      assert Covered(l, start + n - 1);
      var j: nat :| j < |l| && In(l[j], start + n - 1);
      assert j == k;
    }
  }

  function Removed(l: seq<Region>, i: nat): (r: seq<Region>)
    requires i < |l|
    ensures |r| == |l| - 1 && forall k :: 0 <= k < |r| ==> r[k] == if k < i then l[k] else l[k + 1]
  {
    l[..i] + l[i + 1..]
  }

  // ---------- taking a region out ----------

  lemma RemovedMegs(l: seq<Region>, i: nat)
    requires Megs(l) && i < |l|
    ensures Megs(Removed(l, i))
    ensures forall k :: 0 <= k < |l| - 1 ==> Gap(Removed(l, i)[k], l[i])
  {
  }

  lemma RemovedCovers(l: seq<Region>, i: nat, x: int)
    requires i < |l|
    ensures Covered(l, x) <==> Covered(Removed(l, i), x) || In(l[i], x)
  {
    var r := Removed(l, i);
    if Covered(l, x) {
      var k :| 0 <= k < |l| && In(l[k], x);
      if k != i {
        assert r[if k < i then k else k - 1] == l[k];
      }
    }
    if Covered(r, x) {
      var k :| 0 <= k < |r| && In(r[k], x);
      assert r[k] == l[if k < i then k else k + 1];
    }
  }

  lemma PushedCovers(l: seq<Region>, m: Region, x: int)
    ensures Covered([m] + l, x) <==> Covered(l, x) || In(m, x)
  {
    var r := [m] + l;
    if Covered(l, x) {
      var k :| 0 <= k < |l| && In(l[k], x);
      assert r[k + 1] == l[k];
    }
    if In(m, x) {
      assert In(r[0], x);
    }
    if Covered(r, x) {
      var k :| 0 <= k < |r| && In(r[k], x);
      assert k > 0 ==> r[k] == l[k - 1];
    }
  }

  // ---------- giving a region back ----------

  lemma PushedMegs(l: seq<Region>, m: Region)
    requires Megs(l) && Meg(m) && forall x :: In(m, x) ==> !Covered(l, x)
    ensures MegsBut([m] + l, 0)
  {
    forall i | 0 <= i < |l| ensures Apart(m, l[i]) {
      if !Apart(m, l[i]) {
        var x := if m.start < l[i].start then l[i].start else m.start;
        assert In(m, x) && In(l[i], x);
      }
    }
  }

  /** What follows `mem` grows into the region that ends just before it. */
  function HeadJoined(l: seq<Region>, at: nat, i: nat): seq<Region>
    requires at < |l| && i < |l| && i != at
  {
    Removed(l[i := Region(l[i].start, l[at].end)], at)
  }

  /** And that region takes in the one that starts just after. */
  function TailJoined(l: seq<Region>, at: nat, j: nat): seq<Region>
    requires at < |l| && j < |l| && j != at
  {
    Removed(l[at := Region(l[at].start, l[j].end)], j)
  }

  lemma FreeGap(l: seq<Region>, at: nat, i: nat, k: nat)
    requires MegsBut(l, at) && i < |l| && k < |l| && i != at && k != at && i != k
    ensures Gap(l[i], l[k])
  {
    if i < k {
      assert Gap(l[i], l[k]);
    } else {
      assert Gap(l[k], l[i]);
    }
  }

  lemma HeadJoinAt(l: seq<Region>, at: nat, i: nat, k: nat)
    requires MegsBut(l, at) && i < |l| && i != at && l[i].end + 1 == l[at].start && k < |l| - 1
    ensures var r, to, was := HeadJoined(l, at, i), if i < at then i else i - 1, if k < at then k else k + 1;
      && |r| == |l| - 1 && was < |l| && was != at
      && (if k == to then was == i && r[k] == Region(l[i].start, l[at].end)
          else was != i && r[k] == l[was] && Gap(l[i], r[k]) && Apart(Region(l[i].start, l[at].end), r[k]))
  {
    var was := if k < at then k else k + 1;
    if was != i {
      assert Apart(l[at], l[was]) && Meg(l[was]) && Meg(l[at]) && Meg(l[i]);
      FreeGap(l, at, i, was);
    }
  }

  lemma HeadJoin(l: seq<Region>, at: nat, i: nat)
    requires MegsBut(l, at) && i < |l| && i != at && l[i].end + 1 == l[at].start
    ensures var r, to := HeadJoined(l, at, i), if i < at then i else i - 1;
      && MegsBut(r, to) && r[to] == Region(l[i].start, l[at].end)
      && forall k :: 0 <= k < |r| && k != to ==> r[k].end + 1 != r[to].start
  {
    var r, to := HeadJoined(l, at, i), if i < at then i else i - 1;
    HeadJoinAt(l, at, i, to);
    hide HeadJoined;
    forall k | 0 <= k < |r| ensures Meg(r[k]) && (k != to ==> Apart(r[to], r[k]) && Gap(l[i], r[k])) {
      HeadJoinAt(l, at, i, k);
    }
    forall j, k | 0 <= j < k < |r| && j != to && k != to ensures Gap(r[j], r[k]) {
      HeadJoinAt(l, at, i, j);
      HeadJoinAt(l, at, i, k);
      FreeGap(l, at, if j < at then j else j + 1, if k < at then k else k + 1);
    }
  }

  lemma MegJoined(a: Region, b: Region)
    requires Meg(a) && Meg(b) && a.end + 1 == b.start
    ensures Meg(Region(a.start, b.end)) && a.start <= a.end && b.start <= b.end
  {
  }

  lemma TailJoin(l: seq<Region>, at: nat, j: nat)
    requires MegsBut(l, at) && j < |l| && j != at && l[at].end + 1 == l[j].start
    requires forall k :: 0 <= k < |l| && k != at ==> l[k].end + 1 != l[at].start
    ensures Megs(TailJoined(l, at, j))
  {
    MegJoined(l[at], l[j]);
    hide Meg;
    var r := TailJoined(l, at, j);
    var u := l[at := Region(l[at].start, l[j].end)];
    forall k | 0 <= k < |l| && k != at && k != j ensures Gap(u[at], l[k]) {
      assert Gap(l[j], l[k]) && Apart(l[at], l[k]);
    }
    forall i, k | 0 <= i < k < |r| ensures Gap(r[i], r[k]) {
      assert r[i] == u[if i < j then i else i + 1] && r[k] == u[if k < j then k else k + 1];
    }
  }

  lemma NoJoin(l: seq<Region>, at: nat)
    requires MegsBut(l, at)
    requires forall k :: 0 <= k < |l| && k != at ==> l[k].end + 1 != l[at].start && l[k].start != l[at].end + 1
    ensures Megs(l)
  {
  }

  lemma JoinedCovers(l: seq<Region>, a: nat, b: nat, m: Region, x: int)
    requires a < |l| && b < |l| && a != b && forall y :: In(m, y) <==> In(l[a], y) || In(l[b], y)
    ensures Covered(Removed(l[a := m], b), x) <==> Covered(l, x)
  {
    RemovedCovers(l, b, x);
    var u := l[a := m];
    var r := Removed(u, b);
    if Covered(l, x) {
      var k :| 0 <= k < |l| && In(l[k], x);
      var to := if k == b then a else k;
      assert In(u[to], x);
      assert r[if to < b then to else to - 1] == u[to];
    }
    if Covered(r, x) {
      var k :| 0 <= k < |r| && In(r[k], x);
      var was := if k < b then k else k + 1;
      assert r[k] == u[was];
      assert In(l[was], x) || (was == a && In(l[b], x));
    }
  }
}
