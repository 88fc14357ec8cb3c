/**
  The free lists of the buddy allocator: doubly linked through the tags of the
  pages that head free blocks, where a link to oneself means there is no link.
*/
module BuddyLists {
  import opened Sequences

  // The fields packed into the two words of a buddy_block_t.
  datatype Tag = Tag(free: bool, next: nat, order: nat, prev: nat)

  /** The tag of the `j`th block of the list `l` of free blocks of order `k`. */
  predicate Node(all: seq<Tag>, l: seq<nat>, j: nat, k: nat)
    requires j < |l|
  {
    && l[j] < |all|
    && all[l[j]] == Tag(true, if j + 1 < |l| then l[j + 1] else l[j], k, if j > 0 then l[j - 1] else l[j])
  }

  predicate List(all: seq<Tag>, first: int, l: seq<nat>, k: nat)
  {
    && first == (if l == [] then -1 else l[0])
    && Distinct(l)
    && forall j :: 0 <= j < |l| ==> Node(all, l, j, k)
  }

  ghost predicate Linked(all: seq<Tag>, free: seq<int>, lists: seq<seq<nat>>)
  {
    |lists| <= |free| && forall k :: 0 <= k < |lists| ==> List(all, free[k], lists[k], k)
  }

  /** A list does not notice changes to pages it does not hold. */
  lemma ListFrame(all: seq<Tag>, after: seq<Tag>, first: int, l: seq<nat>, k: nat)
    requires List(all, first, l, k) && |after| == |all|
    requires forall j :: 0 <= j < |l| && l[j] < |all| ==> after[l[j]] == all[l[j]]
    ensures List(after, first, l, k)
  {
    forall j | 0 <= j < |l| ensures Node(after, l, j, k) {
      assert Node(all, l, j, k);
    }
  }

  /** Lists of different orders share no page. */
  lemma ListsApart(all: seq<Tag>, free: seq<int>, lists: seq<seq<nat>>, k: nat, i: nat, m: nat, j: nat)
    requires Linked(all, free, lists) && k < |lists| && m < |lists| && k != m && i < |lists[k]| && j < |lists[m]|
    ensures lists[k][i] != lists[m][j]
  {
    assert Node(all, lists[k], i, k) && Node(all, lists[m], j, m);
  }

  lemma Pushed(all: seq<Tag>, after: seq<Tag>, first: int, l: seq<nat>, k: nat, x: nat)
    requires List(all, first, l, k) && x < |all| == |after| && x !in l
    requires after[x] == Tag(true, if l == [] then x else l[0], k, x)
    requires forall j :: 0 <= j < |l| && l[j] < |all| ==>
      after[l[j]] == if j == 0 then all[l[j]].(prev := x) else all[l[j]]
    ensures List(after, x, [x] + l, k)
  {
    var r := [x] + l;
    forall j | 0 <= j < |r| ensures Node(after, r, j, k) {
      if j > 0 {
        assert Node(all, l, j - 1, k) && r[j] == l[j - 1];
      }
    }
  }

  function Without(l: seq<nat>, j: nat): (r: seq<nat>)
    requires j < |l|
    ensures |r| == |l| - 1 && forall i :: 0 <= i < |r| ==> r[i] == if i < j then l[i] else l[i + 1]
  {
    l[..j] + l[j + 1..]
  }

  lemma Unlinked(all: seq<Tag>, after: seq<Tag>, first: int, l: seq<nat>, k: nat, j: nat)
    requires List(all, first, l, k) && |after| == |all| && j < |l|
    requires forall i :: 0 <= i < |l| && i != j && l[i] < |all| ==> after[l[i]] == Relinked(all, l, i, j)
    ensures List(after, if j > 0 then first else if |l| > 1 then l[1] else -1, Without(l, j), k)
  {
    var r := Without(l, j);
    forall i | 0 <= i < |r| ensures Node(after, r, i, k) {
      var was := if i < j then i else i + 1;
      assert Node(all, l, was, k) && r[i] == l[was];
    }
  }

  /** The tag of `l[i]` once `l[j]` is taken out. */
  function Relinked(all: seq<Tag>, l: seq<nat>, i: nat, j: nat): Tag
    requires i < |l| && j < |l| && l[i] < |all|
  {
    var t := all[l[i]];
    if i + 1 == j then t.(next := if j + 1 < |l| then l[j + 1] else l[i])
    else if i == j + 1 then t.(prev := if j > 0 then l[j - 1] else l[i])
    else t
  }

  /** The links out of the `j`th block. */
  lemma Around(all: seq<Tag>, free: seq<int>, lists: seq<seq<nat>>, k: nat, j: nat)
    requires Linked(all, free, lists) && k < |lists| && j < |lists[k]|
    ensures var l := lists[k];
      && Distinct(l) && (forall i :: 0 <= i < |l| ==> l[i] < |all|)
      && all[l[j]].next == (if j + 1 < |l| then l[j + 1] else l[j])
      && all[l[j]].prev == (if j > 0 then l[j - 1] else l[j])
  {
    var l := lists[k];
    assert List(all, free[k], l, k) && Node(all, l, j, k);
    forall i | 0 <= i < |l| ensures l[i] < |all| {
      assert Node(all, l, i, k);
    }
  }

  // ---------- all lists at once ----------

  lemma LinkedPush(all: seq<Tag>, after: seq<Tag>, free: seq<int>, lists: seq<seq<nat>>, k: nat, x: nat)
    requires Linked(all, free, lists) && k < |lists| && x < |all| == |after|
    requires forall m :: 0 <= m < |lists| ==> x !in lists[m]
    requires var l := lists[k];
      && after[x] == Tag(true, if l == [] then x else l[0], k, x)
      && forall p :: 0 <= p < |all| && p != x ==>
        after[p] == if l != [] && p == l[0] then all[p].(prev := x) else all[p]
    ensures Linked(after, free[k := x], lists[k := [x] + lists[k]])
  {
    var l := lists[k];
    var ls, fs := lists[k := [x] + l], free[k := x];
    forall m | 0 <= m < |ls| ensures List(after, fs[m], ls[m], m) {
      assert List(all, free[m], lists[m], m);
      if m == k {
        forall j | 0 <= j < |l| && l[j] < |all|
          ensures after[l[j]] == if j == 0 then all[l[j]].(prev := x) else all[l[j]]
        {
          assert l[j] in l;
        }
        Pushed(all, after, free[k], l, k, x);
      } else {
        forall j | 0 <= j < |lists[m]| ensures lists[m][j] != x && (l != [] ==> lists[m][j] != l[0]) {
          assert lists[m][j] in lists[m];
          if l != [] {
            ListsApart(all, free, lists, k, 0, m, j);
          }
        }
        ListFrame(all, after, free[m], lists[m], m);
      }
    }
  }

  lemma LinkedRemove(all: seq<Tag>, after: seq<Tag>, free: seq<int>, lists: seq<seq<nat>>, k: nat, j: nat)
    requires Linked(all, free, lists) && k < |lists| && j < |lists[k]| && |after| == |all|
    requires forall p :: 0 <= p < |all| && p !in lists[k] ==> after[p] == all[p]
    requires forall i :: 0 <= i < |lists[k]| && i != j && lists[k][i] < |all| ==>
      after[lists[k][i]] == Relinked(all, lists[k], i, j)
    ensures var l := lists[k];
      Linked(after, free[k := if j > 0 then free[k] else if |l| > 1 then l[1] else -1], lists[k := Without(l, j)])
  {
    var l := lists[k];
    var ls, fs := lists[k := Without(l, j)], free[k := if j > 0 then free[k] else if |l| > 1 then l[1] else -1];
    forall m | 0 <= m < |ls| ensures List(after, fs[m], ls[m], m) {
      assert List(all, free[m], lists[m], m);
      if m == k {
        Unlinked(all, after, free[k], l, k, j);
      } else {
        forall i | 0 <= i < |lists[m]| ensures lists[m][i] !in l {
          if lists[m][i] in l {
            var c :| 0 <= c < |l| && l[c] == lists[m][i];
            ListsApart(all, free, lists, k, c, m, i);
          }
        }
        ListFrame(all, after, free[m], lists[m], m);
      }
    }
  }
}
