/**
  The boundary-tag heap of library/mem/src/heap.c as a sequence of cells: how
  cells lie in memory, and what splitting, joining and freeing do to them.
  Sizes here are in markers of eight bytes.
*/
module HeapLayout {

  // heap_marker_t: the flags of `size` as fields, both sizes in bytes.
  datatype Marker = Marker(size: nat, taken: bool, last: bool, sizePrev: nat)

  datatype Cell = Cell(units: nat, taken: bool)

  type Layout = seq<Cell>

  /** Where the marker of the `j`th cell lies. */
  function Start(l: Layout, j: nat): nat
    requires j <= |l|
  {
    if j == 0 then 0 else Start(l, j - 1) + 1 + l[j - 1].units
  }

  function MarkerOf(l: Layout, j: nat): Marker
    requires j < |l|
  {
    Marker(8 * l[j].units, l[j].taken, j == |l| - 1, if j == 0 then 0 else 8 * l[j - 1].units)
  }

  /** One chain of markers, from the base to the end of the memory. */
  ghost predicate Laid(mem: seq<Marker>, l: Layout)
  {
    && |l| >= 1 && Start(l, |l|) == |mem|
    && forall j :: 0 <= j < |l| ==> Start(l, j) < |mem| && mem[Start(l, j)] == MarkerOf(l, j)
  }

  ghost predicate NoFreeNeighbours(l: Layout)
  {
    forall j :: 0 < j < |l| ==> l[j - 1].taken || l[j].taken
  }

  predicate LiveCell(l: Layout, j: nat, s: nat, u: nat)
  {
    j < |l| && Start(l, j) == s && l[j] == Cell(u, true)
  }

  /** A live block of `u` units whose marker is at `s`. */
  ghost predicate LiveAt(l: Layout, s: nat, u: nat)
  {
    exists j: nat :: LiveCell(l, j, s, u)
  }

  // ---------- positions ----------

  lemma {:induction false} StartsGrow(l: Layout, i: nat, j: nat)
    requires i < j <= |l|
    ensures Start(l, i) + 1 + l[i].units <= Start(l, j)
    decreases j
  {
    if i + 1 == j {
    } else {
      StartsGrow(l, i, j - 1);
    }
  }

  lemma SameStart(l: Layout, i: nat, j: nat)
    requires i <= |l| && j <= |l| && Start(l, i) == Start(l, j)
    ensures i == j
  {
    if i < j {
      StartsGrow(l, i, j);
    } else if j < i {
      StartsGrow(l, j, i);
    }
  }

  lemma {:induction false} SamePrefix(l: Layout, m: Layout, j: nat)
    requires j <= |l| && j <= |m| && l[..j] == m[..j]
    ensures Start(l, j) == Start(m, j)
  {
    if j == 0 {
    } else {
      assert l[..j - 1] == l[..j][..j - 1] && m[..j - 1] == m[..j][..j - 1];
      assert l[j - 1] == l[..j][j - 1] && m[j - 1] == m[..j][j - 1];
      SamePrefix(l, m, j - 1);
    }
  }

  /** Cells after a place where both layouts have reached the same position keep their positions. */
  lemma {:induction false} SameSuffix(l: Layout, m: Layout, i: nat, d: int, j: nat)
    requires i <= j <= |l| && 0 <= i + d && |m| == |l| + d && Start(l, i) == Start(m, i + d)
    requires forall k :: i <= k < |l| ==> l[k] == m[k + d]
    ensures Start(l, j) == Start(m, j + d)
    decreases j
  {
    if i == j {
    } else {
      SameSuffix(l, m, i, d, j - 1);
    }
  }

  // ---------- the steps ----------

  /** heap_marker_join of a cell and the one after it. */
  function Joined(l: Layout, i: nat): Layout
    requires i + 1 < |l|
  {
    l[..i] + [Cell(l[i].units + 1 + l[i + 1].units, false)] + l[i + 2..]
  }

  /** Cell `b` cut in two after `n` units, with a marker between. */
  function Cut(l: Layout, b: nat, n: nat): Layout
    requires b < |l| && n < l[b].units
  {
    l[..b] + [Cell(n, l[b].taken), Cell(l[b].units - n - 1, l[b].taken)] + l[b + 1..]
  }

  /** Cell `b` becomes live for `n` units; what is left becomes a free cell if it can hold a marker and more. */
  function Taken(l: Layout, b: nat, n: nat): Layout
    requires b < |l| && n <= l[b].units
  {
    if l[b].units - n > 1 then Cut(l, b, n)[b := Cell(n, true)]
    else l[b := Cell(l[b].units, true)]
  }

  /** Cell `b` is freed and joined with its free neighbours, the one before first. */
  function Freed(l: Layout, b: nat): Layout
    requires b < |l|
  {
    var f := l[b := Cell(l[b].units, false)];
    if b > 0 && !l[b - 1].taken then
      var g := Joined(f, b - 1);
      if b + 1 < |l| && !l[b + 1].taken then Joined(g, b - 1) else g
    else if b + 1 < |l| && !l[b + 1].taken then Joined(f, b) else f
  }

  /** What joining does to positions: the start of the second cell goes, the others stay. */
  lemma JoinedStarts(l: Layout, i: nat, j: nat)
    requires i + 1 < |l| && j < |l|
    ensures var m := Joined(l, i);
      && |m| == |l| - 1
      && (j <= i ==> Start(m, j) == Start(l, j) && (j < i ==> m[j] == l[j]))
      && (j > i ==> Start(m, j) == Start(l, j + 1) && (j < |m| ==> m[j] == l[j + 1]))
  {
    var m := Joined(l, i);
    if j <= i {
      assert l[..j] == m[..j];
      SamePrefix(l, m, j);
    } else {
      assert l[..i] == m[..i];
      SamePrefix(l, m, i);
      SameSuffix(l, m, i + 2, -1, j + 1);
    }
  }

  lemma CutStarts(l: Layout, b: nat, n: nat, j: nat)
    requires b < |l| && n < l[b].units && j <= |l|
    ensures var m := Cut(l, b, n);
      && |m| == |l| + 1
      && (j <= b ==> Start(m, j) == Start(l, j) && (j < b ==> m[j] == l[j]))
      && (j > b ==> Start(m, j + 1) == Start(l, j) && (j < |l| ==> m[j + 1] == l[j]))
      && m[b] == Cell(n, l[b].taken) && m[b + 1] == Cell(l[b].units - n - 1, l[b].taken)
      && Start(m, b + 1) == Start(l, b) + 1 + n
  {
    var m := Cut(l, b, n);
    assert l[..b] == m[..b];
    SamePrefix(l, m, b);
    if j <= b {
      assert l[..j] == m[..j];
      SamePrefix(l, m, j);
    } else {
      assert Start(m, b + 2) == Start(m, b + 1) + 1 + m[b + 1].units;
      SameSuffix(l, m, b + 1, 1, j);
    }
  }

  lemma UpdateStarts(l: Layout, b: nat, taken: bool, j: nat)
    requires b < |l| && j <= |l|
    ensures Start(l[b := Cell(l[b].units, taken)], j) == Start(l, j)
    decreases j
  {
    if j > 0 {
      UpdateStarts(l, b, taken, j - 1);
    }
  }

  lemma TakenStarts(l: Layout, b: nat, n: nat, j: nat)
    requires b < |l| && n <= l[b].units && l[b].units - n > 1 && j <= |l| && !l[b].taken
    ensures var m := Taken(l, b, n);
      && |m| == |l| + 1
      && (j <= b ==> Start(m, j) == Start(l, j) && (j < b ==> m[j] == l[j]))
      && (j > b ==> Start(m, j + 1) == Start(l, j) && (j < |l| ==> m[j + 1] == l[j]))
      && m[b] == Cell(n, true) && m[b + 1] == Cell(l[b].units - n - 1, false) && Start(m, b + 1) == Start(l, b) + 1 + n
  {
    var c := Cut(l, b, n);
    CutStarts(l, b, n, j);
    UpdateStarts(c, b, true, j);
    UpdateStarts(c, b, true, b + 1);
    UpdateStarts(c, b, true, if j > b then j + 1 else j);
  }

  // ---------- neighbours ----------

  lemma TakenNeighbours(l: Layout, b: nat, n: nat)
    requires b < |l| && n <= l[b].units && !l[b].taken && NoFreeNeighbours(l)
    ensures NoFreeNeighbours(Taken(l, b, n))
  {
    var m := Taken(l, b, n);
    forall j | 0 < j < |m| ensures m[j - 1].taken || m[j].taken {
      if l[b].units - n > 1 && j == b + 2 {
        assert l[b].taken || l[b + 1].taken;
      }
    }
  }

  /** Freeing turns the cells from `lo` to `hi` into one free cell. */
  lemma FreedCell(l: Layout, b: nat, lo: nat, hi: nat, j: nat)
    requires b < |l| && j < |Freed(l, b)|
    requires lo == (if b > 0 && !l[b - 1].taken then b - 1 else b)
    requires hi == (if b + 1 < |l| && !l[b + 1].taken then b + 1 else b)
    ensures |Freed(l, b)| == |l| - (hi - lo)
    ensures if j < lo then Freed(l, b)[j] == l[j]
            else if j == lo then !Freed(l, b)[j].taken
            else j + (hi - lo) < |l| && Freed(l, b)[j] == l[j + (hi - lo)]
  {
    var f := l[b := Cell(l[b].units, false)];
    if lo < b {
      var g := Joined(f, lo);
      JoinedCells(f, lo);
      if b < hi {
        JoinedCells(g, lo);
      }
    } else if b < hi {
      JoinedCells(f, lo);
    }
    hide Joined;
  }

  lemma JoinedCells(l: Layout, i: nat)
    requires i + 1 < |l|
    ensures var m := Joined(l, i);
      && |m| == |l| - 1 && !m[i].taken
      && forall j :: 0 <= j < |m| && j != i ==> m[j] == if j < i then l[j] else l[j + 1]
  {
  }

  lemma FreedNeighbours(l: Layout, b: nat)
    requires b < |l| && NoFreeNeighbours(l)
    ensures NoFreeNeighbours(Freed(l, b))
  {
    var m := Freed(l, b);
    var lo := if b > 0 && !l[b - 1].taken then b - 1 else b;
    var hi := if b + 1 < |l| && !l[b + 1].taken then b + 1 else b;
    assert lo > 0 ==> l[lo - 1].taken;
    assert hi + 1 < |l| ==> l[hi + 1].taken;
    hide Freed;
    forall j | 0 < j < |m| ensures m[j - 1].taken || m[j].taken {
      FreedCell(l, b, lo, hi, j - 1);
      FreedCell(l, b, lo, hi, j);
    }
  }

  // ---------- live blocks ----------

  /** Allocating adds exactly one live block, at the start of the free cell. */
  lemma TakenLive(l: Layout, b: nat, n: nat, s: nat, u: nat)
    requires b < |l| && n <= l[b].units && !l[b].taken
    ensures LiveAt(Taken(l, b, n), s, u) <==>
      LiveAt(l, s, u) || (s == Start(l, b) && u == if l[b].units - n > 1 then n else l[b].units)
  {
    if l[b].units - n > 1 {
      CutLive(l, b, n, s, u);
      CutStarts(l, b, n, b);
      WholeLive(Cut(l, b, n), b, n, s, u);
    } else {
      WholeLive(l, b, n, s, u);
    }
  }

  lemma CutKeeps(l: Layout, b: nat, n: nat, j: nat, s: nat, u: nat)
    requires b < |l| && n < l[b].units && !l[b].taken
    ensures LiveCell(l, j, s, u) ==> LiveCell(Cut(l, b, n), if j < b then j else j + 1, s, u)
    ensures LiveCell(Cut(l, b, n), j, s, u) && j > 0 ==> LiveCell(l, if j < b then j else j - 1, s, u)
    ensures LiveCell(Cut(l, b, n), 0, s, u) ==> LiveCell(l, 0, s, u)
  {
    var m := Cut(l, b, n);
    CutStarts(l, b, n, b);
    if j <= |l| {
      CutStarts(l, b, n, j);
    }
    if 0 < j <= |l| {
      CutStarts(l, b, n, j - 1);
    }
    CutStarts(l, b, n, 0);
    hide Start, Cut;
  }

  lemma CutLive(l: Layout, b: nat, n: nat, s: nat, u: nat)
    requires b < |l| && n < l[b].units && !l[b].taken
    ensures LiveAt(Cut(l, b, n), s, u) <==> LiveAt(l, s, u)
  {
    hide LiveCell, Cut;
    if LiveAt(Cut(l, b, n), s, u) {
      var i: nat :| LiveCell(Cut(l, b, n), i, s, u);
      CutKeeps(l, b, n, i, s, u);
    }
    if LiveAt(l, s, u) {
      var i: nat :| LiveCell(l, i, s, u);
      CutKeeps(l, b, n, i, s, u);
    }
  }

  lemma FlagKeeps(l: Layout, b: nat, taken: bool, j: nat, s: nat, u: nat)
    requires b < |l| && j != b
    ensures LiveCell(l[b := Cell(l[b].units, taken)], j, s, u) <==> LiveCell(l, j, s, u)
  {
    if j < |l| {
      UpdateStarts(l, b, taken, j);
    }
  }

  lemma WholeLive(l: Layout, b: nat, n: nat, s: nat, u: nat)
    requires b < |l| && n <= l[b].units && !l[b].taken && l[b].units - n <= 1
    ensures LiveAt(Taken(l, b, n), s, u) <==> LiveAt(l, s, u) || (s == Start(l, b) && u == l[b].units)
  {
    var m := Taken(l, b, n);
    UpdateStarts(l, b, true, b);
    assert LiveCell(m, b, s, u) <==> s == Start(l, b) && u == l[b].units;
    assert !LiveCell(l, b, s, u);
    hide LiveCell, Start;
    if LiveAt(m, s, u) {
      var i: nat :| LiveCell(m, i, s, u);
      if i != b {
        FlagKeeps(l, b, true, i, s, u);
      }
    }
    if LiveAt(l, s, u) {
      var i: nat :| LiveCell(l, i, s, u);
      FlagKeeps(l, b, true, i, s, u);
    }
  }

  lemma JoinedKeeps(l: Layout, i: nat, j: nat, s: nat, u: nat)
    requires i + 1 < |l| && !l[i].taken && !l[i + 1].taken
    ensures LiveCell(Joined(l, i), j, s, u) ==> LiveCell(l, if j < i then j else j + 1, s, u)
    ensures LiveCell(l, j, s, u) && j > 0 ==> LiveCell(Joined(l, i), if j < i then j else j - 1, s, u)
    ensures LiveCell(l, 0, s, u) ==> LiveCell(Joined(l, i), 0, s, u)
  {
    JoinedMarkers(l, i, 0);
    if j < |l| {
      JoinedStarts(l, i, j);
    }
    if 0 < j <= |l| {
      JoinedStarts(l, i, j - 1);
    }
    JoinedStarts(l, i, 0);
    JoinedStarts(l, i, i);
    assert !Joined(l, i)[i].taken;
    hide Start, Joined;
  }

  lemma JoinedLive(l: Layout, i: nat, s: nat, u: nat)
    requires i + 1 < |l| && !l[i].taken && !l[i + 1].taken
    ensures LiveAt(Joined(l, i), s, u) <==> LiveAt(l, s, u)
  {
    hide LiveCell, Joined;
    if LiveAt(Joined(l, i), s, u) {
      var j: nat :| LiveCell(Joined(l, i), j, s, u);
      JoinedKeeps(l, i, j, s, u);
    }
    if LiveAt(l, s, u) {
      var j: nat :| LiveCell(l, j, s, u);
      JoinedKeeps(l, i, j, s, u);
    }
  }

  /** The flag of a live cell goes, and with it that one block. */
  lemma UnflaggedLive(l: Layout, b: nat, s: nat, u: nat)
    requires b < |l| && l[b].taken
    ensures LiveAt(l[b := Cell(l[b].units, false)], s, u) <==> LiveAt(l, s, u) && s != Start(l, b)
  {
    var f := l[b := Cell(l[b].units, false)];
    assert !LiveCell(f, b, s, u);
    if LiveAt(f, s, u) {
      var i: nat :| LiveCell(f, i, s, u);
      FlagKeeps(l, b, false, i, s, u);
      if s == Start(l, b) {
        SameStart(l, i, b);
      }
    }
    if LiveAt(l, s, u) && s != Start(l, b) {
      var i: nat :| LiveCell(l, i, s, u);
      FlagKeeps(l, b, false, i, s, u);
    }
  }

  /** Freeing takes exactly one live block away. */
  lemma FreedLive(l: Layout, b: nat, s: nat, u: nat)
    requires b < |l| && l[b].taken
    ensures LiveAt(Freed(l, b), s, u) <==> LiveAt(l, s, u) && s != Start(l, b)
  {
    var f := l[b := Cell(l[b].units, false)];
    UnflaggedLive(l, b, s, u);
    hide LiveAt, Start;
    if b > 0 && !l[b - 1].taken {
      JoinedLive(f, b - 1, s, u);
      if b + 1 < |l| && !l[b + 1].taken {
        JoinedLive(Joined(f, b - 1), b - 1, s, u);
      }
    } else if b + 1 < |l| && !l[b + 1].taken {
      JoinedLive(f, b, s, u);
    }
  }

  /** Live payloads do not overlap. */
  lemma PayloadsApart(l: Layout, s: nat, u: nat, t: nat, v: nat)
    requires LiveAt(l, s, u) && LiveAt(l, t, v) && s != t
    ensures s + 1 + u <= t || t + 1 + v <= s
  {
    var i: nat :| LiveCell(l, i, s, u);
    var j: nat :| LiveCell(l, j, t, v);
    if i < j {
      StartsGrow(l, i, j);
    } else {
      StartsGrow(l, j, i);
    }
  }

  // ---------- runs ----------

  /** What a call that succeeds does: cell `b` is allocated for `n` units, or freed. */
  datatype Call = Allocate(b: nat, n: nat) | Release(b: nat)

  predicate Possible(l: Layout, c: Call)
  {
    c.b < |l| && match c case Allocate(b, n) => !l[b].taken && n <= l[b].units case Release(b) => l[b].taken
  }

  function Apply(l: Layout, c: Call): Layout
    requires Possible(l, c)
  {
    match c case Allocate(b, n) => Taken(l, b, n) case Release(b) => Freed(l, b)
  }

  predicate PossibleRun(l: Layout, calls: seq<Call>)
    decreases |calls|
  {
    calls == [] || (Possible(l, calls[0]) && PossibleRun(Apply(l, calls[0]), calls[1..]))
  }

  function Run(l: Layout, calls: seq<Call>): Layout
    requires PossibleRun(l, calls)
    decreases |calls|
  {
    if calls == [] then l else Run(Apply(l, calls[0]), calls[1..])
  }

  lemma ApplyTotal(l: Layout, c: Call)
    requires Possible(l, c)
    ensures var m := Apply(l, c);
      |m| >= 1 && Start(m, |m|) == Start(l, |l|)
  {
    match c
    case Allocate(b, n) =>
      if l[b].units - n > 1 {
        TakenStarts(l, b, n, |l|);
      } else {
        UpdateStarts(l, b, true, |l|);
      }
    case Release(b) =>
      var f := l[b := Cell(l[b].units, false)];
      UpdateStarts(l, b, false, |l|);
      if b > 0 && !l[b - 1].taken {
        LastStart(f, b - 1);
        if b + 1 < |l| && !l[b + 1].taken {
          LastStart(Joined(f, b - 1), b - 1);
        }
      } else if b + 1 < |l| && !l[b + 1].taken {
        LastStart(f, b);
      }
  }

  lemma ApplyNeighbours(l: Layout, c: Call)
    requires Possible(l, c) && NoFreeNeighbours(l)
    ensures NoFreeNeighbours(Apply(l, c))
  {
    match c
    case Allocate(b, n) => TakenNeighbours(l, b, n);
    case Release(b) => FreedNeighbours(l, b);
  }

  /**
    Any run: the cells cover the same memory, no two neighbours are both free,
    and once nothing is live there is one free cell again.
  */
  lemma {:induction false} AnyRun(l: Layout, calls: seq<Call>)
    requires NoFreeNeighbours(l) && |l| >= 1 && PossibleRun(l, calls)
    ensures var m := Run(l, calls);
      && |m| >= 1 && NoFreeNeighbours(m) && Start(m, |m|) == Start(l, |l|)
      && ((forall s, u :: !LiveAt(m, s, u)) ==> m == [Cell(Start(l, |l|) - 1, false)])
    decreases |calls|
  {
    if calls == [] {
      if forall s, u :: !LiveAt(l, s, u) {
        AllFreed(l);
      }
    } else {
      hide Start, Apply, LiveAt, NoFreeNeighbours;
      ApplyTotal(l, calls[0]);
      ApplyNeighbours(l, calls[0]);
      AnyRun(Apply(l, calls[0]), calls[1..]);
    }
  }

  lemma AllFreed(l: Layout)
    requires |l| >= 1 && NoFreeNeighbours(l) && forall s, u :: !LiveAt(l, s, u)
    ensures l == [Cell(Start(l, |l|) - 1, false)]
  {
    forall j | 0 <= j < |l| ensures !l[j].taken {
      if l[j].taken {
        assert LiveCell(l, j, Start(l, j), l[j].units);
        assert LiveAt(l, Start(l, j), l[j].units);
      }
    }
    assert Start(l, 1) == Start(l, 0) + 1 + l[0].units;
  }

  // ---------- what the markers say ----------

  lemma MarkerAt(mem: seq<Marker>, l: Layout, j: nat)
    requires Laid(mem, l) && j < |l|
    ensures Start(l, j) < |mem| && mem[Start(l, j)] == MarkerOf(l, j)
    ensures j + 1 < |l| ==> Start(l, j + 1) == Start(l, j) + 1 + l[j].units < |mem|
    ensures j > 0 ==> Start(l, j) == Start(l, j - 1) + 1 + l[j - 1].units
  {
  }

  /** The marker of cell `i` says free or live, and nothing else changed. */
  lemma LaidFlag(mem: seq<Marker>, after: seq<Marker>, l: Layout, i: nat, taken: bool)
    requires Laid(mem, l) && i < |l| && |after| == |mem|
    requires forall p :: 0 <= p < |mem| ==> after[p] == if p == Start(l, i) then mem[p].(taken := taken) else mem[p]
    ensures Laid(after, l[i := Cell(l[i].units, taken)])
  {
    hide Start;
    var m := l[i := Cell(l[i].units, taken)];
    forall j | 0 <= j <= |m| ensures Start(m, j) == Start(l, j) {
      UpdateStarts(l, i, taken, j);
    }
    forall j | 0 <= j < |m| ensures Start(m, j) < |mem| && after[Start(m, j)] == MarkerOf(m, j) {
      MarkerAt(mem, l, j);
      if j != i && Start(l, j) == Start(l, i) {
        SameStart(l, i, j);
      }
    }
  }

  lemma JoinedMarkers(l: Layout, i: nat, j: nat)
    requires i + 1 < |l| && j + 1 < |l|
    ensures |Joined(l, i)| == |l| - 1
    ensures var size := 8 * (l[i].units + 1 + l[i + 1].units);
      MarkerOf(Joined(l, i), j) ==
      if j < i then MarkerOf(l, j)
      else if j == i then Marker(size, false, i + 2 == |l|, MarkerOf(l, i).sizePrev)
      else if j == i + 1 then MarkerOf(l, j + 1).(sizePrev := size)
      else MarkerOf(l, j + 1)
  {
  }

  lemma LaidJoined(mem: seq<Marker>, after: seq<Marker>, l: Layout, i: nat)
    requires Laid(mem, l) && i + 1 < |l| && !l[i].taken && |after| == |mem|
    requires Start(l, i) < |mem| && after[Start(l, i)] ==
      Marker(8 * (l[i].units + 1 + l[i + 1].units), false, i + 2 == |l|, mem[Start(l, i)].sizePrev)
    requires i + 2 < |l| ==>
      var p := Start(l, i + 2);
      p < |mem| && after[p] == mem[p].(sizePrev := 8 * (l[i].units + 1 + l[i + 1].units))
    requires forall p :: 0 <= p < |mem| && p != Start(l, i) && p != Start(l, i + 1) && p != Start(l, i + 2) ==>
      after[p] == mem[p]
    ensures Laid(after, Joined(l, i))
  {
    hide Start, Joined, MarkerOf;
    var m := Joined(l, i);
    JoinedMarkers(l, i, 0);
    Distances(l, i);
    LastStart(l, i);
    MarkerAt(mem, l, i);
    forall j | 0 <= j < |m| ensures Start(m, j) < |mem| && after[Start(m, j)] == MarkerOf(m, j) {
      var k := if j <= i then j else j + 1;
      JoinedStarts(l, i, j);
      JoinedMarkers(l, i, j);
      MarkerAt(mem, l, k);
      assert k != i && k != i + 2 ==> Clear(l, i, k);
    }
  }

  lemma LastStart(l: Layout, i: nat)
    requires i + 1 < |l|
    ensures |Joined(l, i)| == |l| - 1 && Start(Joined(l, i), |l| - 1) == Start(l, |l|)
  {
    JoinedStarts(l, i, |l| - 1);
  }

  /** The cells up to `b`, once that is cut. */
  lemma CutBefore(l: Layout, b: nat, n: nat, j: nat)
    requires b < |l| && n < l[b].units && j <= b
    ensures MarkerOf(Cut(l, b, n), j) ==
      if j < b then MarkerOf(l, j) else Marker(8 * n, l[b].taken, false, MarkerOf(l, b).sizePrev)
  {
  }

  /** The cells from the new one on. */
  lemma CutAfter(l: Layout, b: nat, n: nat, j: nat)
    requires b < |l| && n < l[b].units && b <= j < |l|
    ensures MarkerOf(Cut(l, b, n), j + 1) ==
      if j == b then Marker(8 * (l[b].units - n - 1), l[b].taken, b + 1 == |l|, 8 * n)
      else if j == b + 1 then MarkerOf(l, j).(sizePrev := 8 * (l[b].units - n - 1))
      else MarkerOf(l, j)
  {
  }

  lemma LaidCut(mem: seq<Marker>, after: seq<Marker>, l: Layout, b: nat, n: nat)
    requires Laid(mem, l) && b < |l| && n < l[b].units && |after| == |mem|
    requires Start(l, b) + 1 + n < |mem|
    requires after[Start(l, b)] == Marker(8 * n, l[b].taken, false, mem[Start(l, b)].sizePrev)
    requires after[Start(l, b) + 1 + n] == Marker(8 * (l[b].units - n - 1), l[b].taken, b + 1 == |l|, 8 * n)
    requires b + 1 < |l| ==>
      var p := Start(l, b + 1);
      p < |mem| && after[p] == mem[p].(sizePrev := 8 * (l[b].units - n - 1))
    requires forall p :: 0 <= p < |mem| && p != Start(l, b) && p != Start(l, b) + 1 + n && p != Start(l, b + 1) ==>
      after[p] == mem[p]
    ensures Laid(after, Cut(l, b, n))
  {
    hide Start, Cut, MarkerOf;
    var m := Cut(l, b, n);
    CutDistances(mem, l, b, n);
    CutStarts(l, b, n, |l|);
    CutStarts(l, b, n, b);
    MarkerAt(mem, l, b);
    forall j | 0 <= j < |m| ensures Start(m, j) < |mem| && after[Start(m, j)] == MarkerOf(m, j) {
      if j <= b {
        CutStarts(l, b, n, j);
        CutBefore(l, b, n, j);
        MarkerAt(mem, l, j);
        assert j < b ==> Clear(l, b, j);
      } else {
        CutStarts(l, b, n, j - 1);
        CutAfter(l, b, n, j - 1);
        MarkerAt(mem, l, j - 1);
        assert j - 1 > b + 1 ==> Clear(l, b, j - 1);
      }
    }
  }

  // ---------- steps for the methods ----------

  lemma FirstCell(mem: seq<Marker>, l: Layout)
    requires Laid(mem, l)
    ensures |l| >= 1 && Start(l, 0) == 0
  {
  }

  /** The three markers that joining cell `i` with the next touches are apart, and apart from all others. */
  lemma Distances(l: Layout, i: nat)
    requires i + 1 < |l|
    ensures Start(l, i) + 1 + l[i].units == Start(l, i + 1)
    ensures Start(l, i + 1) + 1 + l[i + 1].units == Start(l, i + 2)
    ensures forall j :: 0 <= j < |l| && j != i && j != i + 1 && j != i + 2 ==>
      Clear(l, i, j) && Start(l, j) != Start(l, i + 2)
  {
    forall j | 0 <= j < |l| && j != i && j != i + 1 && j != i + 2
      ensures Clear(l, i, j) && Start(l, j) != Start(l, i + 2)
    {
      if j < i {
        StartsGrow(l, j, i);
        StartsGrow(l, j, i + 1);
        StartsGrow(l, j, i + 2);
      } else {
        StartsGrow(l, i + 2, j);
      }
    }
  }

  predicate Clear(l: Layout, i: nat, j: nat)
    requires i + 1 <= |l| && j <= |l|
  {
    Start(l, j) != Start(l, i) && Start(l, j) != Start(l, i + 1)
  }

  lemma CutStep(mem: seq<Marker>, l: Layout, b: nat, n: nat)
    requires Laid(mem, l) && b < |l| && n < l[b].units
    ensures Start(l, b) + 1 + l[b].units == Start(l, b + 1) && Start(l, b) + 1 + n < |mem|
  {
    CutDistances(mem, l, b, n);
  }

  lemma JoinStep(l: Layout, i: nat)
    requires i + 1 < |l|
    ensures Start(l, i) + 1 + l[i].units == Start(l, i + 1)
    ensures Start(l, i + 1) + 1 + l[i + 1].units == Start(l, i + 2)
  {
  }

  lemma CutDistances(mem: seq<Marker>, l: Layout, b: nat, n: nat)
    requires Laid(mem, l) && b < |l| && n < l[b].units
    ensures Start(l, b) + 1 + l[b].units == Start(l, b + 1) && Start(l, b) + 1 + n < |mem|
    ensures forall j :: 0 <= j <= |l| ==> Start(l, j) != Start(l, b) + 1 + n
    ensures forall j :: 0 <= j < |l| && j != b && j != b + 1 ==> Clear(l, b, j)
  {
    forall j | 0 <= j <= |l| ensures Start(l, j) != Start(l, b) + 1 + n {
      if j <= b {
        if j < b {
          StartsGrow(l, j, b);
        }
      } else if j > b + 1 {
        StartsGrow(l, b + 1, j);
      }
    }
    forall j | 0 <= j < |l| && j != b && j != b + 1 ensures Clear(l, b, j) {
      if j < b {
        StartsGrow(l, j, b);
        StartsGrow(l, j, b + 1);
      } else {
        StartsGrow(l, b + 1, j);
      }
    }
    if b + 1 < |l| {
      StartsGrow(l, b + 1, |l|);
    }
  }

  lemma TakenIs(l: Layout, m: Layout, b: nat, n: nat, at: nat)
    requires b < |l| && n <= l[b].units && at == Start(l, b) && m == if l[b].units - n > 1 then Cut(l, b, n) else l
    ensures b < |m| && Taken(l, b, n) == m[b := Cell(m[b].units, true)] && Start(m, b) == at
  {
    if l[b].units - n > 1 {
      CutStarts(l, b, n, b);
    }
  }

  lemma FlagKeepsStarts(l: Layout, b: nat, taken: bool)
    requires b < |l|
    ensures forall j :: 0 <= j <= |l| ==> Start(l[b := Cell(l[b].units, taken)], j) == Start(l, j)
  {
    forall j | 0 <= j <= |l| ensures Start(l[b := Cell(l[b].units, taken)], j) == Start(l, j) {
      UpdateStarts(l, b, taken, j);
    }
  }

  lemma JoinKeepsStarts(l: Layout, i: nat)
    requires i + 1 < |l|
    ensures var m := Joined(l, i);
      && |m| == |l| - 1 && Start(m, i) == Start(l, i) && m[i] == Cell(l[i].units + 1 + l[i + 1].units, false)
      && (i + 2 < |l| ==> Start(m, i + 1) == Start(l, i + 2) && m[i + 1] == l[i + 2])
  {
    JoinedStarts(l, i, i);
    JoinedStarts(l, i, i + 1);
  }

  /** What is written inside a payload is no marker. */
  lemma LaidStored(mem: seq<Marker>, after: seq<Marker>, l: Layout, b: nat, at: nat)
    requires Laid(mem, l) && b < |l| && Start(l, b) < at <= Start(l, b) + l[b].units && |after| == |mem|
    requires forall p :: 0 <= p < |mem| && p != at ==> after[p] == mem[p]
    ensures Laid(after, l)
  {
    hide Start;
    forall j | 0 <= j < |l| ensures Start(l, j) < |mem| && after[Start(l, j)] == MarkerOf(l, j) {
      MarkerAt(mem, l, j);
      if j < b {
        StartsGrow(l, j, b);
      } else if b < j {
        StartsGrow(l, b, j);
      }
    }
  }
}
