/** The heap allocator of library/mem/src/heap.c, over its memory as an array of markers. */
module Heap {
  import opened HeapLayout

  /** Bytes asked for, rounded up to a multiple of eight. */
  function Rounded(size: nat): (r: nat)
    ensures r % 8 == 0 && size <= r < size + 8
  {
    (size + 7) / 8 * 8
  }

  /** Cell `j` is free and holds `need` bytes. */
  predicate Fits(l: Layout, j: nat, need: nat)
    requires j < |l|
  {
    !l[j].taken && 8 * l[j].units >= need
  }

  /** The smallest cell that fits, the first of them. */
  ghost predicate BestFit(l: Layout, b: nat, need: nat)
  {
    && b < |l| && Fits(l, b, need)
    && forall k :: 0 <= k < |l| && Fits(l, k, need) ==> l[b].units <= l[k].units && (k < b ==> l[b].units < l[k].units)
  }

  /** The block taken is live, and holds what was asked for. */
  lemma HoldsEnough(l: Layout, b: nat, need: nat, after: Layout)
    requires b < |l| && Fits(l, b, need) && need % 8 == 0 && after == Taken(l, b, need / 8)
    ensures exists u: nat :: LiveAt(after, Start(l, b), u) && need <= 8 * u
  {
    hide LiveAt, Start, Taken;
    var u: nat := if l[b].units - need / 8 > 1 then need / 8 else l[b].units;
    TakenLive(l, b, need / 8, Start(l, b), u);
    assert LiveAt(after, Start(l, b), u) && need <= 8 * u;
  }

  class Area {
    var mem: array<Marker>
    ghost var layout: Layout

    ghost predicate Valid()
      reads this, mem
    {
      Laid(mem[..], layout) && NoFreeNeighbours(layout)
    }

    /** heap_init, over `size` bytes of memory. */
    constructor (size: nat)
      requires size >= 8
      ensures Valid() && fresh(mem) && mem.Length == size / 8 && layout == [Cell(size / 8 - 1, false)]
    {
      var units := size / 8;
      mem := new Marker[units](i => if i == 0 then Marker(8 * units - 8, false, true, 0)
        else Marker(0, false, false, 0));
      layout := [Cell(units - 1, false)];
      new;
      var l := [Cell(units - 1, false)];
      assert Start(l, 1) == Start(l, 0) + 1 + l[0].units;
    }

    // ---------- the chain ----------

    /** heap_marker_next; -1 is the null pointer. */
    function Next(at: nat): int
      requires at < mem.Length
      reads this`mem, mem
    {
      if mem[at].last then -1 else at + 1 + mem[at].size / 8
    }

    /** heap_marker_prev */
    function Prev(at: nat): int
      requires at < mem.Length
      reads this`mem, mem
    {
      var ret := at - 1 - mem[at].sizePrev / 8;
      if ret < 0 then -1 else ret
    }

    lemma Neighbours(j: nat)
      requires Laid(mem[..], layout) && j < |layout|
      ensures Start(layout, j) < mem.Length && mem[Start(layout, j)] == MarkerOf(layout, j)
      ensures Next(Start(layout, j)) == if j + 1 < |layout| then Start(layout, j + 1) else -1
      ensures Prev(Start(layout, j)) == if j > 0 then Start(layout, j - 1) else -1
    {
      MarkerAt(mem[..], layout, j);
      if j > 0 {
        MarkerAt(mem[..], layout, j - 1);
      }
    }

    /** heap_marker_join: cells `i` and `k` become one if they are adjacent and both free. */
    method Join(m1: nat, m2: nat, ghost i: nat, ghost k: nat)
      requires Laid(mem[..], layout) && i < |layout| && k < |layout|
      requires m1 == Start(layout, i) && m2 == Start(layout, k)
      modifies mem, `layout
      ensures Laid(mem[..], layout)
      ensures layout ==
        var l := old(layout); if k == i + 1 && !l[i].taken && !l[k].taken then Joined(l, i) else l
    {
      hide Laid, Start, Joined;
      Neighbours(i);
      Neighbours(k);
      var next := Next(m1);
      if m2 != next {
        return;
      }
      if i + 1 < |layout| {
        SameStart(layout, i + 1, k);
      }
      if mem[m1].taken || mem[m2].taken {
        return;
      }
      ghost var before, l := mem[..], layout;
      JoinStep(l, i);
      if k + 1 < |l| {
        Neighbours(k + 1);
      }
      var size := mem[m1].size + mem[m2].size + 8;
      mem[m1] := mem[m1].(size := size, last := mem[m1].last || mem[m2].last);
      next := Next(m1);
      if next >= 0 {
        mem[next] := mem[next].(sizePrev := mem[m1].size);
      }
      mem[m2] := Marker(0xFFFF_FFFC, true, true, 0xFFFF_FFFF);
      LaidJoined(before, mem[..], l, i);
      layout := Joined(l, i);
    }

    /** heap_marker_split: what is beyond `size` bytes becomes a cell if it can hold a marker and more. */
    method Split(mark: nat, size: nat, ghost b: nat)
      requires Laid(mem[..], layout) && b < |layout| && mark == Start(layout, b) && Fits(layout, b, size)
        && size % 8 == 0
      modifies mem, `layout
      ensures Laid(mem[..], layout)
      ensures layout ==
        var l, n := old(layout), size / 8; if l[b].units - n > 1 then Cut(l, b, n) else l
    {
      hide Laid, Start, Cut;
      Neighbours(b);
      ghost var before, l, n := mem[..], layout, size / 8;
      var tmp := size / 8 + 1 + mark;
      var remain := mem[mark].size - size;
      if remain > 8 {
        CutStep(before, l, b, n);
        assert tmp != mark && (b + 1 < |l| ==> Start(l, b + 1) != tmp && Start(l, b + 1) != mark);
        if b + 1 < |l| {
          Neighbours(b + 1);
        }
        mem[tmp] := Marker(remain - 8, mem[mark].taken, mem[mark].last, mem[tmp].sizePrev);
        mem[mark] := mem[mark].(size := size, last := false);
        mem[tmp] := mem[tmp].(sizePrev := size);
        var next := Next(tmp);
        if next >= 0 {
          mem[next] := mem[next].(sizePrev := mem[tmp].size);
        }
        LaidCut(before, mem[..], l, b, n);
        layout := Cut(l, b, n);
      }
    }

    // ---------- the heap ----------

    /** heap_alloc: the position of the payload, or -1. */
    method Alloc(size: int) returns (ret: int)
      requires Valid()
      modifies mem, `layout
      ensures Valid()
      ensures ret == -1 <==> size < 1 || forall j :: 0 <= j < |old(layout)| ==> !Fits(old(layout), j, Rounded(size))
      ensures ret == -1 ==> layout == old(layout) && mem[..] == old(mem[..])
      ensures ret != -1 ==> exists b :: (
        && BestFit(old(layout), b, Rounded(size))
        && ret == Start(old(layout), b) + 1 && layout == Taken(old(layout), b, Rounded(size) / 8))
      ensures ret != -1 ==> exists u: nat :: LiveAt(layout, ret - 1, u) && size <= 8 * u
    {
      hide Laid, Start, Cut, Taken, LiveAt;
      ret := -1;
      if size >= 1 {
        var need := Rounded(size);
        var tmp: int := 0;
        var best: int := -1;
        ghost var j, b := 0, 0;
        FirstCell(mem[..], layout);
        while tmp >= 0
          invariant Valid() && layout == old(layout) && mem[..] == old(mem[..])
          invariant j <= |layout| && tmp == if j < |layout| then Start(layout, j) else -1
          invariant best == -1 || (b < j && best == Start(layout, b))
          invariant best == -1 ==> forall k :: 0 <= k < j ==> !Fits(layout, k, need)
          invariant best != -1 ==> Fits(layout, b, need) && forall k :: 0 <= k < j && Fits(layout, k, need) ==>
            layout[b].units <= layout[k].units && (k < b ==> layout[b].units < layout[k].units)
          decreases |layout| - j
        {
          Neighbours(j);
          if best >= 0 {
            Neighbours(b);
          }
          if !mem[tmp].taken {
            if mem[tmp].size >= need {
              if best < 0 || mem[tmp].size < mem[best].size {
                best, b := tmp, j;
              }
            }
          }
          tmp := Next(tmp);
          j := j + 1;
        }
        if best >= 0 {
          ghost var l := layout;
          assert BestFit(l, b, need);
          Split(best, need, b);
          TakenIs(l, layout, b, need / 8, best);
          Neighbours(b);
          ghost var before := mem[..];
          mem[best] := mem[best].(taken := true);
          LaidFlag(before, mem[..], layout, b, true);
          layout := layout[b := Cell(layout[b].units, true)];
          TakenNeighbours(l, b, need / 8);
          ret := best + 1;
          HoldsEnough(l, b, need, layout);
        }
      }
    }

    /**
      What the range check of heap_free refuses.  The size in bytes is added to
      a pointer to eight-byte markers, so the check lets eight times the heap pass.
    */
    predicate Foreign(adr: int)
      reads this`mem
    {
      adr - 1 < 0 || adr - 1 >= 8 * mem.Length
    }

    /**
      heap_free of the payload of cell `b`, refused if that is free already, or
      of a pointer that is refused as foreign.
    */
    method Free(adr: int, ghost b: nat) returns (ok: bool)
      requires Valid() && b < |layout| && (adr == Start(layout, b) + 1 || Foreign(adr))
      modifies mem, `layout
      ensures Valid()
      ensures ok <==> adr == Start(old(layout), b) + 1 && old(layout)[b].taken
      ensures layout == if ok then Freed(old(layout), b) else old(layout)
      ensures !ok ==> mem[..] == old(mem[..])
    {
      hide Laid, Start, Joined;
      Neighbours(b);
      if Foreign(adr) {
        return false;
      }
      var tmp := adr - 1;
      var prev, next := Prev(tmp), Next(tmp);
      if b > 0 {
        Neighbours(b - 1);
      }
      if b + 1 < |layout| {
        Neighbours(b + 1);
      }
      var sane := (prev >= 0 ==> mem[tmp].sizePrev == mem[prev].size)
        && (next >= 0 ==> mem[next].sizePrev == mem[tmp].size);
      assert sane;
      if !sane || !mem[tmp].taken {
        return false;
      }
      ghost var before, l := mem[..], layout;
      mem[tmp] := mem[tmp].(taken := false);
      LaidFlag(before, mem[..], l, b, false);
      layout := l[b := Cell(l[b].units, false)];
      FlagKeepsStarts(l, b, false);
      if prev >= 0 && !mem[prev].taken {
        JoinKeepsStarts(layout, b - 1);
        Join(prev, tmp, b - 1, b);
        tmp := prev;
        if next >= 0 {
          Neighbours(b);
        }
        if next >= 0 && !mem[next].taken {
          Join(tmp, next, b - 1, b);
        }
      } else {
        if next >= 0 && !mem[next].taken {
          Join(tmp, next, b, b + 1);
        }
      }
      FreedNeighbours(l, b);
      return true;
    }

    /** The owner of a live block may write what it likes in its payload. */
    method Store(at: nat, value: Marker, ghost b: nat)
      requires Valid() && b < |layout| && layout[b].taken && Start(layout, b) < at <= Start(layout, b) + layout[b].units
      modifies mem
      ensures Valid()
    {
      hide Start;
      ghost var before := mem[..];
      StartsGrow(layout, b, |layout|);
      mem[at] := value;
      LaidStored(before, mem[..], layout, b, at);
    }
  }
}
