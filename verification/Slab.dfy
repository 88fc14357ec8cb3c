/**
  The slab object cache of library/util/src/slab.c over the object pool of
  library/util/src/pool.c.  Objects are named by their place in the pool's
  memory; calls to the constructor and the destructor are logged.
*/
module Slab {
  import opened Sequences

  /** The objects from `count - 1` down to `bottom + 1`. */
  function Down(count: nat, bottom: int): (r: seq<int>)
    requires -1 <= bottom < count
    ensures |r| == count - 1 - bottom && forall i :: 0 <= i < |r| ==> r[i] == count - 1 - i
  {
    seq(count - 1 - bottom, i => count - 1 - i)
  }

  function Reversed(s: seq<int>): (r: seq<int>)
    ensures |r| == |s| && forall i :: 0 <= i < |s| ==> r[i] == s[|s| - 1 - i]
  {
    seq(|s|, i requires 0 <= i < |s| => s[|s| - 1 - i])
  }

  function Range(lo: int, hi: int): (s: set<int>)
    requires lo <= hi
    ensures |s| == hi - lo && forall x :: x in s <==> lo <= x < hi
    decreases hi - lo
  {
    if lo == hi then {} else Range(lo + 1, hi) + {lo}
  }

  lemma NothingTwice(s: seq<int>)
    requires s == []
    ensures Distinct(s)
  {
  }

  class Cache {
    var list: array<int>
    var count: nat
    var current: nat
    var constBottom: int
    var hasConstructor: bool
    var hasDestructor: bool
    // The calls of the constructor and of the destructor, every object in the
    // order first handed out, and the objects now out.
    ghost var built: seq<int>
    ghost var destroyed: seq<int>
    ghost var first: seq<int>
    ghost var out: set<int>

    constructor ()
    {
      list := new int[0];
      count, current, constBottom, hasConstructor, hasDestructor := 0, 0, -1, false, false;
      built, destroyed, first, out := [], [], [], {};
    }

    /** The pool: a stack of the objects that are not out. */
    ghost predicate Pooled()
      reads this, list
    {
      && current <= count == list.Length && |out| + current == count
      && Distinct(list[..current])
      && (forall x :: x in out ==> 0 <= x < count)
      && (forall x :: 0 <= x < count ==> (x in list[..current] <==> x !in out))
      && (forall j :: 0 <= j < current ==> 0 <= list[j] < count)
    }

    /**
      The objects up to `constBottom` were never handed out and lie at the
      bottom of the stack, in order; all others were, and were constructed
      when they first were.
    */
    ghost predicate Valid()
      reads this, list
    {
      && Pooled() && 2 <= count && -1 <= constBottom < current
      && (forall j :: 0 <= j <= constBottom ==> list[j] == j)
      && first == Down(count, constBottom)
      && built == (if hasConstructor then first else [])
      && destroyed == []
    }

    /** slab_init over pool_init. */
    method Init(itemCount: int, withConstructor: bool, withDestructor: bool, gotMemory: bool) returns (ok: bool)
      modifies this
      ensures ok == gotMemory
      ensures ok ==> fresh(list) && count == (if itemCount < 2 then 2 else itemCount)
      ensures ok ==> Valid() && out == {} && first == []
      ensures ok ==> hasConstructor == withConstructor && hasDestructor == withDestructor
    {
      hasConstructor, hasDestructor := withConstructor, withDestructor;
      count := if itemCount < 2 then 2 else itemCount;
      current := 0;
      if !gotMemory {
        return false;
      }
      FillPool();
      constBottom := count - 1;
      built, destroyed, first := [], [], Down(count, constBottom);
      return true;
    }

    /** pool_init: every object is pushed, the first at the bottom. */
    method FillPool()
      requires current == 0
      modifies `list, `current, `out
      ensures fresh(list) && Pooled() && current == count && out == {}
      ensures forall j :: 0 <= j < count ==> list[j] == j
    {
      hide Distinct, Range;
      list := new int[count];
      out := Range(0, count);
      assert Distinct(list[..0]) by { NothingTwice(list[..0]); }
      var raw := 0;
      while raw < count
        invariant raw <= count && Pooled() && current == raw && fresh(list)
        invariant out == Range(raw, count)
        invariant forall j :: 0 <= j < raw ==> list[j] == j
      {
        ghost var was := list[..current];
        assert Range(raw, count) - {raw} == Range(raw + 1, count);
        PoolFree(raw);
        assert forall j :: 0 <= j < raw ==> list[j] == list[..current][j] == was[j];
        raw := raw + 1;
      }
    }

    method PoolFree(x: int)
      requires Pooled() && x in out
      modifies list, `current, `out
      ensures Pooled() && current == old(current) + 1 && out == old(out) - {x}
      ensures list[..current] == old(list[..current]) + [x]
    {
      assert out == out - {x} + {x};
      ghost var was := list[..current];
      if current < count {
        list[current] := x;
        current := current + 1;
      }
      assert list[..current] == was + [x];
      out := out - {x};
    }

    method PoolAlloc() returns (x: int)
      requires Pooled()
      modifies `current, `out
      ensures Pooled()
      ensures old(current) == 0 ==> x == -1 && current == 0 && out == old(out)
      ensures old(current) > 0 ==>
        current == old(current) - 1 && x == list[current] && x !in old(out) && out == old(out) + {x}
    {
      x := -1;
      if current > 0 {
        current := current - 1;
        x := list[current];
        out := out + {x};
      }
    }
  
    /** slab_alloc: an object that is not out, constructed exactly when it was never out before; -1 when all are. */
    method Alloc() returns (item: int)
      requires Valid()
      modifies `constBottom, `current, `out, `first, `built
      ensures Valid()
      ensures item == -1 <==> forall x :: 0 <= x < count ==> x in old(out)
      ensures item == -1 ==> out == old(out) && first == old(first) && built == old(built)
      ensures item != -1 ==> 0 <= item < count && item !in old(out) && out == old(out) + {item}
      ensures item != -1 ==> item in first && first == if item in old(first) then old(first) else old(first) + [item]
      ensures item != -1 && hasConstructor ==> built == if item in old(built) then old(built) else old(built) + [item]
    {
      hide Down, Distinct;
      ghost var was := list[..current];
      item := PoolAlloc();
      if item != -1 {
        assert item == was[current];
        if constBottom < current {
          AboveBottom(was, constBottom);
        }
        ConstructFirst(item);
      } else {
        assert was == [];
      }
    }

    /** The constructor runs when the item just popped lay at the watermark. */
    method ConstructFirst(item: int)
      requires Pooled() && 2 <= count && -1 <= constBottom <= current
      requires forall j :: 0 <= j <= constBottom && j < list.Length ==> list[j] == j
      requires 0 <= item < count && (if constBottom == current then item == constBottom else item > constBottom)
      requires first == Down(count, constBottom) && built == (if hasConstructor then first else []) && destroyed == []
      modifies `constBottom, `first, `built
      ensures Valid() && item in first && first == if item in old(first) then old(first) else old(first) + [item]
      ensures hasConstructor ==> built == if item in old(built) then old(built) else old(built) + [item]
    {
      hide Down, Distinct;
      DownHolds(count, constBottom, item);
      if constBottom == current {
        DownNext(count, constBottom);
        constBottom := constBottom - 1;
        first := first + [item];
        if hasConstructor {
          built := built + [item];
        }
      }
    }

    /** slab_free of an object that is out. */
    method Free(x: int)
      requires Valid() && x in out
      modifies list, `current, `out
      ensures Valid() && out == old(out) - {x}
    {
      NeverAtBottom(x);
      PoolFree(x);
    }

    lemma NeverAtBottom(x: int)
      requires Valid() && x in out
      ensures x > constBottom
    {
      forall j | 0 <= j <= constBottom ensures j in list[..current] {
        assert list[..current][j] == j;
      }
    }

    /** slab_cleanup: the destructor is called once for every object that was ever handed out, and for no other. */
    method Cleanup()
      requires Valid()
      modifies `constBottom, `destroyed
      ensures destroyed == if hasDestructor then Reversed(first) else []
      ensures Distinct(destroyed) && (hasDestructor ==> forall x :: x in destroyed <==> x in first)
    {
      hide Distinct;
      ghost var bottom := constBottom;
      if hasDestructor {
        constBottom := constBottom + 1;
        while constBottom < count
          invariant bottom < constBottom <= count
          invariant destroyed == seq(constBottom - 1 - bottom, i => bottom + 1 + i)
        {
          var item := Raw(constBottom);
          destroyed := destroyed + [item];
          constBottom := constBottom + 1;
        }
        DownHolds(count, bottom, 0);
        forall x
          ensures Distinct(destroyed) && (x in destroyed <==> x in first)
        {
          DestroyedOnce(first, destroyed, x);
        }
      } else {
        NothingTwice(destroyed);
      }
    }

    /** pool_get_raw; -1 is the null pointer. */
    function Raw(index: int): int
      reads `count
    {
      if index < 0 || index >= count then -1 else index
    }
  }

  lemma DownHolds(count: nat, bottom: int, x: int)
    requires -1 <= bottom < count
    ensures x in Down(count, bottom) <==> bottom < x < count
    ensures Distinct(Down(count, bottom))
  {
    if bottom < x < count {
      assert Down(count, bottom)[count - 1 - x] == x;
    }
  }

  lemma DownNext(count: nat, bottom: int)
    requires 0 <= bottom < count
    ensures Down(count, bottom - 1) == Down(count, bottom) + [bottom]
  {
  }

  lemma TopIsNot(stack: seq<int>, bottom: int, j: nat)
    requires Distinct(stack) && j <= bottom && bottom + 1 < |stack| && stack[j] == j
    ensures stack[|stack| - 1] != j
  {
  }

  /** What lies on the stack above the objects never handed out is one that was. */
  lemma AboveBottom(stack: seq<int>, bottom: int)
    requires Distinct(stack) && -1 <= bottom && bottom + 1 < |stack|
    requires forall j :: 0 <= j <= bottom ==> stack[j] == j
    requires forall j :: 0 <= j < |stack| ==> 0 <= stack[j]
    ensures stack[|stack| - 1] > bottom
  {
    if stack[|stack| - 1] <= bottom {
      TopIsNot(stack, bottom, stack[|stack| - 1]);
    }
  }

  /** So the destructor's calls are the constructor's, last constructed first, each object once. */
  lemma DestroyedOnce(first: seq<int>, destroyed: seq<int>, x: int)
    requires Distinct(first) && destroyed == Reversed(first)
    ensures Distinct(destroyed) && (x in destroyed <==> x in first)
  {
    if x in first {
      var i :| 0 <= i < |first| && first[i] == x;
      assert destroyed[|first| - 1 - i] == x;
    }
  }
}
