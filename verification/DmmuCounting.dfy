/** How the true number of references to a block changes when words or block types change. */
module DmmuCounting {
  import opened DmmuState
  import opened DmmuCommands

  /** The references that word `a` of `s` holds to `b`. */
  function RefAt(s: State, a: nat, b: int): (r: nat)
    requires a < MEM_WORDS
    ensures r <= 1
  {
    RefOf(Kind(s, a), s.mem[a], b)
  }

  lemma {:induction false} RefsSplit(s: State, lo: nat, mid: nat, hi: nat, b: int)
    requires lo <= mid <= hi <= MEM_WORDS
    ensures Refs(s, lo, hi, b) == Refs(s, lo, mid, b) + Refs(s, mid, hi, b)
    decreases hi
  {
    if mid == hi {
    } else {
      RefsSplit(s, lo, mid, hi - 1, b);
    }
  }

  lemma {:induction false} RefsSame(s: State, s': State, lo: nat, hi: nat, b: int)
    requires lo <= hi <= MEM_WORDS
    requires forall a :: lo <= a < hi ==> RefAt(s, a, b) == RefAt(s', a, b)
    ensures Refs(s, lo, hi, b) == Refs(s', lo, hi, b)
    decreases hi
  {
    if lo == hi {
    } else {
      assert RefAt(s, hi - 1, b) == RefAt(s', hi - 1, b);
      RefsSame(s, s', lo, hi - 1, b);
    }
  }

  lemma {:induction false} RefsNone(s: State, lo: nat, hi: nat, b: int)
    requires lo <= hi <= MEM_WORDS
    requires forall a :: lo <= a < hi ==> RefAt(s, a, b) == 0
    ensures Refs(s, lo, hi, b) == 0
    decreases hi
  {
    if lo == hi {
    } else {
      assert RefAt(s, hi - 1, b) == 0;
      RefsNone(s, lo, hi - 1, b);
    }
  }

  lemma {:induction false} RefsTable(s: State, t: PageType, lo: nat, hi: nat, b: int)
    requires lo <= hi <= MEM_WORDS
    requires forall a :: lo <= a < hi ==> Kind(s, a) == t
    ensures Refs(s, lo, hi, b) == TableRefs(s.mem, t, lo, hi, b)
    decreases hi
  {
    if lo == hi {
    } else {
      assert Kind(s, hi - 1) == t;
      RefsTable(s, t, lo, hi - 1, b);
    }
  }

  lemma RefsWord(s: State, a: nat, b: int)
    requires a < MEM_WORDS
    ensures RefAt(s, a, b) <= Refs(s, 0, MEM_WORDS, b)
  {
    RefsSplit(s, 0, a, MEM_WORDS, b);
    RefsSplit(s, a, a + 1, MEM_WORDS, b);
    assert Refs(s, a, a, b) == 0;
    assert Refs(s, a, a + 1, b) == RefAt(s, a, b);
  }

  /** Outside the words `lo..hi` nothing changed, so the totals differ as the spans do. */
  lemma RefsSpan(s: State, s': State, lo: nat, hi: nat, b: int)
    requires lo <= hi <= MEM_WORDS
    requires forall a :: 0 <= a < MEM_WORDS && !(lo <= a < hi) ==> RefAt(s, a, b) == RefAt(s', a, b)
    ensures Refs(s', 0, MEM_WORDS, b) - Refs(s', lo, hi, b) == Refs(s, 0, MEM_WORDS, b) - Refs(s, lo, hi, b)
  {
    RefsSplit(s, 0, lo, MEM_WORDS, b);
    RefsSplit(s, lo, hi, MEM_WORDS, b);
    RefsSplit(s', 0, lo, MEM_WORDS, b);
    RefsSplit(s', lo, hi, MEM_WORDS, b);
    RefsSame(s, s', 0, lo, b);
    RefsSame(s, s', hi, MEM_WORDS, b);
  }

  /** One word changed. */
  lemma RefsPoint(s: State, s': State, a: nat, b: int)
    requires a < MEM_WORDS
    requires forall c :: 0 <= c < MEM_WORDS && c != a ==> RefAt(s, c, b) == RefAt(s', c, b)
    ensures Refs(s', 0, MEM_WORDS, b) - RefAt(s', a, b) == Refs(s, 0, MEM_WORDS, b) - RefAt(s, a, b)
  {
    RefsSpan(s, s', a, a + 1, b);
    assert Refs(s, a, a, b) == 0 && Refs(s', a, a, b) == 0;
    assert Refs(s, a, a + 1, b) == RefAt(s, a, b);
    assert Refs(s', a, a + 1, b) == RefAt(s', a, b);
  }

  lemma {:induction false} TableRefsBound(mem: Memory, t: PageType, lo: nat, hi: nat, b: int)
    requires lo <= hi <= MEM_WORDS
    ensures TableRefs(mem, t, lo, hi, b) <= hi - lo
    decreases hi
  {
    if lo == hi {
    } else {
      TableRefsBound(mem, t, lo, hi - 1, b);
    }
  }

  /** A counted block is named by some word of the table. */
  lemma {:induction false} TableRefsWord(mem: Memory, t: PageType, lo: nat, hi: nat, b: int) returns (a: nat)
    requires lo <= hi <= MEM_WORDS
    requires TableRefs(mem, t, lo, hi, b) > 0
    ensures lo <= a < hi && RefOf(t, mem[a], b) == 1
    decreases hi
  {
    if RefOf(t, mem[hi - 1], b) == 1 {
      a := hi - 1;
    } else {
      a := TableRefsWord(mem, t, lo, hi - 1, b);
    }
  }

  lemma {:induction false} TableRefsNone(mem: Memory, t: PageType, lo: nat, hi: nat, b: int)
    requires lo <= hi <= MEM_WORDS
    requires forall a :: lo <= a < hi ==> RefOf(t, mem[a], b) == 0
    ensures TableRefs(mem, t, lo, hi, b) == 0
    decreases hi
  {
    if lo == hi {
    } else {
      assert RefOf(t, mem[hi - 1], b) == 0;
      TableRefsNone(mem, t, lo, hi - 1, b);
    }
  }

  lemma {:induction false} TableRefsSame(mem: Memory, mem': Memory, t: PageType, lo: nat, hi: nat, b: int)
    requires lo <= hi <= MEM_WORDS
    requires forall a :: lo <= a < hi ==> mem[a] == mem'[a]
    ensures TableRefs(mem, t, lo, hi, b) == TableRefs(mem', t, lo, hi, b)
    decreases hi
  {
    if lo == hi {
    } else {
      TableRefsSame(mem, mem', t, lo, hi - 1, b);
    }
  }
}
