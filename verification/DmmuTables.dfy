/** Creating and freeing whole tables, and writes to data pages, keep the invariant. */
module DmmuTables {
  import opened DmmuState
  import opened DmmuCommands
  import opened DmmuCounting
  import opened DmmuInvariant

  /** Only words that no table translation reads were written. */
  lemma WriteData(cfg: Config, s: State, s': State)
    requires TablesOk(cfg, s) && s'.bft == s.bft
    requires forall a :: 0 <= a < MEM_WORDS && Kind(s, a) != Data ==> s'.mem[a] == s.mem[a]
    ensures TablesOk(cfg, s') && SlackKept(s, s')
  {
    hide StaticOk, Reserved, Target, Refs;
    assert forall a :: 0 <= a < MEM_WORDS ==> Kind(s', a) == Kind(s, a);
    forall b | 0 <= b < BLOCKS
      ensures Slack(s', b) == Slack(s, b)
    {
      WriteDataRefs(s, s', b);
    }
    forall c | 0 <= c < MEM_WORDS
      ensures WordOk(cfg, s', c)
    {
      if Kind(s, c) == Data {
        DataWordOk(cfg, s', c);
      } else {
        assert WordOk(cfg, s, c);
      }
    }
    forall a | 0 <= a < MEM_WORDS && s'.bft[a / 1024].typ == L1Pt && Reserved(cfg, a % 4096)
      ensures s'.mem[a] == cfg.master[a % 4096]
    {
      assert Kind(s, a) == L1Pt;
    }
  }

  lemma DataWordOk(cfg: Config, s: State, a: nat)
    requires a < MEM_WORDS && Kind(s, a) == Data
    ensures WordOk(cfg, s, a)
  {
  }

  lemma WriteDataRefs(s: State, s': State, b: int)
    requires forall a :: 0 <= a < MEM_WORDS ==> Kind(s', a) == Kind(s, a)
    requires forall a :: 0 <= a < MEM_WORDS && Kind(s, a) != Data ==> s'.mem[a] == s.mem[a]
    ensures Refs(s', 0, MEM_WORDS, b) == Refs(s, 0, MEM_WORDS, b)
  {
    hide Refs, Kind;
    forall a | 0 <= a < MEM_WORDS
      ensures RefAt(s, a, b) == RefAt(s', a, b)
    {
      if Kind(s, a) != Data {
        assert s'.mem[a] == s.mem[a];
      }
    }
    RefsSame(s, s', 0, MEM_WORDS, b);
  }

  /** How many words of a table of type `t` are translated, and how many blocks it takes. */
  function Span(t: PageType): nat { if t == L1Pt then 4096 else 512 }

  function Width(t: PageType): nat { if t == L1Pt then 4 else 1 }

  predicate TablePlace(t: PageType, q: nat)
  {
    && q + Width(t) <= BLOCKS
    && (t == L2Pt || (t == L1Pt && q % 4 == 0))
  }

  predicate InTable(t: PageType, q: nat, b: int)
  {
    q <= b < q + Width(t)
  }

  /** Blocks of the table at `q` get type `to`, and the references of the table are added or taken away. */
  ghost predicate Retyped(s: State, t: PageType, q: nat, to: PageType, added: bool, s': State)
    requires TablePlace(t, q)
  {
    && s'.mem == s.mem && s'.ttbr == s.ttbr
    && forall b :: 0 <= b < BLOCKS ==>
      && s'.bft[b].typ == (if InTable(t, q, b) then to else s.bft[b].typ)
      && var n := TableRefs(s.mem, t, q * 1024, q * 1024 + Span(t), b);
        s'.bft[b].refcnt == (s.bft[b].refcnt + (if added then n else 0 - n)) % COUNT_LIMIT
  }

  lemma AddedIsRetyped(s: State, t: PageType, q: nat)
    requires TablePlace(t, q)
    ensures Retyped(s, t, q, t, true,
      s.(bft := Retype(AddRefs(s.mem, s.bft, t, q * 1024, q * 1024 + Span(t)), q, Width(t), t)))
  {
    hide AddRefs, TableRefs;
  }

  lemma DroppedIsRetyped(s: State, t: PageType, q: nat)
    requires TablePlace(t, q)
    ensures Retyped(s, t, q, Data, false,
      s.(bft := Retype(DropRefs(s.mem, s.bft, t, q * 1024, q * 1024 + Span(t)), q, Width(t), Data)))
  {
    hide DropRefs, TableRefs;
  }

  /** From `s` to `s'` the table at `q` became a table of type `t`, and its references were counted exactly. */
  ghost predicate TableAdded(t: PageType, q: nat, s: State, s': State)
  {
    && TablePlace(t, q)
    && forall b :: 0 <= b < BLOCKS ==>
      && s'.bft[b].typ == (if InTable(t, q, b) then t else s.bft[b].typ)
      && s'.bft[b].refcnt == s.bft[b].refcnt + TableRefs(s'.mem, t, q * 1024, q * 1024 + Span(t), b)
  }

  lemma RetypedKinds(s: State, s': State, t: PageType, q: nat, to: PageType)
    requires TablePlace(t, q)
    requires forall b :: 0 <= b < BLOCKS ==> s'.bft[b].typ == (if InTable(t, q, b) then to else s.bft[b].typ)
    requires forall b :: InTable(t, q, b) ==> s.bft[b].typ == (if to == Data then t else Data)
    requires to == Data || to == t
    ensures forall a :: 0 <= a < MEM_WORDS && !(q * 1024 <= a < q * 1024 + Span(t)) ==> Kind(s', a) == Kind(s, a)
    ensures forall a :: q * 1024 <= a < q * 1024 + Span(t) ==>
      Kind(s', a) == to && Kind(s, a) == (if to == Data then t else Data)
  {
    forall a | 0 <= a < MEM_WORDS
      ensures Kind(s', a) == if q * 1024 <= a < q * 1024 + Span(t) then to else Kind(s, a)
      ensures q * 1024 <= a < q * 1024 + Span(t) ==> Kind(s, a) == (if to == Data then t else Data)
    {
      assert s'.bft[a / 1024].typ == if InTable(t, q, a / 1024) then to else s.bft[a / 1024].typ;
    }
  }

  lemma OutsideRefs(s: State, s': State, lo: nat, hi: nat, b: int)
    requires lo <= hi <= MEM_WORDS && s'.mem == s.mem
    requires forall a :: 0 <= a < MEM_WORDS && !(lo <= a < hi) ==> Kind(s', a) == Kind(s, a)
    ensures Refs(s', 0, MEM_WORDS, b) - Refs(s', lo, hi, b) == Refs(s, 0, MEM_WORDS, b) - Refs(s, lo, hi, b)
  {
    hide RefOf, Kind, Refs;
    forall a | 0 <= a < MEM_WORDS && !(lo <= a < hi)
      ensures RefAt(s, a, b) == RefAt(s', a, b)
    {
    }
    RefsSpan(s, s', lo, hi, b);
  }

  lemma DataRefs(s: State, lo: nat, hi: nat, b: int)
    requires lo <= hi <= MEM_WORDS
    requires forall a :: lo <= a < hi ==> Kind(s, a) == Data
    ensures Refs(s, lo, hi, b) == 0
  {
    hide Refs, Kind;
    RefsNone(s, lo, hi, b);
  }

  /** The words of a table to be created at `q` are sound and name no block of the table itself. */
  ghost predicate Admissible(cfg: Config, s: State, t: PageType, q: nat)
    requires TablePlace(t, q)
  {
    forall a :: q * 1024 <= a < q * 1024 + Span(t) ==>
      && StaticOk(cfg, t, s.mem[a]) && TargetsOk(s.bft, t, s.mem[a])
      && (t == L1Pt && Reserved(cfg, a % 4096) ==> s.mem[a] == cfg.master[a % 4096])
      && forall b :: 0 <= b < BLOCKS && RefOf(t, s.mem[a], b) == 1 ==>
        s.bft[b].refcnt < MAX_30BIT - Span(t) && !InTable(t, q, b)
  }

  lemma AddCount(cfg: Config, s: State, t: PageType, q: nat, b: nat)
    requires TablePlace(t, q) && Admissible(cfg, s, t, q) && b < BLOCKS
    ensures s.bft[b].refcnt + TableRefs(s.mem, t, q * 1024, q * 1024 + Span(t), b) < COUNT_LIMIT
  {
    hide StaticOk, RefOf, Target, Reserved;
    var lo, hi := q * 1024, q * 1024 + Span(t);
    TableRefsBound(s.mem, t, lo, hi, b);
    if TableRefs(s.mem, t, lo, hi, b) > 0 {
      var a := TableRefsWord(s.mem, t, lo, hi, b);
      assert RefOf(t, s.mem[a], b) == 1;
    }
  }

  lemma AddTable(cfg: Config, s: State, t: PageType, q: nat, s': State)
    requires TablesOk(cfg, s) && TablePlace(t, q) && Admissible(cfg, s, t, q)
    requires forall b :: InTable(t, q, b) ==> s.bft[b].typ == Data && s.bft[b].refcnt == 0
    requires Retyped(s, t, q, t, true, s')
    ensures TablesOk(cfg, s') && SlackKept(s, s')
    ensures TableAdded(t, q, s, s')
  {
    hide StaticOk, RefOf, Target, Reserved, Kind, Refs, TableRefs;
    var lo, hi := q * 1024, q * 1024 + Span(t);
    RetypedKinds(s, s', t, q, t);
    forall b | 0 <= b < BLOCKS
      ensures Slack(s', b) == Slack(s, b)
      ensures s'.bft[b].refcnt == s.bft[b].refcnt + TableRefs(s.mem, t, lo, hi, b)
    {
      AddCount(cfg, s, t, q, b);
      OutsideRefs(s, s', lo, hi, b);
      DataRefs(s, lo, hi, b);
      RefsTable(s', t, lo, hi, b);
    }
    forall c | 0 <= c < MEM_WORDS
      ensures WordOk(cfg, s', c)
    {
      AddTableWord(cfg, s, t, q, s', c);
    }
    AddTableMaster(cfg, s, t, q, s');
  }

  lemma AddTableWord(cfg: Config, s: State, t: PageType, q: nat, s': State, c: nat)
    requires TablesOk(cfg, s) && TablePlace(t, q) && Admissible(cfg, s, t, q)
    requires forall b :: InTable(t, q, b) ==> s.bft[b].typ == Data && s.bft[b].refcnt == 0
    requires Retyped(s, t, q, t, true, s') && c < MEM_WORDS
    requires Kind(s', c) == if q * 1024 <= c < q * 1024 + Span(t) then t else Kind(s, c)
    ensures WordOk(cfg, s', c)
  {
    hide StaticOk, RefOf, Target, Reserved, Kind, TableRefs, Refs, MasterKept, Grouped;
    if !(q * 1024 <= c < q * 1024 + Span(t)) {
      assert WordOk(cfg, s, c);
      forall b | 0 <= b < BLOCKS && RefOf(Kind(s', c), s'.mem[c], b) == 1
        ensures s'.bft[b].typ == Target(Kind(s', c), s'.mem[c])
      {
        if InTable(t, q, b) {
          assert Slack(s, b) >= 0 && RefAt(s, c, b) == 1;
          Unreferenced(s, b);
        }
      }
    }
  }

  lemma AddTableMaster(cfg: Config, s: State, t: PageType, q: nat, s': State)
    requires MasterKept(cfg, s) && Grouped(s.bft) && TablePlace(t, q) && Admissible(cfg, s, t, q)
    requires forall b :: InTable(t, q, b) ==> s.bft[b].typ == Data
    requires Retyped(s, t, q, t, true, s')
    ensures MasterKept(cfg, s') && Grouped(s'.bft)
  {
    hide StaticOk, RefOf, Target, Reserved, TableRefs, TargetsOk;
    forall a | 0 <= a < MEM_WORDS && s'.bft[a / 1024].typ == L1Pt && Reserved(cfg, a % 4096)
      ensures s'.mem[a] == cfg.master[a % 4096]
    {
      if InTable(t, q, a / 1024) {
        assert q * 1024 <= a < q * 1024 + Span(t);
      }
    }
  }

  lemma RefsPart(s: State, lo: nat, hi: nat, b: int)
    requires lo <= hi <= MEM_WORDS
    ensures Refs(s, lo, hi, b) <= Refs(s, 0, MEM_WORDS, b)
  {
    hide Refs;
    RefsSplit(s, 0, lo, MEM_WORDS, b);
    RefsSplit(s, lo, hi, MEM_WORDS, b);
  }

  /** The counts that freeing a table leaves. */
  lemma RemoveTableCount(cfg: Config, s: State, t: PageType, q: nat, s': State, b: nat)
    requires TablesOk(cfg, s) && TablePlace(t, q) && b < BLOCKS
    requires forall b :: InTable(t, q, b) ==> s.bft[b].typ == t && (t == L2Pt ==> s.bft[b].refcnt == 0)
    requires Retyped(s, t, q, Data, false, s')
    ensures Slack(s', b) == Slack(s, b)
    ensures s.bft[b].refcnt == s'.bft[b].refcnt + TableRefs(s.mem, t, q * 1024, q * 1024 + Span(t), b)
  {
    hide StaticOk, RefOf, Target, Reserved, Kind, Refs, TableRefs, WordOk, MasterKept, Grouped;
    var lo, hi := q * 1024, q * 1024 + Span(t);
    RetypedKinds(s, s', t, q, Data);
    assert Slack(s, b) >= 0;
    RefsTable(s, t, lo, hi, b);
    RefsPart(s, lo, hi, b);
    OutsideRefs(s, s', lo, hi, b);
    DataRefs(s', lo, hi, b);
  }

  lemma RemoveTable(cfg: Config, s: State, t: PageType, q: nat, s': State)
    requires TablesOk(cfg, s) && TablePlace(t, q)
    requires forall b :: InTable(t, q, b) ==> s.bft[b].typ == t && (t == L2Pt ==> s.bft[b].refcnt == 0)
    requires Retyped(s, t, q, Data, false, s')
    ensures TablesOk(cfg, s') && SlackKept(s, s')
    ensures TableAdded(t, q, s', s)
  {
    hide StaticOk, RefOf, Target, Reserved, Kind, Refs, TableRefs;
    RetypedKinds(s, s', t, q, Data);
    forall b | 0 <= b < BLOCKS
      ensures Slack(s', b) == Slack(s, b) && Slack(s, b) >= 0
      ensures s.bft[b].refcnt == s'.bft[b].refcnt + TableRefs(s.mem, t, q * 1024, q * 1024 + Span(t), b)
    {
      RemoveTableCount(cfg, s, t, q, s', b);
    }
    hide Slack;
    forall c | 0 <= c < MEM_WORDS
      ensures WordOk(cfg, s', c)
    {
      if q * 1024 <= c < q * 1024 + Span(t) {
        DataWordOk(cfg, s', c);
      } else {
        RemoveTableWord(cfg, s, t, q, s', c);
      }
    }
  }

  lemma RemoveTableWord(cfg: Config, s: State, t: PageType, q: nat, s': State, c: nat)
    requires TablesOk(cfg, s) && TablePlace(t, q)
    requires forall b :: InTable(t, q, b) ==> s.bft[b].typ == t && (t == L2Pt ==> s.bft[b].refcnt == 0)
    requires Retyped(s, t, q, Data, false, s') && c < MEM_WORDS
    requires Kind(s', c) == Kind(s, c)
    ensures WordOk(cfg, s', c)
  {
    hide StaticOk, RefOf, Reserved, Kind, TableRefs, Refs, MasterKept, Grouped;
    assert WordOk(cfg, s, c);
    forall b | 0 <= b < BLOCKS && RefOf(Kind(s', c), s'.mem[c], b) == 1
      ensures s'.bft[b].typ == Target(Kind(s', c), s'.mem[c])
    {
      if InTable(t, q, b) && t == L2Pt {
        assert Slack(s, b) >= 0 && RefAt(s, c, b) == 1;
        Unreferenced(s, b);
      }
    }
  }
}
