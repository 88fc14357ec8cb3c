/**
  Confinement to guest memory over whole runs.  The range check lets the last
  section of the address space through, so a store can leave guest memory only
  through a descriptor for a page of that section that guest memory does not
  cover; here is which commands bring such a descriptor into a table.
*/
module DmmuConfined {
  import opened DmmuState
  import opened DmmuCommands
  import opened DmmuCounting
  import opened DmmuInvariant
  import opened DmmuTables
  import opened DmmuIndices
  import opened DmmuSafety
  import opened DmmuRuns
  import opened DmmuResults

  /** A page of the last section that is not all guest memory. */
  predicate Edge(cfg: Config, b: int)
  {
    b / 256 == 0xFFF && GuestEnd(cfg) < (b + 1) * PAGE_SIZE
  }

  /** A writable descriptor for the last section, or for an edge page. */
  predicate Edgy(cfg: Config, t: PageType, w: Word)
  {
    match t
    case L1Pt => Typ(w) == 2 && SecAp(w) == 3 && SecAddr(w) == 0xFFF
    case L2Pt => Typ(w) >= 2 && SmallAp(w) == 3 && Edge(cfg, SmallBlock(w))
    case _ => false
  }

  /** No table holds such a descriptor. */
  ghost predicate Tame(cfg: Config, s: State)
  {
    forall a :: 0 <= a < MEM_WORDS ==> !Edgy(cfg, Kind(s, a), s.mem[a])
  }

  ghost predicate EdgyTable(cfg: Config, mem: Memory, t: PageType, q: nat)
    requires TablePlace(t, q)
  {
    exists a :: q * 1024 <= a < q * 1024 + Span(t) && Edgy(cfg, t, mem[a])
  }

  /** The first block of the group of four that an L1 at `base` takes. */
  function L1Block(base: Word): (q: nat)
    ensures TablePlace(L1Pt, q)
  {
    base / 0x4000 * 4
  }

  /** A descriptor of the guest's table, or a reserved one put over it, is edgy. */
  ghost predicate EdgyL1(cfg: Config, s: State, base: Word)
  {
    EdgyTable(cfg, CopyMaster(cfg, s.mem, L1Block(base) * 1024), L1Pt, L1Block(base))
  }

  /** An accepted command brings such a descriptor into a table: the four ways there are. */
  ghost predicate NamesEdge(cfg: Config, s: State, op: Op)
  {
    match op
    case GuestStore(dacr, va, value) => false
    case Command(p03, p1, p2) =>
      Handle(cfg, s, p03, p1, p2).0 == SUCCESS_MMU &&
      var p0 := p03 % 16;
      if p0 == 0 then SecAp(p03 / 16) == 3 && p2 / SECTION_SIZE == 0xFFF
      else if p0 == 2 then EdgyTable(cfg, s.mem, L2Pt, p1 / PAGE_SIZE)
      else if p0 == 4 then
        && Kind(s, L2Slot(p1, p2 / 0x10_0000)) == L2Pt
        && SmallAp(p2 % 0x1000) == 3 && Edge(cfg, p03 / PAGE_SIZE)
      else if p0 == 7 then EdgyL1(cfg, s, p1)
      else false
  }

  // ---------- how the tables change ----------

  lemma OneWord(cfg: Config, s: State, a: nat, w: Word, s': State)
    requires Tame(cfg, s) && a < MEM_WORDS && s'.mem == s.mem[a := w]
    requires forall b :: 0 <= b < BLOCKS ==> s'.bft[b].typ == s.bft[b].typ
    ensures Tame(cfg, s') <==> !Edgy(cfg, Kind(s, a), w)
  {
    hide Edgy, Kind;
    SameKinds(s, s');
    assert s'.mem[a] == w;
    if !Edgy(cfg, Kind(s, a), w) {
      forall c | 0 <= c < MEM_WORDS
        ensures !Edgy(cfg, Kind(s', c), s'.mem[c])
      {
      }
    }
  }

  lemma SameWords(cfg: Config, s: State, s': State)
    requires Tame(cfg, s)
    requires forall b :: 0 <= b < BLOCKS ==> s'.bft[b].typ == s.bft[b].typ
    requires forall a :: 0 <= a < MEM_WORDS && Kind(s, a) != Data ==> s'.mem[a] == s.mem[a]
    ensures Tame(cfg, s')
  {
    hide Kind;
    SameKinds(s, s');
  }

  /** A table was added: only its own words can be edgy. */
  lemma NewTable(cfg: Config, s: State, t: PageType, q: nat, s': State)
    requires Tame(cfg, s) && TableAdded(t, q, s, s')
    requires forall b :: InTable(t, q, b) ==> s.bft[b].typ == Data
    requires forall a :: 0 <= a < MEM_WORDS && !(q * 1024 <= a < q * 1024 + Span(t)) && Kind(s, a) != Data ==>
      s'.mem[a] == s.mem[a]
    ensures Tame(cfg, s') <==> !EdgyTable(cfg, s'.mem, t, q)
  {
    hide TableRefs, Kind;
    RetypedKinds(s, s', t, q, t);
  }

  /** A table was taken away: its words are data again. */
  lemma OldTable(cfg: Config, s: State, t: PageType, q: nat, s': State)
    requires Tame(cfg, s) && TableAdded(t, q, s', s) && s'.mem == s.mem
    requires forall b :: InTable(t, q, b) ==> s'.bft[b].typ == Data
    ensures Tame(cfg, s')
  {
    hide TableRefs, Kind;
    RetypedKinds(s', s, t, q, t);
  }

  // ---------- the commands ----------

  lemma MapL1SectionTame(cfg: Config, s: State, va: Word, pa: Word, attrs: Word)
    requires Inv(cfg, s) && Tame(cfg, s)
    ensures Tame(cfg, MapL1Section(cfg, s, va, pa, attrs).1) <==>
      !(MapL1Section(cfg, s, va, pa, attrs).0 == SUCCESS_MMU && SecAp(attrs) == 3 && pa / SECTION_SIZE == 0xFFF)
  {
    hide TablesOk, Tame, L1SecCheck, CreateSecDesc, RangeOk, Kind, L1Slot, SecAp, RefOf;
    var (e, s') := MapL1Section(cfg, s, va, pa, attrs);
    if e == SUCCESS_MMU {
      L1SlotFacts(s, va);
      SecDescLayout(pa, attrs);
      SecDescFields(pa, attrs);
      OneWord(cfg, s, L1Slot(s, va), CreateSecDesc(pa, attrs), s');
    }
  }

  lemma MapL1PtTame(cfg: Config, s: State, va: Word, l2Base: Word, attrs: Word)
    requires Inv(cfg, s) && Tame(cfg, s)
    ensures Tame(cfg, MapL1Pt(cfg, s, va, l2Base, attrs).1)
  {
    hide TablesOk, Tame, MapL1Pt, L1Slot, Kind, CreatePtDesc, PtUpperHalf;
    var (e, s') := MapL1Pt(cfg, s, va, l2Base, attrs);
    MapL1PtShape(cfg, s, va, l2Base, attrs);
    if e == SUCCESS_MMU {
      L1SlotFacts(s, va);
      PtDescFields(l2Base, attrs);
      OneWord(cfg, s, L1Slot(s, va), CreatePtDesc(l2Base, attrs), s');
    } else {
      SameWords(cfg, s, s');
    }
  }

  lemma UnmapL1EntryTame(cfg: Config, s: State, va: Word)
    requires Tame(cfg, s)
    ensures Tame(cfg, UnmapL1Entry(cfg, s, va).1)
  {
    hide Tame, L1Slot, Kind, RefOf, SecIndic, UnmapDesc;
    var a := L1Slot(s, va);
    if UnmapL1Entry(cfg, s, va).0 == SUCCESS_MMU {
      UnmappedTyp(s.mem[a]);
      OneWord(cfg, s, a, UnmapDesc(s.mem[a]), UnmapL1Entry(cfg, s, va).1);
    }
  }

  lemma MapL2EntryTame(cfg: Config, s: State, l2Base: Word, idx: Word, pa: Word, attrs: Word)
    requires Inv(cfg, s) && Tame(cfg, s) && idx < 4096
    ensures Tame(cfg, MapL2Entry(cfg, s, l2Base, idx, pa, attrs).1) <==>
      !(MapL2Entry(cfg, s, l2Base, idx, pa, attrs).0 == SUCCESS_MMU && Kind(s, L2Slot(l2Base, idx)) == L2Pt
        && SmallAp(attrs) == 3 && Edge(cfg, pa / PAGE_SIZE))
  {
    hide Tame, L2SmallCheck, CreateSmallDesc, RangeOk, Kind, L2Slot, RefOf, Edge, SmallAp, Slack, WordOk, MasterKept;
    var (e, s') := MapL2Entry(cfg, s, l2Base, idx, pa, attrs);
    if e == SUCCESS_MMU {
      MapSlotKind(s, l2Base, idx);
      SmallDescFields(pa, attrs);
      OneWord(cfg, s, L2Slot(l2Base, idx), CreateSmallDesc(pa, attrs), s');
    }
  }

  lemma UnmapL2EntryTame(cfg: Config, s: State, l2Base: Word, idx: Word)
    requires Tame(cfg, s)
    ensures Tame(cfg, UnmapL2Entry(cfg, s, l2Base, idx).1)
  {
    hide Tame, L2Slot, Kind, RefOf, RangeOk, UnmapDesc;
    var a := L2Slot(l2Base, idx);
    if UnmapL2Entry(cfg, s, l2Base, idx).1 != s {
      UnmappedTyp(s.mem[a]);
      OneWord(cfg, s, a, UnmapDesc(s.mem[a]), UnmapL2Entry(cfg, s, l2Base, idx).1);
    }
  }

  lemma CreateL1Tame(cfg: Config, s: State, base: Word)
    requires Inv(cfg, s) && Tame(cfg, s)
    ensures Tame(cfg, CreateL1(cfg, s, base).1) <==>
      !(CreateL1(cfg, s, base).0 == SUCCESS_MMU && EdgyL1(cfg, s, base))
  {
    hide CreateL1, FirstError, TablesOk, Slack, SlackKept, Tame, EdgyTable, TableAdded, ActiveL1, Reserved, TableRefs;
    var (e, s') := CreateL1(cfg, s, base);
    CreateL1Keeps(cfg, s, base);
    if e == SUCCESS_MMU || s' != s {
      CreateL1Shape(cfg, s, base);
      var q := base / PAGE_SIZE;
      assert q == L1Block(base);
      FourInTable(s.bft, q, Data);
      CopiedInData(cfg, s, q);
      assert s'.mem == CopyMaster(cfg, s.mem, q * 1024);
      if e == SUCCESS_MMU {
        NewTable(cfg, s, L1Pt, q, s');
      } else {
        SameWords(cfg, s, s');
      }
    }
  }

  lemma CopiedInData(cfg: Config, s: State, q: nat)
    requires TablePlace(L1Pt, q) && forall b :: InTable(L1Pt, q, b) ==> s.bft[b].typ == Data
    ensures forall a :: 0 <= a < MEM_WORDS && Kind(s, a) != Data ==>
      CopyMaster(cfg, s.mem, q * 1024)[a] == s.mem[a]
  {
    hide Reserved;
    forall a | 0 <= a < MEM_WORDS && Kind(s, a) != Data
      ensures CopyMaster(cfg, s.mem, q * 1024)[a] == s.mem[a]
    {
      assert !InTable(L1Pt, q, a / 1024);
    }
  }

  lemma InvTables(cfg: Config, s: State)
    requires Inv(cfg, s)
    ensures TablesOk(cfg, s)
  {
  }

  lemma CreateL2Tame(cfg: Config, s: State, base: Word)
    requires Inv(cfg, s) && Tame(cfg, s)
    ensures Tame(cfg, CreateL2(cfg, s, base).1) <==>
      !(CreateL2(cfg, s, base).0 == SUCCESS_MMU && EdgyTable(cfg, s.mem, L2Pt, base / PAGE_SIZE))
  {
    hide CreateL2, FirstError, Inv, TablesOk, Slack, SlackKept, Tame, EdgyTable, TableAdded, Grouped, Retyped;
    FailuresKeep(cfg, s, base);
    InvGrouped(cfg, s);
    InvTables(cfg, s);
    MemKept(cfg, s, base);
    var (e, s') := CreateL2(cfg, s, base);
    CreateL2Keeps(cfg, s, base);
    if e == SUCCESS_MMU {
      CreateL2Shape(cfg, s, base);
      NewTable(cfg, s, L2Pt, base / PAGE_SIZE, s');
    }
  }

  lemma UnmapL1Tame(cfg: Config, s: State, base: Word)
    requires Inv(cfg, s) && Tame(cfg, s)
    ensures Tame(cfg, UnmapL1(cfg, s, base).1)
  {
    hide UnmapL1, UnmapL2, CreateL2, SwitchMm, Inv, TablesOk, Slack, SlackKept, Tame, TableAdded, ActiveL1, Retyped;
    FailuresKeep(cfg, s, base);
    MemKept(cfg, s, base);
    InvTables(cfg, s);
    UnmapL1Keeps(cfg, s, base);
    if UnmapL1(cfg, s, base).0 == SUCCESS_MMU {
      UnmapL1Shape(cfg, s, base);
      assert base / PAGE_SIZE == L1Block(base);
      FourInTable(UnmapL1(cfg, s, base).1.bft, base / PAGE_SIZE, Data);
      OldTable(cfg, s, L1Pt, base / PAGE_SIZE, UnmapL1(cfg, s, base).1);
    }
  }

  lemma FreedTame(cfg: Config, s: State, base: Word)
    requires Inv(cfg, s) && Tame(cfg, s)
    ensures Tame(cfg, UnmapL2(cfg, s, base).1) && Tame(cfg, SwitchMm(cfg, s, base).1)
  {
    hide UnmapL1, UnmapL2, CreateL2, SwitchMm, Inv, TablesOk, Slack, SlackKept, Tame, TableAdded, ActiveL1, Retyped;
    FailuresKeep(cfg, s, base);
    MemKept(cfg, s, base);
    InvTables(cfg, s);
    UnmapL2Keeps(cfg, s, base);
    SameWords(cfg, s, SwitchMm(cfg, s, base).1);
    if UnmapL2(cfg, s, base).0 == SUCCESS_MMU {
      OldTable(cfg, s, L2Pt, base / PAGE_SIZE, UnmapL2(cfg, s, base).1);
    }
  }

  lemma MemKept(cfg: Config, s: State, base: Word)
    ensures UnmapL1(cfg, s, base).1.mem == s.mem && UnmapL2(cfg, s, base).1.mem == s.mem
    ensures CreateL2(cfg, s, base).1.mem == s.mem && SwitchMm(cfg, s, base).1.mem == s.mem
  {
    hide RangeOk, InsideCached, FirstError, AddRefs, DropRefs, Retype;
  }

  // ---------- runs ----------

  /** A step keeps such descriptors out of the tables exactly when it does not bring one in. */
  lemma StepTame(cfg: Config, s: State, op: Op)
    requires Inv(cfg, s) && GuestModes(op) && Tame(cfg, s)
    ensures Tame(cfg, Step(cfg, s, op)) <==> !NamesEdge(cfg, s, op)
  {
    hide TablesOk, MapL1Section, UnmapL1Entry, CreateL2, MapL1Pt, MapL2Entry, UnmapL2Entry, UnmapL2,
      CreateL1, SwitchMm, UnmapL1, ActiveL1, ClientOnly, Store, Kind, L2Slot, Edge, EdgyTable, EdgyL1,
      Tame;
    match op
    case GuestStore(dacr, va, value) =>
      StoreKeeps(cfg, s, dacr, va, value);
      StoredTame(cfg, s, Step(cfg, s, op));
    case Command(p03, p1, p2) =>
      var p0 := p03 % 16;
      if p0 == 0 {
        MapL1SectionTame(cfg, s, p1, p2, p03 / 16);
      } else if p0 == 1 {
        UnmapL1EntryTame(cfg, s, p1);
      } else if p0 == 2 {
        CreateL2Tame(cfg, s, p1);
      } else if p0 == 3 {
        MapL1PtTame(cfg, s, p1, p2, p03 / 16);
      } else if p0 == 4 {
        MapL2EntryTame(cfg, s, p1, p2 / 0x10_0000, p03 - p03 % 16, p2 % 0x1000);
        assert (p03 - p03 % 16) / PAGE_SIZE == p03 / PAGE_SIZE;
      } else if p0 == 5 {
        UnmapL2EntryTame(cfg, s, p1, p2);
      } else if p0 == 7 {
        CreateL1Tame(cfg, s, p1);
      } else if p0 == 9 {
        UnmapL1Tame(cfg, s, p1);
      } else {
        FreedTame(cfg, s, p1);
      }
  }

  lemma StoredTame(cfg: Config, s: State, s': State)
    requires Tame(cfg, s) && TablesUntouched(s, s')
    ensures Tame(cfg, s')
  {
    SameWords(cfg, s, s');
  }

  /** No step of the run brings in a descriptor for an edge page. */
  ghost predicate QuietRun(cfg: Config, s: State, ops: seq<Op>)
    decreases |ops|
  {
    ops == [] || (!NamesEdge(cfg, s, ops[0]) && QuietRun(cfg, Step(cfg, s, ops[0]), ops[1..]))
  }

  /** Over a harmless run no table ever holds such a descriptor exactly when no step brings one in. */
  lemma {:induction false} RunTame(cfg: Config, s: State, ops: seq<Op>)
    requires Inv(cfg, s) && Tame(cfg, s) && HarmlessRun(cfg, s, ops)
    requires forall k :: 0 <= k < |ops| ==> GuestModes(ops[k])
    ensures (forall k :: 0 <= k <= |ops| ==> Tame(cfg, Run(cfg, s, ops[..k]))) <==> QuietRun(cfg, s, ops)
    decreases |ops|
  {
    hide Inv, Slack, Step, Excess, GuestModes, Harmless, Tame, NamesEdge;
    if ops == [] {
      assert ops[..0] == [];
    } else {
      var t, rest := Step(cfg, s, ops[0]), ops[1..];
      StepKeeps(cfg, s, ops[0]);
      StepTame(cfg, s, ops[0]);
      forall k | 0 < k <= |ops|
        ensures Run(cfg, s, ops[..k]) == Run(cfg, t, rest[..k - 1])
      {
        assert ops[..k][1..] == rest[..k - 1];
      }
      assert ops[..0] == [] && rest[..0] == [];
      if Tame(cfg, t) {
        RunTame(cfg, t, rest);
        forall k | 0 <= k <= |rest|
          ensures Run(cfg, t, rest[..k]) == Run(cfg, s, ops[..k + 1])
        {
        }
      } else {
        assert Run(cfg, s, ops[..1]) == t;
      }
    }
  }

  /** Through tables without such a descriptor a user store lands in guest memory. */
  lemma TameStore(cfg: Config, s: State, dacr: Word, va: Word)
    requires Inv(cfg, s) && Tame(cfg, s) && ClientOnly(dacr) && GuestEnd(cfg) < WORD_LIMIT
    requires forall d :: 0 <= d < 16 && AcField(dacr, d) != 0 ==> DomainGranted(cfg, d)
    requires Translate(s, dacr, va).Some?
    ensures InGuest(cfg, Translate(s, dacr, va).value)
  {
    hide Inv, Translate, DomainGranted, AcField, Kind, ClientOnly;
    var pa := Translate(s, dacr, va).value;
    StoreConfined(cfg, s, dacr, va);
    var a := StoreReaches(cfg, s, dacr, va);
    assert !Edgy(cfg, Kind(s, a), s.mem[a]);
    Bits.DivDiv(pa, 0x1000, 256);
  }

  /**
    From a sound state without such descriptors, at every point of a harmless
    run whose commands bring none in, a guest store stays in guest memory.
  */
  lemma RunConfined(cfg: Config, s: State, ops: seq<Op>, dacr: Word, va: Word)
    requires Inv(cfg, s) && Tame(cfg, s) && HarmlessRun(cfg, s, ops) && QuietRun(cfg, s, ops)
    requires forall k :: 0 <= k < |ops| ==> GuestModes(ops[k])
    requires ClientOnly(dacr) && GuestEnd(cfg) < WORD_LIMIT
    requires forall d :: 0 <= d < 16 && AcField(dacr, d) != 0 ==> DomainGranted(cfg, d)
    requires Translate(Run(cfg, s, ops), dacr, va).Some?
    ensures InGuest(cfg, Translate(Run(cfg, s, ops), dacr, va).value)
  {
    hide Inv, Slack, Step, HarmlessRun, QuietRun, GuestModes, Run, Excesses, Tame, Translate, DomainGranted, AcField,
      ClientOnly;
    RunKeeps(cfg, s, ops);
    RunTame(cfg, s, ops);
    assert ops[..|ops|] == ops;
    TameStore(cfg, Run(cfg, s, ops), dacr, va);
  }
}
