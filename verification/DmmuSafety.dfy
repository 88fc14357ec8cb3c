/**
  The commands that create and free whole tables keep the invariant: what each
  has looked at when it succeeds, and what it then does to the counts.
*/
module DmmuSafety {
  import opened DmmuState
  import opened DmmuCommands
  import opened DmmuCounting
  import opened DmmuInvariant
  import opened DmmuTables

  lemma FourInTable(bft: Bft, p: nat, t: PageType)
    requires p + 4 <= BLOCKS && p % 4 == 0 && FourOfType(bft, p, t)
    ensures forall b :: InTable(L1Pt, p, b) ==> bft[b].typ == t
  {
  }

  /** What a successful creation of an L1 has established, and what it does. */
  lemma CreateL1Shape(cfg: Config, s: State, base: Word)
    requires CreateL1(cfg, s, base).1 != s || CreateL1(cfg, s, base).0 == SUCCESS_MMU
    ensures base % 0x4000 == 0 && CreatedL1(cfg, s, base / PAGE_SIZE, base, CreateL1(cfg, s, base))
  {
    hide AddRefs, Retype, Retyped, RangeOk, InsideCached, FirstError, CopyMaster;
    if base % 0x4000 == 0 {
      var p := base / PAGE_SIZE;
      AddedIsRetyped(s.(mem := CopyMaster(cfg, s.mem, p * 1024)), L1Pt, p);
    }
  }

  /** An L1 at block `p` was looked at, and created if the code says so. */
  ghost predicate CreatedL1(cfg: Config, s: State, p: nat, base: Word, result: (int, State))
  {
    && TablePlace(L1Pt, p) && FourOfType(s.bft, p, Data) && FourUnreferenced(s.bft, p)
    && var (e, s') := result;
       var s1 := s.(mem := CopyMaster(cfg, s.mem, p * 1024));
       && (e != SUCCESS_MMU ==> s' == s1)
       && (e == SUCCESS_MMU ==>
         && FirstError(cfg, s1.mem, s1.bft, L1Pt, p * 1024, 4096, base) == SUCCESS_MMU
         && Retyped(s1, L1Pt, p, L1Pt, true, s'))
  }

  lemma SlackChain(s: State, s1: State, s2: State)
    ensures SlackKept(s, s)
    ensures SlackKept(s, s1) && SlackKept(s1, s2) ==> SlackKept(s, s2)
  {
  }

  lemma CreateL1Keeps(cfg: Config, s: State, base: Word)
    requires TablesOk(cfg, s)
    ensures TablesOk(cfg, CreateL1(cfg, s, base).1) && SlackKept(s, CreateL1(cfg, s, base).1)
    ensures ActiveL1(s) ==> ActiveL1(CreateL1(cfg, s, base).1)
    ensures CreateL1(cfg, s, base).0 == SUCCESS_MMU ==>
      TableAdded(L1Pt, base / PAGE_SIZE, s, CreateL1(cfg, s, base).1)
  {
    hide CreateL1, CopyMaster, TableRefs, FirstError, WordOk, TablesOk, Slack, SlackKept, Admissible;
    var (e, s') := CreateL1(cfg, s, base);
    if s' != s || e == SUCCESS_MMU {
      CreateL1Shape(cfg, s, base);
      var p := base / PAGE_SIZE;
      var s1 := s.(mem := CopyMaster(cfg, s.mem, p * 1024));
      assert p % 4 == 0 && base / 4 == p * 1024;
      FourInTable(s.bft, p, Data);
      CopyMasterKeeps(cfg, s, p, s1);
      if e == SUCCESS_MMU {
        L1Admissible(cfg, s1, p, base);
        FourUnreferencedIn(s.bft, p);
        AddTable(cfg, s1, L1Pt, p, s');
        SlackChain(s, s1, s');
      }
    } else {
      SlackChain(s, s, s);
    }
  }

  lemma FourUnreferencedIn(bft: Bft, p: nat)
    requires p + 4 <= BLOCKS && FourUnreferenced(bft, p)
    ensures forall b :: InTable(L1Pt, p, b) ==> bft[b].refcnt == 0
  {
  }

  lemma CopyMasterKeeps(cfg: Config, s: State, p: nat, s1: State)
    requires TablesOk(cfg, s) && p + 4 <= BLOCKS && p % 4 == 0
    requires forall b :: InTable(L1Pt, p, b) ==> s.bft[b].typ == Data
    requires s1 == s.(mem := CopyMaster(cfg, s.mem, p * 1024))
    ensures TablesOk(cfg, s1) && SlackKept(s, s1)
    ensures forall a :: p * 1024 <= a < p * 1024 + 4096 && Reserved(cfg, a % 4096) ==>
      s1.mem[a] == cfg.master[a % 4096]
  {
    hide StaticOk, RefOf, Target, Refs, WordOk, Slack;
    forall a | 0 <= a < MEM_WORDS && Kind(s, a) != Data
      ensures s1.mem[a] == s.mem[a]
    {
      assert !InTable(L1Pt, p, a / 1024);
    }
    WriteData(cfg, s, s1);
  }

  /** A table whose every descriptor passed the first-level checks may be counted and typed. */
  lemma L1Admissible(cfg: Config, s: State, p: nat, base: Word)
    requires TablePlace(L1Pt, p) && base == p * PAGE_SIZE && FourOfType(s.bft, p, Data)
    requires FirstError(cfg, s.mem, s.bft, L1Pt, p * 1024, 4096, base) == SUCCESS_MMU
    requires forall a :: p * 1024 <= a < p * 1024 + 4096 && Reserved(cfg, a % 4096) ==>
      s.mem[a] == cfg.master[a % 4096]
    ensures Admissible(cfg, s, L1Pt, p)
  {
    hide StaticOk, RefOf, FirstError, L1Check, Reserved;
    FourInTable(s.bft, p, Data);
    forall a | p * 1024 <= a < p * 1024 + 4096
      ensures StaticOk(cfg, L1Pt, s.mem[a]) && TargetsOk(s.bft, L1Pt, s.mem[a])
      ensures forall b :: 0 <= b < BLOCKS && RefOf(L1Pt, s.mem[a], b) == 1 ==>
        s.bft[b].refcnt < MAX_30BIT - 4096 && !InTable(L1Pt, p, b)
    {
      FirstErrorOk(cfg, s.mem, s.bft, L1Pt, p * 1024, 4096, base, a - p * 1024);
      L1CheckOk(cfg, s.bft, s.mem[a], base);
      forall b | 0 <= b < BLOCKS && RefOf(L1Pt, s.mem[a], b) == 1
        ensures !InTable(L1Pt, p, b)
      {
        if b / 4 != p / 4 {
          assert !InTable(L1Pt, p, b);
        }
      }
    }
  }

  lemma UnmapL1Shape(cfg: Config, s: State, base: Word)
    requires UnmapL1(cfg, s, base).0 == SUCCESS_MMU
    ensures base % 0x4000 == 0 && FreedL1(s, base / PAGE_SIZE, base, UnmapL1(cfg, s, base).1)
  {
    hide DropRefs, Retype, Retyped, RangeOk;
    DroppedIsRetyped(s, L1Pt, base / PAGE_SIZE);
  }

  /** The inactive L1 at block `p` was freed. */
  ghost predicate FreedL1(s: State, p: nat, base: Word, s': State)
  {
    && TablePlace(L1Pt, p) && FourOfType(s.bft, p, L1Pt) && s.ttbr / 0x4000 != base / 0x4000
    && Retyped(s, L1Pt, p, Data, false, s')
  }

  /** Freeing an L1 is the converse of adding it. */
  lemma UnmapL1Keeps(cfg: Config, s: State, base: Word)
    requires TablesOk(cfg, s)
    ensures TablesOk(cfg, UnmapL1(cfg, s, base).1) && SlackKept(s, UnmapL1(cfg, s, base).1)
    ensures ActiveL1(s) ==> ActiveL1(UnmapL1(cfg, s, base).1)
    ensures UnmapL1(cfg, s, base).0 == SUCCESS_MMU ==>
      && TableAdded(L1Pt, base / PAGE_SIZE, UnmapL1(cfg, s, base).1, s)
      && FourOfType(UnmapL1(cfg, s, base).1.bft, base / PAGE_SIZE, Data)
  {
    hide TableRefs, RangeOk, WordOk, TablesOk, Slack, SlackKept;
    var (e, s') := UnmapL1(cfg, s, base);
    if e == SUCCESS_MMU {
      hide UnmapL1;
      UnmapL1Shape(cfg, s, base);
      var p := base / PAGE_SIZE;
      assert p % 4 == 0 && p == base / 0x4000 * 4;
      FourInTable(s.bft, p, L1Pt);
      RemoveTable(cfg, s, L1Pt, p, s');
      if ActiveL1(s) {
        assert s.ttbr / PAGE_SIZE == s.ttbr / 0x4000 * 4;
      }
    } else {
      SlackChain(s, s, s);
    }
  }

  lemma CreateL2Shape(cfg: Config, s: State, base: Word)
    requires Grouped(s.bft) && CreateL2(cfg, s, base).0 == SUCCESS_MMU
    ensures base % PAGE_SIZE == 0
    ensures s.bft[base / PAGE_SIZE].typ == Data && s.bft[base / PAGE_SIZE].refcnt == 0
    ensures FirstError(cfg, s.mem, s.bft, L2Pt, base / PAGE_SIZE * 1024, 512, base) == SUCCESS_MMU
    ensures Retyped(s, L2Pt, base / PAGE_SIZE, L2Pt, true, CreateL2(cfg, s, base).1)
  {
    hide AddRefs, Retype, Retyped, RangeOk, InsideCached, FirstError;
    AddedIsRetyped(s, L2Pt, base / PAGE_SIZE);
  }

  lemma CreateL2Keeps(cfg: Config, s: State, base: Word)
    requires TablesOk(cfg, s)
    ensures TablesOk(cfg, CreateL2(cfg, s, base).1) && SlackKept(s, CreateL2(cfg, s, base).1)
    ensures ActiveL1(s) ==> ActiveL1(CreateL2(cfg, s, base).1)
    ensures CreateL2(cfg, s, base).0 == SUCCESS_MMU ==>
      TableAdded(L2Pt, base / PAGE_SIZE, s, CreateL2(cfg, s, base).1)
  {
    hide TableRefs, RangeOk, InsideCached, FirstError, WordOk, Slack, SlackKept, MasterKept;
    var (e, s') := CreateL2(cfg, s, base);
    if e == SUCCESS_MMU {
      hide CreateL2;
      CreateL2Shape(cfg, s, base);
      var q := base / PAGE_SIZE;
      assert base / 4 == q * 1024;
      L2Admissible(cfg, s, base);
      AddTable(cfg, s, L2Pt, q, s');
    } else {
      SlackChain(s, s, s);
    }
  }

  lemma L2Admissible(cfg: Config, s: State, base: Word)
    requires base % PAGE_SIZE == 0
    requires FirstError(cfg, s.mem, s.bft, L2Pt, base / 4, 512, base) == SUCCESS_MMU
    ensures Admissible(cfg, s, L2Pt, base / PAGE_SIZE)
  {
    hide StaticOk, RefOf, FirstError, L2Check, Reserved, Target;
    var q := base / PAGE_SIZE;
    forall a | q * 1024 <= a < q * 1024 + 512
      ensures StaticOk(cfg, L2Pt, s.mem[a]) && TargetsOk(s.bft, L2Pt, s.mem[a])
      ensures forall b :: 0 <= b < BLOCKS && RefOf(L2Pt, s.mem[a], b) == 1 ==>
        s.bft[b].refcnt < MAX_30BIT - 512 && !InTable(L2Pt, q, b)
    {
      FirstErrorOk(cfg, s.mem, s.bft, L2Pt, base / 4, 512, base, a - base / 4);
      L2CheckOk(cfg, s.bft, s.mem[a], base);
    }
  }

  lemma UnmapL2Shape(cfg: Config, s: State, base: Word)
    requires UnmapL2(cfg, s, base).0 == SUCCESS_MMU
    ensures base % PAGE_SIZE == 0
    ensures s.bft[base / PAGE_SIZE].typ == L2Pt && s.bft[base / PAGE_SIZE].refcnt == 0
    ensures Retyped(s, L2Pt, base / PAGE_SIZE, Data, false, UnmapL2(cfg, s, base).1)
  {
    hide DropRefs, Retype, Retyped, RangeOk;
    DroppedIsRetyped(s, L2Pt, base / PAGE_SIZE);
  }

  lemma UnmapL2Keeps(cfg: Config, s: State, base: Word)
    requires TablesOk(cfg, s)
    ensures TablesOk(cfg, UnmapL2(cfg, s, base).1) && SlackKept(s, UnmapL2(cfg, s, base).1)
    ensures ActiveL1(s) ==> ActiveL1(UnmapL2(cfg, s, base).1)
    ensures UnmapL2(cfg, s, base).0 == SUCCESS_MMU ==>
      && TableAdded(L2Pt, base / PAGE_SIZE, UnmapL2(cfg, s, base).1, s)
      && UnmapL2(cfg, s, base).1.bft[base / PAGE_SIZE].typ == Data
  {
    hide TableRefs, RangeOk, WordOk, TablesOk, Slack, SlackKept;
    var (e, s') := UnmapL2(cfg, s, base);
    if e == SUCCESS_MMU {
      hide UnmapL2;
      UnmapL2Shape(cfg, s, base);
      RemoveTable(cfg, s, L2Pt, base / PAGE_SIZE, s');
    } else {
      SlackChain(s, s, s);
    }
  }

  lemma FailuresKeep(cfg: Config, s: State, base: Word)
    ensures UnmapL1(cfg, s, base).0 != SUCCESS_MMU ==> UnmapL1(cfg, s, base).1 == s
    ensures CreateL2(cfg, s, base).0 != SUCCESS_MMU ==> CreateL2(cfg, s, base).1 == s
    ensures UnmapL2(cfg, s, base).0 != SUCCESS_MMU ==> UnmapL2(cfg, s, base).1 == s
    ensures SwitchMm(cfg, s, base).1.bft == s.bft
  {
    hide RangeOk, InsideCached, FirstError, AddRefs, DropRefs, Retype;
  }
}
