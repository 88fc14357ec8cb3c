/** Round trips, confinement to guest memory, and start-up. */
module DmmuResults {
  import opened DmmuState
  import opened DmmuCommands
  import opened DmmuCounting
  import opened DmmuInvariant
  import opened DmmuTables
  import opened DmmuSafety
  import opened DmmuRuns

  // ---------- creating and freeing a table ----------

  lemma {:induction false} StoresLeaveTables(cfg: Config, s: State, ops: seq<Op>)
    requires Inv(cfg, s)
    requires forall k :: 0 <= k < |ops| ==> ops[k].GuestStore? && GuestModes(ops[k])
    ensures TablesUntouched(s, Run(cfg, s, ops))
    ensures Inv(cfg, Run(cfg, s, ops))
    decreases |ops|
  {
    hide Inv, Slack, Step, Excess, GuestModes;
    if ops == [] {
    } else {
      StepKeeps(cfg, s, ops[0]);
      StoresLeaveTables(cfg, Step(cfg, s, ops[0]), ops[1..]);
    }
  }

  /** The same table was added to `s`, and to `r`: then `s` and `r` have the same block table. */
  lemma AddedOnce(t: PageType, q: nat, s: State, s1: State, r: State, s2: State)
    requires TableAdded(t, q, s, s1) && TableAdded(t, q, r, s2)
    requires TablesUntouched(s1, s2) && t != Data
    requires forall b :: InTable(t, q, b) ==> s.bft[b].typ == r.bft[b].typ
    ensures r.bft == s.bft
  {
    hide TableRefs;
    var lo, hi := q * 1024, q * 1024 + Span(t);
    forall a | lo <= a < hi
      ensures s1.mem[a] == s2.mem[a]
    {
      assert InTable(t, q, a / 1024);
    }
    forall b | 0 <= b < BLOCKS
      ensures r.bft[b] == s.bft[b]
    {
      TableRefsSame(s1.mem, s2.mem, t, lo, hi, b);
    }
  }

  /** An L1 that was created can be freed after any guest stores, and every type and count is as before. */
  lemma L1RoundTrip(cfg: Config, s: State, base: Word, ops: seq<Op>)
    requires Inv(cfg, s) && CreateL1(cfg, s, base).0 == SUCCESS_MMU
    requires forall k :: 0 <= k < |ops| ==> ops[k].GuestStore? && GuestModes(ops[k])
    ensures var s2 := Run(cfg, CreateL1(cfg, s, base).1, ops);
      UnmapL1(cfg, s2, base).0 == SUCCESS_MMU && UnmapL1(cfg, s2, base).1.bft == s.bft
  {
    hide TablesOk, Slack, SlackKept, Run, GuestModes, RangeOk, InsideCached, FirstError, TableRefs, Retyped;
    CreateL1Shape(cfg, s, base);
    CreateL1Keeps(cfg, s, base);
    var p := base / PAGE_SIZE;
    var s1 := CreateL1(cfg, s, base).1;
    StoresLeaveTables(cfg, s1, ops);
    var s2 := Run(cfg, s1, ops);
    assert p == base / 0x4000 * 4 && s.ttbr / PAGE_SIZE == s.ttbr / 0x4000 * 4;
    assert FourOfType(s2.bft, p, L1Pt);
    L1Freed(cfg, s, base, s1, s2);
  }

  lemma L1Freed(cfg: Config, s: State, base: Word, s1: State, s2: State)
    requires TablesOk(cfg, s2) && base % 0x4000 == 0
    requires RangeOk(cfg, base, 4 * PAGE_SIZE) && s2.ttbr / 0x4000 != base / 0x4000
    requires FourOfType(s.bft, base / PAGE_SIZE, Data) && FourOfType(s2.bft, base / PAGE_SIZE, L1Pt)
    requires TableAdded(L1Pt, base / PAGE_SIZE, s, s1) && TablesUntouched(s1, s2)
    ensures UnmapL1(cfg, s2, base).0 == SUCCESS_MMU && UnmapL1(cfg, s2, base).1.bft == s.bft
  {
    hide TablesOk, Slack, SlackKept, RangeOk, TableRefs, TableAdded, TablesUntouched, ActiveL1;
    var p := base / PAGE_SIZE;
    assert p % 4 == 0;
    UnmapL1Keeps(cfg, s2, base);
    var s3 := UnmapL1(cfg, s2, base).1;
    FourInTable(s.bft, p, Data);
    FourInTable(s3.bft, p, Data);
    AddedOnce(L1Pt, p, s, s1, s3, s2);
  }

  /** The same for an L2 that no L1 refers to. */
  lemma L2RoundTrip(cfg: Config, s: State, base: Word, ops: seq<Op>)
    requires Inv(cfg, s) && CreateL2(cfg, s, base).0 == SUCCESS_MMU
    requires forall k :: 0 <= k < |ops| ==> ops[k].GuestStore? && GuestModes(ops[k])
    ensures var s2 := Run(cfg, CreateL2(cfg, s, base).1, ops);
      UnmapL2(cfg, s2, base).0 == SUCCESS_MMU && UnmapL2(cfg, s2, base).1.bft == s.bft
  {
    hide TablesOk, Slack, SlackKept, Run, GuestModes, RangeOk, InsideCached, FirstError, TableRefs, Retyped;
    var q := base / PAGE_SIZE;
    assert Grouped(s.bft) by { InvGrouped(cfg, s); }
    CreateL2Shape(cfg, s, base);
    CreateL2Keeps(cfg, s, base);
    var s1 := CreateL2(cfg, s, base).1;
    StoresLeaveTables(cfg, s1, ops);
    var s2 := Run(cfg, s1, ops);
    OwnCount(cfg, s, base);
    L2Freed(cfg, s, base, s1, s2);
  }

  lemma InvGrouped(cfg: Config, s: State)
    requires Inv(cfg, s)
    ensures Grouped(s.bft)
  {
  }

  /** A fresh L2 does not refer to its own block. */
  lemma OwnCount(cfg: Config, s: State, base: Word)
    requires base % PAGE_SIZE == 0 && s.bft[base / PAGE_SIZE].refcnt == 0
    requires FirstError(cfg, s.mem, s.bft, L2Pt, base / PAGE_SIZE * 1024, 512, base) == SUCCESS_MMU
    ensures TableRefs(s.mem, L2Pt, base / PAGE_SIZE * 1024, base / PAGE_SIZE * 1024 + 512, base / PAGE_SIZE) == 0
  {
    hide StaticOk, RefOf, FirstError, L2Check, Reserved, Target, TableRefs, TargetsOk;
    var q := base / PAGE_SIZE;
    assert base / 4 == q * 1024;
    L2Admissible(cfg, s, base);
    forall a | q * 1024 <= a < q * 1024 + 512
      ensures RefOf(L2Pt, s.mem[a], q) == 0
    {
      assert RefOf(L2Pt, s.mem[a], q) == 1 ==> !InTable(L2Pt, q, q);
    }
    TableRefsNone(s.mem, L2Pt, q * 1024, q * 1024 + 512, q);
  }

  lemma L2Freed(cfg: Config, s: State, base: Word, s1: State, s2: State)
    requires TablesOk(cfg, s2) && base % PAGE_SIZE == 0 && RangeOk(cfg, base, PAGE_SIZE)
    requires s.bft[base / PAGE_SIZE].typ == Data && s.bft[base / PAGE_SIZE].refcnt == 0
    requires TableAdded(L2Pt, base / PAGE_SIZE, s, s1) && TablesUntouched(s1, s2)
    requires TableRefs(s1.mem, L2Pt, base / PAGE_SIZE * 1024, base / PAGE_SIZE * 1024 + 512, base / PAGE_SIZE) == 0
    ensures UnmapL2(cfg, s2, base).0 == SUCCESS_MMU && UnmapL2(cfg, s2, base).1.bft == s.bft
  {
    hide TablesOk, Slack, SlackKept, RangeOk, TableRefs;
    var q := base / PAGE_SIZE;
    assert s2.bft[q].typ == L2Pt && s2.bft[q].refcnt == 0;
    UnmapL2Keeps(cfg, s2, base);
    AddedOnce(L2Pt, q, s, s1, UnmapL2(cfg, s2, base).1, s2);
  }

  // ---------- confinement ----------

  function GuestEnd(cfg: Config): int { cfg.pstart + cfg.psize + SECTION_SIZE }

  predicate InGuest(cfg: Config, pa: Word)
  {
    cfg.pstart <= pa < GuestEnd(cfg)
  }

  /**
    The range check means containment in guest memory, or a range that runs past
    the end of the address space and wraps to below the end of guest memory.
  */
  lemma RangeExact(cfg: Config, pa: Word, size: Word)
    requires size > 0 && GuestEnd(cfg) < WORD_LIMIT
    ensures RangeOk(cfg, pa, size) <==>
      && cfg.pstart <= pa
      && (pa + size <= GuestEnd(cfg)
        || WORD_LIMIT <= pa + size <= WORD_LIMIT + GuestEnd(cfg))
  {
  }

  /** The last page passes the check for every guest below it. */
  lemma RangeWraps(cfg: Config)
    requires cfg.pstart <= 0xFFFF_F000 && GuestEnd(cfg) < WORD_LIMIT
    ensures RangeOk(cfg, 0xFFFF_F000, PAGE_SIZE)
    ensures InGuest(cfg, 0xFFFF_F000) <==> GuestEnd(cfg) > 0xFFFF_F000
  {
    RangeExact(cfg, 0xFFFF_F000, PAGE_SIZE);
  }

  /**
    Under the domains of the kernel and task modes, a user store lands in guest
    memory exactly when it is not to the last section of the address space,
    where the check wraps, or the guest's memory reaches that far.
  */
  lemma StoreConfined(cfg: Config, s: State, dacr: Word, va: Word)
    requires Inv(cfg, s) && ClientOnly(dacr)
    requires GuestEnd(cfg) < WORD_LIMIT
    requires forall d :: 0 <= d < 16 && AcField(dacr, d) != 0 ==> DomainGranted(cfg, d)
    requires Translate(s, dacr, va).Some?
    ensures var pa := Translate(s, dacr, va).value;
      InGuest(cfg, pa) <==> pa / SECTION_SIZE != 0xFFF || pa < GuestEnd(cfg)
  {
    hide Translate, Refs, MasterKept, Grouped, IntersectsCached, DomainGranted, AcField, Slack, RangeOk;
    var pa := Translate(s, dacr, va).value;
    var a := StoreReaches(cfg, s, dacr, va);
    assert WordOk(cfg, s, a);
    var w := s.mem[a];
    if Kind(s, a) == L2Pt {
      RangeExact(cfg, SmallBlock(w) * PAGE_SIZE, PAGE_SIZE);
      assert pa / 0x1000 == SmallBlock(w);
    } else {
      RangeExact(cfg, SecAddr(w) * SECTION_SIZE, SECTION_SIZE);
      Bits.DivDiv(pa, 0x1000, 256);
      assert pa / 0x10_0000 == SecAddr(w);
    }
  }

  // ---------- start-up ----------

  /** Before the first table exists: only data blocks and pinned L2 blocks that refer to nothing. */
  lemma BootTables(cfg: Config, s: State)
    requires forall b :: 0 <= b < BLOCKS ==> s.bft[b].typ == Data || s.bft[b].typ == L2Pt
    requires forall a :: 0 <= a < MEM_WORDS && Kind(s, a) == L2Pt ==>
      StaticOk(cfg, L2Pt, s.mem[a]) && forall b :: RefOf(L2Pt, s.mem[a], b) == 0
    ensures TablesOk(cfg, s)
  {
    hide RefOf, Refs, Reserved;
    forall b | 0 <= b < BLOCKS
      ensures Slack(s, b) == s.bft[b].refcnt
    {
      BootRefs(s, b);
    }
    forall a | 0 <= a < MEM_WORDS
      ensures WordOk(cfg, s, a)
    {
      if Kind(s, a) != L2Pt {
        DataWordOk(cfg, s, a);
      }
    }
  }

  lemma BootRefs(s: State, b: int)
    requires forall b :: 0 <= b < BLOCKS ==> s.bft[b].typ == Data || s.bft[b].typ == L2Pt
    requires forall a :: 0 <= a < MEM_WORDS && Kind(s, a) == L2Pt ==> RefOf(L2Pt, s.mem[a], b) == 0
    ensures Refs(s, 0, MEM_WORDS, b) == 0
  {
    hide Refs;
    RefsNone(s, 0, MEM_WORDS, b);
  }

  /** TTBR0 is set before the first L1 is validated; once that succeeds the invariant holds. */
  lemma BootEstablishes(cfg: Config, s: State, base: Word)
    requires TablesOk(cfg, s) && s.ttbr == base
    requires CreateL1(cfg, s, base).0 == SUCCESS_MMU
    ensures Inv(cfg, CreateL1(cfg, s, base).1)
  {
    hide TablesOk, Slack, SlackKept, RangeOk, InsideCached, FirstError, TableRefs, Retyped;
    CreateL1Shape(cfg, s, base);
    CreateL1Keeps(cfg, s, base);
  }
}
