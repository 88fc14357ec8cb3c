/**
  The 30-bit reference counts: which commands can carry a count past an end of
  its field.  A command counts or uncounts at most 4096 references to a block,
  so a count that moved further has wrapped around.
*/
module DmmuOverflow {
  import opened DmmuState
  import opened DmmuCommands
  import opened DmmuCounting
  import opened DmmuInvariant
  import opened DmmuTables
  import opened DmmuIndices
  import opened DmmuSafety
  import opened DmmuRuns

  /** The count of `b` went through an end of its field. */
  predicate Wrapped(s: State, s': State, b: int)
    requires 0 <= b < BLOCKS
  {
    var moved := s'.bft[b].refcnt - s.bft[b].refcnt;
    moved < -4096 || moved > 4096
  }

  /**
    Unmapping takes a word that no second-level translation reads as a writable
    small page of `b`, whose count is zero.
  */
  predicate TakesUncounted(cfg: Config, s: State, l2Base: Word, idx: Word, b: int)
    requires 0 <= b < BLOCKS
  {
    var a := L2Slot(l2Base, idx);
    && RangeOk(cfg, l2Base, PAGE_SIZE) && s.bft[l2Base / PAGE_SIZE].typ == L2Pt
    && Kind(s, a) != L2Pt && RefOf(L2Pt, s.mem[a], b) == 1 && s.bft[b].refcnt == 0
  }

  predicate WrapsAt(cfg: Config, s: State, op: Op, b: int)
    requires 0 <= b < BLOCKS
  {
    op.Command? && op.p03 % 16 == 5 && TakesUncounted(cfg, s, op.p1, op.p2, b)
  }

  lemma SameCounts(s: State, s': State)
    requires s'.bft == s.bft
    ensures forall b :: 0 <= b < BLOCKS ==> !Wrapped(s, s', b)
  {
  }

  /** A count that covers what is taken off, and leaves room for what is added, does not wrap. */
  lemma MovedWithin(e: Entry, d: int)
    requires 0 <= e.refcnt + d < COUNT_LIMIT
    ensures Moved(e, d).refcnt == e.refcnt + d
  {
  }

  lemma AddedBounds(t: PageType, q: nat, s: State, s': State)
    requires TableAdded(t, q, s, s')
    ensures forall b :: 0 <= b < BLOCKS ==> !Wrapped(s, s', b) && !Wrapped(s', s, b)
  {
    hide TableRefs;
    forall b | 0 <= b < BLOCKS
      ensures !Wrapped(s, s', b) && !Wrapped(s', s, b)
    {
      TableRefsBound(s'.mem, t, q * 1024, q * 1024 + Span(t), b);
    }
  }

  lemma CreateL1Counts(cfg: Config, s: State, base: Word)
    requires TablesOk(cfg, s)
    ensures forall b :: 0 <= b < BLOCKS ==> !Wrapped(s, CreateL1(cfg, s, base).1, b)
  {
    hide CreateL1, CopyMaster, FirstError, TablesOk, Slack, SlackKept, Wrapped, TableAdded, Retyped;
    var (e, s') := CreateL1(cfg, s, base);
    CreateL1Keeps(cfg, s, base);
    if e == SUCCESS_MMU {
      AddedBounds(L1Pt, base / PAGE_SIZE, s, s');
    } else {
      if s' != s {
        CreateL1Shape(cfg, s, base);
      }
      SameCounts(s, s');
    }
  }

  /** Every other command on whole tables leaves the state alone when it fails. */
  lemma TableCounts(cfg: Config, s: State, base: Word)
    requires TablesOk(cfg, s)
    ensures forall b :: 0 <= b < BLOCKS ==>
      !Wrapped(s, UnmapL1(cfg, s, base).1, b) && !Wrapped(s, CreateL2(cfg, s, base).1, b)
      && !Wrapped(s, UnmapL2(cfg, s, base).1, b) && !Wrapped(s, SwitchMm(cfg, s, base).1, b)
  {
    FailuresKeep(cfg, s, base);
    hide UnmapL1, CreateL2, UnmapL2, SwitchMm, TablesOk, Slack, SlackKept, Wrapped, TableAdded;
    UnmapL1Keeps(cfg, s, base);
    CreateL2Keeps(cfg, s, base);
    UnmapL2Keeps(cfg, s, base);
    if UnmapL1(cfg, s, base).0 == SUCCESS_MMU {
      AddedBounds(L1Pt, base / PAGE_SIZE, UnmapL1(cfg, s, base).1, s);
    }
    if CreateL2(cfg, s, base).0 == SUCCESS_MMU {
      AddedBounds(L2Pt, base / PAGE_SIZE, s, CreateL2(cfg, s, base).1);
    }
    if UnmapL2(cfg, s, base).0 == SUCCESS_MMU {
      AddedBounds(L2Pt, base / PAGE_SIZE, UnmapL2(cfg, s, base).1, s);
    }
    SameCounts(s, s);
    SameCounts(s, SwitchMm(cfg, s, base).1);
  }

  lemma MapL1SectionCounts(cfg: Config, s: State, va: Word, pa: Word, attrs: Word)
    ensures forall b :: 0 <= b < BLOCKS ==> !Wrapped(s, MapL1Section(cfg, s, va, pa, attrs).1, b)
  {
    hide RefOf, StaticOk, L1SecCheck, CreateSecDesc, RangeOk;
    if MapL1Section(cfg, s, va, pa, attrs).0 == SUCCESS_MMU {
      var w := CreateSecDesc(pa, attrs);
      SecDescLayout(pa, attrs);
      assert L1Check(cfg, s.bft, w, s.ttbr) == SUCCESS_MMU;
      L1CheckOk(cfg, s.bft, w, s.ttbr);
      forall b | 0 <= b < BLOCKS
        ensures !Wrapped(s, MapL1Section(cfg, s, va, pa, attrs).1, b)
      {
        MovedWithin(s.bft[b], RefOf(L1Pt, w, b));
      }
    }
  }

  lemma MapL1PtCounts(cfg: Config, s: State, va: Word, l2Base: Word, attrs: Word)
    ensures forall b :: 0 <= b < BLOCKS ==> !Wrapped(s, MapL1Pt(cfg, s, va, l2Base, attrs).1, b)
  {
    hide MapL1Pt, CreatePtDesc, PtUpperHalf, L1Slot;
    MapL1PtShape(cfg, s, va, l2Base, attrs);
  }

  lemma UnmapL1EntryCounts(cfg: Config, s: State, va: Word)
    requires Inv(cfg, s)
    ensures forall b :: 0 <= b < BLOCKS ==> !Wrapped(s, UnmapL1Entry(cfg, s, va).1, b)
  {
    hide TablesOk, RefOf, L1Slot, Kind, ActiveL1, SecIndic;
    var a := L1Slot(s, va);
    L1SlotFacts(s, va);
    forall b | 0 <= b < BLOCKS
      ensures !Wrapped(s, UnmapL1Entry(cfg, s, va).1, b)
    {
      CountCovers(cfg, s, a, b);
      MovedWithin(s.bft[b], 0 - RefOf(L1Pt, s.mem[a], b));
    }
  }

  lemma MapL2EntryCounts(cfg: Config, s: State, l2Base: Word, idx: Word, pa: Word, attrs: Word)
    ensures forall b :: 0 <= b < BLOCKS ==> !Wrapped(s, MapL2Entry(cfg, s, l2Base, idx, pa, attrs).1, b)
  {
    hide RefOf, StaticOk, L2SmallCheck, CreateSmallDesc, RangeOk, L2Slot;
    if MapL2Entry(cfg, s, l2Base, idx, pa, attrs).0 == SUCCESS_MMU {
      var w := CreateSmallDesc(pa, attrs);
      SmallDescFields(pa, attrs);
      assert L2Check(cfg, s.bft, w, l2Base) == SUCCESS_MMU;
      L2CheckOk(cfg, s.bft, w, l2Base);
      forall b | 0 <= b < BLOCKS
        ensures !Wrapped(s, MapL2Entry(cfg, s, l2Base, idx, pa, attrs).1, b)
      {
        MovedWithin(s.bft[b], RefOf(L2Pt, w, b));
      }
    }
  }

  lemma UnmapL2EntryCounts(cfg: Config, s: State, l2Base: Word, idx: Word, b: nat)
    requires TablesOk(cfg, s) && b < BLOCKS
    ensures Wrapped(s, UnmapL2Entry(cfg, s, l2Base, idx).1, b) <==> TakesUncounted(cfg, s, l2Base, idx, b)
  {
    hide TablesOk, L2Slot, Kind, RangeOk, RefOf, Moved;
    var a := L2Slot(l2Base, idx);
    CountCovers(cfg, s, a, b);
    SmallOnly(s.mem[a], b);
    Dropped(s.bft[b], RefOf(L2Pt, s.mem[a], b));
  }

  lemma SmallOnly(w: Word, b: int)
    ensures Typ(w) < 2 ==> RefOf(L2Pt, w, b) == 0
  {
  }

  lemma Dropped(e: Entry, n: nat)
    requires n <= 1
    ensures Moved(e, 0 - n).refcnt == if n == 0 then e.refcnt else if e.refcnt > 0 then e.refcnt - 1 else MAX_30BIT
  {
  }

  /**
    For every command with any arguments: the count of a block wraps exactly when
    an unmapping takes off a reference that was never counted, from zero.
  */
  lemma WrapsExactly(cfg: Config, s: State, op: Op, b: nat)
    requires Inv(cfg, s) && GuestModes(op) && b < BLOCKS
    ensures Wrapped(s, Step(cfg, s, op), b) <==> WrapsAt(cfg, s, op, b)
    ensures WrapsAt(cfg, s, op, b) ==> s.bft[b].refcnt == 0 && Step(cfg, s, op).bft[b].refcnt == MAX_30BIT
  {
    hide TablesOk, MapL1Section, UnmapL1Entry, CreateL2, MapL1Pt, MapL2Entry, UnmapL2Entry, UnmapL2,
      CreateL1, SwitchMm, UnmapL1, ActiveL1, Wrapped, TakesUncounted, ClientOnly, Translate;
    match op
    case GuestStore(dacr, va, value) => SameCounts(s, Step(cfg, s, op));
    case Command(p03, p1, p2) =>
      var p0 := p03 % 16;
      SameCounts(s, s);
      if p0 == 0 {
        MapL1SectionCounts(cfg, s, p1, p2, p03 / 16);
      } else if p0 == 1 {
        UnmapL1EntryCounts(cfg, s, p1);
      } else if p0 == 3 {
        MapL1PtCounts(cfg, s, p1, p2, p03 / 16);
      } else if p0 == 4 {
        MapL2EntryCounts(cfg, s, p1, p2 / 0x10_0000, p03 - p03 % 16, p2 % 0x1000);
      } else if p0 == 5 {
        UnmapL2EntryCounts(cfg, s, p1, p2, b);
        if TakesUncounted(cfg, s, p1, p2, b) {
          WrappedTo(cfg, s, p1, p2, b);
        }
      } else if p0 == 7 {
        CreateL1Counts(cfg, s, p1);
      } else {
        TableCounts(cfg, s, p1);
      }
  }

  lemma WrappedTo(cfg: Config, s: State, l2Base: Word, idx: Word, b: nat)
    requires b < BLOCKS && TakesUncounted(cfg, s, l2Base, idx, b)
    ensures s.bft[b].refcnt == 0 && UnmapL2Entry(cfg, s, l2Base, idx).1.bft[b].refcnt == MAX_30BIT
  {
    hide L2Slot, Kind, RangeOk;
  }

  /** Such a wrap keeps the invariant unless it clears a reserved entry, and leaves the count at its highest. */
  lemma WrapKept(cfg: Config, s: State, op: Op, b: nat)
    requires Inv(cfg, s) && b < BLOCKS && WrapsAt(cfg, s, op, b)
    ensures var a := L2Slot(op.p1, op.p2);
      Inv(cfg, Step(cfg, s, op)) <==> Kind(s, a) == Data || !Reserved(cfg, a % 4096)
    ensures Inv(cfg, Step(cfg, s, op)) ==> Slack(Step(cfg, s, op), b) == MAX_30BIT
  {
    hide Inv, Slack, L2Slot, Kind, Handle, RangeOk, Reserved;
    var a := L2Slot(op.p1, op.p2);
    StepKeeps(cfg, s, op);
    NeverNamed(cfg, s, a, b);
    assert RefOf(L2Pt, s.mem[a], b) == 1 ==> SmallBlock(s.mem[a]) == b;
  }

  lemma NeverNamed(cfg: Config, s: State, a: nat, b: nat)
    requires Inv(cfg, s) && a < MEM_WORDS && b < BLOCKS && s.bft[b].refcnt == 0
    ensures RefAt(s, a, b) == 0 && Slack(s, b) == 0 && Kind(s, a) != Invalid
  {
    hide Slack, Kind, WordOk;
    SlackBounds(cfg, s, b);
    CountCovers(cfg, s, a, b);
    KindBound(cfg, s, a);
  }

  lemma LowIndexCounts(cfg: Config, s: State, op: Op, b: nat)
    requires LowIndex(op) && b < BLOCKS
    ensures !WrapsAt(cfg, s, op, b)
  {
    hide L2Slot, Kind, RangeOk, RefOf;
    if op.Command? && op.p03 % 16 == 5 && s.bft[op.p1 / PAGE_SIZE].typ == L2Pt {
      L2SlotFacts(s, op.p1, op.p2);
    }
  }

  /** At each point of a harmless run, the count of a block wraps exactly then. */
  lemma RunWraps(cfg: Config, s: State, ops: seq<Op>, k: nat, b: nat)
    requires Inv(cfg, s) && forall i :: 0 <= i < |ops| ==> GuestModes(ops[i])
    requires k < |ops| && b < BLOCKS && HarmlessRun(cfg, s, ops[..k])
    ensures Wrapped(Run(cfg, s, ops[..k]), Run(cfg, s, ops[..k + 1]), b)
      <==> WrapsAt(cfg, Run(cfg, s, ops[..k]), ops[k], b)
  {
    hide Inv, Slack, Step, HarmlessRun, GuestModes, Run, Excesses, Wrapped, WrapsAt;
    RunKeeps(cfg, s, ops[..k]);
    RunSplit(cfg, s, ops, k);
    WrapsExactly(cfg, Run(cfg, s, ops[..k]), ops[k], b);
  }

  /** At no point of a run with indices below 512 does a count wrap. */
  lemma LowIndexNeverWraps(cfg: Config, s: State, ops: seq<Op>, k: nat, b: nat)
    requires Inv(cfg, s) && forall i :: 0 <= i < |ops| ==> GuestModes(ops[i]) && LowIndex(ops[i])
    requires k < |ops| && b < BLOCKS
    ensures !Wrapped(Run(cfg, s, ops[..k]), Run(cfg, s, ops[..k + 1]), b)
  {
    hide Inv, Slack, Step, HarmlessRun, GuestModes, LowIndex, Run, Leaks, Wrapped, WrapsAt;
    LowIndexRun(cfg, s, ops[..k]);
    RunWraps(cfg, s, ops, k, b);
    LowIndexCounts(cfg, Run(cfg, s, ops[..k]), ops[k], b);
  }
}
