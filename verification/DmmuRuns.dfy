/**
  Runs of the system: any interleaving of guest commands with guest user-mode
  stores through the active tables, which the processor translates on its own.
*/
module DmmuRuns {
  import opened Bits
  import opened DmmuState
  import opened DmmuCommands
  import opened DmmuCounting
  import opened DmmuInvariant
  import opened DmmuTables
  import opened DmmuIndices
  import opened DmmuSafety

  datatype Option<+T> = None | Some(value: T)

  // ---------- the processor's view (ARM DDI 0406C, sections B3.5 and B3.7) ----------

  /** User write access: a manager domain skips the permission bits, a client domain needs AP 011. */
  predicate UserWrite(dacr: Word, domain: nat, ap: int)
  {
    AcField(dacr, domain) == 3 || (AcField(dacr, domain) == 1 && ap == 3)
  }

  // the byte of a page or section that `va` selects
  function SmallPageByte(w: Word, va: Word): Word { w / 0x1000 * 0x1000 + va % 0x1000 }

  function LargePageByte(w: Word, va: Word): Word { w / 0x1_0000 * 0x1_0000 + va % 0x1_0000 }

  function SectionTarget(w: Word, va: Word): Word { w / 0x10_0000 * 0x10_0000 + va % 0x10_0000 }

  function SupersectionTarget(w: Word, va: Word): Word { w / 0x100_0000 * 0x100_0000 + va % 0x100_0000 }

  function TranslateL2(dacr: Word, domain: nat, w: Word, va: Word): Option<Word>
  {
    if Typ(w) == 0 || !UserWrite(dacr, domain, SmallAp(w)) then None
    else if Typ(w) == 1 then Some(LargePageByte(w, va))
    else Some(SmallPageByte(w, va))
  }

  function L2Word(l1Desc: Word, va: Word): (a: nat)
    ensures a < MEM_WORDS
  {
    l1Desc / 0x400 * 256 + va / 0x1000 % 256
  }

  /** The physical address a user-mode store to `va` reaches, if it does not fault. */
  function Translate(s: State, dacr: Word, va: Word): Option<Word>
  {
    TranslateL1(s.mem, dacr, s.mem[L1Slot(s, va)], va)
  }

  /** The same from the first-level descriptor on. */
  function TranslateL1(mem: Memory, dacr: Word, w: Word, va: Word): Option<Word>
  {
    if Typ(w) == 0 then None
    else if Typ(w) == 1 then
      if AcField(dacr, Domain(w)) == 0 then None
      else TranslateL2(dacr, Domain(w), mem[L2Word(w, va)], va)
    else if SecIndic(w) == 1 then // a supersection belongs to domain 0
      if UserWrite(dacr, 0, SecAp(w)) then Some(SupersectionTarget(w, va)) else None
    else if UserWrite(dacr, Domain(w), SecAp(w)) then Some(SectionTarget(w, va))
    else None
  }

  function Store(s: State, dacr: Word, va: Word, value: Word): State
  {
    match Translate(s, dacr, va)
    case None => s
    case Some(pa) => s.(mem := s.mem[pa / 4 := value])
  }

  /** No domain is a manager domain, as in every guest mode of minimal_config and linux_config. */
  predicate ClientOnly(dacr: Word)
  {
    forall d :: 0 <= d < 16 ==> AcField(dacr, d) == 0 || AcField(dacr, d) == 1
  }

  // ---------- one guest store ----------

  lemma SectionBlock(w: Word, va: Word)
    ensures var pa := SectionTarget(w, va);
      pa / 0x10_0000 == SecAddr(w) && pa / 0x1000 / 256 == SecAddr(w)
  {
    Split(w / 0x10_0000, 0x10_0000, va % 0x10_0000);
    DivDiv(SectionTarget(w, va), 0x1000, 256);
  }

  lemma LowHalf(h: int)
    requires h / 2 % 2 != 1
    ensures h % 4 < 2
  {
  }

  lemma L2WordPlace(w: Word, va: Word)
    requires !PtUpperHalf(w)
    ensures L2Word(w, va) / 1024 == PtBlock(w) && L2Word(w, va) % 1024 < 512
  {
    var h := w / 0x400;
    DivDiv(w, 0x400, 4);
    DivDiv(w, 0x400, 2);
    LowHalf(h);
    var i := va / 0x1000 % 256;
    assert h * 256 + i == h / 4 * 1024 + (h % 4 * 256 + i);
    Split(h / 4, 1024, h % 4 * 256 + i);
  }

  lemma SmallPageBlock(w: Word, va: Word)
    ensures SmallPageByte(w, va) / 0x1000 == SmallBlock(w)
  {
    Split(w / 0x1000, 0x1000, va % 0x1000);
  }

  /** The block a user store reaches is mapped by a counted, writable descriptor. */
  lemma StoreReaches(cfg: Config, s: State, dacr: Word, va: Word) returns (a: nat)
    requires Inv(cfg, s) && ClientOnly(dacr)
    requires Translate(s, dacr, va).Some?
    ensures a < MEM_WORDS && RefAt(s, a, Translate(s, dacr, va).value / 0x1000) == 1
    ensures Target(Kind(s, a), s.mem[a]) == Data
    ensures Kind(s, a) == L2Pt || (Kind(s, a) == L1Pt && Typ(s.mem[a]) == 2 && AcField(dacr, Domain(s.mem[a])) != 0)
  {
    hide Refs, MasterKept, Grouped, IntersectsCached, RangeOk, DomainGranted, AcField, Slack, L1Slot;
    a := L1Slot(s, va);
    L1SlotFacts(s, va);
    var w := s.mem[a];
    assert WordOk(cfg, s, a);
    if Typ(w) == 1 {
      var a2 := L2Word(w, va);
      assert RefOf(L1Pt, w, PtBlock(w)) == 1;
      L2WordPlace(w, va);
      assert WordOk(cfg, s, a2);
      SmallPageBlock(s.mem[a2], va);
      a := a2;
    } else {
      SectionBlock(w, va);
    }
  }

  /** A user store reaches data pages only. */
  lemma StoreHitsData(cfg: Config, s: State, dacr: Word, va: Word)
    requires Inv(cfg, s) && ClientOnly(dacr)
    requires Translate(s, dacr, va).Some?
    ensures s.bft[Translate(s, dacr, va).value / 0x1000].typ == Data
  {
    hide Translate, RefOf, StaticOk;
    var a := StoreReaches(cfg, s, dacr, va);
    assert WordOk(cfg, s, a);
  }

  ghost predicate TablesUntouched(s: State, s': State)
  {
    && s'.bft == s.bft && s'.ttbr == s.ttbr
    && forall a :: 0 <= a < MEM_WORDS && s.bft[a / 1024].typ != Data ==> s'.mem[a] == s.mem[a]
  }

  /** A guest store changes no word of any page table, and keeps the invariant. */
  lemma StoreKeeps(cfg: Config, s: State, dacr: Word, va: Word, value: Word)
    requires Inv(cfg, s) && ClientOnly(dacr)
    ensures Inv(cfg, Store(s, dacr, va, value)) && SlackKept(s, Store(s, dacr, va, value))
    ensures TablesUntouched(s, Store(s, dacr, va, value))
  {
    hide Translate, RefOf, StaticOk, WordOk, MasterKept, Grouped, TablesOk, Slack, SlackKept;
    var s' := Store(s, dacr, va, value);
    if Translate(s, dacr, va).Some? {
      StoreHitsData(cfg, s, dacr, va);
      var pa := Translate(s, dacr, va).value;
      DivDiv(pa, 4, 1024);
      assert pa / 4 / 1024 == pa / 0x1000;
      WriteData(cfg, s, s');
    } else {
      SlackChain(s, s, s);
    }
  }

  // ---------- runs ----------

  datatype Op =
    | Command(p03: Word, p1: Word, p2: Word)
    | GuestStore(dacr: Word, va: Word, value: Word)

  /** Guest modes have client domains only. */
  predicate GuestModes(op: Op)
  {
    op.GuestStore? ==> ClientOnly(op.dacr)
  }

  /** Unmapping a second-level entry is the one command that can do harm, when its index names another word. */
  ghost predicate Harmless(cfg: Config, s: State, op: Op)
  {
    op.Command? && op.p03 % 16 == 5 ==> UnmapOk(cfg, s, op.p1, op.p2)
  }

  /** Second-level indices lie in the half page that is validated. */
  predicate LowIndex(op: Op)
  {
    match op
    case Command(p03, p1, p2) => (p03 % 16 == 4 ==> p2 / 0x10_0000 < 512) && (p03 % 16 == 5 ==> p2 < 512)
    case GuestStore(dacr, va, value) => true
  }

  function Step(cfg: Config, s: State, op: Op): State
  {
    match op
    case Command(p03, p1, p2) => Handle(cfg, s, p03, p1, p2).1
    case GuestStore(dacr, va, value) => Store(s, dacr, va, value)
  }

  function Run(cfg: Config, s: State, ops: seq<Op>): State
    decreases |ops|
  {
    if ops == [] then s else Run(cfg, Step(cfg, s, ops[0]), ops[1..])
  }

  /** Whether `op` is a `dmmu_l1_pt_map` of block `b` that fails on the half page, after counting. */
  predicate LeaksAt(cfg: Config, s: State, op: Op, b: int)
  {
    && op.Command? && op.p03 % 16 == 3 && op.p2 / PAGE_SIZE == b
    && Handle(cfg, s, op.p03, op.p1, op.p2).0 == ERR_MMU_L2_BASE_OUT_OF_RANGE
  }

  function Leaks(cfg: Config, s: State, ops: seq<Op>, b: int): nat
    decreases |ops|
  {
    if ops == [] then 0
    else (if LeaksAt(cfg, s, ops[0], b) then 1 else 0) + Leaks(cfg, Step(cfg, s, ops[0]), ops[1..], b)
  }

  ghost predicate HarmlessRun(cfg: Config, s: State, ops: seq<Op>)
    decreases |ops|
  {
    ops == [] || (Harmless(cfg, s, ops[0]) && HarmlessRun(cfg, Step(cfg, s, ops[0]), ops[1..]))
  }

  /** What `op` adds to the count of `b` beyond the references. */
  function Excess(cfg: Config, s: State, op: Op, b: int): int
    requires 0 <= b < BLOCKS
  {
    match op
    case Command(p03, p1, p2) =>
      if p03 % 16 == 4 then MapExcess(cfg, s, p1, p2 / 0x10_0000, p03 - p03 % 16, p2 % 0x1000, b)
      else if p03 % 16 == 5 then UnmapExcess(cfg, s, p1, p2, b)
      else if LeaksAt(cfg, s, op, b) then 1
      else 0
    case GuestStore(dacr, va, value) => 0
  }

  function Excesses(cfg: Config, s: State, ops: seq<Op>, b: int): int
    requires 0 <= b < BLOCKS
    decreases |ops|
  {
    if ops == [] then 0
    else Excess(cfg, s, ops[0], b) + Excesses(cfg, Step(cfg, s, ops[0]), ops[1..], b)
  }

  /** Every command of `dmmu_handler`, whatever its arguments, keeps the invariant exactly when it is harmless. */
  lemma HandleKeeps(cfg: Config, s: State, p03: Word, p1: Word, p2: Word)
    requires Inv(cfg, s)
    ensures Inv(cfg, Handle(cfg, s, p03, p1, p2).1) <==> Harmless(cfg, s, Command(p03, p1, p2))
    ensures Harmless(cfg, s, Command(p03, p1, p2)) ==> forall b :: 0 <= b < BLOCKS ==>
      Slack(Handle(cfg, s, p03, p1, p2).1, b) == Slack(s, b) + Excess(cfg, s, Command(p03, p1, p2), b)
  {
    hide TablesOk, Slack, MapL1Section, UnmapL1Entry, CreateL2, MapL1Pt, MapL2Entry, UnmapL2Entry, UnmapL2,
      CreateL1, SwitchMm, UnmapL1, ActiveL1, FourOfType, TableAdded, MapExcess, UnmapExcess, UnmapOk;
    var p0 := p03 % 16;
    if p0 == 0 {
      MapL1SectionKeeps(cfg, s, p1, p2, p03 / 16);
    } else if p0 == 1 {
      UnmapL1EntryKeeps(cfg, s, p1);
    } else if p0 == 2 {
      CreateL2Keeps(cfg, s, p1);
    } else if p0 == 3 {
      MapL1PtKeeps(cfg, s, p1, p2, p03 / 16);
    } else if p0 == 4 {
      MapL2EntryKeeps(cfg, s, p1, p2 / 0x10_0000, p03 - p03 % 16, p2 % 0x1000);
    } else if p0 == 5 {
      UnmapL2EntryKeeps(cfg, s, p1, p2);
    } else if p0 == 6 {
      UnmapL2Keeps(cfg, s, p1);
    } else if p0 == 7 {
      CreateL1Keeps(cfg, s, p1);
    } else if p0 == 8 {
      SwitchMmKeeps(cfg, s, p1);
    } else if p0 == 9 {
      UnmapL1Keeps(cfg, s, p1);
    }
  }

  lemma StepKeeps(cfg: Config, s: State, op: Op)
    requires Inv(cfg, s) && GuestModes(op)
    ensures Inv(cfg, Step(cfg, s, op)) <==> Harmless(cfg, s, op)
    ensures Harmless(cfg, s, op) ==> forall b :: 0 <= b < BLOCKS ==>
      Slack(Step(cfg, s, op), b) == Slack(s, b) + Excess(cfg, s, op, b)
    ensures op.GuestStore? ==> TablesUntouched(s, Step(cfg, s, op))
  {
    hide Inv, Slack, Handle, Store, TablesUntouched, UnmapOk, MapExcess, UnmapExcess, LeaksAt;
    match op
    case Command(p03, p1, p2) => HandleKeeps(cfg, s, p03, p1, p2);
    case GuestStore(dacr, va, value) => StoreKeeps(cfg, s, dacr, va, value);
  }

  /**
    Over any harmless run the invariant holds, and each count exceeds the true
    number of references by its initial excess plus what the steps add to it.
  */
  lemma {:induction false} RunKeeps(cfg: Config, s: State, ops: seq<Op>)
    requires Inv(cfg, s) && (forall k :: 0 <= k < |ops| ==> GuestModes(ops[k])) && HarmlessRun(cfg, s, ops)
    ensures Inv(cfg, Run(cfg, s, ops))
    ensures forall b :: 0 <= b < BLOCKS ==>
      Slack(Run(cfg, s, ops), b) == Slack(s, b) + Excesses(cfg, s, ops, b)
    decreases |ops|
  {
    hide Inv, Slack, Step, Excess, GuestModes, Harmless;
    if ops == [] {
    } else {
      StepKeeps(cfg, s, ops[0]);
      RunKeeps(cfg, Step(cfg, s, ops[0]), ops[1..]);
    }
  }

  /** The invariant holds at every point of a run exactly when each step of the run is harmless. */
  lemma {:induction false} RunExact(cfg: Config, s: State, ops: seq<Op>)
    requires Inv(cfg, s) && forall k :: 0 <= k < |ops| ==> GuestModes(ops[k])
    ensures (forall k :: 0 <= k <= |ops| ==> Inv(cfg, Run(cfg, s, ops[..k]))) <==> HarmlessRun(cfg, s, ops)
    decreases |ops|
  {
    hide Inv, Slack, Step, Excess, GuestModes, Harmless;
    if ops == [] {
      assert ops[..0] == [];
    } else {
      var t, rest := Step(cfg, s, ops[0]), ops[1..];
      StepKeeps(cfg, s, ops[0]);
      forall k | 0 < k <= |ops|
        ensures Run(cfg, s, ops[..k]) == Run(cfg, t, rest[..k - 1])
      {
        assert ops[..k][1..] == rest[..k - 1];
      }
      assert ops[..0] == [] && rest[..0] == [];
      if Inv(cfg, t) {
        RunExact(cfg, t, rest);
        forall k | 0 <= k <= |rest|
          ensures Run(cfg, t, rest[..k]) == Run(cfg, s, ops[..k + 1])
        {
        }
      } else {
        assert Run(cfg, s, ops[..1]) == t;
      }
    }
  }

  lemma LowIndexHarmless(cfg: Config, s: State, op: Op)
    requires LowIndex(op)
    ensures Harmless(cfg, s, op)
  {
    hide UnmapOk;
    if op.Command? && op.p03 % 16 == 5 {
      LowerHalfUnmap(cfg, s, op.p1, op.p2);
    }
  }

  lemma LowIndexExcess(cfg: Config, s: State, op: Op, b: nat)
    requires Inv(cfg, s) && LowIndex(op) && b < BLOCKS
    ensures Excess(cfg, s, op, b) == if LeaksAt(cfg, s, op, b) then 1 else 0
  {
    hide MapExcess, UnmapExcess, Inv, UnmapOk, Handle;
    match op
    case GuestStore(dacr, va, value) =>
    case Command(p03, p1, p2) =>
      if p03 % 16 == 4 {
        MapL2EntryKeeps(cfg, s, p1, p2 / 0x10_0000, p03 - p03 % 16, p2 % 0x1000);
      } else if p03 % 16 == 5 {
        LowerHalfUnmap(cfg, s, p1, p2);
      }
  }

  /** With indices below 512 every run is harmless, and only the half-page error adds to an excess. */
  lemma {:induction false} LowIndexRun(cfg: Config, s: State, ops: seq<Op>)
    requires Inv(cfg, s) && forall k :: 0 <= k < |ops| ==> GuestModes(ops[k]) && LowIndex(ops[k])
    ensures HarmlessRun(cfg, s, ops)
    ensures forall b :: 0 <= b < BLOCKS ==>
      Slack(Run(cfg, s, ops), b) == Slack(s, b) + Leaks(cfg, s, ops, b)
    decreases |ops|
  {
    hide Inv, Slack, Step, Excess, GuestModes, Harmless, LowIndex, LeaksAt;
    if ops == [] {
    } else {
      LowIndexHarmless(cfg, s, ops[0]);
      StepKeeps(cfg, s, ops[0]);
      LowIndexRun(cfg, Step(cfg, s, ops[0]), ops[1..]);
      forall b: nat | b < BLOCKS
        ensures Excess(cfg, s, ops[0], b) == if LeaksAt(cfg, s, ops[0], b) then 1 else 0
      {
        LowIndexExcess(cfg, s, ops[0], b);
      }
    }
  }

  lemma {:induction false} RunSplit(cfg: Config, s: State, ops: seq<Op>, k: nat)
    requires k < |ops|
    ensures Run(cfg, s, ops[..k + 1]) == Step(cfg, Run(cfg, s, ops[..k]), ops[k])
    decreases k
  {
    hide Step;
    if k == 0 {
      assert ops[..1][1..] == [] && ops[..0] == [];
    } else {
      assert ops[..k + 1][1..] == ops[1..][..k] && ops[..k][1..] == ops[1..][..k - 1];
      RunSplit(cfg, Step(cfg, s, ops[0]), ops[1..], k - 1);
    }
  }

  /** At no point of a harmless run does a guest store change a page table or a block's type or count. */
  lemma GuestNeverWritesTables(cfg: Config, s: State, ops: seq<Op>, k: nat)
    requires Inv(cfg, s) && forall i :: 0 <= i < |ops| ==> GuestModes(ops[i])
    requires k < |ops| && ops[k].GuestStore? && HarmlessRun(cfg, s, ops[..k])
    ensures TablesUntouched(Run(cfg, s, ops[..k]), Run(cfg, s, ops[..k + 1]))
  {
    hide Inv, Slack, Step, Harmless, HarmlessRun, GuestModes, TablesUntouched, Run, Excesses, Excess;
    RunKeeps(cfg, s, ops[..k]);
    RunSplit(cfg, s, ops, k);
    StepKeeps(cfg, Run(cfg, s, ops[..k]), ops[k]);
  }

  lemma WholeGroup(bft: Bft, b: nat, c: nat)
    requires Grouped(bft) && b < BLOCKS && c < BLOCKS && b / 4 == c / 4
    ensures bft[b].typ == L1Pt <==> bft[c].typ == L1Pt
  {
    assert b - b % 4 == c - c % 4;
    assert bft[b].typ == L1Pt <==> bft[b - b % 4].typ == L1Pt;
    assert bft[c].typ == L1Pt <==> bft[c - c % 4].typ == L1Pt;
  }

  /**
    After any harmless run every block that a validated descriptor refers to
    has the type it needs, so none that is mapped writable is a page table, the
    tables agree with the master table, L1 blocks come in whole groups of four,
    and TTBR0 points to such a group.
  */
  lemma NoTableIsWritable(cfg: Config, s: State, ops: seq<Op>, r: State, a: nat, b: nat, c: nat)
    requires Inv(cfg, s) && forall i :: 0 <= i < |ops| ==> GuestModes(ops[i])
    requires HarmlessRun(cfg, s, ops) && r == Run(cfg, s, ops)
    requires a < MEM_WORDS && b < BLOCKS && c < BLOCKS
    ensures RefAt(r, a, b) == 1 ==> r.bft[b].typ == Target(Kind(r, a), r.mem[a])
    ensures r.bft[a / 1024].typ == L1Pt && Reserved(cfg, a % 4096) ==> r.mem[a] == cfg.master[a % 4096]
    ensures b / 4 == c / 4 ==> (r.bft[b].typ == L1Pt <==> r.bft[c].typ == L1Pt)
    ensures ActiveL1(r)
  {
    hide Slack, Step, Harmless, HarmlessRun, GuestModes, Run, RefOf, Kind, Excesses, StaticOk, ActiveL1, Target;
    RunKeeps(cfg, s, ops);
    assert WordOk(cfg, r, a);
    if b / 4 == c / 4 {
      WholeGroup(r.bft, b, c);
    }
  }
}
