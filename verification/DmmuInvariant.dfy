/** The invariant of the monitor. */
module DmmuInvariant {
  import opened DmmuState
  import opened DmmuCommands
  import opened DmmuCounting

  /** What a validated descriptor satisfies whatever the block types are. */
  predicate StaticOk(cfg: Config, t: PageType, w: Word)
  {
    match t
    case L1Pt =>
      && Typ(w) != 3
      && (Typ(w) == 1 ==> !PtUpperHalf(w) && Pxn(w) == 0)
      && (Typ(w) == 2 ==>
        && SecIndic(w) == 0 && 1 <= SecAp(w) <= 3
        && (IntersectsCached(cfg, SecAddr(w) * SECTION_SIZE, SECTION_SIZE) ==> SecC(w) == 1)
        && (SecAp(w) == 3 && DomainGranted(cfg, Domain(w)) ==>
          RangeOk(cfg, SecAddr(w) * SECTION_SIZE, SECTION_SIZE)))
    case L2Pt =>
      && Typ(w) != 1
      && (Typ(w) >= 2 ==>
        && 1 <= SmallAp(w) <= 3
        && (IntersectsCached(cfg, SmallBlock(w) * PAGE_SIZE, PAGE_SIZE) ==> SmallC(w) == 1)
        && (SmallAp(w) == 3 ==> RangeOk(cfg, SmallBlock(w) * PAGE_SIZE, PAGE_SIZE)))
    case _ => true
  }

  /** The type a block must have for descriptor `w` to refer to it. */
  function Target(t: PageType, w: Word): PageType
  {
    if t == L1Pt && Typ(w) == 1 then L2Pt else Data
  }

  ghost predicate TargetsOk(bft: Bft, t: PageType, w: Word)
  {
    forall b :: 0 <= b < BLOCKS && RefOf(t, w, b) == 1 ==> bft[b].typ == Target(t, w)
  }

  ghost predicate WordOk(cfg: Config, s: State, a: nat)
    requires a < MEM_WORDS
  {
    StaticOk(cfg, Kind(s, a), s.mem[a]) && TargetsOk(s.bft, Kind(s, a), s.mem[a])
  }

  ghost predicate Grouped(bft: Bft)
  {
    forall b :: 0 <= b < BLOCKS ==> bft[b].typ != Invalid && (bft[b].typ == L1Pt <==> bft[b - b % 4].typ == L1Pt)
  }

  ghost predicate MasterKept(cfg: Config, s: State)
  {
    forall a :: 0 <= a < MEM_WORDS && s.bft[a / 1024].typ == L1Pt && Reserved(cfg, a % 4096) ==>
      s.mem[a] == cfg.master[a % 4096]
  }

  ghost predicate TablesOk(cfg: Config, s: State)
  {
    && Grouped(s.bft)
    && MasterKept(cfg, s)
    && (forall a :: 0 <= a < MEM_WORDS ==> WordOk(cfg, s, a))
    && (forall b :: 0 <= b < BLOCKS ==> Slack(s, b) >= 0)
  }

  ghost predicate ActiveL1(s: State)
  {
    s.ttbr % 0x4000 == 0 && FourOfType(s.bft, s.ttbr / PAGE_SIZE, L1Pt)
  }

  ghost predicate Inv(cfg: Config, s: State)
  {
    TablesOk(cfg, s) && ActiveL1(s)
  }

  // ---------- consequences ----------

  /** A block whose count is zero is named by no descriptor. */
  lemma Unreferenced(s: State, b: nat)
    requires b < BLOCKS && Slack(s, b) >= 0 && s.bft[b].refcnt == 0
    ensures forall a :: 0 <= a < MEM_WORDS ==> RefAt(s, a, b) == 0
  {
    forall a | 0 <= a < MEM_WORDS
      ensures RefAt(s, a, b) == 0
    {
      RefsWord(s, a, b);
    }
  }

  lemma SameKinds(s: State, s': State)
    requires forall b :: 0 <= b < BLOCKS ==> s'.bft[b].typ == s.bft[b].typ
    ensures forall a :: 0 <= a < MEM_WORDS ==> Kind(s', a) == Kind(s, a)
  {
    forall a | 0 <= a < MEM_WORDS
      ensures Kind(s', a) == Kind(s, a)
    {
      assert s'.bft[a / 1024].typ == s.bft[a / 1024].typ;
    }
  }

  // ---------- changing one word ----------

  /** Word `a` is replaced and the count of `b` moves by the references gained and lost. */
  lemma ReplaceSlack(s: State, s': State, a: nat, b: nat)
    requires a < MEM_WORDS && b < BLOCKS && Slack(s, b) >= 0
    requires forall c :: 0 <= c < MEM_WORDS ==> Kind(s', c) == Kind(s, c)
    requires forall c :: 0 <= c < MEM_WORDS && c != a ==> s'.mem[c] == s.mem[c]
    requires s'.bft[b] == Moved(s.bft[b], RefAt(s', a, b) - RefAt(s, a, b))
    requires RefAt(s', a, b) == 1 ==> s.bft[b].refcnt < MAX_30BIT
    ensures Slack(s', b) == Slack(s, b)
  {
    hide RefOf, Kind, Refs;
    forall c | 0 <= c < MEM_WORDS && c != a
      ensures RefAt(s, c, b) == RefAt(s', c, b)
    {
    }
    RefsPoint(s, s', a, b);
    RefsWord(s, a, b);
  }

  /** Word `a` becomes `w` and the counts move by the references gained and lost. */
  ghost predicate Replaced(s: State, a: nat, w: Word, s': State)
    requires a < MEM_WORDS
  {
    var t := Kind(s, a);
    && s'.mem == s.mem[a := w] && s'.ttbr == s.ttbr
    && forall b :: 0 <= b < BLOCKS ==> s'.bft[b] == Moved(s.bft[b], RefOf(t, w, b) - RefOf(t, s.mem[a], b))
  }

  ghost predicate SlackKept(s: State, s': State)
  {
    forall b :: 0 <= b < BLOCKS ==> Slack(s', b) == Slack(s, b)
  }

  lemma ReplaceWord(cfg: Config, s: State, a: nat, w: Word, s': State)
    requires TablesOk(cfg, s) && a < MEM_WORDS
    requires Replaced(s, a, w, s')
    requires StaticOk(cfg, Kind(s, a), w) && TargetsOk(s.bft, Kind(s, a), w)
    requires forall b :: 0 <= b < BLOCKS && RefOf(Kind(s, a), w, b) == 1 ==> s.bft[b].refcnt < MAX_30BIT
    requires s.bft[a / 1024].typ == L1Pt ==> !Reserved(cfg, a % 4096)
    ensures TablesOk(cfg, s') && SlackKept(s, s')
    ensures forall b :: 0 <= b < BLOCKS ==> s'.bft[b].typ == s.bft[b].typ
  {
    hide RefOf, StaticOk, Reserved, Target, Refs, Kind;
    SameKinds(s, s');
    forall b | 0 <= b < BLOCKS
      ensures Slack(s', b) == Slack(s, b)
    {
      assert Slack(s, b) >= 0;
      ReplaceSlack(s, s', a, b);
    }
    forall c | 0 <= c < MEM_WORDS
      ensures WordOk(cfg, s', c)
    {
      assert WordOk(cfg, s, c);
    }
  }

  // ---------- what a passed check guarantees ----------

  lemma {:induction false} SecScanOk(bft: Bft, first: int, n: nat, l1Base: Word, err: int, k: nat)
    requires 0 <= first && first + n <= BLOCKS && k < n
    requires SecScan(bft, first, n, l1Base, err) == SUCCESS_MMU
    ensures err == SUCCESS_MMU && SecBlockError(bft, first + k, l1Base) == SUCCESS_MMU
  {
    if n == 1 {
    } else {
      SecScanOk(bft, first, n - 1, l1Base, err, if k < n - 1 then k else 0);
    }
  }

  /** A first-level descriptor that passes is sound, far from overflow, and cannot write the new table. */
  lemma L1CheckOk(cfg: Config, bft: Bft, w: Word, base: Word)
    requires L1Check(cfg, bft, w, base) == SUCCESS_MMU
    ensures StaticOk(cfg, L1Pt, w) && TargetsOk(bft, L1Pt, w)
    ensures forall b :: 0 <= b < BLOCKS && RefOf(L1Pt, w, b) == 1 ==>
      bft[b].refcnt < MAX_30BIT - 4096 && (Target(L1Pt, w) == Data ==> b / 4 * 0x4000 != base)
  {
    hide IntersectsCached, RangeOk, DomainGranted;
    if Typ(w) == 2 && SecAp(w) == 3 {
      SecScanOk(bft, SecAddr(w) * 256, 256, base, SecRangeError(cfg, w), 0);
      forall b | 0 <= b < BLOCKS && RefOf(L1Pt, w, b) == 1
        ensures bft[b].typ == Data && bft[b].refcnt < MAX_30BIT - 4096 && b / 4 * 0x4000 != base
      {
        SecScanOk(bft, SecAddr(w) * 256, 256, base, SecRangeError(cfg, w), b % 256);
      }
    }
  }

  lemma L2CheckOk(cfg: Config, bft: Bft, w: Word, base: Word)
    requires L2Check(cfg, bft, w, base) == SUCCESS_MMU
    ensures StaticOk(cfg, L2Pt, w) && TargetsOk(bft, L2Pt, w)
    ensures forall b :: 0 <= b < BLOCKS && RefOf(L2Pt, w, b) == 1 ==>
      bft[b].refcnt < MAX_30BIT - 1024 && b != base / PAGE_SIZE
  {
    hide IntersectsCached, RangeOk;
  }

  lemma {:induction false} FirstErrorOk(cfg: Config, mem: Memory, bft: Bft, t: PageType, off: nat, n: nat, base: Word,
      k: nat)
    requires off + n <= MEM_WORDS && k < n
    requires FirstError(cfg, mem, bft, t, off, n, base) == SUCCESS_MMU
    ensures t == L1Pt ==> L1Check(cfg, bft, mem[off + k], base) == SUCCESS_MMU
    ensures t != L1Pt ==> L2Check(cfg, bft, mem[off + k], base) == SUCCESS_MMU
  {
    hide L1Check, L2Check;
    if k == n - 1 {
    } else {
      FirstErrorOk(cfg, mem, bft, t, off, n - 1, base, k);
    }
  }

  lemma UnmappedHoldsNothing(cfg: Config, t: PageType, w: Word)
    requires Typ(w) == 0
    ensures StaticOk(cfg, t, w)
    ensures forall b :: RefOf(t, w, b) == 0
  {
  }

  // ---------- commands that change one descriptor ----------

  lemma L1SlotFacts(s: State, va: Word)
    requires ActiveL1(s)
    ensures Kind(s, L1Slot(s, va)) == L1Pt && s.bft[L1Slot(s, va) / 1024].typ == L1Pt
    ensures L1Slot(s, va) % 4096 == va / SECTION_SIZE
  {
    var g, i := s.ttbr / 0x4000, va / SECTION_SIZE;
    assert s.ttbr / PAGE_SIZE == 4 * g;
    assert (g * 4096 + i) / 1024 == 4 * g + i / 1024;
  }

  lemma SameTypesActive(s: State, s': State)
    requires ActiveL1(s) && s'.ttbr == s.ttbr
    requires forall b :: 0 <= b < BLOCKS ==> s'.bft[b].typ == s.bft[b].typ
    ensures ActiveL1(s')
  {
  }

  lemma MapL1SectionKeeps(cfg: Config, s: State, va: Word, pa: Word, attrs: Word)
    requires Inv(cfg, s)
    ensures Inv(cfg, MapL1Section(cfg, s, va, pa, attrs).1)
    ensures SlackKept(s, MapL1Section(cfg, s, va, pa, attrs).1)
  {
    hide RefOf, StaticOk, L1SecCheck, CreateSecDesc, RangeOk, WordOk, Slack, MasterKept;
    var (e, s') := MapL1Section(cfg, s, va, pa, attrs);
    if e == SUCCESS_MMU {
      var a := L1Slot(s, va);
      var w := CreateSecDesc(pa, attrs);
      L1SlotFacts(s, va);
      SecDescLayout(pa, attrs);
      assert L1Check(cfg, s.bft, w, s.ttbr) == SUCCESS_MMU;
      L1CheckOk(cfg, s.bft, w, s.ttbr);
      UnmappedHoldsNothing(cfg, L1Pt, s.mem[a]);
      ReplaceWord(cfg, s, a, w, s');
      SameTypesActive(s, s');
    }
  }

  lemma SameRefs(s: State, s': State, b: int)
    requires forall a :: 0 <= a < MEM_WORDS ==> Kind(s', a) == Kind(s, a)
    requires s'.mem == s.mem
    ensures Refs(s', 0, MEM_WORDS, b) == Refs(s, 0, MEM_WORDS, b)
  {
    hide RefOf, Kind, Refs;
    forall a | 0 <= a < MEM_WORDS
      ensures RefAt(s, a, b) == RefAt(s', a, b)
    {
    }
    RefsSame(s, s', 0, MEM_WORDS, b);
  }

  /** Only counts moved: tables stay sound exactly when every count still covers the references. */
  lemma CountsMoved(cfg: Config, s: State, s': State)
    requires TablesOk(cfg, s) && s'.mem == s.mem && s'.ttbr == s.ttbr
    requires forall b :: 0 <= b < BLOCKS ==> s'.bft[b].typ == s.bft[b].typ
    ensures forall b :: 0 <= b < BLOCKS ==>
      Slack(s', b) == Slack(s, b) + s'.bft[b].refcnt - s.bft[b].refcnt
    ensures TablesOk(cfg, s') <==> forall b :: 0 <= b < BLOCKS ==> Slack(s', b) >= 0
  {
    hide RefOf, StaticOk, Reserved, Target, Refs;
    SameKinds(s, s');
    forall b | 0 <= b < BLOCKS
      ensures Slack(s', b) == Slack(s, b) + s'.bft[b].refcnt - s.bft[b].refcnt
    {
      SameRefs(s, s', b);
    }
    forall c | 0 <= c < MEM_WORDS
      ensures WordOk(cfg, s', c)
    {
      assert WordOk(cfg, s, c);
    }
  }

  /** Only the count of `blk` moved: tables stay sound exactly when it still covers the references. */
  lemma CountMoved(cfg: Config, s: State, blk: nat, s': State)
    requires TablesOk(cfg, s) && blk < BLOCKS
    requires s'.mem == s.mem && s'.ttbr == s.ttbr
    requires forall b :: 0 <= b < BLOCKS ==>
      s'.bft[b].typ == s.bft[b].typ && (b != blk ==> s'.bft[b].refcnt == s.bft[b].refcnt)
    ensures forall b :: 0 <= b < BLOCKS ==>
      Slack(s', b) == Slack(s, b) + s'.bft[b].refcnt - s.bft[b].refcnt
    ensures TablesOk(cfg, s') <==> Slack(s', blk) >= 0
  {
    hide Slack, WordOk, MasterKept, Grouped;
    CountsMoved(cfg, s, s');
    if Slack(s', blk) >= 0 {
      forall b | 0 <= b < BLOCKS
        ensures Slack(s', b) >= 0
      {
        assert Slack(s, b) >= 0;
      }
    }
  }

  lemma MapL1PtShape(cfg: Config, s: State, va: Word, l2Base: Word, attrs: Word)
    ensures var (e, s') := MapL1Pt(cfg, s, va, l2Base, attrs);
      var w := CreatePtDesc(l2Base, attrs);
      var blk := l2Base / PAGE_SIZE;
      && (e != SUCCESS_MMU && e != ERR_MMU_L2_BASE_OUT_OF_RANGE ==> s' == s)
      && (e == SUCCESS_MMU || e == ERR_MMU_L2_BASE_OUT_OF_RANGE ==>
        && s.bft[blk].typ == L2Pt && s.bft[blk].refcnt < MAX_30BIT && Pxn(attrs) == 0
        && s'.ttbr == s.ttbr
        && forall b :: 0 <= b < BLOCKS ==> s'.bft[b] == Moved(s.bft[b], if b == blk then 1 else 0))
      && (e == SUCCESS_MMU ==>
        && !PtUpperHalf(w) && Typ(s.mem[L1Slot(s, va)]) == 0
        && s'.mem == s.mem[L1Slot(s, va) := w] && !Reserved(cfg, va / SECTION_SIZE))
      && (e == ERR_MMU_L2_BASE_OUT_OF_RANGE ==> s'.mem == s.mem)
  {
    hide CreatePtDesc, RangeOk, L1Slot;
  }

  /** Linking an L2 keeps the exact counts, except that the half-page error leaves one count too many. */
  lemma MapL1PtKeeps(cfg: Config, s: State, va: Word, l2Base: Word, attrs: Word)
    requires Inv(cfg, s)
    ensures Inv(cfg, MapL1Pt(cfg, s, va, l2Base, attrs).1)
    ensures forall b :: 0 <= b < BLOCKS ==>
      Slack(MapL1Pt(cfg, s, va, l2Base, attrs).1, b) == Slack(s, b)
        + (if MapL1Pt(cfg, s, va, l2Base, attrs).0 == ERR_MMU_L2_BASE_OUT_OF_RANGE && b == l2Base / PAGE_SIZE
           then 1 else 0)
  {
    hide StaticOk, CreatePtDesc, WordOk, Slack, MasterKept, MapL1Pt, L1Slot, PtUpperHalf, RefOf;
    MapL1PtShape(cfg, s, va, l2Base, attrs);
    var (e, s') := MapL1Pt(cfg, s, va, l2Base, attrs);
    var w := CreatePtDesc(l2Base, attrs);
    PtDescFields(l2Base, attrs);
    if e == SUCCESS_MMU {
      var a := L1Slot(s, va);
      L1SlotFacts(s, va);
      UnmappedHoldsNothing(cfg, L1Pt, s.mem[a]);
      PtSound(cfg, s.bft, w);
      ReplaceWord(cfg, s, a, w, s');
      SameTypesActive(s, s');
    } else if e == ERR_MMU_L2_BASE_OUT_OF_RANGE {
      assert Slack(s, l2Base / PAGE_SIZE) >= 0;
      CountMoved(cfg, s, l2Base / PAGE_SIZE, s');
      SameTypesActive(s, s');
    }
  }

  lemma PtSound(cfg: Config, bft: Bft, w: Word)
    requires Typ(w) == 1 && !PtUpperHalf(w) && Pxn(w) == 0 && bft[PtBlock(w)].typ == L2Pt
    ensures StaticOk(cfg, L1Pt, w) && TargetsOk(bft, L1Pt, w)
    ensures forall b :: RefOf(L1Pt, w, b) == if b == PtBlock(w) then 1 else 0
  {
  }

  lemma UnmappedTyp(w: Word)
    ensures Typ(UnmapDesc(w)) == 0
  {
  }

  lemma UnmapL1EntryKeeps(cfg: Config, s: State, va: Word)
    requires Inv(cfg, s)
    ensures Inv(cfg, UnmapL1Entry(cfg, s, va).1) && SlackKept(s, UnmapL1Entry(cfg, s, va).1)
  {
    hide StaticOk, RefOf, WordOk, Slack, MasterKept, Grouped, L1Slot, Kind, SecIndic, UnmapDesc;
    var (e, s') := UnmapL1Entry(cfg, s, va);
    if e == SUCCESS_MMU {
      var a := L1Slot(s, va);
      L1SlotFacts(s, va);
      UnmappedTyp(s.mem[a]);
      UnmappedHoldsNothing(cfg, L1Pt, UnmapDesc(s.mem[a]));
      ReplaceWord(cfg, s, a, UnmapDesc(s.mem[a]), s');
      SameTypesActive(s, s');
    }
  }

  lemma L2SlotFacts(s: State, l2Base: Word, idx: Word)
    requires idx < 512 && s.bft[l2Base / PAGE_SIZE].typ == L2Pt
    ensures Kind(s, L2Slot(l2Base, idx)) == L2Pt
  {
    hide L2Slot;
    var a := L2Slot(l2Base, idx);
    assert a / 1024 == l2Base / PAGE_SIZE && a % 1024 == idx;
  }

  /** Mapping an entry that is translated as a second-level one. */
  lemma MapInTableKeeps(cfg: Config, s: State, l2Base: Word, idx: Word, pa: Word, attrs: Word)
    requires Inv(cfg, s) && Kind(s, L2Slot(l2Base, idx)) == L2Pt
    ensures Inv(cfg, MapL2Entry(cfg, s, l2Base, idx, pa, attrs).1)
    ensures SlackKept(s, MapL2Entry(cfg, s, l2Base, idx, pa, attrs).1)
  {
    hide StaticOk, RefOf, L2SmallCheck, CreateSmallDesc, RangeOk, WordOk, Slack, MasterKept, Grouped, Kind, L2Slot;
    KindIsType(s, L2Slot(l2Base, idx));
    var (e, s') := MapL2Entry(cfg, s, l2Base, idx, pa, attrs);
    if e == SUCCESS_MMU {
      var a := L2Slot(l2Base, idx);
      var w := CreateSmallDesc(pa, attrs);
      UnmappedHoldsNothing(cfg, L2Pt, s.mem[a]);
      SmallDescFields(pa, attrs);
      assert L2Check(cfg, s.bft, w, l2Base) == SUCCESS_MMU;
      L2CheckOk(cfg, s.bft, w, l2Base);
      ReplaceWord(cfg, s, a, w, s');
      SameTypesActive(s, s');
    }
  }

  lemma KindIsType(s: State, a: nat)
    requires a < MEM_WORDS && Kind(s, a) == L2Pt
    ensures s.bft[a / 1024].typ == L2Pt
  {
  }

  /** Unmapping an entry that is translated as a second-level one. */
  lemma UnmapInTableKeeps(cfg: Config, s: State, l2Base: Word, idx: Word)
    requires Inv(cfg, s) && Kind(s, L2Slot(l2Base, idx)) == L2Pt
    ensures Inv(cfg, UnmapL2Entry(cfg, s, l2Base, idx).1) && SlackKept(s, UnmapL2Entry(cfg, s, l2Base, idx).1)
  {
    hide StaticOk, RefOf, WordOk, Slack, MasterKept, L2Slot, RangeOk, Kind, Grouped, UnmapDesc;
    KindIsType(s, L2Slot(l2Base, idx));
    UnmappedTyp(s.mem[L2Slot(l2Base, idx)]);
    var (e, s') := UnmapL2Entry(cfg, s, l2Base, idx);
    var a := L2Slot(l2Base, idx);
    if s' != s {
      UnmappedHoldsNothing(cfg, L2Pt, UnmapDesc(s.mem[a]));
      ReplaceWord(cfg, s, a, UnmapDesc(s.mem[a]), s');
      SameTypesActive(s, s');
    }
  }

  lemma SwitchMmKeeps(cfg: Config, s: State, base: Word)
    requires Inv(cfg, s)
    ensures Inv(cfg, SwitchMm(cfg, s, base).1) && SlackKept(s, SwitchMm(cfg, s, base).1)
    ensures SwitchMm(cfg, s, base).0 == SUCCESS_MMU ==> FourOfType(s.bft, base / PAGE_SIZE, L1Pt)
  {
    hide StaticOk, RefOf, Reserved, RangeOk, Target;
    var (e, s') := SwitchMm(cfg, s, base);
    if e == SUCCESS_MMU {
      GroupIsFour(s.bft, base / PAGE_SIZE);
      SameKinds(s, s');
      forall b | 0 <= b < BLOCKS
        ensures Slack(s', b) == Slack(s, b)
      {
        SameRefs(s, s', b);
      }
      forall c | 0 <= c < MEM_WORDS
        ensures WordOk(cfg, s', c)
      {
        assert WordOk(cfg, s, c);
      }
    }
  }

  /** A 16 KB group is of type L1PT as soon as its first block is. */
  lemma GroupIsFour(bft: Bft, p: nat)
    requires Grouped(bft) && p < BLOCKS && p % 4 == 0 && bft[p].typ == L1Pt
    ensures FourOfType(bft, p, L1Pt)
  {
    assert bft[p + 1].typ == L1Pt && bft[p + 2].typ == L1Pt && bft[p + 3].typ == L1Pt;
  }
}
