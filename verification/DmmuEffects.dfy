/**
  What each command is for: exactly when it succeeds, which words it writes,
  and what becomes of the addresses that the processor translates.
*/
module DmmuEffects {
  import opened Bits
  import opened DmmuState
  import opened DmmuCommands
  import opened DmmuCounting
  import opened DmmuInvariant
  import opened DmmuTables
  import opened DmmuIndices
  import opened DmmuSafety
  import opened DmmuRuns
  import opened DmmuResults
  import opened DmmuChecks

  // ---------- the words that a translation reads ----------

  /** A translation reads an entry of the active L1, and if that points to an L2 an entry of its validated half. */
  lemma ReadKinds(cfg: Config, s: State, va: Word)
    requires Inv(cfg, s)
    ensures Kind(s, L1Slot(s, va)) == L1Pt && L1Slot(s, va) % 4096 == va / SECTION_SIZE
    ensures Typ(s.mem[L1Slot(s, va)]) == 1 ==> Kind(s, L2Word(s.mem[L1Slot(s, va)], va)) == L2Pt
  {
    hide Refs, MasterKept, Grouped, IntersectsCached, RangeOk, DomainGranted, Slack, L1Slot;
    L1SlotFacts(s, va);
    var w := s.mem[L1Slot(s, va)];
    assert WordOk(cfg, s, L1Slot(s, va));
    if Typ(w) == 1 {
      assert RefOf(L1Pt, w, PtBlock(w)) == 1;
      L2WordPlace(w, va);
    }
  }

  /** The translation of `va` goes through word `a`. */
  predicate Reads(s: State, va: Word, a: int)
  {
    var w := s.mem[L1Slot(s, va)];
    a == L1Slot(s, va) || (Typ(w) == 1 && a == L2Word(w, va))
  }

  lemma SameSlots(s: State, s': State, va: Word)
    requires s'.ttbr == s.ttbr
    ensures L1Slot(s', va) == L1Slot(s, va)
  {
  }

  /** A translation that reads no changed word is as before. */
  lemma UnreadChanges(s: State, s': State, dacr: Word, va: Word)
    requires s'.ttbr == s.ttbr
    requires forall a :: 0 <= a < MEM_WORDS && Reads(s, va, a) ==> s'.mem[a] == s.mem[a]
    ensures Translate(s', dacr, va) == Translate(s, dacr, va)
  {
    hide TranslateL2, L1Slot, L2Word;
    SameSlots(s, s', va);
    var w := s.mem[L1Slot(s, va)];
    assert Reads(s, va, L1Slot(s, va));
    if Typ(w) == 1 {
      assert Reads(s, va, L2Word(w, va));
    }
  }

  /** Writing data words changes no translation. */
  lemma DataWrites(cfg: Config, s: State, s': State, dacr: Word, va: Word)
    requires Inv(cfg, s) && s'.ttbr == s.ttbr
    requires forall a :: 0 <= a < MEM_WORDS && Kind(s, a) != Data ==> s'.mem[a] == s.mem[a]
    ensures Translate(s', dacr, va) == Translate(s, dacr, va)
  {
    hide Inv, Translate, L1Slot, Kind, L2Word;
    ReadKinds(cfg, s, va);
    UnreadChanges(s, s', dacr, va);
  }

  /** Two addresses of different sections read different words of the active L1, and an L2 entry is none of them. */
  lemma SlotsApart(cfg: Config, s: State, va: Word, other: Word)
    requires Inv(cfg, s) && va / SECTION_SIZE != other / SECTION_SIZE
    ensures !Reads(s, other, L1Slot(s, va))
  {
    hide Inv, L1Slot, Kind, L2Word;
    ReadKinds(cfg, s, va);
    ReadKinds(cfg, s, other);
  }

  lemma SameSection(s: State, va: Word, x: Word)
    requires va / SECTION_SIZE == x / SECTION_SIZE
    ensures L1Slot(s, va) == L1Slot(s, x)
  {
  }

  // ---------- switching ----------

  /**
    Switching succeeds exactly on an aligned L1 in range, and from then on every
    address is translated from the table at `base`.
  */
  lemma SwitchMmEffect(cfg: Config, s: State, base: Word)
    requires Inv(cfg, s)
    ensures var (e, s') := SwitchMm(cfg, s, base);
      && (e == SUCCESS_MMU <==>
        && RangeOk(cfg, base, 0x4000) && base % 0x4000 == 0
        && forall b :: 0 <= b < BLOCKS && b / 4 == base / 0x4000 ==> s.bft[b].typ == L1Pt)
      && (e != SUCCESS_MMU ==> s' == s)
      && s'.mem == s.mem && s'.bft == s.bft
      && (e == SUCCESS_MMU ==> s'.ttbr == base && forall va: Word ::
        && L1Slot(s', va) == base / 4 + va / SECTION_SIZE
        && forall dacr :: Translate(s', dacr, va) == TranslateL1(s.mem, dacr, s.mem[base / 4 + va / SECTION_SIZE], va))
  {
    hide RangeOk, TranslateL1, TablesOk, L1Slot, Grouped;
    InvGrouped(cfg, s);
    if base % 0x4000 == 0 {
      var p := base / PAGE_SIZE;
      assert p % 4 == 0 && p / 4 == base / 0x4000;
      if s.bft[p].typ == L1Pt {
        GroupIsFour(s.bft, p);
      }
      SlotsFrom(SwitchMm(cfg, s, base).1, base);
    }
  }

  lemma SlotsFrom(s: State, base: Word)
    requires base % 0x4000 == 0
    ensures s.ttbr == base ==> forall va: Word :: L1Slot(s, va) == base / 4 + va / SECTION_SIZE
  {
    assert base / 0x4000 * 4096 == base / 4;
  }

  // ---------- first-level entries ----------

  /** One word of the active L1 became `w`: what else is translated stays. */
  ghost predicate EntrySet(s: State, va: Word, w: Word, s': State)
  {
    && s'.mem == s.mem[L1Slot(s, va) := w] && s'.ttbr == s.ttbr
    && forall b :: 0 <= b < BLOCKS ==> s'.bft[b].typ == s.bft[b].typ
  }

  lemma EntryElsewhere(cfg: Config, s: State, va: Word, w: Word, s': State, dacr: Word, x: Word)
    requires Inv(cfg, s) && EntrySet(s, va, w, s')
    ensures x / SECTION_SIZE != va / SECTION_SIZE ==> Translate(s', dacr, x) == Translate(s, dacr, x)
    ensures x / SECTION_SIZE == va / SECTION_SIZE ==> Translate(s', dacr, x) == TranslateL1(s'.mem, dacr, w, x)
  {
    hide Inv, L1Slot, TranslateL1;
    if x / SECTION_SIZE != va / SECTION_SIZE {
      hide Translate;
      SlotsApart(cfg, s, va, x);
      UnreadChanges(s, s', dacr, x);
    } else {
      SameSection(s, va, x);
      SameSlots(s, s', x);
    }
  }

  /** When a section may be mapped. */
  ghost predicate SectionMappable(cfg: Config, s: State, va: Word, pa: Word, attrs: Word)
  {
    && !Reserved(cfg, va / SECTION_SIZE) && RangeOk(cfg, pa, SECTION_SIZE)
    && Typ(s.mem[L1Slot(s, va)]) == 0
    && 1 <= SecAp(attrs) <= 3
    && (IntersectsCached(cfg, pa / SECTION_SIZE * SECTION_SIZE, SECTION_SIZE) ==> SecC(attrs) == 1)
    && (SecAp(attrs) == 3 ==>
      && (forall b :: 0 <= b < BLOCKS && b / 256 == pa / SECTION_SIZE ==>
        s.bft[b].typ == Data && s.bft[b].refcnt < MAX_30BIT - 4096)
      && (DomainGranted(cfg, Domain(attrs)) ==> RangeOk(cfg, pa / SECTION_SIZE * SECTION_SIZE, SECTION_SIZE)))
  }

  /**
    A section is mapped exactly when the entry is free and not reserved, and
    the section may be mapped so; the entry then names the section of `pa`
    with the permission, domain and cacheability of `attrs`.
  */
  lemma MapL1SectionEffect(cfg: Config, s: State, va: Word, pa: Word, attrs: Word)
    requires Inv(cfg, s)
    ensures var (e, s') := MapL1Section(cfg, s, va, pa, attrs); var w := s'.mem[L1Slot(s, va)];
      && (e == SUCCESS_MMU <==> SectionMappable(cfg, s, va, pa, attrs))
      && (e != SUCCESS_MMU ==> s' == s)
      && (e == SUCCESS_MMU ==>
        && EntrySet(s, va, w, s')
        && Typ(w) == 2 && SecIndic(w) == 0 && SecAddr(w) == pa / SECTION_SIZE
        && SecAp(w) == SecAp(attrs) && Domain(w) == Domain(attrs) && SecC(w) == SecC(attrs)
        && w % 0x4_0000 / 4 == attrs % 0x4_0000 / 4 && w / 0x8_0000 % 2 == attrs / 0x8_0000 % 2)
  {
    hide TablesOk, RangeOk, IntersectsCached, DomainGranted, L1SecCheck, CreateSecDesc, SecAp, SecC, Domain, SecAddr,
      SecIndic, L1Slot, RefOf;
    var w := CreateSecDesc(pa, attrs);
    SecDescLayout(pa, attrs);
    SecDescFields(pa, attrs);
    SecDescNs(pa, attrs);
    L1SecCheckExact(cfg, s.bft, w, s.ttbr);
    NotActive(cfg, s, pa / SECTION_SIZE);
  }

  /** Data blocks are not of the active L1. */
  lemma NotActive(cfg: Config, s: State, sec: int)
    requires Inv(cfg, s) && 0 <= sec < 4096
    ensures WritableSection(s.bft, sec, s.ttbr) <==>
      forall b :: 0 <= b < BLOCKS && b / 256 == sec ==> s.bft[b].typ == Data && s.bft[b].refcnt < MAX_30BIT - 4096
  {
    hide TablesOk;
    var p := s.ttbr / PAGE_SIZE;
    assert p % 4 == 0 && p / 4 * 0x4000 == s.ttbr;
    forall b | 0 <= b < BLOCKS && s.bft[b].typ == Data
      ensures b / 4 * 0x4000 != s.ttbr
    {
      assert b / 4 == p / 4 ==> b == p || b == p + 1 || b == p + 2 || b == p + 3;
    }
  }

  /** Under client domains a mapped section is written at its own place, or not at all. */
  lemma SectionTranslated(cfg: Config, s: State, va: Word, pa: Word, attrs: Word, dacr: Word, x: Word)
    requires Inv(cfg, s) && ClientOnly(dacr) && MapL1Section(cfg, s, va, pa, attrs).0 == SUCCESS_MMU
    ensures var s' := MapL1Section(cfg, s, va, pa, attrs).1;
      Translate(s', dacr, x) ==
        if x / SECTION_SIZE != va / SECTION_SIZE then Translate(s, dacr, x)
        else if SecAp(attrs) == 3 && AcField(dacr, Domain(attrs)) == 1
        then Some(pa / SECTION_SIZE * SECTION_SIZE + x % SECTION_SIZE)
        else None
  {
    hide Inv, MapL1Section, SectionMappable, Translate, SecAp, Domain, AcField, SecIndic, EntrySet, L1Slot;
    MapL1SectionEffect(cfg, s, va, pa, attrs);
    var s' := MapL1Section(cfg, s, va, pa, attrs).1;
    EntryElsewhere(cfg, s, va, s'.mem[L1Slot(s, va)], s', dacr, x);
    DomainBound(attrs);
  }

  lemma DomainBound(w: Word)
    ensures 0 <= Domain(w) < 16
  {
  }

  /**
    An L2 is linked exactly when the entry is free and not reserved, the table
    is the lower half of an L2 block whose count is not at its end, and PXN is
    off.  In the upper half the count is raised all the same.
  */
  lemma MapL1PtEffect(cfg: Config, s: State, va: Word, l2Base: Word, attrs: Word)
    requires Inv(cfg, s)
    ensures var (e, s') := MapL1Pt(cfg, s, va, l2Base, attrs); var w := s'.mem[L1Slot(s, va)];
      var blk := l2Base / PAGE_SIZE;
      var fits := !Reserved(cfg, va / SECTION_SIZE) && RangeOk(cfg, l2Base, PAGE_SIZE) && s.bft[blk].typ == L2Pt
        && Pxn(attrs) == 0 && Typ(s.mem[L1Slot(s, va)]) == 0 && s.bft[blk].refcnt < MAX_30BIT;
      && (e == SUCCESS_MMU <==> fits && l2Base / 0x800 % 2 == 0)
      && (e == ERR_MMU_L2_BASE_OUT_OF_RANGE <==> fits && l2Base / 0x800 % 2 == 1)
      && (e == ERR_MMU_L2_BASE_OUT_OF_RANGE ==> s'.mem == s.mem && s'.ttbr == s.ttbr)
      && (e != SUCCESS_MMU && e != ERR_MMU_L2_BASE_OUT_OF_RANGE ==> s' == s)
      && (e == SUCCESS_MMU ==>
        && EntrySet(s, va, w, s')
        && Typ(w) == 1 && w / 0x400 == l2Base / 0x400 && Domain(w) == Domain(attrs) && Pxn(w) == 0
        && w % 0x400 / 4 == attrs % 0x400 / 4)
  {
    hide TablesOk, RangeOk, CreatePtDesc, Domain, L1Slot, ActiveL1;
    PtDescFields(l2Base, attrs);
    PtDescAttrs(l2Base, attrs);
    PxnBit(attrs);
  }

  lemma PxnBit(w: Word)
    ensures Pxn(w) == 0 || Pxn(w) == 1
  {
  }

  /** Addresses of a linked section are translated by the entries of the L2 at `l2Base`. */
  lemma PtTranslated(cfg: Config, s: State, va: Word, l2Base: Word, attrs: Word, dacr: Word, x: Word)
    requires Inv(cfg, s)
    ensures var (e, s') := MapL1Pt(cfg, s, va, l2Base, attrs);
      Translate(s', dacr, x) ==
        if e != SUCCESS_MMU || x / SECTION_SIZE != va / SECTION_SIZE then Translate(s, dacr, x)
        else if AcField(dacr, Domain(attrs)) == 0 then None
        else TranslateL2(dacr, Domain(attrs), s.mem[L2Word(l2Base, x)], x)
  {
    hide MapL1Pt, Translate, TranslateL2, AcField, EntrySet, RangeOk, TablesOk, L1Slot, ActiveL1, Domain;
    MapL1PtEffect(cfg, s, va, l2Base, attrs);
    var (e, s') := MapL1Pt(cfg, s, va, l2Base, attrs);
    if e == SUCCESS_MMU {
      var w := s'.mem[L1Slot(s, va)];
      EntryElsewhere(cfg, s, va, w, s', dacr, x);
      LinkedWord(cfg, s, va, w, s', l2Base, x);
    } else {
      DataWrites(cfg, s, s', dacr, x);
    }
  }

  /** The entry read is not the one written. */
  lemma LinkedWord(cfg: Config, s: State, va: Word, w: Word, s': State, l2Base: Word, x: Word)
    requires Inv(cfg, s) && EntrySet(s, va, w, s') && w / 0x400 == l2Base / 0x400
    requires s.bft[l2Base / PAGE_SIZE].typ == L2Pt
    ensures L2Word(w, x) == L2Word(l2Base, x) && s'.mem[L2Word(w, x)] == s.mem[L2Word(w, x)]
  {
    hide TablesOk, L1Slot, ActiveL1;
    assert ActiveL1(s);
    L1SlotFacts(s, va);
    var h, i := l2Base / 0x400, x / 0x1000 % 256;
    assert h * 256 + i == h / 4 * 1024 + (h % 4 * 256 + i);
    Split(h / 4, 1024, h % 4 * 256 + i);
    DivDiv(l2Base, 0x400, 4);
  }

  /** An entry is unmapped exactly when it is not reserved and holds something. */
  lemma UnmapL1EntryEffect(cfg: Config, s: State, va: Word)
    requires Inv(cfg, s)
    ensures var (e, s') := UnmapL1Entry(cfg, s, va); var w := s.mem[L1Slot(s, va)];
      && (e == SUCCESS_MMU <==> !Reserved(cfg, va / SECTION_SIZE) && Typ(w) != 0)
      && (e != SUCCESS_MMU ==> s' == s)
      && (e == SUCCESS_MMU ==> EntrySet(s, va, w - Typ(w), s') && Typ(w - Typ(w)) == 0)
  {
    hide TablesOk, L1Slot, RefOf, SecIndic, SecAp;
    var w := s.mem[L1Slot(s, va)];
    L1SlotFacts(s, va);
    SoundWord(cfg, s, L1Slot(s, va));
    UnmappedTyp(w);
    EntryTypes(cfg, w);
  }

  lemma EntryTypes(cfg: Config, w: Word)
    requires StaticOk(cfg, L1Pt, w)
    ensures Typ(w) == 0 || Typ(w) == 1 || (Typ(w) == 2 && SecIndic(w) == 0)
  {
  }

  lemma SectionUnmapped(cfg: Config, s: State, va: Word, dacr: Word, x: Word)
    requires Inv(cfg, s) && UnmapL1Entry(cfg, s, va).0 == SUCCESS_MMU
    ensures var s' := UnmapL1Entry(cfg, s, va).1;
      Translate(s', dacr, x) ==
        if x / SECTION_SIZE != va / SECTION_SIZE then Translate(s, dacr, x) else None
  {
    hide Inv, UnmapL1Entry, Translate, EntrySet, L1Slot;
    UnmapL1EntryEffect(cfg, s, va);
    var w := s.mem[L1Slot(s, va)];
    EntryElsewhere(cfg, s, va, w - Typ(w), UnmapL1Entry(cfg, s, va).1, dacr, x);
  }

  // ---------- second-level entries ----------

  /** Word `a` became `w`, which is no entry of an L1. */
  lemma SmallElsewhere(cfg: Config, s: State, a: nat, w: Word, s': State, dacr: Word, x: Word)
    requires Inv(cfg, s) && a < MEM_WORDS && Kind(s, a) != L1Pt && s'.mem == s.mem[a := w] && s'.ttbr == s.ttbr
    ensures !Reads(s, x, a) ==> Translate(s', dacr, x) == Translate(s, dacr, x)
    ensures Reads(s, x, a) ==> var l := s.mem[L1Slot(s, x)];
      && Typ(l) == 1 && a == L2Word(l, x) && Kind(s, a) == L2Pt
      && Translate(s', dacr, x)
        == if AcField(dacr, Domain(l)) == 0 then None else TranslateL2(dacr, Domain(l), w, x)
  {
    hide Inv, L1Slot, L2Word, TranslateL2, Kind, AcField, Domain;
    ReadKinds(cfg, s, x);
    if !Reads(s, x, a) {
      UnreadChanges(s, s', dacr, x);
    } else {
      SameSlots(s, s', x);
    }
  }

  /**
    A page is mapped exactly when the word named is free, page and table are in
    range, and the page may be mapped so; the word then names the page of `pa`
    with the attributes given.
  */
  lemma MapL2EntryEffect(cfg: Config, s: State, l2Base: Word, idx: Word, pa: Word, attrs: Word)
    ensures var (e, s') := MapL2Entry(cfg, s, l2Base, idx, pa, attrs); var a := L2Slot(l2Base, idx); var w := s'.mem[a];
      var page := pa / PAGE_SIZE;
      && (e == SUCCESS_MMU <==>
        && RangeOk(cfg, l2Base, PAGE_SIZE) && RangeOk(cfg, pa, PAGE_SIZE)
        && s.bft[l2Base / PAGE_SIZE].typ == L2Pt && Typ(s.mem[a]) == 0
        && s.bft[page].refcnt < MAX_30BIT - 1024 && 1 <= SmallAp(attrs) <= 3
        && (IntersectsCached(cfg, page * PAGE_SIZE, PAGE_SIZE) ==> SmallC(attrs) == 1)
        && (SmallAp(attrs) == 3 ==>
          s.bft[page].typ == Data && RangeOk(cfg, page * PAGE_SIZE, PAGE_SIZE)))
      && (e != SUCCESS_MMU ==> s' == s)
      && (e == SUCCESS_MMU ==>
        && s'.mem == s.mem[a := w] && s'.ttbr == s.ttbr
        && Typ(w) >= 2 && SmallBlock(w) == page && SmallAp(w) == SmallAp(attrs) && SmallC(w) == SmallC(attrs)
        && w % 0x1000 / 4 == attrs % 0x1000 / 4 && w % 2 == attrs % 2)
  {
    hide RangeOk, IntersectsCached, SmallAp, SmallC, CreateSmallDesc, L2Slot, RefOf, SmallBlock;
    SmallDescFields(pa, attrs);
    SmallDescAttrs(pa, attrs);
    SmallApBound(attrs);
    SmallApBound(CreateSmallDesc(pa, attrs));
  }

  /**
    Under client domains an address whose translation goes through the word
    named is written in that page, or not at all; all others are as before.
  */
  lemma PageTranslated(cfg: Config, s: State, l2Base: Word, idx: Word, pa: Word, attrs: Word, dacr: Word, x: Word)
    requires Inv(cfg, s) && ClientOnly(dacr) && idx < 4096
    requires MapL2Entry(cfg, s, l2Base, idx, pa, attrs).0 == SUCCESS_MMU
    ensures var s' := MapL2Entry(cfg, s, l2Base, idx, pa, attrs).1; var l := s.mem[L1Slot(s, x)];
      Translate(s', dacr, x) ==
        if !Reads(s, x, L2Slot(l2Base, idx)) then Translate(s, dacr, x)
        else if SmallAp(attrs) == 3 && AcField(dacr, Domain(l)) == 1
        then Some(pa / PAGE_SIZE * PAGE_SIZE + x % PAGE_SIZE)
        else None
  {
    hide Inv, MapL2Entry, Translate, AcField, L1Slot, L2Slot, Reads, SmallAp, Kind, RangeOk, L2Word;
    MapL2EntryEffect(cfg, s, l2Base, idx, pa, attrs);
    InvGrouped(cfg, s);
    MapSlotKind(s, l2Base, idx);
    var s' := MapL2Entry(cfg, s, l2Base, idx, pa, attrs).1;
    SmallElsewhere(cfg, s, L2Slot(l2Base, idx), s'.mem[L2Slot(l2Base, idx)], s', dacr, x);
    DomainBound(s.mem[L1Slot(s, x)]);
  }

  /** Unmapping succeeds on every L2 in range, and clears the type of a word that is a small page. */
  lemma UnmapL2EntryEffect(cfg: Config, s: State, l2Base: Word, idx: Word)
    ensures var (e, s') := UnmapL2Entry(cfg, s, l2Base, idx); var a := L2Slot(l2Base, idx); var w := s.mem[a];
      && (e == SUCCESS_MMU <==> RangeOk(cfg, l2Base, PAGE_SIZE) && s.bft[l2Base / PAGE_SIZE].typ == L2Pt)
      && (e != SUCCESS_MMU || Typ(w) < 2 ==> s' == s)
      && (e == SUCCESS_MMU && Typ(w) >= 2 ==>
        s'.mem == s.mem[a := w - Typ(w)] && Typ(w - Typ(w)) == 0 && s'.ttbr == s.ttbr)
  {
    hide RangeOk, L2Slot, RefOf;
    UnmappedTyp(s.mem[L2Slot(l2Base, idx)]);
  }

  /**
    An address whose translation goes through the word named, in whatever table
    that is, is no longer translated, unless the word points to an L2.
  */
  lemma PageUnmapped(cfg: Config, s: State, l2Base: Word, idx: Word, dacr: Word, x: Word)
    requires Inv(cfg, s) && UnmapL2Entry(cfg, s, l2Base, idx).0 == SUCCESS_MMU
    ensures var s', a := UnmapL2Entry(cfg, s, l2Base, idx).1, L2Slot(l2Base, idx);
      Translate(s', dacr, x) == if Reads(s, x, a) && Typ(s.mem[a]) != 1 then None else Translate(s, dacr, x)
  {
    hide Inv, UnmapL2Entry, AcField, L1Slot, L2Slot, SmallAp, Kind, RangeOk, L2Word, Domain;
    UnmapL2EntryEffect(cfg, s, l2Base, idx);
    var s', a := UnmapL2Entry(cfg, s, l2Base, idx).1, L2Slot(l2Base, idx);
    var w := s.mem[a];
    ReadKinds(cfg, s, x);
    if s' == s {
    } else if Kind(s, a) != L1Pt {
      SmallElsewhere(cfg, s, a, w - Typ(w), s', dacr, x);
    } else if Reads(s, x, a) {
      SameSlots(s, s', x);
    } else {
      UnreadChanges(s, s', dacr, x);
    }
  }

  // ---------- whole tables ----------

  /** The guards of an L1 creation before its words are looked at. */
  predicate L1Place(cfg: Config, s: State, base: Word)
  {
    && RangeOk(cfg, base, 0x4000) && InsideCached(cfg, base, 0x4000) && base % 0x4000 == 0
    && forall b :: 0 <= b < BLOCKS && b / 4 == base / 0x4000 ==> s.bft[b] == Entry(0, Data)
  }

  /** Word `i` of the table to be, with the reserved entries of the master table put over it. */
  function NewWord(cfg: Config, s: State, base: Word, i: nat): Word
    requires base % 0x4000 == 0 && i < 4096
  {
    if Typ(cfg.master[i]) != 0 then cfg.master[i] else s.mem[base / 4 + i]
  }

  ghost predicate L1WordFits(cfg: Config, s: State, base: Word, w: Word)
  {
    && StaticOk(cfg, L1Pt, w) && TargetsOk(s.bft, L1Pt, w)
    && forall b :: 0 <= b < BLOCKS && RefOf(L1Pt, w, b) == 1 ==>
      s.bft[b].refcnt < MAX_30BIT - 4096 && (Target(L1Pt, w) == Data ==> b / 4 != base / 0x4000)
  }

  /**
    An L1 is created exactly in four unreferenced data blocks whose words,
    reserved entries put in, are all sound.  Those entries are written even
    when a word is not, and nothing else is.
  */
  lemma CreateL1Effect(cfg: Config, s: State, base: Word)
    ensures var (e, s') := CreateL1(cfg, s, base);
      && (e == SUCCESS_MMU <==>
        L1Place(cfg, s, base) && forall i :: 0 <= i < 4096 ==> L1WordFits(cfg, s, base, NewWord(cfg, s, base, i)))
      && (!L1Place(cfg, s, base) ==> s' == s)
      && s'.ttbr == s.ttbr && (e != SUCCESS_MMU ==> s'.bft == s.bft)
      && (L1Place(cfg, s, base) ==> forall a :: 0 <= a < MEM_WORDS ==>
        s'.mem[a] == if a / 4096 == base / 0x4000 then NewWord(cfg, s, base, a % 4096) else s.mem[a])
  {
    hide RangeOk, InsideCached, FirstError, AddRefs, Retype, StaticOk, TargetsOk, RefOf, Target, CopyMaster;
    if base % 0x4000 == 0 {
      var p := base / PAGE_SIZE;
      FourBlocks(s.bft, p, base);
      if L1Place(cfg, s, base) {
        Copied(cfg, s, base);
        L1WordsExact(cfg, s, base);
      }
    }
  }

  lemma FourBlocks(bft: Bft, p: nat, base: Word)
    requires base % 0x4000 == 0 && p == base / PAGE_SIZE
    ensures p + 4 <= BLOCKS && p % 4 == 0 && base / 4 == p * 1024 && p / 4 == base / 0x4000
    ensures (forall b :: 0 <= b < BLOCKS && b / 4 == base / 0x4000 ==> bft[b] == Entry(0, Data))
      <==> FourOfType(bft, p, Data) && FourUnreferenced(bft, p)
    ensures (forall b :: 0 <= b < BLOCKS && b / 4 == base / 0x4000 ==> bft[b].typ == L1Pt) <==> FourOfType(bft, p, L1Pt)
  {
    assert p % 4 == 0 && p / 4 == base / 0x4000;
    assert forall b :: b / 4 == p / 4 <==> b == p || b == p + 1 || b == p + 2 || b == p + 3;
  }

  lemma Copied(cfg: Config, s: State, base: Word)
    requires base % 0x4000 == 0
    ensures base / PAGE_SIZE * 1024 + 4096 <= MEM_WORDS
    ensures forall a :: 0 <= a < MEM_WORDS ==>
      CopyMaster(cfg, s.mem, base / PAGE_SIZE * 1024)[a]
        == if a / 4096 == base / 0x4000 then NewWord(cfg, s, base, a % 4096) else s.mem[a]
  {
    hide NewWord, Reserved;
    var off := base / PAGE_SIZE * 1024;
    TableOffset(base);
    forall a | 0 <= a < MEM_WORDS
      ensures CopyMaster(cfg, s.mem, off)[a]
        == if a / 4096 == base / 0x4000 then NewWord(cfg, s, base, a % 4096) else s.mem[a]
    {
      InGroup(a, base / 0x4000);
      PutOver(cfg, s, base, a % 4096);
    }
  }

  lemma TableOffset(base: Word)
    requires base % 0x4000 == 0
    ensures base / PAGE_SIZE * 1024 == base / 0x4000 * 4096 == base / 4 && base / PAGE_SIZE * 1024 + 4096 <= MEM_WORDS
  {
    var g := base / 0x4000;
    assert base == g * 0x4000 && g < 0x4_0000;
    assert base / PAGE_SIZE == 4 * g && base / 4 == g * 4096;
  }

  lemma InGroup(a: nat, g: nat)
    ensures a / 4096 == g <==> g * 4096 <= a < g * 4096 + 4096
    ensures a / 4096 == g ==> a % 4096 == a - g * 4096
  {
  }

  lemma PutOver(cfg: Config, s: State, base: Word, i: nat)
    requires base % 0x4000 == 0 && i < 4096
    ensures NewWord(cfg, s, base, i) == if Reserved(cfg, i) then cfg.master[i] else s.mem[base / 4 + i]
  {
  }

  lemma L1WordsExact(cfg: Config, s: State, base: Word)
    requires base % 0x4000 == 0 && base / PAGE_SIZE * 1024 + 4096 <= MEM_WORDS
    ensures FirstError(cfg, CopyMaster(cfg, s.mem, base / PAGE_SIZE * 1024), s.bft, L1Pt, base / PAGE_SIZE * 1024,
        4096, base) == SUCCESS_MMU
      <==> forall i :: 0 <= i < 4096 ==> L1WordFits(cfg, s, base, NewWord(cfg, s, base, i))
  {
    hide StaticOk, TargetsOk, RefOf, Target, CopyMaster, FirstError, L1Check, NewWord;
    var off := base / PAGE_SIZE * 1024;
    var mem := CopyMaster(cfg, s.mem, off);
    Copied(cfg, s, base);
    FirstErrorExact(cfg, mem, s.bft, L1Pt, off, 4096, base);
    assert off == base / 0x4000 * 4096;
    forall i | 0 <= i < 4096
      ensures mem[off + i] == NewWord(cfg, s, base, i)
      ensures L1Check(cfg, s.bft, mem[off + i], base) == SUCCESS_MMU
        <==> L1WordFits(cfg, s, base, NewWord(cfg, s, base, i))
    {
      L1CheckExact(cfg, s.bft, mem[off + i], base);
    }
  }

  /** An L1 is freed exactly when it is one, and not the active one; its words stay. */
  lemma UnmapL1Effect(cfg: Config, s: State, base: Word)
    ensures var (e, s') := UnmapL1(cfg, s, base);
      && (e == SUCCESS_MMU <==>
        && RangeOk(cfg, base, 0x4000) && base % 0x4000 == 0 && s.ttbr / 0x4000 != base / 0x4000
        && forall b :: 0 <= b < BLOCKS && b / 4 == base / 0x4000 ==> s.bft[b].typ == L1Pt)
      && (e != SUCCESS_MMU ==> s' == s)
      && s'.mem == s.mem && s'.ttbr == s.ttbr
  {
    hide RangeOk, DropRefs, Retype;
    if base % 0x4000 == 0 {
      FourBlocks(s.bft, base / PAGE_SIZE, base);
    }
  }

  ghost predicate L2WordFits(cfg: Config, s: State, base: Word, w: Word)
  {
    && StaticOk(cfg, L2Pt, w) && TargetsOk(s.bft, L2Pt, w)
    && (Typ(w) >= 2 ==> s.bft[SmallBlock(w)].refcnt < MAX_30BIT - 1024)
    && (Typ(w) >= 2 && SmallAp(w) == 3 ==> SmallBlock(w) != base / PAGE_SIZE)
  }

  /** An L2 is created exactly in an unreferenced data block whose lower half is sound; no word is written. */
  lemma CreateL2Effect(cfg: Config, s: State, base: Word)
    requires Grouped(s.bft)
    ensures var (e, s') := CreateL2(cfg, s, base);
      && (e == SUCCESS_MMU <==>
        && RangeOk(cfg, base, PAGE_SIZE) && InsideCached(cfg, base, PAGE_SIZE) && base % PAGE_SIZE == 0
        && s.bft[base / PAGE_SIZE] == Entry(0, Data)
        && forall a :: 0 <= a - base / 4 < 512 ==> L2WordFits(cfg, s, base, s.mem[a]))
      && (e != SUCCESS_MMU ==> s' == s)
      && s'.mem == s.mem && s'.ttbr == s.ttbr
  {
    hide RangeOk, InsideCached, FirstError, AddRefs, Retype, L2WordFits;
    var off := base / PAGE_SIZE * 1024;
    L2WordsExact(cfg, s, off, base);
    assert base % PAGE_SIZE == 0 ==> off == base / 4;
  }

  lemma L2WordsExact(cfg: Config, s: State, off: nat, base: Word)
    requires off + 512 <= MEM_WORDS
    ensures FirstError(cfg, s.mem, s.bft, L2Pt, off, 512, base) == SUCCESS_MMU
      <==> forall a :: off <= a < off + 512 ==> L2WordFits(cfg, s, base, s.mem[a])
  {
    hide L2WordFits, FirstError, L2Check;
    FirstErrorExact(cfg, s.mem, s.bft, L2Pt, off, 512, base);
    forall a | off <= a < off + 512
      ensures L2Check(cfg, s.bft, s.mem[a], base) == SUCCESS_MMU <==> L2WordFits(cfg, s, base, s.mem[a])
    {
      L2WordExact(cfg, s, base, s.mem[a]);
    }
  }

  lemma L2WordExact(cfg: Config, s: State, base: Word, w: Word)
    ensures L2Check(cfg, s.bft, w, base) == SUCCESS_MMU <==> L2WordFits(cfg, s, base, w)
  {
    hide StaticOk, TargetsOk, L2Check, SmallAp, SmallBlock;
    L2CheckExact(cfg, s.bft, w, base);
  }

  /** An L2 is freed exactly when no first-level descriptor or pin counts for it; its words stay. */
  lemma UnmapL2Effect(cfg: Config, s: State, base: Word)
    ensures var (e, s') := UnmapL2(cfg, s, base);
      && (e == SUCCESS_MMU <==>
        RangeOk(cfg, base, PAGE_SIZE) && base % PAGE_SIZE == 0 && s.bft[base / PAGE_SIZE] == Entry(0, L2Pt))
      && (e != SUCCESS_MMU ==> s' == s)
      && s'.mem == s.mem && s'.ttbr == s.ttbr
  {
    hide RangeOk, DropRefs, Retype;
  }

  /** Creating or freeing a table changes no translation. */
  lemma TablesTranslated(cfg: Config, s: State, base: Word, dacr: Word, x: Word)
    requires Inv(cfg, s)
    ensures Translate(CreateL1(cfg, s, base).1, dacr, x) == Translate(s, dacr, x)
    ensures Translate(UnmapL1(cfg, s, base).1, dacr, x) == Translate(s, dacr, x)
    ensures Translate(CreateL2(cfg, s, base).1, dacr, x) == Translate(s, dacr, x)
    ensures Translate(UnmapL2(cfg, s, base).1, dacr, x) == Translate(s, dacr, x)
  {
    hide Inv, CreateL1, UnmapL1, CreateL2, UnmapL2, Translate, NewWord, L1WordFits, L2WordFits, RangeOk, InsideCached;
    InvGrouped(cfg, s);
    CreateL1Effect(cfg, s, base);
    UnmapL1Effect(cfg, s, base);
    CreateL2Effect(cfg, s, base);
    UnmapL2Effect(cfg, s, base);
    var s' := CreateL1(cfg, s, base).1;
    forall a | 0 <= a < MEM_WORDS && Kind(s, a) != Data
      ensures s'.mem[a] == s.mem[a]
    {
      assert a / 1024 / 4 == a / 4096;
    }
    DataWrites(cfg, s, s', dacr, x);
    DataWrites(cfg, s, UnmapL1(cfg, s, base).1, dacr, x);
    DataWrites(cfg, s, CreateL2(cfg, s, base).1, dacr, x);
    DataWrites(cfg, s, UnmapL2(cfg, s, base).1, dacr, x);
  }

  // ---------- what the errors say ----------

  /** An error of a command on first-level entries names a requirement that is missed. */
  lemma L1EntryErrors(cfg: Config, s: State, va: Word, pa: Word, attrs: Word)
    ensures var e, w := MapL1Section(cfg, s, va, pa, attrs).0, CreateSecDesc(pa, attrs);
      || e == SUCCESS_MMU
      || (e == ERR_MMU_RESERVED_VA && Reserved(cfg, va / SECTION_SIZE))
      || (e == ERR_MMU_OUT_OF_RANGE_PA && !RangeOk(cfg, pa, SECTION_SIZE))
      || (e == ERR_MMU_SECTION_NOT_UNMAPPED && Typ(s.mem[L1Slot(s, va)]) != 0)
      || e == L1Check(cfg, s.bft, w, s.ttbr)
    ensures var e, blk := MapL1Pt(cfg, s, va, pa, attrs).0, pa / PAGE_SIZE;
      || e == SUCCESS_MMU
      || (e == ERR_MMU_RESERVED_VA && Reserved(cfg, va / SECTION_SIZE))
      || (e == ERR_MMU_OUT_OF_RANGE_PA && !RangeOk(cfg, pa, PAGE_SIZE))
      || (e == ERR_MMU_IS_NOT_L2_PT && s.bft[blk].typ != L2Pt)
      || (e == ERR_MMU_XN_BIT_IS_ON && Pxn(attrs) == 1)
      || (e == ERR_MMU_PT_NOT_UNMAPPED && Typ(s.mem[L1Slot(s, va)]) != 0)
      || (e == ERR_MMU_REF_OVERFLOW && s.bft[blk].refcnt == MAX_30BIT)
      || (e == ERR_MMU_L2_BASE_OUT_OF_RANGE && pa / 0x800 % 2 == 1)
    ensures var e, w := UnmapL1Entry(cfg, s, va).0, s.mem[L1Slot(s, va)];
      || e == SUCCESS_MMU
      || (e == ERR_MMU_RESERVED_VA && Reserved(cfg, va / SECTION_SIZE))
      || (e == ERR_MMU_ENTRY_UNMAPPED && (Typ(w) == 0 || Typ(w) == 3 || SecIndic(w) == 1))
  {
    hide RangeOk, CreateSecDesc, CreatePtDesc, L1SecCheck, L1Slot, PtUpperHalf, RefOf;
    SecDescLayout(pa, attrs);
    PtDescFields(pa, attrs);
  }

  lemma L2EntryErrors(cfg: Config, s: State, l2Base: Word, idx: Word, pa: Word, attrs: Word)
    ensures var e := MapL2Entry(cfg, s, l2Base, idx, pa, attrs).0;
      || e == SUCCESS_MMU
      || (e == ERR_MMU_OUT_OF_RANGE_PA && !(RangeOk(cfg, l2Base, PAGE_SIZE) && RangeOk(cfg, pa, PAGE_SIZE)))
      || (e == ERR_MMU_IS_NOT_L2_PT && s.bft[l2Base / PAGE_SIZE].typ != L2Pt)
      || (e == ERR_MMU_PT_NOT_UNMAPPED && Typ(s.mem[L2Slot(l2Base, idx)]) != 0)
      || e == L2Check(cfg, s.bft, CreateSmallDesc(pa, attrs), l2Base)
    ensures var e := UnmapL2Entry(cfg, s, l2Base, idx).0;
      || e == SUCCESS_MMU
      || (e == ERR_MMU_OUT_OF_RANGE_PA && !RangeOk(cfg, l2Base, PAGE_SIZE))
      || (e == ERR_MMU_IS_NOT_L2_PT && s.bft[l2Base / PAGE_SIZE].typ != L2Pt)
  {
    hide RangeOk, CreateSmallDesc, L2SmallCheck, L2Slot, RefOf;
    SmallDescFields(pa, attrs);
  }

  /** Of a command on a whole table that fails before its words are looked at. */
  lemma TableErrors(cfg: Config, s: State, base: Word)
    ensures var e, b := CreateL1(cfg, s, base).0, base / PAGE_SIZE;
      || L1Place(cfg, s, base)
      || (e == ERR_MMU_OUT_OF_RANGE_PA && !RangeOk(cfg, base, 0x4000))
      || (e == ERR_MMU_OUT_OF_CACHEABLE_RANGE && !InsideCached(cfg, base, 0x4000))
      || (e == ERR_MMU_L1_BASE_IS_NOT_16KB_ALIGNED && base % 0x4000 != 0)
      || (e == ERR_MMU_ALREADY_L1_PT && s.bft[b].typ == L1Pt)
      || (e == ERR_MMU_PT_REGION && exists c :: 0 <= c < BLOCKS && c / 4 == b / 4 && s.bft[c].typ != Data)
      || (e == ERR_MMU_REFERENCED && exists c :: 0 <= c < BLOCKS && c / 4 == b / 4 && s.bft[c].refcnt != 0)
    ensures var e, b := UnmapL1(cfg, s, base).0, base / PAGE_SIZE;
      || e == SUCCESS_MMU
      || (e == ERR_MMU_OUT_OF_RANGE_PA && !RangeOk(cfg, base, 0x4000))
      || (e == ERR_MMU_L1_BASE_IS_NOT_16KB_ALIGNED && base % 0x4000 != 0)
      || (e == ERR_MMU_IS_NOT_L1_PT && exists c :: 0 <= c < BLOCKS && c / 4 == b / 4 && s.bft[c].typ != L1Pt)
      || (e == ERR_MMU_FREE_ACTIVE_L1 && s.ttbr / 0x4000 == base / 0x4000)
    ensures var e, b := UnmapL2(cfg, s, base).0, base / PAGE_SIZE;
      || e == SUCCESS_MMU
      || (e == ERR_MMU_OUT_OF_RANGE_PA && !RangeOk(cfg, base, PAGE_SIZE))
      || (e == ERR_MMU_IS_NOT_L2_PT && (s.bft[b].typ != L2Pt || base % PAGE_SIZE != 0))
      || (e == ERR_MMU_REFERENCE_L2 && s.bft[b].refcnt != 0)
    ensures var e := SwitchMm(cfg, s, base).0;
      || e == SUCCESS_MMU
      || (e == ERR_MMU_OUT_OF_RANGE_PA && !RangeOk(cfg, base, 0x4000))
      || (e == ERR_MMU_L1_BASE_IS_NOT_16KB_ALIGNED && base % 0x4000 != 0)
      || (e == ERR_MMU_IS_NOT_L1_PT && s.bft[base / PAGE_SIZE].typ != L1Pt)
  {
    hide RangeOk, InsideCached, FirstError, AddRefs, DropRefs, Retype, CopyMaster;
    if base % 0x4000 == 0 {
      var p := base / PAGE_SIZE;
      FourBlocks(s.bft, p, base);
      assert p / 4 == (p + 1) / 4 == (p + 2) / 4 == (p + 3) / 4;
    }
  }

  lemma CreateL2Errors(cfg: Config, s: State, base: Word)
    ensures var e, b := CreateL2(cfg, s, base).0, base / PAGE_SIZE;
      || e == SUCCESS_MMU
      || (e == ERR_MMU_OUT_OF_RANGE_PA && !RangeOk(cfg, base, PAGE_SIZE))
      || (e == ERR_MMU_OUT_OF_CACHEABLE_RANGE && !InsideCached(cfg, base, PAGE_SIZE))
      || (e == ERR_MMU_BASE_ADDRESS_IS_NOT_ALIGNED && base % PAGE_SIZE != 0)
      || (e == ERR_MMU_ALREADY_L2_PT && s.bft[b].typ == L2Pt)
      || (e == ERR_MMU_PT_REGION && s.bft[b].typ == L1Pt)
      || (e == ERR_MMU_REFERENCED && s.bft[b].refcnt != 0)
      || exists a :: 0 <= a - base / 4 < 512 && e == L2Check(cfg, s.bft, s.mem[a], base)
  {
    hide RangeOk, InsideCached, FirstError, AddRefs, Retype, L2Check;
    var off := base / PAGE_SIZE * 1024;
    if base % PAGE_SIZE == 0 && FirstError(cfg, s.mem, s.bft, L2Pt, off, 512, base) != SUCCESS_MMU {
      assert off == base / 4;
      var a := FirstErrorIs(cfg, s.mem, s.bft, L2Pt, off, 512, base);
    }
  }

  /** An L1 that is refused for its words is refused for the first that fails. */
  lemma CreateL1Errors(cfg: Config, s: State, base: Word)
    requires L1Place(cfg, s, base) && CreateL1(cfg, s, base).0 != SUCCESS_MMU
    ensures exists i :: 0 <= i < 4096 && CreateL1(cfg, s, base).0 == L1Check(cfg, s.bft, NewWord(cfg, s, base, i), base)
  {
    hide RangeOk, InsideCached, FirstError, AddRefs, Retype, L1Check, NewWord, CopyMaster;
    var p := base / PAGE_SIZE;
    FourBlocks(s.bft, p, base);
    Copied(cfg, s, base);
    var mem := CopyMaster(cfg, s.mem, p * 1024);
    var a := FirstErrorIs(cfg, mem, s.bft, L1Pt, p * 1024, 4096, base);
    assert a / 4096 == base / 0x4000;
    assert mem[a] == NewWord(cfg, s, base, a % 4096);
  }

  // ---------- the handler ----------

  /** The operation number and the packing of arguments of each command. */
  lemma HandlerTable(cfg: Config, s: State, p1: Word, p2: Word, p3: nat)
    requires p3 < 0x1000_0000
    ensures Handle(cfg, s, p3 * 16, p1, p2) == MapL1Section(cfg, s, p1, p2, p3)
    ensures Handle(cfg, s, p3 * 16 + 1, p1, p2) == UnmapL1Entry(cfg, s, p1)
    ensures Handle(cfg, s, p3 * 16 + 2, p1, p2) == CreateL2(cfg, s, p1)
    ensures Handle(cfg, s, p3 * 16 + 3, p1, p2) == MapL1Pt(cfg, s, p1, p2, p3)
    ensures Handle(cfg, s, p3 * 16 + 4, p1, p2) == MapL2Entry(cfg, s, p1, p2 / 0x10_0000, p3 * 16, p2 % 0x1000)
    ensures Handle(cfg, s, p3 * 16 + 5, p1, p2) == UnmapL2Entry(cfg, s, p1, p2)
    ensures Handle(cfg, s, p3 * 16 + 6, p1, p2) == UnmapL2(cfg, s, p1)
    ensures Handle(cfg, s, p3 * 16 + 7, p1, p2) == CreateL1(cfg, s, p1)
    ensures Handle(cfg, s, p3 * 16 + 8, p1, p2) == SwitchMm(cfg, s, p1)
    ensures Handle(cfg, s, p3 * 16 + 9, p1, p2) == UnmapL1(cfg, s, p1)
  {
    hide MapL1Section, UnmapL1Entry, CreateL2, MapL1Pt, MapL2Entry, UnmapL2Entry, UnmapL2, CreateL1, SwitchMm, UnmapL1;
  }

  lemma HandlerRest(cfg: Config, s: State, p03: Word, p1: Word, p2: Word)
    requires p03 % 16 >= 10
    ensures Handle(cfg, s, p03, p1, p2) == (-1, s)
  {
  }
}
