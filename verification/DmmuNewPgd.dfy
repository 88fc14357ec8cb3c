/**
  hypercall_dyn_new_pgd (core/hypervisor/hypercalls/hyp_dmmu.c): the section
  that holds a new 16 KB page directory is replaced by a table of 256 small
  pages, so that the four pages of the directory can be made read-only.
*/
module DmmuNewPgd {
  import opened Bits
  import opened DmmuState
  import opened DmmuCommands
  import opened DmmuCounting
  import opened DmmuInvariant
  import opened DmmuIndices
  import opened DmmuRuns
  import opened DmmuMonitor

  const HC_DOM_KERNEL: int := 1
  const PT_ATTRS: Word := 0x21 // a page table in the kernel's domain
  const RW_ATTRS: Word := 0x3e // a small page, bufferable and cacheable, AP 3
  const RO_ATTRS: Word := 0x2e // the same with AP 2

  /** The attributes of page `j` of the section, `first` being the first page of the directory. */
  function PageAttrs(j: nat, first: nat): Word
  {
    if first <= j < first + 4 then RO_ATTRS else RW_ATTRS
  }

  function SectionOf(s: State, va: Word): int
  {
    SecAddr(s.mem[L1Slot(s, va)])
  }

  /** The page of its section that `va` lies in. */
  function PageOf(va: Word): (j: nat)
    ensures j < 256
  {
    va / PAGE_SIZE % 256
  }

  predicate InSection(sec: int, b: int)
  {
    sec * 256 <= b < sec * 256 + 256
  }

  function PageAddress(sec: int, j: nat): Word
    requires 0 <= sec < 4096 && j < 256
  {
    (sec * 256 + j) * PAGE_SIZE
  }

  /** A user-writable section of guest memory, and an empty, pinned table in the lower half of a page. */
  ghost predicate Splittable(cfg: Config, s: State, va: Word, table: Word)
  {
    var e, sec, q := s.mem[L1Slot(s, va)], SectionOf(s, va), table / PAGE_SIZE;
    && Inv(cfg, s) && !Reserved(cfg, va / SECTION_SIZE)
    && Typ(e) == 2 && SecAp(e) == 3 && Domain(e) == HC_DOM_KERNEL
    && cfg.pstart <= sec * SECTION_SIZE
    && sec * SECTION_SIZE + SECTION_SIZE <= cfg.pstart + cfg.psize + SECTION_SIZE < WORD_LIMIT
    && table % 0x400 == 0 && table / 0x800 % 2 == 0 && RangeOk(cfg, table, PAGE_SIZE)
    && s.bft[q].typ == L2Pt && s.bft[q].refcnt < MAX_30BIT
    && (forall x :: 0 <= x < MEM_WORDS && table / 4 <= x < table / 4 + 256 ==> s.mem[x] == 0)
    && (forall b :: 0 <= b < BLOCKS && InSection(sec, b) ==> s.bft[b].refcnt <= MAX_30BIT - 1024)
  }

  /** The count of block `b` once the section is unmapped and `n` of its pages are mapped again. */
  function SplitCount(s: State, sec: int, table: Word, first: nat, n: nat, b: nat): int
    requires b < BLOCKS
  {
    var j := b - sec * 256;
    s.bft[b].refcnt
    + (if b == table / PAGE_SIZE then 1 else 0)
    - (if InSection(sec, b) && (j >= n || first <= j < first + 4) then 1 else 0)
  }

  /** Word `x`, other than the first-level descriptor, once `n` pages are mapped. */
  function SplitWord(s: State, sec: int, table: Word, first: nat, n: nat, x: nat): Word
    requires x < MEM_WORDS && 0 <= sec < 4096 && n <= 256
  {
    var j := x - table / 4;
    if 0 <= j < n then CreateSmallDesc(PageAddress(sec, j), PageAttrs(j, first)) else s.mem[x]
  }

  /** The state with the table in place and `n` pages mapped; nothing else changed. */
  ghost predicate SplitTo(s: State, s': State, va: Word, table: Word, first: nat, n: nat)
    requires n <= 256
  {
    var a, sec := L1Slot(s, va), SectionOf(s, va);
    && s'.ttbr == s.ttbr && s'.mem[a] == CreatePtDesc(table, PT_ATTRS)
    && (forall x :: 0 <= x < MEM_WORDS && x != a ==> s'.mem[x] == SplitWord(s, sec, table, first, n, x))
    && (forall b :: 0 <= b < BLOCKS ==>
         s'.bft[b].typ == s.bft[b].typ && s'.bft[b].refcnt == SplitCount(s, sec, table, first, n, b))
  }

  // ---------- the section gives way to the table ----------

  lemma SectionFacts(cfg: Config, s: State, va: Word, table: Word)
    requires Splittable(cfg, s, va, table)
    ensures var e, sec, q := s.mem[L1Slot(s, va)], SectionOf(s, va), table / PAGE_SIZE;
      && Kind(s, L1Slot(s, va)) == L1Pt && s.bft[L1Slot(s, va) / 1024].typ == L1Pt
      && SecIndic(e) == 0
      && (forall b :: 0 <= b < BLOCKS ==> RefOf(L1Pt, e, b) == if InSection(sec, b) then 1 else 0)
      && (forall b :: InSection(sec, b) ==> 0 <= b < BLOCKS && s.bft[b].typ == Data && s.bft[b].refcnt >= 1)
      && !InSection(sec, q)
  {
    hide Refs, MasterKept, Grouped, IntersectsCached, RangeOk, DomainGranted, L1Slot;
    var a := L1Slot(s, va);
    L1SlotFacts(s, va);
    assert WordOk(cfg, s, a);
    var e := s.mem[a];
    forall b | InSection(SecAddr(e), b)
      ensures 0 <= b < BLOCKS && s.bft[b].typ == Data && s.bft[b].refcnt >= 1
    {
      assert b / 256 == SecAddr(e);
      assert RefAt(s, a, b) == 1;
      RefsWord(s, a, b);
      assert Slack(s, b) >= 0;
    }
  }

  lemma SectionGone(cfg: Config, s: State, va: Word, table: Word)
    requires Splittable(cfg, s, va, table)
    ensures var (err, u) := UnmapL1Entry(cfg, s, va); var a := L1Slot(s, va);
      && err == SUCCESS_MMU && u.ttbr == s.ttbr && Typ(u.mem[a]) == 0
      && (forall x :: 0 <= x < MEM_WORDS && x != a ==> u.mem[x] == s.mem[x])
      && (forall b :: 0 <= b < BLOCKS ==> u.bft[b].typ == s.bft[b].typ)
      && (forall b :: 0 <= b < BLOCKS ==>
           u.bft[b].refcnt == s.bft[b].refcnt - if InSection(SectionOf(s, va), b) then 1 else 0)
  {
    SectionFacts(cfg, s, va, table);
    hide Inv, L1Slot, RangeOk, RefOf, UnmapL1Entry, Typ, SecAp, SecIndic, Domain, Kind, UnmapDesc;
    EntryUnmapped(cfg, s, va);
  }

  lemma EntryUnmapped(cfg: Config, s: State, va: Word)
    requires var e := s.mem[L1Slot(s, va)];
      && !Reserved(cfg, va / SECTION_SIZE) && Typ(e) == 2 && SecIndic(e) == 0
      && forall b :: 0 <= b < BLOCKS ==> RefOf(L1Pt, e, b) <= s.bft[b].refcnt
    ensures var (err, u) := UnmapL1Entry(cfg, s, va); var a := L1Slot(s, va);
      && err == SUCCESS_MMU && u.ttbr == s.ttbr && u.mem == s.mem[a := UnmapDesc(s.mem[a])] && Typ(u.mem[a]) == 0
      && (forall b :: 0 <= b < BLOCKS ==> u.bft[b].typ == s.bft[b].typ)
      && (forall b :: 0 <= b < BLOCKS ==> u.bft[b].refcnt == s.bft[b].refcnt - RefOf(L1Pt, s.mem[a], b))
  {
    hide L1Slot, RefOf;
  }

  lemma TableMapped(cfg: Config, u: State, va: Word, table: Word)
    requires !Reserved(cfg, va / SECTION_SIZE) && RangeOk(cfg, table, PAGE_SIZE) && table / 0x800 % 2 == 0
    requires u.bft[table / PAGE_SIZE].typ == L2Pt && u.bft[table / PAGE_SIZE].refcnt < MAX_30BIT
    requires Typ(u.mem[L1Slot(u, va)]) == 0
    ensures var (err, t) := MapL1Pt(cfg, u, va, table, PT_ATTRS);
      && err == SUCCESS_MMU && t.ttbr == u.ttbr && t.mem == u.mem[L1Slot(u, va) := CreatePtDesc(table, PT_ATTRS)]
      && (forall b :: 0 <= b < BLOCKS ==> t.bft[b].typ == u.bft[b].typ)
      && (forall b :: 0 <= b < BLOCKS ==> t.bft[b].refcnt == u.bft[b].refcnt + if b == table / PAGE_SIZE then 1 else 0)
  {
    PtDescFields(table, PT_ATTRS);
    hide CreatePtDesc, L1Slot, RangeOk;
  }

  lemma TableInPlace(cfg: Config, s: State, va: Word, table: Word, first: nat)
    requires Splittable(cfg, s, va, table)
    ensures var u := UnmapL1Entry(cfg, s, va);
      && u.0 == SUCCESS_MMU
      && var m := MapL1Pt(cfg, u.1, va, table, PT_ATTRS);
         m.0 == SUCCESS_MMU && SplitTo(s, m.1, va, table, first, 0)
  {
    hide Inv, CreatePtDesc, UnmapL1Entry, MapL1Pt, RefOf, RangeOk, Kind;
    SectionGone(cfg, s, va, table);
    SectionFacts(cfg, s, va, table);
    var u := UnmapL1Entry(cfg, s, va).1;
    assert u.bft[table / PAGE_SIZE].refcnt == s.bft[table / PAGE_SIZE].refcnt;
    SameSlot(s, u, va);
    TableMapped(cfg, u, va, table);
  }

  lemma SameSlot(s: State, t: State, va: Word)
    requires t.ttbr == s.ttbr
    ensures L1Slot(t, va) == L1Slot(s, va)
  {
  }

  // ---------- the pages ----------

  lemma PageInGuest(cfg: Config, sec: int, j: nat)
    requires 0 <= sec < 4096 && j < 256 && cfg.pstart <= sec * SECTION_SIZE
    requires sec * SECTION_SIZE + SECTION_SIZE <= cfg.pstart + cfg.psize + SECTION_SIZE < WORD_LIMIT
    ensures RangeOk(cfg, PageAddress(sec, j), PAGE_SIZE) && PageAddress(sec, j) / PAGE_SIZE == sec * 256 + j
  {
  }

  lemma PageDesc(sec: int, j: nat, first: nat)
    requires 0 <= sec < 4096 && j < 256
    ensures var w := CreateSmallDesc(PageAddress(sec, j), PageAttrs(j, first));
      && Typ(w) >= 2 && SmallBlock(w) == sec * 256 + j && SmallC(w) == 1
      && SmallAp(w) == (if first <= j < first + 4 then 2 else 3)
      && forall b :: 0 <= b < BLOCKS ==>
           RefOf(L2Pt, w, b) == if b == sec * 256 + j && !(first <= j < first + 4) then 1 else 0
  {
    var attrs := PageAttrs(j, first);
    SmallDescFields(PageAddress(sec, j), attrs);
    AttrsSay(j, first);
    PageNumber(sec, j);
    hide CreateSmallDesc, PageAttrs, PageAddress, SmallAp, SmallC, SmallBlock, Typ;
  }

  lemma AttrsSay(j: nat, first: nat)
    ensures SmallC(PageAttrs(j, first)) == 1
    ensures SmallAp(PageAttrs(j, first)) == if first <= j < first + 4 then 2 else 3
  {
  }

  lemma PageNumber(sec: int, j: nat)
    requires 0 <= sec < 4096 && j < 256
    ensures PageAddress(sec, j) / PAGE_SIZE == sec * 256 + j && PageAddress(sec, j) % PAGE_SIZE == 0
  {
  }

  /** The index in the page of the table's entry `j`. */
  function TableIdx(table: Word, j: nat): (idx: Word)
    requires j < 256
  {
    table % PAGE_SIZE / 0x400 * 256 + j
  }

  lemma TableSlot(table: Word, j: nat)
    requires table % 0x400 == 0 && table / 0x800 % 2 == 0 && j < 256
    ensures TableIdx(table, j) < 512 && L2Slot(table, TableIdx(table, j)) == table / 4 + j < MEM_WORDS
    ensures (table / 4 + j) / 1024 == table / PAGE_SIZE
  {
    hide L2Slot;
    var k := table / 0x400;
    assert table == k * 0x400 && table / 0x800 == k / 2;
    assert table / PAGE_SIZE == k / 4 && table % PAGE_SIZE / 0x400 == k % 4 < 2;
  }

  lemma PageMapped(cfg: Config, t: State, table: Word, idx: Word, pa: Word, attrs: Word)
    requires RangeOk(cfg, table, PAGE_SIZE) && RangeOk(cfg, pa, PAGE_SIZE) && t.bft[table / PAGE_SIZE].typ == L2Pt
    requires Typ(t.mem[L2Slot(table, idx)]) == 0
    requires var w := CreateSmallDesc(pa, attrs);
      && SmallC(w) == 1 && (SmallAp(w) == 2 || SmallAp(w) == 3) && SmallBlock(w) == pa / PAGE_SIZE
      && t.bft[SmallBlock(w)].typ == Data && t.bft[SmallBlock(w)].refcnt < MAX_30BIT - 1024 && pa % PAGE_SIZE == 0
    ensures var (err, m) := MapL2Entry(cfg, t, table, idx, pa, attrs); var w := CreateSmallDesc(pa, attrs);
      && err == SUCCESS_MMU && m.ttbr == t.ttbr && m.mem == t.mem[L2Slot(table, idx) := w]
      && (forall b :: 0 <= b < BLOCKS ==> m.bft[b].typ == t.bft[b].typ)
      && (forall b :: 0 <= b < BLOCKS ==> m.bft[b].refcnt == t.bft[b].refcnt + RefOf(L2Pt, w, b))
  {
    hide CreateSmallDesc, L2Slot, RangeOk, IntersectsCached;
  }

  /** The entry of page `n` is still empty, and the page is data whose count has room. */
  lemma PageReady(cfg: Config, s: State, t: State, va: Word, table: Word, first: nat, n: nat)
    requires Splittable(cfg, s, va, table) && n < 256 && SplitTo(s, t, va, table, first, n)
    ensures var sec, idx := SectionOf(s, va), TableIdx(table, n);
      && 0 <= sec < 4096 && L2Slot(table, idx) == table / 4 + n < MEM_WORDS && L1Slot(s, va) != table / 4 + n
      && RangeOk(cfg, table, PAGE_SIZE) && RangeOk(cfg, PageAddress(sec, n), PAGE_SIZE)
      && t.bft[table / PAGE_SIZE].typ == L2Pt && Typ(t.mem[L2Slot(table, idx)]) == 0
      && t.bft[sec * 256 + n].typ == Data && t.bft[sec * 256 + n].refcnt < MAX_30BIT - 1024
  {
    var sec := SectionOf(s, va);
    SectionFacts(cfg, s, va, table);
    PageInGuest(cfg, sec, n);
    TableSlot(table, n);
    hide Inv, CreatePtDesc, CreateSmallDesc, RefOf, L2Slot, L1Slot, Kind, PageAttrs, PageAddress, TableIdx, RangeOk;
    hide Typ, SecAp, Domain;
    assert InSection(sec, sec * 256 + n);
    assert t.mem[table / 4 + n] == SplitWord(s, sec, table, first, n, table / 4 + n) == 0;
    ZeroTyp();
  }

  /** Each page can be mapped: the checks of dmmu_l2_map_entry all pass. */
  lemma NextPage(cfg: Config, s: State, t: State, va: Word, table: Word, first: nat, n: nat)
    requires Splittable(cfg, s, va, table) && n < 256 && SplitTo(s, t, va, table, first, n)
    ensures var m := MapL2Entry(cfg, t, table, TableIdx(table, n), PageAddress(SectionOf(s, va), n),
      PageAttrs(n, first));
      m.0 == SUCCESS_MMU && SplitTo(s, m.1, va, table, first, n + 1)
  {
    hide Splittable, SplitTo, CreateSmallDesc, RefOf, L2Slot, L1Slot, PageAttrs, PageAddress, TableIdx, RangeOk,
      MapL2Entry, Typ, SmallAp, SmallC, SmallBlock, SectionOf;
    var sec := SectionOf(s, va);
    PageReady(cfg, s, t, va, table, first, n);
    PageDesc(sec, n, first);
    PageNumber(sec, n);
    PageMapped(cfg, t, table, TableIdx(table, n), PageAddress(sec, n), PageAttrs(n, first));
    SplitMore(s, t, MapL2Entry(cfg, t, table, TableIdx(table, n), PageAddress(sec, n), PageAttrs(n, first)).1, va,
      table, first, n);
  }

  lemma SplitMore(s: State, t: State, m: State, va: Word, table: Word, first: nat, n: nat)
    requires n < 256 && SplitTo(s, t, va, table, first, n) && table / 4 + n < MEM_WORDS
      && L1Slot(s, va) != table / 4 + n
    requires m.ttbr == t.ttbr
    requires m.mem == t.mem[table / 4 + n := CreateSmallDesc(PageAddress(SectionOf(s, va), n), PageAttrs(n, first))]
    requires forall b :: 0 <= b < BLOCKS ==> m.bft[b].typ == t.bft[b].typ
    requires forall b :: 0 <= b < BLOCKS ==>
      m.bft[b].refcnt == t.bft[b].refcnt + if b == SectionOf(s, va) * 256 + n && !(first <= n < first + 4) then 1 else 0
    ensures SplitTo(s, m, va, table, first, n + 1)
  {
    hide CreatePtDesc, CreateSmallDesc, L1Slot, PageAttrs, PageAddress, SectionOf;
  }

  // ---------- what the guest sees ----------

  /** The byte of section `sec` that `x` names within its own section. */
  function SectionByte(sec: int, x: Word): Word
    requires 0 <= sec < 4096
  {
    sec * SECTION_SIZE + x % SECTION_SIZE
  }

  function SmallByte(d: Word, x: Word): Word
  {
    SmallBlock(d) * PAGE_SIZE + x % PAGE_SIZE
  }

  lemma SameByte(sec: int, x: Word, d: Word)
    requires 0 <= sec < 4096 && SmallBlock(d) == sec * 256 + PageOf(x)
    ensures SmallByte(d, x) == SectionByte(sec, x)
  {
    hide SmallBlock;
    DivDiv(x, PAGE_SIZE, 256);
    assert x % SECTION_SIZE == PageOf(x) * PAGE_SIZE + x % PAGE_SIZE;
  }

  /**
    Within the section every page stays where it was, and exactly the four
    pages of the directory are no longer writable.
  */
  lemma SectionSplit(cfg: Config, s: State, t: State, va: Word, table: Word, first: nat, dacr: Word, x: Word)
    requires Splittable(cfg, s, va, table) && SplitTo(s, t, va, table, first, 256) && ClientOnly(dacr)
    requires x / SECTION_SIZE == va / SECTION_SIZE
    ensures AcField(dacr, HC_DOM_KERNEL) == 1 ==>
      Translate(s, dacr, x) == Some(SectionByte(SectionOf(s, va), x))
    ensures Translate(t, dacr, x) == if first <= PageOf(x) < first + 4 then None else Translate(s, dacr, x)
  {
    hide Splittable, SplitTo, Translate, ClientOnly, AcField, SectionOf;
    SplitBefore(cfg, s, va, table, dacr, x);
    SplitAfter(cfg, s, t, va, table, first, dacr, x);
  }

  lemma SplitBefore(cfg: Config, s: State, va: Word, table: Word, dacr: Word, x: Word)
    requires Splittable(cfg, s, va, table) && ClientOnly(dacr) && x / SECTION_SIZE == va / SECTION_SIZE
    ensures Translate(s, dacr, x) ==
      if AcField(dacr, HC_DOM_KERNEL) == 1 then Some(SectionByte(SectionOf(s, va), x)) else None
  {
    hide Translate, ClientOnly, AcField, Inv, L1Slot, RangeOk, SecAp, Typ, Domain, SecIndic, RefOf, Kind;
    SectionFacts(cfg, s, va, table);
    SameSlotSameSection(s, s, va, x);
    BySection(s, dacr, x, s.mem[L1Slot(s, va)]);
  }

  lemma SplitAfter(cfg: Config, s: State, t: State, va: Word, table: Word, first: nat, dacr: Word, x: Word)
    requires Splittable(cfg, s, va, table) && SplitTo(s, t, va, table, first, 256) && ClientOnly(dacr)
    requires x / SECTION_SIZE == va / SECTION_SIZE
    ensures Translate(t, dacr, x) ==
      if AcField(dacr, HC_DOM_KERNEL) == 1 && !(first <= PageOf(x) < first + 4)
      then Some(SectionByte(SectionOf(s, va), x)) else None
  {
    var j, sec := PageOf(x), SectionOf(s, va);
    SameSlotSameSection(s, t, va, x);
    EntryHit(cfg, s, t, va, table, first, j);
    TableShape(cfg, s, va, table);
    hide Splittable, Translate, ClientOnly, AcField, L1Slot, Typ, Domain, SmallAp, SmallBlock, RefOf, CreatePtDesc,
      CreateSmallDesc, PageAddress, PageAttrs, SectionOf;
    PtDescFields(table, PT_ATTRS);
    EntryWord(table, x);
    PageDesc(sec, j, first);
    KernelPt();
    hide SplitTo, L2Word, PageOf, SectionByte, SmallByte;
    SameByte(sec, x, CreateSmallDesc(PageAddress(sec, j), PageAttrs(j, first)));
    BySmallPage(t, dacr, x, CreatePtDesc(table, PT_ATTRS), CreateSmallDesc(PageAddress(sec, j), PageAttrs(j, first)));
  }

  lemma BySection(s: State, dacr: Word, x: Word, w: Word)
    requires ClientOnly(dacr) && s.mem[L1Slot(s, x)] == w
    requires Typ(w) == 2 && SecIndic(w) == 0 && SecAp(w) == 3 && Domain(w) == HC_DOM_KERNEL
    ensures Translate(s, dacr, x) ==
      if AcField(dacr, HC_DOM_KERNEL) == 1 then Some(SectionByte(SecAddr(w), x)) else None
  {
    hide L1Slot, AcField;
  }

  lemma BySmallPage(s: State, dacr: Word, x: Word, w: Word, d: Word)
    requires ClientOnly(dacr) && s.mem[L1Slot(s, x)] == w && s.mem[L2Word(w, x)] == d
    requires Typ(w) == 1 && Domain(w) == HC_DOM_KERNEL && Typ(d) >= 2
    ensures Translate(s, dacr, x) ==
      if AcField(dacr, HC_DOM_KERNEL) == 1 && SmallAp(d) == 3 then Some(SmallByte(d, x)) else None
  {
    hide L1Slot, AcField, L2Word, SmallAp;
  }

  lemma EntryHit(cfg: Config, s: State, t: State, va: Word, table: Word, first: nat, j: nat)
    requires Splittable(cfg, s, va, table) && SplitTo(s, t, va, table, first, 256) && j < 256
    ensures table / 4 + j < MEM_WORDS
    ensures t.mem[table / 4 + j] == CreateSmallDesc(PageAddress(SectionOf(s, va), j), PageAttrs(j, first))
  {
    SectionFacts(cfg, s, va, table);
    TableSlot(table, j);
    hide CreatePtDesc, CreateSmallDesc, L1Slot, L2Slot, TableIdx, PageAttrs, PageAddress, Inv, RangeOk;
    assert L1Slot(s, va) != table / 4 + j;
  }

  lemma SameSlotSameSection(s: State, t: State, va: Word, x: Word)
    requires t.ttbr == s.ttbr && x / SECTION_SIZE == va / SECTION_SIZE
    ensures L1Slot(t, x) == L1Slot(s, va) == L1Slot(s, x)
  {
  }

  lemma KernelPt()
    ensures Domain(PT_ATTRS) == HC_DOM_KERNEL
  {
  }

  lemma EntryWord(table: Word, x: Word)
    requires table % 0x400 == 0
    ensures L2Word(CreatePtDesc(table, PT_ATTRS), x) == table / 4 + PageOf(x)
  {
    PtDescFields(table, PT_ATTRS);
    hide CreatePtDesc;
  }

  /** Everywhere else nothing changes, provided no table pointed to the one now filled. */
  lemma ElsewhereKept(cfg: Config, s: State, t: State, va: Word, table: Word, first: nat, dacr: Word, x: Word)
    requires Splittable(cfg, s, va, table) && SplitTo(s, t, va, table, first, 256)
    requires Slack(s, table / PAGE_SIZE) == s.bft[table / PAGE_SIZE].refcnt
    requires x / SECTION_SIZE != va / SECTION_SIZE
    ensures Translate(t, dacr, x) == Translate(s, dacr, x)
  {
    var q, y := table / PAGE_SIZE, L1Slot(s, x);
    SlotElsewhere(cfg, s, va, table, x);
    SameSlot(s, t, x);
    WordKept(s, t, va, table, first, y);
    var w := s.mem[y];
    if Typ(w) == 1 {
      PtElsewhere(cfg, s, y, q);
      L2WordPlace(w, x);
      SectionFacts(cfg, s, va, table);
      WordKept(s, t, va, table, first, L2Word(w, x));
    }
    SameTranslate(s, t, dacr, x);
  }

  lemma SlotElsewhere(cfg: Config, s: State, va: Word, table: Word, x: Word)
    requires Splittable(cfg, s, va, table) && x / SECTION_SIZE != va / SECTION_SIZE
    ensures var y := L1Slot(s, x);
      && y != L1Slot(s, va) && y / 1024 != table / PAGE_SIZE && Kind(s, y) == L1Pt
      && table % 0x400 == 0 && table / 0x800 % 2 == 0
  {
    L1SlotFacts(s, x);
    L1SlotFacts(s, va);
    hide L1Slot, RangeOk;
  }

  lemma WordKept(s: State, t: State, va: Word, table: Word, first: nat, y: nat)
    requires SplitTo(s, t, va, table, first, 256) && y < MEM_WORDS && y != L1Slot(s, va)
      && y / 1024 != table / PAGE_SIZE
    requires table % 0x400 == 0 && table / 0x800 % 2 == 0
    ensures t.mem[y] == s.mem[y]
  {
    NotInTable(s, table, y);
    hide L1Slot, CreatePtDesc, CreateSmallDesc;
  }

  lemma SameTranslate(s: State, t: State, dacr: Word, x: Word)
    requires L1Slot(t, x) == L1Slot(s, x) && t.mem[L1Slot(s, x)] == s.mem[L1Slot(s, x)]
    requires var w := s.mem[L1Slot(s, x)];
      Typ(w) == 1 ==> t.mem[L2Word(w, x)] == s.mem[L2Word(w, x)]
    ensures Translate(t, dacr, x) == Translate(s, dacr, x)
  {
    hide L1Slot, L2Word, AcField;
  }

  lemma PtElsewhere(cfg: Config, s: State, y: nat, q: nat)
    requires Inv(cfg, s) && y < MEM_WORDS && Kind(s, y) == L1Pt && Typ(s.mem[y]) == 1
    requires q < BLOCKS && Slack(s, q) == s.bft[q].refcnt
    ensures PtBlock(s.mem[y]) != q && !PtUpperHalf(s.mem[y]) && s.bft[PtBlock(s.mem[y])].typ == L2Pt
  {
    hide MasterKept, Grouped, RangeOk, IntersectsCached, DomainGranted;
    RefsWord(s, y, q);
    assert WordOk(cfg, s, y);
    assert RefOf(L1Pt, s.mem[y], PtBlock(s.mem[y])) == 1;
  }

  /** A word of another block is no entry of the table. */
  lemma NotInTable(s: State, table: Word, x: nat)
    requires x < MEM_WORDS && x / 1024 != table / PAGE_SIZE && table % 0x400 == 0 && table / 0x800 % 2 == 0
    ensures !(table / 4 <= x < table / 4 + 256)
  {
    if table / 4 <= x < table / 4 + 256 {
      TableSlot(table, x - table / 4);
    }
  }

  // ---------- the hypercall ----------

  /** One page: read-only if it is one of the four of the directory. */
  method MapPage(m: Monitor, ghost s: State, ghost va: Word, table2: Word, ghost first: nat, ghost n: nat,
      i: Word, pagePa: Word, l2EntryIdx: nat) returns (err: int)
    requires m.Valid() && m.Safe() && Splittable(m.cfg, s, va, table2) && n < 256
    requires i == TableIdx(table2, n) && pagePa == PageAddress(SectionOf(s, va), n) && l2EntryIdx == first + i - n
    requires SplitTo(s, m.Abs(), va, table2, first, n)
    modifies m.mem, m.bft
    ensures m.Valid() && m.Safe() && err == SUCCESS_MMU && SplitTo(s, m.Abs(), va, table2, first, n + 1)
  {
    hide SplitTo, Splittable, Inv, MapL2Entry, TableIdx, PageAddress;
    ghost var t := m.Abs();
    NextPage(m.cfg, s, t, va, table2, first, n);
    TableShape(m.cfg, s, va, table2);
    TableSlot(table2, n);
    MapL2EntryKeeps(m.cfg, t, table2, i, pagePa, PageAttrs(n, first));
    if l2EntryIdx <= i < l2EntryIdx + 4 {
      err := m.DmmuMapL2Entry(table2, i, pagePa, RO_ATTRS);
    } else {
      err := m.DmmuMapL2Entry(table2, i, pagePa, RW_ATTRS);
    }
  }

  function Failed(err: int): nat
  {
    if err != SUCCESS_MMU then 1 else 0
  }

  /**
    The section branch of hypercall_dyn_new_pgd.  `failures` counts the calls
    that would print an error: there is none.  The entry is the one the active
    master table holds for the directory, and the kernel's linear map takes the
    section back to the same virtual section.
  */
  method SplitSection(m: Monitor, pgdVa: Word, table2: Word, physStart: Word, pageOffset: Word) returns (failures: nat)
    requires m.Valid() && m.Safe() && Splittable(m.cfg, m.Abs(), pgdVa, table2)
    requires U32(SectionOf(m.Abs(), pgdVa) * SECTION_SIZE - physStart + pageOffset) / SECTION_SIZE
      == pgdVa / SECTION_SIZE
    modifies m.mem, m.bft
    ensures m.Valid() && m.Safe() && failures == 0
    ensures SplitTo(old(m.Abs()), m.Abs(), pgdVa, table2, PageOf(pgdVa), 256)
  {
    hide SplitTo, Splittable, Inv, UnmapL1Entry, MapL1Pt, MapL2Entry;
    ghost var s := m.Abs();
    var entry := m.mem[m.ttbr / 0x4000 * 4096 + pgdVa / SECTION_SIZE];
    var linuxVa := U32(SecAddr(entry) * SECTION_SIZE - physStart + pageOffset);
    failures := 0;
    ghost var first := PageOf(pgdVa);
    SameSplit(m.cfg, s, pgdVa, linuxVa, table2);
    TableInPlace(m.cfg, s, linuxVa, table2, first);
    var err := m.DmmuUnmapL1Entry(linuxVa);
    UnmapL1EntryKeeps(m.cfg, s, linuxVa);
    failures := failures + Failed(err);
    ghost var u := m.Abs();
    err := m.DmmuMapL1Pt(linuxVa, table2, PT_ATTRS);
    MapL1PtKeeps(m.cfg, u, linuxVa, table2, PT_ATTRS);
    failures := failures + Failed(err);
    var pagePa := SecAddr(entry) * SECTION_SIZE;
    var tableIdx := table2 % PAGE_SIZE / 0x400 * 256;
    var l2EntryIdx := PageOf(pgdVa) + tableIdx;
    var i := tableIdx;
    while i < tableIdx + 256
      invariant tableIdx <= i <= tableIdx + 256 && m.Valid() && m.Safe() && failures == 0
      invariant pagePa == SecAddr(entry) * SECTION_SIZE + (i - tableIdx) * PAGE_SIZE
      invariant SplitTo(s, m.Abs(), linuxVa, table2, first, i - tableIdx)
    {
      err := MapPage(m, s, linuxVa, table2, first, i - tableIdx, i, pagePa, l2EntryIdx);
      failures := failures + Failed(err);
      i, pagePa := i + 1, pagePa + PAGE_SIZE;
    }
    SameSplitDone(s, m.Abs(), pgdVa, linuxVa, table2, first);
  }

  lemma TableShape(cfg: Config, s: State, va: Word, table: Word)
    requires Splittable(cfg, s, va, table)
    ensures table % 0x400 == 0 && table / 0x800 % 2 == 0
  {
  }

  lemma SameSplit(cfg: Config, s: State, va: Word, x: Word, table: Word)
    requires Splittable(cfg, s, va, table) && x / SECTION_SIZE == va / SECTION_SIZE
    ensures Splittable(cfg, s, x, table)
  {
    SameSlotSameSection(s, s, va, x);
    hide L1Slot, Inv;
  }

  lemma SameSplitDone(s: State, t: State, va: Word, x: Word, table: Word, first: nat)
    requires SplitTo(s, t, x, table, first, 256) && x / SECTION_SIZE == va / SECTION_SIZE
    ensures SplitTo(s, t, va, table, first, 256)
  {
    SameSlotSameSection(s, s, va, x);
    hide L1Slot;
  }

  lemma ZeroTyp()
    ensures Typ(0) == 0
  {
  }
}
