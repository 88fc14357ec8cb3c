/**
  Concrete runs of the monitor, from the first L1 on: a guest of 17 MB at
  address 0 whose memory from 1 MB to 4 MB is always cached, with one reserved
  entry in the master table.  They reach states that meet the preconditions of
  the round trips and of the section split, and the commands and stores that
  the exact conditions of `DmmuIndices` and `DmmuResults` shut out.
*/
module DmmuExamples {
  import opened DmmuState
  import opened DmmuCommands
  import opened DmmuCounting
  import opened DmmuInvariant
  import opened DmmuTables
  import opened DmmuIndices
  import opened DmmuSafety
  import opened DmmuRuns
  import opened DmmuResults
  import opened DmmuConfined
  import opened DmmuNewPgd

  const L1_BASE: Word := 0x30_0000
  const L2_BASE: Word := 0x10_0000
  const RESERVED: Word := 0x40a // section 0, cached, no user access

  function ExampleConfig(): Config
  {
    Config(0, 0x100_0000, 0x10_0000, 0x30_0000, 4, 4, seq(4096, i => if i == 0 then RESERVED else 0))
  }

  function Blank(): State
  {
    State(seq(MEM_WORDS, a => 0), seq(BLOCKS, b => Entry(0, Data)), L1_BASE)
  }

  function Booted(): State
  {
    CreateL1(ExampleConfig(), Blank(), L1_BASE).1
  }

  // ---------- creating tables of empty entries ----------

  lemma {:induction false} NoError(cfg: Config, mem: Memory, bft: Bft, t: PageType, off: nat, n: nat, base: Word)
    requires off + n <= MEM_WORDS
    requires forall k :: off <= k < off + n ==>
      (if t == L1Pt then L1Check(cfg, bft, mem[k], base) else L2Check(cfg, bft, mem[k], base)) == SUCCESS_MMU
    ensures FirstError(cfg, mem, bft, t, off, n, base) == SUCCESS_MMU
    decreases n
  {
    if n == 0 {
    } else {
      NoError(cfg, mem, bft, t, off, n - 1, base);
    }
  }

  lemma ReservedEntry(bft: Bft, base: Word)
    ensures L1Check(ExampleConfig(), bft, RESERVED, base) == SUCCESS_MMU
    ensures L1Check(ExampleConfig(), bft, 0, base) == SUCCESS_MMU
    ensures forall b :: RefOf(L1Pt, RESERVED, b) == 0 && RefOf(L1Pt, 0, b) == 0
  {
  }

  lemma OnlyReserved()
    ensures forall i :: 0 <= i < 4096 ==> (Reserved(ExampleConfig(), i) <==> i == 0)
  {
  }

  /** An L1 can be created in zeroed, unreferenced data blocks of the cached region. */
  lemma EmptyL1(s: State, base: Word)
    requires 0x10_0000 <= base && base + 0x4000 <= 0x40_0000 && base % 0x4000 == 0
    requires forall b :: 0 <= b - base / PAGE_SIZE < 4 ==> s.bft[b] == Entry(0, Data)
    requires forall a :: 0 <= a - base / 4 < 4096 ==> s.mem[a] == 0
    ensures var (e, t) := CreateL1(ExampleConfig(), s, base);
      && e == SUCCESS_MMU && t.ttbr == s.ttbr
      && (forall a :: 0 <= a < MEM_WORDS ==> t.mem[a] == if a == base / 4 then RESERVED else s.mem[a])
      && (forall b :: 0 <= b < BLOCKS ==>
        t.bft[b] == if 0 <= b - base / PAGE_SIZE < 4 then Entry(0, L1Pt) else s.bft[b])
  {
    hide FirstError, L1Check, RefOf, TableRefs;
    var cfg, p := ExampleConfig(), base / PAGE_SIZE;
    var mem := CopyMaster(cfg, s.mem, p * 1024);
    var lo, hi := p * 1024, p * 1024 + 4096;
    assert p % 4 == 0 && base / 4 == lo;
    OnlyReserved();
    assert forall a :: 0 <= a < MEM_WORDS ==> mem[a] == if a == base / 4 then RESERVED else s.mem[a];
    ReservedEntry(s.bft, base);
    NoError(cfg, mem, s.bft, L1Pt, lo, 4096, base);
    forall b | 0 <= b < BLOCKS
      ensures TableRefs(mem, L1Pt, lo, hi, b) == 0
    {
      TableRefsNone(mem, L1Pt, lo, hi, b);
    }
  }

  lemma EmptyEntry(bft: Bft, base: Word)
    ensures L2Check(ExampleConfig(), bft, 0, base) == SUCCESS_MMU
    ensures forall b :: RefOf(L2Pt, 0, b) == 0
  {
  }

  /** An L2 can be created in an unreferenced data block of the cached region whose lower half is zero. */
  lemma EmptyL2(s: State, base: Word)
    requires 0x10_0000 <= base && base + PAGE_SIZE <= 0x40_0000 && base % PAGE_SIZE == 0
    requires s.bft[base / PAGE_SIZE] == Entry(0, Data)
    requires forall a :: 0 <= a - base / 4 < 512 ==> s.mem[a] == 0
    ensures var (e, t) := CreateL2(ExampleConfig(), s, base);
      && e == SUCCESS_MMU && t.ttbr == s.ttbr && t.mem == s.mem
      && (forall b :: 0 <= b < BLOCKS ==> t.bft[b] == if b == base / PAGE_SIZE then Entry(0, L2Pt) else s.bft[b])
  {
    hide FirstError, L2Check, RefOf, TableRefs;
    var cfg, q := ExampleConfig(), base / PAGE_SIZE;
    var lo, hi := q * 1024, q * 1024 + 512;
    assert base / 4 == lo;
    EmptyEntry(s.bft, base);
    NoError(cfg, s.mem, s.bft, L2Pt, lo, 512, base);
    forall b | 0 <= b < BLOCKS
      ensures TableRefs(s.mem, L2Pt, lo, hi, b) == 0
    {
      TableRefsNone(s.mem, L2Pt, lo, hi, b);
    }
  }

  // ---------- the states of the run ----------

  /**
    What varies in the run: the entry of section 1 in the L1, the words at 512
    and 0 of the page at 1 MB, the type of that page, and the counts of the
    pages of section 1 and of block 8.
  */
  datatype View = View(section: Word, upper: Word, lower: Word, typ: PageType, sec: Count, hit: Count)

  function WordOf(v: View, a: int): Word
  {
    if a == 0xc_0000 then RESERVED
    else if a == 0xc_0001 then v.section
    else if a == 0x4_0200 then v.upper
    else if a == 0x4_0000 then v.lower
    else 0
  }

  function EntryOf(v: View, b: int): Entry
  {
    if 0x300 <= b < 0x304 then Entry(0, L1Pt)
    else if b == 0x100 then Entry(v.sec, v.typ)
    else if 0x100 < b < 0x200 then Entry(v.sec, Data)
    else if b == 8 then Entry(v.hit, Data)
    else Entry(0, Data)
  }

  ghost predicate Looks(s: State, v: View)
  {
    && s.ttbr == L1_BASE
    && (forall a :: 0 <= a < MEM_WORDS ==> s.mem[a] == WordOf(v, a))
    && (forall b :: 0 <= b < BLOCKS ==> s.bft[b] == EntryOf(v, b))
  }

  lemma BootedLooks()
    ensures CreateL1(ExampleConfig(), Blank(), L1_BASE).0 == SUCCESS_MMU
    ensures Looks(Booted(), View(0, 0, 0, Data, 0, 0))
  {
    hide CreateL1;
    EmptyL1(Blank(), L1_BASE);
  }

  lemma BootedInv()
    ensures Inv(ExampleConfig(), Booted())
  {
    hide Inv, TablesOk, CreateL1;
    BlankTables();
    BootedLooks();
    BootEstablishes(ExampleConfig(), Blank(), L1_BASE);
  }

  lemma BlankTables()
    ensures TablesOk(ExampleConfig(), Blank())
  {
    hide TablesOk;
    assert forall b :: 0 <= b < BLOCKS ==> Blank().bft[b].typ == Data;
    assert forall a :: 0 <= a < MEM_WORDS ==> Kind(Blank(), a) == Data;
    BootTables(ExampleConfig(), Blank());
  }

  lemma {:induction false} ScanClean(bft: Bft, first: int, n: nat, l1Base: Word, err: int)
    requires 0 <= first && first + n <= BLOCKS
    requires forall b :: first <= b < first + n ==> SecBlockError(bft, b, l1Base) == SUCCESS_MMU
    ensures SecScan(bft, first, n, l1Base, err) == err
    decreases n
  {
    if n == 0 {
    } else {
      assert SecBlockError(bft, first + n - 1, l1Base) == SUCCESS_MMU;
      ScanClean(bft, first, n - 1, l1Base, err);
    }
  }

  /** A cacheable section of unreferenced data in the kernel's domain may be mapped writable. */
  lemma CleanSection(s: State, sec: Word)
    requires (1 <= sec < 17 && sec != 3) || sec == 0xfff
    requires s.ttbr == L1_BASE && forall b :: sec * 256 <= b < sec * 256 + 256 ==> s.bft[b] == Entry(0, Data)
    ensures var pa := sec * SECTION_SIZE;
      var w := CreateSecDesc(pa, 0xc2a);
      && L1SecCheck(ExampleConfig(), s.bft, w, L1_BASE) == SUCCESS_MMU && RangeOk(ExampleConfig(), pa, SECTION_SIZE)
      && SectionFields(w, sec)
  {
    var w := CreateSecDesc(sec * SECTION_SIZE, 0xc2a);
    SectionMade(sec);
    hide CreateSecDesc, SecAp, SecIndic, SecC, Domain, SecAddr;
    forall b | sec * 256 <= b < sec * 256 + 256
      ensures SecBlockError(s.bft, b, L1_BASE) == SUCCESS_MMU
    {
      assert s.bft[b] == Entry(0, Data);
    }
    ScanClean(s.bft, sec * 256, 256, L1_BASE, SUCCESS_MMU);
  }

  /** A cacheable, writable section of the kernel's domain. */
  predicate SectionFields(w: Word, sec: int)
  {
    Typ(w) == 2 && SecAddr(w) == sec && SecAp(w) == 3 && SecIndic(w) == 0 && SecC(w) == 1 && Domain(w) == 1
  }

  lemma SectionMade(sec: Word)
    requires sec < 4096
    ensures SectionFields(CreateSecDesc(sec * SECTION_SIZE, 0xc2a), sec)
  {
    assert SecAp(0xc2a) == 3 && SecC(0xc2a) == 1 && Domain(0xc2a) == 1;
    hide CreateSecDesc, SecAp, SecIndic, SecC, Domain;
    SecDescLayout(sec * SECTION_SIZE, 0xc2a);
    SecDescFields(sec * SECTION_SIZE, 0xc2a);
  }

  // ---------- the steps of the run ----------

  const MAP_SECTION: Op := Command(0xc2a0, 0x10_0000, 0x10_0000)
  const WRITE_UPPER: Op := GuestStore(4, 0x10_0800, 0x8032)
  const UNMAP_SECTION: Op := Command(1, 0x10_0000, 0)
  const CREATE_L2: Op := Command(2, L2_BASE, 0)
  const MAP_PAGE: Op := Command(0x8004, L2_BASE, 0x30)

  /** A command returned success, or a store was carried out. */
  predicate Accepted(cfg: Config, s: State, op: Op)
  {
    match op
    case Command(p03, p1, p2) => Handle(cfg, s, p03, p1, p2).0 == SUCCESS_MMU
    case GuestStore(dacr, va, value) => Translate(s, dacr, va).Some?
  }

  predicate AllAccepted(cfg: Config, s: State, ops: seq<Op>)
    decreases |ops|
  {
    ops == [] || (Accepted(cfg, s, ops[0]) && AllAccepted(cfg, Step(cfg, s, ops[0]), ops[1..]))
  }

  lemma MapsSection(s: State)
    requires Looks(s, View(0, 0, 0, Data, 0, 0))
    ensures Accepted(ExampleConfig(), s, MAP_SECTION)
    ensures Looks(Step(ExampleConfig(), s, MAP_SECTION), View(0x10_0c2a, 0, 0, Data, 1, 0))
  {
    hide CreateSecDesc, L1SecCheck, SecAp, RangeOk, SecAddr;
    OnlyReserved();
    CleanSection(s, 1);
    SectionWord(1, 0x10_0c2a);
    assert L1Slot(s, 0x10_0000) == 0xc_0001;
  }

  lemma SectionWord(sec: Word, w: Word)
    requires (sec == 1 || sec == 2 || sec == 0xfff) && w == sec * SECTION_SIZE + 0xc2a
    ensures CreateSecDesc(sec * SECTION_SIZE, 0xc2a) == w
    ensures forall b :: 0 <= b < BLOCKS ==> RefOf(L1Pt, w, b) == if sec * 256 <= b < sec * 256 + 256 then 1 else 0
  {
  }

  lemma WritesUpper(s: State)
    requires Looks(s, View(0x10_0c2a, 0, 0, Data, 1, 0))
    ensures Accepted(ExampleConfig(), s, WRITE_UPPER)
    ensures Looks(Step(ExampleConfig(), s, WRITE_UPPER), View(0x10_0c2a, 0x8032, 0, Data, 1, 0))
  {
    assert L1Slot(s, 0x10_0800) == 0xc_0001;
    assert AcField(4, 1) == 1;
    assert Translate(s, 4, 0x10_0800) == Some(0x10_0800);
  }

  lemma UnmapsSection(s: State)
    requires Looks(s, View(0x10_0c2a, 0x8032, 0, Data, 1, 0))
    ensures Accepted(ExampleConfig(), s, UNMAP_SECTION)
    ensures Looks(Step(ExampleConfig(), s, UNMAP_SECTION), View(0x10_0c28, 0x8032, 0, Data, 0, 0))
  {
    OnlyReserved();
    SectionWord(1, 0x10_0c2a);
    assert L1Slot(s, 0x10_0000) == 0xc_0001;
    assert Typ(0x10_0c2a) == 2 && SecIndic(0x10_0c2a) == 0 && UnmapDesc(0x10_0c2a) == 0x10_0c28;
    hide RefOf, L1Slot, Typ, SecIndic, UnmapDesc, Reserved;
  }

  lemma CreatesL2(s: State)
    requires Looks(s, View(0x10_0c28, 0x8032, 0, Data, 0, 0))
    ensures Accepted(ExampleConfig(), s, CREATE_L2)
    ensures Looks(Step(ExampleConfig(), s, CREATE_L2), View(0x10_0c28, 0x8032, 0, L2Pt, 0, 0))
  {
    hide CreateL2;
    EmptyL2(s, L2_BASE);
  }

  lemma MapsPage(s: State)
    requires Looks(s, View(0x10_0c28, 0x8032, 0, L2Pt, 0, 0))
    ensures Accepted(ExampleConfig(), s, MAP_PAGE)
    ensures Looks(Step(ExampleConfig(), s, MAP_PAGE), View(0x10_0c28, 0x8032, 0x8032, L2Pt, 0, 1))
  {
    hide L2Slot, CreateSmallDesc, L2SmallCheck, RefOf;
    assert s.bft[0x100].typ == L2Pt && s.bft[8] == Entry(0, Data);
    PageWord(s.bft);
    assert L2Slot(L2_BASE, 0) == 0x4_0000;
  }

  lemma PageWord(bft: Bft)
    requires bft[8] == Entry(0, Data)
    ensures CreateSmallDesc(0x8000, 0x30) == 0x8032
    ensures L2SmallCheck(ExampleConfig(), bft, 0x8032, L2_BASE) == SUCCESS_MMU
    ensures forall b :: RefOf(L2Pt, 0x8032, b) == if b == 8 then 1 else 0
  {
  }

  /** The run up to the unmapping of the section, the creation of the L2, and the mapping of a page in it. */
  const WRITING: seq<Op> := [MAP_SECTION] + [WRITE_UPPER]
  const CLEARING: seq<Op> := WRITING + [UNMAP_SECTION]
  const CREATING: seq<Op> := CLEARING + [CREATE_L2]
  const MAPPING: seq<Op> := CREATING + [MAP_PAGE]

  lemma {:induction false} RunOn(cfg: Config, s: State, ops: seq<Op>, op: Op)
    ensures Run(cfg, s, ops + [op]) == Step(cfg, Run(cfg, s, ops), op)
    ensures AllAccepted(cfg, s, ops) && Accepted(cfg, Run(cfg, s, ops), op) ==> AllAccepted(cfg, s, ops + [op])
    decreases |ops|
  {
    hide Step, Accepted;
    if ops == [] {
      assert ([] + [op])[1..] == [];
    } else {
      assert (ops + [op])[1..] == ops[1..] + [op];
      RunOn(cfg, Step(cfg, s, ops[0]), ops[1..], op);
    }
  }

  lemma RunOne(cfg: Config, s: State, op: Op)
    ensures Run(cfg, s, [op]) == Step(cfg, s, op)
    ensures Accepted(cfg, s, op) ==> AllAccepted(cfg, s, [op])
  {
    hide Step, Accepted;
    assert [op][1..] == [];
  }

  lemma RunLooks()
    ensures Looks(Run(ExampleConfig(), Booted(), CLEARING), View(0x10_0c28, 0x8032, 0, Data, 0, 0))
    ensures Looks(Run(ExampleConfig(), Booted(), CREATING), View(0x10_0c28, 0x8032, 0, L2Pt, 0, 0))
    ensures Looks(Run(ExampleConfig(), Booted(), MAPPING), View(0x10_0c28, 0x8032, 0x8032, L2Pt, 0, 1))
    ensures AllAccepted(ExampleConfig(), Booted(), MAPPING)
  {
    hide Looks, Step, Run, Booted, Accepted, AllAccepted;
    var cfg, s := ExampleConfig(), Booted();
    BootedLooks();
    MapsSection(s);
    RunOne(cfg, s, MAP_SECTION);
    WritesUpper(Run(cfg, s, [MAP_SECTION]));
    RunOn(cfg, s, [MAP_SECTION], WRITE_UPPER);
    UnmapsSection(Run(cfg, s, WRITING));
    RunOn(cfg, s, WRITING, UNMAP_SECTION);
    CreatesL2(Run(cfg, s, CLEARING));
    RunOn(cfg, s, CLEARING, CREATE_L2);
    MapsPage(Run(cfg, s, CREATING));
    RunOn(cfg, s, CREATING, MAP_PAGE);
  }

  lemma {:induction false} AcZero(d: nat)
    ensures AcField(0, d) == 0
  {
    if d == 0 {
    } else {
      AcZero(d - 1);
    }
  }

  lemma KernelClient()
    ensures ClientOnly(4)
    ensures forall d :: 0 <= d < 16 && AcField(4, d) != 0 ==> DomainGranted(ExampleConfig(), d)
  {
    forall d | 0 <= d < 16
      ensures AcField(4, d) == if d == 1 then 1 else 0
    {
      if d >= 2 {
        AcZero(d - 2);
        assert AcField(4, d) == AcField(1, d - 1) == AcField(0, d - 2);
      }
    }
  }

  lemma {:induction false} NoLeaks(cfg: Config, s: State, ops: seq<Op>, b: nat)
    requires forall k :: 0 <= k < |ops| ==> ops[k].Command? ==> ops[k].p03 % 16 != 3
    ensures Leaks(cfg, s, ops, b) == 0
    decreases |ops|
  {
    hide Step;
    if ops == [] {
    } else {
      NoLeaks(cfg, Step(cfg, s, ops[0]), ops[1..], b);
    }
  }

  /** The invariant holds throughout, and the count of block 8 is exact at the end. */
  lemma RunSound()
    ensures Inv(ExampleConfig(), Booted())
    ensures Inv(ExampleConfig(), Run(ExampleConfig(), Booted(), CLEARING))
    ensures Inv(ExampleConfig(), Run(ExampleConfig(), Booted(), CREATING))
    ensures Inv(ExampleConfig(), Run(ExampleConfig(), Booted(), MAPPING))
    ensures Slack(Run(ExampleConfig(), Booted(), MAPPING), 8) == 0
  {
    hide Inv, Slack, Run, Step, Booted, ClientOnly;
    var cfg, s := ExampleConfig(), Booted();
    BootedInv();
    KernelClient();
    LowIndexRun(cfg, s, CLEARING);
    RunKeeps(cfg, s, CLEARING);
    LowIndexRun(cfg, s, CREATING);
    RunKeeps(cfg, s, CREATING);
    LowIndexRun(cfg, s, MAPPING);
    RunKeeps(cfg, s, MAPPING);
    NoLeaks(cfg, s, MAPPING, 8);
    BootedSlack();
  }

  lemma BootedSlack()
    ensures Slack(Booted(), 8) == 0
  {
    hide Slack, Booted;
    BootedInv();
    BootedLooks();
    SlackBounds(ExampleConfig(), Booted(), 8);
  }

  // ---------- what the exact conditions shut out ----------

  /**
    A guest stores an entry in the upper half of a page, has the page accepted
    as an L2, maps the page that the entry names elsewhere, and unmaps the
    entry: the count of that page is then below its references.  No command of
    the run is refused, from the creation of the first L1 on.
  */
  lemma UpperHalfExample()
    ensures var cfg := ExampleConfig();
      var t := Run(cfg, Booted(), MAPPING);
      var (e, t') := UnmapL2Entry(cfg, t, L2_BASE, 512);
      && CreateL1(cfg, Blank(), L1_BASE) == (SUCCESS_MMU, Booted()) && AllAccepted(cfg, Booted(), MAPPING)
      && Inv(cfg, Booted()) && Inv(cfg, t) && e == SUCCESS_MMU && !Inv(cfg, t')
  {
    hide Inv, Slack, Run, AllAccepted, CreateL1;
    var cfg := ExampleConfig();
    var t := Run(cfg, Booted(), MAPPING);
    BootedLooks();
    assert CreateL1(cfg, Blank(), L1_BASE) == (SUCCESS_MMU, Booted());
    hide Booted;
    RunSound();
    RunLooks();
    UpperHalfWord(t);
    UnmapL2EntryKeeps(cfg, t, L2_BASE, 512);
  }

  /** The same entry unmapped before its page is mapped: the count goes from zero to its highest value. */
  lemma WrapExample()
    ensures var cfg := ExampleConfig();
      var t := Run(cfg, Booted(), CREATING);
      var (e, t') := UnmapL2Entry(cfg, t, L2_BASE, 512);
      && Inv(cfg, t) && e == SUCCESS_MMU && Inv(cfg, t')
      && t.bft[8].refcnt == 0 && t'.bft[8].refcnt == MAX_30BIT
  {
    hide Inv, Slack, Run, Booted, AllAccepted;
    var cfg := ExampleConfig();
    var t := Run(cfg, Booted(), CREATING);
    RunSound();
    RunLooks();
    WrapWord(t);
    UnmapL2EntryKeeps(cfg, t, L2_BASE, 512);
  }

  lemma WrapWord(t: State)
    requires Looks(t, View(0x10_0c28, 0x8032, 0, L2Pt, 0, 0))
    ensures UnmapOk(ExampleConfig(), t, L2_BASE, 512) && t.bft[8].refcnt == 0
    ensures var (e, t') := UnmapL2Entry(ExampleConfig(), t, L2_BASE, 512);
      e == SUCCESS_MMU && t'.bft[8].refcnt == MAX_30BIT
  {
    hide Slack, L2Slot;
    assert L2Slot(L2_BASE, 512) == 0x4_0200;
    assert t.mem[0x4_0200] == 0x8032;
    assert t.bft[0x100].typ == L2Pt && t.bft[8] == Entry(0, Data);
  }

  lemma UpperHalfWord(t: State)
    requires Looks(t, View(0x10_0c28, 0x8032, 0x8032, L2Pt, 0, 1)) && Slack(t, 8) == 0
    ensures !UnmapOk(ExampleConfig(), t, L2_BASE, 512)
    ensures UnmapL2Entry(ExampleConfig(), t, L2_BASE, 512).0 == SUCCESS_MMU
  {
    hide Slack, L2Slot;
    assert L2Slot(L2_BASE, 512) == 0x4_0200;
    assert t.mem[0x4_0200] == 0x8032;
    assert t.bft[0x100].typ == L2Pt && t.bft[8].refcnt == 1;
  }

  /** An index with high bits reaches the active L1, and its reserved entry is cleared. */
  lemma LongIndexExample()
    ensures var cfg := ExampleConfig();
      var t := Run(cfg, Booted(), CREATING);
      var (e, t') := UnmapL2Entry(cfg, t, L2_BASE, 0x8_0000);
      && Inv(cfg, t) && e == SUCCESS_MMU && !Inv(cfg, t')
      && t.ttbr == L1_BASE && t'.mem[L1_BASE / 4] == RESERVED - 2
  {
    hide Inv, Slack, Run, Booted;
    var cfg := ExampleConfig();
    var t := Run(cfg, Booted(), CREATING);
    RunSound();
    RunLooks();
    LongIndexWord(t);
    UnmapL2EntryKeeps(cfg, t, L2_BASE, 0x8_0000);
  }

  lemma OrOneTwo()
    ensures BitOr(12, 1, 2) == 3
  {
    assert Bits.Pow2(10) == 1024;
    assert BitOr(10, 0, 0) == 0;
    assert BitOr(11, 0, 1) == 1;
  }

  lemma OrBlocks()
    ensures BitOr(20, 0x100, 0x200) == 0x300
  {
    hide BitOr;
    OrOneTwo();
    OrEight(12, 1, 2);
  }

  lemma LongIndexSlot()
    ensures L2Slot(L2_BASE, 0x8_0000) == 0xc_0000
  {
    hide BitOr;
    OrBlocks();
    assert U32(0x8_0000 * 4) / PAGE_SIZE == 0x200;
  }

  lemma OrDouble(n: nat, x: nat, y: nat)
    ensures BitOr(n + 1, 2 * x, 2 * y) == 2 * BitOr(n, x, y)
  {
  }

  lemma OrEight(n: nat, x: nat, y: nat)
    ensures BitOr(n + 8, 0x100 * x, 0x100 * y) == 0x100 * BitOr(n, x, y)
  {
    hide BitOr;
    OrDouble(n, x, y);
    OrDouble(n + 1, 2 * x, 2 * y);
    OrDouble(n + 2, 4 * x, 4 * y);
    OrDouble(n + 3, 8 * x, 8 * y);
    OrDouble(n + 4, 16 * x, 16 * y);
    OrDouble(n + 5, 32 * x, 32 * y);
    OrDouble(n + 6, 64 * x, 64 * y);
    OrDouble(n + 7, 128 * x, 128 * y);
  }

  lemma LongIndexWord(t: State)
    requires Looks(t, View(0x10_0c28, 0x8032, 0, L2Pt, 0, 0))
    ensures !UnmapOk(ExampleConfig(), t, L2_BASE, 0x8_0000)
    ensures var (e, t') := UnmapL2Entry(ExampleConfig(), t, L2_BASE, 0x8_0000);
      e == SUCCESS_MMU && t'.mem[0xc_0000] == RESERVED - 2
  {
    hide Slack, L2Slot;
    LongIndexSlot();
    OnlyReserved();
    assert t.mem[0xc_0000] == RESERVED && t.bft[0x100].typ == L2Pt && t.bft[0x300].typ == L1Pt;
  }

  const MAP_LAST: Op := Command(0xc2a0, 0x20_0000, 0xfff0_0000)

  /**
    The range check accepts the last section, and a store through it leaves
    guest memory: the mapping is what brings a descriptor for it into a table.
  */
  lemma OutsideExample()
    ensures var cfg := ExampleConfig();
      var (e, t) := MapL1Section(cfg, Booted(), 0x20_0000, 0xfff0_0000, 0xc2a);
      && Inv(cfg, Booted()) && Tame(cfg, Booted()) && NamesEdge(cfg, Booted(), MAP_LAST)
      && e == SUCCESS_MMU && Inv(cfg, t) && t == Step(cfg, Booted(), MAP_LAST) && ClientOnly(4)
      && Translate(t, 4, 0x20_0000) == Some(0xfff0_0000) && !InGuest(cfg, 0xfff0_0000)
  {
    hide Inv, Booted, MapL1Section, Translate, Tame;
    var cfg, s := ExampleConfig(), Booted();
    BootedInv();
    BootedLooks();
    KernelClient();
    MapL1SectionKeeps(cfg, s, 0x20_0000, 0xfff0_0000, 0xc2a);
    OutsideSection(s);
    BootedTame(s);
  }

  lemma BootedTame(s: State)
    requires Looks(s, View(0, 0, 0, Data, 0, 0))
    ensures Tame(ExampleConfig(), s)
  {
    hide Edge;
    forall a | 0 <= a < MEM_WORDS
      ensures !Edgy(ExampleConfig(), Kind(s, a), s.mem[a])
    {
      assert s.mem[a] == 0 || s.mem[a] == RESERVED;
    }
  }

  lemma OutsideSection(s: State)
    requires Looks(s, View(0, 0, 0, Data, 0, 0))
    ensures var (e, t) := MapL1Section(ExampleConfig(), s, 0x20_0000, 0xfff0_0000, 0xc2a);
      e == SUCCESS_MMU && Translate(t, 4, 0x20_0000) == Some(0xfff0_0000)
  {
    hide CreateSecDesc, L1SecCheck, SecAp, RangeOk, SecAddr, RefOf;
    OnlyReserved();
    CleanSection(s, 0xfff);
    SectionWord(0xfff, 0xfff0_0c2a);
    assert L1Slot(s, 0x20_0000) == 0xc_0002;
    assert AcField(4, 1) == 1;
  }

  // ---------- preconditions that are met ----------

  /** A second L1 can be created after the first, and an L2 once the run has cleared the section. */
  lemma RoundTripExample()
    ensures var cfg := ExampleConfig();
      var t := Run(cfg, Booted(), CLEARING);
      && Inv(cfg, Booted()) && CreateL1(cfg, Booted(), 0x31_0000).0 == SUCCESS_MMU
      && Inv(cfg, t) && CreateL2(cfg, t, L2_BASE).0 == SUCCESS_MMU
  {
    hide Inv, CreateL1, CreateL2, Booted, Run, AllAccepted, Slack;
    BootedLooks();
    EmptyL1(Booted(), 0x31_0000);
    RunSound();
    RunLooks();
    EmptyL2(Run(ExampleConfig(), Booted(), CLEARING), L2_BASE);
  }

  /** After the run, one mapped section is enough for a split. */
  lemma SplittableExample()
    ensures var cfg := ExampleConfig();
      var (e, t) := MapL1Section(cfg, Run(cfg, Booted(), CREATING), 0x20_0000, 0x20_0000, 0xc2a);
      e == SUCCESS_MMU && Splittable(cfg, t, 0x20_0000, L2_BASE)
  {
    hide Inv, MapL1Section, Run, Booted, Looks, Slack;
    var cfg := ExampleConfig();
    var s := Run(cfg, Booted(), CREATING);
    RunSound();
    RunLooks();
    MapL1SectionKeeps(cfg, s, 0x20_0000, 0x20_0000, 0xc2a);
    SectionTwo(s);
    SplittableView(MapL1Section(cfg, s, 0x20_0000, 0x20_0000, 0xc2a).1);
  }

  lemma SectionTwo(s: State)
    requires Looks(s, View(0x10_0c28, 0x8032, 0, L2Pt, 0, 0))
    ensures var (e, t) := MapL1Section(ExampleConfig(), s, 0x20_0000, 0x20_0000, 0xc2a);
      && e == SUCCESS_MMU && t.ttbr == L1_BASE && t.mem[0xc_0002] == 0x20_0c2a && t.bft[0x100].typ == L2Pt
      && (forall x :: 0x4_0000 <= x < 0x4_0100 ==> t.mem[x] == 0)
      && (forall b :: 0 <= b < BLOCKS ==> t.bft[b].refcnt <= 1)
  {
    hide CreateSecDesc, L1SecCheck, SecAp, RangeOk, SecAddr, RefOf;
    OnlyReserved();
    CleanSection(s, 2);
    SectionWord(2, 0x20_0c2a);
    assert L1Slot(s, 0x20_0000) == 0xc_0002;
  }

  lemma SplittableView(t: State)
    requires Inv(ExampleConfig(), t) && t.ttbr == L1_BASE
    requires t.mem[0xc_0002] == 0x20_0c2a && t.bft[0x100].typ == L2Pt
    requires forall x :: 0x4_0000 <= x < 0x4_0100 ==> t.mem[x] == 0
    requires forall b :: 0 <= b < BLOCKS ==> t.bft[b].refcnt <= 1
    ensures Splittable(ExampleConfig(), t, 0x20_0000, L2_BASE)
  {
    hide Inv;
    OnlyReserved();
    assert L1Slot(t, 0x20_0000) == 0xc_0002;
  }
}
