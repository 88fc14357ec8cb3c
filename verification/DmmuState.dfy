/**
  Data model of the page-table monitor (core/hypervisor/dmmu.c, dmmu.h): 32-bit
  words and the short-descriptor fields packed in them (section B3.5 of the
  ARMv7-A Architecture Reference Manual), the block frame table, and the checks
  that decide which descriptors a guest table may hold.

  Words are integers below 2^32; a mask or shift of the C code is written as the
  division or remainder it stands for.  Physical memory is indexed by word, so
  the word at physical address `pa` is `mem[pa / 4]`, and a word address `a`
  lies in physical block `a / 1024`.
*/
module DmmuState {
  import opened Bits

  const WORD_LIMIT: int := 0x1_0000_0000
  const MEM_WORDS: int := 0x4000_0000
  const BLOCKS: int := 0x10_0000
  const PAGE_SIZE: int := 0x1000
  const SECTION_SIZE: int := 0x10_0000
  const COUNT_LIMIT: int := 0x4000_0000 // one more than MAX_30BIT
  const MAX_30BIT: int := 0x3fff_ffff

  const SUCCESS_MMU: int := 0
  const ERR_MMU_RESERVED_VA: int := 1
  const ERR_MMU_ENTRY_UNMAPPED: int := 2
  const ERR_MMU_OUT_OF_RANGE_PA: int := 3
  const ERR_MMU_SECTION_NOT_UNMAPPED: int := 4
  const ERR_MMU_PH_BLOCK_NOT_WRITABLE: int := 5
  const ERR_MMU_AP_UNSUPPORTED: int := 6
  const ERR_MMU_BASE_ADDRESS_IS_NOT_ALIGNED: int := 7
  const ERR_MMU_ALREADY_L1_PT: int := 8
  const ERR_MMU_ALREADY_L2_PT: int := 8
  const ERR_MMU_PT_REGION: int := 10
  const ERR_MMU_IS_NOT_L2_PT: int := 12
  const ERR_MMU_XN_BIT_IS_ON: int := 13
  const ERR_MMU_PT_NOT_UNMAPPED: int := 14
  const ERR_MMU_REF_OVERFLOW: int := 15
  const ERR_MMU_L2_UNSUPPORTED_DESC_TYPE: int := 17
  const ERR_MMU_REFERENCE_L2: int := 18
  const ERR_MMU_L1_BASE_IS_NOT_16KB_ALIGNED: int := 19
  const ERR_MMU_IS_NOT_L1_PT: int := 20
  const ERR_MMU_REFERENCED: int := 21
  const ERR_MMU_FREE_ACTIVE_L1: int := 22
  const ERR_MMU_SUPERSECTION: int := 23
  const ERR_MMU_NEW_L1_NOW_WRITABLE: int := 24
  const ERR_MMU_L2_BASE_OUT_OF_RANGE: int := 25
  const ERR_MMU_NOT_CACHEABLE: int := 26
  const ERR_MMU_OUT_OF_CACHEABLE_RANGE: int := 27
  const ERR_MMU_NEW_L2_NOW_WRITABLE: int := 28
  const ERR_MMU_UNIMPLEMENTED: int := -1

  type Word = x: int | 0 <= x < WORD_LIMIT
  type Count = x: int | 0 <= x < COUNT_LIMIT

  datatype PageType = Data | L1Pt | L2Pt | Invalid

  /** One entry of the block frame table: a 30-bit count and a 2-bit type. */
  datatype Entry = Entry(refcnt: Count, typ: PageType)

  type Memory = m: seq<Word> | |m| == MEM_WORDS ghost witness seq(MEM_WORDS, i => 0)
  type Bft = t: seq<Entry> | |t| == BLOCKS ghost witness seq(BLOCKS, i => Entry(0, Data))
  type Master = m: seq<Word> | |m| == 4096 ghost witness seq(4096, i => 0)

  /** What the monitor reads of the guest's configuration, and the master table. */
  datatype Config = Config(
    pstart: Word, psize: Word,
    cachedOffset: Word, cachedSize: Word,
    kernelAc: Word, taskAc: Word,
    master: Master)

  datatype State = State(mem: Memory, bft: Bft, ttbr: Word)

  // ---------- descriptor fields ----------

  function Typ(w: Word): int { w % 4 }

  function Domain(w: Word): int { w / 0x20 % 16 }

  // l1_pt_t
  function Pxn(w: Word): int { w / 4 % 2 }

  function PtBlock(w: Word): int { w / 0x1000 }

  predicate PtUpperHalf(w: Word) { w / 0x800 % 2 == 1 }

  // l1_sec_t
  function SecC(w: Word): int { w / 8 % 2 }

  function SecAp(w: Word): int { w / 0x8000 % 2 * 4 + w / 0x400 % 4 }

  function SecIndic(w: Word): int { w / 0x4_0000 % 2 }

  function SecAddr(w: Word): int { w / 0x10_0000 }

  // l2_small_t
  function SmallC(w: Word): int { w / 8 % 2 }

  function SmallAp(w: Word): int { w / 0x200 % 2 * 4 + w / 0x10 % 4 }

  function SmallBlock(w: Word): int { w / 0x1000 }

  /** Masking keeps a field above bit 2 that lies below bit position `top`. */
  lemma KeepsField(w: int, a: int, top: int, j: int, k: int, c: int)
    requires j > 0 && k > 0 && c > 0 && top == 4 * j * (k * c)
    requires w % top / 4 == a % top / 4
    ensures w / (4 * j) % k == a / (4 * j) % k
  {
    DivDiv(w % top, 4, j);
    DivDiv(a % top, 4, j);
    SameField(w, a, 4 * j, k, c);
  }

  // CREATE_L1_SEC_DESC: masks 0xFFF00000, 0x000BFFFC, then | 0b10
  function CreateSecDesc(pa: Word, attrs: Word): Word
  {
    pa / 0x10_0000 * 0x10_0000 + attrs / 0x8_0000 % 2 * 0x8_0000 + attrs % 0x4_0000 / 4 * 4 + 2
  }

  lemma SecDescLayout(pa: Word, attrs: Word)
    ensures Typ(CreateSecDesc(pa, attrs)) == 2 && SecIndic(CreateSecDesc(pa, attrs)) == 0
    ensures SecAddr(CreateSecDesc(pa, attrs)) == pa / SECTION_SIZE
    ensures CreateSecDesc(pa, attrs) % 0x4_0000 / 4 == attrs % 0x4_0000 / 4
  {
    var h, b, u := pa / 0x10_0000, attrs / 0x8_0000 % 2, attrs % 0x4_0000 / 4;
    Split(h, 0x10_0000, b * 0x8_0000 + u * 4 + 2);
    Split(h * 4 + b * 2, 0x4_0000, u * 4 + 2);
    Split(u, 4, 2);
    Split(h * 0x4_0000 + b * 0x2_0000 + u, 4, 2);
  }

  lemma SecDescFields(pa: Word, attrs: Word)
    ensures Domain(CreateSecDesc(pa, attrs)) == Domain(attrs)
    ensures SecAp(CreateSecDesc(pa, attrs)) == SecAp(attrs)
    ensures SecC(CreateSecDesc(pa, attrs)) == SecC(attrs)
  {
    var w := CreateSecDesc(pa, attrs);
    SecDescLayout(pa, attrs);
    KeepsField(w, attrs, 0x4_0000, 0x2000, 2, 4);
    KeepsField(w, attrs, 0x4_0000, 0x100, 4, 0x40);
    KeepsField(w, attrs, 0x4_0000, 8, 16, 0x200);
    KeepsField(w, attrs, 0x4_0000, 2, 2, 0x4000);
  }

  // CREATE_L1_PT_DESC: masks 0xFFFFFC00, 0x000003FC, then | 0b01
  function CreatePtDesc(pa: Word, attrs: Word): Word
  {
    pa / 0x400 * 0x400 + attrs % 0x400 / 4 * 4 + 1
  }

  lemma PtDescFields(pa: Word, attrs: Word)
    ensures Typ(CreatePtDesc(pa, attrs)) == 1
    ensures CreatePtDesc(pa, attrs) / 0x400 == pa / 0x400
    ensures PtBlock(CreatePtDesc(pa, attrs)) == pa / PAGE_SIZE
    ensures PtUpperHalf(CreatePtDesc(pa, attrs)) <==> pa / 0x800 % 2 == 1
    ensures Pxn(CreatePtDesc(pa, attrs)) == Pxn(attrs)
    ensures Domain(CreatePtDesc(pa, attrs)) == Domain(attrs)
  {
    var w := CreatePtDesc(pa, attrs);
    var u := attrs % 0x400 / 4;
    Split(pa / 0x400, 0x400, u * 4 + 1);
    Split(pa / 0x400 * 0x100 + u, 4, 1);
    Split(u, 4, 1);
    DivDiv(w, 0x400, 4);
    DivDiv(pa, 0x400, 4);
    DivDiv(w, 0x400, 2);
    DivDiv(pa, 0x400, 2);
    KeepsField(w, attrs, 0x400, 1, 2, 0x80);
    KeepsField(w, attrs, 0x400, 8, 16, 2);
  }

  // CREATE_L2_DESC: masks 0xFFFFF000, 0x00000FFD, then | 0b10
  function CreateSmallDesc(pa: Word, attrs: Word): Word
  {
    pa / 0x1000 * 0x1000 + attrs % 0x1000 / 4 * 4 + 2 + attrs % 2
  }

  lemma SmallDescFields(pa: Word, attrs: Word)
    ensures Typ(CreateSmallDesc(pa, attrs)) >= 2
    ensures SmallBlock(CreateSmallDesc(pa, attrs)) == pa / PAGE_SIZE
    ensures SmallAp(CreateSmallDesc(pa, attrs)) == SmallAp(attrs)
    ensures SmallC(CreateSmallDesc(pa, attrs)) == SmallC(attrs)
  {
    var w := CreateSmallDesc(pa, attrs);
    var u := attrs % 0x1000 / 4;
    var l := 2 + attrs % 2;
    Split(pa / 0x1000, 0x1000, u * 4 + l);
    Split(pa / 0x1000 * 0x400 + u, 4, l);
    Split(u, 4, l);
    KeepsField(w, attrs, 0x1000, 0x80, 2, 4);
    KeepsField(w, attrs, 0x1000, 4, 4, 0x40);
    KeepsField(w, attrs, 0x1000, 2, 2, 0x100);
  }

  /** The NS bit of a section, above the type of section. */
  lemma SecDescNs(pa: Word, attrs: Word)
    ensures CreateSecDesc(pa, attrs) / 0x8_0000 % 2 == attrs / 0x8_0000 % 2
  {
    var h, b, u := pa / 0x10_0000, attrs / 0x8_0000 % 2, attrs % 0x4_0000 / 4;
    assert CreateSecDesc(pa, attrs) == (h * 2 + b) * 0x8_0000 + (u * 4 + 2);
    Split(h * 2 + b, 0x8_0000, u * 4 + 2);
    Split(h, 2, b);
  }

  /** All attribute bits of a page-table descriptor. */
  lemma PtDescAttrs(pa: Word, attrs: Word)
    ensures CreatePtDesc(pa, attrs) % 0x400 / 4 == attrs % 0x400 / 4
  {
    var u := attrs % 0x400 / 4;
    Split(pa / 0x400, 0x400, u * 4 + 1);
    Split(u, 4, 1);
  }

  /** All attribute bits of a small page, and the XN bit below its type. */
  lemma SmallDescAttrs(pa: Word, attrs: Word)
    ensures CreateSmallDesc(pa, attrs) % 0x1000 / 4 == attrs % 0x1000 / 4
    ensures CreateSmallDesc(pa, attrs) % 2 == attrs % 2
  {
    var h, u, l := pa / 0x1000, attrs % 0x1000 / 4, 2 + attrs % 2;
    Split(h, 0x1000, u * 4 + l);
    Split(u, 4, l);
    LowBit(h * 0x800 + u * 2 + 1, attrs % 2, CreateSmallDesc(pa, attrs));
  }

  lemma LowBit(q: int, x: int, w: int)
    requires 0 <= x < 2 && w == 2 * q + x
    ensures w % 2 == x
  {
  }

  // UNMAP_L1_ENTRY and UNMAP_L2_ENTRY
  function UnmapDesc(w: Word): Word { w - w % 4 }

  /** The two-bit field of domain `d` in a domain access control word. */
  function AcField(ac: Word, d: nat): int
  {
    if d == 0 then ac % 4 else AcField(ac / 4, d - 1)
  }

  predicate DomainGranted(cfg: Config, d: nat)
  {
    AcField(cfg.kernelAc, d) != 0 || AcField(cfg.taskAc, d) != 0
  }

  // ---------- physical ranges, in wrapping 32-bit arithmetic ----------

  function U32(x: int): Word { x % WORD_LIMIT }

  predicate RangeOk(cfg: Config, pa: Word, size: Word)
  {
    pa >= cfg.pstart && U32(pa + size) <= U32(cfg.pstart + cfg.psize + SECTION_SIZE)
  }

  function CachedStart(cfg: Config): Word { U32(cfg.pstart + cfg.cachedOffset) }

  function CachedEnd(cfg: Config): Word { U32(CachedStart(cfg) + cfg.cachedSize) }

  predicate InsideCached(cfg: Config, pa: Word, size: Word)
  {
    pa >= CachedStart(cfg) && U32(pa + size) <= CachedEnd(cfg)
  }

  predicate IntersectsCached(cfg: Config, pa: Word, size: Word)
  {
    || (CachedStart(cfg) <= pa && CachedEnd(cfg) > pa)
    || (CachedStart(cfg) <= U32(pa + size) && CachedEnd(cfg) >= U32(pa + size))
    || (CachedStart(cfg) >= pa && CachedEnd(cfg) <= U32(pa + size))
  }

  // ---------- descriptor checks ----------

  function L1PtCheck(bft: Bft, w: Word): int
  {
    if PtUpperHalf(w) then ERR_MMU_L2_BASE_OUT_OF_RANGE
    else if bft[PtBlock(w)].typ != L2Pt then ERR_MMU_IS_NOT_L2_PT
    else if bft[PtBlock(w)].refcnt >= MAX_30BIT - 4096 then ERR_MMU_REF_OVERFLOW
    else if Pxn(w) != 0 then ERR_MMU_AP_UNSUPPORTED
    else SUCCESS_MMU
  }

  /** The last of the three tests that block `b` of a writable section fails. */
  function SecBlockError(bft: Bft, b: int, l1Base: Word): int
    requires 0 <= b < BLOCKS
  {
    if bft[b].refcnt >= MAX_30BIT - 4096 then ERR_MMU_REF_OVERFLOW
    else if b / 4 * 0x4000 == l1Base then ERR_MMU_NEW_L1_NOW_WRITABLE
    else if bft[b].typ != Data then ERR_MMU_PH_BLOCK_NOT_WRITABLE
    else SUCCESS_MMU
  }

  /** The error of the highest failing block among the first `n`, else `err`. */
  function SecScan(bft: Bft, first: int, n: nat, l1Base: Word, err: int): int
    requires 0 <= first && first + n <= BLOCKS
  {
    if n == 0 then err
    else
      var e := SecBlockError(bft, first + n - 1, l1Base);
      if e != SUCCESS_MMU then e else SecScan(bft, first, n - 1, l1Base, err)
  }

  function SecRangeError(cfg: Config, w: Word): int
  {
    if DomainGranted(cfg, Domain(w)) && !RangeOk(cfg, SecAddr(w) * SECTION_SIZE, SECTION_SIZE)
    then ERR_MMU_OUT_OF_RANGE_PA else SUCCESS_MMU
  }

  function L1SecCheck(cfg: Config, bft: Bft, w: Word, l1Base: Word): int
  {
    if IntersectsCached(cfg, SecAddr(w) * SECTION_SIZE, SECTION_SIZE) && SecC(w) != 1 then
      ERR_MMU_NOT_CACHEABLE
    else if SecIndic(w) == 1 then ERR_MMU_SUPERSECTION
    else if SecAp(w) != 1 && SecAp(w) != 2 && SecAp(w) != 3 then ERR_MMU_AP_UNSUPPORTED
    else if SecAp(w) == 3 then
      SecScan(bft, SecAddr(w) * 256, 256, l1Base, SecRangeError(cfg, w))
    else SUCCESS_MMU
  }

  function L1Check(cfg: Config, bft: Bft, w: Word, l1Base: Word): int
  {
    if Typ(w) == 0 then SUCCESS_MMU
    else if Typ(w) == 1 then L1PtCheck(bft, w)
    else if Typ(w) == 2 then L1SecCheck(cfg, bft, w, l1Base)
    else ERR_MMU_SUPERSECTION
  }

  function L2ApCheck(cfg: Config, bft: Bft, w: Word, l2Base: Word): int
  {
    if IntersectsCached(cfg, SmallBlock(w) * PAGE_SIZE, PAGE_SIZE) && SmallC(w) != 1 then
      ERR_MMU_NOT_CACHEABLE
    else if SmallAp(w) != 1 && SmallAp(w) != 2 && SmallAp(w) != 3 then ERR_MMU_AP_UNSUPPORTED
    else if SmallAp(w) != 3 then SUCCESS_MMU
    else if SmallBlock(w) == l2Base / PAGE_SIZE then ERR_MMU_NEW_L2_NOW_WRITABLE
    else if bft[SmallBlock(w)].typ != Data then ERR_MMU_PH_BLOCK_NOT_WRITABLE
    else if !RangeOk(cfg, SmallBlock(w) * PAGE_SIZE, PAGE_SIZE) then ERR_MMU_OUT_OF_RANGE_PA
    else SUCCESS_MMU
  }

  function L2SmallCheck(cfg: Config, bft: Bft, w: Word, l2Base: Word): int
  {
    if bft[SmallBlock(w)].refcnt >= MAX_30BIT - 1024 then ERR_MMU_REF_OVERFLOW
    else L2ApCheck(cfg, bft, w, l2Base)
  }

  function L2Check(cfg: Config, bft: Bft, w: Word, l2Base: Word): int
  {
    if Typ(w) == 0 then SUCCESS_MMU
    else if Typ(w) == 2 || Typ(w) == 3 then L2SmallCheck(cfg, bft, w, l2Base)
    else ERR_MMU_L2_UNSUPPORTED_DESC_TYPE
  }

  /** The first error met when checking the first `n` words of a table at `off`. */
  function FirstError(cfg: Config, mem: Memory, bft: Bft, t: PageType, off: nat, n: nat, base: Word): int
    requires off + n <= MEM_WORDS
  {
    if n == 0 then SUCCESS_MMU
    else
      var e := FirstError(cfg, mem, bft, t, off, n - 1, base);
      if e != SUCCESS_MMU then e
      else if t == L1Pt then L1Check(cfg, bft, mem[off + n - 1], base)
      else L2Check(cfg, bft, mem[off + n - 1], base)
  }

  // ---------- references ----------

  /** How often descriptor `w`, held in a table of type `t`, counts for block `b`. */
  function RefOf(t: PageType, w: Word, b: int): (r: nat)
    ensures r <= 1
  {
    match t
    case L1Pt =>
      if Typ(w) == 1 && PtBlock(w) == b then 1
      else if Typ(w) == 2 && SecAp(w) == 3 && SecAddr(w) == b / 256 then 1
      else 0
    case L2Pt =>
      if Typ(w) >= 2 && SmallAp(w) == 3 && SmallBlock(w) == b then 1 else 0
    case _ => 0
  }

  /** References to `b` from the words `lo..hi`, read as a table of type `t`. */
  function TableRefs(mem: Memory, t: PageType, lo: nat, hi: nat, b: int): nat
    requires lo <= hi <= MEM_WORDS
    decreases hi
  {
    if lo == hi then 0 else TableRefs(mem, t, lo, hi - 1, b) + RefOf(t, mem[hi - 1], b)
  }

  /** The table type under which word `a` is translated: an L2 block has only its lower half validated. */
  function Kind(s: State, a: nat): PageType
    requires a < MEM_WORDS
  {
    var t := s.bft[a / 1024].typ;
    if t == L2Pt && a % 1024 >= 512 then Data else t
  }

  /** References to `b` from every typed table among the words `lo..hi`. */
  function Refs(s: State, lo: nat, hi: nat, b: int): nat
    requires lo <= hi <= MEM_WORDS
    decreases hi
  {
    if lo == hi then 0 else Refs(s, lo, hi - 1, b) + RefOf(Kind(s, hi - 1), s.mem[hi - 1], b)
  }

  /** What the count of `b` holds beyond its references: pins and leaked counts. */
  function Slack(s: State, b: nat): int
    requires b < BLOCKS
  {
    s.bft[b].refcnt - Refs(s, 0, MEM_WORDS, b)
  }
}
