/**
  The ten commands of `dmmu_handler` (core/hypervisor/dmmu.c) as functions on
  states: the code returned and the state left behind, on every input.  The
  loops of the C code appear here only as what they sum up to: a reference
  count moves by the references that a table, or one descriptor, holds.
*/
module DmmuCommands {
  import opened Bits
  import opened DmmuState

  /** An entry whose count moved by `d`, in a 30-bit field. */
  function Moved(e: Entry, d: int): (r: Entry)
    ensures r.typ == e.typ
  {
    Entry((e.refcnt + d) % COUNT_LIMIT, e.typ)
  }

  function Shift(bft: Bft, delta: int -> int): (r: Bft)
    ensures forall b :: 0 <= b < BLOCKS ==> r[b] == Moved(bft[b], delta(b))
  {
    var r: seq<Entry> := seq(BLOCKS, b requires 0 <= b < BLOCKS => Moved(bft[b], delta(b)));
    assert |r| == BLOCKS;
    r
  }

  /** Every descriptor of the table of type `t` in the words `lo..hi` is counted. */
  function AddRefs(mem: Memory, bft: Bft, t: PageType, lo: nat, hi: nat): (r: Bft)
    requires lo <= hi <= MEM_WORDS
    ensures forall b :: 0 <= b < BLOCKS ==> r[b] == Moved(bft[b], TableRefs(mem, t, lo, hi, b))
  {
    Shift(bft, b => TableRefs(mem, t, lo, hi, b))
  }

  /** Every descriptor of that table is taken off the counts. */
  function DropRefs(mem: Memory, bft: Bft, t: PageType, lo: nat, hi: nat): (r: Bft)
    requires lo <= hi <= MEM_WORDS
    ensures forall b :: 0 <= b < BLOCKS ==> r[b] == Moved(bft[b], 0 - TableRefs(mem, t, lo, hi, b))
  {
    Shift(bft, b => 0 - TableRefs(mem, t, lo, hi, b))
  }

  function Retype(bft: Bft, first: nat, n: nat, t: PageType): Bft
    requires first + n <= BLOCKS
  {
    seq(BLOCKS, b requires 0 <= b < BLOCKS =>
      if first <= b < first + n then bft[b].(typ := t) else bft[b])
  }

  predicate Reserved(cfg: Config, l1Idx: int)
    requires 0 <= l1Idx < 4096
  {
    Typ(cfg.master[l1Idx]) != 0
  }

  /** The table at word `off` with the reserved entries of the master table copied in. */
  function CopyMaster(cfg: Config, mem: Memory, off: nat): Memory
    requires off + 4096 <= MEM_WORDS
  {
    seq(MEM_WORDS, a requires 0 <= a < MEM_WORDS =>
      if off <= a < off + 4096 && Reserved(cfg, a - off) then cfg.master[a - off] else mem[a])
  }

  predicate FourOfType(bft: Bft, p: nat, t: PageType)
    requires p + 4 <= BLOCKS
  {
    bft[p].typ == t && bft[p + 1].typ == t && bft[p + 2].typ == t && bft[p + 3].typ == t
  }

  predicate FourUnreferenced(bft: Bft, p: nat)
    requires p + 4 <= BLOCKS
  {
    bft[p].refcnt == 0 && bft[p + 1].refcnt == 0 && bft[p + 2].refcnt == 0 && bft[p + 3].refcnt == 0
  }

  /** The word of the active L1 that translates `va`: L1_IDX_TO_PA(TTBR0, VA_TO_L1_IDX(va)). */
  function L1Slot(s: State, va: Word): (a: nat)
    ensures a < MEM_WORDS
  {
    s.ttbr / 0x4000 * 4096 + va / SECTION_SIZE
  }

  /** Bitwise or of two numbers of `n` bits. */
  function BitOr(n: nat, x: nat, y: nat): (r: nat)
    ensures r < Pow2(n)
    ensures y == 0 && x < Pow2(n) ==> r == x
  {
    if n == 0 then 0
    else 2 * BitOr(n - 1, x / 2, y / 2) + (if x % 2 == 1 || y % 2 == 1 then 1 else 0)
  }

  /** The word at L2_IDX_TO_PA(l2Base, idx); an index of 1024 or more reaches into other pages. */
  function L2Slot(l2Base: Word, idx: Word): (a: nat)
    ensures a < MEM_WORDS
    ensures idx < 1024 ==> a == l2Base / PAGE_SIZE * 1024 + idx
  {
    assert Pow2(10) == 1024 && Pow2(20) == BLOCKS;
    BitOr(20, l2Base / PAGE_SIZE, U32(idx * 4) / PAGE_SIZE) * 1024 + idx % 1024
  }

  function CreateL1(cfg: Config, s: State, base: Word): (int, State)
  {
    if !RangeOk(cfg, base, 4 * PAGE_SIZE) then (ERR_MMU_OUT_OF_RANGE_PA, s)
    else if !InsideCached(cfg, base, 4 * PAGE_SIZE) then (ERR_MMU_OUT_OF_CACHEABLE_RANGE, s)
    else if base % 0x4000 != 0 then (ERR_MMU_L1_BASE_IS_NOT_16KB_ALIGNED, s)
    else
      var p := base / PAGE_SIZE;
      if FourOfType(s.bft, p, L1Pt) then (ERR_MMU_ALREADY_L1_PT, s)
      else if !FourOfType(s.bft, p, Data) then (ERR_MMU_PT_REGION, s)
      else if !FourUnreferenced(s.bft, p) then (ERR_MMU_REFERENCED, s)
      else
        var mem := CopyMaster(cfg, s.mem, p * 1024);
        var e := FirstError(cfg, mem, s.bft, L1Pt, p * 1024, 4096, base);
        if e != SUCCESS_MMU then (e, s.(mem := mem))
        else
          var counted := AddRefs(mem, s.bft, L1Pt, p * 1024, p * 1024 + 4096);
          (SUCCESS_MMU, State(mem, Retype(counted, p, 4, L1Pt), s.ttbr))
  }

  function UnmapL1(cfg: Config, s: State, base: Word): (int, State)
  {
    if !RangeOk(cfg, base, 4 * PAGE_SIZE) then (ERR_MMU_OUT_OF_RANGE_PA, s)
    else if base % 0x4000 != 0 then (ERR_MMU_L1_BASE_IS_NOT_16KB_ALIGNED, s)
    else
      var p := base / PAGE_SIZE;
      if !FourOfType(s.bft, p, L1Pt) then (ERR_MMU_IS_NOT_L1_PT, s)
      else if s.ttbr / 0x4000 == base / 0x4000 then (ERR_MMU_FREE_ACTIVE_L1, s)
      else
        var counted := DropRefs(s.mem, s.bft, L1Pt, p * 1024, p * 1024 + 4096);
        (SUCCESS_MMU, s.(bft := Retype(counted, p, 4, Data)))
  }

  function MapL1Section(cfg: Config, s: State, va: Word, pa: Word, attrs: Word): (int, State)
  {
    if Reserved(cfg, va / SECTION_SIZE) then (ERR_MMU_RESERVED_VA, s)
    else if !RangeOk(cfg, pa, SECTION_SIZE) then (ERR_MMU_OUT_OF_RANGE_PA, s)
    else
      var a := L1Slot(s, va);
      if Typ(s.mem[a]) != 0 then (ERR_MMU_SECTION_NOT_UNMAPPED, s)
      else
        var w := CreateSecDesc(pa, attrs);
        var e := L1SecCheck(cfg, s.bft, w, s.ttbr);
        if e != SUCCESS_MMU then (e, s)
        else (SUCCESS_MMU, State(s.mem[a := w], Shift(s.bft, b => RefOf(L1Pt, w, b)), s.ttbr))
  }

  function MapL1Pt(cfg: Config, s: State, va: Word, l2Base: Word, attrs: Word): (int, State)
  {
    var blk := l2Base / PAGE_SIZE;
    if Reserved(cfg, va / SECTION_SIZE) then (ERR_MMU_RESERVED_VA, s)
    else if !RangeOk(cfg, l2Base, PAGE_SIZE) then (ERR_MMU_OUT_OF_RANGE_PA, s)
    else if s.bft[blk].typ != L2Pt then (ERR_MMU_IS_NOT_L2_PT, s)
    else if Pxn(attrs) != 0 then (ERR_MMU_XN_BIT_IS_ON, s)
    else
      var a := L1Slot(s, va);
      if Typ(s.mem[a]) != 0 then (ERR_MMU_PT_NOT_UNMAPPED, s)
      else if s.bft[blk].refcnt == MAX_30BIT then (ERR_MMU_REF_OVERFLOW, s)
      else
        var w := CreatePtDesc(l2Base, attrs);
        // the count is raised before the half page is tested
        var counted := Shift(s.bft, b => if b == blk then 1 else 0);
        if PtUpperHalf(w) then (ERR_MMU_L2_BASE_OUT_OF_RANGE, s.(bft := counted))
        else (SUCCESS_MMU, State(s.mem[a := w], counted, s.ttbr))
  }

  function UnmapL1Entry(cfg: Config, s: State, va: Word): (int, State)
  {
    if Reserved(cfg, va / SECTION_SIZE) then (ERR_MMU_RESERVED_VA, s)
    else
      var a := L1Slot(s, va);
      var w := s.mem[a];
      if Typ(w) == 1 || (Typ(w) == 2 && SecIndic(w) == 0) then
        (SUCCESS_MMU, State(s.mem[a := UnmapDesc(w)], Shift(s.bft, b => 0 - RefOf(L1Pt, w, b)), s.ttbr))
      else (ERR_MMU_ENTRY_UNMAPPED, s)
  }

  function CreateL2(cfg: Config, s: State, base: Word): (int, State)
  {
    if !RangeOk(cfg, base, PAGE_SIZE) then (ERR_MMU_OUT_OF_RANGE_PA, s)
    else if !InsideCached(cfg, base, PAGE_SIZE) then (ERR_MMU_OUT_OF_CACHEABLE_RANGE, s)
    else if base % PAGE_SIZE != 0 then (ERR_MMU_BASE_ADDRESS_IS_NOT_ALIGNED, s)
    else
      var q := base / PAGE_SIZE;
      if s.bft[q].typ == L2Pt then (ERR_MMU_ALREADY_L2_PT, s)
      else if s.bft[q].typ == L1Pt then (ERR_MMU_PT_REGION, s)
      else if s.bft[q].typ == Data && s.bft[q].refcnt != 0 then (ERR_MMU_REFERENCED, s)
      else
        var e := FirstError(cfg, s.mem, s.bft, L2Pt, q * 1024, 512, base);
        if e != SUCCESS_MMU then (e, s)
        else
          var counted := AddRefs(s.mem, s.bft, L2Pt, q * 1024, q * 1024 + 512);
          (SUCCESS_MMU, s.(bft := Retype(counted, q, 1, L2Pt)))
  }

  function UnmapL2(cfg: Config, s: State, base: Word): (int, State)
  {
    if !RangeOk(cfg, base, PAGE_SIZE) then (ERR_MMU_OUT_OF_RANGE_PA, s)
    else
      var q := base / PAGE_SIZE;
      if s.bft[q].typ != L2Pt || base % PAGE_SIZE != 0 then (ERR_MMU_IS_NOT_L2_PT, s)
      else if s.bft[q].refcnt > 0 then (ERR_MMU_REFERENCE_L2, s)
      else
        var counted := DropRefs(s.mem, s.bft, L2Pt, q * 1024, q * 1024 + 512);
        (SUCCESS_MMU, s.(bft := Retype(counted, q, 1, Data)))
  }

  function MapL2Entry(cfg: Config, s: State, l2Base: Word, idx: Word, pa: Word, attrs: Word): (int, State)
  {
    if !RangeOk(cfg, l2Base, PAGE_SIZE) then (ERR_MMU_OUT_OF_RANGE_PA, s)
    else if !RangeOk(cfg, pa, PAGE_SIZE) then (ERR_MMU_OUT_OF_RANGE_PA, s)
    else if s.bft[l2Base / PAGE_SIZE].typ != L2Pt then (ERR_MMU_IS_NOT_L2_PT, s)
    else
      var a := L2Slot(l2Base, idx);
      if Typ(s.mem[a]) != 0 then (ERR_MMU_PT_NOT_UNMAPPED, s)
      else
        var w := CreateSmallDesc(pa, attrs);
        var e := L2SmallCheck(cfg, s.bft, w, l2Base);
        if e != SUCCESS_MMU then (e, s)
        else (SUCCESS_MMU, State(s.mem[a := w], Shift(s.bft, b => RefOf(L2Pt, w, b)), s.ttbr))
  }

  function UnmapL2Entry(cfg: Config, s: State, l2Base: Word, idx: Word): (int, State)
  {
    if !RangeOk(cfg, l2Base, PAGE_SIZE) then (ERR_MMU_OUT_OF_RANGE_PA, s)
    else if s.bft[l2Base / PAGE_SIZE].typ != L2Pt then (ERR_MMU_IS_NOT_L2_PT, s)
    else
      var a := L2Slot(l2Base, idx);
      var w := s.mem[a];
      if Typ(w) != 2 && Typ(w) != 3 then (SUCCESS_MMU, s)
      else (SUCCESS_MMU, State(s.mem[a := UnmapDesc(w)], Shift(s.bft, b => 0 - RefOf(L2Pt, w, b)), s.ttbr))
  }

  function SwitchMm(cfg: Config, s: State, base: Word): (int, State)
  {
    if !RangeOk(cfg, base, 4 * PAGE_SIZE) then (ERR_MMU_OUT_OF_RANGE_PA, s)
    else if base % 0x4000 != 0 then (ERR_MMU_L1_BASE_IS_NOT_16KB_ALIGNED, s)
    else if s.bft[base / PAGE_SIZE].typ != L1Pt then (ERR_MMU_IS_NOT_L1_PT, s)
    else (SUCCESS_MMU, s.(ttbr := base))
  }

  /** `dmmu_handler`: the low four bits of `p03` select the command. */
  function Handle(cfg: Config, s: State, p03: Word, p1: Word, p2: Word): (int, State)
  {
    var p0 := p03 % 16;
    var p3 := p03 / 16;
    if p0 == 0 then MapL1Section(cfg, s, p1, p2, p3)
    else if p0 == 1 then UnmapL1Entry(cfg, s, p1)
    else if p0 == 2 then CreateL2(cfg, s, p1)
    else if p0 == 3 then MapL1Pt(cfg, s, p1, p2, p3)
    else if p0 == 4 then MapL2Entry(cfg, s, p1, p2 / 0x10_0000, p03 - p03 % 16, p2 % 0x1000)
    else if p0 == 5 then UnmapL2Entry(cfg, s, p1, p2)
    else if p0 == 6 then UnmapL2(cfg, s, p1)
    else if p0 == 7 then CreateL1(cfg, s, p1)
    else if p0 == 8 then SwitchMm(cfg, s, p1)
    else if p0 == 9 then UnmapL1(cfg, s, p1)
    else (ERR_MMU_UNIMPLEMENTED, s)
  }
}
