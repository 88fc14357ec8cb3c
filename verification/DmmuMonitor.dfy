/**
  The monitor as the C code has it: physical memory and the block frame table
  are arrays written in place, descriptor by descriptor.  Each command is proved
  to compute its function in DmmuCommands.
*/
module DmmuMonitor {
  import opened DmmuState
  import opened DmmuCommands
  import opened DmmuInvariant
  import opened DmmuRuns

  lemma MovedTwice(e: Entry, d: int, d': int)
    ensures Moved(Moved(e, d), d') == Moved(e, d + d') && Moved(e, 0) == e
  {
    var x := e.refcnt + d;
    assert (x % COUNT_LIMIT + d') % COUNT_LIMIT == (x + d') % COUNT_LIMIT by {
      assert x == x / COUNT_LIMIT * COUNT_LIMIT + x % COUNT_LIMIT;
      ModShift(x % COUNT_LIMIT + d', x / COUNT_LIMIT);
    }
  }

  lemma ModShift(y: int, k: int)
    ensures (k * COUNT_LIMIT + y) % COUNT_LIMIT == y % COUNT_LIMIT
  {
    var q, r := y / COUNT_LIMIT, y % COUNT_LIMIT;
    assert k * COUNT_LIMIT + y == (k + q) * COUNT_LIMIT + r;
    Bits.Split(k + q, COUNT_LIMIT, r);
  }

  lemma NothingMoved(bft: Bft)
    ensures forall b :: 0 <= b < BLOCKS ==> Moved(bft[b], 0) == bft[b]
  {
  }

  class Monitor {
    const cfg: Config
    const mem: array<Word>
    const bft: array<Entry>
    var ttbr: Word

    ghost predicate Valid()
      reads this
    {
      mem.Length == MEM_WORDS && bft.Length == BLOCKS
    }

    ghost function Abs(): State
      requires Valid()
      reads this, mem, bft
    {
      State(mem[..], bft[..], ttbr)
    }

    ghost predicate Safe()
      requires Valid()
      reads this, mem, bft
    {
      Inv(cfg, Abs())
    }

    constructor (cfg: Config, mem: array<Word>, bft: array<Entry>, ttbr: Word)
      requires mem.Length == MEM_WORDS && bft.Length == BLOCKS
      ensures Valid() && this.cfg == cfg && this.mem == mem && this.bft == bft && this.ttbr == ttbr
    {
      this.cfg, this.mem, this.bft, this.ttbr := cfg, mem, bft, ttbr;
    }

    // ---------- reading checks ----------

    method L1SecChecker(desc: Word, l1Base: Word) returns (err: int)
      requires Valid()
      ensures err == L1SecCheck(cfg, bft[..], desc, l1Base)
    {
      var ap := SecAp(desc);
      if IntersectsCached(cfg, SecAddr(desc) * SECTION_SIZE, SECTION_SIZE) {
        if SecC(desc) != 1 {
          return ERR_MMU_NOT_CACHEABLE;
        }
      }
      err := SUCCESS_MMU;
      if SecIndic(desc) == 1 {
        err := ERR_MMU_SUPERSECTION;
      } else if ap != 1 && ap != 2 && ap != 3 {
        err := ERR_MMU_AP_UNSUPPORTED;
      } else if ap == 3 {
        if DomainGranted(cfg, Domain(desc)) {
          if !RangeOk(cfg, SecAddr(desc) * SECTION_SIZE, SECTION_SIZE) {
            err := ERR_MMU_OUT_OF_RANGE_PA;
          }
        }
        err := ScanSection(SecAddr(desc) * 256, l1Base, err);
      }
    }

    /** The blocks of a section are looked at in turn, and the last failing test gives the error. */
    method ScanSection(first: nat, l1Base: Word, before: int) returns (err: int)
      requires Valid() && first + 256 <= BLOCKS
      ensures err == SecScan(bft[..], first, 256, l1Base, before)
    {
      err := before;
      for i := 0 to 256
        invariant err == SecScan(bft[..], first, i, l1Base, before)
      {
        var b := first + i;
        if bft[b].typ != Data {
          err := ERR_MMU_PH_BLOCK_NOT_WRITABLE;
        }
        if b / 4 * 0x4000 == l1Base {
          err := ERR_MMU_NEW_L1_NOW_WRITABLE;
        }
        if bft[b].refcnt >= MAX_30BIT - 4096 {
          err := ERR_MMU_REF_OVERFLOW;
        }
      }
    }

    method L1DescChecker(desc: Word, pgd: Word) returns (err: int)
      requires Valid()
      ensures err == L1Check(cfg, bft[..], desc, pgd)
    {
      if Typ(desc) == 0 {
        return SUCCESS_MMU;
      }
      if Typ(desc) == 1 {
        return L1PtCheck(bft[..], desc);
      }
      if Typ(desc) == 2 {
        err := L1SecChecker(desc, pgd);
        return;
      }
      return ERR_MMU_SUPERSECTION;
    }

    // ---------- counting the references of one descriptor ----------

    /** The count of every block of a section moves by one. */
    method MoveSection(first: nat, d: int)
      requires Valid() && first + 256 <= BLOCKS
      modifies bft
      ensures forall b :: 0 <= b < BLOCKS ==>
        bft[b] == if first <= b < first + 256 then Moved(old(bft[b]), d) else old(bft[b])
    {
      for i := 0 to 256
        invariant forall b :: 0 <= b < BLOCKS ==>
          bft[b] == if first <= b < first + i then Moved(old(bft[b]), d) else old(bft[b])
      {
        bft[first + i] := Moved(bft[first + i], d);
      }
    }

    /** `d` is 1 when the descriptor is counted and -1 when it is taken away. */
    method MoveL1Ref(desc: Word, d: int)
      requires Valid()
      modifies bft
      ensures forall b :: 0 <= b < BLOCKS ==> bft[b] == Moved(old(bft[b]), RefOf(L1Pt, desc, b) * d)
    {
      if Typ(desc) == 1 {
        bft[PtBlock(desc)] := Moved(bft[PtBlock(desc)], d);
      } else if Typ(desc) == 2 {
        if SecAp(desc) == 3 {
          MoveSection(SecAddr(desc) * 256, d);
        }
      }
      NothingMoved(old(bft[..]));
    }

    method MoveL2Ref(desc: Word, d: int)
      requires Valid()
      modifies bft
      ensures forall b :: 0 <= b < BLOCKS ==> bft[b] == Moved(old(bft[b]), RefOf(L2Pt, desc, b) * d)
    {
      if Typ(desc) == 2 || Typ(desc) == 3 {
        if SmallAp(desc) == 3 {
          bft[SmallBlock(desc)] := Moved(bft[SmallBlock(desc)], d);
        }
      }
      NothingMoved(old(bft[..]));
    }

    // ---------- whole tables ----------

    /** `create_L1_refs_update` for `d` 1, and the same loop of `dmmu_unmap_L1_pt` for `d` -1. */
    method MoveL1Table(off: nat, d: int)
      requires Valid() && off + 4096 <= MEM_WORDS && (d == 1 || d == -1)
      modifies bft
      ensures forall b :: 0 <= b < BLOCKS ==>
        bft[b] == Moved(old(bft[b]), TableRefs(mem[..], L1Pt, off, off + 4096, b) * d)
    {
      hide RefOf, Moved;
      NothingMoved(bft[..]);
      for i := 0 to 4096
        invariant forall b :: 0 <= b < BLOCKS ==>
          bft[b] == Moved(old(bft[b]), TableRefs(mem[..], L1Pt, off, off + i, b) * d)
      {
        MoveL1Ref(mem[off + i], d);
        forall b | 0 <= b < BLOCKS
          ensures bft[b] == Moved(old(bft[b]), TableRefs(mem[..], L1Pt, off, off + i + 1, b) * d)
        {
          MovedTwice(old(bft[b]), TableRefs(mem[..], L1Pt, off, off + i, b) * d, RefOf(L1Pt, mem[off + i], b) * d);
        }
      }
    }

    /** `create_L2_refs_update`: only blocks of type DATA are counted. */
    method CountL2Table(off: nat, base: Word)
      requires Valid() && off + 512 <= MEM_WORDS
      requires FirstError(cfg, mem[..], bft[..], L2Pt, off, 512, base) == SUCCESS_MMU
      modifies bft
      ensures forall b :: 0 <= b < BLOCKS ==>
        bft[b] == Moved(old(bft[b]), TableRefs(mem[..], L2Pt, off, off + 512, b))
    {
      hide L1Check, L2Check, FirstError, Moved, StaticOk;
      NothingMoved(bft[..]);
      for i := 0 to 512
        invariant forall b :: 0 <= b < BLOCKS ==>
          bft[b].typ == old(bft[b]).typ
          && bft[b] == Moved(old(bft[b]), TableRefs(mem[..], L2Pt, off, off + i, b))
      {
        var desc := mem[off + i];
        FirstErrorOk(cfg, mem[..], old(bft[..]), L2Pt, off, 512, base, i);
        L2CheckOk(cfg, old(bft[..]), desc, base);
        if Typ(desc) == 2 || Typ(desc) == 3 {
          assert SmallAp(desc) == 3 ==> RefOf(L2Pt, desc, SmallBlock(desc)) == 1;
          if bft[SmallBlock(desc)].typ == Data && SmallAp(desc) == 3 {
            bft[SmallBlock(desc)] := Moved(bft[SmallBlock(desc)], 1);
          }
        }
        forall b | 0 <= b < BLOCKS
          ensures bft[b].typ == old(bft[b]).typ
          ensures bft[b] == Moved(old(bft[b]), TableRefs(mem[..], L2Pt, off, off + i + 1, b))
        {
          MovedTwice(old(bft[b]), TableRefs(mem[..], L2Pt, off, off + i, b), RefOf(L2Pt, desc, b));
        }
      }
    }

    /** The loop of `dmmu_unmap_L2_pt`. */
    method UncountL2Table(off: nat)
      requires Valid() && off + 512 <= MEM_WORDS
      modifies bft
      ensures forall b :: 0 <= b < BLOCKS ==>
        bft[b] == Moved(old(bft[b]), 0 - TableRefs(mem[..], L2Pt, off, off + 512, b))
    {
      hide RefOf, Moved;
      NothingMoved(bft[..]);
      for i := 0 to 512
        invariant forall b :: 0 <= b < BLOCKS ==>
          bft[b] == Moved(old(bft[b]), 0 - TableRefs(mem[..], L2Pt, off, off + i, b))
      {
        MoveL2Ref(mem[off + i], -1);
        forall b | 0 <= b < BLOCKS
          ensures bft[b] == Moved(old(bft[b]), 0 - TableRefs(mem[..], L2Pt, off, off + i + 1, b))
        {
          MovedTwice(old(bft[b]), 0 - TableRefs(mem[..], L2Pt, off, off + i, b), 0 - RefOf(L2Pt, mem[off + i], b));
        }
      }
    }

    method CopyReserved(off: nat)
      requires Valid() && off + 4096 <= MEM_WORDS
      modifies mem
      ensures mem[..] == CopyMaster(cfg, old(mem[..]), off)
    {
      for i := 0 to 4096
        invariant forall a :: 0 <= a < MEM_WORDS ==>
          mem[a] == if off <= a < off + i && Reserved(cfg, a - off) then cfg.master[a - off] else old(mem[a])
      {
        if Typ(cfg.master[i]) != 0 {
          mem[off + i] := cfg.master[i];
        }
      }
    }

    method CheckL1Table(off: nat, base: Word) returns (err: int)
      requires Valid() && off + 4096 <= MEM_WORDS
      ensures err == FirstError(cfg, mem[..], bft[..], L1Pt, off, 4096, base)
    {
      hide L1Check, L2Check;
      err := SUCCESS_MMU;
      for i := 0 to 4096
        invariant err == FirstError(cfg, mem[..], bft[..], L1Pt, off, i, base)
      {
        var check := L1DescChecker(mem[off + i], base);
        if check != SUCCESS_MMU {
          if err == SUCCESS_MMU {
            err := check;
          }
        }
      }
    }

    method CheckL2Table(off: nat, base: Word) returns (err: int)
      requires Valid() && off + 512 <= MEM_WORDS
      ensures err == FirstError(cfg, mem[..], bft[..], L2Pt, off, 512, base)
    {
      hide L1Check, L2Check;
      err := SUCCESS_MMU;
      for i := 0 to 512
        invariant err == FirstError(cfg, mem[..], bft[..], L2Pt, off, i, base)
      {
        var check := L2Check(cfg, bft[..], mem[off + i], base);
        if check != SUCCESS_MMU {
          if err == SUCCESS_MMU {
            err := check;
          }
        }
      }
    }

    method SetType(b: nat, t: PageType)
      requires Valid() && b < BLOCKS
      modifies bft
      ensures forall c :: 0 <= c < BLOCKS ==>
        bft[c] == if c == b then Entry(old(bft[c]).refcnt, t) else old(bft[c])
    {
      bft[b] := Entry(bft[b].refcnt, t);
    }

    method SetFourTypes(p: nat, t: PageType)
      requires Valid() && p + 4 <= BLOCKS
      modifies bft
      ensures bft[..] == Retype(old(bft[..]), p, 4, t)
    {
      SetType(p, t);
      SetType(p + 1, t);
      SetType(p + 2, t);
      SetType(p + 3, t);
    }

    method DmmuCreateL1(base: Word) returns (err: int)
      requires Valid()
      modifies mem, bft
      ensures (err, Abs()) == CreateL1(cfg, old(Abs()), base)
    {
      hide FirstError, TableRefs, Reserved;
      if !RangeOk(cfg, base, 4 * PAGE_SIZE) {
        return ERR_MMU_OUT_OF_RANGE_PA;
      }
      if !InsideCached(cfg, base, 4 * PAGE_SIZE) {
        return ERR_MMU_OUT_OF_CACHEABLE_RANGE;
      }
      if base % 0x4000 != 0 {
        return ERR_MMU_L1_BASE_IS_NOT_16KB_ALIGNED;
      }
      var p := base / PAGE_SIZE;
      if FourOfType(bft[..], p, L1Pt) {
        return ERR_MMU_ALREADY_L1_PT;
      }
      if !FourOfType(bft[..], p, Data) {
        return ERR_MMU_PT_REGION;
      }
      if !FourUnreferenced(bft[..], p) {
        return ERR_MMU_REFERENCED;
      }
      CopyReserved(p * 1024);
      err := CheckL1Table(p * 1024, base);
      if err != SUCCESS_MMU {
        return;
      }
      ghost var copied := mem[..];
      MoveL1Table(p * 1024, 1);
      assert bft[..] == Shift(old(bft[..]), b => TableRefs(copied, L1Pt, p * 1024, p * 1024 + 4096, b));
      SetFourTypes(p, L1Pt);
    }

    method DmmuUnmapL1(base: Word) returns (err: int)
      requires Valid()
      modifies bft
      ensures (err, Abs()) == UnmapL1(cfg, old(Abs()), base)
    {
      hide TableRefs;
      if !RangeOk(cfg, base, 4 * PAGE_SIZE) {
        return ERR_MMU_OUT_OF_RANGE_PA;
      }
      if base % 0x4000 != 0 {
        return ERR_MMU_L1_BASE_IS_NOT_16KB_ALIGNED;
      }
      var p := base / PAGE_SIZE;
      if !FourOfType(bft[..], p, L1Pt) {
        return ERR_MMU_IS_NOT_L1_PT;
      }
      if ttbr / 0x4000 == base / 0x4000 {
        return ERR_MMU_FREE_ACTIVE_L1;
      }
      ghost var words := mem[..];
      MoveL1Table(p * 1024, -1);
      assert bft[..] == Shift(old(bft[..]), b => 0 - TableRefs(words, L1Pt, p * 1024, p * 1024 + 4096, b));
      SetFourTypes(p, Data);
      err := SUCCESS_MMU;
    }

    method DmmuCreateL2(base: Word) returns (err: int)
      requires Valid()
      modifies bft
      ensures (err, Abs()) == CreateL2(cfg, old(Abs()), base)
    {
      hide FirstError, TableRefs;
      if !RangeOk(cfg, base, PAGE_SIZE) {
        return ERR_MMU_OUT_OF_RANGE_PA;
      }
      if !InsideCached(cfg, base, PAGE_SIZE) {
        return ERR_MMU_OUT_OF_CACHEABLE_RANGE;
      }
      if base % PAGE_SIZE != 0 {
        return ERR_MMU_BASE_ADDRESS_IS_NOT_ALIGNED;
      }
      var q := base / PAGE_SIZE;
      if bft[q].typ == L2Pt {
        return ERR_MMU_ALREADY_L2_PT;
      }
      if bft[q].typ == L1Pt {
        return ERR_MMU_PT_REGION;
      }
      if bft[q].typ == Data && bft[q].refcnt != 0 {
        return ERR_MMU_REFERENCED;
      }
      err := CheckL2Table(q * 1024, base);
      if err != SUCCESS_MMU {
        return;
      }
      ghost var words := mem[..];
      CountL2Table(q * 1024, base);
      assert bft[..] == Shift(old(bft[..]), b => TableRefs(words, L2Pt, q * 1024, q * 1024 + 512, b));
      SetType(q, L2Pt);
      assert bft[..] == Retype(Shift(old(bft[..]), b => TableRefs(words, L2Pt, q * 1024, q * 1024 + 512, b)), q, 1,
        L2Pt);
    }

    method DmmuUnmapL2(base: Word) returns (err: int)
      requires Valid()
      modifies bft
      ensures (err, Abs()) == UnmapL2(cfg, old(Abs()), base)
    {
      hide TableRefs;
      if !RangeOk(cfg, base, PAGE_SIZE) {
        return ERR_MMU_OUT_OF_RANGE_PA;
      }
      var q := base / PAGE_SIZE;
      if bft[q].typ != L2Pt || base % PAGE_SIZE != 0 {
        return ERR_MMU_IS_NOT_L2_PT;
      }
      if bft[q].refcnt > 0 {
        return ERR_MMU_REFERENCE_L2;
      }
      ghost var words := mem[..];
      UncountL2Table(q * 1024);
      assert bft[..] == Shift(old(bft[..]), b => 0 - TableRefs(words, L2Pt, q * 1024, q * 1024 + 512, b));
      SetType(q, Data);
      assert bft[..] == Retype(Shift(old(bft[..]), b => 0 - TableRefs(words, L2Pt, q * 1024, q * 1024 + 512, b)), q,
        1, Data);
      err := SUCCESS_MMU;
    }

    // ---------- single descriptors ----------

    method DmmuMapL1Section(va: Word, pa: Word, attrs: Word) returns (err: int)
      requires Valid()
      modifies mem, bft
      ensures (err, Abs()) == MapL1Section(cfg, old(Abs()), va, pa, attrs)
    {
      hide RefOf, L1SecCheck, CreateSecDesc, Moved;
      if Typ(cfg.master[va / SECTION_SIZE]) != 0 {
        return ERR_MMU_RESERVED_VA;
      }
      if !RangeOk(cfg, pa, SECTION_SIZE) {
        return ERR_MMU_OUT_OF_RANGE_PA;
      }
      var a := L1Slot(State(mem[..], bft[..], ttbr), va);
      if Typ(mem[a]) != 0 {
        return ERR_MMU_SECTION_NOT_UNMAPPED;
      }
      var desc := CreateSecDesc(pa, attrs);
      err := L1SecChecker(desc, ttbr);
      if err != SUCCESS_MMU {
        return;
      }
      SecDescLayout(pa, attrs);
      MoveL1Ref(desc, 1);
      assert bft[..] == Shift(old(bft[..]), b => RefOf(L1Pt, desc, b));
      mem[a] := desc;
    }

    method DmmuMapL1Pt(va: Word, l2Base: Word, attrs: Word) returns (err: int)
      requires Valid()
      modifies mem, bft
      ensures (err, Abs()) == MapL1Pt(cfg, old(Abs()), va, l2Base, attrs)
    {
      hide CreatePtDesc, PtUpperHalf, RangeOk, Moved;
      if Typ(cfg.master[va / SECTION_SIZE]) != 0 {
        return ERR_MMU_RESERVED_VA;
      }
      if !RangeOk(cfg, l2Base, PAGE_SIZE) {
        return ERR_MMU_OUT_OF_RANGE_PA;
      }
      var blk := l2Base / PAGE_SIZE;
      if bft[blk].typ != L2Pt {
        return ERR_MMU_IS_NOT_L2_PT;
      }
      var a := L1Slot(State(mem[..], bft[..], ttbr), va);
      if Pxn(attrs) != 0 {
        return ERR_MMU_XN_BIT_IS_ON;
      }
      if Typ(mem[a]) != 0 {
        return ERR_MMU_PT_NOT_UNMAPPED;
      }
      if bft[blk].refcnt == MAX_30BIT {
        return ERR_MMU_REF_OVERFLOW;
      }
      NothingMoved(bft[..]);
      bft[blk] := Moved(bft[blk], 1);
      assert bft[..] == Shift(old(bft[..]), b => if b == blk then 1 else 0);
      var desc := CreatePtDesc(l2Base, attrs);
      if PtUpperHalf(desc) {
        return ERR_MMU_L2_BASE_OUT_OF_RANGE;
      }
      mem[a] := desc;
      err := SUCCESS_MMU;
    }

    method DmmuUnmapL1Entry(va: Word) returns (err: int)
      requires Valid()
      modifies mem, bft
      ensures (err, Abs()) == UnmapL1Entry(cfg, old(Abs()), va)
    {
      hide RefOf, Moved;
      if Typ(cfg.master[va / SECTION_SIZE]) != 0 {
        return ERR_MMU_RESERVED_VA;
      }
      var a := L1Slot(State(mem[..], bft[..], ttbr), va);
      var desc := mem[a];
      if Typ(desc) == 1 || (Typ(desc) == 2 && SecIndic(desc) == 0) {
        MoveL1Ref(desc, -1);
        assert bft[..] == Shift(old(bft[..]), b => 0 - RefOf(L1Pt, desc, b));
        mem[a] := UnmapDesc(desc);
        return SUCCESS_MMU;
      }
      err := ERR_MMU_ENTRY_UNMAPPED;
    }

    method DmmuMapL2Entry(l2Base: Word, idx: Word, pa: Word, attrs: Word) returns (err: int)
      requires Valid()
      modifies mem, bft
      ensures (err, Abs()) == MapL2Entry(cfg, old(Abs()), l2Base, idx, pa, attrs)
    {
      hide CreateSmallDesc, L2SmallCheck, L2Slot, RangeOk, Moved;
      if !RangeOk(cfg, l2Base, PAGE_SIZE) || !RangeOk(cfg, pa, PAGE_SIZE) {
        return ERR_MMU_OUT_OF_RANGE_PA;
      }
      if bft[l2Base / PAGE_SIZE].typ != L2Pt {
        return ERR_MMU_IS_NOT_L2_PT;
      }
      var a := L2Slot(l2Base, idx);
      if Typ(mem[a]) != 0 {
        return ERR_MMU_PT_NOT_UNMAPPED;
      }
      var desc := CreateSmallDesc(pa, attrs);
      err := L2SmallCheck(cfg, bft[..], desc, l2Base);
      if err != SUCCESS_MMU {
        return;
      }
      SmallDescFields(pa, attrs);
      NothingMoved(bft[..]);
      if SmallAp(desc) == 3 {
        bft[pa / PAGE_SIZE] := Moved(bft[pa / PAGE_SIZE], 1);
      }
      assert bft[..] == Shift(old(bft[..]), b => RefOf(L2Pt, desc, b));
      mem[a] := desc;
    }

    method DmmuUnmapL2Entry(l2Base: Word, idx: Word) returns (err: int)
      requires Valid()
      modifies mem, bft
      ensures (err, Abs()) == UnmapL2Entry(cfg, old(Abs()), l2Base, idx)
    {
      hide RefOf, L2Slot, RangeOk, Moved;
      if !RangeOk(cfg, l2Base, PAGE_SIZE) {
        return ERR_MMU_OUT_OF_RANGE_PA;
      }
      if bft[l2Base / PAGE_SIZE].typ != L2Pt {
        return ERR_MMU_IS_NOT_L2_PT;
      }
      var a := L2Slot(l2Base, idx);
      var desc := mem[a];
      if Typ(desc) != 2 && Typ(desc) != 3 {
        return SUCCESS_MMU;
      }
      MoveL2Ref(desc, -1);
      assert bft[..] == Shift(old(bft[..]), b => 0 - RefOf(L2Pt, desc, b));
      mem[a] := UnmapDesc(desc);
      err := SUCCESS_MMU;
    }

    method DmmuSwitchMm(base: Word) returns (err: int)
      requires Valid()
      modifies this
      ensures (err, Abs()) == SwitchMm(cfg, old(Abs()), base)
    {
      if !RangeOk(cfg, base, 4 * PAGE_SIZE) {
        return ERR_MMU_OUT_OF_RANGE_PA;
      }
      if base % 0x4000 != 0 {
        return ERR_MMU_L1_BASE_IS_NOT_16KB_ALIGNED;
      }
      if bft[base / PAGE_SIZE].typ != L1Pt {
        return ERR_MMU_IS_NOT_L1_PT;
      }
      ttbr := base;
      err := SUCCESS_MMU;
    }

    /** One hypercall: the state computed in place is the one that `Handle` gives, so the invariant is kept. */
    method DmmuHandler(p03: Word, p1: Word, p2: Word) returns (err: int)
      requires Valid()
      modifies this, mem, bft
      ensures (err, Abs()) == Handle(cfg, old(Abs()), p03, p1, p2)
    {
      hide MapL1Section, UnmapL1Entry, CreateL2, MapL1Pt, MapL2Entry, UnmapL2Entry, UnmapL2, CreateL1,
        SwitchMm, UnmapL1;
      var p3 := p03 / 16;
      match p03 % 16
      case 0 => err := DmmuMapL1Section(p1, p2, p3);
      case 1 => err := DmmuUnmapL1Entry(p1);
      case 2 => err := DmmuCreateL2(p1);
      case 3 => err := DmmuMapL1Pt(p1, p2, p3);
      case 4 => err := DmmuMapL2Entry(p1, p2 / 0x10_0000, p03 - p03 % 16, p2 % 0x1000);
      case 5 => err := DmmuUnmapL2Entry(p1, p2);
      case 6 => err := DmmuUnmapL2(p1);
      case 7 => err := DmmuCreateL1(p1);
      case 8 => err := DmmuSwitchMm(p1);
      case 9 => err := DmmuUnmapL1(p1);
      case _ => err := ERR_MMU_UNIMPLEMENTED;
    }

    /** A hypercall keeps the monitor safe exactly when it is harmless. */
    method Hypercall(p03: Word, p1: Word, p2: Word) returns (err: int)
      requires Valid() && Safe()
      modifies this, mem, bft
      ensures Valid() && (err, Abs()) == Handle(cfg, old(Abs()), p03, p1, p2)
      ensures Safe() <==> old(Harmless(cfg, Abs(), Command(p03, p1, p2)))
    {
      hide Handle, Inv, Harmless;
      HandleKeeps(cfg, Abs(), p03, p1, p2);
      err := DmmuHandler(p03, p1, p2);
    }
  }
}
