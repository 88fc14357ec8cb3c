/**
  What the descriptor checks accept: exactly the sound descriptors whose targets
  have the right type and room in their counts; and what their errors mean.
*/
module DmmuChecks {
  import opened Bits
  import opened DmmuState
  import opened DmmuCommands
  import opened DmmuInvariant

  lemma {:induction false} SecScanExact(bft: Bft, first: int, n: nat, l1Base: Word, err: int)
    requires 0 <= first && first + n <= BLOCKS
    ensures SecScan(bft, first, n, l1Base, err) == SUCCESS_MMU <==>
      err == SUCCESS_MMU && forall b :: first <= b < first + n ==> SecBlockError(bft, b, l1Base) == SUCCESS_MMU
    decreases n
  {
    if n == 0 {
    } else {
      SecScanExact(bft, first, n - 1, l1Base, err);
    }
  }

  /**
    The blocks of a writable section: data, not of the L1 at `l1Base`, and with
    room for a whole table of references.
  */
  ghost predicate WritableSection(bft: Bft, sec: int, l1Base: Word)
  {
    forall b :: 0 <= b < BLOCKS && b / 256 == sec ==>
      bft[b].typ == Data && bft[b].refcnt < MAX_30BIT - 4096 && b / 4 * 0x4000 != l1Base
  }

  lemma L1SecCheckExact(cfg: Config, bft: Bft, w: Word, l1Base: Word)
    ensures L1SecCheck(cfg, bft, w, l1Base) == SUCCESS_MMU <==>
      && SecIndic(w) == 0 && 1 <= SecAp(w) <= 3
      && (IntersectsCached(cfg, SecAddr(w) * SECTION_SIZE, SECTION_SIZE) ==> SecC(w) == 1)
      && (SecAp(w) == 3 ==>
        && WritableSection(bft, SecAddr(w), l1Base)
        && (DomainGranted(cfg, Domain(w)) ==> RangeOk(cfg, SecAddr(w) * SECTION_SIZE, SECTION_SIZE)))
  {
    hide IntersectsCached, RangeOk, DomainGranted, SecAp, SecC, SecIndic, SecAddr, Domain, SecScan;
    SecAddrBound(w);
    var first := SecAddr(w) * 256;
    SecScanExact(bft, first, 256, l1Base, SecRangeError(cfg, w));
    BlocksOf(bft, SecAddr(w), l1Base);
  }

  lemma SecAddrBound(w: Word)
    ensures 0 <= SecAddr(w) < 4096
    ensures SecIndic(w) == 0 || SecIndic(w) == 1
    ensures 0 <= SecAp(w) < 8
  {
  }

  lemma BlocksOf(bft: Bft, sec: int, l1Base: Word)
    requires 0 <= sec < 4096
    ensures WritableSection(bft, sec, l1Base) <==>
      forall b :: sec * 256 <= b < sec * 256 + 256 ==> SecBlockError(bft, b, l1Base) == SUCCESS_MMU
  {
    assert forall b :: b / 256 == sec <==> sec * 256 <= b < sec * 256 + 256;
    assert forall b :: 0 <= b < BLOCKS ==>
      (SecBlockError(bft, b, l1Base) == SUCCESS_MMU <==>
        bft[b].typ == Data && bft[b].refcnt < MAX_30BIT - 4096 && b / 4 * 0x4000 != l1Base);
  }

  /** The first-level check accepts exactly the sound descriptors. */
  lemma L1CheckExact(cfg: Config, bft: Bft, w: Word, base: Word)
    ensures L1Check(cfg, bft, w, base) == SUCCESS_MMU <==>
      && StaticOk(cfg, L1Pt, w) && TargetsOk(bft, L1Pt, w)
      && forall b :: 0 <= b < BLOCKS && RefOf(L1Pt, w, b) == 1 ==>
        bft[b].refcnt < MAX_30BIT - 4096 && (Target(L1Pt, w) == Data ==> b / 4 * 0x4000 != base)
  {
    hide IntersectsCached, RangeOk, DomainGranted, SecAp, SecC, SecIndic, SecAddr, Domain, L1SecCheck, PtUpperHalf, Pxn;
    SecAddrBound(w);
    L1SecCheckExact(cfg, bft, w, base);
    if Typ(w) == 1 {
      PointedTo(w);
    } else if Typ(w) == 2 && SecAp(w) == 3 {
      assert forall b :: 0 <= b < BLOCKS ==> (RefOf(L1Pt, w, b) == 1 <==> b / 256 == SecAddr(w));
    } else {
      assert forall b :: RefOf(L1Pt, w, b) == 0;
    }
  }

  lemma PointedTo(w: Word)
    requires Typ(w) == 1
    ensures 0 <= PtBlock(w) < BLOCKS && forall b :: RefOf(L1Pt, w, b) == 1 <==> b == PtBlock(w)
    ensures Pxn(w) == 0 || Pxn(w) == 1
  {
  }

  /** So does the second-level check; it asks for room in the count even for a page that is not writable. */
  lemma L2CheckExact(cfg: Config, bft: Bft, w: Word, base: Word)
    ensures L2Check(cfg, bft, w, base) == SUCCESS_MMU <==>
      && StaticOk(cfg, L2Pt, w) && TargetsOk(bft, L2Pt, w)
      && (Typ(w) >= 2 ==> bft[SmallBlock(w)].refcnt < MAX_30BIT - 1024)
      && (Typ(w) >= 2 && SmallAp(w) == 3 ==> SmallBlock(w) != base / PAGE_SIZE)
  {
    hide IntersectsCached, RangeOk, SmallC, SmallAp;
    SmallApBound(w);
    if Typ(w) >= 2 && SmallAp(w) == 3 {
      assert forall b :: RefOf(L2Pt, w, b) == 1 <==> b == SmallBlock(w);
    } else {
      assert forall b :: RefOf(L2Pt, w, b) == 0;
    }
  }

  lemma SmallApBound(w: Word)
    ensures 0 <= SmallAp(w) < 8 && 0 <= Typ(w) < 4
  {
  }

  lemma {:induction false} FirstErrorExact(cfg: Config, mem: Memory, bft: Bft, t: PageType, off: nat, n: nat,
      base: Word)
    requires off + n <= MEM_WORDS
    ensures FirstError(cfg, mem, bft, t, off, n, base) == SUCCESS_MMU <==> forall a :: off <= a < off + n ==>
      (if t == L1Pt then L1Check(cfg, bft, mem[a], base) else L2Check(cfg, bft, mem[a], base)) == SUCCESS_MMU
    decreases n
  {
    hide L1Check, L2Check;
    if n == 0 {
    } else {
      FirstErrorExact(cfg, mem, bft, t, off, n - 1, base);
    }
  }

  /** An error of the first-level check names a requirement that the descriptor misses. */
  lemma L1CheckErrors(cfg: Config, bft: Bft, w: Word, base: Word)
    ensures var e := L1Check(cfg, bft, w, base);
      || e == SUCCESS_MMU
      || (e == ERR_MMU_SUPERSECTION && (Typ(w) == 3 || (Typ(w) == 2 && SecIndic(w) == 1)))
      || (Typ(w) == 1 && e == ERR_MMU_L2_BASE_OUT_OF_RANGE && PtUpperHalf(w))
      || (Typ(w) == 1 && e == ERR_MMU_IS_NOT_L2_PT && bft[PtBlock(w)].typ != L2Pt)
      || (Typ(w) == 1 && e == ERR_MMU_REF_OVERFLOW && bft[PtBlock(w)].refcnt >= MAX_30BIT - 4096)
      || (Typ(w) == 1 && e == ERR_MMU_AP_UNSUPPORTED && Pxn(w) == 1)
      || (Typ(w) == 2 && e == ERR_MMU_NOT_CACHEABLE && SecC(w) == 0
        && IntersectsCached(cfg, SecAddr(w) * SECTION_SIZE, SECTION_SIZE))
      || (Typ(w) == 2 && e == ERR_MMU_AP_UNSUPPORTED && (SecAp(w) == 0 || SecAp(w) > 3))
      || (Typ(w) == 2 && SecAp(w) == 3 && e == ERR_MMU_OUT_OF_RANGE_PA && DomainGranted(cfg, Domain(w))
        && !RangeOk(cfg, SecAddr(w) * SECTION_SIZE, SECTION_SIZE))
      || (Typ(w) == 2 && SecAp(w) == 3 &&
        exists b :: 0 <= b < BLOCKS && b / 256 == SecAddr(w) && BlockFails(bft, b, base, e))
  {
    hide IntersectsCached, RangeOk, DomainGranted, SecAp, SecAddr, Domain, BlockFails, PtUpperHalf;
    SecAddrBound(w);
    if Typ(w) == 2 && SecAp(w) == 3 {
      ScanErrors(bft, SecAddr(w) * 256, 256, base, SecRangeError(cfg, w));
      assert forall b :: SecAddr(w) * 256 <= b < SecAddr(w) * 256 + 256 ==> b / 256 == SecAddr(w);
    }
  }

  /** The reason why a block may not be part of a writable section. */
  predicate BlockFails(bft: Bft, b: int, base: Word, e: int)
    requires 0 <= b < BLOCKS
  {
    || (e == ERR_MMU_REF_OVERFLOW && bft[b].refcnt >= MAX_30BIT - 4096)
    || (e == ERR_MMU_NEW_L1_NOW_WRITABLE && b / 4 * 0x4000 == base)
    || (e == ERR_MMU_PH_BLOCK_NOT_WRITABLE && bft[b].typ != Data)
  }

  lemma {:induction false} ScanErrors(bft: Bft, first: int, n: nat, l1Base: Word, err: int)
    requires 0 <= first && first + n <= BLOCKS
    ensures var e := SecScan(bft, first, n, l1Base, err);
      e == err || exists b :: first <= b < first + n && BlockFails(bft, b, l1Base, e)
    decreases n
  {
    if n == 0 {
    } else if SecBlockError(bft, first + n - 1, l1Base) != SUCCESS_MMU {
      assert BlockFails(bft, first + n - 1, l1Base, SecBlockError(bft, first + n - 1, l1Base));
    } else {
      ScanErrors(bft, first, n - 1, l1Base, err);
    }
  }

  /** So does an error of the second-level check. */
  lemma L2CheckErrors(cfg: Config, bft: Bft, w: Word, base: Word)
    ensures var e, page := L2Check(cfg, bft, w, base), SmallBlock(w);
      || e == SUCCESS_MMU
      || (e == ERR_MMU_L2_UNSUPPORTED_DESC_TYPE && Typ(w) == 1)
      || (Typ(w) >= 2 && e == ERR_MMU_REF_OVERFLOW && bft[page].refcnt >= MAX_30BIT - 1024)
      || (Typ(w) >= 2 && e == ERR_MMU_NOT_CACHEABLE && SmallC(w) == 0
        && IntersectsCached(cfg, page * PAGE_SIZE, PAGE_SIZE))
      || (Typ(w) >= 2 && e == ERR_MMU_AP_UNSUPPORTED && (SmallAp(w) == 0 || SmallAp(w) > 3))
      || (Typ(w) >= 2 && SmallAp(w) == 3 && e == ERR_MMU_NEW_L2_NOW_WRITABLE && page == base / PAGE_SIZE)
      || (Typ(w) >= 2 && SmallAp(w) == 3 && e == ERR_MMU_PH_BLOCK_NOT_WRITABLE && bft[page].typ != Data)
      || (Typ(w) >= 2 && SmallAp(w) == 3 && e == ERR_MMU_OUT_OF_RANGE_PA && !RangeOk(cfg, page * PAGE_SIZE, PAGE_SIZE))
  {
    hide IntersectsCached, RangeOk, SmallAp;
    SmallApBound(w);
  }

  /** The error of a table is that of its first word that fails. */
  lemma {:induction false} FirstErrorIs(cfg: Config, mem: Memory, bft: Bft, t: PageType, off: nat, n: nat, base: Word)
    returns (a: nat)
    requires off + n <= MEM_WORDS && FirstError(cfg, mem, bft, t, off, n, base) != SUCCESS_MMU
    ensures off <= a < off + n
    ensures FirstError(cfg, mem, bft, t, off, n, base)
      == if t == L1Pt then L1Check(cfg, bft, mem[a], base) else L2Check(cfg, bft, mem[a], base)
    ensures forall c :: off <= c < a ==>
      (if t == L1Pt then L1Check(cfg, bft, mem[c], base) else L2Check(cfg, bft, mem[c], base)) == SUCCESS_MMU
    decreases n
  {
    hide L1Check, L2Check;
    if FirstError(cfg, mem, bft, t, off, n - 1, base) != SUCCESS_MMU {
      a := FirstErrorIs(cfg, mem, bft, t, off, n - 1, base);
    } else {
      FirstErrorExact(cfg, mem, bft, t, off, n - 1, base);
      a := off + n - 1;
    }
  }

  // ---------- ranges and domains ----------

  /** The two-bit field of a domain. */
  lemma {:induction false} AcFieldIs(ac: Word, d: nat)
    ensures Pow2(2 * d) > 0 && AcField(ac, d) == ac / Pow2(2 * d) % 4
    decreases d
  {
    if d == 0 {
    } else {
      AcFieldIs(ac / 4, d - 1);
      assert Pow2(2 * d) == 4 * Pow2(2 * (d - 1));
      DivDiv(ac, 4, Pow2(2 * (d - 1)));
    }
  }

  /** Without wrapping, inside the cached region means containment. */
  lemma InsideCachedIs(cfg: Config, pa: Word, size: Word)
    requires cfg.pstart + cfg.cachedOffset + cfg.cachedSize < WORD_LIMIT && pa + size < WORD_LIMIT
    ensures var first := cfg.pstart + cfg.cachedOffset;
      InsideCached(cfg, pa, size) <==> first <= pa && pa + size <= first + cfg.cachedSize
  {
  }

  /** Without wrapping, a range intersects the cached region when they overlap, or when it ends where that begins. */
  lemma IntersectsCachedIs(cfg: Config, pa: Word, size: Word)
    requires cfg.pstart + cfg.cachedOffset + cfg.cachedSize < WORD_LIMIT && pa + size < WORD_LIMIT
    requires cfg.cachedSize > 0 && size > 0
    ensures var first := cfg.pstart + cfg.cachedOffset;
      IntersectsCached(cfg, pa, size) <==> first <= pa + size && pa < first + cfg.cachedSize
  {
  }

  /** Bit `i` of a bitwise or. */
  lemma {:induction false} OrBits(n: nat, x: nat, y: nat, i: nat)
    requires i < n
    ensures Pow2(i) > 0
    ensures BitOr(n, x, y) / Pow2(i) % 2 == 1 <==> x / Pow2(i) % 2 == 1 || y / Pow2(i) % 2 == 1
    decreases i
  {
    if i == 0 {
    } else {
      OrBits(n - 1, x / 2, y / 2, i - 1);
      var p := Pow2(i - 1);
      DivDiv(BitOr(n, x, y), 2, p);
      DivDiv(x, 2, p);
      DivDiv(y, 2, p);
      assert BitOr(n, x, y) / 2 == BitOr(n - 1, x / 2, y / 2);
    }
  }
}
