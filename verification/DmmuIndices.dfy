/**
  The second-level commands on every index that reaches them.  Only the lower
  half of an L2 page is validated, and `L2_IDX_TO_PA` joins page and index by a
  bitwise or, so an index of 512 or more names a word that may be plain data or
  even part of another table.
*/
module DmmuIndices {
  import opened Bits
  import opened DmmuState
  import opened DmmuCommands
  import opened DmmuCounting
  import opened DmmuInvariant
  import opened DmmuTables

  // ---------- the word that is named ----------

  lemma OrLowBits(n: nat, x: nat, y: nat)
    requires n >= 2 && x < Pow2(n) && y < 4
    ensures BitOr(n, x, y) / 4 == x / 4
  {
    var r := BitOr(n - 2, x / 4, 0);
    assert Pow2(n) == 4 * Pow2(n - 2);
    assert x / 2 / 2 == x / 4 && y / 2 / 2 == 0;
    assert r == x / 4;
    assert BitOr(n - 1, x / 2, y / 2) / 2 == r;
  }

  /** Twelve bits of index stay within the group of four pages. */
  lemma MapSlotGroup(l2Base: Word, idx: Word)
    requires idx < 4096
    ensures L2Slot(l2Base, idx) / 1024 / 4 == l2Base / PAGE_SIZE / 4
  {
    var k := U32(idx * 4) / PAGE_SIZE;
    assert Pow2(10) == 1024 && Pow2(20) == BLOCKS;
    OrLowBits(20, l2Base / PAGE_SIZE, k);
  }

  /** Such an index never names a word of an L1. */
  lemma MapSlotKind(s: State, l2Base: Word, idx: Word)
    requires Grouped(s.bft) && s.bft[l2Base / PAGE_SIZE].typ == L2Pt && idx < 4096
    ensures Kind(s, L2Slot(l2Base, idx)) == L2Pt || Kind(s, L2Slot(l2Base, idx)) == Data
  {
    hide L2Slot;
    var p, q := L2Slot(l2Base, idx) / 1024, l2Base / PAGE_SIZE;
    MapSlotGroup(l2Base, idx);
    assert p - p % 4 == q - q % 4;
    assert s.bft[p].typ == L1Pt <==> s.bft[q - q % 4].typ == L1Pt;
    assert s.bft[q].typ == L1Pt <==> s.bft[q - q % 4].typ == L1Pt;
  }

  // ---------- mapping ----------

  /** What `dmmu_l2_map_entry` adds to the count of `b` beyond the references. */
  function MapExcess(cfg: Config, s: State, l2Base: Word, idx: Word, pa: Word, attrs: Word, b: int): int
  {
    if MapL2Entry(cfg, s, l2Base, idx, pa, attrs).0 == SUCCESS_MMU && Kind(s, L2Slot(l2Base, idx)) != L2Pt
      && SmallAp(attrs) == 3 && b == pa / PAGE_SIZE
    then 1 else 0
  }

  /** A mapping outside every table is counted although no table holds it. */
  lemma MapInDataKeeps(cfg: Config, s: State, l2Base: Word, idx: Word, pa: Word, attrs: Word)
    requires Inv(cfg, s) && Kind(s, L2Slot(l2Base, idx)) == Data
    ensures Inv(cfg, MapL2Entry(cfg, s, l2Base, idx, pa, attrs).1)
    ensures forall b :: 0 <= b < BLOCKS ==>
      Slack(MapL2Entry(cfg, s, l2Base, idx, pa, attrs).1, b)
        == Slack(s, b) + MapExcess(cfg, s, l2Base, idx, pa, attrs, b)
  {
    hide StaticOk, WordOk, RangeOk, L2Slot, Refs, MasterKept, Grouped, TablesOk, Slack, CreateSmallDesc, L2ApCheck;
    var (e, s') := MapL2Entry(cfg, s, l2Base, idx, pa, attrs);
    if e == SUCCESS_MMU {
      var a, w, blk := L2Slot(l2Base, idx), CreateSmallDesc(pa, attrs), pa / PAGE_SIZE;
      SmallDescFields(pa, attrs);
      var s1 := s.(mem := s'.mem);
      WriteData(cfg, s, s1);
      assert s'.bft[blk] == Moved(s.bft[blk], RefOf(L2Pt, w, blk));
      CountMoved(cfg, s1, blk, s');
      assert Slack(s1, blk) == Slack(s, blk);
      SlackBounds(cfg, s, blk);
    }
  }

  lemma SlackBounds(cfg: Config, s: State, b: nat)
    requires TablesOk(cfg, s) && b < BLOCKS
    ensures 0 <= Slack(s, b) <= s.bft[b].refcnt
  {
  }

  /** Every index that `dmmu_handler` passes on is safe to map, and one below 512 is counted exactly. */
  lemma MapL2EntryKeeps(cfg: Config, s: State, l2Base: Word, idx: Word, pa: Word, attrs: Word)
    requires Inv(cfg, s) && idx < 4096
    ensures Inv(cfg, MapL2Entry(cfg, s, l2Base, idx, pa, attrs).1)
    ensures forall b :: 0 <= b < BLOCKS ==>
      Slack(MapL2Entry(cfg, s, l2Base, idx, pa, attrs).1, b)
        == Slack(s, b) + MapExcess(cfg, s, l2Base, idx, pa, attrs, b)
    ensures idx < 512 ==> forall b :: MapExcess(cfg, s, l2Base, idx, pa, attrs, b) == 0
  {
    hide Slack, L2Slot, Kind, CreateSmallDesc, L2SmallCheck, RangeOk, WordOk, MasterKept;
    if s.bft[l2Base / PAGE_SIZE].typ == L2Pt {
      MapSlotKind(s, l2Base, idx);
      if idx < 512 {
        L2SlotFacts(s, l2Base, idx);
      }
      if Kind(s, L2Slot(l2Base, idx)) == L2Pt {
        MapInTableKeeps(cfg, s, l2Base, idx, pa, attrs);
      } else {
        MapInDataKeeps(cfg, s, l2Base, idx, pa, attrs);
      }
    }
  }

  // ---------- unmapping ----------

  /** The count of the page that `w` names can do without the reference that unmapping takes off. */
  ghost predicate Lowerable(s: State, w: Word)
  {
    SmallAp(w) != 3 || s.bft[SmallBlock(w)].refcnt == 0 || Slack(s, SmallBlock(w)) > 0
  }

  /**
    When word `a` may be unmapped as a small page: always if it is translated
    as one; outside the tables if its page's count has room; in an L1 if it is
    not reserved, and its page's count has room or the word is a writable
    section, which itself counted for that page.
  */
  ghost predicate UnmapSafe(cfg: Config, s: State, a: nat)
    requires a < MEM_WORDS
  {
    var w := s.mem[a];
    Typ(w) < 2 ||
    match Kind(s, a)
    case L2Pt => true
    case L1Pt => !Reserved(cfg, a % 4096) && (SecAp(w) == 3 || Lowerable(s, w))
    case _ => Lowerable(s, w)
  }

  ghost predicate UnmapOk(cfg: Config, s: State, l2Base: Word, idx: Word)
  {
    !RangeOk(cfg, l2Base, PAGE_SIZE) || s.bft[l2Base / PAGE_SIZE].typ != L2Pt || UnmapSafe(cfg, s, L2Slot(l2Base, idx))
  }

  /** What taking `w` off the counts does to the count of `b`, which wraps at zero. */
  function Lowered(s: State, w: Word, b: int): int
    requires 0 <= b < BLOCKS
  {
    if RefOf(L2Pt, w, b) == 0 then 0 else if s.bft[b].refcnt == 0 then MAX_30BIT else -1
  }

  /** What unmapping word `a` adds to the count of `b` beyond the references. */
  function WordExcess(s: State, a: nat, b: int): int
    requires a < MEM_WORDS && 0 <= b < BLOCKS
  {
    var w := s.mem[a];
    if Typ(w) < 2 || Kind(s, a) == L2Pt then 0
    else Lowered(s, w, b) + RefOf(Kind(s, a), w, b)
  }

  function UnmapExcess(cfg: Config, s: State, l2Base: Word, idx: Word, b: int): int
    requires 0 <= b < BLOCKS
  {
    if !RangeOk(cfg, l2Base, PAGE_SIZE) || s.bft[l2Base / PAGE_SIZE].typ != L2Pt then 0
    else WordExcess(s, L2Slot(l2Base, idx), b)
  }

  /** Word `a` is cleared and the counts move as if it had been a small page. */
  ghost predicate ClearedAsSmall(s: State, a: nat, s': State)
    requires a < MEM_WORDS
  {
    && s'.mem == s.mem[a := UnmapDesc(s.mem[a])] && s'.ttbr == s.ttbr
    && forall b :: 0 <= b < BLOCKS ==> s'.bft[b] == Moved(s.bft[b], 0 - RefOf(L2Pt, s.mem[a], b))
  }

  /** The state in which the word is cleared and the counts are exact. */
  lemma ClearedExactly(cfg: Config, s: State, a: nat) returns (s1: State)
    requires TablesOk(cfg, s) && a < MEM_WORDS && Kind(s, a) != L2Pt
    requires Kind(s, a) == L1Pt ==> !Reserved(cfg, a % 4096)
    ensures TablesOk(cfg, s1) && SlackKept(s, s1)
    ensures s1.mem == s.mem[a := UnmapDesc(s.mem[a])] && s1.ttbr == s.ttbr
    ensures forall b :: 0 <= b < BLOCKS ==> s1.bft[b] == Moved(s.bft[b], 0 - RefAt(s, a, b))
  {
    hide StaticOk, RefOf, WordOk, Slack, MasterKept, Grouped, Kind, TablesOk;
    var w, t := UnmapDesc(s.mem[a]), Kind(s, a);
    UnmappedHoldsNothing(cfg, t, w);
    s1 := State(s.mem[a := w], Shift(s.bft, b => 0 - RefOf(t, s.mem[a], b)), s.ttbr);
    assert Replaced(s, a, w, s1);
    L1IsKind(s, a);
    ReplaceWord(cfg, s, a, w, s1);
  }

  lemma L1IsKind(s: State, a: nat)
    requires a < MEM_WORDS
    ensures s.bft[a / 1024].typ == L1Pt <==> Kind(s, a) == L1Pt
  {
  }

  /** The counts after it exceed the references by `WordExcess` more than before. */
  lemma ClearedExcess(cfg: Config, s: State, a: nat, s': State)
    requires TablesOk(cfg, s) && a < MEM_WORDS && Kind(s, a) != L2Pt && Typ(s.mem[a]) >= 2
    requires Kind(s, a) == L1Pt ==> !Reserved(cfg, a % 4096)
    requires ClearedAsSmall(s, a, s')
    ensures forall b :: 0 <= b < BLOCKS ==> Slack(s', b) == Slack(s, b) + WordExcess(s, a, b)
    ensures TablesOk(cfg, s') <==> forall b :: 0 <= b < BLOCKS ==> Slack(s', b) >= 0
  {
    hide StaticOk, RefOf, WordOk, Slack, MasterKept, Grouped, Kind, TablesOk, Refs;
    var s1 := ClearedExactly(cfg, s, a);
    CountsMoved(cfg, s1, s');
    forall b | 0 <= b < BLOCKS
      ensures Slack(s', b) == Slack(s, b) + WordExcess(s, a, b)
    {
      CountCovers(cfg, s, a, b);
      assert Slack(s1, b) == Slack(s, b);
    }
  }

  lemma CountCovers(cfg: Config, s: State, a: nat, b: nat)
    requires TablesOk(cfg, s) && a < MEM_WORDS && b < BLOCKS
    ensures RefAt(s, a, b) <= s.bft[b].refcnt
  {
    hide Refs;
    RefsWord(s, a, b);
    assert Slack(s, b) >= 0;
  }

  /** A section's word, read as a small page, names a page of that section. */
  lemma SectionPage(w: Word)
    ensures SmallBlock(w) / 256 == SecAddr(w)
  {
    DivDiv(w, 0x1000, 256);
  }

  /** Of the excesses only that of the named page can become negative. */
  lemma ExcessSign(cfg: Config, s: State, a: nat)
    requires TablesOk(cfg, s) && a < MEM_WORDS && Kind(s, a) != L2Pt && Typ(s.mem[a]) >= 2
    requires Kind(s, a) == L1Pt ==> !Reserved(cfg, a % 4096)
    ensures UnmapSafe(cfg, s, a) <==> forall b :: 0 <= b < BLOCKS ==> Slack(s, b) + WordExcess(s, a, b) >= 0
  {
    hide Slack, WordOk, MasterKept, Kind;
    var w := s.mem[a];
    var p := SmallBlock(w);
    SectionPage(w);
    CountCovers(cfg, s, a, p);
    assert WordOk(cfg, s, a);
    assert StaticOk(cfg, Kind(s, a), w) by { SoundWord(cfg, s, a); }
    KindBound(cfg, s, a);
    assert Slack(s, p) >= 0;
    forall b | 0 <= b < BLOCKS && b != p
      ensures Slack(s, b) + WordExcess(s, a, b) >= 0
    {
      assert Slack(s, b) >= 0;
    }
  }

  lemma SoundWord(cfg: Config, s: State, a: nat)
    requires TablesOk(cfg, s) && a < MEM_WORDS
    ensures StaticOk(cfg, Kind(s, a), s.mem[a])
  {
    assert WordOk(cfg, s, a);
  }

  lemma KindBound(cfg: Config, s: State, a: nat)
    requires TablesOk(cfg, s) && a < MEM_WORDS
    ensures Kind(s, a) != Invalid
  {
  }

  /** Clearing a reserved word of an L1 breaks its agreement with the master table. */
  lemma ReservedCleared(cfg: Config, s: State, a: nat, s': State)
    requires TablesOk(cfg, s) && a < MEM_WORDS && Kind(s, a) == L1Pt && Typ(s.mem[a]) >= 2
    requires Reserved(cfg, a % 4096) && ClearedAsSmall(s, a, s')
    ensures !TablesOk(cfg, s')
  {
    hide WordOk, Slack, RefOf;
    assert s'.bft[a / 1024].typ == L1Pt && s'.mem[a] != s.mem[a];
  }

  /** For every index: unmapping keeps the invariant exactly when the word named is safe to unmap. */
  lemma UnmapL2EntryKeeps(cfg: Config, s: State, l2Base: Word, idx: Word)
    requires Inv(cfg, s)
    ensures Inv(cfg, UnmapL2Entry(cfg, s, l2Base, idx).1) <==> UnmapOk(cfg, s, l2Base, idx)
    ensures UnmapOk(cfg, s, l2Base, idx) ==> forall b :: 0 <= b < BLOCKS ==>
      Slack(UnmapL2Entry(cfg, s, l2Base, idx).1, b) == Slack(s, b) + UnmapExcess(cfg, s, l2Base, idx, b)
  {
    hide Slack, L2Slot, Kind, RangeOk, TablesOk, WordExcess, RefOf, Lowerable, Reserved;
    var s' := UnmapL2Entry(cfg, s, l2Base, idx).1;
    var a := L2Slot(l2Base, idx);
    if s' == s {
      UnmapNothing(cfg, s, l2Base, idx);
    } else if Kind(s, a) == L2Pt {
      UnmapInTableKeeps(cfg, s, l2Base, idx);
      ExcessInTable(s, a);
    } else {
      assert ClearedAsSmall(s, a, s');
      SameTypesActive(s, s');
      if Kind(s, a) == L1Pt && Reserved(cfg, a % 4096) {
        ReservedCleared(cfg, s, a, s');
      } else {
        ClearedExcess(cfg, s, a, s');
        ExcessSign(cfg, s, a);
      }
    }
  }

  lemma UnmapNothing(cfg: Config, s: State, l2Base: Word, idx: Word)
    requires UnmapL2Entry(cfg, s, l2Base, idx).1 == s
    ensures UnmapOk(cfg, s, l2Base, idx)
    ensures forall b :: 0 <= b < BLOCKS ==> UnmapExcess(cfg, s, l2Base, idx, b) == 0
  {
    hide L2Slot, Kind, RangeOk;
    var a := L2Slot(l2Base, idx);
    assert Typ(s.mem[a]) >= 2 ==> UnmapDesc(s.mem[a]) != s.mem[a];
  }

  lemma ExcessInTable(s: State, a: nat)
    requires a < MEM_WORDS && Kind(s, a) == L2Pt
    ensures forall b :: 0 <= b < BLOCKS ==> WordExcess(s, a, b) == 0
  {
  }

  /** An index in the validated half page is always safe, and counted exactly. */
  lemma LowerHalfUnmap(cfg: Config, s: State, l2Base: Word, idx: Word)
    requires idx < 512
    ensures UnmapOk(cfg, s, l2Base, idx)
    ensures forall b :: 0 <= b < BLOCKS ==> UnmapExcess(cfg, s, l2Base, idx, b) == 0
  {
    hide L2Slot, Kind, RangeOk;
    if s.bft[l2Base / PAGE_SIZE].typ == L2Pt {
      L2SlotFacts(s, l2Base, idx);
      ExcessInTable(s, L2Slot(l2Base, idx));
    }
  }
}
