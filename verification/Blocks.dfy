/** The blocks a walk reports, and exactly when they partition the virtual address space. */
module Blocks {
  import opened Words
  import opened PageTable

  /** The start of the naturally aligned block of size 2^shift around an address. */
  function BlockStart(va: Word, shift: nat): (start: Word)
    ensures start <= va < start + Pow2(shift)
  {
    LowBitsValue(va, shift);
    va - LowBits(va, shift)
  }

  predicate SameBlock(x: Word, y: Word, shift: nat) {
    Shr(x, shift) == Shr(y, shift)
  }

  lemma BlockStartMultiple(va: Word, shift: nat)
    ensures BlockStart(va, shift) == Pow2(shift) * Shr(va, shift)
  {
    HighLow(va, shift);
  }

  lemma BlockStartAligned(va: Word, shift: nat)
    ensures LowBits(BlockStart(va, shift), shift) == 0
  {
    hide Pow2, Shr, LowBits, BlockStart;
    BlockStartMultiple(va, shift);
    LowBitsValue(BlockStart(va, shift), shift);
    DivModUnique(BlockStart(va, shift), Pow2(shift), Shr(va, shift), 0);
  }

  lemma SameBlockIffWithin(x: Word, y: Word, shift: nat)
    ensures SameBlock(x, y, shift) <==> BlockStart(x, shift) <= y < BlockStart(x, shift) + Pow2(shift)
    ensures SameBlock(x, y, shift) ==> BlockStart(x, shift) == BlockStart(y, shift)
  {
    BlockStartMultiple(x, shift);
    BlockStartMultiple(y, shift);
    ShrValue(x, shift);
    ShrValue(y, shift);
    hide Shr, Pow2, BlockStart;
    if BlockStart(x, shift) <= y < BlockStart(x, shift) + Pow2(shift) {
      DivModUnique(y, Pow2(shift), Shr(x, shift), y - BlockStart(x, shift));
    }
  }

  // -------------------------------------------------------------------- slots

  /** log2 of the aligned stretch of relative addresses over which a walk cannot change. */
  function SlotShift(cfg: TableConfig, d: Descent): nat
    requires d.words != []
  {
    var pte := GetPteFields(d.words[|d.words| - 1]);
    match d.stop
    case Fault => 12
    case AtDirectory(level) => if level == 0 then cfg.blockSize + 21 else 12
    case AtPage => if pte.valid && pte.translateFurther then 12 else cfg.blockSize + 12
  }

  function SlotOf(cfg: TableConfig, mem: Memory, x: Word): nat
    requires cfg.Wellformed()
  {
    SlotShift(cfg, DescendFrom(cfg, mem, x))
  }

  /** `y` lies in the table slot that the walk of `x` uses. */
  predicate SameSlot(cfg: TableConfig, mem: Memory, x: Word, y: Word)
    requires cfg.Wellformed()
  {
    SameBlock(Relative(cfg, x), Relative(cfg, y), SlotOf(cfg, mem, x))
  }

  // ---------------------------------------------------------------- premises

  /** The block reported for `x` is no larger than its slot, and the table starts on a boundary of
      blocks of that size. */
  predicate BlockFits(cfg: TableConfig, mem: Memory, x: Word)
    requires cfg.Wellformed()
  {
    var report := Walk(cfg, mem, x);
    report.Walked? ==> report.shift <= SlotOf(cfg, mem, x) && LowBits(cfg.startAddr, report.shift) == 0
  }

  /** Every block fits. */
  ghost predicate FittingTable(cfg: TableConfig, mem: Memory) {
    cfg.Wellformed() && forall x: Word :: BlockFits(cfg, mem, x)
  }

  /** If `y` is in the block reported for `x`, it is walked to the same entry and size. */
  predicate WalkedAlike(cfg: TableConfig, mem: Memory, x: Word, y: Word)
    requires cfg.Wellformed()
  {
    Walk(cfg, mem, x).Walked? && SameBlock(x, y, Walk(cfg, mem, x).shift) ==> Walk(cfg, mem, y) == Walk(cfg, mem, x)
  }

  /** The walk is constant over every block it reports. */
  ghost predicate UniformTable(cfg: TableConfig, mem: Memory) {
    cfg.Wellformed() && forall x: Word, y: Word :: WalkedAlike(cfg, mem, x, y)
  }

  /** The table starts on a boundary of the largest slot. */
  predicate StartAligned(cfg: TableConfig) {
    LowBits(cfg.startAddr, cfg.LargestSlot()) == 0
  }

  /** No page-table pointer asks for blocks larger than the slots of its table. */
  ghost predicate FragmentsFit(cfg: TableConfig, mem: Memory)
    requires cfg.Wellformed()
  {
    forall va: Word :: FragmentFits(cfg, DescendFrom(cfg, mem, va))
  }

  predicate FragmentFits(cfg: TableConfig, d: Descent) {
    d.stop == AtPage && |d.words| >= 2
    ==> GetPdeFields(d.words[|d.words| - 2]).blockFragmentSize <= cfg.blockSize
  }

  lemma FinishBounds(cfg: TableConfig, mem: Memory, rel: Word, d: Descent)
    requires cfg.Wellformed() && d.words != [] && (d.stop == AtPage ==> |d.words| >= 2)
    ensures Finish(cfg, mem, rel, d).Walked? ==> 12 <= Finish(cfg, mem, rel, d).shift <= 43
  {
    hide GetPdeFields, GetPteFields, FurtherLocation;
    if d.stop == AtPage {
      PdeFragmentRange(d.words[|d.words| - 2]);
    }
  }

  /** A report lies between 4 KiB and 8 TiB. */
  lemma ReportBounds(cfg: TableConfig, mem: Memory, va: Word)
    requires cfg.Wellformed() && Walk(cfg, mem, va).Walked?
    ensures 12 <= Walk(cfg, mem, va).shift <= 43
  {
    hide Finish, DescendFrom;
    FinishBounds(cfg, mem, Relative(cfg, va), DescendFrom(cfg, mem, va));
  }

  lemma SlotBounds(cfg: TableConfig, mem: Memory, x: Word)
    requires cfg.Wellformed()
    ensures 12 <= SlotOf(cfg, mem, x) <= cfg.LargestSlot() < 64
  {
    hide DescendFrom, GetPteFields;
  }

  // ------------------------------------------------------ relative addresses

  lemma {:induction false} AlignedToFiner(x: nat, k: nat, m: nat)
    requires k <= m && LowBits(x, m) == 0
    ensures LowBits(x, k) == 0
    decreases m
  {
    if k > 0 {
      AlignedToFiner(x / 2, k - 1, m - 1);
    }
  }

  /** Subtracting an aligned table start maps blocks to blocks, across the wrap at 2^64. */
  lemma RelativeKeepsBlocks(cfg: TableConfig, x: Word, y: Word, shift: nat)
    requires shift < 64 && LowBits(cfg.startAddr, shift) == 0
    requires SameBlock(x, y, shift)
    ensures SameBlock(Relative(cfg, x), Relative(cfg, y), shift)
  {
    FullTurns(shift);
    LowBitsValue(cfg.startAddr, shift);
    ShrValue(x, shift);
    ShrValue(y, shift);
    ShrValue(Relative(cfg, x), shift);
    ShrValue(Relative(cfg, y), shift);
    hide Pow2, Shr;
    ShiftKeepsQuotients(x, y, cfg.startAddr, Pow2(shift), Pow2(64 - shift));
  }

  lemma FullTurns(shift: nat)
    requires shift < 64
    ensures TWO64 == Pow2(shift) * Pow2(64 - shift)
  {
    Pow2Values();
    Pow2Add(shift, 64 - shift);
  }

  lemma ShiftKeepsQuotients(x: Word, y: Word, s: Word, p: nat, turns: nat)
    requires p > 0 && s % p == 0 && TWO64 == p * turns && x / p == y / p
    ensures Minus(x, s) / p == Minus(y, s) / p
  {
    DivMod(s, p);
    ShiftedQuotient(x, s, p, x / p, s / p, turns);
    ShiftedQuotient(y, s, p, y / p, s / p, turns);
  }

  lemma ShiftedQuotient(x: Word, s: Word, p: nat, q: nat, b: nat, turns: nat)
    requires p > 0 && s == p * b && TWO64 == p * turns && q == x / p
    ensures Minus(x, s) / p == if b <= q then q - b else q - b + turns
  {
    DivMod(x, p);
    OrderByQuotient(x, s, p, q, b);
    hide Minus;
    if b <= q {
      MinusFits(x, s);
      Factored(p, q, b, 0);
      DivModUnique(x - s, p, q - b, x % p);
    } else {
      MinusWraps(x, s);
      Factored(p, q, b, turns);
      DivModUnique(x - s + TWO64, p, q - b + turns, x % p);
    }
  }

  lemma OrderByQuotient(x: nat, s: nat, p: nat, q: nat, b: nat)
    requires p > 0 && s == p * b && q == x / p
    ensures b <= q <==> s <= x
  {
    DivMod(x, p);
    if b <= q {
      MulMono(b, q, p);
    } else {
      MulMono(q + 1, b, p);
    }
  }

  lemma Factored(p: int, q: int, b: int, turns: int)
    ensures p * q - p * b + p * turns == p * (q - b + turns)
  {}

  // ---------------------------------------------------------------- descents

  /** Addresses in one block of a level's slots select the same slot there. */
  lemma SameEntry(cfg: TableConfig, r: Word, r': Word, level: nat, pde: Pde, shift: nat)
    requires cfg.Wellformed() && level <= cfg.depth && shift <= ShiftAt(cfg, level)
    requires SameBlock(r, r', shift)
    ensures EntryLocation(cfg, r, level, pde) == EntryLocation(cfg, r', level, pde)
  {
    hide And, Pow2, Plus, Minus, Times;
    CoarserBlock(r, r', shift, ShiftAt(cfg, level));
  }

  /** If the descent of `r` needs no finer slots than 2^shift, its whole block descends alike. */
  lemma {:induction false} DescentConstant(
    cfg: TableConfig, mem: Memory, r: Word, r': Word, level: int, words: seq<Word>, shift: nat)
    requires cfg.Wellformed() && -1 <= level <= cfg.depth && |words| > 0
    requires SameBlock(r, r', shift) && shift <= cfg.blockSize + 21
    requires var stop := Descend(cfg, mem, r, level, words).stop;
             stop == AtDirectory(0) || shift <= cfg.blockSize + 12
    ensures Descend(cfg, mem, r, level, words) == Descend(cfg, mem, r', level, words)
    decreases level + 1
  {
    hide EntryLocation, GetPdeFields, Pow2;
    if level >= 0 {
      var pde := GetPdeFields(words[|words| - 1]);
      if !pde.pte {
        assert shift <= ShiftAt(cfg, level) by {
          if level == 0 {
            ZeroLevelStops(cfg, mem, r, words);
          }
        }
        SameEntry(cfg, r, r', level, pde, shift);
        var entry := mem.Read(EntryLocation(cfg, r, level, pde));
        if entry.Some? {
          DescentConstant(cfg, mem, r, r', level - 1, words + [entry.value], shift);
        }
      }
    }
  }

  /** Past a level-zero directory entry that is not a page entry, no directory can stop the walk. */
  lemma ZeroLevelStops(cfg: TableConfig, mem: Memory, r: Word, words: seq<Word>)
    requires cfg.Wellformed() && |words| > 0 && !GetPdeFields(words[|words| - 1]).pte
    ensures !Descend(cfg, mem, r, 0, words).stop.AtDirectory?
  {
    hide EntryLocation, GetPdeFields;
    var entry := mem.Read(EntryLocation(cfg, r, 0, GetPdeFields(words[|words| - 1])));
    if entry.Some? {
      assert Descend(cfg, mem, r, 0, words) == Descend(cfg, mem, r, -1, words + [entry.value]);
    }
  }

  lemma DescentFromConstant(cfg: TableConfig, mem: Memory, x: Word, y: Word)
    requires cfg.Wellformed() && SameSlot(cfg, mem, x, y)
    ensures DescendFrom(cfg, mem, x) == DescendFrom(cfg, mem, y)
  {
    hide Descend, GetPteFields, SameBlock, Relative;
    DescentConstant(cfg, mem, Relative(cfg, x), Relative(cfg, y), cfg.depth, [cfg.baseAddr], SlotOf(cfg, mem, x));
  }

  lemma SameFurtherLocation(r: Word, r': Word, raw: Word)
    requires SameBlock(r, r', 12)
    ensures FurtherLocation(r, raw) == FurtherLocation(r', raw)
  {
    hide And, Pow2, GetPdeFields, Plus, Times;
  }

  lemma FinishConstant(cfg: TableConfig, mem: Memory, r: Word, r': Word, d: Descent)
    requires d.words != [] && (d.stop == AtPage ==> |d.words| >= 2)
    requires SameBlock(r, r', SlotShift(cfg, d))
    ensures Finish(cfg, mem, r, d) == Finish(cfg, mem, r', d)
  {
    hide FurtherLocation, GetPteFields, GetPdeFields, Pow2, SameBlock;
    if SlotShift(cfg, d) == 12 {
      SameFurtherLocation(r, r', d.words[|d.words| - 1]);
    }
  }

  /** Without any premise, the walk is constant over the slot it uses. */
  lemma WalkConstantOnSlot(cfg: TableConfig, mem: Memory, x: Word, y: Word)
    requires cfg.Wellformed() && SameSlot(cfg, mem, x, y)
    ensures Walk(cfg, mem, y) == Walk(cfg, mem, x) && SlotOf(cfg, mem, y) == SlotOf(cfg, mem, x)
  {
    hide DescendFrom, SlotShift, Finish, SameBlock, Relative;
    DescentFromConstant(cfg, mem, x, y);
    FinishConstant(cfg, mem, Relative(cfg, x), Relative(cfg, y), DescendFrom(cfg, mem, x));
  }

  // --------------------------------------------------- blocks inside their slots

  /** A block that fits lies in one slot, so that all of it is walked alike. */
  lemma WalkConstantOnBlock(cfg: TableConfig, mem: Memory, x: Word, y: Word)
    requires cfg.Wellformed() && Walk(cfg, mem, x).Walked? && BlockFits(cfg, mem, x)
    requires SameBlock(x, y, Walk(cfg, mem, x).shift)
    ensures SameSlot(cfg, mem, x, y) && Walk(cfg, mem, y) == Walk(cfg, mem, x)
  {
    hide Walk, SlotOf, Relative, Shr;
    var shift := Walk(cfg, mem, x).shift;
    ReportBounds(cfg, mem, x);
    RelativeKeepsBlocks(cfg, x, y, shift);
    CoarserBlock(Relative(cfg, x), Relative(cfg, y), shift, SlotOf(cfg, mem, x));
    hide SameBlock;
    WalkConstantOnSlot(cfg, mem, x, y);
  }

  ghost predicate BlockInSlot(cfg: TableConfig, mem: Memory, x: Word)
    requires cfg.Wellformed()
  {
    Walk(cfg, mem, x).Walked? ==>
      forall y: Word | SameBlock(x, y, Walk(cfg, mem, x).shift) :: SameSlot(cfg, mem, x, y)
  }

  lemma CloseQuotients(a: int, b: int, p: int)
    requires p > 0 && a / p == b / p
    ensures -p < a - b < p
  {
    DivMod(a, p);
    DivMod(b, p);
  }

  /** An address one slot away in the same block is in another slot. */
  lemma LargeBlockLeavesSlot(cfg: TableConfig, mem: Memory, x: Word)
    requires cfg.Wellformed() && Walk(cfg, mem, x).Walked? && SlotOf(cfg, mem, x) < Walk(cfg, mem, x).shift
    ensures !BlockInSlot(cfg, mem, x)
  {
    hide Walk, Shr, Pow2, SlotOf, BlockStart;
    var shift, slot := Walk(cfg, mem, x).shift, SlotOf(cfg, mem, x);
    ReportBounds(cfg, mem, x);
    Pow2Mono(slot + 1, shift);
    TwoSlots(slot);
    var p := Pow2(slot);
    var start := BlockStart(x, shift);
    ShiftedOne(shift);
    BlockInWord(x, shift);
    var y: Word := if x + p < start + Pow2(shift) then x + p else x - p;
    SameBlockIffWithin(x, y, shift);
    RelativeDistance(cfg, x, y);
    ShrValue(Relative(cfg, x), slot);
    ShrValue(Relative(cfg, y), slot);
    if SameSlot(cfg, mem, x, y) {
      CloseQuotients(Relative(cfg, x), Relative(cfg, y), p);
    }
  }

  lemma TwoSlots(slot: nat)
    requires slot < 63
    ensures Pow2(slot + 1) == 2 * Pow2(slot) && 4 * Pow2(slot) <= TWO64
  {
    Pow2Values();
    Pow2Mono(slot + 1, 63);
  }

  lemma RelativeDistance(cfg: TableConfig, x: Word, y: Word)
    ensures var d := Relative(cfg, x) - Relative(cfg, y);
            d == x - y || d == x - y + TWO64 || d == x - y - TWO64
  {}

  /** A block is aligned, so that it ends at 2^64 at the latest. */
  lemma BlockInWord(x: Word, shift: nat)
    requires shift < 64
    ensures BlockStart(x, shift) + Pow2(shift) <= TWO64
  {
    hide BlockStart, Pow2, Shr;
    BlockStartMultiple(x, shift);
    FullTurns(shift);
    var p: int, q: int, turns: int := Pow2(shift), Shr(x, shift), Pow2(64 - shift);
    if q >= turns {
      MulMono(turns, q, p);
    } else {
      MulMono(q + 1, turns, p);
    }
  }

  /** The first address of the slot of `x`. */
  function SlotStart(cfg: TableConfig, mem: Memory, x: Word): Word
    requires cfg.Wellformed()
  {
    Plus(cfg.startAddr, BlockStart(Relative(cfg, x), SlotOf(cfg, mem, x)))
  }

  lemma PlusUndone(s: Word, r: Word)
    ensures Minus(Plus(s, r), s) == r
  {}

  lemma SlotStartInSlot(cfg: TableConfig, mem: Memory, x: Word)
    requires cfg.Wellformed()
    ensures Relative(cfg, SlotStart(cfg, mem, x)) == BlockStart(Relative(cfg, x), SlotOf(cfg, mem, x))
    ensures SameSlot(cfg, mem, x, SlotStart(cfg, mem, x))
  {
    hide SlotOf, BlockStart, Plus, Minus, SameBlock, Pow2;
    var r, slot := Relative(cfg, x), SlotOf(cfg, mem, x);
    PlusUndone(cfg.startAddr, BlockStart(r, slot));
    SameBlockIffWithin(r, BlockStart(r, slot), slot);
  }

  lemma SameRemainder(x: int, p: int, k: int)
    requires p > 0
    ensures (x + p * k) % p == x % p
  {
    DivMod(x, p);
    Factored(p, x / p, 0, k);
    DivModUnique(x + p * k, p, x / p + k, x % p);
  }

  lemma MultipleOfFiner(x: Word, fine: nat, coarse: nat) returns (k: int)
    requires fine <= coarse
    ensures Pow2(coarse) * Shr(x, coarse) == Pow2(fine) * k
  {
    Pow2Add(fine, coarse - fine);
    k := Pow2(coarse - fine) * Shr(x, coarse);
    Associate(Pow2(fine), Pow2(coarse - fine), Shr(x, coarse));
  }

  lemma Associate(a: int, b: int, c: int)
    ensures a * b * c == a * (b * c)
  {}

  /** The start of a slot lies where the table's start lies in blocks no larger than the slot. */
  lemma SlotStartRemainder(cfg: TableConfig, mem: Memory, x: Word, shift: nat)
    requires cfg.Wellformed() && shift <= SlotOf(cfg, mem, x) < 64
    ensures SlotStart(cfg, mem, x) % Pow2(shift) == cfg.startAddr % Pow2(shift)
  {
    hide SlotOf, BlockStart, Shr, Pow2, Plus;
    var r, slot, p := Relative(cfg, x), SlotOf(cfg, mem, x), Pow2(shift);
    BlockStartMultiple(r, slot);
    var k := MultipleOfFiner(r, shift, slot);
    FullTurns(shift);
    var turns: int := Pow2(64 - shift);
    SameRemainder(cfg.startAddr, p, k);
    SameRemainder(cfg.startAddr + p * k, p, -turns);
    PlusWraps(cfg.startAddr, BlockStart(r, slot));
    Factored(p, 0, turns, 0);
  }

  /** If the table does not start on a block boundary, the block at the start of a slot reaches back
      into the slot before. */
  lemma MisalignedBlockLeavesSlot(cfg: TableConfig, mem: Memory, x: Word)
    requires cfg.Wellformed() && Walk(cfg, mem, x).Walked? && Walk(cfg, mem, x).shift <= SlotOf(cfg, mem, x)
    requires LowBits(cfg.startAddr, Walk(cfg, mem, x).shift) != 0
    ensures !BlockInSlot(cfg, mem, SlotStart(cfg, mem, x))
  {
    hide Walk, Shr, Pow2, SlotOf, BlockStart, SlotStart, LowBits, SameSlot, Relative;
    var shift, slot, b := Walk(cfg, mem, x).shift, SlotOf(cfg, mem, x), SlotStart(cfg, mem, x);
    SlotBounds(cfg, mem, x);
    SlotStartInSlot(cfg, mem, x);
    WalkConstantOnSlot(cfg, mem, x, b);
    SlotStartRemainder(cfg, mem, x, shift);
    LowBitsValue(cfg.startAddr, shift);
    BlockStartAligned(Relative(cfg, x), slot);
    BeforeInBlock(b, shift);
    BeforeOutOfSlot(cfg, mem, b, BlockStart(Relative(cfg, x), slot), slot);
    assert SameBlock(b, b - 1, shift) && !SameSlot(cfg, mem, b, b - 1);
  }

  lemma BeforeInBlock(b: Word, shift: nat)
    requires b % Pow2(shift) != 0
    ensures b > 0 && SameBlock(b, b - 1, shift)
  {
    hide Pow2, Shr;
    var p := Pow2(shift);
    DivMod(b, p);
    if b == 0 {
      DivModUnique(0, p, 0, 0);
    } else {
      ShrValue(b, shift);
      ShrValue(b - 1, shift);
      DivModUnique(b - 1, p, b / p, b % p - 1);
    }
  }

  lemma BeforeOutOfSlot(cfg: TableConfig, mem: Memory, b: Word, r: Word, slot: nat)
    requires cfg.Wellformed() && b > 0 && slot == SlotOf(cfg, mem, b) < 63
    requires Relative(cfg, b) == r && LowBits(r, slot) == 0
    ensures !SameSlot(cfg, mem, b, b - 1)
  {
    hide SlotOf, Shr, Pow2, LowBits;
    RelativeDistance(cfg, b, b - 1);
    TwoSlots(slot);
    var r' := Relative(cfg, b - 1);
    hide Relative;
    ShrValue(r, slot);
    ShrValue(r', slot);
    LowBitsValue(r, slot);
    if r / Pow2(slot) == r' / Pow2(slot) {
      DivMod(r, Pow2(slot));
      DivMod(r', Pow2(slot));
      CloseQuotients(r, r', Pow2(slot));
    }
  }

  /** Every reported block lies inside one slot exactly when every one fits: it is no larger than
      its slot, and the table starts on a boundary of blocks of its size. */
  lemma BlocksInSlotsIff(cfg: TableConfig, mem: Memory)
    requires cfg.Wellformed()
    ensures (forall x: Word :: BlockInSlot(cfg, mem, x)) <==> FittingTable(cfg, mem)
  {
    hide Walk, SlotOf, SlotStart, SameSlot, SameBlock, LowBits;
    if forall x: Word :: BlockFits(cfg, mem, x) {
      forall x: Word ensures BlockInSlot(cfg, mem, x) {
        if Walk(cfg, mem, x).Walked? {
          forall y: Word | SameBlock(x, y, Walk(cfg, mem, x).shift) ensures SameSlot(cfg, mem, x, y) {
            assert BlockFits(cfg, mem, x);
            WalkConstantOnBlock(cfg, mem, x, y);
          }
        }
      }
    }
    if forall x: Word :: BlockInSlot(cfg, mem, x) {
      hide BlockInSlot;
      forall x: Word ensures BlockFits(cfg, mem, x) {
        if Walk(cfg, mem, x).Walked? {
          assert BlockInSlot(cfg, mem, x) && BlockInSlot(cfg, mem, SlotStart(cfg, mem, x));
          if SlotOf(cfg, mem, x) < Walk(cfg, mem, x).shift {
            LargeBlockLeavesSlot(cfg, mem, x);
          } else if LowBits(cfg.startAddr, Walk(cfg, mem, x).shift) != 0 {
            MisalignedBlockLeavesSlot(cfg, mem, x);
          }
        }
      }
    }
  }

  /** An aligned table whose fragments fit reports only blocks that fit. */
  lemma AlignedTableFits(cfg: TableConfig, mem: Memory, x: Word)
    requires cfg.Wellformed() && StartAligned(cfg) && FragmentsFit(cfg, mem)
    ensures BlockFits(cfg, mem, x)
  {
    hide DescendFrom, GetPdeFields, GetPteFields, FurtherLocation, LowBits;
    assert FragmentFits(cfg, DescendFrom(cfg, mem, x));
    if Walk(cfg, mem, x).Walked? {
      AlignedToFiner(cfg.startAddr, Walk(cfg, mem, x).shift, cfg.LargestSlot());
    }
  }

  // ---------------------------------------------------------- uniform tables

  /** Where the block reported for `x` crosses into another slot at the neighbouring address `y`,
      that address is walked alike. */
  predicate CrossingAgrees(cfg: TableConfig, mem: Memory, x: Word, y: Word)
    requires cfg.Wellformed()
  {
    !SameSlot(cfg, mem, x, y) ==> WalkedAlike(cfg, mem, x, y)
  }

  /** Blocks that cross from one slot into the next find the same entry and size on both sides. */
  ghost predicate CrossingsAgree(cfg: TableConfig, mem: Memory)
    requires cfg.Wellformed()
  {
    forall x: Word, y: Word | x == y + 1 || y == x + 1 :: CrossingAgrees(cfg, mem, x, y)
  }

  lemma NeighbourWalkedAlike(cfg: TableConfig, mem: Memory, x: Word, y: Word)
    requires cfg.Wellformed() && CrossingAgrees(cfg, mem, x, y)
    ensures WalkedAlike(cfg, mem, x, y)
  {
    hide SameSlot, Walk;
    if SameSlot(cfg, mem, x, y) {
      WalkConstantOnSlot(cfg, mem, x, y);
    }
  }

  lemma {:induction false} UniformUpwards(cfg: TableConfig, mem: Memory, x: Word, y: Word)
    requires cfg.Wellformed() && CrossingsAgree(cfg, mem) && x <= y
    ensures WalkedAlike(cfg, mem, x, y)
    decreases y
  {
    hide Walk, CrossingAgrees, SameBlock;
    if x < y && Walk(cfg, mem, x).Walked? && SameBlock(x, y, Walk(cfg, mem, x).shift) {
      var shift := Walk(cfg, mem, x).shift;
      SameBlockIffWithin(x, y, shift);
      SameBlockIffWithin(x, y - 1, shift);
      SameBlockIffWithin(y - 1, y, shift);
      UniformUpwards(cfg, mem, x, y - 1);
      NeighbourWalkedAlike(cfg, mem, y - 1, y);
    }
  }

  lemma {:induction false} UniformDownwards(cfg: TableConfig, mem: Memory, x: Word, y: Word)
    requires cfg.Wellformed() && CrossingsAgree(cfg, mem) && y <= x
    ensures WalkedAlike(cfg, mem, x, y)
    decreases TWO64 - y
  {
    hide Walk, CrossingAgrees, SameBlock;
    if y < x && Walk(cfg, mem, x).Walked? && SameBlock(x, y, Walk(cfg, mem, x).shift) {
      var shift := Walk(cfg, mem, x).shift;
      SameBlockIffWithin(x, y, shift);
      SameBlockIffWithin(x, y + 1, shift);
      SameBlockIffWithin(y + 1, y, shift);
      UniformDownwards(cfg, mem, x, y + 1);
      NeighbourWalkedAlike(cfg, mem, y + 1, y);
    }
  }

  /** The walk is constant over every block it reports exactly when it agrees wherever a reported
      block crosses from one table slot into the next. */
  lemma UniformIff(cfg: TableConfig, mem: Memory)
    requires cfg.Wellformed()
    ensures UniformTable(cfg, mem) <==> CrossingsAgree(cfg, mem)
  {
    hide WalkedAlike, SameSlot;
    if CrossingsAgree(cfg, mem) {
      forall x: Word, y: Word ensures WalkedAlike(cfg, mem, x, y) {
        if x <= y {
          UniformUpwards(cfg, mem, x, y);
        } else {
          UniformDownwards(cfg, mem, x, y);
        }
      }
    }
  }

  /** A fitting table is uniform, since no block crosses into another slot. */
  lemma FittingTableIsUniform(cfg: TableConfig, mem: Memory)
    requires FittingTable(cfg, mem)
    ensures UniformTable(cfg, mem)
  {
    hide Walk, BlockFits, SameBlock;
    forall x: Word, y: Word ensures WalkedAlike(cfg, mem, x, y) {
      assert BlockFits(cfg, mem, x);
      if Walk(cfg, mem, x).Walked? && SameBlock(x, y, Walk(cfg, mem, x).shift) {
        WalkConstantOnBlock(cfg, mem, x, y);
      }
    }
  }

  /** So is an aligned table whose fragments fit. */
  lemma AlignedTableIsUniform(cfg: TableConfig, mem: Memory)
    requires cfg.Wellformed() && StartAligned(cfg) && FragmentsFit(cfg, mem)
    ensures FittingTable(cfg, mem) && UniformTable(cfg, mem)
  {
    hide BlockFits, StartAligned, FragmentsFit, UniformTable;
    forall x: Word ensures BlockFits(cfg, mem, x) {
      AlignedTableFits(cfg, mem, x);
    }
    FittingTableIsUniform(cfg, mem);
  }

  // ------------------------------------------------------------- main results

  lemma UniformBlock(cfg: TableConfig, mem: Memory, x: Word, y: Word)
    requires UniformTable(cfg, mem) && Walk(cfg, mem, x).Walked?
    requires SameBlock(x, y, Walk(cfg, mem, x).shift)
    ensures Walk(cfg, mem, y) == Walk(cfg, mem, x)
  {
    hide Walk, SameBlock;
    assert WalkedAlike(cfg, mem, x, y);
  }

  /** Two reported blocks are the same block or share no address. */
  lemma BlocksEqualOrDisjoint(cfg: TableConfig, mem: Memory, x: Word, y: Word, z: Word)
    requires UniformTable(cfg, mem) && Walk(cfg, mem, x).Walked? && Walk(cfg, mem, y).Walked?
    requires SameBlock(x, z, Walk(cfg, mem, x).shift) && SameBlock(y, z, Walk(cfg, mem, y).shift)
    ensures Walk(cfg, mem, x) == Walk(cfg, mem, y)
    ensures BlockStart(x, Walk(cfg, mem, x).shift) == BlockStart(y, Walk(cfg, mem, y).shift)
  {
    hide Walk, WalkedAlike;
    UniformBlock(cfg, mem, x, z);
    UniformBlock(cfg, mem, y, z);
    SameBlockIffWithin(x, y, Walk(cfg, mem, x).shift);
  }

  /** The address just after a reported block starts the next block. */
  lemma NextBlockStarts(cfg: TableConfig, mem: Memory, x: Word)
    requires UniformTable(cfg, mem) && Walk(cfg, mem, x).Walked?
    requires BlockStart(x, Walk(cfg, mem, x).shift) + Pow2(Walk(cfg, mem, x).shift) < TWO64
    ensures var next := BlockStart(x, Walk(cfg, mem, x).shift) + Pow2(Walk(cfg, mem, x).shift);
            Walk(cfg, mem, next).Walked? ==> BlockStart(next, Walk(cfg, mem, next).shift) == next
  {
    hide Walk, WalkedAlike, SameBlock;
    var shift := Walk(cfg, mem, x).shift;
    var next := BlockStart(x, shift) + Pow2(shift);
    if Walk(cfg, mem, next).Walked? && BlockStart(next, Walk(cfg, mem, next).shift) != next {
      SameBlockIffWithin(x, next - 1, shift);
      SameBlockIffWithin(next, next - 1, Walk(cfg, mem, next).shift);
      BlocksEqualOrDisjoint(cfg, mem, x, next, next - 1);
      assert false;
    }
  }
}
