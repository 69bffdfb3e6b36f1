/** The walks the translator makes: each starts where the block before it ends. On a table whose blocks
    fit their slots the last entry of a table and the first entry of the next one never have the same
    address, so that only the blank lines of a fresh cache can mislead such a run. */
module ConsecutiveWalks {
  import opened Words
  import opened Options
  import opened PageTable
  import opened CachedWalk
  import opened Blocks
  import opened Fragments
  import opened RangeLoop

  /** The frame-buffer offset is a multiple of 16 MiB; of a cache line is enough. */
  predicate OffsetAligned(cfg: TableConfig) {
    cfg.fbOffset % 64 == 0
  }

  // ------------------------------------------------------------------ tables

  /** The directory entry whose table is read at level `target`, if the descent gets there. */
  function DirectoryAt(cfg: TableConfig, mem: Memory, rel: Word, level: nat, words: seq<Word>, target: nat): Option<Pde>
    requires cfg.Wellformed() && target <= level <= cfg.depth && |words| > 0
    decreases level
  {
    var pde := GetPdeFields(words[|words| - 1]);
    if pde.pte then None
    else if level == target then Some(pde)
    else
      match mem.Read(EntryLocation(cfg, rel, level, pde))
      case None => None
      case Some(w) => DirectoryAt(cfg, mem, rel, level - 1, words + [w], target)
  }

  function TableOf(cfg: TableConfig, mem: Memory, va: Word, level: nat): Option<Pde>
    requires cfg.Wellformed() && level <= cfg.depth
  {
    DirectoryAt(cfg, mem, Relative(cfg, va), cfg.depth, [cfg.baseAddr], level)
  }

  lemma {:induction false} EntryOfDirectory(
    cfg: TableConfig, mem: Memory, rel: Word, level: nat, words: seq<Word>, target: nat)
    requires cfg.Wellformed() && target <= level <= cfg.depth && |words| > 0
    ensures var d := DirectoryAt(cfg, mem, rel, level, words, target);
            && EntryAt(cfg, mem, rel, level, words, target)
               == (if d.Some? then Some(EntryLocation(cfg, rel, target, d.value)) else None)
            && (d.Some? ==> d.value.baseAddress % 64 == 0)
    decreases level
  {
    hide EntryLocation, GetPdeFields;
    DirectoryAligned(words[|words| - 1]);
    var pde := GetPdeFields(words[|words| - 1]);
    if !pde.pte && level != target {
      var entry := mem.Read(EntryLocation(cfg, rel, level, pde));
      if entry.Some? {
        EntryOfDirectory(cfg, mem, rel, level - 1, words + [entry.value], target);
      }
    }
  }

  lemma DirectoryAligned(raw: Word)
    ensures GetPdeFields(raw).baseAddress % 64 == 0
  {
    hide GetBits, GetBit, Shl, Pow2;
    GetBitsValue(raw, 47, 6);
    TableBits();
    ShlValue(GetBits(raw, 47, 6), 6);
  }

  lemma TableBits()
    ensures Pow2(6) == 64 && Pow2(42) == 0x400_0000_0000
  {
    Pow2Values();
    Pow2Add(21, 21);
  }

  /** The table at a level depends on the higher levels only. */
  lemma {:induction false} SameDirectory(
    cfg: TableConfig, mem: Memory, r: Word, r': Word, level: nat, words: seq<Word>, target: nat)
    requires cfg.Wellformed() && target <= level <= cfg.depth && |words| > 0
    requires target < level ==> SameBlock(r, r', ShiftAt(cfg, target + 1))
    ensures DirectoryAt(cfg, mem, r, level, words, target) == DirectoryAt(cfg, mem, r', level, words, target)
    decreases level
  {
    hide EntryLocation, GetPdeFields, SameBlock;
    var pde := GetPdeFields(words[|words| - 1]);
    if !pde.pte && level != target {
      SameEntry(cfg, r, r', level, pde, ShiftAt(cfg, target + 1));
      var entry := mem.Read(EntryLocation(cfg, r, level, pde));
      if entry.Some? {
        SameDirectory(cfg, mem, r, r', level - 1, words + [entry.value], target);
      }
    }
  }

  /** At the given level `x` and `y` use slots of one table. */
  predicate SameTable(cfg: TableConfig, level: nat, x: Word, y: Word) {
    level >= cfg.depth || SameBlock(Relative(cfg, x), Relative(cfg, y), ShiftAt(cfg, level + 1))
  }

  lemma TablesEqual(cfg: TableConfig, mem: Memory, level: nat, x: Word, y: Word)
    requires cfg.Wellformed() && level <= cfg.depth && SameTable(cfg, level, x, y)
    ensures TableOf(cfg, mem, x, level) == TableOf(cfg, mem, y, level)
  {
    hide SameBlock, Relative, DirectoryAt;
    SameDirectory(cfg, mem, Relative(cfg, x), Relative(cfg, y), cfg.depth, [cfg.baseAddr], level);
  }

  lemma EntryInTable(cfg: TableConfig, mem: Memory, va: Word, level: nat)
    requires cfg.Wellformed() && level <= cfg.depth
    ensures var d := TableOf(cfg, mem, va, level);
            && TableEntry(cfg, mem, va, level)
               == (if d.Some? then Some(EntryLocation(cfg, Relative(cfg, va), level, d.value)) else None)
            && (d.Some? ==> d.value.baseAddress % 64 == 0)
  {
    hide EntryLocation, EntryAt, DirectoryAt, Relative;
    EntryOfDirectory(cfg, mem, Relative(cfg, va), cfg.depth, [cfg.baseAddr], level);
  }

  // ---------------------------------------------------------- the ends of a table

  /** `y` uses the last entry of its table. */
  predicate LastOfTable(cfg: TableConfig, level: nat, y: Word) {
    level < cfg.depth && Shr(Relative(cfg, y), ShiftAt(cfg, level)) % 512 == 511
  }

  /** `x` is the first address of its table. */
  predicate FirstOfTable(cfg: TableConfig, level: nat, x: Word) {
    level < cfg.depth && LowBits(Relative(cfg, x), ShiftAt(cfg, level + 1)) == 0
  }

  lemma WrapMod64(x: int)
    ensures Wrap(x) % 64 == x % 64
  {
    DivMod(x, TWO64);
    SameRemainder(Wrap(x), 64, 0x400_0000_0000_0000 * (x / TWO64));
  }

  /** Where in its cache line an entry of an inner table lies. */
  lemma EntryMod64(cfg: TableConfig, rel: Word, level: nat, pde: Pde)
    requires cfg.Wellformed() && level < cfg.depth && OffsetAligned(cfg) && pde.baseAddress % 64 == 0
    ensures EntryLocation(cfg, rel, level, pde).addr % 64 == Shr(rel, ShiftAt(cfg, level)) % 512 * 8 % 64
  {
    hide SlotIndex, LevelAt, Shr, Wrap, Times, Minus, ShiftAt;
    var k := Shr(rel, ShiftAt(cfg, level)) % 512;
    var base := if pde.system then pde.baseAddress else Minus(pde.baseAddress, cfg.fbOffset);
    DifferenceMod64(pde.baseAddress, cfg.fbOffset);
    InnerSlot(cfg, rel, level);
    SmallTimes(k);
    WrapMod64(8 * k + base);
    SumMod64(8 * k, base);
  }

  lemma DifferenceMod64(a: Word, b: Word)
    requires a % 64 == 0 && b % 64 == 0
    ensures Minus(a, b) % 64 == 0
  {
    WrapMod64(a - b);
    hide Wrap;
  }

  lemma SmallTimes(k: nat)
    requires k < 512
    ensures Times(k, 8) == 8 * k
  {}

  lemma SumMod64(a: int, b: int)
    requires b % 64 == 0
    ensures (a + b) % 64 == a % 64
  {}

  lemma InnerSlot(cfg: TableConfig, rel: Word, level: nat)
    requires cfg.Wellformed() && level < cfg.depth
    ensures SlotIndex(LevelAt(cfg, level), rel) == Shr(rel, ShiftAt(cfg, level)) % 512
  {
    hide And, Shr, Pow2, LowBits, Plus;
    MinusFits(512, 1);
    Pow2Values();
    AndLowMask(Shr(rel, ShiftAt(cfg, level)), 9);
  }

  /** The last entry of one inner table and the first of another have different addresses. */
  lemma EndsApart(cfg: TableConfig, mem: Memory, level: nat, y: Word, x: Word)
    requires cfg.Wellformed() && level < cfg.depth && OffsetAligned(cfg)
    requires TableEntry(cfg, mem, y, level).Some? && TableEntry(cfg, mem, x, level).Some?
    requires LastOfTable(cfg, level, y) && FirstOfTable(cfg, level, x)
    ensures TableEntry(cfg, mem, y, level).value.addr != TableEntry(cfg, mem, x, level).value.addr
  {
    hide EntryLocation, TableEntry, TableOf, Relative, Shr, LowBits;
    EntryInTable(cfg, mem, y, level);
    EntryInTable(cfg, mem, x, level);
    EntryMod64(cfg, Relative(cfg, y), level, TableOf(cfg, mem, y, level).value);
    EntryMod64(cfg, Relative(cfg, x), level, TableOf(cfg, mem, x, level).value);
    FirstSlot(Relative(cfg, x), ShiftAt(cfg, level));
  }

  lemma FirstSlot(r: Word, shift: nat)
    requires LowBits(r, shift + 9) == 0
    ensures Shr(r, shift) % 512 == 0
  {
    SlotOfRemainder(r, shift);
    hide Shr, LowBits, Pow2;
    LowBitsValue(r, shift + 9);
    DivModUnique(0, Pow2(shift), 0, 0);
  }

  lemma LastSlot(r: Word, shift: nat)
    requires r % Pow2(shift + 9) == Pow2(shift + 9) - 1
    ensures Shr(r, shift) % 512 == 511
  {
    SlotOfRemainder(r, shift);
    hide Shr, Pow2;
    var p := Pow2(shift);
    DivModUnique(p * 512 - 1, p, 511, p - 1);
  }

  lemma SlotOfRemainder(r: Word, shift: nat)
    ensures Pow2(shift + 9) == Pow2(shift) * 512
    ensures Shr(r, shift) % 512 == r % Pow2(shift + 9) / Pow2(shift)
  {
    hide Shr, Pow2;
    Pow2Values();
    Pow2Add(shift, 9);
    ShrValue(r, shift);
    DivOfMod(r, Pow2(shift), 512);
  }

  // ------------------------------------------------------------------ the next cursor

  function NextCursor(cfg: TableConfig, mem: Memory, x: Word): Word
    requires cfg.Wellformed() && Walk(cfg, mem, x).Walked?
  {
    Plus(PageAt(cfg, mem, x).va, PageAt(cfg, mem, x).size)
  }

  /** The next relative address is in the same block, or one ends a block and the other starts one. */
  lemma Successor(r: Word, shift: nat)
    requires shift < 64
    ensures SameBlock(r, Plus(r, 1), shift)
            || (r % Pow2(shift) == Pow2(shift) - 1 && LowBits(Plus(r, 1), shift) == 0)
  {
    hide Shr, Pow2, LowBits, Plus;
    var p := Pow2(shift);
    FullTurns(shift);
    DivMod(r, p);
    if r == TWO64 - 1 {
      var turns := Pow2(64 - shift);
      LastQuotient(p, turns);
      PlusWraps(r, 1);
      LowBitsOfZero(shift);
    } else {
      PlusFits(r, 1);
      ShrValue(r, shift);
      ShrValue(r + 1, shift);
      LowBitsValue(r + 1, shift);
      if r % p == p - 1 {
        NextMultiple(r, p);
      } else {
        DivModUnique(r + 1, p, r / p, r % p + 1);
      }
    }
  }

  lemma NextMultiple(r: nat, p: nat)
    requires p > 0 && r % p == p - 1
    ensures (r + 1) % p == 0
  {
    DivMod(r, p);
    var q := r / p;
    assert r + 1 == p * (q + 1);
    DivModUnique(r + 1, p, q + 1, 0);
  }

  lemma LastQuotient(p: nat, turns: nat)
    requires p > 0 && TWO64 == p * turns
    ensures (TWO64 - 1) % p == p - 1
  {
    assert TWO64 - 1 == p * (turns - 1) + (p - 1);
    DivModUnique(TWO64 - 1, p, turns - 1, p - 1);
  }

  /** The last address of the block of `x` is in the slot of `x`, and the next cursor follows it. */
  lemma BlockEnds(cfg: TableConfig, mem: Memory, x: Word) returns (z: Word)
    requires cfg.Wellformed() && Walk(cfg, mem, x).Walked? && BlockFits(cfg, mem, x)
    ensures SameSlot(cfg, mem, x, z)
    ensures Relative(cfg, NextCursor(cfg, mem, x)) == Plus(Relative(cfg, z), 1)
  {
    hide Walk, SameSlot, Relative, Pow2, BlockStart, Shr;
    var page := PageAt(cfg, mem, x);
    z := page.va + page.size - 1;
    ReportBounds(cfg, mem, x);
    SameBlockIffWithin(x, z, Walk(cfg, mem, x).shift);
    WalkConstantOnBlock(cfg, mem, x, z);
    NextRelative(cfg, page.va, page.size);
  }

  lemma NextRelative(cfg: TableConfig, va: Word, size: Word)
    requires 0 < size && va + size <= TWO64
    ensures Relative(cfg, Plus(va, size)) == Plus(Relative(cfg, va + size - 1), 1)
  {
    hide Plus, Minus;
    CursorHeld(va, size);
    MinusEither(Plus(va, size), cfg.startAddr);
    MinusEither(va + size - 1, cfg.startAddr);
    PlusWraps(Relative(cfg, va + size - 1), 1);
  }

  /** A slot lies in one slot of every level that the walk uses. */
  lemma {:induction false} SlotWithinLevel(cfg: TableConfig, mem: Memory, x: Word, level: nat)
    requires cfg.Wellformed() && level <= cfg.depth && Walk(cfg, mem, x).Walked?
    requires level == 0 ==> TableEntry(cfg, mem, x, 0).Some?
    ensures SlotOf(cfg, mem, x) <= ShiftAt(cfg, level)
  {
    hide GetPteFields, Descend, EntryAt;
    if level == 0 {
      LowestEntryStops(cfg, mem, Relative(cfg, x), cfg.depth, [cfg.baseAddr]);
    }
  }

  /** A descent that reads at level zero does not stop at a directory. */
  lemma {:induction false} LowestEntryStops(cfg: TableConfig, mem: Memory, rel: Word, level: nat, words: seq<Word>)
    requires cfg.Wellformed() && level <= cfg.depth && |words| > 0
    requires EntryAt(cfg, mem, rel, level, words, 0).Some?
    ensures !Descend(cfg, mem, rel, level, words).stop.AtDirectory?
    decreases level
  {
    hide EntryLocation, GetPdeFields;
    if level == 0 {
      ZeroLevelStops(cfg, mem, rel, words);
    } else {
      var entry := mem.Read(EntryLocation(cfg, rel, level, GetPdeFields(words[|words| - 1])));
      LowestEntryStops(cfg, mem, rel, level - 1, words + [entry.value]);
    }
  }

  lemma SlotsWithin(cfg: TableConfig, mem: Memory, x: Word, z: Word, shift: nat)
    requires cfg.Wellformed() && SameSlot(cfg, mem, x, z) && SlotOf(cfg, mem, x) <= shift
    ensures SameBlock(Relative(cfg, x), Relative(cfg, z), shift)
  {
    hide Relative, SlotOf, Shr;
    CoarserBlock(Relative(cfg, x), Relative(cfg, z), SlotOf(cfg, mem, x), shift);
  }

  /** From one cursor to the next, the table at a level stays the same; or it changes from its last
      entry, if it is used, and to a first address, if the one before was not used or is left. */
  lemma NextTable(cfg: TableConfig, mem: Memory, x: Word, level: nat)
    requires FittingTable(cfg, mem) && Walk(cfg, mem, x).Walked? && level < cfg.depth
    ensures var x' := NextCursor(cfg, mem, x);
            || (SameTable(cfg, level, x, x') && TableOf(cfg, mem, x, level) == TableOf(cfg, mem, x', level))
            || (FirstOfTable(cfg, level, x') && (TableEntry(cfg, mem, x, level).Some? ==> LastOfTable(cfg, level, x)))
  {
    hide Walk, SlotOf, Relative, TableOf, TableEntry, Shr, LowBits, Pow2, NextCursor, Plus, BlockFits, SameSlot;
    assert BlockFits(cfg, mem, x);
    var z := BlockEnds(cfg, mem, x);
    var x', shift := NextCursor(cfg, mem, x), ShiftAt(cfg, level + 1);
    SlotWithinLevel(cfg, mem, x, level + 1);
    SlotsWithin(cfg, mem, x, z, shift);
    Successor(Relative(cfg, z), shift);
    if SameBlock(Relative(cfg, z), Relative(cfg, x'), shift) {
      TablesEqual(cfg, mem, level, x, x');
    } else {
      LastSlot(Relative(cfg, z), ShiftAt(cfg, level));
      if TableEntry(cfg, mem, x, level).Some? {
        SlotWithinLevel(cfg, mem, x, level);
        SlotsWithin(cfg, mem, x, z, ShiftAt(cfg, level));
      }
    }
  }

  // ---------------------------------------------------------------- lines of a run

  /** The line holds the entry that `y` uses, and its word. */
  predicate LineFrom(cfg: TableConfig, mem: Memory, cache: Cache, level: nat, y: Word)
    requires cfg.Wellformed() && level <= cfg.depth && cache.Valid()
  {
    var e := TableEntry(cfg, mem, y, level);
    e.Some? && e.value.addr == cache.addrs[level] && mem.Read(e.value) == Some(cache.raws[level])
  }

  /** `x` uses the table that `y` used, or the walks have left it by its last entry and `x` starts
      another one. */
  predicate Follows(cfg: TableConfig, mem: Memory, level: nat, y: Word, x: Word)
    requires cfg.Wellformed() && level <= cfg.depth
  {
    || SameTable(cfg, level, y, x)
    || (LastOfTable(cfg, level, y) && (TableEntry(cfg, mem, x, level).Some? ==> FirstOfTable(cfg, level, x)))
  }

  ghost predicate LineReady(cfg: TableConfig, mem: Memory, cache: Cache, level: nat, x: Word)
    requires cfg.Wellformed() && level <= cfg.depth && cache.Valid()
  {
    exists y: Word :: LineFrom(cfg, mem, cache, level, y) && Follows(cfg, mem, level, y, x)
  }

  /** The cache before the walk of `x`: the levels used so far hold an entry that `x` follows, and the
      other lines are blank. */
  ghost predicate CacheReady(cfg: TableConfig, mem: Memory, cache: Cache, used: set<nat>, x: Word)
    requires cfg.Wellformed()
  {
    && cache.Valid()
    && forall level: nat | level <= cfg.depth ::
         if level in used then LineReady(cfg, mem, cache, level, x) else BlankLine(cache, level)
  }

  predicate BlankLine(cache: Cache, level: nat)
    requires cache.Valid() && level < 4
  {
    cache.addrs[level] == 0 && cache.raws[level] == 0
  }

  /** The levels at which the walk of `x` uses an entry. */
  function Uses(cfg: TableConfig, mem: Memory, x: Word): set<nat>
    requires cfg.Wellformed()
  {
    set level: nat | level <= cfg.depth && TableEntry(cfg, mem, x, level).Some?
  }

  /** No level is used for the first time at address zero, unless the entry there is zero. */
  ghost predicate FirstUsesAgree(cfg: TableConfig, mem: Memory, used: set<nat>, x: Word)
    requires cfg.Wellformed()
  {
    forall level: nat | level <= cfg.depth && level !in used :: ZeroEntryIsZero(mem, TableEntry(cfg, mem, x, level))
  }

  predicate ZeroEntryIsZero(mem: Memory, e: Option<Location>) {
    e.Some? && e.value.addr == 0 ==> mem.Read(e.value) == Some(0)
  }

  lemma ReadyLineAgrees(cfg: TableConfig, mem: Memory, cache: Cache, level: nat, x: Word)
    requires cfg.Wellformed() && level <= cfg.depth && cache.Valid() && OffsetAligned(cfg)
    requires LineReady(cfg, mem, cache, level, x)
    ensures LineAgrees(mem, cache, level, TableEntry(cfg, mem, x, level))
  {
    hide EntryLocation, TableEntry, TableOf, Relative, SameTable, LastOfTable, FirstOfTable;
    var y: Word :| LineFrom(cfg, mem, cache, level, y) && Follows(cfg, mem, level, y, x);
    if TableEntry(cfg, mem, x, level).Some? {
      if SameTable(cfg, level, y, x) {
        TablesEqual(cfg, mem, level, y, x);
        EntryInTable(cfg, mem, x, level);
        EntryInTable(cfg, mem, y, level);
        SameAperture(cfg, Relative(cfg, x), Relative(cfg, y), level, TableOf(cfg, mem, x, level).value);
      } else {
        assert level < cfg.depth by {
          NotLastAtRoot(cfg, level, y);
        }
        EndsApart(cfg, mem, level, y, x);
      }
    }
  }

  lemma NotLastAtRoot(cfg: TableConfig, level: nat, y: Word)
    requires LastOfTable(cfg, level, y)
    ensures level < cfg.depth
  {}

  lemma SameAperture(cfg: TableConfig, r: Word, r': Word, level: nat, pde: Pde)
    requires cfg.Wellformed() && level <= cfg.depth
    ensures EntryLocation(cfg, r, level, pde).system == EntryLocation(cfg, r', level, pde).system
  {
    hide SlotIndex, LevelAt, Plus, Minus, Times;
  }

  /** A ready cache misleads a walk only by its blank lines. */
  lemma ReadyAgreesIff(cfg: TableConfig, mem: Memory, cache: Cache, used: set<nat>, x: Word)
    requires cfg.Wellformed() && OffsetAligned(cfg) && CacheReady(cfg, mem, cache, used, x)
    ensures LinesAgree(cfg, mem, cache, x) <==> FirstUsesAgree(cfg, mem, used, x)
  {
    hide TableEntry, LineReady, LineAgrees, ZeroEntryIsZero;
    forall level: nat | level <= cfg.depth
      ensures LineAgrees(mem, cache, level, TableEntry(cfg, mem, x, level))
              <==> level in used || ZeroEntryIsZero(mem, TableEntry(cfg, mem, x, level))
    {
      if level in used {
        ReadyLineAgrees(cfg, mem, cache, level, x);
      } else {
        BlankAgrees(mem, cache, level, TableEntry(cfg, mem, x, level));
      }
    }
  }

  lemma BlankAgrees(mem: Memory, cache: Cache, level: nat, e: Option<Location>)
    requires cache.Valid() && level < 4 && BlankLine(cache, level)
    ensures LineAgrees(mem, cache, level, e) <==> ZeroEntryIsZero(mem, e)
  {}

  /** Every entry that a walked address uses is readable. */
  lemma {:induction false} WalkedEntryReads(
    cfg: TableConfig, mem: Memory, rel: Word, level: nat, words: seq<Word>, target: nat)
    requires cfg.Wellformed() && target <= level <= cfg.depth && |words| > 0
    requires Descend(cfg, mem, rel, level, words).stop != Fault && EntryAt(cfg, mem, rel, level, words, target).Some?
    ensures mem.Read(EntryAt(cfg, mem, rel, level, words, target).value).Some?
    decreases level
  {
    hide EntryLocation, GetPdeFields;
    if level != target {
      var entry := mem.Read(EntryLocation(cfg, rel, level, GetPdeFields(words[|words| - 1])));
      WalkedEntryReads(cfg, mem, rel, level - 1, words + [entry.value], target);
    }
  }

  lemma UsedEntryReads(cfg: TableConfig, mem: Memory, x: Word, level: nat)
    requires cfg.Wellformed() && level <= cfg.depth && Walk(cfg, mem, x).Walked?
    requires TableEntry(cfg, mem, x, level).Some?
    ensures mem.Read(TableEntry(cfg, mem, x, level).value).Some?
  {
    hide GetPteFields, Descend, EntryAt, GetPdeFields;
    WalkedEntryReads(cfg, mem, Relative(cfg, x), cfg.depth, [cfg.baseAddr], level);
  }

  /** After the walk of `x` the line of a level it used is ready for the next cursor. */
  lemma UsedLineReady(cfg: TableConfig, mem: Memory, before: Cache, after: Cache, level: nat, x: Word)
    requires FittingTable(cfg, mem) && Walk(cfg, mem, x).Walked? && level <= cfg.depth
    requires before.Valid() && after.Valid() && TableEntry(cfg, mem, x, level).Some?
    requires LineAfter(mem, before, after, level, TableEntry(cfg, mem, x, level))
    ensures LineReady(cfg, mem, after, level, NextCursor(cfg, mem, x))
  {
    hide Walk, TableEntry, TableOf, Relative, LastOfTable, FirstOfTable, NextCursor, BlockFits, SameBlock;
    UsedEntryReads(cfg, mem, x, level);
    if level < cfg.depth {
      NextTable(cfg, mem, x, level);
    }
    assert LineFrom(cfg, mem, after, level, x) && Follows(cfg, mem, level, x, NextCursor(cfg, mem, x));
  }

  /** The line of a level it did not use, and that an earlier walk used, stays ready. */
  lemma UnusedLineReady(cfg: TableConfig, mem: Memory, before: Cache, after: Cache, level: nat, x: Word)
    requires FittingTable(cfg, mem) && Walk(cfg, mem, x).Walked? && level <= cfg.depth
    requires before.Valid() && after.Valid() && TableEntry(cfg, mem, x, level).None?
    requires LineAfter(mem, before, after, level, TableEntry(cfg, mem, x, level))
    requires LineReady(cfg, mem, before, level, x)
    ensures LineReady(cfg, mem, after, level, NextCursor(cfg, mem, x))
  {
    hide Walk, TableEntry, TableOf, Relative, LastOfTable, FirstOfTable, NextCursor, BlockFits, SameTable;
    var y: Word :| LineFrom(cfg, mem, before, level, y) && Follows(cfg, mem, level, y, x);
    EntryInTable(cfg, mem, y, level);
    EntryInTable(cfg, mem, x, level);
    if SameTable(cfg, level, y, x) {
      TablesEqual(cfg, mem, level, y, x);
    } else {
      NotLastAtRoot(cfg, level, y);
      NextTable(cfg, mem, x, level);
      EntryInTable(cfg, mem, NextCursor(cfg, mem, x), level);
    }
    assert LineFrom(cfg, mem, after, level, y) && Follows(cfg, mem, level, y, NextCursor(cfg, mem, x));
  }

  lemma ReadyStep(cfg: TableConfig, mem: Memory, cache: Cache, used: set<nat>, x: Word)
    requires FittingTable(cfg, mem) && Walk(cfg, mem, x).Walked?
    requires CacheReady(cfg, mem, cache, used, x) && LinesAgree(cfg, mem, cache, x)
    ensures CacheReady(cfg, mem, CachedDescendFrom(cfg, mem, cache, x).1, used + Uses(cfg, mem, x), NextCursor(cfg, mem, x))
  {
    hide Walk, TableEntry, BlockFits, LineReady, LineAfter, LineAgrees, LinesAgree, CachedDescendFrom, DescendFrom;
    hide WalkWithCache, NextCursor;
    WalkAgreesIff(cfg, mem, cache, x);
    var after := CachedDescendFrom(cfg, mem, cache, x).1;
    forall level: nat | level <= cfg.depth
      ensures if level in used + Uses(cfg, mem, x)
              then LineReady(cfg, mem, after, level, NextCursor(cfg, mem, x)) else BlankLine(after, level)
    {
      var e := TableEntry(cfg, mem, x, level);
      assert LineAfter(mem, cache, after, level, e);
      if e.Some? {
        UsedLineReady(cfg, mem, cache, after, level, x);
      } else if level in used {
        UnusedLineReady(cfg, mem, cache, after, level, x);
      } else {
        BlankStays(mem, cache, after, level);
      }
    }
  }

  lemma BlankStays(mem: Memory, before: Cache, after: Cache, level: nat)
    requires before.Valid() && after.Valid() && level < 4 && BlankLine(before, level)
    requires LineAfter(mem, before, after, level, None)
    ensures BlankLine(after, level)
  {}

  lemma FreshCacheReady(cfg: TableConfig, mem: Memory, x: Word)
    requires cfg.Wellformed()
    ensures CacheReady(cfg, mem, ZeroCache(), {}, x)
  {
    hide LineReady;
  }

  // ---------------------------------------------------------------- consecutive runs

  /** Each address is the cursor after the one before it. */
  predicate Consecutive(cfg: TableConfig, mem: Memory, vas: seq<Word>)
    requires cfg.Wellformed()
  {
    |vas| >= 2 ==>
      Walk(cfg, mem, vas[0]).Walked? && vas[1] == NextCursor(cfg, mem, vas[0]) && Consecutive(cfg, mem, vas[1..])
  }

  /** The first entry that a run uses at a level is not at address zero, unless it is zero. */
  ghost predicate FirstUsesAreSafe(cfg: TableConfig, mem: Memory, used: set<nat>, vas: seq<Word>)
    requires cfg.Wellformed()
    decreases |vas|
  {
    hide Uses, FirstUsesAgree;
    vas == []
    || (FirstUsesAgree(cfg, mem, used, vas[0])
        && FirstUsesAreSafe(cfg, mem, used + Uses(cfg, mem, vas[0]), vas[1..]))
  }

  lemma {:induction false} RunAgreesIff(cfg: TableConfig, mem: Memory, cache: Cache, used: set<nat>, vas: seq<Word>)
    requires FittingTable(cfg, mem) && OffsetAligned(cfg) && cache.Valid() && Consecutive(cfg, mem, vas)
    requires vas != [] ==> CacheReady(cfg, mem, cache, used, vas[0])
    ensures CachedRun(cfg, mem, cache, vas) == PlainRun(cfg, mem, vas) <==> FirstUsesAreSafe(cfg, mem, used, vas)
    decreases |vas|
  {
    hide Walk, BlockFits, CacheReady, FirstUsesAgree, CachedDescendFrom, DescendFrom, WalkWithCache, NextCursor, Uses;
    hide LinesAgree;
    if vas != [] {
      var x, rest := vas[0], vas[1..];
      var (d, next) := CachedDescendFrom(cfg, mem, cache, x);
      ReadyAgreesIff(cfg, mem, cache, used, x);
      WalkAgreesIff(cfg, mem, cache, x);
      assert CachedRun(cfg, mem, cache, vas)[0] == d && PlainRun(cfg, mem, vas)[0] == DescendFrom(cfg, mem, x);
      assert CachedRun(cfg, mem, cache, vas)[1..] == CachedRun(cfg, mem, next, rest);
      assert PlainRun(cfg, mem, vas)[1..] == PlainRun(cfg, mem, rest);
      if LinesAgree(cfg, mem, cache, x) {
        if rest != [] {
          ReadyStep(cfg, mem, cache, used, x);
        }
        RunAgreesIff(cfg, mem, next, used + Uses(cfg, mem, x), rest);
      }
    }
  }

  /** On a fitting table, a run of consecutive walks from a fresh cache reads what the plain walks read
      if and only if no level is first used at address zero, or the entry there is zero. */
  lemma ConsecutiveRunIff(cfg: TableConfig, mem: Memory, vas: seq<Word>)
    requires FittingTable(cfg, mem) && OffsetAligned(cfg) && Consecutive(cfg, mem, vas)
    ensures CachedRun(cfg, mem, ZeroCache(), vas) == PlainRun(cfg, mem, vas) <==> FirstUsesAreSafe(cfg, mem, {}, vas)
  {
    hide Walk, BlockFits, CacheReady, CachedRun, PlainRun, FirstUsesAreSafe, Consecutive;
    if vas != [] {
      FreshCacheReady(cfg, mem, vas[0]);
    }
    RunAgreesIff(cfg, mem, ZeroCache(), {}, vas);
  }

  // ---------------------------------------------------------------- loops over ranges

  /** When a loop over a range reads the table as the plain walk does: the table is transparent to the
      cache in any order of walks, or its blocks fit and no entry in use is at address zero. */
  ghost predicate ReadsTable(cfg: TableConfig, mem: Memory)
    requires cfg.Wellformed()
  {
    || CacheTransparent(cfg, mem)
    || (FittingTable(cfg, mem) && OffsetAligned(cfg) && ZeroEntriesAreZero(cfg, mem))
  }

  /** A round whose walk agrees is the plain round, and leaves the cache of the walk. */
  lemma RoundAgrees(cfg: TableConfig, mem: Memory, combine: bool, loop: Loop, cache: Cache)
    requires cfg.Wellformed() && cache.Valid()
    requires WalkWithCache(cfg, mem, cache, loop.cursor).0 == Walk(cfg, mem, loop.cursor)
    ensures CachedRound(cfg, mem, combine, loop, cache).0 == PlainRound(cfg, mem, combine, loop)
    ensures PlainRound(cfg, mem, combine, loop).Running? ==>
              && loop.cursor < loop.end && Walk(cfg, mem, loop.cursor).Walked?
              && CachedRound(cfg, mem, combine, loop, cache).1 == CachedDescendFrom(cfg, mem, cache, loop.cursor).1
              && PlainRound(cfg, mem, combine, loop).loop.cursor == NextCursor(cfg, mem, loop.cursor)
  {
    hide CachedDescendFrom, Finish, DescendFrom, PageOf, FragmentsOverlap, IsContiguous, Grow, Grown, Plus;
    PlainBounds(cfg, mem, loop.cursor);
  }

  lemma {:induction false} ConsecutiveLoopAgrees(
    cfg: TableConfig, mem: Memory, combine: bool, loop: Loop, cache: Cache, used: set<nat>, n: nat)
    requires FittingTable(cfg, mem) && OffsetAligned(cfg) && ZeroEntriesAreZero(cfg, mem)
    requires CacheReady(cfg, mem, cache, used, loop.cursor)
    ensures CachedRounds(cfg, mem, combine, loop, cache, n) == PlainRounds(cfg, mem, combine, loop, n)
    decreases n
  {
    hide Walk, BlockFits, LinesAgree, CachedDescendFrom, DescendFrom, WalkWithCache, NextCursor, Uses, TableEntry;
    hide CachedRound, PlainRound, LineReady;
    if n > 0 {
      var x := loop.cursor;
      ReadyAgreesIff(cfg, mem, cache, used, x);
      WalkAgreesIff(cfg, mem, cache, x);
      RoundAgrees(cfg, mem, combine, loop, cache);
      match PlainRound(cfg, mem, combine, loop)
      case Stopped(_) =>
      case Running(next) =>
        ReadyStep(cfg, mem, cache, used, x);
        hide CacheReady;
        ConsecutiveLoopAgrees(
          cfg, mem, combine, next, CachedRound(cfg, mem, combine, loop, cache).1, used + Uses(cfg, mem, x), n - 1);
    }
  }

  lemma {:induction false} TransparentLoopAgrees(
    cfg: TableConfig, mem: Memory, combine: bool, loop: Loop, cache: Cache, n: nat)
    requires cfg.Wellformed() && cache.Valid() && CacheTransparent(cfg, mem) && CacheSound(cfg, mem, cache)
    ensures CachedRounds(cfg, mem, combine, loop, cache, n) == PlainRounds(cfg, mem, combine, loop, n)
    decreases n
  {
    hide Walk, CachedDescendFrom, DescendFrom, WalkWithCache, CacheTransparent, CacheSound, CachedRound, PlainRound;
    hide NextCursor;
    if n > 0 {
      CachedWalkIsWalk(cfg, mem, cache, loop.cursor);
      RoundAgrees(cfg, mem, combine, loop, cache);
      match PlainRound(cfg, mem, combine, loop)
      case Stopped(_) =>
      case Running(next) =>
        TransparentLoopAgrees(cfg, mem, combine, next, CachedRound(cfg, mem, combine, loop, cache).1, n - 1);
    }
  }

  /** The loop over a range, with its cache, ends as the loop of plain walks ends, or goes on with it. */
  lemma LoopReadsTable(cfg: TableConfig, mem: Memory, va: Word, size: Word, combine: bool, r: RangeResult)
    requires cfg.Wellformed() && ReadsTable(cfg, mem)
    ensures EndsWith(cfg, mem, va, size, combine, r) <==> PlainlyEndsWith(cfg, mem, va, size, combine, r)
  {
    hide FittingTable, ZeroEntriesAreZero, CacheTransparent, CachedRounds, PlainRounds, CacheSound, CacheReady;
    forall n: nat
      ensures CachedRounds(cfg, mem, combine, Start(va, size), ZeroCache(), n)
              == PlainRounds(cfg, mem, combine, Start(va, size), n)
    {
      if CacheTransparent(cfg, mem) {
        ZeroCacheSound(cfg, mem);
        TransparentLoopAgrees(cfg, mem, combine, Start(va, size), ZeroCache(), n);
      } else {
        FreshCacheReady(cfg, mem, va);
        ConsecutiveLoopAgrees(cfg, mem, combine, Start(va, size), ZeroCache(), {}, n);
      }
    }
  }
}
