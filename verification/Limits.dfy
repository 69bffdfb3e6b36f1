/** Concrete tables on which a premise fails and the walk returns something else. */
module Limits {
  import opened Words
  import opened Options
  import opened PageTable
  import opened EntryFormats
  import opened CachedWalk
  import opened Blocks

  // --------------------------------------------------- one level over page tables

  /** A root of two entries over page tables of 512 slots of 4 KiB. */
  function TwoTables(root: Word): TableConfig {
    TableConfig(1, 0, 0, root, 0x3f_f000, 0)
  }

  lemma RootSlot(root: Word, rel: Word)
    requires rel < 0x40_0000
    ensures SlotIndex(LevelAt(TwoTables(root), 1), rel) == rel / 0x20_0000
  {
    hide And, Shr, Pow2, LowBits;
    Pow2Values();
    ShrValue(0x40_0000, 21);
    ShrValue(rel, 21);
    FieldPowers();
    AndLowMask(rel / 0x20_0000, 1);
  }

  lemma PageSlot(root: Word, rel: Word)
    requires rel < 0x40_0000
    ensures SlotIndex(LevelAt(TwoTables(root), 0), rel) == rel / 0x1000 % 512
  {
    hide And, Shr, Pow2, LowBits;
    Pow2Values();
    ShrValue(rel, 12);
    AndLowMask(rel / 0x1000, 9);
  }

  /** Where the two levels of a walk are read. */
  function RootEntry(root: Word, va: Word): Location {
    Location(GetPdeFields(root).system, Plus(Times(va / 0x20_0000, 8), GetPdeFields(root).baseAddress))
  }

  function PageEntry(directory: Word, va: Word): Location {
    Location(GetPdeFields(directory).system, Plus(Times(va / 0x1000 % 512, 8), GetPdeFields(directory).baseAddress))
  }

  lemma EntryOffsets()
    ensures Times(0, 8) == 0 && Times(1, 8) == 8 && Times(2, 8) == 16
  {}

  /** The entries read for the first three pages under the first root slot. */
  lemma FirstEntries(directory: Word)
    ensures var d := GetPdeFields(directory);
            && RootEntry(directory, 0) == Location(d.system, d.baseAddress)
            && RootEntry(directory, 0x10) == Location(d.system, d.baseAddress)
            && RootEntry(directory, 0x1000) == Location(d.system, d.baseAddress)
            && RootEntry(directory, 0x2000) == Location(d.system, d.baseAddress)
            && PageEntry(directory, 0) == Location(d.system, d.baseAddress)
            && PageEntry(directory, 0x10) == Location(d.system, d.baseAddress)
            && PageEntry(directory, 0x1000) == Location(d.system, Plus(8, d.baseAddress))
            && PageEntry(directory, 0x2000) == Location(d.system, Plus(16, d.baseAddress))
  {
    hide GetPdeFields, Plus, Times;
    EntryOffsets();
    PlusFits(0, GetPdeFields(directory).baseAddress);
  }

  /** The entries read for the first page under the second root slot. */
  lemma SecondRootEntries(directory: Word)
    ensures var d := GetPdeFields(directory);
            && RootEntry(directory, 0x20_0000) == Location(d.system, Plus(8, d.baseAddress))
            && PageEntry(directory, 0x20_0000) == Location(d.system, d.baseAddress)
  {
    hide GetPdeFields, Plus, Times;
    EntryOffsets();
    PlusFits(0, GetPdeFields(directory).baseAddress);
  }

  lemma EntriesOfTwoTables(root: Word, directory: Word, va: Word)
    requires va < 0x40_0000
    ensures Relative(TwoTables(root), va) == va
    ensures EntryLocation(TwoTables(root), va, 1, GetPdeFields(root)) == RootEntry(root, va)
    ensures EntryLocation(TwoTables(root), va, 0, GetPdeFields(directory)) == PageEntry(directory, va)
  {
    hide SlotIndex, GetPdeFields, LevelAt, Plus, Minus, Times;
    RootSlot(root, va);
    PageSlot(root, va);
    MinusFits(va, 0);
    MinusFits(GetPdeFields(root).baseAddress, 0);
    MinusFits(GetPdeFields(directory).baseAddress, 0);
  }

  lemma FinishAtPage(cfg: TableConfig, mem: Memory, rel: Word, root: Word, directory: Word, page: Word)
    requires !(GetPteFields(page).valid && GetPteFields(page).translateFurther)
    ensures Finish(cfg, mem, rel, Descent([root, directory, page], AtPage))
            == Walked(GetPteFields(page), GetPdeFields(directory).blockFragmentSize + 12)
  {
    hide GetPdeFields, GetPteFields;
  }

  /** A walk through both levels to a page entry. */
  lemma WalkTwoTables(root: Word, mem: Memory, va: Word, directory: Word, page: Word)
    requires va < 0x40_0000 && !GetPdeFields(root).pte && !GetPdeFields(directory).pte
    requires mem.Read(RootEntry(root, va)) == Some(directory)
    requires mem.Read(PageEntry(directory, va)) == Some(page)
    requires !(GetPteFields(page).valid && GetPteFields(page).translateFurther)
    ensures Walk(TwoTables(root), mem, va)
            == Walked(GetPteFields(page), GetPdeFields(directory).blockFragmentSize + 12)
  {
    hide GetPdeFields, GetPteFields, EntryLocation, RootEntry, PageEntry, Finish;
    EntriesOfTwoTables(root, directory, va);
    var cfg := TwoTables(root);
    assert Descend(cfg, mem, va, 0, [root, directory]) == Descend(cfg, mem, va, -1, [root, directory, page]);
    assert DescendFrom(cfg, mem, va) == Descent([root, directory, page], AtPage);
    FinishAtPage(cfg, mem, va, root, directory, page);
  }

  // -------------------------------------------------------- oversized fragments

  const FRAGMENT_ROOT: Word := 0x1000
  const FRAGMENT_DIRECTORY: Word := 0x800_0000_0000_2000
  const FRAGMENT_MEMORY: Memory :=
    Memory(map[], map[0x1000 := FRAGMENT_DIRECTORY, 0x2000 := 0x5001, 0x2008 := 0x9001])

  /** The entries of the table, decoded. */
  lemma FragmentEntries()
    ensures var p := GetPdeFields(FRAGMENT_ROOT); !p.pte && !p.system && p.baseAddress == 0x1000
    ensures var p := GetPdeFields(FRAGMENT_DIRECTORY);
            !p.pte && !p.system && p.baseAddress == 0x2000 && p.blockFragmentSize == 1
    ensures var p := GetPteFields(0x5001); p.valid && !p.translateFurther && p.baseAddress == 0x5000
    ensures var p := GetPteFields(0x9001); p.valid && !p.translateFurther && p.baseAddress == 0x9000
  {
    hide GetPdeFields, GetPteFields;
    PdeByArithmetic(FRAGMENT_ROOT);
    PdeByArithmetic(FRAGMENT_DIRECTORY);
    PteByArithmetic(0x5001);
    PteByArithmetic(0x9001);
  }

  lemma SameEightKib()
    ensures SameBlock(0, 0x1000, 13)
  {
    Pow2Values();
    Pow2Add(12, 1);
    hide Shr, Pow2;
    ShrValue(0, 13);
    ShrValue(0x1000, 13);
  }

  /** The walks of the first two slots of the first page table. */
  lemma FirstTwoSlots(root: Word, directory: Word, p: Word, q: Word, mem: Memory)
    requires var d := GetPdeFields(root); !d.pte && !d.system && d.baseAddress == 0x1000
    requires var d := GetPdeFields(directory); !d.pte && !d.system && d.baseAddress == 0x2000
    requires mem.Read(Location(false, 0x1000)) == Some(directory)
    requires mem.Read(Location(false, 0x2000)) == Some(p) && mem.Read(Location(false, 0x2008)) == Some(q)
    requires GetPteFields(p).valid && !GetPteFields(p).translateFurther
    requires GetPteFields(q).valid && !GetPteFields(q).translateFurther
    ensures var shift := GetPdeFields(directory).blockFragmentSize + 12;
            && Walk(TwoTables(root), mem, 0) == Walked(GetPteFields(p), shift)
            && Walk(TwoTables(root), mem, 0x1000) == Walked(GetPteFields(q), shift)
  {
    hide GetPdeFields, GetPteFields, Walk, RootEntry, PageEntry;
    FirstEntries(root);
    FirstEntries(directory);
    WalkTwoTables(root, mem, 0, directory, p);
    WalkTwoTables(root, mem, 0x1000, directory, q);
  }

  /** Two addresses in one reported block that are walked differently. */
  lemma NotUniform(cfg: TableConfig, mem: Memory, x: Word, y: Word)
    requires cfg.Wellformed() && Walk(cfg, mem, x).Walked? && SameBlock(x, y, Walk(cfg, mem, x).shift)
    requires Walk(cfg, mem, y) != Walk(cfg, mem, x)
    ensures !UniformTable(cfg, mem)
  {
    hide Walk, SameBlock;
    assert !WalkedAlike(cfg, mem, x, y);
  }

  /** With a fragment size above the block size, addresses of one reported 8 KiB block are walked
      to different pages. */
  lemma OversizedFragment()
    ensures StartAligned(TwoTables(FRAGMENT_ROOT)) && !UniformTable(TwoTables(FRAGMENT_ROOT), FRAGMENT_MEMORY)
    ensures SameBlock(0, 0x1000, 13)
    ensures exists p, q ::
              && Walk(TwoTables(FRAGMENT_ROOT), FRAGMENT_MEMORY, 0) == Walked(p, 13)
              && Walk(TwoTables(FRAGMENT_ROOT), FRAGMENT_MEMORY, 0x1000) == Walked(q, 13)
              && p.valid && q.valid && p.baseAddress == 0x5000 && q.baseAddress == 0x9000
  {
    hide GetPdeFields, GetPteFields, Walk, SameBlock, WalkedAlike;
    LowBitsOfZero(21);
    SameEightKib();
    FragmentEntries();
    FirstTwoSlots(FRAGMENT_ROOT, FRAGMENT_DIRECTORY, 0x5001, 0x9001, FRAGMENT_MEMORY);
    NotUniform(TwoTables(FRAGMENT_ROOT), FRAGMENT_MEMORY, 0, 0x1000);
  }

  // ---------------------------------------------------------- a misaligned start

  /** A root of two entries over slots of 2 MiB, for a range that starts at 4 KiB. */
  const SHIFTED: TableConfig := TableConfig(1, 0, 0x1000, 0x1000, 0x40_0000, 0)
  const FIRST_LARGE: Word := 0x40_0000_0020_0001
  const SECOND_LARGE: Word := 0x40_0000_0060_0001
  const SHIFTED_MEMORY: Memory := Memory(map[], map[0x1000 := FIRST_LARGE, 0x1008 := SECOND_LARGE])

  /** A walk that a page entry in the last directory ends. */
  lemma WalkLargePage(cfg: TableConfig, mem: Memory, va: Word, entry: Word)
    requires cfg.Wellformed() && cfg.depth == 1 && !GetPdeFields(cfg.baseAddr).pte && GetPdeFields(entry).pte
    requires mem.Read(EntryLocation(cfg, Relative(cfg, va), 1, GetPdeFields(cfg.baseAddr))) == Some(entry)
    ensures Walk(cfg, mem, va) == Walked(GetPteFields(entry), cfg.blockSize + 21)
    ensures DescendFrom(cfg, mem, va) == Descent([cfg.baseAddr, entry], AtDirectory(0))
  {
    hide GetPdeFields, GetPteFields, EntryLocation, Relative;
    var rel := Relative(cfg, va);
    assert Descend(cfg, mem, rel, 0, [cfg.baseAddr, entry]) == Descent([cfg.baseAddr, entry], AtDirectory(0));
    assert [cfg.baseAddr] + [entry] == [cfg.baseAddr, entry];
    assert DescendFrom(cfg, mem, va) == Descent([cfg.baseAddr, entry], AtDirectory(0));
  }

  lemma ShiftedSlots()
    ensures Relative(SHIFTED, 0x20_0000) == 0x1f_f000 && Relative(SHIFTED, 0x20_1000) == 0x20_0000
    ensures SlotIndex(LevelAt(SHIFTED, 1), 0x1f_f000) == 0 && SlotIndex(LevelAt(SHIFTED, 1), 0x20_0000) == 1
  {
    hide And, Shr, Pow2, LowBits;
    Pow2Values();
    FieldPowers();
    ShrValue(0x40_0000, 21);
    ShrValue(0x1f_f000, 21);
    ShrValue(0x20_0000, 21);
    AndLowMask(0, 1);
    AndLowMask(1, 1);
  }

  lemma ShiftedEntries()
    ensures var d := GetPdeFields(0x1000);
            && EntryLocation(SHIFTED, Relative(SHIFTED, 0x20_0000), 1, d) == Location(false, 0x1000)
            && EntryLocation(SHIFTED, Relative(SHIFTED, 0x20_1000), 1, d) == Location(false, 0x1008)
    ensures !GetPdeFields(0x1000).pte && GetPdeFields(FIRST_LARGE).pte && GetPdeFields(SECOND_LARGE).pte
    ensures var p := GetPteFields(FIRST_LARGE); p.valid && p.baseAddress == 0x20_0000
    ensures var q := GetPteFields(SECOND_LARGE); q.valid && q.baseAddress == 0x60_0000
  {
    hide GetPdeFields, GetPteFields, SlotIndex, LevelAt, Relative;
    ShiftedSlots();
    EntryOffsets();
    PdeByArithmetic(0x1000);
    PdeByArithmetic(FIRST_LARGE);
    PdeByArithmetic(SECOND_LARGE);
    PteByArithmetic(FIRST_LARGE);
    PteByArithmetic(SECOND_LARGE);
  }

  lemma ShiftedBlocks()
    ensures SameBlock(0x20_0000, 0x20_1000, 21) && !StartAligned(SHIFTED)
  {
    hide Shr, Pow2, LowBits;
    Pow2Values();
    ShrValue(0x20_0000, 21);
    ShrValue(0x20_1000, 21);
    LowBitsValue(0x1000, 21);
  }

  /** With a start that is not on a block boundary, addresses of one reported 2 MiB block are walked
      to different pages. */
  lemma MisalignedStart()
    ensures !StartAligned(SHIFTED) && !UniformTable(SHIFTED, SHIFTED_MEMORY)
    ensures SameBlock(0x20_0000, 0x20_1000, 21)
    ensures exists p, q ::
              && Walk(SHIFTED, SHIFTED_MEMORY, 0x20_0000) == Walked(p, 21)
              && Walk(SHIFTED, SHIFTED_MEMORY, 0x20_1000) == Walked(q, 21)
              && p.valid && q.valid && p.baseAddress == 0x20_0000 && q.baseAddress == 0x60_0000
  {
    hide GetPdeFields, GetPteFields, Walk, SameBlock, WalkedAlike, EntryLocation, Relative, StartAligned;
    ShiftedBlocks();
    ShiftedEntries();
    WalkLargePage(SHIFTED, SHIFTED_MEMORY, 0x20_0000, FIRST_LARGE);
    WalkLargePage(SHIFTED, SHIFTED_MEMORY, 0x20_1000, SECOND_LARGE);
    NotUniform(SHIFTED, SHIFTED_MEMORY, 0x20_0000, 0x20_1000);
  }

  // ------------------------------------------------------------ cache confusion

  /** A cached descent through both levels, from the words the two fetches return. */
  lemma CachedDescendTwoTables(
    root: Word, mem: Memory, cache: Cache, va: Word, directory: Word, middle: Cache, page: Word, last: Cache)
    requires va < 0x40_0000 && cache.Valid() && middle.Valid() && last.Valid()
    requires !GetPdeFields(root).pte && !GetPdeFields(directory).pte
    requires Fetch(mem, cache, 1, RootEntry(root, va)) == (Some(directory), middle)
    requires Fetch(mem, middle, 0, PageEntry(directory, va)) == (Some(page), last)
    ensures CachedDescendFrom(TwoTables(root), mem, cache, va) == (Descent([root, directory, page], AtPage), last)
  {
    EntriesOfTwoTables(root, directory, va);
    hide GetPdeFields, GetPteFields, EntryLocation, Relative, RootEntry, PageEntry, Fetch, CachedDescend;
    var cfg := TwoTables(root);
    CachedStep(cfg, mem, cache, va, 1, [root]);
    CachedStep(cfg, mem, middle, va, 0, [root, directory]);
    CachedPageStop(cfg, mem, last, va, [root, directory, page]);
    assert [root] + [directory] == [root, directory];
    assert [root, directory] + [page] == [root, directory, page];
  }

  /** The cached walk that finishes such a descent. */
  lemma CachedWalkTwoTables(
    root: Word, mem: Memory, cache: Cache, va: Word, directory: Word, middle: Cache, page: Word, last: Cache)
    requires va < 0x40_0000 && cache.Valid() && middle.Valid() && last.Valid()
    requires !GetPdeFields(root).pte && !GetPdeFields(directory).pte
    requires Fetch(mem, cache, 1, RootEntry(root, va)) == (Some(directory), middle)
    requires Fetch(mem, middle, 0, PageEntry(directory, va)) == (Some(page), last)
    requires !(GetPteFields(page).valid && GetPteFields(page).translateFurther)
    ensures WalkWithCache(TwoTables(root), mem, cache, va)
            == (Walked(GetPteFields(page), GetPdeFields(directory).blockFragmentSize + 12), last)
  {
    hide GetPdeFields, GetPteFields, Relative, RootEntry, PageEntry, Fetch, CachedDescendFrom, Finish;
    CachedDescendTwoTables(root, mem, cache, va, directory, middle, page, last);
    FinishAtPage(TwoTables(root), mem, Relative(TwoTables(root), va), root, directory, page);
  }

  /** Two page tables at one numeric address in different apertures: after a walk through the
      first, a walk through the second is answered from the first. */
  lemma SharedTableAddress(root: Word, a: Word, b: Word, p: Word, q: Word, mem: Memory)
    requires var d := GetPdeFields(root); !d.pte && !d.system && d.baseAddress == 0x1000
    requires var d := GetPdeFields(a); !d.pte && d.system && d.baseAddress == 0x2000
    requires var d := GetPdeFields(b); !d.pte && !d.system && d.baseAddress == 0x2000
    requires mem.Read(Location(false, 0x1000)) == Some(a) && mem.Read(Location(false, 0x1008)) == Some(b)
    requires mem.Read(Location(true, 0x2000)) == Some(p) && mem.Read(Location(false, 0x2000)) == Some(q)
    requires !GetPteFields(p).translateFurther && !GetPteFields(q).translateFurther
    ensures var cfg, before, after := TwoTables(root), GetPdeFields(a).blockFragmentSize, GetPdeFields(b).blockFragmentSize;
            var (first, cache) := WalkWithCache(cfg, mem, ZeroCache(), 0);
            && first == Walk(cfg, mem, 0) == Walked(GetPteFields(p), before + 12)
            && Walk(cfg, mem, 0x20_0000) == Walked(GetPteFields(q), after + 12)
            && WalkWithCache(cfg, mem, cache, 0x20_0000).0 == Walked(GetPteFields(p), after + 12)
  {
    hide GetPdeFields, GetPteFields, Walk, WalkWithCache, RootEntry, PageEntry;
    FirstEntries(root);
    FirstEntries(a);
    SecondRootEntries(root);
    SecondRootEntries(b);
    WalkTwoTables(root, mem, 0, a, p);
    WalkTwoTables(root, mem, 0x20_0000, b, q);
    var first := ZeroCache().Fill(1, 0x1000, a);
    var full := first.Fill(0, 0x2000, p);
    CachedWalkTwoTables(root, mem, ZeroCache(), 0, a, first, p, full);
    CachedWalkTwoTables(root, mem, full, 0x20_0000, b, full.Fill(1, 0x1008, b), p, full.Fill(1, 0x1008, b));
  }

  /** A table at address zero is answered from the zeroed cache: a mapped page appears unmapped. */
  lemma TableAtZero(root: Word, a: Word, p: Word, mem: Memory)
    requires var d := GetPdeFields(root); !d.pte && d.system && d.baseAddress == 0
    requires var d := GetPdeFields(0); !d.pte && !d.system && d.baseAddress == 0 && d.blockFragmentSize == 0
    requires var d := GetPdeFields(a); !d.pte && d.system && d.baseAddress == 0x2000 && d.blockFragmentSize == 0
    requires mem.Read(Location(true, 0)) == Some(a) && mem.Read(Location(true, 0x2000)) == Some(p)
    requires GetPteFields(p).valid && !GetPteFields(p).translateFurther && !GetPteFields(0).valid
    ensures Walk(TwoTables(root), mem, 0) == Walked(GetPteFields(p), 12)
    ensures WalkWithCache(TwoTables(root), mem, ZeroCache(), 0).0 == Walked(GetPteFields(0), 12)
  {
    hide GetPdeFields, GetPteFields, Walk, WalkWithCache, RootEntry, PageEntry;
    FirstEntries(root);
    FirstEntries(a);
    FirstEntries(0);
    WalkTwoTables(root, mem, 0, a, p);
    CachedWalkTwoTables(root, mem, ZeroCache(), 0, 0, ZeroCache(), 0, ZeroCache());
  }

  const ZERO_MEMORY: Memory := Memory(map[0 := 0x2002, 0x2000 := 0x5001], map[])

  /** A mapped page reported as unmapped, because its directory lies at address zero. */
  lemma MappedPageLost()
    ensures exists p: Pte, q: Pte ::
              && p.valid && p.baseAddress == 0x5000 && !q.valid
              && Walk(TwoTables(0x2), ZERO_MEMORY, 0) == Walked(p, 12)
              && WalkWithCache(TwoTables(0x2), ZERO_MEMORY, ZeroCache(), 0).0 == Walked(q, 12)
  {
    hide GetPdeFields, GetPteFields, Walk, WalkWithCache;
    PdeByArithmetic(0x2);
    PdeByArithmetic(0);
    PdeByArithmetic(0x2002);
    PteByArithmetic(0x5001);
    PteByArithmetic(0);
    TableAtZero(0x2, 0x2002, 0x5001, ZERO_MEMORY);
  }
}
