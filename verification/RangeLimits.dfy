/** Concrete tables on which a range is translated otherwise than one may expect. */
module RangeLimits {
  import opened Words
  import opened Options
  import opened PageTable
  import opened EntryFormats
  import opened CachedWalk
  import opened Blocks
  import opened Fragments
  import opened RangeResults
  import opened RangeLoop
  import opened ConsecutiveWalks
  import opened EndlessLoops
  import opened CombinedLoops
  import opened Translations
  import opened Limits

  // -------------------------------------------------- two tables at one address

  /** A page of 2 MiB. */
  function Large(va: Word, p: Pte): Fragment {
    Fragment(va, p.baseAddress, 0x20_0000, p)
  }

  lemma LargePages(p: Pte)
    ensures PageOf(0, p, 21) == Large(0, p) && PageOf(0x20_0000, p, 21) == Large(0x20_0000, p)
  {
    hide Pow2, LowBits;
    Pow2Values();
    LowBitsOfZero(21);
    LowBitsValue(0x20_0000, 21);
  }

  /** The first two rounds of a range of 2 MiB and one page more. */
  lemma TwoLargePages(p: Pte, q: Pte)
    requires !p.valid
    ensures var second := Loop(0x20_0000, 0x20_1000, false, Large(0, p), []);
            && Take(Start(0, 0x20_1000), false, Walked(p, 21)) == Running(second)
            && Take(second, false, Walked(q, 21))
               == Running(Loop(0x40_0000, 0x20_1000, false, Large(0x20_0000, q), [Large(0, p)]))
  {
    hide PageOf;
    LargePages(p);
    LargePages(q);
  }

  lemma PlainTwoPages(cfg: TableConfig, mem: Memory, p: Pte, q: Pte)
    requires cfg.Wellformed() && !p.valid
    requires Walk(cfg, mem, 0) == Walked(p, 21) && Walk(cfg, mem, 0x20_0000) == Walked(q, 21)
    ensures PlainlyEndsWith(cfg, mem, 0, 0x20_1000, false, Listed([Large(0, p), Large(0x20_0000, q)]))
  {
    hide Walk, Take;
    TwoLargePages(p, q);
    var start, second := Start(0, 0x20_1000), Loop(0x20_0000, 0x20_1000, false, Large(0, p), []);
    var third := Loop(0x40_0000, 0x20_1000, false, Large(0x20_0000, q), [Large(0, p)]);
    assert [Large(0, p)] + [Large(0x20_0000, q)] == [Large(0, p), Large(0x20_0000, q)];
    assert PlainRounds(cfg, mem, false, third, 1) == Stopped(Listed([Large(0, p), Large(0x20_0000, q)]));
    assert PlainRounds(cfg, mem, false, second, 2) == PlainRounds(cfg, mem, false, third, 1);
    assert PlainRounds(cfg, mem, false, start, 3) == PlainRounds(cfg, mem, false, second, 2);
  }

  lemma CachedTwoPages(cfg: TableConfig, mem: Memory, p: Pte, q: Pte)
    requires cfg.Wellformed() && !p.valid
    requires var (first, cache) := WalkWithCache(cfg, mem, ZeroCache(), 0);
             first == Walked(p, 21) && WalkWithCache(cfg, mem, cache, 0x20_0000).0 == Walked(q, 21)
    ensures EndsWith(cfg, mem, 0, 0x20_1000, false, Listed([Large(0, p), Large(0x20_0000, q)]))
  {
    hide WalkWithCache, Take, ZeroCache;
    TwoLargePages(p, q);
    var start, second := Start(0, 0x20_1000), Loop(0x20_0000, 0x20_1000, false, Large(0, p), []);
    var third := Loop(0x40_0000, 0x20_1000, false, Large(0x20_0000, q), [Large(0, p)]);
    var one := CachedRound(cfg, mem, false, start, ZeroCache()).1;
    var two := CachedRound(cfg, mem, false, second, one).1;
    assert [Large(0, p)] + [Large(0x20_0000, q)] == [Large(0, p), Large(0x20_0000, q)];
    assert CachedRounds(cfg, mem, false, third, two, 1) == Stopped(Listed([Large(0, p), Large(0x20_0000, q)]));
    assert CachedRounds(cfg, mem, false, second, one, 2) == CachedRounds(cfg, mem, false, third, two, 1);
    assert CachedRounds(cfg, mem, false, start, ZeroCache(), 3) == CachedRounds(cfg, mem, false, second, one, 2);
  }

  const SYSTEM_DIRECTORY: Word := 0x4800_0000_0000_2002
  const VIDEO_DIRECTORY: Word := 0x4800_0000_0000_2000

  /** The first entry of a table in either aperture, both at 0x2000. */
  const TWIN_MEMORY: Memory :=
    Memory(map[0x2000 := 0], map[0x1000 := SYSTEM_DIRECTORY, 0x1008 := VIDEO_DIRECTORY, 0x2000 := 0x60_0001])

  lemma TwinEntries()
    ensures var d := GetPdeFields(0x1000); !d.pte && !d.system && d.baseAddress == 0x1000
    ensures var d := GetPdeFields(SYSTEM_DIRECTORY);
            !d.pte && d.system && d.baseAddress == 0x2000 && d.blockFragmentSize == 9
    ensures var d := GetPdeFields(VIDEO_DIRECTORY);
            !d.pte && !d.system && d.baseAddress == 0x2000 && d.blockFragmentSize == 9
    ensures !GetPteFields(0).valid && !GetPteFields(0).translateFurther
    ensures var p := GetPteFields(0x60_0001); p.valid && !p.translateFurther && p.baseAddress == 0x60_0000
  {
    hide GetPdeFields, GetPteFields;
    PdeByArithmetic(0x1000);
    PdeByArithmetic(SYSTEM_DIRECTORY);
    PdeByArithmetic(VIDEO_DIRECTORY);
    PteByArithmetic(0);
    PteByArithmetic(0x60_0001);
  }

  /** Tables at one numeric address in both apertures: a range over both is listed without an error,
      and its second block, which is mapped, is listed as invalid. */
  lemma AperturesConfused()
    ensures exists p: Pte, q: Pte ::
              && !p.valid && q.valid && q.baseAddress == 0x60_0000
              && EndsWith(TwoTables(0x1000), TWIN_MEMORY, 0, 0x20_1000, false, Listed([Large(0, p), Large(0x20_0000, p)]))
              && PlainlyEndsWith(TwoTables(0x1000), TWIN_MEMORY, 0, 0x20_1000, false,
                                 Listed([Large(0, p), Large(0x20_0000, q)]))
  {
    hide GetPdeFields, GetPteFields, Walk, WalkWithCache, EndsWith, PlainlyEndsWith;
    var p, q := GetPteFields(0), GetPteFields(0x60_0001);
    TwinEntries();
    SharedTableAddress(0x1000, SYSTEM_DIRECTORY, VIDEO_DIRECTORY, 0, 0x60_0001, TWIN_MEMORY);
    PlainTwoPages(TwoTables(0x1000), TWIN_MEMORY, p, q);
    CachedTwoPages(TwoTables(0x1000), TWIN_MEMORY, p, p);
  }

  // ------------------------------------------------------ one page mapped twice

  lemma {:induction false} SameLowBits(a: nat, b: nat, n: nat, m: nat)
    requires m <= n && LowBits(a, n) == LowBits(b, n)
    ensures LowBits(a, m) == LowBits(b, m)
  {
    if m > 0 {
      SameLowBits(a / 2, b / 2, n - 1, m - 1);
    }
  }

  lemma {:induction false} SameLowField(a: Word, b: Word, n: nat, msb: nat, lsb: nat)
    requires lsb <= msb < n <= 64 && LowBits(a, n) == LowBits(b, n)
    ensures GetBits(a, msb, lsb) == GetBits(b, msb, lsb)
  {
    if lsb == 0 {
      SameLowBits(a, b, n, msb + 1);
    } else {
      SameLowField(a / 2, b / 2, n - 1, msb - 1, lsb - 1);
    }
  }

  lemma {:induction false} EmptyHighField(a: Word, msb: nat, lsb: nat)
    requires lsb <= msb < 64 && a < Pow2(lsb)
    ensures GetBits(a, msb, lsb) == 0
  {
    if lsb == 0 {
      LowBitsOfZero(msb + 1);
    } else {
      EmptyHighField(a / 2, msb - 1, lsb - 1);
    }
  }

  /** Page entries that differ in the page base only have the same attributes. */
  lemma SameAttributesIfSameEnds(a: Word, b: Word)
    requires a < Pow2(48) && b < Pow2(48) && LowBits(a, 12) == LowBits(b, 12)
    ensures SameAttributes(GetPteFields(a), GetPteFields(b))
  {
    hide GetBits, GetBit, LowBits, Pow2, Shl;
    forall bit: nat | bit < 12 || 48 <= bit < 64 ensures GetBit(a, bit) == GetBit(b, bit) {
      GetBitIsField(a, bit);
      GetBitIsField(b, bit);
      if bit < 12 {
        SameLowField(a, b, 12, bit, bit);
      } else {
        Pow2Mono(48, bit);
        EmptyHighField(a, bit, bit);
        EmptyHighField(b, bit, bit);
      }
    }
    forall lsb: nat, msb: nat | lsb <= msb < 12 ensures GetBits(a, msb, lsb) == GetBits(b, msb, lsb) {
      SameLowField(a, b, 12, msb, lsb);
    }
    forall lsb: nat, msb: nat | 48 <= lsb <= msb < 64 ensures GetBits(a, msb, lsb) == GetBits(b, msb, lsb) == 0 {
      Pow2Mono(48, lsb);
      EmptyHighField(a, msb, lsb);
      EmptyHighField(b, msb, lsb);
    }
  }

  ghost predicate SmallWords(mem: Memory) {
    && (forall a | a in mem.systemMem :: GetPdeFields(mem.systemMem[a]).blockFragmentSize == 0)
    && (forall a | a in mem.videoMem :: GetPdeFields(mem.videoMem[a]).blockFragmentSize == 0)
  }

  lemma {:induction false} DescentReadsSmallWords(cfg: TableConfig, mem: Memory, rel: Word, level: int, words: seq<Word>)
    requires cfg.Wellformed() && -1 <= level <= cfg.depth && |words| > 0 && SmallWords(mem)
    requires forall w | w in words :: GetPdeFields(w).blockFragmentSize == 0
    ensures forall w | w in Descend(cfg, mem, rel, level, words).words :: GetPdeFields(w).blockFragmentSize == 0
    decreases level + 1
  {
    hide GetPdeFields, EntryLocation;
    if level >= 0 {
      var next := mem.Read(EntryLocation(cfg, rel, level, GetPdeFields(words[|words| - 1])));
      if next.Some? {
        DescentReadsSmallWords(cfg, mem, rel, level - 1, words + [next.value]);
      }
    }
  }

  lemma SmallWordsFit(cfg: TableConfig, mem: Memory)
    requires cfg.Wellformed() && SmallWords(mem) && GetPdeFields(cfg.baseAddr).blockFragmentSize == 0
    requires StartAligned(cfg)
    ensures FittingTable(cfg, mem) && UniformTable(cfg, mem)
  {
    hide GetPdeFields, Descend, SmallWords, WalkedAlike, LowBits;
    forall va: Word ensures FragmentFits(cfg, DescendFrom(cfg, mem, va)) {
      DescentReadsSmallWords(cfg, mem, Relative(cfg, va), cfg.depth, [cfg.baseAddr]);
    }
    AlignedTableIsUniform(cfg, mem);
  }

  /** Tables with one directory of 4 KiB pages. */
  lemma PagesFit(mem: Memory)
    requires SmallWords(mem)
    ensures FittingTable(TwoTables(0x1000), mem) && UniformTable(TwoTables(0x1000), mem)
  {
    hide GetPdeFields, LowBits, SmallWords, WalkedAlike, BlockFits;
    PdeByArithmetic(0x1000);
    LowBitsOfZero(21);
    SmallWordsFit(TwoTables(0x1000), mem);
  }

  /** A root of two entries over slots of 2 MiB. */
  predicate TwoSlots(cfg: TableConfig) {
    && cfg.depth == 1 && cfg.blockSize == 0 && cfg.fbOffset == 0
    && Plus(Minus(cfg.endAddr, cfg.startAddr), 0x1000) == 0x40_0000
  }

  lemma SlotsOfTwo(cfg: TableConfig, rel: Word)
    requires TwoSlots(cfg)
    ensures SlotIndex(LevelAt(cfg, 1), rel) < 2 && SlotIndex(LevelAt(cfg, 0), rel) < 512
  {
    hide And, Shr, Pow2, LowBits, Plus, Minus;
    Pow2Values();
    FieldPowers();
    MinusFits(2, 1);
    MinusFits(512, 1);
    ShrValue(0x40_0000, 21);
    AndLowMask(Shr(rel, 21), 1);
    AndLowMask(Shr(rel, 12), 9);
  }

  lemma EntryOfSlot(cfg: TableConfig, rel: Word, level: nat, pde: Pde) returns (k: nat)
    requires TwoSlots(cfg) && level <= 1 && !pde.system && pde.baseAddress <= 0x2000
    ensures k < (if level == 1 then 2 else 512)
    ensures EntryLocation(cfg, rel, level, pde) == Location(false, pde.baseAddress + 8 * k)
  {
    SlotsOfTwo(cfg, rel);
    hide SlotIndex, LevelAt, Plus, Minus, Times, TwoSlots;
    k := SlotIndex(LevelAt(cfg, level), rel);
    MinusFits(pde.baseAddress, 0);
    TimesFits(k, 8);
    PlusFits(8 * k, pde.baseAddress);
  }

  lemma EntryBelowRoot(cfg: TableConfig, mem: Memory, rel: Word, root: Word)
    requires cfg.Wellformed() && cfg.depth == 1 && !GetPdeFields(root).pte
    ensures EntryAt(cfg, mem, rel, 1, [root], 1) == Some(EntryLocation(cfg, rel, 1, GetPdeFields(root)))
    ensures var e := mem.Read(EntryLocation(cfg, rel, 1, GetPdeFields(root)));
            EntryAt(cfg, mem, rel, 1, [root], 0)
            == if e.None? || GetPdeFields(e.value).pte then None
               else Some(EntryLocation(cfg, rel, 0, GetPdeFields(e.value)))
  {
    hide GetPdeFields, EntryLocation;
  }

  /** A table with a root and one directory, both in video memory, uses no entry at address zero. */
  lemma PageEntries(mem: Memory, va: Word, level: nat)
    requires mem.Read(Location(false, 0x1000)) == Some(0x2000) && mem.Read(Location(false, 0x1008)) == None
    requires level <= 1 && TableEntry(TwoTables(0x1000), mem, va, level).Some?
    ensures TableEntry(TwoTables(0x1000), mem, va, level).value.addr != 0
  {
    hide GetPdeFields, EntryLocation, Relative, EntryAt, TwoSlots;
    RootEntries(mem, Relative(TwoTables(0x1000), va));
    EntryBelowRoot(TwoTables(0x1000), mem, Relative(TwoTables(0x1000), va), 0x1000);
  }

  lemma RootEntries(mem: Memory, rel: Word)
    requires mem.Read(Location(false, 0x1000)) == Some(0x2000) && mem.Read(Location(false, 0x1008)) == None
    ensures !GetPdeFields(0x1000).pte && !GetPdeFields(0x2000).pte
    ensures EntryLocation(TwoTables(0x1000), rel, 1, GetPdeFields(0x1000)).addr != 0
    ensures EntryLocation(TwoTables(0x1000), rel, 0, GetPdeFields(0x2000)).addr != 0
    ensures var e := mem.Read(EntryLocation(TwoTables(0x1000), rel, 1, GetPdeFields(0x1000))); e in {Some(0x2000), None}
  {
    hide GetPdeFields, EntryLocation;
    SmallEntries();
    var k := EntryOfSlot(TwoTables(0x1000), rel, 1, GetPdeFields(0x1000));
    var _ := EntryOfSlot(TwoTables(0x1000), rel, 0, GetPdeFields(0x2000));
    assert k == 0 || k == 1;
    hide TwoSlots;
  }

  /** The loop reads such a table as the plain walk does. */
  lemma PagesRead(mem: Memory)
    requires SmallWords(mem)
    requires mem.Read(Location(false, 0x1000)) == Some(0x2000) && mem.Read(Location(false, 0x1008)) == None
    ensures ReadsTable(TwoTables(0x1000), mem)
  {
    hide TableEntry, FittingTable, CacheTransparent, SmallWords, WalkedAlike;
    PagesFit(mem);
    var cfg := TwoTables(0x1000);
    forall va: Word, level: nat | level <= cfg.depth && TableEntry(cfg, mem, va, level).Some?
      ensures TableEntry(cfg, mem, va, level).value.addr != 0
    {
      PageEntries(mem, va, level);
    }
  }

  lemma SmallPageAt(cfg: TableConfig, mem: Memory, va: Word, p: Pte)
    requires cfg.Wellformed() && Walk(cfg, mem, va).Walked? && Walk(cfg, mem, va).shift == 12
    requires Walk(cfg, mem, va).pte == p
    ensures var page := PageAt(cfg, mem, va);
            page.va == va - va % 0x1000 && page.pa == p.baseAddress && page.size == 0x1000 && page.flags == p
  {
    hide Walk, PageAt;
    SmallPage(cfg, mem, va);
    PageReports(cfg, mem, va);
  }

  lemma PageReports(cfg: TableConfig, mem: Memory, va: Word)
    requires cfg.Wellformed() && Walk(cfg, mem, va).Walked?
    ensures PageAt(cfg, mem, va).pa == Walk(cfg, mem, va).pte.baseAddress
    ensures PageAt(cfg, mem, va).flags == Walk(cfg, mem, va).pte
  {
    hide Walk, Pow2, BlockStart;
  }

  /** Page A, page B and page A again, with B physically after A. */
  predicate Aliased(a: Fragment, b: Fragment, c: Fragment) {
    && a.flags.valid && b.flags.valid && SameAttributes(a.flags, b.flags)
    && a == Fragment(0, 0x5000, 0x1000, a.flags)
    && b == Fragment(0x1000, 0x6000, 0x1000, b.flags)
    && c == Fragment(0x2000, 0x5000, 0x1000, a.flags)
  }

  /** Neighbours do not overlap, but the run of A and B overlaps the second A. */
  lemma AliasedTests(a: Fragment, b: Fragment, c: Fragment)
    requires Aliased(a, b, c)
    ensures !FragmentsOverlap(a, b) && !FragmentsOverlap(b, c) && FragmentsOverlap(Grow(a, b), c)
    ensures IsContiguous(a, b) == Contiguous
  {
    hide SameAttributes;
  }

  lemma AliasedRange(cfg: TableConfig, mem: Memory)
    requires cfg.Wellformed()
    requires Walk(cfg, mem, 0).Walked? && Walk(cfg, mem, 0x1000).Walked? && Walk(cfg, mem, 0x2000).Walked?
    requires Aliased(PageAt(cfg, mem, 0), PageAt(cfg, mem, 0x1000), PageAt(cfg, mem, 0x2000))
    ensures Unwrapped(cfg, mem, 0, 0x3000)
    ensures TranslateRange(cfg, mem, 0, 0x3000, false).Listed?
    ensures TranslateRange(cfg, mem, 0, 0x3000, true) == Rejected
  {
    hide Walk, PageAt, SameAttributes, FragmentsOverlap, IsContiguous, Grow, TranslateRange;
    UnwrappedRange(cfg, mem, 0, 0x3000, false);
    UnwrappedRange(cfg, mem, 0, 0x3000, true);
    var a, b, c := PageAt(cfg, mem, 0), PageAt(cfg, mem, 0x1000), PageAt(cfg, mem, 0x2000);
    AliasedTests(a, b, c);
    assert RangeFrom(cfg, mem, 0x3000, 0x3000, c, false) == Listed([c]);
    assert RangeFrom(cfg, mem, 0x2000, 0x3000, b, false) == Listed([b] + [c]);
    assert RangeFrom(cfg, mem, 0x2000, 0x3000, Grow(a, b), true) == Rejected;
  }

  const ALIASED_MEMORY: Memory :=
    Memory(map[], map[0x1000 := 0x2000, 0x2000 := 0x5001, 0x2008 := 0x6001, 0x2010 := 0x5001])

  /** A range that is listed page by page and rejected with combining. */
  lemma CombiningRejects()
    ensures UniformTable(TwoTables(0x1000), ALIASED_MEMORY)
    ensures Unwrapped(TwoTables(0x1000), ALIASED_MEMORY, 0, 0x3000)
    ensures exists list :: EndsWith(TwoTables(0x1000), ALIASED_MEMORY, 0, 0x3000, false, Listed(list))
    ensures EndsWith(TwoTables(0x1000), ALIASED_MEMORY, 0, 0x3000, true, Rejected)
  {
    hide GetPdeFields, GetPteFields, Walk, WalkedAlike, TranslateRange, SameAttributes, SmallWords, Unwrapped;
    hide RootEntry, PageEntry, PageAt, FittingTable, ReadsTable, EndsWith;
    SmallEntries();
    SmallAttributes();
    SmallMemories();
    PagesFit(ALIASED_MEMORY);
    PagesRead(ALIASED_MEMORY);
    FirstEntries(0x1000);
    FirstEntries(0x2000);
    WalkTwoTables(0x1000, ALIASED_MEMORY, 0, 0x2000, 0x5001);
    WalkTwoTables(0x1000, ALIASED_MEMORY, 0x1000, 0x2000, 0x6001);
    WalkTwoTables(0x1000, ALIASED_MEMORY, 0x2000, 0x2000, 0x5001);
    SmallPageAt(TwoTables(0x1000), ALIASED_MEMORY, 0, GetPteFields(0x5001));
    SmallPageAt(TwoTables(0x1000), ALIASED_MEMORY, 0x1000, GetPteFields(0x6001));
    SmallPageAt(TwoTables(0x1000), ALIASED_MEMORY, 0x2000, GetPteFields(0x5001));
    AliasedRange(TwoTables(0x1000), ALIASED_MEMORY);
    LoopResult(TwoTables(0x1000), ALIASED_MEMORY, 0, 0x3000, false);
    LoopResult(TwoTables(0x1000), ALIASED_MEMORY, 0, 0x3000, true);
  }

  /** The entries of the tables below, decoded. */
  lemma SmallEntries()
    ensures var d := GetPdeFields(0x1000); !d.pte && !d.system && d.baseAddress == 0x1000
    ensures var d := GetPdeFields(0x2000); !d.pte && !d.system && d.baseAddress == 0x2000 && d.blockFragmentSize == 0
    ensures var p := GetPteFields(0x5001); p.valid && !p.translateFurther && p.baseAddress == 0x5000
    ensures var p := GetPteFields(0x6001); p.valid && !p.translateFurther && p.baseAddress == 0x6000
  {
    hide GetPdeFields, GetPteFields;
    PdeByArithmetic(0x1000);
    PdeByArithmetic(0x2000);
    PteByArithmetic(0x5001);
    PteByArithmetic(0x6001);
  }

  lemma NoFragments(raw: Word)
    requires raw < 0x800_0000_0000_0000
    ensures GetPdeFields(raw).blockFragmentSize == 0
  {
    hide GetPdeFields;
    PdeByArithmetic(raw);
  }

  lemma SmallMemories()
    ensures SmallWords(ALIASED_MEMORY) && SmallWords(TWICE_MEMORY) && SmallWords(LONE_MEMORY)
  {
    hide GetPdeFields;
    NoFragments(0x2000);
    NoFragments(0x5001);
    NoFragments(0x6001);
  }

  lemma SmallAttributes()
    ensures SameAttributes(GetPteFields(0x5001), GetPteFields(0x6001))
  {
    hide GetPteFields, LowBits, Pow2, SameAttributes;
    Pow2Values();
    Pow2Mono(32, 48);
    LowBitsValue(0x5001, 12);
    LowBitsValue(0x6001, 12);
    SameAttributesIfSameEnds(0x5001, 0x6001);
  }

  // ------------------------------------------------- one address, and the page after it

  /** The range that is asked for to translate an address 16 bytes into the first page. */
  lemma UnalignedRange(cfg: TableConfig, mem: Memory, p: Pte)
    requires cfg.Wellformed() && Walk(cfg, mem, 0x10) == Walked(p, 12)
    ensures ToPageEnd(0x10) == 0xff0 && Unwrapped(cfg, mem, 0x10, 0xff0)
    ensures PageAt(cfg, mem, 0x10) == Fragment(0, p.baseAddress, 0x1000, p)
    ensures TranslateRange(cfg, mem, 0x10, 0xff0, false)
            == RangeFrom(cfg, mem, 0x1000, 0x1010, PageAt(cfg, mem, 0x10), false)
  {
    hide Walk, PageAt, ToPageEnd, RangeFrom, TranslateRange;
    SmallPageAt(cfg, mem, 0x10, p);
    UnwrappedRange(cfg, mem, 0x10, 0xff0, false);
  }

  /** Two virtual pages on one physical page. */
  const TWICE_MEMORY: Memory := Memory(map[], map[0x1000 := 0x2000, 0x2000 := 0x5001, 0x2008 := 0x5001])

  /** A valid address on an ordinary page is not translated, because the next virtual page maps the
      same physical page. */
  lemma NextPageOverlaps()
    ensures UniformTable(TwoTables(0x1000), TWICE_MEMORY)
    ensures Unwrapped(TwoTables(0x1000), TWICE_MEMORY, 0x10, ToPageEnd(0x10))
    ensures exists p: Pte ::
              p.valid && p.baseAddress == 0x5000 && Walk(TwoTables(0x1000), TWICE_MEMORY, 0x10) == Walked(p, 12)
    ensures EndsWith(TwoTables(0x1000), TWICE_MEMORY, 0x10, ToPageEnd(0x10), false, Rejected)
  {
    hide GetPdeFields, GetPteFields, Walk, WalkedAlike, TranslateRange, SameAttributes, SmallWords, Unwrapped;
    hide RootEntry, PageEntry, PageAt, ToPageEnd, FittingTable, ReadsTable, EndsWith;
    var cfg, p := TwoTables(0x1000), GetPteFields(0x5001);
    SmallEntries();
    SmallMemories();
    PagesFit(TWICE_MEMORY);
    PagesRead(TWICE_MEMORY);
    FirstEntries(0x1000);
    FirstEntries(0x2000);
    WalkTwoTables(0x1000, TWICE_MEMORY, 0x10, 0x2000, 0x5001);
    WalkTwoTables(0x1000, TWICE_MEMORY, 0x1000, 0x2000, 0x5001);
    UnalignedRange(cfg, TWICE_MEMORY, p);
    SmallPageAt(cfg, TWICE_MEMORY, 0x1000, p);
    LoopResult(TwoTables(0x1000), TWICE_MEMORY, 0x10, ToPageEnd(0x10), false);
  }

  /** A page whose neighbour's entry cannot be read. */
  const LONE_MEMORY: Memory := Memory(map[], map[0x1000 := 0x2000, 0x2000 := 0x5001])

  lemma WalkUnreadable(root: Word, mem: Memory, va: Word, directory: Word)
    requires va < 0x40_0000 && !GetPdeFields(root).pte && !GetPdeFields(directory).pte
    requires mem.Read(RootEntry(root, va)) == Some(directory) && mem.Read(PageEntry(directory, va)) == None
    ensures Walk(TwoTables(root), mem, va) == Exited
  {
    hide GetPdeFields, GetPteFields, EntryLocation, RootEntry, PageEntry;
    EntriesOfTwoTables(root, directory, va);
    var cfg := TwoTables(root);
    assert Descend(cfg, mem, va, 0, [root, directory]) == Descent([root, directory], Fault);
    assert [root] + [directory] == [root, directory];
    assert DescendFrom(cfg, mem, va) == Descent([root, directory], Fault);
  }

  /** A valid address on an ordinary page ends the process, because the entry of the next page
      cannot be read. */
  lemma NextPageUnreadable()
    ensures UniformTable(TwoTables(0x1000), LONE_MEMORY)
    ensures Unwrapped(TwoTables(0x1000), LONE_MEMORY, 0x10, ToPageEnd(0x10))
    ensures exists p: Pte ::
              p.valid && p.baseAddress == 0x5000 && Walk(TwoTables(0x1000), LONE_MEMORY, 0x10) == Walked(p, 12)
    ensures EndsWith(TwoTables(0x1000), LONE_MEMORY, 0x10, ToPageEnd(0x10), false, Terminated)
  {
    hide GetPdeFields, GetPteFields, Walk, WalkedAlike, TranslateRange, SameAttributes, SmallWords, Unwrapped;
    hide RootEntry, PageEntry, PageAt, ToPageEnd, FittingTable, ReadsTable, EndsWith;
    SmallEntries();
    SmallMemories();
    PagesFit(LONE_MEMORY);
    PagesRead(LONE_MEMORY);
    FirstEntries(0x1000);
    FirstEntries(0x2000);
    WalkTwoTables(0x1000, LONE_MEMORY, 0x10, 0x2000, 0x5001);
    WalkUnreadable(0x1000, LONE_MEMORY, 0x1000, 0x2000);
    UnalignedRange(TwoTables(0x1000), LONE_MEMORY, GetPteFields(0x5001));
    LoopResult(TwoTables(0x1000), LONE_MEMORY, 0x10, ToPageEnd(0x10), false);
  }

  // ------------------------------------------------------------- the end of the space

  /** Whatever the table, a range that reaches past 2^64 is listed as one empty fragment. */
  lemma RangePastTheEnd(cfg: TableConfig, mem: Memory, combine: bool)
    requires cfg.Wellformed()
    ensures !Unwrapped(cfg, mem, 0x2000, 0xFFFF_FFFF_FFFF_F000)
    ensures TranslateRange(cfg, mem, 0x2000, 0xFFFF_FFFF_FFFF_F000, combine) == Listed([ZeroFragment()])
  {
    hide Walk, TranslateRange;
    WrappedRange(cfg, mem, 0x2000, 0xFFFF_FFFF_FFFF_F000, combine);
  }

  /** A root of two entries over slots of 2 MiB, at the top of the address space. */
  const TOP: TableConfig := TableConfig(1, 0, 0xFFFF_FFFF_FFC0_0000, 0x1000, 0xFFFF_FFFF_FFFF_F000, 0)
  const TOP_MEMORY: Memory := Memory(map[], map[0x1008 := FIRST_LARGE])

  lemma TopSlot()
    ensures Relative(TOP, 0xFFFF_FFFF_FFE0_0000) == 0x20_0000 && SlotIndex(LevelAt(TOP, 1), 0x20_0000) == 1
    ensures StartAligned(TOP)
  {
    hide And, Shr, Pow2, LowBits;
    Pow2Values();
    FieldPowers();
    ShrValue(0x40_0000, 21);
    ShrValue(0x20_0000, 21);
    AndLowMask(1, 1);
    LowBitsValue(0xFFFF_FFFF_FFC0_0000, 21);
  }

  lemma TopEntry()
    ensures EntryLocation(TOP, Relative(TOP, 0xFFFF_FFFF_FFE0_0000), 1, GetPdeFields(0x1000)) == Location(false, 0x1008)
  {
    hide GetPdeFields, SlotIndex, LevelAt, Relative, StartAligned;
    TopSlot();
    EntryOffsets();
    PdeByArithmetic(0x1000);
  }

  lemma TopPage(mem: Memory, va: Word, p: Pte)
    requires 0xFFFF_FFFF_FFE0_0000 <= va && Walk(TOP, mem, va) == Walked(p, 21)
    ensures PageAt(TOP, mem, va) == Large(0xFFFF_FFFF_FFE0_0000, p)
  {
    hide Walk, Pow2, LowBits;
    Pow2Values();
    LowBitsValue(va, 21);
    DivModUnique(va, 0x20_0000, 0x7FF_FFFF_FFFF, va - 0xFFFF_FFFF_FFE0_0000);
  }

  /** A range of one 4 KiB page at the start of the last 2 MiB of the address space, which is one
      valid page: after it the cursor is zero, and below the end of the range. */
  lemma CursorWraps(combine: bool)
    ensures exists p: Pte :: p.valid && Walk(TOP, TOP_MEMORY, 0xFFFF_FFFF_FFE0_0000) == Walked(p, 21)
    ensures Unwrapped(TOP, TOP_MEMORY, 0xFFFF_FFFF_FFE0_0000, 0x1000)
    ensures TranslateRange(TOP, TOP_MEMORY, 0xFFFF_FFFF_FFE0_0000, 0x1000, combine) == TopReached
  {
    hide GetPdeFields, GetPteFields, Walk, PageAt, EntryLocation, Relative;
    TopEntry();
    ShiftedEntries();
    WalkLargePage(TOP, TOP_MEMORY, 0xFFFF_FFFF_FFE0_0000, FIRST_LARGE);
    TopPage(TOP_MEMORY, 0xFFFF_FFFF_FFE0_0000, GetPteFields(FIRST_LARGE));
    UnwrappedRange(TOP, TOP_MEMORY, 0xFFFF_FFFF_FFE0_0000, 0x1000, combine);
    hide TranslateRange;
  }

  // ------------------------------------------------------------------ no end at all

  /** An invalid page in both slots of the last directory. */
  const NO_PAGE: Word := 0x40_0000_0000_0000
  const IDLE_MEMORY: Memory := Memory(map[], map[0x1000 := NO_PAGE, 0x1008 := NO_PAGE])

  lemma IdleEntries()
    ensures var d := GetPdeFields(0x1000); !d.pte && !d.system && d.baseAddress == 0x1000
    ensures GetPdeFields(NO_PAGE).pte && !GetPteFields(NO_PAGE).valid
    ensures TwoSlots(TOP)
  {
    hide GetPdeFields, GetPteFields;
    PdeByArithmetic(0x1000);
    PdeByArithmetic(NO_PAGE);
    PteByArithmetic(NO_PAGE);
  }

  /** Every address is walked to an invalid page of 2 MiB. */
  lemma IdleWalk(va: Word)
    ensures Walk(TOP, IDLE_MEMORY, va) == Walked(GetPteFields(NO_PAGE), 21)
    ensures DescendFrom(TOP, IDLE_MEMORY, va).stop == AtDirectory(0)
    ensures forall level: nat | level <= 1 && TableEntry(TOP, IDLE_MEMORY, va, level).Some? ::
              TableEntry(TOP, IDLE_MEMORY, va, level).value.addr != 0
  {
    hide GetPdeFields, GetPteFields, EntryLocation, Relative, TwoSlots, Walk, Descend, EntryAt;
    IdleEntries();
    var rel := Relative(TOP, va);
    var k := EntryOfSlot(TOP, rel, 1, GetPdeFields(0x1000));
    assert k == 0 || k == 1;
    EntryBelowRoot(TOP, IDLE_MEMORY, rel, 0x1000);
    WalkLargePage(TOP, IDLE_MEMORY, va, NO_PAGE);
  }

  lemma IdleFits()
    ensures FittingTable(TOP, IDLE_MEMORY) && UniformTable(TOP, IDLE_MEMORY)
  {
    hide Walk, WalkedAlike, BlockFits, DescendFrom, TableEntry, StartAligned;
    forall va: Word ensures FragmentFits(TOP, DescendFrom(TOP, IDLE_MEMORY, va)) {
      IdleWalk(va);
    }
    TopSlot();
    AlignedTableIsUniform(TOP, IDLE_MEMORY);
  }

  lemma IdleReads()
    ensures ReadsTable(TOP, IDLE_MEMORY)
  {
    hide Walk, DescendFrom, TableEntry, FittingTable, CacheTransparent, UniformTable;
    IdleFits();
    forall va: Word, level: nat | level <= 1 && TableEntry(TOP, IDLE_MEMORY, va, level).Some?
      ensures TableEntry(TOP, IDLE_MEMORY, va, level).value.addr != 0
    {
      IdleWalk(va);
    }
  }

  lemma IdleIsUnmapped()
    ensures NothingMapped(TOP, IDLE_MEMORY)
  {
    hide Walk, DescendFrom, TableEntry, GetPteFields, GetPdeFields, TwoSlots;
    IdleEntries();
    forall va: Word ensures UnmappedAt(TOP, IDLE_MEMORY, va) {
      IdleWalk(va);
    }
  }

  /** A range of one 4 KiB page in the last block does not end below it. */
  lemma IdleRange()
    ensures Unwrapped(TOP, IDLE_MEMORY, 0xFFFF_FFFF_FFE0_0000, 0x1000)
    ensures !StopsBelowTop(TOP, IDLE_MEMORY, 0xFFFF_FFFF_FFE0_0000, 0x1000)
  {
    hide Walk, PageAt, DescendFrom, TableEntry, GetPteFields;
    IdleWalk(0xFFFF_FFFF_FFE0_0000);
    IdleWalk(0xFFFF_FFFF_FFE0_0fff);
    TopPage(IDLE_MEMORY, 0xFFFF_FFFF_FFE0_0000, GetPteFields(NO_PAGE));
    TopPage(IDLE_MEMORY, 0xFFFF_FFFF_FFE0_0fff, GetPteFields(NO_PAGE));
  }

  /** On a table without a valid page, the loop over a page in the last 2 MiB of the address space
      never ends: its cursor comes around to the same block again and again. */
  lemma EndlessRange(combine: bool)
    ensures NothingMapped(TOP, IDLE_MEMORY) && Unwrapped(TOP, IDLE_MEMORY, 0xFFFF_FFFF_FFE0_0000, 0x1000)
    ensures !Ends(TOP, IDLE_MEMORY, 0xFFFF_FFFF_FFE0_0000, 0x1000, combine)
  {
    hide UniformTable, ReadsTable, NothingMapped, EndsWith, PlainlyEndsWith, Unwrapped, StopsBelowTop, FittingTable;
    IdleFits();
    IdleReads();
    IdleIsUnmapped();
    IdleRange();
    UnmappedRangeIsEndless(TOP, IDLE_MEMORY, 0xFFFF_FFFF_FFE0_0000, 0x1000, combine);
    forall r ensures !EndsWith(TOP, IDLE_MEMORY, 0xFFFF_FFFF_FFE0_0000, 0x1000, combine, r) {
      LoopReadsTable(TOP, IDLE_MEMORY, 0xFFFF_FFFF_FFE0_0000, 0x1000, combine, r);
    }
  }
}
