/** The plain walk in the words of memory: which words it reads and what it reports, in plain
    arithmetic. */
module WalkWords {
  import opened Words
  import opened Options
  import opened PageTable
  import opened EntryFormats

  // ---------------------------------------------------------------- one entry

  /** A directory entry that is itself a page entry. */
  predicate IsPageEntry(raw: Word) {
    raw / 0x40_0000_0000_0000 % 2 == 1
  }

  /** The table below the entry is in system memory. */
  predicate InSystem(raw: Word) {
    raw / 2 % 2 == 1
  }

  function TableBase(raw: Word): Word {
    raw / 0x40 % 0x400_0000_0000 * 0x40
  }

  /** Number of the slot of `va` at a level, counted through all tables of the level. */
  function SlotNumber(cfg: TableConfig, va: Word, level: nat): int {
    (va - cfg.startAddr) % TWO64 / Pow2(cfg.blockSize + 12 + 9 * level)
  }

  /** How many slots the root table has. */
  function RootSlots(cfg: TableConfig): int {
    (cfg.endAddr - cfg.startAddr + 0x1000) % TWO64 / Pow2(cfg.blockSize + 12 + 9 * cfg.depth)
  }

  /** The index in the table: tables below the root have 512 entries; the root's index is masked. */
  function Index(cfg: TableConfig, va: Word, level: nat): int {
    hide Pow2;
    Nonnegative(cfg, va, level);
    if level < cfg.depth then SlotNumber(cfg, va, level) % 512
    else And(SlotNumber(cfg, va, level), (RootSlots(cfg) - 1) % TWO64)
  }

  lemma Nonnegative(cfg: TableConfig, va: Word, level: nat)
    ensures 0 <= SlotNumber(cfg, va, level) < TWO64 && 0 <= RootSlots(cfg) < TWO64
  {
    hide Pow2;
    Quotient((va - cfg.startAddr) % TWO64, Pow2(cfg.blockSize + 12 + 9 * level));
    Quotient((cfg.endAddr - cfg.startAddr + 0x1000) % TWO64, Pow2(cfg.blockSize + 12 + 9 * cfg.depth));
  }

  lemma Quotient(x: Word, p: nat)
    requires 0 < p
    ensures 0 <= x / p <= x
  {
    var q := x / p;
    DivMod(x, p);
    if q < 0 {
      MulMono(q, -1, p);
    } else {
      MulMono(1, p, q);
    }
  }

  /** Where the entry below a directory entry is read. Only in video memory is the frame-buffer offset
      taken off. */
  function SlotAddress(cfg: TableConfig, va: Word, level: nat, raw: Word): Word {
    (8 * Index(cfg, va, level) + TableBase(raw) - (if InSystem(raw) then 0 else cfg.fbOffset)) % TWO64
  }

  function ReadAt(mem: Memory, system: bool, addr: Word): Option<Word> {
    if system then (if addr in mem.systemMem then Some(mem.systemMem[addr]) else None)
    else if addr in mem.videoMem then Some(mem.videoMem[addr]) else None
  }

  /** The geometry of a level: its slots, how many, and the bytes that the table spans. */
  lemma LevelByArithmetic(cfg: TableConfig, level: nat)
    requires cfg.Wellformed() && level <= cfg.depth
    ensures var info := LevelAt(cfg, level);
            && info.pdeSizeShift == cfg.blockSize + 12 + 9 * level && info.pdeSize == Pow2(info.pdeSizeShift)
            && info.vaRange == (cfg.endAddr - cfg.startAddr + 0x1000) % TWO64
            && info.numPdes == if level < cfg.depth then 512 else RootSlots(cfg)
  {
    hide Pow2, Shr;
    WrapSum(cfg.endAddr - cfg.startAddr, 0x1000);
    ShrValue((cfg.endAddr - cfg.startAddr + 0x1000) % TWO64, cfg.blockSize + 12 + 9 * level);
  }

  lemma WrapSum(a: int, b: int)
    ensures Plus(Wrap(a), Wrap(b)) == (a + b) % TWO64
  {
    DivMod(a, TWO64);
    DivMod(b, TWO64);
    var r := a % TWO64 + b % TWO64;
    DivMod(r, TWO64);
    DivModUnique(a + b, TWO64, a / TWO64 + b / TWO64 + r / TWO64, r % TWO64);
  }

  lemma IndexIs(cfg: TableConfig, va: Word, level: nat)
    requires cfg.Wellformed() && level <= cfg.depth
    ensures SlotIndex(LevelAt(cfg, level), Relative(cfg, va)) == Index(cfg, va, level)
  {
    hide And, Shr, Pow2, LowBits;
    var shift := cfg.blockSize + 12 + 9 * level;
    Nonnegative(cfg, va, level);
    ShrValue(Relative(cfg, va), shift);
    if level < cfg.depth {
      Pow2Values();
      MinusFits(512, 1);
      AndLowMask(SlotNumber(cfg, va, level), 9);
    } else {
      WrapSum(cfg.endAddr - cfg.startAddr, 0x1000);
      ShrValue((cfg.endAddr - cfg.startAddr + 0x1000) % TWO64, shift);
    }
  }

  /** The location of an entry, from the directory entry above it as it is in memory. */
  lemma EntryAddress(cfg: TableConfig, va: Word, level: nat, raw: Word)
    requires cfg.Wellformed() && level <= cfg.depth
    ensures EntryLocation(cfg, Relative(cfg, va), level, GetPdeFields(raw))
            == Location(InSystem(raw), SlotAddress(cfg, va, level, raw))
  {
    hide GetPdeFields, SlotIndex, LevelAt, Relative, Index;
    PdeByArithmetic(raw);
    IndexIs(cfg, va, level);
    hide Plus, Minus, Times, TableBase;
    AddressSum(Index(cfg, va, level), TableBase(raw), cfg.fbOffset);
  }

  lemma AddressSum(k: Word, base: Word, offset: Word)
    ensures Plus(Times(k, 8), base) == (8 * k + base) % TWO64
    ensures Plus(Times(k, 8), Minus(base, offset)) == (8 * k + base - offset) % TWO64
  {
    WrapSum(8 * k, base - offset);
    WrapSum(8 * k, base);
    NoWrap(base);
  }

  /** If nothing wraps: the base, less the offset in video memory, plus eight bytes for each index; and
      in a root of a power of two of slots the index is a remainder as well. */
  lemma PlainAddress(cfg: TableConfig, va: Word, level: nat, raw: Word, k: nat)
    requires cfg.Wellformed() && level <= cfg.depth && cfg.startAddr <= va
    requires InSystem(raw) || cfg.fbOffset <= TableBase(raw)
    requires level == cfg.depth ==> k < 32 && RootSlots(cfg) == Pow2(k)
    ensures Index(cfg, va, level)
            == (va - cfg.startAddr) / Pow2(cfg.blockSize + 12 + 9 * level) % (if level < cfg.depth then 512 else Pow2(k))
    ensures SlotAddress(cfg, va, level, raw)
            == TableBase(raw) - (if InSystem(raw) then 0 else cfg.fbOffset) + 8 * Index(cfg, va, level)
  {
    Nonnegative(cfg, va, level);
    PlainIndex(cfg, va, level, k);
    hide Pow2, Index, SlotNumber;
    NoWrap(8 * Index(cfg, va, level) + TableBase(raw) - (if InSystem(raw) then 0 else cfg.fbOffset));
  }

  lemma NoWrap(x: nat)
    requires x < TWO64
    ensures x % TWO64 == x
  {}

  lemma PlainIndex(cfg: TableConfig, va: Word, level: nat, k: nat)
    requires level <= cfg.depth && cfg.startAddr <= va
    requires level == cfg.depth ==> k < 32 && RootSlots(cfg) == Pow2(k)
    ensures 0 <= Index(cfg, va, level) < 0x1_0000_0000
    ensures Index(cfg, va, level)
            == (va - cfg.startAddr) / Pow2(cfg.blockSize + 12 + 9 * level) % (if level < cfg.depth then 512 else Pow2(k))
  {
    hide Pow2, And, LowBits;
    Nonnegative(cfg, va, level);
    NoWrap(va - cfg.startAddr);
    if level == cfg.depth {
      Pow2Values();
      Pow2Mono(k, 32);
      hide SlotNumber, RootSlots;
      NoWrap(Pow2(k) - 1);
      AndLowMask(SlotNumber(cfg, va, level), k);
      LowBitsValue(SlotNumber(cfg, va, level), k);
    } else {
      hide SlotNumber, RootSlots;
    }
    PlainNumber(cfg, va, level);
  }

  lemma PlainNumber(cfg: TableConfig, va: Word, level: nat)
    requires cfg.startAddr <= va
    ensures SlotNumber(cfg, va, level) == (va - cfg.startAddr) / Pow2(cfg.blockSize + 12 + 9 * level)
  {
    hide Pow2;
    NoWrap(va - cfg.startAddr);
  }

  // -------------------------------------------------------------- the words read

  /** Word i is a directory entry, at level `depth - i`, and word i + 1 is read below it. */
  predicate ReadsNext(cfg: TableConfig, mem: Memory, va: Word, words: seq<Word>, i: nat)
    requires i + 1 < |words| && i <= cfg.depth
  {
    && !IsPageEntry(words[i])
    && ReadAt(mem, InSystem(words[i]), SlotAddress(cfg, va, cfg.depth - i, words[i])) == Some(words[i + 1])
  }

  /** Why the walk stops at the last of its words. */
  predicate StopsAt(cfg: TableConfig, mem: Memory, va: Word, words: seq<Word>, stop: Stop)
    requires 0 < |words| <= cfg.depth + 2
  {
    var last, level := words[|words| - 1], cfg.depth + 1 - |words|;
    if level < 0 then stop == AtPage
    else if IsPageEntry(last) then stop == AtDirectory(level)
    else stop == Fault && ReadAt(mem, InSystem(last), SlotAddress(cfg, va, level, last)) == None
  }

  ghost predicate ReadsFrom(cfg: TableConfig, mem: Memory, va: Word, words: seq<Word>, k: nat, stop: Stop) {
    && 0 < |words| <= cfg.depth + 2
    && (forall i: nat | k <= i < |words| - 1 :: ReadsNext(cfg, mem, va, words, i))
    && StopsAt(cfg, mem, va, words, stop)
  }

  lemma DescentStep(cfg: TableConfig, mem: Memory, va: Word, level: int, words: seq<Word>)
    requires cfg.Wellformed() && -1 <= level <= cfg.depth && |words| == cfg.depth - level + 1
    ensures var last := words[|words| - 1];
            Descend(cfg, mem, Relative(cfg, va), level, words)
            == if level == -1 then Descent(words, AtPage)
               else if IsPageEntry(last) then Descent(words, AtDirectory(level))
               else match ReadAt(mem, InSystem(last), SlotAddress(cfg, va, level, last))
                    case None => Descent(words, Fault)
                    case Some(w) => Descend(cfg, mem, Relative(cfg, va), level - 1, words + [w])
  {
    hide GetPdeFields, EntryLocation, SlotAddress, Relative;
    PdeByArithmetic(words[|words| - 1]);
    if level >= 0 {
      EntryAddress(cfg, va, level, words[|words| - 1]);
    }
  }

  lemma {:induction false} DescentReads(cfg: TableConfig, mem: Memory, va: Word, level: int, words: seq<Word>)
    requires cfg.Wellformed() && -1 <= level <= cfg.depth && |words| == cfg.depth - level + 1
    ensures var d := Descend(cfg, mem, Relative(cfg, va), level, words);
            words <= d.words && ReadsFrom(cfg, mem, va, d.words, |words| - 1, d.stop)
    decreases level + 1
  {
    hide Descend, SlotAddress, Relative, ReadAt, IsPageEntry, InSystem;
    DescentStep(cfg, mem, va, level, words);
    var last := words[|words| - 1];
    if level >= 0 && !IsPageEntry(last) {
      var next := ReadAt(mem, InSystem(last), SlotAddress(cfg, va, level, last));
      if next.Some? {
        DescentReads(cfg, mem, va, level - 1, words + [next.value]);
        var d := Descend(cfg, mem, Relative(cfg, va), level - 1, words + [next.value]);
        assert (words + [next.value])[|words|] == next.value && (words + [next.value])[|words| - 1] == last;
      }
    }
  }

  lemma {:induction false} DescentOnly(
    cfg: TableConfig, mem: Memory, va: Word, level: int, words: seq<Word>, all: seq<Word>, stop: Stop)
    requires cfg.Wellformed() && -1 <= level <= cfg.depth && |words| == cfg.depth - level + 1
    requires words <= all && ReadsFrom(cfg, mem, va, all, |words| - 1, stop)
    ensures Descend(cfg, mem, Relative(cfg, va), level, words) == Descent(all, stop)
    decreases level + 1
  {
    hide Descend, SlotAddress, Relative, ReadAt, IsPageEntry, InSystem;
    DescentStep(cfg, mem, va, level, words);
    if |all| > |words| {
      assert ReadsNext(cfg, mem, va, all, |words| - 1);
      var longer := words + [all[|words|]];
      assert longer == all[..|words| + 1];
      DescentOnly(cfg, mem, va, level - 1, longer, all, stop);
    } else {
      assert all == words;
    }
  }

  /** The words of a walk: the root entry first, each read below the one before it, up to a page entry
      or a failed read. */
  lemma DescentIff(cfg: TableConfig, mem: Memory, va: Word, words: seq<Word>, stop: Stop)
    requires cfg.Wellformed()
    ensures DescendFrom(cfg, mem, va) == Descent(words, stop)
            <==> words != [] && words[0] == cfg.baseAddr && ReadsFrom(cfg, mem, va, words, 0, stop)
  {
    hide Descend, Relative, ReadsFrom;
    DescentReads(cfg, mem, va, cfg.depth, [cfg.baseAddr]);
    if words != [] && words[0] == cfg.baseAddr && ReadsFrom(cfg, mem, va, words, 0, stop) {
      assert [cfg.baseAddr] <= words;
      DescentOnly(cfg, mem, va, cfg.depth, [cfg.baseAddr], words, stop);
    }
  }

  // --------------------------------------------------------------- what is reported

  /** A page entry that is valid and points to a further table. */
  predicate IsFurther(raw: Word) {
    raw % 2 == 1 && raw / 0x100_0000_0000_0000 % 2 == 1
  }

  /** Where the entry of a further table is read: the offset is not taken off, in either memory. */
  function FurtherAddress(cfg: TableConfig, va: Word, raw: Word): Word {
    (TableBase(raw) + 8 * ((va - cfg.startAddr) % TWO64 / 0x1000 % 512)) % TWO64
  }

  /** What a walk that reads these words reports: a page entry and log2 of its size, or why not. */
  function ReportOf(cfg: TableConfig, mem: Memory, va: Word, words: seq<Word>, stop: Stop): WalkOutcome
    requires words != [] && (stop == AtPage ==> |words| >= 2)
  {
    var last := words[|words| - 1];
    match stop
    case Fault => Exited
    case AtDirectory(level) => Walked(GetPteFields(last), if level == 0 then cfg.blockSize + 21 else 12)
    case AtPage =>
      var fragment: Word := words[|words| - 2] / 0x800_0000_0000_0000;
      if !IsFurther(last) then Walked(GetPteFields(last), fragment + 12)
      else if fragment != 9 then Unsupported
      else
        match ReadAt(mem, InSystem(last), FurtherAddress(cfg, va, last))
        case None => Exited
        case Some(w) => Walked(GetPteFields(w), 12)
  }

  lemma FurtherIs(cfg: TableConfig, va: Word, raw: Word)
    ensures FurtherLocation(Relative(cfg, va), raw) == Location(InSystem(raw), FurtherAddress(cfg, va, raw))
  {
    hide GetPdeFields, And, Shr, Pow2, LowBits, Times;
    PdeByArithmetic(raw);
    FurtherIndex(Relative(cfg, va));
  }

  lemma FurtherIndex(rel: Word)
    ensures Times(And(Shr(rel, 12), 511), 8) == 8 * (rel / 0x1000 % 512)
  {
    hide And, Shr, Pow2, LowBits;
    Pow2Values();
    ShrValue(rel, 12);
    AndLowMask(Shr(rel, 12), 9);
  }

  lemma FragmentOf(raw: Word)
    ensures 0 <= raw / 0x800_0000_0000_0000 < 0x20
    ensures GetPdeFields(raw).blockFragmentSize == raw / 0x800_0000_0000_0000
  {
    hide GetPdeFields;
    PdeByArithmetic(raw);
  }

  /** What the walk reports, from the words it reads. */
  lemma WalkReports(cfg: TableConfig, mem: Memory, va: Word, words: seq<Word>, stop: Stop)
    requires cfg.Wellformed() && DescendFrom(cfg, mem, va) == Descent(words, stop)
    ensures Walk(cfg, mem, va) == if cfg.depth == 0 then Unsupported else ReportOf(cfg, mem, va, words, stop)
  {
    hide GetPdeFields, GetPteFields, DescendFrom, FurtherLocation, Relative, FurtherAddress;
    var last := words[|words| - 1];
    PteByArithmetic(last);
    FurtherIs(cfg, va, last);
    if stop == AtPage {
      FragmentOf(words[|words| - 2]);
    }
  }

  // ------------------------------------------------------------ a nonzero offset

  /** A table of two slots of 2 MiB, with a frame-buffer offset of 16 MiB. */
  function OffsetTable(root: Word): TableConfig {
    TableConfig(1, 0, 0, root, 0x3f_f000, 0x100_0000)
  }

  lemma FirstSlot(cfg: TableConfig, level: nat)
    requires cfg.startAddr == 0
    ensures Index(cfg, 0, level) == 0
  {
    hide Pow2;
    DivModUnique(0, Pow2(cfg.blockSize + 12 + 9 * level), 0, 0);
  }

  /** A walk of address zero through two levels, with the offset taken off in video memory only. */
  lemma FirstWalk(root: Word, directory: Word, page: Word, mem: Memory)
    requires !IsPageEntry(root) && !IsPageEntry(directory) && !IsFurther(page) && directory < 0x800_0000_0000_0000
    requires var addr := TableBase(root) - (if InSystem(root) then 0 else 0x100_0000);
             0 <= addr && ReadAt(mem, InSystem(root), addr) == Some(directory)
    requires var addr := TableBase(directory) - (if InSystem(directory) then 0 else 0x100_0000);
             0 <= addr && ReadAt(mem, InSystem(directory), addr) == Some(page)
    ensures Walk(OffsetTable(root), mem, 0) == Walked(GetPteFields(page), 12)
  {
    hide GetPteFields, Walk, Index, IsPageEntry, InSystem, IsFurther, DescendFrom, TableBase, ReadAt;
    var cfg, words := OffsetTable(root), [root, directory, page];
    FirstSlot(cfg, 1);
    FirstSlot(cfg, 0);
    assert ReadsNext(cfg, mem, 0, words, 0) && ReadsNext(cfg, mem, 0, words, 1);
    DescentIff(cfg, mem, 0, words, AtPage);
    WalkReports(cfg, mem, 0, words, AtPage);
  }

  const OFFSET_VIDEO: Memory := Memory(map[], map[0x1000 := 0x100_2000, 0x2000 := 0x5001])
  const OFFSET_SYSTEM: Memory := Memory(map[0x100_1000 := 0x100_2002, 0x100_2000 := 0x5001], map[])

  /** The same page through tables in video memory, 16 MiB below what their entries say, and through
      tables in system memory, where their entries say. */
  lemma OffsetInVideoOnly()
    ensures exists p: Pte ::
              && p.valid && p.baseAddress == 0x5000
              && Walk(OffsetTable(0x100_1000), OFFSET_VIDEO, 0) == Walked(p, 12)
              && Walk(OffsetTable(0x100_1002), OFFSET_SYSTEM, 0) == Walked(p, 12)
  {
    hide GetPteFields, Walk;
    PteByArithmetic(0x5001);
    FirstWalk(0x100_1000, 0x100_2000, 0x5001, OFFSET_VIDEO);
    FirstWalk(0x100_1002, 0x100_2002, 0x5001, OFFSET_SYSTEM);
  }
}
