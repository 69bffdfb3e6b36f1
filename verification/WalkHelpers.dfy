/** The walk helper: geometry and cache state shared by the walks of one translation, filled
    from the context registers and updated in place by every walk. */
module WalkHelpers {
  import opened Words
  import opened Options
  import opened BitFields
  import opened PageTable
  import opened EntryFormats
  import opened CachedWalk

  /** The context registers a translation starts from. */
  datatype Registers = Registers(
    startLo: Word32,
    startHi: Word32,
    endLo: Word32,
    endHi: Word32,
    baseLo: Word32,
    baseHi: Word32,
    contextCntl: Word32,
    fbOffset: Word32)

  /** Two register halves as one 64-bit value. */
  function Join32(hi: Word32, lo: Word32): Word {
    hi * 0x1_0000_0000 + lo
  }

  lemma ContextFields(contextCntl: Word32)
    ensures GetBits(contextCntl, 2, 1) <= 3 && GetBits(contextCntl, 6, 3) <= 15
  {
    hide GetBits;
    GetBitsValue(contextCntl, 2, 1);
    GetBitsValue(contextCntl, 6, 3);
    assert Pow2(2) == 4 && Pow2(4) == 16;
  }

  /** The table the registers describe. The frame-buffer offset is shifted in 32 bits. */
  function ConfigOf(regs: Registers): (cfg: TableConfig)
    ensures cfg.Wellformed()
  {
    ContextFields(regs.contextCntl);
    TableConfig(
      GetBits(regs.contextCntl, 2, 1),
      GetBits(regs.contextCntl, 6, 3),
      Shl(Join32(regs.startHi, regs.startLo), 12),
      Join32(regs.baseHi, regs.baseLo),
      Shl(Join32(regs.endHi, regs.endLo), 12),
      Wrap32(regs.fbOffset * 0x100_0000))
  }

  /** The table in plain arithmetic: fields of the control register, joined halves, and shifts that lose
      the bits past 64 and past 32. */
  lemma ConfigByArithmetic(regs: Registers)
    ensures var cfg := ConfigOf(regs);
            && cfg.depth == regs.contextCntl / 2 % 4 && cfg.blockSize == regs.contextCntl / 8 % 16
            && cfg.startAddr == (0x1_0000_0000 * regs.startHi + regs.startLo) * 0x1000 % TWO64
            && cfg.endAddr == (0x1_0000_0000 * regs.endHi + regs.endLo) * 0x1000 % TWO64
            && cfg.baseAddr == 0x1_0000_0000 * regs.baseHi + regs.baseLo
            && cfg.fbOffset == 0x100_0000 * regs.fbOffset % 0x1_0000_0000
  {
    SmallPowers();
    Pow2Values();
    hide GetBits, Shl, Pow2;
    GetBitsValue(regs.contextCntl, 2, 1);
    GetBitsValue(regs.contextCntl, 6, 3);
    ShlMod(Join32(regs.startHi, regs.startLo), 12);
    ShlMod(Join32(regs.endHi, regs.endLo), 12);
  }

  /** The shifted offset is a multiple of 16 MiB, also where the shift loses bits. */
  lemma OffsetOfRegisters(regs: Registers)
    ensures ConfigOf(regs).fbOffset % 0x100_0000 == 0
  {
    ShiftedIn32(regs.fbOffset);
    hide GetBits, Shl, Wrap32;
  }

  lemma ShiftedIn32(x: Word32)
    ensures Wrap32(x * 0x100_0000) % 0x100_0000 == 0
  {
    var q := x * 0x100_0000 / 0x1_0000_0000;
    DivMod(x * 0x100_0000, 0x1_0000_0000);
    DivModUnique(Wrap32(x * 0x100_0000), 0x100_0000, x - 0x100 * q, 0);
  }

  datatype Status = Success | Failure | Exit

  datatype WalkResults = WalkResults(pte: Pte, size: Word, mask: Word)

  /** The status and results record with which the walk reports an outcome. */
  ghost predicate Reports(status: Status, results: WalkResults, outcome: WalkOutcome) {
    match outcome
    case Walked(pte, shift) =>
      && status == Success && results.pte == pte
      && results.size == Pow2(shift) && results.mask == Pow2(shift) - 1
    case Unsupported => status == Failure
    case Exited => status == Exit
  }

  /** The subtraction below level zero wraps, and adding the block size wraps back. */
  lemma ShiftWraps(blockSize: nat, level: nat)
    requires blockSize <= 15 && level <= 3
    ensures Plus(Plus(blockSize, 21), Times(Minus(level, 1), 9)) == blockSize + 12 + 9 * level
  {
    if level == 0 {
      assert Times(Minus(0, 1), 9) == TWO64 - 9;
    } else {
      assert Times(Minus(level, 1), 9) == 9 * level - 9;
    }
  }

  /** The counter of the walk, one level down: below zero it wraps, and adding one wraps back. */
  lemma DepthBelow(depth: Word32)
    ensures Wrap32(depth - 1) == if depth == 0 then 0xFFFF_FFFF else depth - 1
    ensures Wrap32(Wrap32(depth - 1) + 1) == depth
  {}

  lemma BlockSize(shift: nat)
    requires shift < 64
    ensures Shl(1, shift) == Pow2(shift) && Minus(Shl(1, shift), 1) == Pow2(shift) - 1
    ensures Shl(1, shift) == Shl(1, 21) <==> shift == 21
  {
    hide Shl, Pow2, Minus;
    ShiftedOne(shift);
    ShiftedOne(21);
    SameBlockSize(shift, 21);
    MinusFits(Shl(1, shift), 1);
  }

  lemma SameBlockSize(a: nat, b: nat)
    ensures Pow2(a) == Pow2(b) <==> a == b
  {
    if Pow2(a) == Pow2(b) {
      Pow2Injective(a, b);
    }
  }

  lemma TableSizes()
    ensures Times(Shl(1, 9), 8) == Pow2(12) && Minus(Shl(1, 9), 1) == 511
    ensures Shr(Shl(1, 21), 9) == Pow2(12) && Minus(Pow2(12), 1) == Pow2(12) - 1
  {
    hide Shl, Shr, Pow2, Minus;
    ShiftedOne(9);
    ShiftedOne(21);
    ShrValue(Shl(1, 21), 9);
    Pow2Values();
    MinusFits(512, 1);
    MinusFits(4096, 1);
  }

  class WalkHelper {
    var ptDepth: Word32
    var ptBlockSize: Word32
    var currentDepth: Word32
    var ptStartAddr: Word
    var ptBaseAddr: Word
    var ptEndAddr: Word
    var fbOffset: Word
    const pdeAddrs: array<Word>
    const rawPdes: array<Word>
    const pdes: array<Pde>
    const levelInfo: array<LevelInfo>
    var pte: Pte

    /** The arrays of the record, with whatever they happen to hold. */
    constructor ()
      ensures Shaped() && fresh(pdeAddrs) && fresh(rawPdes) && fresh(pdes) && fresh(levelInfo)
    {
      pdeAddrs := new Word[4];
      rawPdes := new Word[4];
      pdes := new Pde[4];
      levelInfo := new LevelInfo[4];
    }

    ghost predicate Shaped() {
      && pdeAddrs.Length == rawPdes.Length == pdes.Length == levelInfo.Length == 4
      && pdeAddrs != rawPdes
    }

    ghost function Config(): TableConfig
      reads `ptDepth, `ptBlockSize, `ptStartAddr, `ptBaseAddr, `ptEndAddr, `fbOffset
    {
      TableConfig(ptDepth, ptBlockSize, ptStartAddr, ptBaseAddr, ptEndAddr, fbOffset)
    }

    ghost function Lines(): (c: Cache)
      requires Shaped()
      reads pdeAddrs, rawPdes
      ensures c.Valid()
    {
      Cache(pdeAddrs[..], rawPdes[..])
    }

    ghost predicate Valid()
      reads `ptDepth, `ptBlockSize, `ptStartAddr, `ptBaseAddr, `ptEndAddr, `fbOffset, levelInfo
    {
      && Shaped() && Config().Wellformed()
      && forall i: nat | i <= ptDepth :: levelInfo[i] == LevelAt(Config(), i)
    }

    /** Fills the helper from the registers: a fresh cache and the geometry of each level. */
    method Populate(regs: Registers)
      requires Shaped()
      modifies this, pdeAddrs, rawPdes, levelInfo
      ensures Valid() && Config() == ConfigOf(regs) && Lines() == ZeroCache()
    {
      ContextFields(regs.contextCntl);
      ptDepth := GetBits(regs.contextCntl, 2, 1);
      ptBlockSize := GetBits(regs.contextCntl, 6, 3);
      fbOffset := Wrap32(regs.fbOffset * 0x100_0000);
      ptStartAddr := Shl(Join32(regs.startHi, regs.startLo), 12);
      ptBaseAddr := Join32(regs.baseHi, regs.baseLo);
      ptEndAddr := Shl(Join32(regs.endHi, regs.endLo), 12);
      currentDepth := 0;
      hide ConfigOf, GetBits, Shl;
      ClearCache();
      FillLevels();
    }

    method ClearCache()
      requires Shaped()
      modifies pdeAddrs, rawPdes
      ensures Lines() == ZeroCache()
    {
      for i := 0 to 4
        invariant forall j | 0 <= j < i :: pdeAddrs[j] == 0 && rawPdes[j] == 0
      {
        pdeAddrs[i] := 0;
        rawPdes[i] := 0;
      }
    }

    /** The levels from the root down to zero, with a counter that leaves the loop by wrapping. */
    method FillLevels()
      requires Shaped() && Config().Wellformed()
      modifies levelInfo
      ensures Valid()
    {
      hide LevelAt;
      var i: Word := ptDepth;
      while i != 0xFFFF_FFFF_FFFF_FFFF
        invariant i == 0xFFFF_FFFF_FFFF_FFFF || i <= ptDepth
        invariant forall j: nat | (i < j || i == 0xFFFF_FFFF_FFFF_FFFF) && j <= ptDepth ::
          levelInfo[j] == LevelAt(Config(), j)
        decreases if i == 0xFFFF_FFFF_FFFF_FFFF then 0 else i + 1
      {
        levelInfo[i] := LevelGeometry(i);
        i := Minus(i, 1);
      }
    }

    /** The geometry of one level; at level zero the shift is computed across an unsigned wrap. */
    method LevelGeometry(i: Word) returns (info: LevelInfo)
      requires Config().Wellformed() && i <= ptDepth
      ensures info == LevelAt(Config(), i)
    {
      hide Pow2, Shr, Shl, Plus, Minus, Times, Wrap;
      var shift := Plus(Plus(ptBlockSize, 21), Times(Minus(i, 1), 9));
      ShiftWraps(ptBlockSize, i);
      ShiftedOne(shift);
      ShiftedOne(12);
      ShiftedOne(9);
      Pow2Values();
      var pdeSize := Shl(1, shift);
      var vaRange := Plus(Minus(ptEndAddr, ptStartAddr), Shl(1, 12));
      var numPdes := if i == ptDepth then RootEntries(vaRange, pdeSize, shift) else Shl(1, 9);
      info := LevelInfo(shift, pdeSize, numPdes, vaRange);
    }

    static function RootEntries(vaRange: Word, pdeSize: Word, ghost shift: nat): (n: Word)
      requires pdeSize == Pow2(shift)
      ensures n == Shr(vaRange, shift)
    {
      ShrValue(vaRange, shift);
      vaRange / pdeSize
    }

    /** One walk: descends from the root, consulting and filling the per-level cache. */
    method WalkPt(mem: Memory, va: Word) returns (status: Status, results: WalkResults)
      requires Valid()
      modifies `currentDepth, `pte, pdeAddrs, rawPdes, pdes
      ensures Valid() && Config() == old(Config())
      ensures Reports(status, results, WalkWithCache(Config(), mem, old(Lines()), va).0)
      ensures Lines() == WalkWithCache(Config(), mem, old(Lines()), va).1
    {
      hide GetPdeFields, GetPteFields, CachedDescend, LevelAt;
      results := WalkResults(pte, 0, 0);
      if ptDepth == 0 {
        return Failure, results;
      }
      var rel := Minus(va, ptStartAddr);
      var base, pde, pdeIsPte, fault, d := DescendTable(mem, va, rel);
      if fault {
        return Exit, results;
      }
      status, results := FinishWalk(mem, rel, base, pde, pdeIsPte, d);
      currentDepth := ptDepth;
    }

    /** The loop of the walk. On leaving it, `currentDepth` is one below the last level used. */
    method DescendTable(mem: Memory, ghost va: Word, rel: Word)
      returns (base: Word, pde: Pde, pdeIsPte: bool, fault: bool, ghost d: Descent)
      requires Valid() && ptDepth > 0 && rel == Relative(Config(), va)
      modifies `currentDepth, pdeAddrs, rawPdes, pdes
      ensures (d, Lines()) == CachedDescendFrom(Config(), mem, old(Lines()), va)
      ensures fault <==> d.stop == Fault
      ensures !fault ==> base == d.words[|d.words| - 1] && pdeIsPte == pde.pte
      ensures pdeIsPte ==> d.stop == AtDirectory(Wrap32(currentDepth + 1)) && Wrap32(currentDepth + 1) <= 3
      ensures !fault && !pdeIsPte ==>
                && d.stop == AtPage && Wrap32(currentDepth + 1) == 0
                && pdes[0] == GetPdeFields(d.words[|d.words| - 2])
    {
      hide GetPdeFields, LevelAt, Relative, EntryLocation, Fetch, CachedDescend, ZeroCache, Pow2, And, Shr, Shl, GetBits, Wrap32;
      base := ptBaseAddr;
      pde, pdeIsPte, fault := GetPdeFields(base), false, false;
      ghost var final := CachedDescendFrom(Config(), mem, Lines(), va);
      d := final.0;
      ghost var words := [base];
      currentDepth := ptDepth;
      while currentDepth != 0xFFFF_FFFF
        invariant currentDepth == 0xFFFF_FFFF || currentDepth <= ptDepth
        invariant !pdeIsPte && !fault && |words| > 0 && base == words[|words| - 1]
        invariant CachedDescend(Config(), mem, Lines(), rel, LevelOf(currentDepth), words) == final
        invariant currentDepth != ptDepth ==>
                    && !pde.pte && |words| >= 2
                    && pdes[LevelOf(currentDepth) + 1] == GetPdeFields(words[|words| - 2])
        decreases LevelOf(currentDepth) + 1
      {
        CachedStep(Config(), mem, Lines(), rel, currentDepth, words);
        DepthBelow(currentDepth);
        var entry;
        pde, entry := ReadEntry(mem, rel, base);
        if pde.pte {
          currentDepth := Wrap32(currentDepth - 1);
          pdeIsPte := true;
          break;
        }
        if entry == None {
          fault := true;
          break;
        }
        base := entry.value;
        words := words + [base];
        currentDepth := Wrap32(currentDepth - 1);
      }
      if !pdeIsPte && !fault {
        CachedPageStop(Config(), mem, Lines(), rel, words);
        DepthBelow(0);
      }
    }

    /** The body of the loop: decodes directory entry `base` and, unless it is itself a page
        entry, fetches the entry below it. */
    method ReadEntry(mem: Memory, rel: Word, base: Word) returns (pde: Pde, entry: Option<Word>)
      requires Valid() && currentDepth <= ptDepth
      modifies pdeAddrs, rawPdes, pdes
      ensures pde == GetPdeFields(base) && pdes[currentDepth] == pde
      ensures if pde.pte then Lines() == old(Lines())
              else (entry, Lines()) ==
                   Fetch(mem, old(Lines()), currentDepth, EntryLocation(Config(), rel, currentDepth, pde))
    {
      hide GetPdeFields, LevelAt, Fetch, SlotIndex;
      pde, entry := GetPdeFields(base), None;
      pdes[currentDepth] := pde;
      if !pde.pte {
        var tableBase := if pde.system then pde.baseAddress else Minus(pde.baseAddress, fbOffset);
        var pdeIdx := SlotIndex(levelInfo[currentDepth], rel);
        entry := FetchEntry(mem, currentDepth, Location(pde.system, Plus(Times(pdeIdx, 8), tableBase)));
      }
    }

    /** Reads the entry at `loc` through the line of its level. */
    method FetchEntry(mem: Memory, level: nat, loc: Location) returns (entry: Option<Word>)
      requires Shaped() && level < 4
      modifies pdeAddrs, rawPdes
      ensures (entry, Lines()) == Fetch(mem, old(Lines()), level, loc)
    {
      if loc.addr == pdeAddrs[level] {
        entry := Some(rawPdes[level]);
      } else {
        entry := mem.Read(loc);
        if entry.Some? {
          pdeAddrs[level] := loc.addr;
          rawPdes[level] := entry.value;
        }
      }
    }

    static ghost function LevelOf(depth: Word32): int {
      if depth == 0xFFFF_FFFF then -1 else depth
    }

    /** Decodes the entry the descent ended at, sizes its block, and follows translate-further. */
    method FinishWalk(mem: Memory, rel: Word, base: Word, pde: Pde, pdeIsPte: bool, ghost d: Descent)
      returns (status: Status, results: WalkResults)
      requires Valid() && d.stop != Fault && d.words != [] && (d.stop == AtPage ==> |d.words| >= 2)
      requires base == d.words[|d.words| - 1] && pdeIsPte == pde.pte
      requires pdeIsPte ==> d.stop == AtDirectory(Wrap32(currentDepth + 1)) && Wrap32(currentDepth + 1) <= 3
      requires !pdeIsPte ==>
                 && d.stop == AtPage && Wrap32(currentDepth + 1) == 0
                 && pdes[0] == GetPdeFields(d.words[|d.words| - 2])
      modifies `pte
      ensures Reports(status, results, Finish(Config(), mem, rel, d))
    {
      hide GetPdeFields, GetPteFields, LevelAt, Pow2, Shl, Shr, And;
      TableSizes();
      BlockSize(ptBlockSize + 21);
      var entry := GetPteFields(base);
      pte := entry;
      var lastPde := pdes[Wrap32(currentDepth + 1)];
      var size: Word;
      if pdeIsPte {
        if Wrap32(currentDepth + 1) == 0 {
          size := Shl(1, ptBlockSize + 21);
        } else {
          size := Times(Shl(1, 9), 8);
        }
      } else {
        PdeFragmentRange(d.words[|d.words| - 2]);
        BlockSize(lastPde.blockFragmentSize + 12);
        size := Shl(1, lastPde.blockFragmentSize + 12);
      }
      if entry.valid {
        if !pde.pte && entry.translateFurther {
          if size != Shl(1, 21) {
            return Failure, WalkResults(entry, size, Minus(size, 1));
          }
          var pteIdx := And(Shr(rel, 12), Minus(Shl(1, 9), 1));
          size := Shr(size, 9);
          var next := GetPdeFields(base);
          var pteAddr := Plus(next.baseAddress, Times(pteIdx, 8));
          var word := mem.Read(Location(next.system, pteAddr));
          if word == None {
            return Exit, WalkResults(entry, size, Minus(size, 1));
          }
          entry := GetPteFields(word.value);
          pte := entry;
        }
      }
      status, results := Success, WalkResults(entry, size, Minus(size, 1));
    }
  }
}
