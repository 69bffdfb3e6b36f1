/** GPU page tables: entry formats, level geometry, and the plain walk, which reads every
    table entry from memory. The plain walk is the reference for everything the translator does. */
module PageTable {
  import opened Words
  import opened Options

  // ------------------------------------------------------------------ memory

  /** An address in one of the two apertures. */
  datatype Location = Location(system: bool, addr: Word)

  /** The two linear apertures. A word that is absent cannot be read. */
  datatype Memory = Memory(systemMem: map<Word, Word>, videoMem: map<Word, Word>) {
    function Read(loc: Location): Option<Word> {
      var aperture := if loc.system then systemMem else videoMem;
      if loc.addr in aperture then Some(aperture[loc.addr]) else None
    }
  }

  // ----------------------------------------------------------------- entries

  datatype Pde = Pde(
    valid: bool,
    system: bool,
    coherent: bool,
    baseAddress: Word,
    pte: bool,
    blockFragmentSize: Word)

  datatype Pte = Pte(
    valid: bool,
    system: bool,
    coherent: bool,
    tmz: bool,
    execute: bool,
    read: bool,
    write: bool,
    fragment: Word,
    baseAddress: Word,
    tiled: bool,
    sw: Word,
    pte: bool,
    log: bool,
    translateFurther: bool,
    mtype: Word)

  function GetPdeFields(raw: Word): Pde {
    Pde(
      GetBit(raw, 0),
      GetBit(raw, 1),
      GetBit(raw, 2),
      Shl(GetBits(raw, 47, 6), 6),
      GetBit(raw, 54),
      GetBits(raw, 63, 59))
  }

  function GetPteFields(raw: Word): Pte {
    Pte(
      GetBit(raw, 0),
      GetBit(raw, 1),
      GetBit(raw, 2),
      GetBit(raw, 3),
      GetBit(raw, 4),
      GetBit(raw, 5),
      GetBit(raw, 6),
      GetBits(raw, 11, 7),
      Shl(GetBits(raw, 47, 12), 12),
      GetBit(raw, 51),
      GetBits(raw, 53, 52),
      GetBit(raw, 54),
      GetBit(raw, 55),
      GetBit(raw, 56),
      GetBits(raw, 58, 57))
  }

  lemma PageBase(raw: Word)
    ensures Shl(GetBits(raw, 47, 12), 12) < 0x1_0000_0000_0000
    ensures Shl(GetBits(raw, 47, 12), 12) % 0x1000 == 0
  {
    hide GetBits, Pow2, Shl;
    GetBitsValue(raw, 47, 12);
    FrameNumberBound();
    Pow2Values();
    ShlValue(GetBits(raw, 47, 12), 12);
  }

  lemma FrameNumberBound()
    ensures Pow2(36) == 0x10_0000_0000
  {
    Pow2Values();
    Pow2Add(12, 12);
    Pow2Add(24, 12);
  }

  /** Page bases are 48-bit and 4 KiB aligned. */
  lemma PteBaseRange(raw: Word)
    ensures GetPteFields(raw).baseAddress < 0x1_0000_0000_0000
    ensures GetPteFields(raw).baseAddress % 0x1000 == 0
  {
    PageBase(raw);
    hide GetBits, GetBit, Shl;
  }

  lemma PdeFragmentRange(raw: Word)
    ensures GetPdeFields(raw).blockFragmentSize < 32
  {
    GetBitsValue(raw, 63, 59);
    assert Pow2(5) == 32;
  }

  // ---------------------------------------------------------------- geometry

  /** What the context registers say about one page table. */
  datatype TableConfig = TableConfig(
    depth: nat,
    blockSize: nat,
    startAddr: Word,
    baseAddr: Word,
    endAddr: Word,
    fbOffset: Word)
  {
    /** The register fields are two and four bits wide. */
    predicate Wellformed() {
      depth <= 3 && blockSize <= 15
    }

    /** log2 of the largest slot of a table, that of a last-level directory entry. */
    function LargestSlot(): nat {
      blockSize + 21
    }
  }

  datatype LevelInfo = LevelInfo(pdeSizeShift: nat, pdeSize: Word, numPdes: Word, vaRange: Word)

  function ShiftAt(cfg: TableConfig, level: nat): nat {
    cfg.blockSize + 12 + 9 * level
  }

  function LevelAt(cfg: TableConfig, level: nat): LevelInfo
    requires cfg.Wellformed() && level <= cfg.depth
  {
    var shift := ShiftAt(cfg, level);
    ShiftedOne(shift);
    var vaRange := Plus(Minus(cfg.endAddr, cfg.startAddr), 0x1000);
    var numPdes := if level == cfg.depth then Shr(vaRange, shift) else 512;
    LevelInfo(shift, Pow2(shift), numPdes, vaRange)
  }

  function Relative(cfg: TableConfig, va: Word): Word {
    Minus(va, cfg.startAddr)
  }

  function SlotIndex(info: LevelInfo, rel: Word): Word {
    And(Shr(rel, info.pdeSizeShift), Minus(info.numPdes, 1))
  }

  /** Where the entry below directory entry `pde` is read for relative address `rel`. */
  function EntryLocation(cfg: TableConfig, rel: Word, level: nat, pde: Pde): Location
    requires cfg.Wellformed() && level <= cfg.depth
  {
    var base := if pde.system then pde.baseAddress else Minus(pde.baseAddress, cfg.fbOffset);
    Location(pde.system, Plus(Times(SlotIndex(LevelAt(cfg, level), rel), 8), base))
  }

  // ---------------------------------------------------------- the plain walk

  /** Why a descent stopped: a read failed, a directory entry is itself a page entry, or the
      last table was reached. */
  datatype Stop = Fault | AtDirectory(level: nat) | AtPage

  /** The words a descent used, root first, and why it stopped. */
  datatype Descent = Descent(words: seq<Word>, stop: Stop)

  function Descend(cfg: TableConfig, mem: Memory, rel: Word, level: int, words: seq<Word>): Descent
    requires cfg.Wellformed() && -1 <= level <= cfg.depth && |words| > 0
    decreases level + 1
  {
    if level == -1 then Descent(words, AtPage)
    else
      var pde := GetPdeFields(words[|words| - 1]);
      if pde.pte then Descent(words, AtDirectory(level))
      else
        match mem.Read(EntryLocation(cfg, rel, level, pde))
        case None => Descent(words, Fault)
        case Some(w) => Descend(cfg, mem, rel, level - 1, words + [w])
  }

  lemma DescentGrows(cfg: TableConfig, mem: Memory, rel: Word, level: int, words: seq<Word>)
    requires cfg.Wellformed() && -1 <= level <= cfg.depth && |words| > 0
    ensures words <= Descend(cfg, mem, rel, level, words).words
    ensures Descend(cfg, mem, rel, level, words).stop == AtPage
            ==> |Descend(cfg, mem, rel, level, words).words| == |words| + level + 1
    ensures Descend(cfg, mem, rel, level, words).stop.AtDirectory?
            ==> Descend(cfg, mem, rel, level, words).stop.level <= level
    decreases level + 1
  {}

  /** What one walk reports: a page entry with log2 of its block size, an unsupported
      table (rc -1), or a failed memory read, which ends the process. */
  datatype WalkOutcome = Walked(pte: Pte, shift: nat) | Unsupported | Exited

  function Finish(cfg: TableConfig, mem: Memory, rel: Word, d: Descent): WalkOutcome
    requires d.words != [] && (d.stop == AtPage ==> |d.words| >= 2)
  {
    var raw := d.words[|d.words| - 1];
    var pte := GetPteFields(raw);
    match d.stop
    case Fault => Exited
    case AtDirectory(level) => Walked(pte, if level == 0 then cfg.blockSize + 21 else 12)
    case AtPage =>
      var shift := GetPdeFields(d.words[|d.words| - 2]).blockFragmentSize + 12;
      if pte.valid && pte.translateFurther then
        if shift != 21 then Unsupported
        else
          match mem.Read(FurtherLocation(rel, raw))
          case None => Exited
          case Some(w) => Walked(GetPteFields(w), 12)
      else Walked(pte, shift)
  }

  /** Where a translate-further entry sends the walk; its base is used as it stands. */
  function FurtherLocation(rel: Word, raw: Word): Location {
    var pde := GetPdeFields(raw);
    Location(pde.system, Plus(pde.baseAddress, Times(And(Shr(rel, 12), 511), 8)))
  }

  /** The descent of one address from the root of the table. */
  function DescendFrom(cfg: TableConfig, mem: Memory, va: Word): (d: Descent)
    requires cfg.Wellformed()
    ensures d.words != [] && (d.stop == AtPage ==> |d.words| >= 2)
  {
    DescentGrows(cfg, mem, Relative(cfg, va), cfg.depth, [cfg.baseAddr]);
    Descend(cfg, mem, Relative(cfg, va), cfg.depth, [cfg.baseAddr])
  }

  /** The plain walk: no cache, every entry read from memory. */
  function Walk(cfg: TableConfig, mem: Memory, va: Word): WalkOutcome
    requires cfg.Wellformed()
  {
    if cfg.depth == 0 then Unsupported
    else Finish(cfg, mem, Relative(cfg, va), DescendFrom(cfg, mem, va))
  }
}
