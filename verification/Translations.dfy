/** The translation of one address, and exactly when it succeeds: it is asked for as a short range,
    which may reach past the page of the address. */
module Translations {
  import opened Words
  import opened PageTable
  import opened EntryFormats
  import opened Blocks
  import opened Fragments
  import opened RangeMeaning
  import opened RangeResults
  import opened CachedWalk
  import opened RangeLoop
  import opened ConsecutiveWalks
  import opened EndlessLoops

  datatype Translation = Translation(pa: Word, ok: bool, pte: Pte, size: Word)

  /** The bytes from `va` to the end of its 4 KiB page: the size of the range that is asked for. */
  function ToPageEnd(va: Word): (n: Word)
    ensures 0 < n <= 0x1000 && n == 0x1000 - va % 0x1000
  {
    PageOffset(va);
    0x1000 - And(va, 0xfff)
  }

  lemma PageOffset(va: Word)
    ensures And(va, 0xfff) == va % 0x1000
  {
    hide And, Pow2;
    Pow2Values();
    AndLowMask(va, 12);
  }

  /** What the plain walk says of one address: its page and its physical address. */
  function PlainTranslation(pte: Pte, shift: nat, va: Word): (t: Translation)
    requires shift < 64
  {
    ShiftedOne(shift);
    Translation(Plus(pte.baseAddress, LowBits(va, shift)), pte.valid, pte, Pow2(shift))
  }

  /** In plain arithmetic: the offset is a remainder by the size of the page, and nothing wraps if the
      base is one that an entry can hold. */
  lemma TranslationByArithmetic(pte: Pte, shift: nat, va: Word)
    requires 12 <= shift <= 43 && pte.baseAddress < 0x1_0000_0000_0000
    ensures var t := PlainTranslation(pte, shift, va);
            && t.ok == pte.valid && t.pte == pte && t.size == Pow2(shift)
            && t.pa == pte.baseAddress + va % Pow2(shift)
  {
    hide Pow2, LowBits, Plus;
    LowBitsValue(va, shift);
    Pow2Mono(shift, 43);
    LargestReport();
    PlusFits(pte.baseAddress, LowBits(va, shift));
  }

  /** What a translation reports from the first fragment of its list. */
  function FromFragment(f: Fragment, va: Word): Translation {
    var offset := Minus(va, And(va, Not(Minus(f.size, 1))));
    Translation(Plus(f.flags.baseAddress, offset), f.flags.valid, f.flags, f.size)
  }

  // ------------------------------------------------------------ the first fragment

  lemma OffsetInPage(va: Word, shift: nat)
    requires shift < 64
    ensures Pow2(shift) < TWO64
    ensures Minus(va, And(va, Not(Minus(Pow2(shift), 1)))) == LowBits(va, shift)
  {
    hide Pow2, And, Minus;
    ShiftedOne(shift);
    MinusFits(Pow2(shift), 1);
    AndNotLowMask(va, shift);
    MinusFits(va, va - LowBits(va, shift));
  }

  /** The page that a walk reports gives the translation of its entry. */
  lemma PageTranslates(va: Word, pte: Pte, shift: nat)
    requires shift < 64
    ensures FromFragment(PageOf(va, pte, shift), va) == PlainTranslation(pte, shift, va)
  {
    hide And, Minus, Plus, Pow2, LowBits;
    OffsetInPage(va, shift);
  }

  /** A blank record: its flags are those of an entry of zeros. */
  lemma ZeroFragmentIsBlank()
    ensures var f := ZeroFragment(); f.va == 0 && f.pa == 0 && f.size == 0 && f.flags == GetPteFields(0)
  {
    hide GetPteFields, ZeroFragment;
    PteByArithmetic(0);
    BlankFields();
    EntriesEqual(ZeroFragment().flags, GetPteFields(0));
  }

  lemma BlankFields()
    ensures var f := ZeroFragment();
            && f.va == 0 && f.pa == 0 && f.size == 0
            && var p := f.flags;
               && !p.valid && !p.system && !p.coherent && !p.tmz && !p.execute && !p.read && !p.write
               && p.fragment == 0 && p.baseAddress == 0 && !p.tiled && p.sw == 0 && !p.pte && !p.log
               && !p.translateFurther && p.mtype == 0
  {}

  /** The empty fragment of a range that wraps at 2^64 reports the address itself, as invalid. */
  lemma ZeroTranslates(va: Word)
    ensures FromFragment(ZeroFragment(), va) == Translation(va, false, ZeroFragment().flags, 0)
  {
    assert Not(Minus(0, 1)) == 0;
    assert And(va, 0) == 0;
    hide And, Not;
  }

  /** Once a first page is walked, a list that is not combined keeps its first fragment. */
  lemma {:induction false} ListKeepsFirst(cfg: TableConfig, mem: Memory, loop: Loop, cache: Cache, n: nat)
    requires cfg.Wellformed() && cache.Valid() && !loop.first
    ensures var round := CachedRounds(cfg, mem, false, loop, cache, n);
            round.Stopped? && round.result.Listed? ==>
              && round.result.fragments != []
              && round.result.fragments[0] == if loop.list == [] then loop.prev else loop.list[0]
    decreases n
  {
    hide WalkWithCache, PageOf, FragmentsOverlap, Grown, Plus;
    if n > 0 {
      var (round, next) := CachedRound(cfg, mem, false, loop, cache);
      match round
      case Stopped(_) =>
      case Running(after) => ListKeepsFirst(cfg, mem, after, next, n - 1);
    }
  }

  /** A list that is not combined starts with the page that the first walk reports, unless the range
      wraps. */
  lemma ListStarts(cfg: TableConfig, mem: Memory, va: Word, size: Word, r: RangeResult)
    requires cfg.Wellformed() && size > 0 && EndsWith(cfg, mem, va, size, false, r) && r.Listed?
    ensures r.fragments != []
    ensures if va + size >= TWO64 then r.fragments[0] == ZeroFragment()
            else
              var (outcome, _) := WalkWithCache(cfg, mem, ZeroCache(), va);
              outcome.Walked? && outcome.shift < 64 && r.fragments[0] == PageOf(va, outcome.pte, outcome.shift)
  {
    hide CachedRounds, CachedRound, EndsWith, WalkWithCache, ZeroCache, Start, PageOf;
    var n := RoundsOf(cfg, mem, va, size, false, r);
    FirstOfRounds(cfg, mem, Start(va, size), ZeroCache(), n);
    FirstCachedRound(cfg, mem, va, size);
    var (round, next) := CachedRound(cfg, mem, false, Start(va, size), ZeroCache());
    if round.Running? {
      ListKeepsFirst(cfg, mem, round.loop, next, n - 1);
    }
  }

  lemma FirstCachedRound(cfg: TableConfig, mem: Memory, va: Word, size: Word)
    requires cfg.Wellformed() && size > 0
    ensures var (round, _) := CachedRound(cfg, mem, false, Start(va, size), ZeroCache());
            var (outcome, _) := WalkWithCache(cfg, mem, ZeroCache(), va);
            if va + size >= TWO64 then round == Stopped(Listed([ZeroFragment()]))
            else if outcome.Walked? then
              && outcome.shift < 64 && round.Running? && !round.loop.first && round.loop.list == []
              && round.loop.prev == PageOf(va, outcome.pte, outcome.shift)
            else round.Stopped? && !round.result.Listed?
  {
    hide WalkWithCache, ZeroCache, PageOf, Plus, Grown, FragmentsOverlap;
    PlusWraps(va, size);
    CachedBounds(cfg, mem, ZeroCache(), va);
    assert [] + [ZeroFragment()] == [ZeroFragment()];
  }

  lemma FirstOfRounds(cfg: TableConfig, mem: Memory, loop: Loop, cache: Cache, n: nat)
    requires cfg.Wellformed() && cache.Valid() && CachedRounds(cfg, mem, false, loop, cache, n).Stopped?
    ensures n > 0
    ensures var (round, next) := CachedRound(cfg, mem, false, loop, cache);
            CachedRounds(cfg, mem, false, loop, cache, n)
            == match round
               case Stopped(result) => Stopped(result)
               case Running(after) => CachedRounds(cfg, mem, false, after, next, n - 1)
  {
    hide CachedRound;
  }

  // ------------------------------------------------------------- when it succeeds

  /** The moved end of the short range is still on the page. */
  predicate StaysOnPage(page: Fragment, va: Word)
    requires page.va <= va
  {
    var offset := va - page.va;
    offset + (offset - offset % 0x1000) + 0x1000 <= page.size
  }

  lemma PageOfFourKib(cfg: TableConfig, mem: Memory, va: Word)
    requires cfg.Wellformed() && Walk(cfg, mem, va).Walked?
    ensures PageAt(cfg, mem, va).va % 0x1000 == 0 && 0x1000 <= PageAt(cfg, mem, va).size
  {
    hide Walk, Pow2, BlockStart, Shr;
    ReportBounds(cfg, mem, va);
    var shift := Walk(cfg, mem, va).shift;
    Pow2Values();
    Pow2Mono(12, shift);
    BlockStartMultiple(va, shift);
    var k := MultipleOfFiner(va, 12, shift);
    DivModUnique(BlockStart(va, shift), 0x1000, k, 0);
  }

  /** No further page is walked exactly when the moved end stays on the page of the address. */
  lemma FurtherPagesIff(cfg: TableConfig, mem: Memory, va: Word)
    requires cfg.Wellformed() && Walk(cfg, mem, va).Walked?
    ensures var page := PageAt(cfg, mem, va);
            RangeEnd(cfg, mem, va, ToPageEnd(va)) <= page.va + page.size <==> StaysOnPage(page, va)
  {
    hide Walk, PageAt, ToPageEnd;
    PageOfFourKib(cfg, mem, va);
    var page := PageAt(cfg, mem, va);
    assert va % 0x1000 == (va - page.va) % 0x1000;
  }

  /** The address is walked and either its page is all that is needed, or every address from there to
      the moved end is walked and no page up to there overlaps the one before it; and the last of the
      pages ends below 2^64. */
  ghost predicate Translates(cfg: TableConfig, mem: Memory, va: Word)
    requires cfg.Wellformed()
  {
    && Walk(cfg, mem, va).Walked?
    && (var page, end := PageAt(cfg, mem, va), RangeEnd(cfg, mem, va, ToPageEnd(va));
        end < TWO64 && EndsBelowTop(cfg, mem, end)
        && (StaysOnPage(page, va)
            || (&& AllWalked(cfg, mem, page.va + page.size, end)
                && NeighboursApart(cfg, mem, page.va + page.size, end))))
  }

  lemma TranslatesIff(cfg: TableConfig, mem: Memory, va: Word)
    requires UniformTable(cfg, mem) && Unwrapped(cfg, mem, va, ToPageEnd(va))
    ensures TranslateRange(cfg, mem, va, ToPageEnd(va), false).Listed? <==> Translates(cfg, mem, va)
  {
    hide Walk, WalkedAlike, PageAt, TranslateRange, ToPageEnd, RangeEnd, EndsBelowTop, StaysOnPage;
    SeparateRangeListedIff(cfg, mem, va, ToPageEnd(va));
    if Walk(cfg, mem, va).Walked? {
      FurtherPagesIff(cfg, mem, va);
    }
  }

  /** The loop for one address, if it ends, ends with a list exactly when the address translates. */
  lemma LoopTranslatesIff(cfg: TableConfig, mem: Memory, va: Word, r: RangeResult)
    requires UniformTable(cfg, mem) && ReadsTable(cfg, mem) && Unwrapped(cfg, mem, va, ToPageEnd(va))
    requires EndsWith(cfg, mem, va, ToPageEnd(va), false, r)
    ensures r.Listed? <==> Translates(cfg, mem, va)
  {
    hide WalkedAlike, ReadsTable, TranslateRange, ToPageEnd, EndsWith, PlainlyEndsWith, Translates, Unwrapped;
    TranslatesIff(cfg, mem, va);
    if TranslateRange(cfg, mem, va, ToPageEnd(va), false) == TopReached {
      LoopReadsTable(cfg, mem, va, ToPageEnd(va), false, r);
      SeparateRangeListedIff(cfg, mem, va, ToPageEnd(va));
      NotListedAtTop(cfg, mem, va, ToPageEnd(va), false, r);
    } else {
      LoopResult(cfg, mem, va, ToPageEnd(va), false);
    }
  }

  /** From a fresh cache, the first walk of a loop that reads the table is the plain walk. */
  lemma FirstWalkIsPlain(cfg: TableConfig, mem: Memory, va: Word)
    requires cfg.Wellformed() && ReadsTable(cfg, mem)
    ensures WalkWithCache(cfg, mem, ZeroCache(), va).0 == Walk(cfg, mem, va)
  {
    hide Walk, WalkWithCache, FittingTable, CacheSound, CacheReady, LinesAgree, TableEntry;
    if CacheTransparent(cfg, mem) {
      ZeroCacheSound(cfg, mem);
      CachedWalkIsWalk(cfg, mem, ZeroCache(), va);
    } else {
      FreshCacheReady(cfg, mem, va);
      ReadyAgreesIff(cfg, mem, ZeroCache(), {}, va);
      WalkAgreesIff(cfg, mem, ZeroCache(), va);
    }
  }

  /** On a 4 KiB page, only the page-aligned address is translated from its page alone; for every
      other address the next page must be walked as well, and not overlap. */
  lemma SmallPageIff(cfg: TableConfig, mem: Memory, va: Word)
    requires UniformTable(cfg, mem) && Unwrapped(cfg, mem, va, ToPageEnd(va))
    requires Walk(cfg, mem, va).Walked? && Walk(cfg, mem, va).shift == 12
    ensures var page := PageAt(cfg, mem, va);
            var next := page.va + 0x1000;
            && page.va == va - va % 0x1000
            && (TranslateRange(cfg, mem, va, ToPageEnd(va), false).Listed? <==>
                if va % 0x1000 == 0 then next < TWO64
                else next < TWO64 && Walk(cfg, mem, next).Walked?
                     && !FragmentsOverlap(page, PageAt(cfg, mem, next))
                     && next + PageAt(cfg, mem, next).size < TWO64)
  {
    hide Walk, WalkedAlike, PageAt, TranslateRange, ToPageEnd, FragmentsOverlap, Pow2, LowBits, BlockStart;
    PageOfFourKib(cfg, mem, va);
    PageMeans(cfg, mem, va);
    SmallPage(cfg, mem, va);
    UnwrappedRange(cfg, mem, va, ToPageEnd(va), false);
    var page := PageAt(cfg, mem, va);
    var next := page.va + 0x1000;
    if va % 0x1000 != 0 && next < TWO64 && Walk(cfg, mem, next).Walked? {
      NextPageAligned(cfg, mem, next);
      PageOfFourKib(cfg, mem, next);
    }
  }

  lemma SmallPage(cfg: TableConfig, mem: Memory, va: Word)
    requires cfg.Wellformed() && Walk(cfg, mem, va).Walked? && Walk(cfg, mem, va).shift == 12
    ensures PageAt(cfg, mem, va).size == 0x1000 && PageAt(cfg, mem, va).va == va - va % 0x1000
  {
    hide Walk, Pow2, LowBits;
    Pow2Values();
    LowBitsValue(va, 12);
  }

  // ------------------------------------------------------------ agreement with lists

  /** A translated address that is valid is where the plain walk puts it, and where any list of a
      range that holds it puts it, combined or not. */
  lemma TranslationAgreesWithLists(
    cfg: TableConfig, mem: Memory, va: Word, start: Word, size: Word, combine: bool)
    requires UniformTable(cfg, mem) && Walk(cfg, mem, va).Walked?
    requires Unwrapped(cfg, mem, start, size) && start <= va < start + size
    requires TranslateRange(cfg, mem, start, size, combine).Listed?
    ensures 12 <= Walk(cfg, mem, va).shift < 64
    ensures var t := PlainTranslation(Walk(cfg, mem, va).pte, Walk(cfg, mem, va).shift, va);
            var m := ListMapping(TranslateRange(cfg, mem, start, size, combine).fragments, va);
            m == (if t.ok then Mapped(t.pa, Attributes(t.pte)) else Unmapped)
  {
    hide Walk, WalkedAlike, TranslateRange, ListMapping, Pow2, Plus, LowBits;
    ReportBounds(cfg, mem, va);
    RangeTranslates(cfg, mem, start, size, combine, va);
    var w := Walk(cfg, mem, va);
    WalkedBaseRange(cfg, mem, va);
    Pow2Mono(w.shift, 43);
    LargestReport();
    LowBitsValue(va, w.shift);
    PlusFits(w.pte.baseAddress, LowBits(va, w.shift));
  }
}
