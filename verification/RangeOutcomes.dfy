/** The rest of what a range comes to: when it ends the process and when it is refused, and what the
    fragments of a list carry besides the translation. */
module RangeOutcomes {
  import opened Words
  import opened PageTable
  import opened Blocks
  import opened Fragments
  import opened RangeMeaning
  import opened RangeResults
  import opened RangeRuns

  // ------------------------------------------------------------------ failures

  /** Of the addresses from `addr` on, `x` is the first that is not walked, and its entry cannot be
      read; no page before it overlaps the one before. */
  ghost predicate UnreadAfterPages(cfg: TableConfig, mem: Memory, addr: nat, x: Word)
    requires cfg.Wellformed()
  {
    addr <= x && AllWalked(cfg, mem, addr, x) && NeighboursApart(cfg, mem, addr, x) && Walk(cfg, mem, x).Exited?
  }

  lemma UnreadStep(cfg: TableConfig, mem: Memory, addr: Word, end: nat, prev: Fragment, x: Word)
    requires Building(cfg, mem, addr, end, prev) && prev == PageAt(cfg, mem, addr - 1) && addr < end
    requires Walk(cfg, mem, addr).Walked?
    ensures var curr := PageAt(cfg, mem, addr);
            UnreadAfterPages(cfg, mem, addr, x)
            <==> !FragmentsOverlap(prev, curr) && UnreadAfterPages(cfg, mem, curr.va + curr.size, x)
  {
    hide Walk, WalkedAlike, PageAt, FragmentsOverlap, FragmentMeans;
    var curr := PageAt(cfg, mem, addr);
    var next := curr.va + curr.size;
    StepBuilding(cfg, mem, addr, end, prev);
    assert PagesApart(cfg, mem, addr) <==> !FragmentsOverlap(prev, curr);
    forall y: Word | addr <= y < next ensures Walk(cfg, mem, y).Walked? && (addr < y ==> PagesApart(cfg, mem, y)) {
      InsidePage(cfg, mem, addr, y);
    }
    hide PagesApart;
    if next <= x {
      SplitRange(cfg, mem, addr, next, x);
    }
  }

  lemma {:induction false} SeparateTerminatedIff(cfg: TableConfig, mem: Memory, addr: nat, end: nat, prev: Fragment)
    requires Building(cfg, mem, addr, end, prev) && prev == PageAt(cfg, mem, addr - 1)
    ensures RangeFrom(cfg, mem, addr, end, prev, false) == Terminated
            <==> exists x: Word :: x < end && UnreadAfterPages(cfg, mem, addr, x)
    decreases TWO64 - addr
  {
    hide Walk, WalkedAlike, PageAt, FragmentsOverlap, FragmentMeans, UnreadAfterPages;
    if addr < end {
      FirstUnread(cfg, mem, addr);
      if Walk(cfg, mem, addr).Walked? {
        var curr := PageAt(cfg, mem, addr);
        var next: nat := curr.va + curr.size;
        StepBuilding(cfg, mem, addr, end, prev);
        LastAddressOfPage(cfg, mem, addr, next - 1);
        SeparateTerminatedIff(cfg, mem, next, end, curr);
        forall x: Word
          ensures UnreadAfterPages(cfg, mem, addr, x)
                  <==> !FragmentsOverlap(prev, curr) && UnreadAfterPages(cfg, mem, next, x)
        {
          UnreadStep(cfg, mem, addr, end, prev, x);
        }
      }
    } else {
      NoneUnread(cfg, mem, addr);
    }
  }

  lemma FirstUnread(cfg: TableConfig, mem: Memory, addr: Word)
    requires cfg.Wellformed()
    ensures UnreadAfterPages(cfg, mem, addr, addr) <==> Walk(cfg, mem, addr).Exited?
    ensures !Walk(cfg, mem, addr).Walked? ==> forall x: Word :: UnreadAfterPages(cfg, mem, addr, x) ==> x == addr
  {
    hide Walk;
  }

  lemma NoneUnread(cfg: TableConfig, mem: Memory, addr: nat)
    requires cfg.Wellformed()
    ensures forall x: Word :: UnreadAfterPages(cfg, mem, addr, x) ==> addr <= x
  {}

  /** Without combining, a range ends the process exactly when the first address that is not walked has
      an entry that cannot be read, and no page before it overlaps the one before. A range that neither
      is listed, nor comes to the top, nor ends the process is refused. */
  lemma SeparateRangeFailsIff(cfg: TableConfig, mem: Memory, va: Word, size: Word)
    requires UniformTable(cfg, mem) && Unwrapped(cfg, mem, va, size) && size > 0
    ensures TranslateRange(cfg, mem, va, size, false) == Terminated
            <==> if Walk(cfg, mem, va).Walked?
                 then var next: nat := PageAt(cfg, mem, va).va + PageAt(cfg, mem, va).size;
                      exists x: Word :: x < RangeEnd(cfg, mem, va, size) && UnreadAfterPages(cfg, mem, next, x)
                 else Walk(cfg, mem, va).Exited?
    ensures TranslateRange(cfg, mem, va, size, false) in {Terminated, Rejected, TopReached}
            || TranslateRange(cfg, mem, va, size, false).Listed?
  {
    hide Walk, WalkedAlike, PageAt, Building, RangeFrom, RangeEnd, TranslateRange, UnreadAfterPages;
    UnwrappedRange(cfg, mem, va, size, false);
    RangeIsTiled(cfg, mem, va, size, false);
    hide Finished;
    if Walk(cfg, mem, va).Walked? {
      var first := PageAt(cfg, mem, va);
      FirstPage(cfg, mem, va, size);
      LastAddressOfPage(cfg, mem, va, first.va + first.size - 1);
      SeparateTerminatedIff(cfg, mem, first.va + first.size, RangeEnd(cfg, mem, va, size), first);
    }
  }

  /** The same with runs instead of pages. */
  ghost predicate UnreadAfterRuns(cfg: TableConfig, mem: Memory, lo: nat, addr: nat, x: Word)
    requires cfg.Wellformed()
  {
    addr <= x && AllWalked(cfg, mem, addr, x) && RunsApart(cfg, mem, lo, addr, x) && Walk(cfg, mem, x).Exited?
  }

  lemma UnreadRunStep(cfg: TableConfig, mem: Memory, lo: nat, addr: Word, end: nat, prev: Fragment, x: Word)
    requires Building(cfg, mem, addr, end, prev) && WholeRun(cfg, mem, lo, addr, prev) && addr < end
    requires Walk(cfg, mem, addr).Walked?
    ensures var curr := PageAt(cfg, mem, addr);
            UnreadAfterRuns(cfg, mem, lo, addr, x)
            <==> !FragmentsOverlap(prev, curr) && UnreadAfterRuns(cfg, mem, lo, curr.va + curr.size, x)
  {
    hide Walk, WalkedAlike, PageAt, FragmentsOverlap, FragmentMeans, WholeRun, ApartFromRun;
    var curr := PageAt(cfg, mem, addr);
    var next := curr.va + curr.size;
    StepBuilding(cfg, mem, addr, end, prev);
    ApartIffNoOverlap(cfg, mem, lo, addr, end, prev);
    forall y: Word | addr < y < next ensures Walk(cfg, mem, y).Walked? && ApartFromRun(cfg, mem, lo, y) {
      NothingInside(cfg, mem, lo, addr, y);
    }
    if next <= x {
      SplitRuns(cfg, mem, lo, addr, next, x);
    }
  }

  lemma FirstUnreadInRuns(cfg: TableConfig, mem: Memory, lo: nat, addr: nat)
    requires cfg.Wellformed()
    ensures addr < TWO64 ==> (UnreadAfterRuns(cfg, mem, lo, addr, addr) <==> Walk(cfg, mem, addr).Exited?)
    ensures addr < TWO64 && !Walk(cfg, mem, addr).Walked? ==>
              forall x: Word :: UnreadAfterRuns(cfg, mem, lo, addr, x) ==> x == addr
    ensures forall x: Word :: UnreadAfterRuns(cfg, mem, lo, addr, x) ==> addr <= x
  {
    hide Walk, ApartFromRun;
  }

  lemma {:induction false} CombinedTerminatedIff(
    cfg: TableConfig, mem: Memory, lo: nat, addr: nat, end: nat, prev: Fragment)
    requires Building(cfg, mem, addr, end, prev) && (addr < TWO64 ==> WholeRun(cfg, mem, lo, addr, prev))
    ensures RangeFrom(cfg, mem, addr, end, prev, true) == Terminated
            <==> exists x: Word :: x < end && UnreadAfterRuns(cfg, mem, lo, addr, x)
    decreases TWO64 - addr
  {
    hide Walk, WalkedAlike, PageAt, FragmentsOverlap, IsContiguous, FragmentMeans, UnreadAfterRuns, WholeRun;
    FirstUnreadInRuns(cfg, mem, lo, addr);
    if addr < end && Walk(cfg, mem, addr).Walked? {
      var curr := PageAt(cfg, mem, addr);
      var next: nat := curr.va + curr.size;
      StepBuilding(cfg, mem, addr, end, prev);
      WholeRunStep(cfg, mem, lo, addr, end, prev);
      forall x: Word
        ensures UnreadAfterRuns(cfg, mem, lo, addr, x)
                <==> !FragmentsOverlap(prev, curr) && UnreadAfterRuns(cfg, mem, lo, next, x)
      {
        UnreadRunStep(cfg, mem, lo, addr, end, prev, x);
      }
      hide Building;
      if next < TWO64 {
        CombinedTerminatedIff(cfg, mem, lo, next, end, Extended(prev, curr));
      } else {
        FirstUnreadInRuns(cfg, mem, lo, next);
      }
    }
  }

  /** With combining, a range ends the process exactly when the first address that is not walked has an
      entry that cannot be read, and no page before it is one that its run translates into. */
  lemma CombinedRangeFailsIff(cfg: TableConfig, mem: Memory, va: Word, size: Word)
    requires UniformTable(cfg, mem) && Unwrapped(cfg, mem, va, size) && size > 0
    ensures TranslateRange(cfg, mem, va, size, true) == Terminated
            <==> if Walk(cfg, mem, va).Walked?
                 then var first := PageAt(cfg, mem, va);
                      var next: nat := first.va + first.size;
                      exists x: Word :: x < RangeEnd(cfg, mem, va, size) && UnreadAfterRuns(cfg, mem, first.va, next, x)
                 else Walk(cfg, mem, va).Exited?
    ensures TranslateRange(cfg, mem, va, size, true) in {Terminated, Rejected, TopReached}
            || TranslateRange(cfg, mem, va, size, true).Listed?
  {
    hide Walk, WalkedAlike, PageAt, Building, RangeFrom, RangeEnd, TranslateRange, UnreadAfterRuns;
    UnwrappedRange(cfg, mem, va, size, true);
    RangeIsTiled(cfg, mem, va, size, true);
    hide Finished, WholeRun;
    if Walk(cfg, mem, va).Walked? {
      var first := PageAt(cfg, mem, va);
      FirstPage(cfg, mem, va, size);
      FirstRun(cfg, mem, va);
      CombinedTerminatedIff(cfg, mem, first.va, first.va + first.size, RangeEnd(cfg, mem, va, size), first);
    }
  }

  // ------------------------------------------------------------- what fragments carry

  /** The fragment starts where a page starts, with the entry and the physical base of that page. */
  predicate StartsPage(cfg: TableConfig, mem: Memory, f: Fragment)
    requires cfg.Wellformed()
  {
    Walk(cfg, mem, f.va).Walked? && f.flags == Walk(cfg, mem, f.va).pte && f.pa == f.flags.baseAddress
  }

  /** And it is that page. */
  predicate IsOnePage(cfg: TableConfig, mem: Memory, f: Fragment)
    requires cfg.Wellformed()
  {
    StartsPage(cfg, mem, f) && f.size == Pow2(Walk(cfg, mem, f.va).shift) && f.va % f.size == 0
  }

  lemma PageIsOnePage(cfg: TableConfig, mem: Memory, va: Word)
    requires UniformTable(cfg, mem) && Walk(cfg, mem, va).Walked?
    ensures IsOnePage(cfg, mem, PageAt(cfg, mem, va))
  {
    hide WalkedAlike, Walk, Pow2, BlockStart, SameBlock;
    var page := PageAt(cfg, mem, va);
    ReportBounds(cfg, mem, va);
    var shift := Walk(cfg, mem, va).shift;
    SameBlockIffWithin(va, page.va, shift);
    UniformBlock(cfg, mem, va, page.va);
    AlignedStart(va, shift);
  }

  lemma AlignedStart(va: Word, shift: nat)
    ensures BlockStart(va, shift) % Pow2(shift) == 0
  {
    hide Shr, Pow2, BlockStart;
    BlockStartMultiple(va, shift);
    DivModUnique(BlockStart(va, shift), Pow2(shift), Shr(va, shift), 0);
  }

  /** Every fragment of a list starts a page and carries its entry; without combining it is that page. */
  lemma {:induction false} FragmentsStartPages(
    cfg: TableConfig, mem: Memory, addr: nat, end: nat, prev: Fragment, combine: bool)
    requires Building(cfg, mem, addr, end, prev) && RangeFrom(cfg, mem, addr, end, prev, combine).Listed?
    requires StartsPage(cfg, mem, prev) && (!combine ==> IsOnePage(cfg, mem, prev))
    ensures forall f | f in RangeFrom(cfg, mem, addr, end, prev, combine).fragments ::
              StartsPage(cfg, mem, f) && (!combine ==> IsOnePage(cfg, mem, f))
    decreases TWO64 - addr
  {
    hide Walk, WalkedAlike, PageAt, FragmentsOverlap, IsContiguous, FragmentMeans, Pow2;
    if addr < end && addr < TWO64 {
      var curr := PageAt(cfg, mem, addr);
      StepBuilding(cfg, mem, addr, end, prev);
      PageIsOnePage(cfg, mem, addr);
      var next := curr.va + curr.size;
      if next < TWO64 {
        if combine && IsContiguous(prev, curr) == Contiguous {
          FragmentsStartPages(cfg, mem, next, end, Grow(prev, curr), combine);
        } else {
          FragmentsStartPages(cfg, mem, next, end, curr, combine);
        }
      }
    }
  }

  /** So for a listed range. */
  lemma RangeStartsPages(cfg: TableConfig, mem: Memory, va: Word, size: Word, combine: bool)
    requires UniformTable(cfg, mem) && Unwrapped(cfg, mem, va, size) && size > 0
    requires TranslateRange(cfg, mem, va, size, combine).Listed?
    ensures forall f | f in TranslateRange(cfg, mem, va, size, combine).fragments ::
              StartsPage(cfg, mem, f) && (!combine ==> IsOnePage(cfg, mem, f))
  {
    hide Walk, WalkedAlike, PageAt, Building, RangeFrom, RangeEnd, TranslateRange, StartsPage, IsOnePage;
    UnwrappedRange(cfg, mem, va, size, combine);
    var first := PageAt(cfg, mem, va);
    FirstPage(cfg, mem, va, size);
    PageIsOnePage(cfg, mem, va);
    assert StartsPage(cfg, mem, first) by {
      OnePageStarts(cfg, mem, first);
    }
    FragmentsStartPages(cfg, mem, first.va + first.size, RangeEnd(cfg, mem, va, size), first, combine);
  }

  lemma OnePageStarts(cfg: TableConfig, mem: Memory, f: Fragment)
    requires cfg.Wellformed() && IsOnePage(cfg, mem, f)
    ensures StartsPage(cfg, mem, f)
  {
    hide Walk;
  }
}
