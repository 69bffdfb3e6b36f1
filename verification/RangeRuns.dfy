/** Exactly when a range is listed with combining. */
module RangeRuns {
  import opened Words
  import opened PageTable
  import opened Blocks
  import opened Fragments
  import opened RangeMeaning
  import opened RangeResults

  // ------------------------------------------------------------ specification

  /** If a page starts at `c`, it continues the page before it. */
  predicate Continues(cfg: TableConfig, mem: Memory, c: Word)
    requires cfg.Wellformed()
  {
    hide Walk;
    AtBoundary(cfg, mem, c) && Walk(cfg, mem, c).Walked?
    ==> IsContiguous(PageAt(cfg, mem, c - 1), PageAt(cfg, mem, c)) == Contiguous
  }

  /** From the page of `x` up to `b`, every page continues the one before it. */
  ghost predicate InRun(cfg: TableConfig, mem: Memory, x: nat, b: nat)
    requires cfg.Wellformed()
  {
    forall c: Word | x < c < b :: Continues(cfg, mem, c)
  }

  /** The address `x` is translated into the physical range of the page. */
  predicate TranslatedInto(cfg: TableConfig, mem: Memory, x: Word, page: Fragment)
    requires cfg.Wellformed()
  {
    var m := PlainMapping(cfg, mem, x);
    page.flags.valid && m.Mapped? && page.pa <= m.pa < page.pa + page.size
  }

  /** If a page starts at `b`, no address of the run before it, as far back as `lo`, is translated
      into that page. */
  ghost predicate ApartFromRun(cfg: TableConfig, mem: Memory, lo: nat, b: Word)
    requires cfg.Wellformed()
  {
    Walk(cfg, mem, b).Walked? && AtBoundary(cfg, mem, b) ==>
      forall x: Word | lo <= x < b && InRun(cfg, mem, x, b) :: !TranslatedInto(cfg, mem, x, PageAt(cfg, mem, b))
  }

  ghost predicate RunsApart(cfg: TableConfig, mem: Memory, lo: nat, from: nat, end: nat)
    requires cfg.Wellformed() && end <= TWO64
  {
    forall b: Word | from <= b < end :: ApartFromRun(cfg, mem, lo, b)
  }

  // -------------------------------------------------------- the run being built

  /** `last` is the final page of the run `f`. */
  predicate LastPageOf(f: Fragment, last: Fragment) {
    && 0 < last.size <= f.size && last.va + last.size == f.va + f.size
    && f.flags.valid == last.flags.valid
    && (f.flags.valid ==> SameAttributes(f.flags, last.flags) && f.pa + f.size == last.pa + last.size)
  }

  /** `prev` is the run that ends at `addr`: it cannot be extended downwards. */
  ghost predicate WholeRun(cfg: TableConfig, mem: Memory, lo: nat, addr: nat, prev: Fragment)
    requires cfg.Wellformed()
  {
    && AtBoundary(cfg, mem, addr) && LastPageOf(prev, PageAt(cfg, mem, addr - 1))
    && lo <= prev.va && (lo < prev.va ==> !Continues(cfg, mem, prev.va))
    && InRun(cfg, mem, prev.va, addr)
  }

  lemma SameAttributesEither(p: Pte, q: Pte, r: Pte)
    requires SameAttributes(p, q)
    ensures SameAttributes(p, r) <==> SameAttributes(q, r)
  {
    assert p.(baseAddress := r.baseAddress) == q.(baseAddress := r.baseAddress);
  }

  lemma SameAttributesSameValidity(p: Pte, q: Pte)
    ensures SameAttributes(p, q) ==> p.valid == q.valid
  {}

  lemma SameContiguity(f: Fragment, last: Fragment, curr: Fragment)
    requires LastPageOf(f, last) && PhysicalBound(f) && PhysicalBound(last)
    requires f.va + f.size == curr.va
    ensures IsContiguous(f, curr) == IsContiguous(last, curr)
  {
    hide Plus, SameAttributes;
    PlusFits(f.va, f.size);
    PlusFits(last.va, last.size);
    SameAttributesSameValidity(f.flags, curr.flags);
    SameAttributesSameValidity(last.flags, curr.flags);
    if f.flags.valid {
      SameAttributesEither(f.flags, last.flags, curr.flags);
      PlusFits(f.pa, f.size);
      PlusFits(last.pa, last.size);
    }
  }

  /** The page overlaps the run exactly when some address of the run is translated into it. */
  lemma OverlapIsTranslation(cfg: TableConfig, mem: Memory, prev: Fragment, curr: Fragment)
    requires cfg.Wellformed() && FragmentMeans(cfg, mem, prev) && PhysicalBound(prev) && PhysicalBound(curr)
    requires 0 < curr.size && prev.va + prev.size == curr.va
    ensures FragmentsOverlap(prev, curr)
            <==> exists x: Word :: Holds(prev, x) && TranslatedInto(cfg, mem, x, curr)
  {
    OverlapIsPhysical(prev, curr);
    hide FragmentsOverlap, Walk, PlainMapping;
    if FragmentsOverlap(prev, curr) {
      var x: Word := if prev.pa < curr.pa then prev.va + (curr.pa - prev.pa) else prev.va;
      assert AddressMeans(cfg, mem, prev, x);
      assert Holds(prev, x) && TranslatedInto(cfg, mem, x, curr);
    }
    if x: Word :| Holds(prev, x) && TranslatedInto(cfg, mem, x, curr) {
      assert AddressMeans(cfg, mem, prev, x);
    }
  }

  /** The addresses of the run before `addr` are those of `prev`. */
  lemma RunIsPrev(cfg: TableConfig, mem: Memory, lo: nat, addr: nat, prev: Fragment, x: Word)
    requires cfg.Wellformed() && WholeRun(cfg, mem, lo, addr, prev)
    requires prev.va + prev.size == addr
    ensures lo <= x < addr && InRun(cfg, mem, x, addr) <==> Holds(prev, x)
  {
    hide Continues, PageAt, AtBoundary;
  }

  lemma ApartIffNoOverlap(cfg: TableConfig, mem: Memory, lo: nat, addr: Word, end: nat, prev: Fragment)
    requires Building(cfg, mem, addr, end, prev) && addr < end && Walk(cfg, mem, addr).Walked?
    requires WholeRun(cfg, mem, lo, addr, prev)
    ensures ApartFromRun(cfg, mem, lo, addr) <==> !FragmentsOverlap(prev, PageAt(cfg, mem, addr))
  {
    hide Walk, WalkedAlike, FragmentsOverlap, TranslatedInto, PageAt, InRun, FragmentMeans;
    var curr := PageAt(cfg, mem, addr);
    StepBuilding(cfg, mem, addr, end, prev);
    OverlapIsTranslation(cfg, mem, prev, curr);
    forall x: Word ensures lo <= x < addr && InRun(cfg, mem, x, addr) <==> Holds(prev, x) {
      RunIsPrev(cfg, mem, lo, addr, prev, x);
    }
    hide WholeRun;
  }

  // -------------------------------------------------------------------- stepping

  /** Inside a page nothing starts. */
  lemma NothingInside(cfg: TableConfig, mem: Memory, lo: nat, va: Word, x: Word)
    requires UniformTable(cfg, mem) && Walk(cfg, mem, va).Walked?
    requires va == PageAt(cfg, mem, va).va && Holds(PageAt(cfg, mem, va), x) && va < x
    ensures Walk(cfg, mem, x).Walked? && Continues(cfg, mem, x) && ApartFromRun(cfg, mem, lo, x)
  {
    hide Walk, WalkedAlike, PageAt, IsContiguous;
    PageAddressMeans(cfg, mem, va, x);
    PageAddressMeans(cfg, mem, va, x - 1);
  }

  /** The run after one more page. */
  lemma WholeRunStep(cfg: TableConfig, mem: Memory, lo: nat, addr: Word, end: nat, prev: Fragment)
    requires Building(cfg, mem, addr, end, prev) && addr < end && Walk(cfg, mem, addr).Walked?
    requires WholeRun(cfg, mem, lo, addr, prev)
    ensures var curr := PageAt(cfg, mem, addr);
            curr.va + curr.size < TWO64 ==> WholeRun(cfg, mem, lo, curr.va + curr.size, Extended(prev, curr))
  {
    hide Walk, WalkedAlike, FragmentMeans, PageAt;
    var curr := PageAt(cfg, mem, addr);
    var last := PageAt(cfg, mem, addr - 1);
    var next := curr.va + curr.size;
    StepBuilding(cfg, mem, addr, end, prev);
    PagePhysicalBound(cfg, mem, addr - 1);
    SameContiguity(prev, last, curr);
    PageAddressMeans(cfg, mem, addr, next - 1);
    forall c: Word | addr < c < next ensures Continues(cfg, mem, c) {
      NothingInside(cfg, mem, lo, addr, c);
    }
    assert Continues(cfg, mem, addr) <==> IsContiguous(prev, curr) == Contiguous;
    hide Continues, Building;
    if IsContiguous(prev, curr) == Contiguous && next < TWO64 {
      GrownRun(prev, last, curr);
    }
  }

  /** The fragment under construction once `curr` is added, with combining. */
  function Extended(prev: Fragment, curr: Fragment): Fragment {
    if IsContiguous(prev, curr) == Contiguous then Grow(prev, curr) else curr
  }

  lemma GrownRun(prev: Fragment, last: Fragment, curr: Fragment)
    requires LastPageOf(prev, last) && PhysicalBound(prev) && prev.va + prev.size == curr.va
    requires 0 < curr.size && curr.va + curr.size < TWO64 && IsContiguous(prev, curr) == Contiguous
    ensures LastPageOf(Grow(prev, curr), curr) && Grow(prev, curr).va == prev.va
  {
    hide Plus;
    PlusFits(prev.va, prev.size);
    PlusFits(prev.size, curr.size);
    if prev.flags.valid {
      PlusFits(prev.pa, prev.size);
    }
  }

  /** The conditions on a range, split where its first page ends. */
  lemma SplitRuns(cfg: TableConfig, mem: Memory, lo: nat, addr: nat, next: nat, end: nat)
    requires cfg.Wellformed() && addr < next && addr < end <= TWO64
    requires forall x: Word | addr < x < next :: ApartFromRun(cfg, mem, lo, x)
    requires forall x: Word | addr <= x < next :: Walk(cfg, mem, x).Walked?
    ensures AllWalked(cfg, mem, addr, end) <==> AllWalked(cfg, mem, next, end)
    ensures RunsApart(cfg, mem, lo, addr, end)
            <==> ApartFromRun(cfg, mem, lo, addr) && RunsApart(cfg, mem, lo, next, end)
  {
    hide Walk, ApartFromRun;
  }

  lemma {:induction false} CombinedListedIff(
    cfg: TableConfig, mem: Memory, lo: nat, addr: nat, end: nat, prev: Fragment)
    requires Building(cfg, mem, addr, end, prev) && (addr < TWO64 ==> WholeRun(cfg, mem, lo, addr, prev))
    ensures 0 < end
    ensures RangeFrom(cfg, mem, addr, end, prev, true).Listed?
            <==> AllWalked(cfg, mem, addr, end) && RunsApart(cfg, mem, lo, addr, end) && EndsBelowTop(cfg, mem, end)
    ensures RangeFrom(cfg, mem, addr, end, prev, true) == TopReached
            <==> AllWalked(cfg, mem, addr, end) && RunsApart(cfg, mem, lo, addr, end) && !EndsBelowTop(cfg, mem, end)
    decreases TWO64 - addr
  {
    hide Walk, WalkedAlike, PageAt, FragmentsOverlap, IsContiguous, FragmentMeans;
    hide WholeRun, ApartFromRun, EndsBelowTop;
    if end <= addr {
      LastPageEnds(cfg, mem, addr, end, prev);
    } else if Walk(cfg, mem, addr).Walked? {
      var curr := PageAt(cfg, mem, addr);
      var next := curr.va + curr.size;
      StepBuilding(cfg, mem, addr, end, prev);
      WholeRunStep(cfg, mem, lo, addr, end, prev);
      ApartIffNoOverlap(cfg, mem, lo, addr, end, prev);
      forall x: Word | addr < x < next ensures Walk(cfg, mem, x).Walked? && ApartFromRun(cfg, mem, lo, x) {
        NothingInside(cfg, mem, lo, addr, x);
      }
      SplitRuns(cfg, mem, lo, addr, next, end);
      if next == TWO64 {
        LastPageEnds(cfg, mem, next, end, curr);
      } else {
        hide Building, AllWalked, RunsApart;
        CombinedListedIff(cfg, mem, lo, next, end, Extended(prev, curr));
      }
    }
  }

  /** Every address from `va` to the moved end can be walked, and no page is one that the run before
      it already translates into. */
  ghost predicate JointlyTranslatable(cfg: TableConfig, mem: Memory, va: Word, size: Word)
    requires cfg.Wellformed() && RangeBounded(cfg, mem, va, size)
  {
    Walk(cfg, mem, va).Walked? &&
    var first, end := PageAt(cfg, mem, va), RangeEnd(cfg, mem, va, size);
    AllWalked(cfg, mem, first.va + first.size, end) && RunsApart(cfg, mem, first.va, first.va + first.size, end)
  }

  /** With combining, a range is listed exactly when every address up to its moved end can be
      walked, no page is one that the run before it already translates into, and it ends below the
      top page; if it ends on the top page, the cursor wraps. */
  lemma CombinedRangeListedIff(cfg: TableConfig, mem: Memory, va: Word, size: Word)
    requires UniformTable(cfg, mem) && Unwrapped(cfg, mem, va, size) && size > 0
    ensures TranslateRange(cfg, mem, va, size, true).Listed?
            <==> JointlyTranslatable(cfg, mem, va, size) && StopsBelowTop(cfg, mem, va, size)
    ensures TranslateRange(cfg, mem, va, size, true) == TopReached
            <==> JointlyTranslatable(cfg, mem, va, size) && !StopsBelowTop(cfg, mem, va, size)
  {
    hide Walk, WalkedAlike, PageAt, Building, RangeFrom, RangeEnd, IsContiguous, ApartFromRun, TranslateRange;
    hide AllWalked, RunsApart, EndsBelowTop;
    UnwrappedRange(cfg, mem, va, size, true);
    if Walk(cfg, mem, va).Walked? {
      var first := PageAt(cfg, mem, va);
      FirstPage(cfg, mem, va, size);
      FirstRun(cfg, mem, va);
      CombinedListedIff(cfg, mem, first.va, first.va + first.size, RangeEnd(cfg, mem, va, size), first);
    }
  }

  lemma FirstRun(cfg: TableConfig, mem: Memory, va: Word)
    requires UniformTable(cfg, mem) && Walk(cfg, mem, va).Walked?
    ensures var first := PageAt(cfg, mem, va);
            WholeRun(cfg, mem, first.va, first.va + first.size, first)
  {
    hide Walk, WalkedAlike, PageAt, Continues, ApartFromRun;
    var first := PageAt(cfg, mem, va);
    LastAddressOfPage(cfg, mem, va, first.va + first.size - 1);
    PageAddressMeans(cfg, mem, va, first.va);
    forall c: Word | first.va < c < first.va + first.size ensures Continues(cfg, mem, c) {
      NothingInside(cfg, mem, first.va, first.va, c);
    }
  }
}
