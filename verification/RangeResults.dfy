/** Main results about translated ranges. */
module RangeResults {
  import opened Words
  import opened PageTable
  import opened Blocks
  import opened Fragments
  import opened RangeMeaning

  // ------------------------------------------------------------------ tiling

  lemma FirstPage(cfg: TableConfig, mem: Memory, va: Word, size: Word)
    requires UniformTable(cfg, mem) && Unwrapped(cfg, mem, va, size) && size > 0 && Walk(cfg, mem, va).Walked?
    ensures var first := PageAt(cfg, mem, va);
            Building(cfg, mem, first.va + first.size, RangeEnd(cfg, mem, va, size), first)
  {
    hide Walk, WalkedAlike, PageAt, FragmentMeans;
    var first := PageAt(cfg, mem, va);
    PageMeans(cfg, mem, va);
    PagePhysicalBound(cfg, mem, va);
    PageAddressMeans(cfg, mem, va, first.va + first.size - 1);
  }

  /** A non-empty range that is listed starts at its first page, tiles past its end without gap or
      overlap, and its last page starts before the adjusted end; the code-bug exit is never taken. */
  lemma RangeIsTiled(cfg: TableConfig, mem: Memory, va: Word, size: Word, combine: bool)
    requires UniformTable(cfg, mem) && Unwrapped(cfg, mem, va, size)
    ensures var r := TranslateRange(cfg, mem, va, size, combine);
            && r != Aborted
            && (r.Listed? && size > 0 ==>
                  && Walk(cfg, mem, va).Walked?
                  && Finished(cfg, mem, r.fragments, PageAt(cfg, mem, va).va, RangeEnd(cfg, mem, va, size)))
  {
    hide Walk, WalkedAlike, PageAt, Finished, Building, RangeFrom, RangeEnd, TranslateRange;
    UnwrappedRange(cfg, mem, va, size, combine);
    if size > 0 && Walk(cfg, mem, va).Walked? {
      var first := PageAt(cfg, mem, va);
      FirstPage(cfg, mem, va, size);
      RangeFromFinished(cfg, mem, first.va + first.size, RangeEnd(cfg, mem, va, size), first, combine);
    }
  }

  // ----------------------------------------------------- meaning of the list

  lemma {:induction false} TiledMapping(
    cfg: TableConfig, mem: Memory, list: seq<Fragment>, lo: nat, hi: nat, x: Word)
    requires cfg.Wellformed() && Tiles(list, lo, hi) && lo <= x < hi
    requires forall f | f in list :: FragmentMeans(cfg, mem, f)
    ensures Walk(cfg, mem, x).Walked?
    ensures ListMapping(list, x) == PlainMapping(cfg, mem, x)
    decreases |list|
  {
    hide Walk, PlainMapping, FragmentMapping;
    if Holds(list[0], x) {
      assert FragmentMeans(cfg, mem, list[0]);
      assert AddressMeans(cfg, mem, list[0], x);
    } else {
      TiledMapping(cfg, mem, list[1..], lo + list[0].size, hi, x);
    }
  }

  lemma {:induction false} NotTiled(list: seq<Fragment>, lo: nat, hi: nat, x: Word)
    requires Tiles(list, lo, hi) && !(lo <= x < hi)
    ensures ListMapping(list, x) == Unmapped
    decreases |list|
  {
    hide FragmentMapping;
    if list != [] {
      TilesForward(list, lo, hi);
      NotTiled(list[1..], lo + list[0].size, hi, x);
    }
  }

  lemma {:induction false} TilesForward(list: seq<Fragment>, lo: nat, hi: nat)
    requires Tiles(list, lo, hi)
    ensures lo <= hi && (list != [] ==> lo + list[0].size <= hi)
    decreases |list|
  {
    if list != [] {
      TilesForward(list[1..], lo + list[0].size, hi);
    }
  }

  /** Where the page of the last address before `end` ends. */
  function PageEnd(cfg: TableConfig, mem: Memory, end: nat): nat
    requires cfg.Wellformed() && 0 < end <= TWO64
  {
    hide Walk;
    if Walk(cfg, mem, end - 1).Walked? then PageAt(cfg, mem, end - 1).va + PageAt(cfg, mem, end - 1).size else end
  }

  /** The list ends where the page of the last address ends. */
  lemma LastBoundary(cfg: TableConfig, mem: Memory, list: seq<Fragment>, lo: nat, end: nat, hi: nat)
    requires UniformTable(cfg, mem) && 0 < end && EndsAt(cfg, mem, list, lo, end, hi)
    ensures end <= hi <= TWO64 && PageEnd(cfg, mem, end) == hi
  {
    hide Walk, WalkedAlike, PageAt, Tiles;
    PageAddressMeans(cfg, mem, hi - 1, end - 1);
  }

  /** Of all addresses the list translates those from `lo` to `hi`, as the plain walk does. */
  predicate MapsExactly(cfg: TableConfig, mem: Memory, list: seq<Fragment>, lo: nat, hi: nat, x: Word)
    requires cfg.Wellformed()
  {
    if lo <= x < hi then Walk(cfg, mem, x).Walked? && ListMapping(list, x) == PlainMapping(cfg, mem, x)
    else ListMapping(list, x) == Unmapped
  }

  /** A listed range translates exactly the addresses from its first page to its last: each as the
      plain walk does, and no others. */
  lemma RangeMapsPages(cfg: TableConfig, mem: Memory, va: Word, size: Word, combine: bool, x: Word)
    requires UniformTable(cfg, mem) && Unwrapped(cfg, mem, va, size) && size > 0
    requires TranslateRange(cfg, mem, va, size, combine).Listed?
    ensures Walk(cfg, mem, va).Walked?
    ensures PageEnd(cfg, mem, RangeEnd(cfg, mem, va, size)) >= RangeEnd(cfg, mem, va, size)
    ensures MapsExactly(cfg, mem, TranslateRange(cfg, mem, va, size, combine).fragments, PageAt(cfg, mem, va).va,
                        PageEnd(cfg, mem, RangeEnd(cfg, mem, va, size)), x)
  {
    hide Walk, WalkedAlike, PlainMapping, TranslateRange, FragmentMeans, AtBoundary, ListMapping, PageAt, RangeEnd;
    hide PageEnd;
    RangeIsTiled(cfg, mem, va, size, combine);
    var list := TranslateRange(cfg, mem, va, size, combine).fragments;
    var lo, end := PageAt(cfg, mem, va).va, RangeEnd(cfg, mem, va, size);
    var hi :| EndsAt(cfg, mem, list, lo, end, hi);
    LastBoundary(cfg, mem, list, lo, end, hi);
    if lo <= x < hi {
      TiledMapping(cfg, mem, list, lo, hi, x);
    } else {
      NotTiled(list, lo, hi, x);
    }
  }

  /** A listed range translates every one of its addresses exactly as the plain walk does:
      combining neighbours changes no physical address, no attribute and no validity. */
  lemma RangeTranslates(cfg: TableConfig, mem: Memory, va: Word, size: Word, combine: bool, x: Word)
    requires UniformTable(cfg, mem) && Unwrapped(cfg, mem, va, size)
    requires TranslateRange(cfg, mem, va, size, combine).Listed?
    requires size > 0 && va <= x < va + size
    ensures Walk(cfg, mem, x).Walked?
    ensures ListMapping(TranslateRange(cfg, mem, va, size, combine).fragments, x) == PlainMapping(cfg, mem, x)
  {
    hide Walk, WalkedAlike, PlainMapping, TranslateRange, ListMapping, PageAt, PageEnd;
    RangeMapsPages(cfg, mem, va, size, combine, x);
  }

  // --------------------------------------------------------------- neighbours

  predicate PhysicallyIntersect(f: Fragment, g: Fragment) {
    f.pa < g.pa + g.size && g.pa < f.pa + f.size
  }

  /** The overlap test for any two fragments: the second starts inside the first, or their physical
      ranges intersect. */
  lemma OverlapMeans(f: Fragment, g: Fragment)
    requires 0 < f.size && 0 < g.size && f.va + f.size < TWO64 && PhysicalBound(f) && PhysicalBound(g)
    ensures FragmentsOverlap(f, g)
            <==> f.flags.valid && g.flags.valid && (f.va <= g.va < f.va + f.size || PhysicallyIntersect(f, g))
  {
    hide Plus;
    PlusFits(f.va, f.size);
    if f.flags.valid && g.flags.valid {
      PlusFits(f.pa, f.size);
      PlusFits(g.pa, g.size);
    }
  }

  /** For a page that starts where the previous fragment ends, the overlap test is purely
      physical: the duplicate and the virtual-overlap branches cannot be taken. */
  lemma OverlapIsPhysical(prev: Fragment, curr: Fragment)
    requires 0 < prev.size && 0 < curr.size && prev.va + prev.size == curr.va
    requires PhysicalBound(prev) && PhysicalBound(curr)
    ensures FragmentsOverlap(prev, curr)
            <==> prev.flags.valid && curr.flags.valid && PhysicallyIntersect(prev, curr)
  {
    hide FragmentsOverlap;
    OverlapMeans(prev, curr);
  }

  /** `off`, the last page on its own, lies at the end of `on`, the same page with its run. */
  predicate Shadows(off: Fragment, on: Fragment) {
    && off.flags.valid == on.flags.valid
    && (on.flags.valid ==> on.pa <= off.pa && on.pa + on.size == off.pa + off.size)
  }

  lemma {:induction false} CombinedSucceedsSeparateSucceeds(
    cfg: TableConfig, mem: Memory, addr: nat, end: nat, on: Fragment, off: Fragment)
    requires Building(cfg, mem, addr, end, on) && Building(cfg, mem, addr, end, off)
    requires Shadows(off, on)
    requires RangeFrom(cfg, mem, addr, end, on, true).Listed?
    ensures RangeFrom(cfg, mem, addr, end, off, false).Listed?
    decreases TWO64 - addr
  {
    hide Walk, WalkedAlike, FragmentMeans, PageAt, AtBoundary, FragmentsOverlap, IsContiguous;
    if addr < end {
      var curr := PageAt(cfg, mem, addr);
      StepBuilding(cfg, mem, addr, end, on);
      StepBuilding(cfg, mem, addr, end, off);
      ShadowStep(on, off, curr);
      hide Building;
      var next := curr.va + curr.size;
      var grown := if IsContiguous(on, curr) == Contiguous then Grow(on, curr) else curr;
      if next < TWO64 {
        CombinedSucceedsSeparateSucceeds(cfg, mem, next, end, grown, curr);
      }
    }
  }

  /** The physical overlap test is monotone in the run that precedes the page. */
  lemma ShadowStep(on: Fragment, off: Fragment, curr: Fragment)
    requires 0 < on.size && 0 < off.size && 0 < curr.size
    requires on.va + on.size == curr.va == off.va + off.size
    requires PhysicalBound(on) && PhysicalBound(off) && PhysicalBound(curr) && Shadows(off, on)
    ensures FragmentsOverlap(off, curr) ==> FragmentsOverlap(on, curr)
    ensures IsContiguous(on, curr) == Contiguous && curr.va + curr.size < TWO64 ==> Shadows(curr, Grow(on, curr))
  {
    OverlapIsPhysical(on, curr);
    OverlapIsPhysical(off, curr);
    hide FragmentsOverlap, Plus, SameAttributes;
    PlusFits(on.va, on.size);
    if curr.va + curr.size < TWO64 {
      PlusFits(on.size, curr.size);
    }
    if on.flags.valid {
      PlusFits(on.pa, on.size);
    }
  }

  /** If a range can be listed with combining it can be listed without, and the two lists are the
      same translation: of the addresses asked for, of those around them that share their first and
      last page, and of no others. */
  lemma CombiningPreservesTranslation(cfg: TableConfig, mem: Memory, va: Word, size: Word)
    requires UniformTable(cfg, mem) && Unwrapped(cfg, mem, va, size)
    requires TranslateRange(cfg, mem, va, size, true).Listed?
    ensures TranslateRange(cfg, mem, va, size, false).Listed?
    ensures forall x: Word ::
              ListMapping(TranslateRange(cfg, mem, va, size, true).fragments, x)
              == ListMapping(TranslateRange(cfg, mem, va, size, false).fragments, x)
  {
    hide Walk, WalkedAlike, PageAt, Building, RangeFrom, RangeEnd, ListMapping, PlainMapping, TranslateRange, PageEnd;
    UnwrappedRange(cfg, mem, va, size, true);
    UnwrappedRange(cfg, mem, va, size, false);
    if size > 0 {
      var first := PageAt(cfg, mem, va);
      FirstPage(cfg, mem, va, size);
      CombinedSucceedsSeparateSucceeds(
        cfg, mem, first.va + first.size, RangeEnd(cfg, mem, va, size), first, first);
      forall x: Word
        ensures ListMapping(TranslateRange(cfg, mem, va, size, true).fragments, x)
                == ListMapping(TranslateRange(cfg, mem, va, size, false).fragments, x)
      {
        RangeMapsPages(cfg, mem, va, size, true, x);
        RangeMapsPages(cfg, mem, va, size, false, x);
      }
    }
  }

  // ---------------------------------------------------------------- canonical

  /** Neighbours that are one run: both invalid, or valid with adjacent memory and equal attributes. */
  predicate OneRun(f: Fragment, g: Fragment) {
    if f.flags.valid && g.flags.valid
    then f.pa + f.size == g.pa && Attributes(f.flags) == Attributes(g.flags)
    else !f.flags.valid && !g.flags.valid
  }

  /** The contiguity test for any two fragments. */
  lemma ContiguityIsOneRun(prev: Fragment, curr: Fragment)
    requires prev.va + prev.size < TWO64 && PhysicalBound(prev)
    ensures IsContiguous(prev, curr)
            == if prev.va + prev.size > curr.va then CodeBug
               else if prev.va + prev.size == curr.va && OneRun(prev, curr) then Contiguous else Separate
  {
    SameIfAttributesEqual(prev.flags, curr.flags);
    hide Plus, SameAttributes;
    PlusFits(prev.va, prev.size);
    if prev.flags.valid {
      PlusFits(prev.pa, prev.size);
    }
  }

  lemma SameIfAttributesEqual(p: Pte, q: Pte)
    ensures SameAttributes(p, q) <==> Attributes(p) == Attributes(q)
    ensures SameAttributes(p, q) ==> p.valid == q.valid
  {
    hide SameAttributes, EqualFields, Attributes;
    EntriesEqual(Attributes(p), Attributes(q));
    AllAttributes(p, q);
    FieldsOfAttributes(p, q);
  }

  lemma FieldsOfAttributes(p: Pte, q: Pte)
    ensures EqualFields(Attributes(p), Attributes(q)) <==> EqualFields(p, q)
    ensures Attributes(p).baseAddress == Attributes(q).baseAddress
    ensures EqualFields(p, q) ==> p.valid == q.valid
  {}

  /** No two neighbours are one run. */
  predicate Canonical(list: seq<Fragment>) {
    |list| >= 2 ==> !OneRun(list[0], list[1]) && Canonical(list[1..])
  }

  /** The two fragments differ in size at most. */
  predicate SameHead(f: Fragment, g: Fragment) {
    f.(size := 0) == g.(size := 0)
  }

  lemma {:induction false} CombinedIsCanonical(cfg: TableConfig, mem: Memory, addr: nat, end: nat, prev: Fragment)
    requires Building(cfg, mem, addr, end, prev)
    requires RangeFrom(cfg, mem, addr, end, prev, true).Listed?
    ensures var list := RangeFrom(cfg, mem, addr, end, prev, true).fragments;
            list != [] && SameHead(list[0], prev) && Canonical(list)
    decreases TWO64 - addr
  {
    hide Walk, WalkedAlike, FragmentMeans, PhysicalBound, PageAt, AtBoundary;
    hide FragmentsOverlap, IsContiguous, Attributes;
    if addr < end && addr < TWO64 {
      var curr := PageAt(cfg, mem, addr);
      StepBuilding(cfg, mem, addr, end, prev);
      ContiguityIsOneRun(prev, curr);
      var next := curr.va + curr.size;
      if next == TWO64 {
      } else if IsContiguous(prev, curr) == Contiguous {
        CombinedIsCanonical(cfg, mem, next, end, Grow(prev, curr));
      } else {
        CombinedIsCanonical(cfg, mem, next, end, curr);
        var rest := RangeFrom(cfg, mem, next, end, curr, true).fragments;
        assert ([prev] + rest)[1..] == rest;
      }
    }
  }

  /** A combined list is canonical. */
  lemma CombinedListIsCanonical(cfg: TableConfig, mem: Memory, va: Word, size: Word)
    requires UniformTable(cfg, mem) && Unwrapped(cfg, mem, va, size)
    requires TranslateRange(cfg, mem, va, size, true).Listed?
    ensures Canonical(TranslateRange(cfg, mem, va, size, true).fragments)
  {
    hide Walk, WalkedAlike, PageAt, Building, RangeFrom, RangeEnd, TranslateRange;
    UnwrappedRange(cfg, mem, va, size, true);
    if size > 0 {
      var first := PageAt(cfg, mem, va);
      FirstPage(cfg, mem, va, size);
      CombinedIsCanonical(cfg, mem, first.va + first.size, RangeEnd(cfg, mem, va, size), first);
    }
  }

  // -------------------------------------------------- when a range is listed

  ghost predicate AllWalked(cfg: TableConfig, mem: Memory, lo: nat, end: nat)
    requires cfg.Wellformed() && end <= TWO64
  {
    forall x: Word | lo <= x < end :: Walk(cfg, mem, x).Walked?
  }

  /** No page that starts in the range overlaps the page before it. */
  ghost predicate NeighboursApart(cfg: TableConfig, mem: Memory, lo: nat, end: nat)
    requires cfg.Wellformed() && end <= TWO64
  {
    forall b: Word | lo <= b < end :: PagesApart(cfg, mem, b)
  }

  predicate PagesApart(cfg: TableConfig, mem: Memory, b: Word)
    requires cfg.Wellformed()
  {
    hide Walk;
    0 < b && Walk(cfg, mem, b - 1).Walked? && Walk(cfg, mem, b).Walked? && AtBoundary(cfg, mem, b)
    ==> !FragmentsOverlap(PageAt(cfg, mem, b - 1), PageAt(cfg, mem, b))
  }

  /** The page of the last address does not end at 2^64, from where the cursor would wrap. */
  predicate EndsBelowTop(cfg: TableConfig, mem: Memory, end: nat)
    requires cfg.Wellformed() && 0 < end <= TWO64
  {
    Walk(cfg, mem, end - 1).Walked? ==> PageEnd(cfg, mem, end) < TWO64
  }

  /** Past the end of the range, its last address is on the page before the cursor. */
  lemma LastPageEnds(cfg: TableConfig, mem: Memory, addr: nat, end: nat, prev: Fragment)
    requires Building(cfg, mem, addr, end, prev) && end <= addr
    ensures 0 < end && (EndsBelowTop(cfg, mem, end) <==> addr < TWO64)
  {
    hide Walk, WalkedAlike, PageAt, FragmentMeans;
    PageAddressMeans(cfg, mem, addr - 1, end - 1);
  }

  /** Inside a page every address is walked and no page starts. */
  lemma InsidePage(cfg: TableConfig, mem: Memory, va: Word, x: Word)
    requires UniformTable(cfg, mem) && Walk(cfg, mem, va).Walked?
    requires va == PageAt(cfg, mem, va).va && Holds(PageAt(cfg, mem, va), x)
    ensures Walk(cfg, mem, x).Walked? && (va < x ==> PagesApart(cfg, mem, x))
  {
    hide Walk, WalkedAlike, PageAt, FragmentsOverlap;
    PageAddressMeans(cfg, mem, va, x);
    if va < x {
      PageAddressMeans(cfg, mem, va, x - 1);
    }
  }

  lemma {:induction false} SeparateListedIff(cfg: TableConfig, mem: Memory, addr: nat, end: nat, prev: Fragment)
    requires Building(cfg, mem, addr, end, prev) && prev == PageAt(cfg, mem, addr - 1)
    ensures 0 < end
    ensures RangeFrom(cfg, mem, addr, end, prev, false).Listed?
            <==> AllWalked(cfg, mem, addr, end) && NeighboursApart(cfg, mem, addr, end) && EndsBelowTop(cfg, mem, end)
    ensures RangeFrom(cfg, mem, addr, end, prev, false) == TopReached
            <==> AllWalked(cfg, mem, addr, end) && NeighboursApart(cfg, mem, addr, end) && !EndsBelowTop(cfg, mem, end)
    decreases TWO64 - addr
  {
    hide Walk, WalkedAlike, PageAt, FragmentsOverlap, FragmentMeans, EndsBelowTop;
    if end <= addr {
      LastPageEnds(cfg, mem, addr, end, prev);
    } else if Walk(cfg, mem, addr).Walked? {
      var curr := PageAt(cfg, mem, addr);
      var next := curr.va + curr.size;
      StepBuilding(cfg, mem, addr, end, prev);
      PageAddressMeans(cfg, mem, addr, next - 1);
      SeparateListedIff(cfg, mem, next, end, curr);
      assert PagesApart(cfg, mem, addr) <==> !FragmentsOverlap(prev, curr);
      forall x: Word | addr <= x < next
        ensures Walk(cfg, mem, x).Walked? && (addr < x ==> PagesApart(cfg, mem, x))
      {
        InsidePage(cfg, mem, addr, x);
      }
      hide PagesApart;
      SplitRange(cfg, mem, addr, next, end);
    }
  }

  /** The two conditions on a range, split where its first page ends. */
  lemma SplitRange(cfg: TableConfig, mem: Memory, addr: nat, next: nat, end: nat)
    requires cfg.Wellformed() && addr < next && addr < end <= TWO64
    requires forall x: Word | addr <= x < next ::
               Walk(cfg, mem, x).Walked? && (addr < x ==> PagesApart(cfg, mem, x))
    ensures AllWalked(cfg, mem, addr, end) <==> AllWalked(cfg, mem, next, end)
    ensures NeighboursApart(cfg, mem, addr, end)
            <==> PagesApart(cfg, mem, addr) && NeighboursApart(cfg, mem, next, end)
  {
    hide Walk, PagesApart;
  }

  lemma LastAddressOfPage(cfg: TableConfig, mem: Memory, va: Word, last: Word)
    requires UniformTable(cfg, mem) && Walk(cfg, mem, va).Walked?
    requires last + 1 == PageAt(cfg, mem, va).va + PageAt(cfg, mem, va).size
    ensures Walk(cfg, mem, last).Walked? && PageAt(cfg, mem, last) == PageAt(cfg, mem, va)
  {
    hide Walk, WalkedAlike, PageAt;
    PageAddressMeans(cfg, mem, va, last);
  }

  /** Every address from `va` to the moved end can be walked, and no page overlaps the one before. */
  ghost predicate SeparatelyTranslatable(cfg: TableConfig, mem: Memory, va: Word, size: Word)
    requires cfg.Wellformed() && RangeBounded(cfg, mem, va, size)
  {
    Walk(cfg, mem, va).Walked? &&
    var next, end := PageAt(cfg, mem, va).va + PageAt(cfg, mem, va).size, RangeEnd(cfg, mem, va, size);
    AllWalked(cfg, mem, next, end) && NeighboursApart(cfg, mem, next, end)
  }

  predicate RangeBounded(cfg: TableConfig, mem: Memory, va: Word, size: Word)
    requires cfg.Wellformed()
  {
    Walk(cfg, mem, va).Walked? ==> RangeEnd(cfg, mem, va, size) <= TWO64
  }

  /** The page of the last address of the moved range ends below 2^64. */
  predicate StopsBelowTop(cfg: TableConfig, mem: Memory, va: Word, size: Word)
    requires cfg.Wellformed() && RangeBounded(cfg, mem, va, size) && size > 0
  {
    Walk(cfg, mem, va).Walked? ==> EndsBelowTop(cfg, mem, RangeEnd(cfg, mem, va, size))
  }

  /** Without combining, a range is listed exactly when every address up to its moved end can be
      walked, no page in it overlaps the page before it, and it ends below the top page; if it ends
      on the top page, the cursor wraps. */
  lemma SeparateRangeListedIff(cfg: TableConfig, mem: Memory, va: Word, size: Word)
    requires UniformTable(cfg, mem) && Unwrapped(cfg, mem, va, size) && size > 0
    ensures TranslateRange(cfg, mem, va, size, false).Listed?
            <==> SeparatelyTranslatable(cfg, mem, va, size) && StopsBelowTop(cfg, mem, va, size)
    ensures TranslateRange(cfg, mem, va, size, false) == TopReached
            <==> SeparatelyTranslatable(cfg, mem, va, size) && !StopsBelowTop(cfg, mem, va, size)
  {
    hide Walk, WalkedAlike, PageAt, Building, RangeFrom, RangeEnd, TranslateRange;
    hide AllWalked, NeighboursApart, EndsBelowTop;
    UnwrappedRange(cfg, mem, va, size, false);
    if Walk(cfg, mem, va).Walked? {
      var first := PageAt(cfg, mem, va);
      FirstPage(cfg, mem, va, size);
      LastAddressOfPage(cfg, mem, va, first.va + first.size - 1);
      SeparateListedIff(cfg, mem, first.va + first.size, RangeEnd(cfg, mem, va, size), first);
    }
  }
}
