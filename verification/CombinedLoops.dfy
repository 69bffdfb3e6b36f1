/** Loops that combine pages and whose cursor wraps at 2^64: exactly when they end. */
module CombinedLoops {
  import opened Words
  import opened PageTable
  import opened Blocks
  import opened Fragments
  import opened RangeMeaning
  import opened RangeResults
  import opened RangeRuns
  import opened RangeLoop
  import opened ConsecutiveWalks
  import opened EndlessLoops

  // ------------------------------------------------------------------ runs of pages

  /** A valid page continues the valid page before it. */
  predicate Joins(p: Fragment, q: Fragment) {
    p.flags.valid && q.flags.valid && p.pa + p.size == q.pa && SameAttributes(p.flags, q.flags)
  }

  /** Where in physical memory the run of valid pages starts that ends at `c`. */
  function RunStart(cfg: TableConfig, mem: Memory, c: Word): (pa: Word)
    requires Walkable(cfg, mem)
    ensures pa <= Page(cfg, mem, Before(c)).pa
    decreases Page(cfg, mem, Before(c)).pa
  {
    hide Walkable, Page, SameAttributes;
    var p := Page(cfg, mem, Before(c));
    if Joins(Page(cfg, mem, Before(p.va)), p) then RunStart(cfg, mem, p.va) else p.pa
  }

  lemma RunStartStep(cfg: TableConfig, mem: Memory, c: Word)
    requires Walkable(cfg, mem) && Page(cfg, mem, c).va == c
    ensures var p, q := Page(cfg, mem, Before(c)), Page(cfg, mem, c);
            RunStart(cfg, mem, Plus(q.va, q.size)) == if Joins(p, q) then RunStart(cfg, mem, c) else q.pa
  {
    hide Walkable, Page, Plus, SameAttributes;
    PageAfter(cfg, mem, c);
  }

  /** Valid memory from `start` to the end of p has a byte of the valid page q. */
  predicate Meets(start: Word, p: Fragment, q: Fragment) {
    p.flags.valid && q.flags.valid && q.pa < p.pa + p.size && start < q.pa + q.size
  }

  /** The page at `c` maps a byte that the run before it maps. */
  predicate MeetsItsRun(cfg: TableConfig, mem: Memory, c: Word)
    requires Walkable(cfg, mem)
  {
    hide Walkable, Page;
    Page(cfg, mem, c).va == c && Meets(RunStart(cfg, mem, c), Page(cfg, mem, Before(c)), Page(cfg, mem, c))
  }

  /** Every address can be walked, and no page maps a byte that the run before it maps, where runs go
      on from the last page of the space to the first. */
  ghost predicate SpaceCombinable(cfg: TableConfig, mem: Memory)
    requires UniformTable(cfg, mem)
  {
    hide WalkedAlike;
    AllWalked(cfg, mem, 0, TWO64) && forall c: Word :: !MeetsItsRun(cfg, mem, c)
  }

  // ------------------------------------------------------------------------ rounds

  /** The fragment under construction is valid memory that ends with page p and starts no lower than
      `start`; or it is invalid, and so is p. */
  predicate Carries(prev: Fragment, p: Fragment, start: Word) {
    && prev.flags.valid == p.flags.valid
    && (p.flags.valid ==>
          && SameAttributes(prev.flags, p.flags) && start <= prev.pa <= p.pa
          && prev.pa + prev.size == p.pa + p.size)
  }

  lemma AttributesCarry(a: Pte, b: Pte, c: Pte)
    requires SameAttributes(a, b)
    ensures SameAttributes(a, c) == SameAttributes(b, c)
  {
    assert a.(baseAddress := b.baseAddress).(baseAddress := c.baseAddress) == a.(baseAddress := c.baseAddress);
  }

  lemma SameValidity(a: Pte, b: Pte)
    requires SameAttributes(a, b)
    ensures a.valid == b.valid
  {}

  lemma CarryOverlaps(prev: Fragment, p: Fragment, q: Fragment, start: Word)
    requires Carries(prev, p, start) && PhysicalBound(p) && PhysicalBound(q) && 0 < p.size && 0 < q.size
    requires Plus(prev.va, prev.size) == q.va
    ensures FragmentsOverlap(prev, q) <==> Meets(prev.pa, p, q)
  {
    hide SameAttributes, Plus;
    if p.flags.valid && q.flags.valid {
      PlusFits(prev.pa, prev.size);
      PlusFits(q.pa, q.size);
    }
  }

  lemma CarryContinues(prev: Fragment, p: Fragment, q: Fragment, start: Word)
    requires Carries(prev, p, start) && PhysicalBound(p)
    requires Plus(prev.va, prev.size) == q.va
    ensures IsContiguous(prev, q)
            == if (if p.flags.valid then Joins(p, q) else !q.flags.valid) then Contiguous else Separate
  {
    hide SameAttributes, Plus;
    if p.flags.valid {
      PlusFits(prev.pa, prev.size);
      AttributesCarry(prev.flags, p.flags, q.flags);
    }
    if SameAttributes(prev.flags, q.flags) {
      SameValidity(prev.flags, q.flags);
    }
  }

  lemma CarryGrows(prev: Fragment, p: Fragment, q: Fragment, start: Word)
    requires Carries(prev, p, start) && PhysicalBound(p) && PhysicalBound(q)
    requires if p.flags.valid then Joins(p, q) else !q.flags.valid
    ensures Carries(Grow(prev, q), q, start)
  {
    hide SameAttributes, Plus;
    if p.flags.valid {
      PlusFits(prev.size, q.size);
      AttributesCarry(prev.flags, p.flags, q.flags);
    }
  }

  /** The loop stands at a page, with a fragment that ends there. */
  ghost predicate OnRun(cfg: TableConfig, mem: Memory, end: Word, loop: Loop)
    requires Walkable(cfg, mem)
  {
    hide Walkable, Page;
    && !loop.first && loop.end == end && Page(cfg, mem, loop.cursor).va == loop.cursor
    && Plus(loop.prev.va, loop.prev.size) == loop.cursor
    && Carries(loop.prev, Page(cfg, mem, Before(loop.cursor)), RunStart(cfg, mem, loop.cursor))
  }

  lemma PageBound(cfg: TableConfig, mem: Memory, x: Word)
    requires Walkable(cfg, mem)
    ensures PhysicalBound(Page(cfg, mem, x))
  {
    hide Walk, WalkedAlike, PageAt;
    PagePhysicalBound(cfg, mem, x);
  }

  /** The round is the one that takes the page at the cursor. */
  lemma RoundTakesPage(cfg: TableConfig, mem: Memory, end: Word, loop: Loop)
    requires Walkable(cfg, mem) && 0 < end && !EndsBelowTop(cfg, mem, end) && OnRun(cfg, mem, end, loop)
    ensures PlainRound(cfg, mem, true, loop) == TakePage(loop, true, Page(cfg, mem, loop.cursor))
  {
    hide Walk, WalkedAlike, PageAt, TakePage, Plus, Carries, EndsBelowTop;
    CursorBelow(cfg, mem, end, loop.cursor);
    PlainStep(cfg, mem, true, loop);
  }

  /** What a round makes of the run: it is rejected if the page meets it; it grows if the page joins
      it; otherwise the page starts another one. */
  lemma RunStep(cfg: TableConfig, mem: Memory, end: Word, loop: Loop)
    requires Walkable(cfg, mem) && 0 < end && !EndsBelowTop(cfg, mem, end) && OnRun(cfg, mem, end, loop)
    ensures var p, q := Page(cfg, mem, Before(loop.cursor)), Page(cfg, mem, loop.cursor);
            var round := PlainRound(cfg, mem, true, loop);
            if Meets(loop.prev.pa, p, q) then round == Stopped(Rejected)
            else
              && round.Running? && OnRun(cfg, mem, end, round.loop) && round.loop.cursor == Plus(q.va, q.size)
              && (q.flags.valid ==> round.loop.prev.pa == if Joins(p, q) then loop.prev.pa else q.pa)
  {
    hide Walkable, Page, Plus, PlainRound, FragmentsOverlap, IsContiguous, RunStart, EndsBelowTop, SameAttributes;
    var c := loop.cursor;
    var p, q, start := Page(cfg, mem, Before(c)), Page(cfg, mem, c), RunStart(cfg, mem, c);
    RoundTakesPage(cfg, mem, end, loop);
    PageBound(cfg, mem, Before(c));
    PageBound(cfg, mem, c);
    CarryOverlaps(loop.prev, p, q, start);
    CarryContinues(loop.prev, p, q, start);
    PageAfter(cfg, mem, c);
    RunStartStep(cfg, mem, c);
    PlusAssociates(loop.prev.va, loop.prev.size, q.size);
    if if p.flags.valid then Joins(p, q) else !q.flags.valid {
      CarryGrows(loop.prev, p, q, start);
    }
    SelfAttributes(q.flags);
  }

  lemma SelfAttributes(a: Pte)
    ensures SameAttributes(a, a)
  {}

  // ------------------------------------------------- if nothing meets, no end

  lemma {:induction false} CombinableForever(cfg: TableConfig, mem: Memory, end: Word, loop: Loop, n: nat)
    requires Walkable(cfg, mem) && 0 < end && !EndsBelowTop(cfg, mem, end) && OnRun(cfg, mem, end, loop)
    requires SpaceCombinable(cfg, mem)
    ensures PlainRounds(cfg, mem, true, loop, n).Running?
    decreases n
  {
    hide WalkedAlike, AllWalked, Page, Plus, PlainRound, RunStart, EndsBelowTop, SameAttributes;
    if n > 0 {
      RunStep(cfg, mem, end, loop);
      assert !MeetsItsRun(cfg, mem, loop.cursor);
      hide OnRun, SpaceCombinable;
      CombinableForever(cfg, mem, end, PlainRound(cfg, mem, true, loop).loop, n - 1);
    }
  }

  // ----------------------------------------------- if a page meets its run, an end

  lemma {:induction false} OnRunStays(
    cfg: TableConfig, mem: Memory, end: Word, loop: Loop, n: nat, after: Loop)
    requires Walkable(cfg, mem) && 0 < end && !EndsBelowTop(cfg, mem, end) && OnRun(cfg, mem, end, loop)
    requires PlainRounds(cfg, mem, true, loop, n) == Running(after)
    ensures OnRun(cfg, mem, end, after)
    decreases n
  {
    hide WalkedAlike, AllWalked, Page, Plus, PlainRound, RunStart, EndsBelowTop, SameAttributes, OnRun;
    if n > 0 {
      RunStep(cfg, mem, end, loop);
      OnRunStays(cfg, mem, end, PlainRound(cfg, mem, true, loop).loop, n - 1, after);
    }
  }

  lemma VisitPage(cfg: TableConfig, mem: Memory, end: Word, loop: Loop, c: Word) returns (there: Loop)
    requires Walkable(cfg, mem) && 0 < end && !EndsBelowTop(cfg, mem, end) && OnRun(cfg, mem, end, loop)
    requires RunsForever(cfg, mem, true, loop) && Page(cfg, mem, c).va == c
    ensures OnRun(cfg, mem, end, there) && RunsForever(cfg, mem, true, there) && there.cursor == c
  {
    hide Walk, WalkedAlike, AllWalked, PageAt, PlainRounds, RunsForever, OnRun, EndsBelowTop;
    var n;
    n, there := Visit(cfg, mem, true, loop, c);
    OnRunStays(cfg, mem, end, loop, n, there);
    SamePage(cfg, mem, there.cursor, c);
  }

  /** The step from a page to the end of it. */
  lemma StepOn(cfg: TableConfig, mem: Memory, end: Word, loop: Loop) returns (next: Loop)
    requires Walkable(cfg, mem) && 0 < end && !EndsBelowTop(cfg, mem, end) && OnRun(cfg, mem, end, loop)
    requires RunsForever(cfg, mem, true, loop)
    ensures var p, q := Page(cfg, mem, Before(loop.cursor)), Page(cfg, mem, loop.cursor);
            && !Meets(loop.prev.pa, p, q)
            && OnRun(cfg, mem, end, next) && RunsForever(cfg, mem, true, next)
            && next.cursor == Plus(q.va, q.size)
            && (q.flags.valid ==> next.prev.pa == if Joins(p, q) then loop.prev.pa else q.pa)
  {
    hide WalkedAlike, AllWalked, Page, Plus, PlainRound, RunsForever, OnRun, EndsBelowTop, SameAttributes;
    RunStep(cfg, mem, end, loop);
    ForeverStep(cfg, mem, true, loop);
    next := PlainRound(cfg, mem, true, loop).loop;
  }

  /** The loop comes to the end of every run with the whole run under construction. */
  lemma {:induction false} VisitRun(cfg: TableConfig, mem: Memory, end: Word, loop: Loop, c: Word)
    returns (there: Loop)
    requires Walkable(cfg, mem) && 0 < end && !EndsBelowTop(cfg, mem, end) && OnRun(cfg, mem, end, loop)
    requires RunsForever(cfg, mem, true, loop)
    requires Page(cfg, mem, c).va == c && Page(cfg, mem, Before(c)).flags.valid
    ensures OnRun(cfg, mem, end, there) && RunsForever(cfg, mem, true, there) && there.cursor == c
    ensures there.prev.pa == RunStart(cfg, mem, c)
    decreases Page(cfg, mem, Before(c)).pa
  {
    hide WalkedAlike, AllWalked, Page, Plus, RunsForever, OnRun, EndsBelowTop, SameAttributes;
    var p := Page(cfg, mem, Before(c));
    PageBefore(cfg, mem, c);
    SamePage(cfg, mem, Before(c), p.va);
    if Joins(Page(cfg, mem, Before(p.va)), p) {
      there := VisitRun(cfg, mem, end, loop, p.va);
    } else {
      there := VisitPage(cfg, mem, end, loop, p.va);
    }
    there := StepOn(cfg, mem, end, there);
  }

  lemma NothingMeets(cfg: TableConfig, mem: Memory, end: Word, loop: Loop, c: Word)
    requires Walkable(cfg, mem) && 0 < end && !EndsBelowTop(cfg, mem, end) && OnRun(cfg, mem, end, loop)
    requires RunsForever(cfg, mem, true, loop)
    ensures !MeetsItsRun(cfg, mem, c)
  {
    hide WalkedAlike, AllWalked, Page, Plus, RunsForever, OnRun, EndsBelowTop, RunStart;
    if MeetsItsRun(cfg, mem, c) {
      var there := VisitRun(cfg, mem, end, loop, c);
      var _ := StepOn(cfg, mem, end, there);
    }
  }

  // ---------------------------------------------------------------- main results

  /** After the first round the first page is the run. */
  lemma FirstOnRun(cfg: TableConfig, mem: Memory, va: Word, size: Word) returns (next: Loop)
    requires Walkable(cfg, mem) && Unwrapped(cfg, mem, va, size) && size > 0
    ensures 0 < RangeEnd(cfg, mem, va, size) < TWO64 && OnRun(cfg, mem, RangeEnd(cfg, mem, va, size), next)
    ensures PlainRounds(cfg, mem, true, Start(va, size), 1) == Running(next)
  {
    hide Walk, WalkedAlike, PageAt, Plus, RangeEnd, SameAttributes, RunStart, PlainRounds;
    next := FirstRoundOn(cfg, mem, va, size, true);
    PageAfter(cfg, mem, va);
    SelfAttributes(next.prev.flags);
  }

  /** With combining, the loop over a range does not end exactly when the range ends on the page at the
      top, the whole address space can be walked, and no page maps a byte that the run before it maps. */
  lemma CombinedEndlessIff(cfg: TableConfig, mem: Memory, va: Word, size: Word)
    requires UniformTable(cfg, mem) && Unwrapped(cfg, mem, va, size) && size > 0
    ensures (forall r :: !PlainlyEndsWith(cfg, mem, va, size, true, r))
            <==> SpaceCombinable(cfg, mem) && !StopsBelowTop(cfg, mem, va, size)
  {
    hide Walk, WalkedAlike, PageAt, TranslateRange, RangeEnd, PlainlyEndsWith, EndsBelowTop, PlainRounds;
    hide RunsForever, JointlyTranslatable, MeetsItsRun, OnRun;
    ForeverIsEndless(cfg, mem, va, size, true);
    if StopsBelowTop(cfg, mem, va, size) {
      CombinedRangeListedIff(cfg, mem, va, size);
      RangeEnds(cfg, mem, va, size, true);
    } else if RunsForever(cfg, mem, true, Start(va, size)) {
      ForeverIsWalkable(cfg, mem, true, Start(va, size));
      var next := FirstOnRun(cfg, mem, va, size);
      ForeverAfter(cfg, mem, true, Start(va, size), 1, next);
      forall c: Word ensures !MeetsItsRun(cfg, mem, c) {
        NothingMeets(cfg, mem, RangeEnd(cfg, mem, va, size), next, c);
      }
    } else if SpaceCombinable(cfg, mem) {
      var next := FirstOnRun(cfg, mem, va, size);
      NextForever(cfg, mem, RangeEnd(cfg, mem, va, size), next);
      LeadsToForever(cfg, mem, true, Start(va, size), 1, next);
    }
  }

  lemma NextForever(cfg: TableConfig, mem: Memory, end: Word, loop: Loop)
    requires Walkable(cfg, mem) && 0 < end && !EndsBelowTop(cfg, mem, end) && OnRun(cfg, mem, end, loop)
    requires SpaceCombinable(cfg, mem)
    ensures RunsForever(cfg, mem, true, loop)
  {
    hide Walk, WalkedAlike, AllWalked, EndsBelowTop, OnRun, SpaceCombinable, PlainRounds;
    forall n: nat ensures PlainRounds(cfg, mem, true, loop, n).Running? {
      CombinableForever(cfg, mem, end, loop, n);
    }
  }

  /** So for the loop with its cache. */
  lemma CombinedEndsIff(cfg: TableConfig, mem: Memory, va: Word, size: Word)
    requires UniformTable(cfg, mem) && ReadsTable(cfg, mem) && Unwrapped(cfg, mem, va, size) && size > 0
    ensures Ends(cfg, mem, va, size, true) <==> StopsBelowTop(cfg, mem, va, size) || !SpaceCombinable(cfg, mem)
  {
    hide ReadsTable, EndsWith, PlainlyEndsWith, WalkedAlike, StopsBelowTop, SpaceCombinable, Unwrapped;
    CombinedEndlessIff(cfg, mem, va, size);
    forall r: RangeResult
      ensures EndsWith(cfg, mem, va, size, true, r) <==> PlainlyEndsWith(cfg, mem, va, size, true, r)
    {
      LoopReadsTable(cfg, mem, va, size, true, r);
    }
  }

  /** A space that can be combined all around can be translated page by page. */
  lemma CombinableIsTranslatable(cfg: TableConfig, mem: Memory)
    requires UniformTable(cfg, mem) && SpaceCombinable(cfg, mem)
    ensures SpaceTranslatable(cfg, mem)
  {
    hide WalkedAlike, AllWalked, Page, Plus, SameAttributes, FragmentsOverlap;
    forall c: Word ensures !OverlapsBefore(cfg, mem, c) {
      assert !MeetsItsRun(cfg, mem, c);
      if Page(cfg, mem, c).va == c {
        var p, q := Page(cfg, mem, Before(c)), Page(cfg, mem, c);
        PageBefore(cfg, mem, c);
        PageBound(cfg, mem, Before(c));
        PageBound(cfg, mem, c);
        SelfAttributes(p.flags);
        CarryOverlaps(p, p, q, RunStart(cfg, mem, c));
      }
    }
  }

  /** Where a range ends page by page it ends with combining. */
  lemma CombiningEnds(cfg: TableConfig, mem: Memory, va: Word, size: Word)
    requires UniformTable(cfg, mem) && ReadsTable(cfg, mem) && Unwrapped(cfg, mem, va, size) && size > 0
    requires Ends(cfg, mem, va, size, false)
    ensures Ends(cfg, mem, va, size, true)
  {
    hide ReadsTable, Ends, WalkedAlike, StopsBelowTop, SpaceCombinable, SpaceTranslatable, Unwrapped;
    SeparateEndsIff(cfg, mem, va, size);
    CombinedEndsIff(cfg, mem, va, size);
    if SpaceCombinable(cfg, mem) {
      CombinableIsTranslatable(cfg, mem);
    }
  }

  // ------------------------------------------------------------- an unmapped space

  /** Every address is walked, to an invalid page. */
  ghost predicate NothingMapped(cfg: TableConfig, mem: Memory)
    requires cfg.Wellformed()
  {
    forall x: Word :: UnmappedAt(cfg, mem, x)
  }

  predicate UnmappedAt(cfg: TableConfig, mem: Memory, x: Word)
    requires cfg.Wellformed()
  {
    Walk(cfg, mem, x).Walked? && !Walk(cfg, mem, x).pte.valid
  }

  lemma UnmappedIsCombinable(cfg: TableConfig, mem: Memory)
    requires UniformTable(cfg, mem) && NothingMapped(cfg, mem)
    ensures SpaceCombinable(cfg, mem)
  {
    hide Walk, WalkedAlike, PageOf, RunStart;
    forall x: Word ensures Walk(cfg, mem, x).Walked? && !PageAt(cfg, mem, x).flags.valid {
      assert UnmappedAt(cfg, mem, x);
      InvalidPage(cfg, mem, x);
    }
    hide PageAt;
  }

  lemma InvalidPage(cfg: TableConfig, mem: Memory, x: Word)
    requires cfg.Wellformed() && UnmappedAt(cfg, mem, x)
    ensures !PageAt(cfg, mem, x).flags.valid
  {
    hide Walk, Pow2, BlockStart;
  }

  /** If nothing is mapped, a range that ends on the page at the top never ends, combined or not. */
  lemma UnmappedRangeIsEndless(cfg: TableConfig, mem: Memory, va: Word, size: Word, combine: bool)
    requires UniformTable(cfg, mem) && NothingMapped(cfg, mem) && Unwrapped(cfg, mem, va, size) && size > 0
    requires !StopsBelowTop(cfg, mem, va, size)
    ensures forall r :: !PlainlyEndsWith(cfg, mem, va, size, combine, r)
  {
    hide PlainlyEndsWith, WalkedAlike, StopsBelowTop, SpaceCombinable, SpaceTranslatable, Unwrapped, NothingMapped;
    UnmappedIsCombinable(cfg, mem);
    CombinableIsTranslatable(cfg, mem);
    SeparateEndlessIff(cfg, mem, va, size);
    CombinedEndlessIff(cfg, mem, va, size);
  }
}
