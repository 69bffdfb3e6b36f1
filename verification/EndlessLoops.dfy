/** Loops whose cursor wraps at 2^64: what they come to, and exactly when they end if they do not combine
    pages. */
module EndlessLoops {
  import opened Words
  import opened PageTable
  import opened Blocks
  import opened Fragments
  import opened RangeMeaning
  import opened RangeResults
  import opened RangeRuns
  import opened RangeLoop
  import opened ConsecutiveWalks

  // ---------------------------------------------------------------------- rounds

  lemma {:induction false} RoundsCompose(
    cfg: TableConfig, mem: Memory, combine: bool, loop: Loop, n: nat, after: Loop, m: nat)
    requires cfg.Wellformed() && PlainRounds(cfg, mem, combine, loop, n) == Running(after)
    ensures PlainRounds(cfg, mem, combine, loop, n + m) == PlainRounds(cfg, mem, combine, after, m)
    decreases n
  {
    hide PlainRound;
    if n > 0 {
      match PlainRound(cfg, mem, combine, loop)
      case Stopped(_) =>
      case Running(next) => RoundsCompose(cfg, mem, combine, next, n - 1, after, m);
    }
  }

  ghost predicate RunsForever(cfg: TableConfig, mem: Memory, combine: bool, loop: Loop)
    requires cfg.Wellformed()
  {
    forall n: nat :: PlainRounds(cfg, mem, combine, loop, n).Running?
  }

  /** A loop that comes to one that runs forever does so itself. */
  lemma LeadsToForever(cfg: TableConfig, mem: Memory, combine: bool, loop: Loop, n: nat, after: Loop)
    requires cfg.Wellformed() && PlainRounds(cfg, mem, combine, loop, n) == Running(after)
    requires RunsForever(cfg, mem, combine, after)
    ensures RunsForever(cfg, mem, combine, loop)
  {
    hide PlainRounds;
    forall k: nat ensures PlainRounds(cfg, mem, combine, loop, k).Running? {
      if k <= n {
        if PlainRounds(cfg, mem, combine, loop, k).Stopped? {
          PlainRoundsStay(cfg, mem, combine, loop, k, n);
        }
      } else {
        RoundsCompose(cfg, mem, combine, loop, n, after, k - n);
        assert PlainRounds(cfg, mem, combine, after, k - n).Running?;
      }
    }
  }

  /** From there on it runs forever too. */
  lemma ForeverAfter(cfg: TableConfig, mem: Memory, combine: bool, loop: Loop, n: nat, after: Loop)
    requires cfg.Wellformed() && RunsForever(cfg, mem, combine, loop)
    requires PlainRounds(cfg, mem, combine, loop, n) == Running(after)
    ensures RunsForever(cfg, mem, combine, after)
  {
    hide PlainRounds;
    forall m: nat ensures PlainRounds(cfg, mem, combine, after, m).Running? {
      RoundsCompose(cfg, mem, combine, loop, n, after, m);
      assert PlainRounds(cfg, mem, combine, loop, n + m).Running?;
    }
  }

  lemma EndsAfter(cfg: TableConfig, mem: Memory, va: Word, size: Word, combine: bool, n: nat)
    requires cfg.Wellformed() && PlainRounds(cfg, mem, combine, Start(va, size), n).Stopped?
    ensures PlainlyEndsWith(cfg, mem, va, size, combine, PlainRounds(cfg, mem, combine, Start(va, size), n).result)
  {
    hide PlainRounds;
  }

  lemma ForeverIsEndless(cfg: TableConfig, mem: Memory, va: Word, size: Word, combine: bool)
    requires cfg.Wellformed()
    ensures RunsForever(cfg, mem, combine, Start(va, size))
            <==> forall r :: !PlainlyEndsWith(cfg, mem, va, size, combine, r)
  {
    hide PlainRounds, Start;
    if forall r :: !PlainlyEndsWith(cfg, mem, va, size, combine, r) {
      hide PlainlyEndsWith;
      forall n: nat ensures PlainRounds(cfg, mem, combine, Start(va, size), n).Running? {
        if PlainRounds(cfg, mem, combine, Start(va, size), n).Stopped? {
          EndsAfter(cfg, mem, va, size, combine, n);
        }
      }
    }
  }

  // ------------------------------------------------------------ pages all around

  ghost predicate Walkable(cfg: TableConfig, mem: Memory) {
    UniformTable(cfg, mem) && AllWalked(cfg, mem, 0, TWO64)
  }

  function Page(cfg: TableConfig, mem: Memory, x: Word): (page: Fragment)
    requires Walkable(cfg, mem)
    ensures page.va <= x < page.va + page.size <= TWO64
  {
    hide Walk, WalkedAlike;
    PageAt(cfg, mem, x)
  }

  lemma SamePage(cfg: TableConfig, mem: Memory, x: Word, y: Word)
    requires Walkable(cfg, mem) && Page(cfg, mem, x).va <= y < Page(cfg, mem, x).va + Page(cfg, mem, x).size
    ensures Page(cfg, mem, y) == Page(cfg, mem, x)
  {
    hide Walk, WalkedAlike, PageAt;
    PageAddressMeans(cfg, mem, x, y);
  }

  /** The last address before, around the space. */
  function Before(x: Word): Word {
    if x == 0 then TWO64 - 1 else x - 1
  }

  /** The page before a page ends where it starts. */
  lemma PageBefore(cfg: TableConfig, mem: Memory, c: Word)
    requires Walkable(cfg, mem) && Page(cfg, mem, c).va == c
    ensures var p := Page(cfg, mem, Before(c)); Plus(p.va, p.size) == c
  {
    hide Walkable, Page;
    var p := Page(cfg, mem, Before(c));
    CursorHeld(p.va, p.size);
    if c > 0 && c < p.va + p.size {
      SamePage(cfg, mem, Before(c), c);
    }
  }

  /** After a page another one starts. */
  lemma PageAfter(cfg: TableConfig, mem: Memory, x: Word)
    requires Walkable(cfg, mem)
    ensures var q := Page(cfg, mem, x);
            var next := Plus(q.va, q.size);
            Page(cfg, mem, next).va == next && Page(cfg, mem, Before(next)) == q
  {
    hide Walkable, Page, Plus;
    var q := Page(cfg, mem, x);
    var next := Plus(q.va, q.size);
    CursorHeld(q.va, q.size);
    SamePage(cfg, mem, x, Before(next));
    if next > 0 && Page(cfg, mem, next).va < next {
      SamePage(cfg, mem, next, next - 1);
    }
  }

  lemma CursorBelow(cfg: TableConfig, mem: Memory, end: Word, c: Word)
    requires Walkable(cfg, mem) && Page(cfg, mem, c).va == c && 0 < end && !EndsBelowTop(cfg, mem, end)
    ensures c < end
  {
    hide Walk, WalkedAlike, PageAt;
    if end <= c {
      SamePage(cfg, mem, end - 1, c);
    }
  }

  // ---------------------------------------- a loop without end comes to every page

  /** The first round of a loop that runs forever. */
  lemma ForeverStep(cfg: TableConfig, mem: Memory, combine: bool, loop: Loop)
    requires cfg.Wellformed() && RunsForever(cfg, mem, combine, loop)
    ensures Walk(cfg, mem, loop.cursor).Walked?
    ensures var page, round := PageAt(cfg, mem, loop.cursor), PlainRound(cfg, mem, combine, loop);
            && round.Running? && RunsForever(cfg, mem, combine, round.loop)
            && round.loop.cursor == Plus(page.va, page.size)
            && PlainRounds(cfg, mem, combine, loop, 1) == Running(round.loop)
  {
    hide Walk, PageAt, Plus, FragmentsOverlap, IsContiguous, PageOf;
    assert PlainRounds(cfg, mem, combine, loop, 1).Running?;
    var next := PlainRound(cfg, mem, combine, loop).loop;
    assert PlainRounds(cfg, mem, combine, loop, 1) == Running(next);
    hide PlainRounds;
    forall m: nat ensures PlainRounds(cfg, mem, combine, next, m).Running? {
      RoundsCompose(cfg, mem, combine, loop, 1, next, m);
      assert PlainRounds(cfg, mem, combine, loop, 1 + m).Running?;
    }
    PlainStep(cfg, mem, combine, loop);
  }

  lemma {:induction false} VisitZero(cfg: TableConfig, mem: Memory, combine: bool, loop: Loop)
    returns (n: nat, there: Loop)
    requires cfg.Wellformed() && RunsForever(cfg, mem, combine, loop)
    ensures PlainRounds(cfg, mem, combine, loop, n) == Running(there) && there.cursor == 0
    decreases TWO64 - loop.cursor
  {
    hide Walk, PageAt, PlainRound, PlainRounds, RunsForever, Plus;
    ForeverStep(cfg, mem, combine, loop);
    var page, next := PageAt(cfg, mem, loop.cursor), PlainRound(cfg, mem, combine, loop).loop;
    CursorHeld(page.va, page.size);
    n, there := 0, next;
    if next.cursor > 0 {
      n, there := VisitZero(cfg, mem, combine, next);
      RoundsCompose(cfg, mem, combine, loop, 1, next, n);
    }
    n := n + 1;
  }

  lemma {:induction false} VisitUp(cfg: TableConfig, mem: Memory, combine: bool, loop: Loop, x: Word)
    returns (n: nat, there: Loop)
    requires cfg.Wellformed() && RunsForever(cfg, mem, combine, loop) && loop.cursor <= x
    ensures PlainRounds(cfg, mem, combine, loop, n) == Running(there)
    ensures Walk(cfg, mem, there.cursor).Walked? && there.cursor <= x && Holds(PageAt(cfg, mem, there.cursor), x)
    decreases x - loop.cursor
  {
    hide Walk, PageAt, PlainRound, RunsForever, Plus;
    ForeverStep(cfg, mem, combine, loop);
    var page, next := PageAt(cfg, mem, loop.cursor), PlainRound(cfg, mem, combine, loop).loop;
    CursorHeld(page.va, page.size);
    n, there := 0, loop;
    if page.va + page.size <= x {
      hide PlainRounds;
      n, there := VisitUp(cfg, mem, combine, next, x);
      RoundsCompose(cfg, mem, combine, loop, 1, next, n);
      n := n + 1;
    }
  }

  /** It comes again to the page of every address. */
  lemma Visit(cfg: TableConfig, mem: Memory, combine: bool, loop: Loop, x: Word) returns (n: nat, there: Loop)
    requires cfg.Wellformed() && RunsForever(cfg, mem, combine, loop)
    ensures PlainRounds(cfg, mem, combine, loop, n) == Running(there) && RunsForever(cfg, mem, combine, there)
    ensures Walk(cfg, mem, there.cursor).Walked? && there.cursor <= x && Holds(PageAt(cfg, mem, there.cursor), x)
  {
    hide Walk, PageAt, PlainRounds, RunsForever;
    var k, zero := VisitZero(cfg, mem, combine, loop);
    ForeverAfter(cfg, mem, combine, loop, k, zero);
    n, there := VisitUp(cfg, mem, combine, zero, x);
    RoundsCompose(cfg, mem, combine, loop, k, zero, n);
    n := k + n;
    ForeverAfter(cfg, mem, combine, loop, n, there);
  }

  lemma ForeverIsWalkable(cfg: TableConfig, mem: Memory, combine: bool, loop: Loop)
    requires UniformTable(cfg, mem) && RunsForever(cfg, mem, combine, loop)
    ensures Walkable(cfg, mem)
  {
    hide Walk, WalkedAlike, PageAt, PlainRounds, RunsForever;
    forall x: Word ensures Walk(cfg, mem, x).Walked? {
      var _, there := Visit(cfg, mem, combine, loop, x);
      PageAddressMeans(cfg, mem, there.cursor, x);
    }
  }

  // ---------------------------------------------------------------- the first page

  /** The bound of an unwrapped range before and after its first page. */
  lemma StartFits(cfg: TableConfig, mem: Memory, va: Word, size: Word)
    requires cfg.Wellformed() && Unwrapped(cfg, mem, va, size) && size > 0 && Walk(cfg, mem, va).Walked?
    ensures va < Plus(va, size) == va + size
    ensures Grown(Plus(va, size), va, PageAt(cfg, mem, va)) == RangeEnd(cfg, mem, va, size)
  {
    hide Walk, PageAt, Plus, Minus;
    PlusFits(va, size);
    MinusFits(va, PageAt(cfg, mem, va).va);
    PlusFits(va + size, va - PageAt(cfg, mem, va).va);
  }

  lemma OneRoundOn(cfg: TableConfig, mem: Memory, combine: bool, loop: Loop, next: Loop)
    requires cfg.Wellformed() && PlainRound(cfg, mem, combine, loop) == Running(next)
    ensures PlainRounds(cfg, mem, combine, loop, 1) == Running(next)
  {
    hide PlainRound;
  }

  /** After the first round the loop stands at the end of the first page. */
  lemma FirstRoundOn(cfg: TableConfig, mem: Memory, va: Word, size: Word, combine: bool) returns (next: Loop)
    requires UniformTable(cfg, mem) && Unwrapped(cfg, mem, va, size) && size > 0 && Walk(cfg, mem, va).Walked?
    ensures 0 < RangeEnd(cfg, mem, va, size) < TWO64
    ensures var page := PageAt(cfg, mem, va);
            next == Loop(Plus(page.va, page.size), RangeEnd(cfg, mem, va, size), false, page, [])
    ensures PlainRounds(cfg, mem, combine, Start(va, size), 1) == Running(next)
  {
    hide Walk, WalkedAlike, PageAt, Plus;
    var start, page, end := Start(va, size), PageAt(cfg, mem, va), RangeEnd(cfg, mem, va, size);
    StartFits(cfg, mem, va, size);
    PlainStep(cfg, mem, combine, start);
    next := Loop(Plus(page.va, page.size), end, false, page, []);
    OneRoundOn(cfg, mem, combine, start, next);
  }

  // --------------------------------------------------------- no list at the top

  /** The loop stands at the end of a page, and its range ends on the page at the top. */
  predicate Standing(cfg: TableConfig, mem: Memory, end: Word, loop: Loop)
    requires cfg.Wellformed()
  {
    !loop.first && loop.end == end && (loop.cursor == 0 || AtBoundary(cfg, mem, loop.cursor))
  }

  lemma StandingStep(cfg: TableConfig, mem: Memory, combine: bool, end: Word, loop: Loop)
    requires UniformTable(cfg, mem) && Standing(cfg, mem, end, loop)
    requires 0 < end && Walk(cfg, mem, end - 1).Walked? && !EndsBelowTop(cfg, mem, end)
    ensures match PlainRound(cfg, mem, combine, loop)
            case Stopped(r) => !r.Listed?
            case Running(next) => Standing(cfg, mem, end, next)
  {
    hide Walk, WalkedAlike, PageAt, FragmentsOverlap, IsContiguous, Grow, Plus, PageOf;
    var c := loop.cursor;
    if end <= c {
      PageAddressMeans(cfg, mem, end - 1, c);
      NextPageAligned(cfg, mem, c);
    } else if Walk(cfg, mem, c).Walked? {
      var page := PageAt(cfg, mem, c);
      PlainStep(cfg, mem, combine, loop);
      if c > 0 {
        NextPageAligned(cfg, mem, c);
      }
      CursorHeld(page.va, page.size);
      LastAddressOfPage(cfg, mem, c, page.va + page.size - 1);
    }
  }

  lemma {:induction false} StandingNotListed(
    cfg: TableConfig, mem: Memory, combine: bool, end: Word, loop: Loop, n: nat)
    requires UniformTable(cfg, mem) && Standing(cfg, mem, end, loop)
    requires 0 < end && Walk(cfg, mem, end - 1).Walked? && !EndsBelowTop(cfg, mem, end)
    ensures PlainRounds(cfg, mem, combine, loop, n).Stopped? ==> !PlainRounds(cfg, mem, combine, loop, n).result.Listed?
    decreases n
  {
    hide Walk, WalkedAlike, PageAt, PlainRound, Standing, EndsBelowTop;
    if n > 0 {
      StandingStep(cfg, mem, combine, end, loop);
      match PlainRound(cfg, mem, combine, loop)
      case Stopped(_) =>
      case Running(next) => StandingNotListed(cfg, mem, combine, end, next, n - 1);
    }
  }

  /** A range that ends on the page at the top is never listed, combined or not: the loop goes on past
      its end, until a page is rejected or cannot be walked. */
  lemma NotListedAtTop(cfg: TableConfig, mem: Memory, va: Word, size: Word, combine: bool, r: RangeResult)
    requires UniformTable(cfg, mem) && Unwrapped(cfg, mem, va, size) && size > 0 && !StopsBelowTop(cfg, mem, va, size)
    requires PlainlyEndsWith(cfg, mem, va, size, combine, r)
    ensures !r.Listed?
  {
    hide Walk, WalkedAlike, PageAt, PlainRounds, Start, Plus, RangeEnd;
    var n: nat :| PlainRounds(cfg, mem, combine, Start(va, size), n) == Stopped(r);
    var page, end := PageAt(cfg, mem, va), RangeEnd(cfg, mem, va, size);
    var next := FirstRoundOn(cfg, mem, va, size, combine);
    CursorHeld(page.va, page.size);
    LastAddressOfPage(cfg, mem, va, page.va + page.size - 1);
    RoundsCompose(cfg, mem, combine, Start(va, size), 1, next, n);
    PlainRoundsStay(cfg, mem, combine, Start(va, size), n, 1 + n);
    StandingNotListed(cfg, mem, combine, end, next, n);
  }

  // ---------------------------------------------------------- around, page by page

  /** The page at `c` overlaps the page before it. */
  predicate OverlapsBefore(cfg: TableConfig, mem: Memory, c: Word)
    requires Walkable(cfg, mem)
  {
    hide Walkable, Page;
    Page(cfg, mem, c).va == c && FragmentsOverlap(Page(cfg, mem, Before(c)), Page(cfg, mem, c))
  }

  /** Every address can be walked, and no page overlaps the one before it, where the last page of the
      space comes before the first. */
  ghost predicate SpaceTranslatable(cfg: TableConfig, mem: Memory)
    requires UniformTable(cfg, mem)
  {
    hide WalkedAlike;
    AllWalked(cfg, mem, 0, TWO64) && forall c: Word :: !OverlapsBefore(cfg, mem, c)
  }

  /** The loop stands at a page, with the page before it under construction. */
  predicate OnPage(cfg: TableConfig, mem: Memory, end: Word, loop: Loop)
    requires Walkable(cfg, mem)
  {
    hide Walkable, Page;
    && !loop.first && loop.end == end && Page(cfg, mem, loop.cursor).va == loop.cursor
    && loop.prev == Page(cfg, mem, Before(loop.cursor))
  }

  lemma PageStep(cfg: TableConfig, mem: Memory, end: Word, loop: Loop)
    requires Walkable(cfg, mem) && 0 < end && !EndsBelowTop(cfg, mem, end) && OnPage(cfg, mem, end, loop)
    ensures var round := PlainRound(cfg, mem, false, loop);
            if OverlapsBefore(cfg, mem, loop.cursor) then round == Stopped(Rejected)
            else round.Running? && OnPage(cfg, mem, end, round.loop)
  {
    hide Walk, WalkedAlike, PageAt, FragmentsOverlap, IsContiguous, Grow, Plus, EndsBelowTop;
    CursorBelow(cfg, mem, end, loop.cursor);
    PlainStep(cfg, mem, false, loop);
    PageAfter(cfg, mem, loop.cursor);
  }

  lemma {:induction false} OnPageStays(
    cfg: TableConfig, mem: Memory, end: Word, loop: Loop, n: nat)
    requires Walkable(cfg, mem) && 0 < end && !EndsBelowTop(cfg, mem, end) && OnPage(cfg, mem, end, loop)
    ensures var round := PlainRounds(cfg, mem, false, loop, n);
            && (round.Running? ==> OnPage(cfg, mem, end, round.loop))
            && (SpaceTranslatable(cfg, mem) ==> round.Running?)
    decreases n
  {
    hide Walk, WalkedAlike, PageAt, AllWalked, PlainRound, EndsBelowTop, OnPage, OverlapsBefore;
    if n > 0 {
      PageStep(cfg, mem, end, loop);
      match PlainRound(cfg, mem, false, loop)
      case Stopped(_) =>
      case Running(next) => OnPageStays(cfg, mem, end, next, n - 1);
    }
  }

  lemma NothingOverlaps(cfg: TableConfig, mem: Memory, end: Word, loop: Loop, c: Word)
    requires Walkable(cfg, mem) && 0 < end && !EndsBelowTop(cfg, mem, end) && OnPage(cfg, mem, end, loop)
    requires RunsForever(cfg, mem, false, loop)
    ensures !OverlapsBefore(cfg, mem, c)
  {
    hide Walk, WalkedAlike, AllWalked, PageAt, PlainRound, PlainRounds, RunsForever, EndsBelowTop, FragmentsOverlap;
    if OverlapsBefore(cfg, mem, c) {
      var n, there := Visit(cfg, mem, false, loop, c);
      OnPageStays(cfg, mem, end, loop, n);
      SamePage(cfg, mem, there.cursor, c);
      PageStep(cfg, mem, end, there);
      ForeverStep(cfg, mem, false, there);
    }
  }

  /** Without combining, the loop over a range does not end exactly when the range ends on the page at
      the top and the whole address space can be translated, round and round. */
  lemma SeparateEndlessIff(cfg: TableConfig, mem: Memory, va: Word, size: Word)
    requires UniformTable(cfg, mem) && Unwrapped(cfg, mem, va, size) && size > 0
    ensures (forall r :: !PlainlyEndsWith(cfg, mem, va, size, false, r))
            <==> SpaceTranslatable(cfg, mem) && !StopsBelowTop(cfg, mem, va, size)
  {
    hide Walk, WalkedAlike, PageAt, TranslateRange, RangeEnd, PlainlyEndsWith, EndsBelowTop, PlainRounds;
    hide RunsForever, SeparatelyTranslatable, OverlapsBefore, Plus;
    ForeverIsEndless(cfg, mem, va, size, false);
    if StopsBelowTop(cfg, mem, va, size) {
      SeparateRangeListedIff(cfg, mem, va, size);
      RangeEnds(cfg, mem, va, size, false);
    } else {
      var end := RangeEnd(cfg, mem, va, size);
      var next := FirstRoundOn(cfg, mem, va, size, false);
      if RunsForever(cfg, mem, false, Start(va, size)) {
        ForeverIsWalkable(cfg, mem, false, Start(va, size));
        PageAfter(cfg, mem, va);
        ForeverAfter(cfg, mem, false, Start(va, size), 1, next);
        forall c: Word ensures !OverlapsBefore(cfg, mem, c) {
          NothingOverlaps(cfg, mem, end, next, c);
        }
      } else if SpaceTranslatable(cfg, mem) {
        PageAfter(cfg, mem, va);
        NextForever(cfg, mem, end, next);
        LeadsToForever(cfg, mem, false, Start(va, size), 1, next);
      }
    }
  }

  lemma NextForever(cfg: TableConfig, mem: Memory, end: Word, loop: Loop)
    requires Walkable(cfg, mem) && 0 < end && !EndsBelowTop(cfg, mem, end) && OnPage(cfg, mem, end, loop)
    requires SpaceTranslatable(cfg, mem)
    ensures RunsForever(cfg, mem, false, loop)
  {
    hide Walk, WalkedAlike, AllWalked, EndsBelowTop, OnPage, SpaceTranslatable, PlainRounds;
    forall n: nat ensures PlainRounds(cfg, mem, false, loop, n).Running? {
      OnPageStays(cfg, mem, end, loop, n);
    }
  }

  // ----------------------------------------------------------- loops with the cache

  /** What a loop that reads the table ends with, if its cursor does not wrap. */
  lemma LoopResult(cfg: TableConfig, mem: Memory, va: Word, size: Word, combine: bool)
    requires cfg.Wellformed() && ReadsTable(cfg, mem) && TranslateRange(cfg, mem, va, size, combine) != TopReached
    ensures EndsWith(cfg, mem, va, size, combine, TranslateRange(cfg, mem, va, size, combine))
    ensures forall r :: EndsWith(cfg, mem, va, size, combine, r) ==> r == TranslateRange(cfg, mem, va, size, combine)
  {
    hide ReadsTable, TranslateRange, EndsWith, PlainlyEndsWith;
    var result := TranslateRange(cfg, mem, va, size, combine);
    RangeEnds(cfg, mem, va, size, combine);
    LoopReadsTable(cfg, mem, va, size, combine, result);
    forall r | EndsWith(cfg, mem, va, size, combine, r) ensures r == result {
      EndsWithOne(cfg, mem, va, size, combine, r, result);
    }
  }

  /** Without combining, the loop ends exactly when the range ends below the page at the top, or the
      address space cannot be translated all around. */
  lemma SeparateEndsIff(cfg: TableConfig, mem: Memory, va: Word, size: Word)
    requires UniformTable(cfg, mem) && ReadsTable(cfg, mem) && Unwrapped(cfg, mem, va, size) && size > 0
    ensures Ends(cfg, mem, va, size, false) <==> StopsBelowTop(cfg, mem, va, size) || !SpaceTranslatable(cfg, mem)
  {
    hide ReadsTable, EndsWith, PlainlyEndsWith, WalkedAlike, StopsBelowTop, SpaceTranslatable, Unwrapped;
    SeparateEndlessIff(cfg, mem, va, size);
    forall r: RangeResult
      ensures EndsWith(cfg, mem, va, size, false, r) <==> PlainlyEndsWith(cfg, mem, va, size, false, r)
    {
      LoopReadsTable(cfg, mem, va, size, false, r);
    }
  }

  /** The loop with its cache lists exactly what the recursion over the range lists. */
  lemma LoopListsIff(
    cfg: TableConfig, mem: Memory, va: Word, size: Word, combine: bool, list: seq<Fragment>)
    requires UniformTable(cfg, mem) && ReadsTable(cfg, mem) && Unwrapped(cfg, mem, va, size)
    ensures EndsWith(cfg, mem, va, size, combine, Listed(list))
            <==> TranslateRange(cfg, mem, va, size, combine) == Listed(list)
  {
    hide ReadsTable, TranslateRange, EndsWith, PlainlyEndsWith, WalkedAlike, SeparatelyTranslatable, JointlyTranslatable;
    hide StopsBelowTop;
    if TranslateRange(cfg, mem, va, size, combine) != TopReached {
      LoopResult(cfg, mem, va, size, combine);
    } else {
      UnwrappedRange(cfg, mem, va, size, combine);
      SeparateRangeListedIff(cfg, mem, va, size);
      CombinedRangeListedIff(cfg, mem, va, size);
      LoopReadsTable(cfg, mem, va, size, combine, Listed(list));
      if PlainlyEndsWith(cfg, mem, va, size, combine, Listed(list)) {
        NotListedAtTop(cfg, mem, va, size, combine, Listed(list));
      }
    }
  }
}
