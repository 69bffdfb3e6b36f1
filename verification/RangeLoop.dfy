/** The loop over a range as rounds: with the walk that consults the cache, as it runs, and with the
    plain walk. A loop whose cursor wraps at 2^64 goes on from address zero. */
module RangeLoop {
  import opened Words
  import opened PageTable
  import opened CachedWalk
  import opened Blocks
  import opened Fragments

  /** The variables of the loop, with its bound. */
  datatype Loop = Loop(cursor: Word, end: Word, first: bool, prev: Fragment, list: seq<Fragment>)

  /** One round: it goes on, or it has stopped with a result. */
  datatype Round = Running(loop: Loop) | Stopped(result: RangeResult)

  function Start(va: Word, size: Word): Loop {
    Loop(va, Plus(va, size), true, ZeroFragment(), [])
  }

  /** What becomes of the fragment under construction once a page is walked. */
  function TakePage(loop: Loop, combine: bool, page: Fragment): Round {
    var next, end := Plus(page.va, page.size), Grown(loop.end, loop.cursor, page);
    if loop.first then Running(Loop(next, end, false, page, loop.list))
    else if FragmentsOverlap(loop.prev, page) then Stopped(Rejected)
    else if combine && IsContiguous(loop.prev, page) == CodeBug then Stopped(Aborted)
    else if combine && IsContiguous(loop.prev, page) == Contiguous then
      Running(Loop(next, end, false, Grow(loop.prev, page), loop.list))
    else Running(Loop(next, end, false, page, loop.list + [loop.prev]))
  }

  function Take(loop: Loop, combine: bool, outcome: WalkOutcome): Round
    requires outcome.Walked? ==> outcome.shift < 64
  {
    match outcome
    case Exited => Stopped(Terminated)
    case Unsupported => Stopped(Rejected)
    case Walked(pte, shift) => TakePage(loop, combine, PageOf(loop.cursor, pte, shift))
  }

  // ------------------------------------------------------------ with the plain walk

  function PlainRound(cfg: TableConfig, mem: Memory, combine: bool, loop: Loop): Round
    requires cfg.Wellformed()
  {
    if loop.cursor >= loop.end then Stopped(Listed(loop.list + [loop.prev]))
    else
      PlainBounds(cfg, mem, loop.cursor);
      Take(loop, combine, Walk(cfg, mem, loop.cursor))
  }

  lemma PlainBounds(cfg: TableConfig, mem: Memory, va: Word)
    requires cfg.Wellformed()
    ensures Walk(cfg, mem, va).Walked? ==> Walk(cfg, mem, va).shift < 64
  {
    hide Walk;
    if Walk(cfg, mem, va).Walked? {
      ReportBounds(cfg, mem, va);
    }
  }

  function PlainRounds(cfg: TableConfig, mem: Memory, combine: bool, loop: Loop, n: nat): Round
    requires cfg.Wellformed()
    decreases n
  {
    if n == 0 then Running(loop)
    else
      match PlainRound(cfg, mem, combine, loop)
      case Stopped(result) => Stopped(result)
      case Running(next) => PlainRounds(cfg, mem, combine, next, n - 1)
  }

  /** The loop over a range ends with a result. */
  ghost predicate PlainlyEndsWith(cfg: TableConfig, mem: Memory, va: Word, size: Word, combine: bool, r: RangeResult)
    requires cfg.Wellformed()
  {
    exists n: nat :: PlainRounds(cfg, mem, combine, Start(va, size), n) == Stopped(r)
  }

  // ----------------------------------------------------------------- with the cache

  lemma CachedBounds(cfg: TableConfig, mem: Memory, cache: Cache, va: Word)
    requires cfg.Wellformed() && cache.Valid()
    ensures var (outcome, _) := WalkWithCache(cfg, mem, cache, va);
            outcome.Walked? ==> outcome.shift < 64
  {
    hide CachedDescendFrom, Finish;
    FinishBounds(cfg, mem, Relative(cfg, va), CachedDescendFrom(cfg, mem, cache, va).0);
  }

  function CachedRound(cfg: TableConfig, mem: Memory, combine: bool, loop: Loop, cache: Cache): (r: (Round, Cache))
    requires cfg.Wellformed() && cache.Valid()
    ensures r.1.Valid()
  {
    if loop.cursor >= loop.end then (Stopped(Listed(loop.list + [loop.prev])), cache)
    else
      CachedBounds(cfg, mem, cache, loop.cursor);
      var (outcome, next) := WalkWithCache(cfg, mem, cache, loop.cursor);
      (Take(loop, combine, outcome), next)
  }

  function CachedRounds(cfg: TableConfig, mem: Memory, combine: bool, loop: Loop, cache: Cache, n: nat): Round
    requires cfg.Wellformed() && cache.Valid()
    decreases n
  {
    if n == 0 then Running(loop)
    else
      var (round, next) := CachedRound(cfg, mem, combine, loop, cache);
      match round
      case Stopped(result) => Stopped(result)
      case Running(after) => CachedRounds(cfg, mem, combine, after, next, n - 1)
  }

  /** The loop over a range, as it runs from a fresh cache, ends with a result. */
  ghost predicate EndsWith(cfg: TableConfig, mem: Memory, va: Word, size: Word, combine: bool, r: RangeResult)
    requires cfg.Wellformed()
  {
    exists n: nat :: CachedRounds(cfg, mem, combine, Start(va, size), ZeroCache(), n) == Stopped(r)
  }

  ghost predicate Ends(cfg: TableConfig, mem: Memory, va: Word, size: Word, combine: bool)
    requires cfg.Wellformed()
  {
    exists r: RangeResult :: EndsWith(cfg, mem, va, size, combine, r)
  }

  lemma RoundsOf(cfg: TableConfig, mem: Memory, va: Word, size: Word, combine: bool, r: RangeResult) returns (n: nat)
    requires cfg.Wellformed() && EndsWith(cfg, mem, va, size, combine, r)
    ensures CachedRounds(cfg, mem, combine, Start(va, size), ZeroCache(), n) == Stopped(r)
  {
    hide CachedRounds, Start, ZeroCache;
    n :| CachedRounds(cfg, mem, combine, Start(va, size), ZeroCache(), n) == Stopped(r);
  }

  lemma {:induction false} PlainRoundsStay(
    cfg: TableConfig, mem: Memory, combine: bool, loop: Loop, n: nat, m: nat)
    requires cfg.Wellformed() && n <= m && PlainRounds(cfg, mem, combine, loop, n).Stopped?
    ensures PlainRounds(cfg, mem, combine, loop, m) == PlainRounds(cfg, mem, combine, loop, n)
    decreases n
  {
    hide PlainRound;
    match PlainRound(cfg, mem, combine, loop)
    case Stopped(_) =>
    case Running(next) => PlainRoundsStay(cfg, mem, combine, next, n - 1, m - 1);
  }

  lemma {:induction false} CachedRoundsStay(
    cfg: TableConfig, mem: Memory, combine: bool, loop: Loop, cache: Cache, n: nat, m: nat)
    requires cfg.Wellformed() && cache.Valid() && n <= m
    requires CachedRounds(cfg, mem, combine, loop, cache, n).Stopped?
    ensures CachedRounds(cfg, mem, combine, loop, cache, m) == CachedRounds(cfg, mem, combine, loop, cache, n)
    decreases n
  {
    hide CachedRound;
    var (round, after) := CachedRound(cfg, mem, combine, loop, cache);
    match round
    case Stopped(_) =>
    case Running(next) => CachedRoundsStay(cfg, mem, combine, next, after, n - 1, m - 1);
  }

  /** A loop has one result. */
  lemma EndsWithOne(cfg: TableConfig, mem: Memory, va: Word, size: Word, combine: bool, r: RangeResult, r': RangeResult)
    requires cfg.Wellformed()
    ensures EndsWith(cfg, mem, va, size, combine, r) && EndsWith(cfg, mem, va, size, combine, r') ==> r == r'
    ensures PlainlyEndsWith(cfg, mem, va, size, combine, r) && PlainlyEndsWith(cfg, mem, va, size, combine, r')
            ==> r == r'
  {
    hide CachedRounds, PlainRounds, Start, ZeroCache;
    var start := Start(va, size);
    if EndsWith(cfg, mem, va, size, combine, r) && EndsWith(cfg, mem, va, size, combine, r') {
      var n: nat :| CachedRounds(cfg, mem, combine, start, ZeroCache(), n) == Stopped(r);
      var m: nat :| CachedRounds(cfg, mem, combine, start, ZeroCache(), m) == Stopped(r');
      if n <= m {
        CachedRoundsStay(cfg, mem, combine, start, ZeroCache(), n, m);
      } else {
        CachedRoundsStay(cfg, mem, combine, start, ZeroCache(), m, n);
      }
    }
    if PlainlyEndsWith(cfg, mem, va, size, combine, r) && PlainlyEndsWith(cfg, mem, va, size, combine, r') {
      var n: nat :| PlainRounds(cfg, mem, combine, start, n) == Stopped(r);
      var m: nat :| PlainRounds(cfg, mem, combine, start, m) == Stopped(r');
      if n <= m {
        PlainRoundsStay(cfg, mem, combine, start, n, m);
      } else {
        PlainRoundsStay(cfg, mem, combine, start, m, n);
      }
    }
  }

  // ------------------------------------------------------- up to the top of the space

  /** The cursor as the loop holds it, which is zero past the last address. */
  function Held(cursor: nat): Word
    requires cursor <= TWO64
  {
    if cursor == TWO64 then 0 else cursor
  }

  lemma CursorHeld(va: Word, size: Word)
    requires va + size <= TWO64
    ensures Plus(va, size) == Held(va + size)
  {}

  function PrependAll(list: seq<Fragment>, rest: RangeResult): RangeResult {
    if rest.Listed? then Listed(list + rest.fragments) else rest
  }

  /** One round on a walked address below the end. */
  lemma PlainStep(cfg: TableConfig, mem: Memory, combine: bool, loop: Loop)
    requires cfg.Wellformed() && loop.cursor < loop.end && Walk(cfg, mem, loop.cursor).Walked?
    ensures PlainRound(cfg, mem, combine, loop) == TakePage(loop, combine, PageAt(cfg, mem, loop.cursor))
  {
    hide Walk, PageOf, TakePage;
  }

  /** From any cursor the rounds come to the result that the recursion over the range gives, or to a
      cursor that has wrapped to zero below the end. */
  lemma {:induction false} RangeRounds(
    cfg: TableConfig, mem: Memory, combine: bool, addr: nat, end: Word, prev: Fragment, list: seq<Fragment>)
    returns (n: nat, top: Loop)
    requires cfg.Wellformed() && addr <= TWO64
    ensures var r := RangeFrom(cfg, mem, addr, end, prev, combine);
            var loop := Loop(Held(addr), end, false, prev, list);
            if r == TopReached
            then PlainRounds(cfg, mem, combine, loop, n) == Running(top) && top.cursor == 0 < top.end && !top.first
            else PlainRounds(cfg, mem, combine, loop, n) == Stopped(PrependAll(list, r))
    decreases TWO64 - addr
  {
    hide Walk, PageAt, FragmentsOverlap, IsContiguous, Grown, Grow, Plus;
    var loop := Loop(Held(addr), end, false, prev, list);
    n, top := 0, loop;
    if addr < TWO64 && addr < end && Walk(cfg, mem, addr).Walked? {
      var page := PageAt(cfg, mem, addr);
      var next, end' := page.va + page.size, Grown(end, addr, page);
      PlainStep(cfg, mem, combine, loop);
      CursorHeld(page.va, page.size);
      if !FragmentsOverlap(prev, page) && !(combine && IsContiguous(prev, page) == CodeBug) {
        if combine && IsContiguous(prev, page) == Contiguous {
          n, top := RangeRounds(cfg, mem, combine, next, end', Grow(prev, page), list);
        } else {
          n, top := RangeRounds(cfg, mem, combine, next, end', page, list + [prev]);
          PrependTwice(list, prev, RangeFrom(cfg, mem, next, end', page, combine));
        }
      }
      n := n + 1;
    } else if !(addr == TWO64 && end > 0) {
      n := 1;
      OneRound(cfg, mem, combine, addr, end, prev, list);
    }
  }

  lemma PrependTwice(list: seq<Fragment>, f: Fragment, rest: RangeResult)
    ensures PrependAll(list, Prepend(f, rest)) == PrependAll(list + [f], rest)
  {
    if rest.Listed? {
      assert list + ([f] + rest.fragments) == list + [f] + rest.fragments;
    }
  }

  /** The last round: the end is reached, or the walk fails. */
  lemma OneRound(
    cfg: TableConfig, mem: Memory, combine: bool, addr: nat, end: Word, prev: Fragment, list: seq<Fragment>)
    requires cfg.Wellformed() && addr <= TWO64 && !(addr == TWO64 && end > 0)
    requires addr >= end || !Walk(cfg, mem, addr).Walked?
    ensures PlainRounds(cfg, mem, combine, Loop(Held(addr), end, false, prev, list), 1)
            == Stopped(PrependAll(list, RangeFrom(cfg, mem, addr, end, prev, combine)))
  {
    hide Walk, PageAt, Grown, TakePage, PageOf;
  }

  /** A range of which the recursion gives a result other than the wrap of the cursor ends with it. */
  lemma RangeEnds(cfg: TableConfig, mem: Memory, va: Word, size: Word, combine: bool)
    requires cfg.Wellformed() && TranslateRange(cfg, mem, va, size, combine) != TopReached
    ensures PlainlyEndsWith(cfg, mem, va, size, combine, TranslateRange(cfg, mem, va, size, combine))
  {
    var n, _ := StartRounds(cfg, mem, va, size, combine);
  }

  lemma StartRounds(cfg: TableConfig, mem: Memory, va: Word, size: Word, combine: bool) returns (n: nat, top: Loop)
    requires cfg.Wellformed()
    ensures var r := TranslateRange(cfg, mem, va, size, combine);
            if r == TopReached
            then PlainRounds(cfg, mem, combine, Start(va, size), n) == Running(top) && top.cursor == 0 < top.end && !top.first
            else PlainRounds(cfg, mem, combine, Start(va, size), n) == Stopped(r)
  {
    hide Walk, PageAt, Grown, Plus, RangeFrom;
    var start := Start(va, size);
    n, top := 1, start;
    if va < start.end && Walk(cfg, mem, va).Walked? {
      var page := PageAt(cfg, mem, va);
      PlainStep(cfg, mem, combine, start);
      CursorHeld(page.va, page.size);
      n, top := RangeRounds(cfg, mem, combine, page.va + page.size, Grown(start.end, va, page), page, []);
      PrependNothing(RangeFrom(cfg, mem, page.va + page.size, Grown(start.end, va, page), page, combine));
      n := n + 1;
    } else {
      FirstRound(cfg, mem, va, size, combine);
    }
  }

  lemma FirstRound(cfg: TableConfig, mem: Memory, va: Word, size: Word, combine: bool)
    requires cfg.Wellformed() && (va >= Plus(va, size) || !Walk(cfg, mem, va).Walked?)
    ensures PlainRounds(cfg, mem, combine, Start(va, size), 1) == Stopped(TranslateRange(cfg, mem, va, size, combine))
  {
    hide Walk, PageAt, Grown, Plus, RangeFrom, TakePage, PageOf;
    assert [] + [ZeroFragment()] == [ZeroFragment()];
  }

  lemma PrependNothing(rest: RangeResult)
    ensures PrependAll([], rest) == rest
  {
    if rest.Listed? {
      assert [] + rest.fragments == rest.fragments;
    }
  }
}
