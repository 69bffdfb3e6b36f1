/** The translator itself: one helper, a loop of cached walks, and a list built on the heap. */
module Translator {
  import opened Words
  import opened PageTable
  import opened CachedWalk
  import opened WalkHelpers
  import opened Blocks
  import opened Fragments
  import opened RangeLoop
  import opened ConsecutiveWalks
  import opened EndlessLoops
  import opened Translations
  import opened Lists

  ghost predicate Ready(helper: WalkHelper, regs: Registers)
    reads helper, helper.levelInfo
  {
    helper.Valid() && helper.Config() == ConfigOf(regs)
  }

  method PrepareHelper(regs: Registers) returns (helper: WalkHelper)
    ensures helper.Shaped() && Ready(helper, regs) && helper.Lines() == ZeroCache()
    ensures fresh(helper) && fresh(helper.pdeAddrs) && fresh(helper.rawPdes) && fresh(helper.pdes)
  {
    hide ConfigOf;
    helper := new WalkHelper();
    helper.Populate(regs);
  }

  /** Walks one address and forms the fragment of its page, by masking the address. */
  method NextPage(helper: WalkHelper, regs: Registers, mem: Memory, addr: Word)
    returns (status: Status, curr: Fragment)
    requires Ready(helper, regs)
    modifies helper`currentDepth, helper`pte, helper.pdeAddrs, helper.rawPdes, helper.pdes
    ensures Ready(helper, regs)
    ensures helper.Lines() == WalkWithCache(ConfigOf(regs), mem, old(helper.Lines()), addr).1
    ensures match WalkWithCache(ConfigOf(regs), mem, old(helper.Lines()), addr).0
            case Walked(pte, shift) => status == Success && shift < 64 && curr == PageOf(addr, pte, shift)
            case Unsupported => status == Failure
            case Exited => status == Exit
  {
    hide ConfigOf, WalkWithCache, Pow2, LevelAt, And;
    CachedBounds(ConfigOf(regs), mem, helper.Lines(), addr);
    ghost var outcome := WalkWithCache(ConfigOf(regs), mem, helper.Lines(), addr).0;
    var results;
    status, results := helper.WalkPt(mem, addr);
    curr := ZeroFragment();
    if status == Success {
      AndNotLowMask(addr, outcome.shift);
      curr := Fragment(And(addr, Not(results.mask)), results.pte.baseAddress, results.size, results.pte);
    }
  }

  /** The premise on the frame-buffer offset holds of every table that registers describe. */
  lemma RegistersReadTable(regs: Registers, mem: Memory)
    requires FittingTable(ConfigOf(regs), mem) && ZeroEntriesAreZero(ConfigOf(regs), mem)
    ensures ReadsTable(ConfigOf(regs), mem)
  {
    hide ConfigOf, FittingTable, ZeroEntriesAreZero, CacheTransparent;
    OffsetOfRegisters(regs);
    MultipleOf64(ConfigOf(regs).fbOffset);
  }

  lemma MultipleOf64(x: nat)
    requires x % 0x100_0000 == 0
    ensures x % 64 == 0
  {
    DivMod(x, 0x100_0000);
    DivModUnique(x, 64, 0x4_0000 * (x / 0x100_0000), 0);
  }

  /** How the status and the list report the result of a loop. */
  ghost predicate ReportsRange(status: Status, head: Node?<Fragment>, nodes: seq<Node<Fragment>>, r: RangeResult)
    reads nodes
  {
    match r
    case Listed(list) => status == Success && IsList(head, nodes, list)
    case Rejected => status == Failure
    case Terminated => status == Exit
    case Aborted => status == Exit
    case TopReached => false
  }

  /** What the next page means for the fragment under construction. */
  datatype Verdict = Overlapping | OutOfOrder | Join | Emit

  function Judge(prev: Fragment, curr: Fragment, combine: bool): Verdict {
    if FragmentsOverlap(prev, curr) then Overlapping
    else if combine && IsContiguous(prev, curr) == CodeBug then OutOfOrder
    else if combine && IsContiguous(prev, curr) == Contiguous then Join
    else Emit
  }

  // ------------------------------------------------------------ steps of the loop

  /** After the loop guard fails, the rounds that remain stop with the list. */
  lemma LastRound(cfg: TableConfig, mem: Memory, combine: bool, loop: Loop, cache: Cache, n: nat)
    requires cfg.Wellformed() && cache.Valid() && loop.cursor >= loop.end
    requires CachedRounds(cfg, mem, combine, loop, cache, n).Stopped?
    ensures CachedRounds(cfg, mem, combine, loop, cache, n) == Stopped(Listed(loop.list + [loop.prev]))
  {
    hide WalkWithCache;
  }

  /** A failed walk stops the rounds. */
  lemma FailedRound(cfg: TableConfig, mem: Memory, combine: bool, loop: Loop, cache: Cache, n: nat)
    requires cfg.Wellformed() && cache.Valid() && loop.cursor < loop.end
    requires CachedRounds(cfg, mem, combine, loop, cache, n).Stopped?
    requires !WalkWithCache(cfg, mem, cache, loop.cursor).0.Walked?
    ensures CachedRounds(cfg, mem, combine, loop, cache, n)
            == Stopped(if WalkWithCache(cfg, mem, cache, loop.cursor).0.Exited? then Terminated else Rejected)
  {
    hide WalkWithCache;
  }

  /** A walked page is taken, and the rounds that remain are one less. */
  lemma WalkedRound(cfg: TableConfig, mem: Memory, combine: bool, loop: Loop, cache: Cache, n: nat, page: Fragment)
    requires cfg.Wellformed() && cache.Valid() && loop.cursor < loop.end
    requires CachedRounds(cfg, mem, combine, loop, cache, n).Stopped?
    requires var (outcome, _) := WalkWithCache(cfg, mem, cache, loop.cursor);
             outcome.Walked? && outcome.shift < 64 && page == PageOf(loop.cursor, outcome.pte, outcome.shift)
    ensures n > 0
    ensures CachedRounds(cfg, mem, combine, loop, cache, n)
            == match TakePage(loop, combine, page)
               case Stopped(result) => Stopped(result)
               case Running(next) =>
                 CachedRounds(cfg, mem, combine, next, WalkWithCache(cfg, mem, cache, loop.cursor).1, n - 1)
  {
    hide WalkWithCache, TakePage, PageOf;
  }

  /** A range of addresses as a list of fragments on the heap: it reports what the rounds of the loop,
      with their cache, come to. All that is asked is that they come to an end. */
  method SiftXlatorTranslateRange(regs: Registers, mem: Memory, va: Word, size0: Word, combine: bool)
    returns (status: Status, head: Node?<Fragment>)
    requires Ends(ConfigOf(regs), mem, va, size0, combine)
    ensures exists nodes: seq<Node<Fragment>>, r: RangeResult ::
              EndsWith(ConfigOf(regs), mem, va, size0, combine, r) && ReportsRange(status, head, nodes, r)
  {
    hide ConfigOf, WalkWithCache, PageOf, CachedRounds, Judge, Grow, Grown, IsList, Plus, Minus, ZeroFragment, ZeroCache;
    hide TakePage, Ready, EndsWith;
    ghost var cfg := ConfigOf(regs);
    ghost var r: RangeResult :| EndsWith(cfg, mem, va, size0, combine, r);
    ghost var rounds: nat := RoundsOf(cfg, mem, va, size0, combine, r);
    var helper := PrepareHelper(regs);
    var node: Node?<Fragment> := null;
    var addr: Word, size: Word, count, prev := va, size0, 0, ZeroFragment();
    ghost var list: seq<Fragment>, nodes: seq<Node<Fragment>> := [], [];
    head := null;
    EmptyList<Fragment>();
    while addr < Plus(va, size)
      invariant fresh(helper) && fresh(helper.pdeAddrs) && fresh(helper.rawPdes) && fresh(helper.pdes)
      invariant Ready(helper, regs) && 0 <= count
      invariant CachedRounds(cfg, mem, combine, Loop(addr, Plus(va, size), count == 0, prev, list), helper.Lines(), rounds)
                == Stopped(r)
      invariant count == 0 ==> list == []
      invariant IsList(head, nodes, list)
      invariant forall i | 0 <= i < |nodes| :: fresh(nodes[i])
      invariant node == if nodes == [] then null else nodes[|nodes| - 1]
      decreases rounds
    {
      ghost var loop, lines := Loop(addr, Plus(va, size), count == 0, prev, list), helper.Lines();
      var curr;
      status, curr := NextPage(helper, regs, mem, addr);
      if status != Success {
        FailedRound(cfg, mem, combine, loop, lines, rounds);
        assert ReportsRange(status, null, [], r);
        return status, null;
      }
      WalkedRound(cfg, mem, combine, loop, lines, rounds, curr);
      var alignedVa := curr.va;
      assert Grown(loop.end, addr, curr)
             == if addr == alignedVa then Plus(va, size) else Plus(va, Plus(size, Minus(addr, alignedVa))) by {
        BoundGrows(va, size, addr, curr);
      }
      if addr != alignedVa {
        size := Plus(size, Minus(addr, alignedVa));
      }
      TakeJudged(loop, combine, curr);
      if count == 0 {
        prev := curr;
      } else {
        match Judge(prev, curr, combine) {
          case Overlapping =>
            assert ReportsRange(Failure, null, [], r);
            return Failure, null;
          case OutOfOrder =>
            assert ReportsRange(Exit, null, [], r);
            return Exit, null;
          case Join =>
            prev := Grow(prev, curr);
          case Emit =>
            head, node, nodes := Append(head, node, prev, nodes, list);
            list := list + [prev];
            prev := curr;
        }
      }
      addr := Plus(curr.va, curr.size);
      count, rounds := count + 1, rounds - 1;
    }
    LastRound(cfg, mem, combine, Loop(addr, Plus(va, size), count == 0, prev, list), helper.Lines(), rounds);
    head, node, nodes := Append(head, node, prev, nodes, list);
    status := Success;
    assert ReportsRange(status, head, nodes, r);
  }

  /** What the status says of the table, if the loop reads it and its cursor does not wrap. */
  lemma StatusOfRange(
    cfg: TableConfig, mem: Memory, va: Word, size: Word, combine: bool,
    status: Status, head: Node?<Fragment>, nodes: seq<Node<Fragment>>, r: RangeResult)
    requires cfg.Wellformed() && ReadsTable(cfg, mem) && TranslateRange(cfg, mem, va, size, combine) != TopReached
    requires EndsWith(cfg, mem, va, size, combine, r) && ReportsRange(status, head, nodes, r)
    ensures status == Success <==> TranslateRange(cfg, mem, va, size, combine).Listed?
    ensures status == Failure <==> TranslateRange(cfg, mem, va, size, combine) == Rejected
    ensures status == Exit <==> TranslateRange(cfg, mem, va, size, combine) in {Terminated, Aborted}
    ensures status == Success ==> IsList(head, nodes, TranslateRange(cfg, mem, va, size, combine).fragments)
  {
    hide ReadsTable, EndsWith, TranslateRange, IsList;
    LoopResult(cfg, mem, va, size, combine);
  }

  lemma BoundGrows(va: Word, size: Word, addr: Word, page: Fragment)
    ensures Grown(Plus(va, size), addr, page)
            == if addr == page.va then Plus(va, size) else Plus(va, Plus(size, Minus(addr, page.va)))
  {
    hide Plus, Minus;
    PlusAssociates(va, size, Minus(addr, page.va));
  }

  /** What taking a page means, by the verdict on it. */
  lemma TakeJudged(loop: Loop, combine: bool, page: Fragment)
    ensures var next, end := Plus(page.va, page.size), Grown(loop.end, loop.cursor, page);
            TakePage(loop, combine, page)
            == if loop.first then Running(Loop(next, end, false, page, loop.list))
               else match Judge(loop.prev, page, combine)
                    case Overlapping => Stopped(Rejected)
                    case OutOfOrder => Stopped(Aborted)
                    case Join => Running(Loop(next, end, false, Grow(loop.prev, page), loop.list))
                    case Emit => Running(Loop(next, end, false, page, loop.list + [loop.prev]))
  {
    hide FragmentsOverlap, IsContiguous, Grow, Grown, Plus;
  }

  // ------------------------------------------------------------------ one address

  /** How the status and the record report the result of the loop for one address: by the entry that
      the first walk, from a fresh cache, finds; the last 4 KiB page is not walked at all. */
  ghost predicate ReportsTranslation(
    cfg: TableConfig, mem: Memory, va: Word, status: Status, trans: Translation, r: RangeResult)
    requires cfg.Wellformed()
  {
    match r
    case Listed(_) =>
      && status == Success
      && if va + ToPageEnd(va) == TWO64 then trans == Translation(va, false, ZeroFragment().flags, 0)
         else
           var (outcome, _) := WalkWithCache(cfg, mem, ZeroCache(), va);
           outcome.Walked? && outcome.shift < 64 && trans == PlainTranslation(outcome.pte, outcome.shift, va)
    case Rejected => status == Failure
    case Terminated => status == Exit
    case Aborted => status == Exit
    case TopReached => false
  }

  /** Translates one address, by asking for the range up to the end of its 4 KiB page and taking the
      first fragment: the page base plus the offset in that page, whatever its size. If the loop reads
      the table, that is what the plain walk says; and on a uniform table the translation succeeds
      exactly when the address and the further pages it happens to need can be walked. */
  method SiftXlatorTranslate(regs: Registers, mem: Memory, va: Word) returns (status: Status, trans: Translation)
    requires Ends(ConfigOf(regs), mem, va, ToPageEnd(va), false)
    ensures exists r: RangeResult ::
              && EndsWith(ConfigOf(regs), mem, va, ToPageEnd(va), false, r)
              && ReportsTranslation(ConfigOf(regs), mem, va, status, trans, r)
    ensures ReadsTable(ConfigOf(regs), mem) ==>
              WalkWithCache(ConfigOf(regs), mem, ZeroCache(), va).0 == Walk(ConfigOf(regs), mem, va)
    ensures ReadsTable(ConfigOf(regs), mem) && UniformTable(ConfigOf(regs), mem)
            && Unwrapped(ConfigOf(regs), mem, va, ToPageEnd(va)) ==>
              (status == Success <==> Translates(ConfigOf(regs), mem, va))
  {
    hide ConfigOf, Walk, WalkWithCache, PageOf, ToPageEnd, FromFragment, PlainTranslation, ZeroFragment, EndsWith;
    hide Translates, WalkedAlike, Unwrapped, ReadsTable;
    ghost var cfg := ConfigOf(regs);
    var head: Node?<Fragment>;
    status, head := SiftXlatorTranslateRange(regs, mem, va, ToPageEnd(va), false);
    ghost var nodes: seq<Node<Fragment>>, r: RangeResult :|
      EndsWith(cfg, mem, va, ToPageEnd(va), false, r) && ReportsRange(status, head, nodes, r);
    trans := Translation(0, false, ZeroFragment().flags, 0);
    if status == Success {
      ListStarts(cfg, mem, va, ToPageEnd(va), r);
      trans := FromFragment(head.value, va);
      LastPageWraps(va);
      if va + ToPageEnd(va) < TWO64 {
        ghost var outcome := WalkWithCache(cfg, mem, ZeroCache(), va).0;
        PageTranslates(va, outcome.pte, outcome.shift);
      } else {
        ZeroTranslates(va);
      }
    }
    assert ReportsTranslation(cfg, mem, va, status, trans, r);
    if ReadsTable(cfg, mem) {
      FirstWalkIsPlain(cfg, mem, va);
      if UniformTable(cfg, mem) && Unwrapped(cfg, mem, va, ToPageEnd(va)) {
        LoopTranslatesIff(cfg, mem, va, r);
      }
    }
  }

  lemma LastPageWraps(va: Word)
    ensures va + ToPageEnd(va) <= TWO64
  {}
}
