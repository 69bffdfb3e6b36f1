/** Fragments of a translated range, the tests between neighbours, and the fragment list of a
    range as a function of the table. */
module Fragments {
  import opened Words
  import opened PageTable
  import opened Blocks

  datatype Fragment = Fragment(va: Word, pa: Word, size: Word, flags: Pte)

  /** The fragment a translation of zero bytes reports. */
  function ZeroFragment(): Fragment {
    Fragment(0, 0, 0, Pte(false, false, false, false, false, false, false, 0, 0, false, 0, false, false, false, 0))
  }

  // ---------------------------------------------------------- neighbour tests

  /** The overlap test between the fragment under construction and the next page. */
  predicate FragmentsOverlap(lhs: Fragment, rhs: Fragment) {
    && lhs.flags.valid
    && rhs.flags.valid
    && (|| (lhs.va == rhs.va && lhs.pa == rhs.pa && lhs.size == rhs.size)
        || (rhs.va >= lhs.va && rhs.va < Plus(lhs.va, lhs.size))
        || (rhs.pa >= lhs.pa && rhs.pa < Plus(lhs.pa, lhs.size))
        || (lhs.pa >= rhs.pa && lhs.pa < Plus(rhs.pa, rhs.size)))
  }

  /** All attributes other than the page base. */
  predicate SameAttributes(p: Pte, q: Pte) {
    p.(baseAddress := q.baseAddress) == q
  }

  /** The fields of an entry other than the page base, one by one. */
  predicate EqualFields(p: Pte, q: Pte) {
    && p.valid == q.valid && p.system == q.system && p.coherent == q.coherent && p.tmz == q.tmz
    && p.execute == q.execute && p.read == q.read && p.write == q.write && p.fragment == q.fragment
    && p.tiled == q.tiled && p.sw == q.sw && p.pte == q.pte && p.log == q.log
    && p.translateFurther == q.translateFurther && p.mtype == q.mtype
  }

  lemma EntriesEqual(p: Pte, q: Pte)
    ensures p == q <==> EqualFields(p, q) && p.baseAddress == q.baseAddress
  {}

  lemma AllAttributes(p: Pte, q: Pte)
    ensures SameAttributes(p, q) <==> EqualFields(p, q)
  {
    EntriesEqual(p.(baseAddress := q.baseAddress), q);
    Rebased(p, q, q.baseAddress);
    hide EqualFields;
  }

  lemma Rebased(p: Pte, q: Pte, base: Word)
    ensures EqualFields(p.(baseAddress := base), q) <==> EqualFields(p, q)
  {}

  /** The contiguity test; the first case is the one that ends the process. */
  datatype Contiguity = CodeBug | Separate | Contiguous

  function IsContiguous(prev: Fragment, curr: Fragment): Contiguity {
    if Plus(prev.va, prev.size) > curr.va then CodeBug
    else if Plus(prev.va, prev.size) != curr.va then Separate
    else if !prev.flags.valid && !curr.flags.valid then Contiguous
    else if Plus(prev.pa, prev.size) != curr.pa then Separate
    else if SameAttributes(prev.flags, curr.flags) then Contiguous
    else Separate
  }

  function Grow(prev: Fragment, curr: Fragment): Fragment {
    prev.(size := Plus(prev.size, curr.size))
  }

  // -------------------------------------------------------- the list of a range

  /** The page around `va` that a walk reports: its aligned start, its physical base and its
      attributes. */
  function PageOf(va: Word, pte: Pte, shift: nat): (page: Fragment)
    requires shift < 64
    ensures page.va <= va < page.va + page.size <= TWO64
  {
    ShiftedOne(shift);
    BlockInWord(va, shift);
    Fragment(BlockStart(va, shift), pte.baseAddress, Pow2(shift), pte)
  }

  function PageAt(cfg: TableConfig, mem: Memory, va: Word): (page: Fragment)
    requires cfg.Wellformed() && Walk(cfg, mem, va).Walked?
    ensures page.va <= va < page.va + page.size <= TWO64
  {
    ReportBounds(cfg, mem, va);
    PageOf(va, Walk(cfg, mem, va).pte, Walk(cfg, mem, va).shift)
  }

  /** A list; a rejected range (rc -1); the process ended on a failed read, or on a code bug; or the
      page that ends at 2^64 was translated and the cursor wrapped to zero, below the bound. */
  datatype RangeResult = Listed(fragments: seq<Fragment>) | Rejected | Terminated | Aborted | TopReached

  function Prepend(f: Fragment, rest: RangeResult): RangeResult {
    if rest.Listed? then Listed([f] + rest.fragments) else rest
  }

  /** The bound after a page: it grows by the bytes of the page before the cursor. */
  function Grown(end: Word, addr: Word, page: Fragment): Word {
    if addr == page.va then end else Plus(end, Minus(addr, page.va))
  }

  /** The rest of a list from `addr` up to `end`, with `prev` still under construction. */
  function RangeFrom(cfg: TableConfig, mem: Memory, addr: nat, end: Word, prev: Fragment, combine: bool): RangeResult
    requires cfg.Wellformed() && addr <= TWO64
    decreases TWO64 - addr
  {
    if addr == TWO64 then if end == 0 then Listed([prev]) else TopReached
    else if addr >= end then Listed([prev])
    else
      match Walk(cfg, mem, addr)
      case Exited => Terminated
      case Unsupported => Rejected
      case Walked(_, _) =>
        var curr := PageAt(cfg, mem, addr);
        var next, end' := curr.va + curr.size, Grown(end, addr, curr);
        if FragmentsOverlap(prev, curr) then Rejected
        else if combine && IsContiguous(prev, curr) == CodeBug then Aborted
        else if combine && IsContiguous(prev, curr) == Contiguous then
          RangeFrom(cfg, mem, next, end', Grow(prev, curr), combine)
        else
          Prepend(prev, RangeFrom(cfg, mem, next, end', curr, combine))
  }

  /** The fragments of a range of addresses, or why there are none. */
  function TranslateRange(cfg: TableConfig, mem: Memory, va: Word, size: Word, combine: bool): RangeResult
    requires cfg.Wellformed()
  {
    var end := Plus(va, size);
    if va >= end then Listed([ZeroFragment()])
    else
      match Walk(cfg, mem, va)
      case Exited => Terminated
      case Unsupported => Rejected
      case Walked(_, _) =>
        var first := PageAt(cfg, mem, va);
        RangeFrom(cfg, mem, first.va + first.size, Grown(end, va, first), first, combine)
  }

  // ------------------------------------------------------------ the end of a range

  /** Where the translated range ends: the first page moves the end up by the bytes it starts
      before `va`. */
  function RangeEnd(cfg: TableConfig, mem: Memory, va: Word, size: Word): (end: nat)
    requires cfg.Wellformed() && Walk(cfg, mem, va).Walked?
    ensures va + size <= end
  {
    va + size + (va - PageAt(cfg, mem, va).va)
  }

  /** The range and its moved end stay below 2^64. */
  predicate Unwrapped(cfg: TableConfig, mem: Memory, va: Word, size: Word)
    requires cfg.Wellformed()
  {
    va + size < TWO64 && (Walk(cfg, mem, va).Walked? ==> RangeEnd(cfg, mem, va, size) < TWO64)
  }

  /** The range of an unwrapped request, in plain arithmetic. */
  lemma UnwrappedRange(cfg: TableConfig, mem: Memory, va: Word, size: Word, combine: bool)
    requires cfg.Wellformed() && Unwrapped(cfg, mem, va, size)
    ensures TranslateRange(cfg, mem, va, size, combine)
            == if size == 0 then Listed([ZeroFragment()])
               else match Walk(cfg, mem, va)
                    case Exited => Terminated
                    case Unsupported => Rejected
                    case Walked(_, _) =>
                      var first := PageAt(cfg, mem, va);
                      RangeFrom(cfg, mem, first.va + first.size, RangeEnd(cfg, mem, va, size), first, combine)
  {
    hide Walk, PageAt, RangeFrom, Plus, Minus;
    PlusFits(va, size);
    if Walk(cfg, mem, va).Walked? {
      var first := PageAt(cfg, mem, va);
      MinusFits(va, first.va);
      PlusFits(va + size, va - first.va);
    }
  }

  /** If the end of the range passes 2^64, no address is walked and one empty fragment is listed. */
  lemma WrappedRange(cfg: TableConfig, mem: Memory, va: Word, size: Word, combine: bool)
    requires cfg.Wellformed() && va + size >= TWO64
    ensures TranslateRange(cfg, mem, va, size, combine) == Listed([ZeroFragment()])
  {
    hide Walk, PageAt, RangeFrom;
  }

  /** If only the moved end passes 2^64, the first page is all that is listed. */
  lemma WrappedEnd(cfg: TableConfig, mem: Memory, va: Word, size: Word, combine: bool)
    requires cfg.Wellformed() && 0 < size && va + size < TWO64 && Walk(cfg, mem, va).Walked?
    requires RangeEnd(cfg, mem, va, size) >= TWO64 > PageAt(cfg, mem, va).va + PageAt(cfg, mem, va).size
    ensures TranslateRange(cfg, mem, va, size, combine) == Listed([PageAt(cfg, mem, va)])
  {
    hide Walk, PageAt;
    var first := PageAt(cfg, mem, va);
    MinusFits(va, first.va);
    PlusFits(va, size);
    hide Minus;
  }
}
