/** What a fragment list means: it tiles the range without gap or overlap, and translates every
    address as the plain walk does, whether or not neighbouring pages were combined. */
module RangeMeaning {
  import opened Words
  import opened PageTable
  import opened Blocks
  import opened Fragments

  // ------------------------------------------------------------ translations

  /** Where one address goes: nowhere, or to a physical address with the attributes of its page. */
  datatype Mapping = Unmapped | Mapped(pa: int, attributes: Pte)

  function Attributes(p: Pte): Pte {
    p.(baseAddress := 0)
  }

  /** The plain walk of one address: its page base plus its offset in the page. */
  function PlainMapping(cfg: TableConfig, mem: Memory, x: Word): Mapping
    requires cfg.Wellformed()
  {
    match Walk(cfg, mem, x)
    case Walked(pte, shift) =>
      if pte.valid then Mapped(pte.baseAddress + LowBits(x, shift), Attributes(pte)) else Unmapped
    case _ => Unmapped
  }

  predicate Holds(f: Fragment, x: Word) {
    f.va <= x < f.va + f.size
  }

  function FragmentMapping(f: Fragment, x: Word): Mapping
    requires Holds(f, x)
  {
    if f.flags.valid then Mapped(f.pa + (x - f.va), Attributes(f.flags)) else Unmapped
  }

  /** A fragment list read as a translation: the first fragment that holds the address decides. */
  function ListMapping(list: seq<Fragment>, x: Word): Mapping {
    if list == [] then Unmapped
    else if Holds(list[0], x) then FragmentMapping(list[0], x)
    else ListMapping(list[1..], x)
  }

  /** Every address of the fragment is walked successfully, to what the fragment says. */
  ghost predicate FragmentMeans(cfg: TableConfig, mem: Memory, f: Fragment)
    requires cfg.Wellformed()
  {
    && 0 < f.size && f.va + f.size <= TWO64
    && forall x: Word | Holds(f, x) :: AddressMeans(cfg, mem, f, x)
  }

  predicate AddressMeans(cfg: TableConfig, mem: Memory, f: Fragment, x: Word)
    requires cfg.Wellformed() && Holds(f, x)
  {
    Walk(cfg, mem, x).Walked? && FragmentMapping(f, x) == PlainMapping(cfg, mem, x)
  }

  /** Consecutive fragments from `lo` to `hi`. */
  predicate Tiles(list: seq<Fragment>, lo: int, hi: int) {
    if list == [] then lo == hi
    else list[0].va == lo && 0 < list[0].size && Tiles(list[1..], lo + list[0].size, hi)
  }

  // -------------------------------------------------------------- boundaries

  /** `last` is the last address of its page. */
  predicate EndsPage(cfg: TableConfig, mem: Memory, last: Word)
    requires cfg.Wellformed()
  {
    Walk(cfg, mem, last).Walked? && PageAt(cfg, mem, last).va + PageAt(cfg, mem, last).size == last + 1
  }

  /** `addr` is the end of the page that holds the address before it. */
  predicate AtBoundary(cfg: TableConfig, mem: Memory, addr: nat)
    requires cfg.Wellformed()
  {
    0 < addr <= TWO64 && EndsPage(cfg, mem, addr - 1)
  }

  /** The page of `va` means what it says. */
  lemma PageMeans(cfg: TableConfig, mem: Memory, va: Word)
    requires UniformTable(cfg, mem) && Walk(cfg, mem, va).Walked?
    ensures var page := PageAt(cfg, mem, va);
            FragmentMeans(cfg, mem, page) && AtBoundary(cfg, mem, page.va + page.size)
  {
    hide Walk, WalkedAlike, PageAt, PlainMapping, FragmentMapping;
    var page := PageAt(cfg, mem, va);
    forall x: Word | Holds(page, x) ensures AddressMeans(cfg, mem, page, x) {
      PageAddressMeans(cfg, mem, va, x);
    }
    PageAddressMeans(cfg, mem, va, page.va + page.size - 1);
  }

  lemma PageAddressMeans(cfg: TableConfig, mem: Memory, va: Word, x: Word)
    requires UniformTable(cfg, mem) && Walk(cfg, mem, va).Walked? && Holds(PageAt(cfg, mem, va), x)
    ensures AddressMeans(cfg, mem, PageAt(cfg, mem, va), x) && PageAt(cfg, mem, x) == PageAt(cfg, mem, va)
  {
    hide Walk, WalkedAlike, SameBlock, Pow2;
    var shift := Walk(cfg, mem, va).shift;
    SameBlockIffWithin(va, x, shift);
    UniformBlock(cfg, mem, va, x);
  }

  /** A page that starts at the end of another one starts exactly there. */
  lemma NextPageAligned(cfg: TableConfig, mem: Memory, addr: Word)
    requires UniformTable(cfg, mem) && AtBoundary(cfg, mem, addr) && Walk(cfg, mem, addr).Walked?
    ensures PageAt(cfg, mem, addr).va == addr
  {
    hide Walk, WalkedAlike;
    NextBlockStarts(cfg, mem, addr - 1);
  }

  // ------------------------------------------------------------------ growing

  /** A valid fragment's physical range stays far below 2^64. */
  predicate PhysicalBound(f: Fragment) {
    f.flags.valid ==> f.pa + f.size <= 0x1_0000_0000_0000 + 0x800_0000_0000
  }

  lemma LargestReport()
    ensures Pow2(43) == 0x800_0000_0000
  {
    Pow2Values();
    Pow2Add(32, 11);
  }

  lemma PagePhysicalBound(cfg: TableConfig, mem: Memory, va: Word)
    requires cfg.Wellformed() && Walk(cfg, mem, va).Walked?
    ensures PhysicalBound(PageAt(cfg, mem, va))
  {
    hide WalkedAlike, Walk;
    ReportBounds(cfg, mem, va);
    Pow2Mono(Walk(cfg, mem, va).shift, 43);
    LargestReport();
    WalkedBaseRange(cfg, mem, va);
  }

  lemma WalkedBaseRange(cfg: TableConfig, mem: Memory, va: Word)
    requires cfg.Wellformed() && Walk(cfg, mem, va).Walked?
    ensures Walk(cfg, mem, va).pte.baseAddress < 0x1_0000_0000_0000
  {
    hide GetPdeFields, GetPteFields, FurtherLocation, DescendFrom;
    var d := DescendFrom(cfg, mem, va);
    var raw := d.words[|d.words| - 1];
    PteBaseRange(raw);
    var further := mem.Read(FurtherLocation(Relative(cfg, va), raw));
    if further.Some? {
      PteBaseRange(further.value);
    }
  }

  /** Growing a fragment by a contiguous page keeps what both of them mean. */
  lemma GrowMeans(cfg: TableConfig, mem: Memory, prev: Fragment, curr: Fragment)
    requires cfg.Wellformed()
    requires FragmentMeans(cfg, mem, prev) && FragmentMeans(cfg, mem, curr)
    requires PhysicalBound(prev) && PhysicalBound(curr)
    requires prev.va + prev.size == curr.va && curr.va + curr.size < TWO64
    requires IsContiguous(prev, curr) == Contiguous
    ensures FragmentMeans(cfg, mem, Grow(prev, curr)) && PhysicalBound(Grow(prev, curr))
    ensures Grow(prev, curr).size == prev.size + curr.size
  {
    hide Walk, PlainMapping;
    var grown := Grow(prev, curr);
    forall x: Word | Holds(grown, x) ensures AddressMeans(cfg, mem, grown, x) {
      if Holds(prev, x) {
        assert AddressMeans(cfg, mem, prev, x);
      } else {
        assert AddressMeans(cfg, mem, curr, x);
      }
    }
  }

  // ----------------------------------------------------------- the whole list

  /** The state between two pages: everything up to `addr` is in `prev` or already listed. */
  ghost predicate Building(cfg: TableConfig, mem: Memory, addr: nat, end: nat, prev: Fragment) {
    && UniformTable(cfg, mem) && end < TWO64
    && AtBoundary(cfg, mem, addr) && prev.va + prev.size == addr && 0 < prev.size
    && FragmentMeans(cfg, mem, prev) && PhysicalBound(prev)
    && PageAt(cfg, mem, addr - 1).va < end
  }

  /** A finished list from `lo`: it tiles up to a page boundary at or past `end`, its last page
      starts before `end`, and each fragment means what it says. */
  ghost predicate Finished(cfg: TableConfig, mem: Memory, list: seq<Fragment>, lo: nat, end: nat) {
    && cfg.Wellformed()
    && (forall f | f in list :: FragmentMeans(cfg, mem, f))
    && exists hi: nat :: EndsAt(cfg, mem, list, lo, end, hi)
  }

  predicate EndsAt(cfg: TableConfig, mem: Memory, list: seq<Fragment>, lo: nat, end: nat, hi: nat)
    requires cfg.Wellformed()
  {
    end <= hi && Tiles(list, lo, hi) && AtBoundary(cfg, mem, hi) && PageAt(cfg, mem, hi - 1).va < end
  }

  /** One more page: it starts at `addr`, means what it says, and does not overlap virtually. */
  lemma StepBuilding(cfg: TableConfig, mem: Memory, addr: nat, end: nat, prev: Fragment)
    requires Building(cfg, mem, addr, end, prev) && addr < end && Walk(cfg, mem, addr).Walked?
    ensures var curr := PageAt(cfg, mem, addr);
            && curr.va == addr && Building(cfg, mem, curr.va + curr.size, end, curr)
            && IsContiguous(prev, curr) != CodeBug
            && (IsContiguous(prev, curr) == Contiguous && curr.va + curr.size < TWO64
                ==> Building(cfg, mem, curr.va + curr.size, end, Grow(prev, curr)))
  {
    hide Walk, WalkedAlike, FragmentMeans, SameAttributes, PageAt;
    var curr := PageAt(cfg, mem, addr);
    NextPageAligned(cfg, mem, addr);
    PageMeans(cfg, mem, addr);
    PagePhysicalBound(cfg, mem, addr);
    PageAddressMeans(cfg, mem, addr, curr.va + curr.size - 1);
    if IsContiguous(prev, curr) == Contiguous && curr.va + curr.size < TWO64 {
      GrowMeans(cfg, mem, prev, curr);
    }
  }

  lemma FinishedLast(cfg: TableConfig, mem: Memory, addr: nat, end: nat, prev: Fragment)
    requires Building(cfg, mem, addr, end, prev) && end <= addr
    ensures Finished(cfg, mem, [prev], prev.va, end)
  {
    hide FragmentMeans, PageAt, PhysicalBound, Walk;
    assert Tiles([prev][1..], addr, addr);
    assert EndsAt(cfg, mem, [prev], prev.va, end, addr);
  }

  lemma FinishedPrepend(cfg: TableConfig, mem: Memory, f: Fragment, list: seq<Fragment>, end: nat)
    requires cfg.Wellformed() && FragmentMeans(cfg, mem, f) && 0 < f.size
    requires Finished(cfg, mem, list, f.va + f.size, end)
    ensures Finished(cfg, mem, [f] + list, f.va, end)
  {
    hide FragmentMeans, AtBoundary, PageAt;
    var hi :| EndsAt(cfg, mem, list, f.va + f.size, end, hi);
    assert ([f] + list)[1..] == list;
    assert EndsAt(cfg, mem, [f] + list, f.va, end, hi);
  }

  lemma {:induction false} RangeFromFinished(
    cfg: TableConfig, mem: Memory, addr: nat, end: nat, prev: Fragment, combine: bool)
    requires Building(cfg, mem, addr, end, prev)
    ensures var r := RangeFrom(cfg, mem, addr, end, prev, combine);
            && r != Aborted
            && (r.Listed? ==> Finished(cfg, mem, r.fragments, prev.va, end))
    decreases TWO64 - addr
  {
    hide Walk, WalkedAlike, FragmentMeans, PhysicalBound, PageAt, IsContiguous, FragmentsOverlap;
    if addr == TWO64 {
    } else if addr >= end {
      FinishedLast(cfg, mem, addr, end, prev);
    } else if Walk(cfg, mem, addr).Walked? {
      StepBuilding(cfg, mem, addr, end, prev);
      var curr := PageAt(cfg, mem, addr);
      if !FragmentsOverlap(prev, curr) && curr.va + curr.size < TWO64 {
        if combine && IsContiguous(prev, curr) == Contiguous {
          RangeFromFinished(cfg, mem, curr.va + curr.size, end, Grow(prev, curr), combine);
        } else {
          RangeFromFinished(cfg, mem, curr.va + curr.size, end, curr, combine);
          var rest := RangeFrom(cfg, mem, curr.va + curr.size, end, curr, combine);
          if rest.Listed? {
            FinishedPrepend(cfg, mem, prev, rest.fragments, end);
          }
        }
      }
    }
  }
}
