/** The level indices of an address as digits of a mixed-radix number. */
module Geometry {
  import opened Words
  import opened PageTable

  function IndexAt(cfg: TableConfig, rel: Word, level: nat): Word
    requires cfg.Wellformed() && level <= cfg.depth
  {
    SlotIndex(LevelAt(cfg, level), rel)
  }

  /** The indices of the levels up to `level`, weighted by their slot sizes, plus the offset
      inside a page-table slot. */
  function Recompose(cfg: TableConfig, rel: Word, level: nat): nat
    requires cfg.Wellformed() && level <= cfg.depth
  {
    MulMono(0, IndexAt(cfg, rel, level), Pow2(ShiftAt(cfg, level)));
    var below := if level == 0 then LowBits(rel, ShiftAt(cfg, 0)) else Recompose(cfg, rel, level - 1);
    IndexAt(cfg, rel, level) * Pow2(ShiftAt(cfg, level)) + below
  }

  /** An inner level selects nine bits. */
  lemma InnerIndex(cfg: TableConfig, rel: Word, level: nat)
    requires cfg.Wellformed() && level < cfg.depth
    ensures IndexAt(cfg, rel, level) == rel / Pow2(ShiftAt(cfg, level)) % 512
  {
    hide Pow2, And, Minus, Shr, LowBits;
    AndLowMask(Shr(rel, ShiftAt(cfg, level)), 9);
    ShrValue(rel, ShiftAt(cfg, level));
    Pow2Values();
    MinusFits(512, 1);
  }

  lemma {:induction false} InnerLevelsRecompose(cfg: TableConfig, rel: Word, level: nat)
    requires cfg.Wellformed() && level < cfg.depth
    ensures Recompose(cfg, rel, level) == rel % Pow2(ShiftAt(cfg, level + 1))
  {
    InnerIndex(cfg, rel, level);
    if level > 0 {
      InnerLevelsRecompose(cfg, rel, level - 1);
    } else {
      LowBitsValue(rel, ShiftAt(cfg, 0));
    }
    Pow2Add(ShiftAt(cfg, level), 9);
    Pow2Values();
    assert ShiftAt(cfg, level + 1) == ShiftAt(cfg, level) + 9;
    hide Pow2, IndexAt;
    DivDiv(rel, Pow2(ShiftAt(cfg, level)), 512);
  }

  lemma RootRecomposes(cfg: TableConfig, rel: Word)
    requires cfg.Wellformed() && cfg.depth > 0
    ensures Recompose(cfg, rel, cfg.depth) == rel
            <==> IndexAt(cfg, rel, cfg.depth) == rel / Pow2(ShiftAt(cfg, cfg.depth))
  {
    hide Pow2, IndexAt;
    InnerLevelsRecompose(cfg, rel, cfg.depth - 1);
    assert ShiftAt(cfg, cfg.depth - 1 + 1) == ShiftAt(cfg, cfg.depth);
    DigitIff(rel, IndexAt(cfg, rel, cfg.depth), Pow2(ShiftAt(cfg, cfg.depth)));
  }

  /** The leading digit is right exactly when the whole number is. */
  lemma DigitIff(x: nat, digit: nat, p: nat)
    requires p > 0
    ensures digit * p + x % p == x <==> digit == x / p
  {
    DivMod(x, p);
    if digit * p == x / p * p {
      SameFactor(digit, x / p, p);
    }
  }

  lemma SameFactor(a: int, b: int, p: nat)
    requires p > 0 && a * p == b * p
    ensures a == b
  {
    DivModUnique(a * p, p, a, 0);
    DivModUnique(b * p, p, b, 0);
  }

  // ----------------------------------------------------------- powers of two

  ghost predicate IsPow2(n: nat) {
    exists k: nat :: n == Pow2(k)
  }

  predicate Kept(q: nat, n: nat)
    requires n > 0
  {
    And(q, n - 1) == q
  }

  /** Masking by n - 1 keeps every number below n. */
  ghost predicate MaskKeeps(n: nat)
    requires n > 0
  {
    forall q: nat | q < n :: Kept(q, n)
  }

  lemma KeptHalves(q: nat, n: nat)
    requires n > 0 && n % 2 == 0
    ensures Kept(q, n) <==> Kept(q / 2, n / 2)
  {
    assert (n - 1) / 2 == n / 2 - 1 && (n - 1) % 2 == 1;
    assert q > 0 ==> And(q, n - 1) == 2 * And(q / 2, n / 2 - 1) + q % 2;
  }

  lemma MaskKeepsHalves(n: nat)
    requires n > 0 && n % 2 == 0
    ensures MaskKeeps(n) <==> MaskKeeps(n / 2)
  {
    hide Kept;
    forall q: nat ensures Kept(q, n) <==> Kept(q / 2, n / 2) {
      KeptHalves(q, n);
    }
    if MaskKeeps(n) {
      forall q: nat | q < n / 2 ensures Kept(q, n / 2) {
        assert Kept(2 * q, n) && 2 * q / 2 == q;
      }
    }
  }

  lemma {:induction false} MaskKeepsIff(n: nat)
    requires n > 0
    ensures MaskKeeps(n) <==> IsPow2(n)
    decreases n
  {
    if n == 1 {
      assert n == Pow2(0);
    } else if n % 2 == 1 {
      assert !Kept(1, n);
    } else {
      hide Kept, IsPow2, MaskKeeps;
      MaskKeepsIff(n / 2);
      MaskKeepsHalves(n);
      HalfIsPow2(n);
    }
  }

  lemma HalfIsPow2(n: nat)
    requires n > 0 && n % 2 == 0
    ensures IsPow2(n) <==> IsPow2(n / 2)
  {
    if IsPow2(n) {
      var k: nat :| n == Pow2(k);
      assert n / 2 == Pow2(k - 1);
    }
    if IsPow2(n / 2) {
      var k: nat :| n / 2 == Pow2(k);
      assert n == Pow2(k + 1);
    }
  }

  // -------------------------------------------------------------- main result

  /** Every relative address of the table is the sum of its weighted indices and its offset. */
  ghost predicate MixedRadix(cfg: TableConfig)
    requires cfg.Wellformed() && cfg.depth > 0
  {
    forall rel: Word | rel < LevelAt(cfg, cfg.depth).vaRange :: Recompose(cfg, rel, cfg.depth) == rel
  }

  /** The size of the root table: empty, or a power of two that covers the range exactly. */
  ghost predicate RootFits(cfg: TableConfig)
    requires cfg.Wellformed() && cfg.depth > 0
  {
    var root := LevelAt(cfg, cfg.depth);
    root.numPdes == 0 || (IsPow2(root.numPdes) && root.vaRange % root.pdeSize == 0)
  }

  lemma AndAllOnes(q: Word)
    ensures And(q, 0xFFFF_FFFF_FFFF_FFFF) == q
  {
    AndLowMask(q, 64);
    Pow2Values();
    DivModUnique(q, TWO64, 0, q);
  }

  /** Whether the root level reproduces its quotient, from the number of its entries alone. */
  lemma RootIndexIff(cfg: TableConfig, q: Word)
    requires cfg.Wellformed() && cfg.depth > 0
    ensures var n := LevelAt(cfg, cfg.depth).numPdes;
            And(q, Minus(n, 1)) == q <==> n == 0 || Kept(q, n)
  {
    hide LevelAt;
    var n := LevelAt(cfg, cfg.depth).numPdes;
    if n == 0 {
      AndAllOnes(q);
    } else {
      MinusFits(n, 1);
    }
  }

  lemma RootAt(cfg: TableConfig, rel: Word)
    requires cfg.Wellformed() && cfg.depth > 0
    ensures var root := LevelAt(cfg, cfg.depth);
            && root.pdeSize > 0 && root.numPdes == root.vaRange / root.pdeSize
            && 0 <= rel / root.pdeSize <= rel
            && (Recompose(cfg, rel, cfg.depth) == rel
                <==> root.numPdes == 0 || Kept(rel / root.pdeSize, root.numPdes))
  {
    hide Pow2, And, Recompose, Minus, Shr, Plus;
    var shift := ShiftAt(cfg, cfg.depth);
    RootRecomposes(cfg, rel);
    ShrValue(rel, shift);
    ShrValue(LevelAt(cfg, cfg.depth).vaRange, shift);
    RootIndexIff(cfg, Shr(rel, shift));
  }

  lemma FittingRootDecomposes(cfg: TableConfig, rel: Word)
    requires cfg.Wellformed() && cfg.depth > 0 && RootFits(cfg)
    requires rel < LevelAt(cfg, cfg.depth).vaRange
    ensures Recompose(cfg, rel, cfg.depth) == rel
  {
    var root := LevelAt(cfg, cfg.depth);
    RootAt(cfg, rel);
    hide LevelAt, Recompose, IsPow2, Pow2, Kept;
    if root.numPdes > 0 {
      DivMod(root.vaRange, root.pdeSize);
      QuotientBelow(rel, root.numPdes, root.pdeSize);
      MaskKeepsIff(root.numPdes);
    }
  }

  lemma SlotInside(vaRange: nat, size: nat, q: nat)
    requires size > 0
    requires q < vaRange / size || (q == vaRange / size && vaRange % size > 0)
    ensures q * size < vaRange
  {
    DivMod(vaRange, size);
    if q < vaRange / size {
      MulMono(q + 1, vaRange / size, size);
    }
  }

  /** A slot number inside the range that a root table of n entries does not select. */
  lemma MissedSlot(vaRange: nat, n: nat, size: nat) returns (q: nat)
    requires n > 0 && size > 0 && n == vaRange / size
    requires !(IsPow2(n) && vaRange % size == 0)
    ensures q * size < vaRange && !Kept(q, n)
  {
    MaskKeepsIff(n);
    DivMod(vaRange, size);
    hide IsPow2, And;
    if vaRange % size == 0 {
      q :| q < n && !Kept(q, n);
    } else {
      q := n;
      assert And(n, n - 1) <= n - 1;
    }
    SlotInside(vaRange, size, q);
  }

  /** An address that an ill-fitting root table does not decompose. */
  lemma IllFittingRoot(cfg: TableConfig) returns (rel: Word)
    requires cfg.Wellformed() && cfg.depth > 0 && !RootFits(cfg)
    ensures rel < LevelAt(cfg, cfg.depth).vaRange && Recompose(cfg, rel, cfg.depth) != rel
  {
    hide LevelAt, Recompose, IsPow2, Pow2, Kept;
    var root := LevelAt(cfg, cfg.depth);
    RootAt(cfg, 0);
    var q := MissedSlot(root.vaRange, root.numPdes, root.pdeSize);
    MulMono(0, q, root.pdeSize);
    rel := q * root.pdeSize;
    DivModUnique(rel, root.pdeSize, q, 0);
    RootAt(cfg, rel);
  }

  /** The indices decompose every address of the table exactly when the root table is empty or has
      a power-of-two number of entries that cover the range without a remainder. */
  lemma MixedRadixIff(cfg: TableConfig)
    requires cfg.Wellformed() && cfg.depth > 0
    ensures MixedRadix(cfg) <==> RootFits(cfg)
  {
    if RootFits(cfg) {
      forall rel: Word | rel < LevelAt(cfg, cfg.depth).vaRange
        ensures Recompose(cfg, rel, cfg.depth) == rel
      {
        FittingRootDecomposes(cfg, rel);
      }
    } else {
      hide RootFits;
      var rel := IllFittingRoot(cfg);
    }
  }

  lemma QuotientBelow(rel: nat, n: nat, size: nat)
    requires size > 0 && rel < n * size
    ensures rel / size < n
  {
    DivMod(rel, size);
    if rel / size >= n {
      MulMono(n, rel / size, size);
    }
  }

  /** Addresses in different page-table slots differ in some level index. */
  lemma DistinctSlotsDistinctIndices(cfg: TableConfig, r: Word, r': Word)
    requires cfg.Wellformed() && cfg.depth > 0 && RootFits(cfg)
    requires r < LevelAt(cfg, cfg.depth).vaRange && r' < LevelAt(cfg, cfg.depth).vaRange
    requires forall level: nat | level <= cfg.depth :: IndexAt(cfg, r, level) == IndexAt(cfg, r', level)
    ensures Shr(r, ShiftAt(cfg, 0)) == Shr(r', ShiftAt(cfg, 0))
  {
    hide LevelAt, IndexAt, RootFits, Pow2, Recompose, Shr, LowBits;
    FittingRootDecomposes(cfg, r);
    FittingRootDecomposes(cfg, r');
    SameIndicesSameSum(cfg, r, r', cfg.depth);
    var shift := ShiftAt(cfg, 0);
    HighLow(r, shift);
    HighLow(r', shift);
    SameFactor(Shr(r, shift), Shr(r', shift), Pow2(shift));
  }

  lemma {:induction false} SameIndicesSameSum(cfg: TableConfig, r: Word, r': Word, level: nat)
    requires cfg.Wellformed() && level <= cfg.depth
    requires forall l: nat | l <= level :: IndexAt(cfg, r, l) == IndexAt(cfg, r', l)
    ensures Recompose(cfg, r, level) - LowBits(r, ShiftAt(cfg, 0))
            == Recompose(cfg, r', level) - LowBits(r', ShiftAt(cfg, 0))
  {
    hide IndexAt, Pow2;
    if level > 0 {
      SameIndicesSameSum(cfg, r, r', level - 1);
    }
  }
}
