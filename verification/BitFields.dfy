/** Words put together from bit fields, the fields sliced out of them, and the bits of the bitwise
    operations. */
module BitFields {
  import opened Words

  // ------------------------------------------------------- packing bit fields

  datatype Field = Field(width: nat, value: nat) {
    predicate Fits() {
      0 < width && value < Pow2(width)
    }
  }

  predicate AllFit(fields: seq<Field>) {
    forall f | f in fields :: f.Fits()
  }

  /** The fields from bit zero upwards. */
  function Pack(fields: seq<Field>): nat {
    if fields == [] then 0 else fields[0].value + Pow2(fields[0].width) * Pack(fields[1..])
  }

  /** The bit where field k starts. */
  function Offset(fields: seq<Field>, k: nat): nat
    requires k <= |fields|
  {
    if k == 0 then 0 else Offset(fields, k - 1) + fields[k - 1].width
  }

  lemma {:induction false} OffsetOfTail(fields: seq<Field>, k: nat)
    requires 0 < k <= |fields|
    ensures Offset(fields, k) == fields[0].width + Offset(fields[1..], k - 1)
    decreases k
  {
    if k > 1 {
      OffsetOfTail(fields, k - 1);
    }
  }

  lemma {:induction false} PackBound(fields: seq<Field>)
    requires AllFit(fields)
    ensures Pack(fields) < Pow2(Offset(fields, |fields|))
  {
    if fields != [] {
      PackBound(fields[1..]);
      OffsetOfTail(fields, |fields|);
      var w, high := fields[0].width, Offset(fields[1..], |fields| - 1);
      Pow2Add(w, high);
      assert fields[0].Fits();
      hide Pow2, Offset;
      JoinBound(fields[0].value, Pow2(w), Pack(fields[1..]), Pow2(high));
    }
  }

  lemma JoinBound(v: nat, p: nat, rest: nat, bound: nat)
    requires v < p && rest < bound
    ensures v + p * rest < p * bound
  {
    MulMono(rest + 1, bound, p);
  }

  lemma JoinLow(v: nat, w: nat, rest: nat)
    requires v < Pow2(w)
    ensures LowBits(v + Pow2(w) * rest, w) == v
  {
    LowBitsValue(v + Pow2(w) * rest, w);
    DivModUnique(v + Pow2(w) * rest, Pow2(w), rest, v);
  }

  lemma JoinHigh(v: nat, w: nat, rest: nat, x: Word)
    requires v < Pow2(w) && x == v + Pow2(w) * rest
    ensures Shr(x, w) == rest
  {
    ShrValue(x, w);
    DivModUnique(x, Pow2(w), rest, v);
  }

  lemma {:induction false} FieldAbove(x: Word, w: nat, msb: nat, lsb: nat)
    requires w <= lsb <= msb < 64
    ensures GetBits(x, msb, lsb) == GetBits(Shr(x, w), msb - w, lsb - w)
    decreases w
  {
    if w > 0 {
      FieldAbove(x / 2, w - 1, msb - 1, lsb - 1);
    }
  }

  /** Slicing a packed word gives back the field. */
  lemma {:induction false} FieldOf(fields: seq<Field>, k: nat, x: Word)
    requires AllFit(fields) && k < |fields| && 0 < fields[k].width && Offset(fields, k) + fields[k].width <= 64
    requires x == Pack(fields)
    ensures GetBits(x, Offset(fields, k) + fields[k].width - 1, Offset(fields, k)) == fields[k].value
    decreases k
  {
    assert fields[0].Fits() && fields[k].Fits();
    var w, rest := fields[0].width, Pack(fields[1..]);
    hide Pow2, Shr, LowBits;
    if k == 0 {
      assert forall n: nat | n < 64 :: GetBits(x, n, 0) == LowBits(x, n + 1);
      hide GetBits;
      JoinLow(fields[0].value, w, rest);
    } else {
      hide GetBits;
      OffsetOfTail(fields, k);
      JoinHigh(fields[0].value, w, rest, x);
      FieldAbove(x, w, Offset(fields, k) + fields[k].width - 1, Offset(fields, k));
      FieldOf(fields[1..], k - 1, Shr(x, w));
    }
  }

  function Bit(b: bool): nat {
    if b then 1 else 0
  }

  // ----------------------------------------------------------- single bits

  lemma BitByArithmetic(raw: Word, bit: nat)
    requires bit < 64
    ensures GetBit(raw, bit) <==> raw / Pow2(bit) % 2 == 1
  {
    GetBitIsField(raw, bit);
    GetBitsValue(raw, bit, bit);
    assert Pow2(1) == 2;
    hide GetBits, Pow2;
  }

  lemma {:induction false} AndBit(a: Word, b: Word, k: nat)
    requires k < 64
    ensures GetBit(And(a, b), k) <==> GetBit(a, k) && GetBit(b, k)
    decreases k
  {
    AndStep(a, b);
    hide And;
    if k > 0 {
      AndBit(a / 2, b / 2, k - 1);
    }
  }

  lemma {:induction false} ComplementBit(a: Word, c: Word, width: nat, k: nat)
    requires a + c == Pow2(width) - 1 && k < width
    ensures GetBit(c, k) <==> !GetBit(a, k)
    decreases k
  {
    var p := Pow2(width - 1);
    assert Pow2(width) == 2 * p;
    hide Pow2;
    ComplementHalves(p, a, c);
    if k > 0 {
      ComplementBit(a / 2, c / 2, width - 1, k - 1);
    }
  }

  lemma NotBit(a: Word, k: nat)
    requires k < 64
    ensures GetBit(Not(a), k) <==> !GetBit(a, k)
  {
    Pow2Values();
    hide Pow2, GetBit;
    ComplementBit(a, Not(a), 64, k);
  }

  /** Numbers without common bits are added without a carry. */
  lemma {:induction false} SumBit(a: Word, b: Word, k: nat)
    requires a + b < TWO64 && And(a, b) == 0 && k < 64
    ensures GetBit(a + b, k) <==> GetBit(a, k) || GetBit(b, k)
    decreases k
  {
    AndStep(a, b);
    hide And;
    if k > 0 {
      SumBit(a / 2, b / 2, k - 1);
      assert (a + b) / 2 == a / 2 + b / 2;
    }
  }

  lemma {:induction false} MaskedApart(a: nat, b: nat, c: nat, width: nat)
    requires a + c == Pow2(width) - 1
    ensures And(a, And(b, c)) == 0
    decreases width
  {
    if width > 0 {
      var p := Pow2(width - 1);
      assert Pow2(width) == 2 * p;
      hide Pow2, And;
      ComplementHalves(p, a, c);
      MaskedApart(a / 2, b / 2, c / 2, width - 1);
      MaskedStep(a, b, c);
    }
  }

  lemma MaskedStep(a: nat, b: nat, c: nat)
    requires And(a / 2, And(b / 2, c / 2)) == 0 && c % 2 == 1 - a % 2
    ensures And(a, And(b, c)) == 0
  {
    AndStep(b, c);
    var high := And(b / 2, c / 2);
    assert And(b, c) / 2 == high && (And(b, c) % 2 == 1 ==> c % 2 == 1);
    hide And;
    AndStep(a, And(b, c));
  }

  lemma OrBit(a: Word, b: Word, k: nat)
    requires k < 64
    ensures GetBit(Or(a, b), k) <==> GetBit(a, k) || GetBit(b, k)
  {
    Pow2Values();
    AndSplits64(a, b);
    hide Pow2, And, GetBit;
    MaskedApart(a, b, Not(a), 64);
    SumBit(a, And(b, Not(a)), k);
    AndBit(b, Not(a), k);
    NotBit(a, k);
  }

  lemma {:induction false} ShlBit(x: Word, n: nat, k: nat)
    requires k < 64
    ensures GetBit(Shl(x, n), k) <==> n <= k && GetBit(x, k - n)
    decreases n
  {
    if n > 0 {
      assert Shl(x, n) == Shl(Wrap(2 * x), n - 1);
      hide Shl, GetBit, Wrap;
      ShlBit(Wrap(2 * x), n - 1, k);
      if n - 1 <= k {
        DoubledBit(x, k - (n - 1));
      }
    }
  }

  lemma DoubledBit(x: Word, j: nat)
    requires j < 64
    ensures GetBit(Wrap(2 * x), j) <==> 0 < j && GetBit(x, j - 1)
  {
    Pow2Values();
    LowBitsValue(x, 63);
    TwiceMod(x, Pow2(63));
    var half := LowBits(x, 63);
    hide Pow2, LowBits;
    assert Wrap(2 * x) == 2 * half;
    hide Wrap;
    if j > 0 {
      HalfOfTwice(half);
      LowHalfBit(x, 63, j - 1);
    }
  }

  lemma HalfOfTwice(x: nat)
    ensures 2 * x / 2 == x && 2 * x % 2 == 0
  {}

  lemma TwiceMod(x: nat, p: nat)
    requires 0 < p
    ensures 2 * x % (2 * p) == 2 * (x % p)
  {
    HalfOfTwice(x);
    HalfMod(2 * x, p);
  }

  lemma {:induction false} LowHalfBit(x: Word, width: nat, j: nat)
    requires j < width
    ensures GetBit(LowBits(x, width), j) <==> GetBit(x, j)
    decreases j
  {
    if j > 0 {
      assert LowBits(x, width) / 2 == LowBits(x / 2, width - 1);
      hide LowBits;
      LowHalfBit(x / 2, width - 1, j - 1);
    }
  }

  // ---------------------------------------------------------------- shifts

  lemma TimesMod(a: nat, p: nat, m: nat)
    requires 0 < m
    ensures a % m * p % m == a * p % m
  {
    DivMod(a, m);
    Scaled(p, m, a / m, a % m);
  }

  lemma Scaled(p: nat, m: nat, q: int, r: nat)
    requires 0 < m
    ensures r * p % m == (m * q + r) * p % m
  {
    var x := r * p;
    DivMod(x, m);
    ScaledSum(p, m, q, r, x / m, x % m);
    DivModUnique((m * q + r) * p, m, p * q + x / m, x % m);
  }

  lemma ScaledSum(p: int, m: int, q: int, r: int, q': int, r': int)
    requires r * p == m * q' + r'
    ensures (m * q + r) * p == m * (p * q + q') + r'
  {
    Distribute(p, m, q, r);
    Distribute(m, p, q, q');
  }

  lemma TwiceInside(x: int, p: int)
    ensures 2 * x * p == x * (2 * p)
  {}

  /** A left shift in 64 bits, also where bits are lost. */
  lemma {:induction false} ShlMod(x: Word, n: nat)
    ensures Shl(x, n) == x * Pow2(n) % TWO64
    decreases n
  {
    if n > 0 {
      var p := Pow2(n - 1);
      assert Pow2(n) == 2 * p && Shl(x, n) == Shl(Wrap(2 * x), n - 1) && Wrap(2 * x) == 2 * x % TWO64;
      hide Pow2, Shl, Wrap;
      ShlMod(Wrap(2 * x), n - 1);
      TimesMod(2 * x, p, TWO64);
      TwiceInside(x, p);
    }
  }
}
