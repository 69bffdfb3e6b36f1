/** Unsigned machine words as bounded integers: wrap-around, shifts, masks and bit fields.
    Every operation that can leave 64 bits is written with an explicit Wrap. */
module Words {

  type Word = w: int | 0 <= w < 0x1_0000_0000_0000_0000

  type Word32 = w: int | 0 <= w < 0x1_0000_0000

  const TWO64: int := 0x1_0000_0000_0000_0000

  function Wrap(x: int): Word {
    x % 0x1_0000_0000_0000_0000
  }

  function Plus(a: int, b: int): Word {
    Wrap(a + b)
  }

  function Minus(a: int, b: int): Word {
    Wrap(a - b)
  }

  function Times(a: int, b: int): Word {
    Wrap(a * b)
  }

  lemma TimesFits(a: nat, b: nat)
    requires a * b < TWO64
    ensures Times(a, b) == a * b
  {}

  lemma WrapFits(x: nat)
    requires x < TWO64
    ensures Wrap(x) == x
  {}

  lemma PlusFits(a: nat, b: nat)
    requires a + b < TWO64
    ensures Plus(a, b) == a + b
  {}

  lemma PlusWraps(a: Word, b: Word)
    ensures Plus(a, b) == a + b || Plus(a, b) == a + b - TWO64
  {}

  /** Wrapping addition is associative. */
  lemma PlusAssociates(a: Word, b: Word, c: Word)
    ensures Plus(a, Plus(b, c)) == Plus(Plus(a, b), c)
  {
    hide Plus;
    PlusWraps(b, c);
    PlusWraps(a, Plus(b, c));
    PlusWraps(a, b);
    PlusWraps(Plus(a, b), c);
  }

  lemma MinusFits(a: Word, b: nat)
    requires b <= a
    ensures Minus(a, b) == a - b
  {}

  lemma MinusEither(a: Word, b: Word)
    ensures Minus(a, b) == a - b || Minus(a, b) == a - b + TWO64
  {}

  lemma MinusWraps(a: Word, b: Word)
    requires a < b
    ensures Minus(a, b) == a - b + TWO64
  {}

  function Wrap32(x: int): Word32 {
    x % 0x1_0000_0000
  }

  /** A 32-bit value held in a signed integer. */
  function ToInt(w: Word32): int {
    if w < 0x8000_0000 then w else w - 0x1_0000_0000
  }

  /** Every signed number of 32 bits comes back from its unsigned form. */
  lemma IntRoundTrip(n: int)
    requires -0x8000_0000 <= n < 0x8000_0000
    ensures 0 <= n % 0x1_0000_0000 < 0x1_0000_0000 && ToInt(n % 0x1_0000_0000) == n
  {}

  /** The signed form has the same low 32 bits, and small numbers are unchanged. */
  lemma IntOfWord(w: Word32)
    ensures -0x8000_0000 <= ToInt(w) < 0x8000_0000 && ToInt(w) % 0x1_0000_0000 == w
    ensures w < 0x8000_0000 ==> ToInt(w) == w
  {}

  function Pow2(n: nat): (p: nat)
    ensures p > 0
  {
    if n == 0 then 1 else 2 * Pow2(n - 1)
  }

  /** Bitwise conjunction of two unsigned numbers. */
  function And(a: nat, b: nat): (r: nat)
    ensures r <= a && r <= b
  {
    if a == 0 || b == 0 then 0
    else 2 * And(a / 2, b / 2) + (if a % 2 == 1 && b % 2 == 1 then 1 else 0)
  }

  /** Bitwise disjunction of two words. */
  function Or(a: Word, b: Word): Word {
    AndSplits64(a, b);
    a + And(b, Not(a))
  }

  /** Bitwise complement of a 64-bit word. */
  function Not(a: Word): Word {
    0xFFFF_FFFF_FFFF_FFFF - a
  }

  /** Right shift, a bit at a time. */
  function Shr(x: Word, n: nat): (r: Word)
    ensures r <= x
    decreases n, x
  {
    if n == 0 then x else Shr(x / 2, n - 1)
  }

  /** Left shift, losing the bits that leave 64 bits. */
  function Shl(x: Word, n: nat): Word
    decreases n, x
  {
    if n == 0 then x else Shl(Wrap(2 * x), n - 1)
  }

  /** The low n bits. */
  function LowBits(x: nat, n: nat): (r: nat)
    ensures r <= x
    decreases n, x
  {
    if n == 0 then 0 else 2 * LowBits(x / 2, n - 1) + x % 2
  }

  /** The field of `val` between bits `msb` and `lsb`. */
  function GetBits(val: Word, msb: nat, lsb: nat): Word
    requires lsb <= msb < 64
    decreases lsb, val, msb
  {
    if lsb == 0 then LowBits(val, msb + 1) else GetBits(val / 2, msb - 1, lsb - 1)
  }

  /** A field of one bit. */
  function GetBit(val: Word, bit: nat): bool
    decreases bit, val
  {
    if bit == 0 then val % 2 == 1 else GetBit(val / 2, bit - 1)
  }

  // ---------------------------------------------------------------- division

  lemma MulMono(a: int, b: int, c: int)
    requires a <= b && c >= 0
    ensures a * c <= b * c
  {}

  lemma DivMod(x: int, d: int)
    requires d > 0
    ensures x == d * (x / d) + x % d
    ensures 0 <= x % d < d
  {}

  /** A quotient and a remainder in range are the quotient and the remainder. */
  lemma DivModUnique(x: int, d: int, q: int, r: int)
    requires d > 0 && 0 <= r < d && x == d * q + r
    ensures x / d == q && x % d == r
  {
    DivMod(x, d);
    var q0, r0 := x / d, x % d;
    assert d * (q0 - q) == r - r0;
    if q0 > q {
      MulMono(1, q0 - q, d);
      assert false;
    } else if q0 < q {
      MulMono(1, q - q0, d);
      assert false;
    }
  }

  lemma Distribute(a: int, b: int, q: int, r: int)
    ensures a * (b * q + r) == a * b * q + a * r
  {}

  /** A remainder of the quotient, scaled, and a remainder stay below the product. */
  lemma CarryBelow(a: nat, b: nat, r': nat, r: nat)
    requires r < a && r' < b
    ensures a * r' + r < a * b
  {
    MulMono(r' + 1, b, a);
  }

  lemma DivDiv(x: nat, a: nat, b: nat)
    requires a > 0 && b > 0
    ensures a * b > 0
    ensures x / (a * b) == x / a / b
    ensures x % (a * b) == a * (x / a % b) + x % a
  {
    DivMod(x, a);
    var q, r := x / a, x % a;
    DivMod(q, b);
    var q', r' := q / b, q % b;
    Distribute(a, b, q', r');
    CarryBelow(a, b, r', r);
    DivModUnique(x, a * b, q', a * r' + r);
  }

  lemma Pow2Add(a: nat, b: nat)
    ensures Pow2(a + b) == Pow2(a) * Pow2(b)
  {
    if a != 0 {
      Pow2Add(a - 1, b);
      assert a + b - 1 == a - 1 + b;
      calc {
        Pow2(a + b);
        2 * Pow2(a - 1 + b);
        2 * (Pow2(a - 1) * Pow2(b));
        Pow2(a) * Pow2(b);
      }
    }
  }

  lemma {:induction false} Pow2Mono(a: nat, b: nat)
    requires a <= b
    ensures Pow2(a) <= Pow2(b)
    decreases b
  {
    if a < b {
      Pow2Mono(a, b - 1);
    }
  }

  lemma {:induction false} Pow2Strict(a: nat, b: nat)
    requires a < b
    ensures Pow2(a) < Pow2(b)
  {
    Pow2Mono(a + 1, b);
  }

  lemma Pow2Injective(a: nat, b: nat)
    requires Pow2(a) == Pow2(b)
    ensures a == b
  {
    if a < b {
      Pow2Strict(a, b);
    } else if b < a {
      Pow2Strict(b, a);
    }
  }

  lemma Pow2Values()
    ensures Pow2(9) == 0x200 && Pow2(12) == 0x1000 && Pow2(21) == 0x20_0000
    ensures Pow2(32) == 0x1_0000_0000 && Pow2(64) == TWO64 == 2 * Pow2(63)
  {
    assert Pow2(9) == 0x200;
    Pow2Add(9, 3);
    Pow2Add(12, 9);
    Pow2Add(16, 16);
    Pow2Add(32, 32);
  }

  lemma {:induction false} ShrShr(x: Word, k: nat, m: nat)
    ensures Shr(Shr(x, k), m) == Shr(x, k + m)
    decreases k
  {
    if k > 0 {
      ShrShr(x / 2, k - 1, m);
    }
  }

  /** Words that agree above bit k agree above every higher bit. */
  lemma CoarserBlock(x: Word, y: Word, k: nat, m: nat)
    requires k <= m && Shr(x, k) == Shr(y, k)
    ensures Shr(x, m) == Shr(y, m)
  {
    ShrShr(x, k, m - k);
    ShrShr(y, k, m - k);
  }

  /** A number is its high bits, scaled, plus its low bits. */
  lemma {:induction false} HighLow(x: Word, n: nat)
    ensures x == Pow2(n) * Shr(x, n) + LowBits(x, n)
    decreases n
  {
    if n > 0 {
      HighLow(x / 2, n - 1);
      TwiceProduct(Pow2(n - 1), Shr(x / 2, n - 1));
    }
  }

  lemma TwiceProduct(p: int, q: int)
    ensures 2 * (p * q) == 2 * p * q
  {}

  // ------------------------------------------------------------------- masks

  lemma HalfMod(x: nat, p: nat)
    requires p > 0
    ensures x % (2 * p) == 2 * (x / 2 % p) + x % 2
    ensures x / (2 * p) == x / 2 / p
  {
    DivDiv(x, 2, p);
  }

  /** Masking with 2^k - 1 keeps the remainder modulo 2^k. */
  lemma AndLowMask(x: nat, k: nat)
    ensures And(x, Pow2(k) - 1) == LowBits(x, k) == x % Pow2(k)
  {
    AndMaskLowBits(x, k);
    LowBitsValue(x, k);
  }

  lemma {:induction false} AndMaskLowBits(x: nat, k: nat)
    ensures And(x, Pow2(k) - 1) == LowBits(x, k)
    decreases k
  {
    if k != 0 {
      AndMaskLowBits(x / 2, k - 1);
      var m := Pow2(k) - 1;
      assert m / 2 == Pow2(k - 1) - 1 && m % 2 == 1;
      if x == 0 {
        LowBitsOfZero(k);
      }
    }
  }

  lemma LowBitsOfZero(k: nat)
    ensures LowBits(0, k) == 0
  {}

  lemma ComplementHalves(p: nat, m: nat, c: nat)
    requires m + c == 2 * p - 1
    ensures m / 2 + c / 2 == p - 1 && c % 2 == 1 - m % 2
  {}

  lemma AndStep(a: nat, b: nat)
    ensures And(a, b) == 2 * And(a / 2, b / 2) + if a % 2 == 1 && b % 2 == 1 then 1 else 0
  {}

  /** A number splits into its bits under a mask and its bits under the complement. */
  lemma {:induction false} AndSplits(x: nat, m: nat, c: nat, width: nat)
    requires x < Pow2(width) && m + c == Pow2(width) - 1
    ensures And(x, m) + And(x, c) == x
    decreases width
  {
    if width > 0 {
      var p := Pow2(width - 1);
      assert Pow2(width) == 2 * p;
      hide Pow2, And;
      HalfBelow(x, p);
      ComplementHalves(p, m, c);
      AndStep(x, m);
      AndStep(x, c);
      AndSplits(x / 2, m / 2, c / 2, width - 1);
      BitsCombine(x, m, c, And(x / 2, m / 2), And(x / 2, c / 2));
    }
  }

  lemma HalfBelow(x: nat, p: nat)
    requires x < 2 * p
    ensures x / 2 < p
  {}

  lemma BitsCombine(x: nat, m: nat, c: nat, a: nat, b: nat)
    requires a + b == x / 2 && c % 2 == 1 - m % 2
    ensures 2 * a + (if x % 2 == 1 && m % 2 == 1 then 1 else 0)
            + (2 * b + if x % 2 == 1 && c % 2 == 1 then 1 else 0) == x
  {}

  /** Clearing the low k bits with `& ~(2^k - 1)` rounds down to a multiple of 2^k. */
  lemma AndNotLowMask(x: Word, k: nat)
    requires k < 64
    ensures 0 <= Pow2(k) - 1 < TWO64
    ensures And(x, Not(Pow2(k) - 1)) == x - LowBits(x, k)
  {
    hide Pow2, And;
    Pow2Values();
    Pow2Mono(k, 64);
    AndSplits(x, Pow2(k) - 1, Not(Pow2(k) - 1), 64);
    AndLowMask(x, k);
  }

  lemma AndSplits64(a: Word, b: Word)
    ensures a + And(b, Not(a)) < TWO64
  {
    assert And(b, Not(a)) <= Not(a);
  }

  // -------------------------------------------------------------- bit fields

  lemma {:induction false} ShrValue(x: Word, n: nat)
    ensures Shr(x, n) == x / Pow2(n)
    decreases n
  {
    if n == 0 {
      DivModUnique(x, 1, x, 0);
    } else {
      ShrValue(x / 2, n - 1);
      HalfMod(x, Pow2(n - 1));
    }
  }

  lemma {:induction false} LowBitsValue(x: nat, n: nat)
    ensures LowBits(x, n) == x % Pow2(n)
    ensures 0 <= LowBits(x, n) < Pow2(n)
    decreases n
  {
    if n == 0 {
      DivModUnique(x, 1, x, 0);
    } else {
      LowBitsValue(x / 2, n - 1);
      HalfMod(x, Pow2(n - 1));
    }
  }

  lemma Doubled(x: nat, p: nat)
    requires p > 0
    ensures x * (2 * p) == 2 * x * p && 2 * x <= 2 * x * p
  {
    MulMono(1, p, 2 * x);
  }

  lemma {:induction false} ShlValue(x: Word, n: nat)
    requires x * Pow2(n) < TWO64
    ensures Shl(x, n) == x * Pow2(n)
    decreases n
  {
    if n > 0 {
      var p := Pow2(n - 1);
      assert Pow2(n) == 2 * p && Shl(x, n) == Shl(Wrap(2 * x), n - 1);
      hide Pow2, Shl, Wrap;
      Doubled(x, p);
      WrapFits(2 * x);
      ShlValue(2 * x, n - 1);
    }
  }

  lemma ShiftedOne(n: nat)
    requires n < 64
    ensures 0 < Pow2(n) < TWO64 && Shl(1, n) == Pow2(n)
  {
    Pow2Values();
    Pow2Mono(n, 63);
    hide Pow2;
    assert 1 * Pow2(n) == Pow2(n);
    ShlValue(1, n);
  }

  lemma DivOfMod(x: nat, a: nat, b: nat)
    requires a > 0 && b > 0
    ensures a * b > 0 && x % (a * b) / a == x / a % b
  {
    DivDiv(x, a, b);
    DivMod(x, a);
    DivModUnique(x % (a * b), a, x / a % b, x % a);
  }

  /** A bit field is a quotient and a remainder by powers of two. */
  lemma {:induction false} GetBitsValue(val: Word, msb: nat, lsb: nat)
    requires lsb <= msb < 64
    ensures GetBits(val, msb, lsb) == val / Pow2(lsb) % Pow2(msb - lsb + 1)
    ensures 0 <= GetBits(val, msb, lsb) < Pow2(msb - lsb + 1)
    decreases lsb
  {
    if lsb == 0 {
      DivModUnique(val, 1, val, 0);
      LowBitsValue(val, msb + 1);
    } else {
      GetBitsValue(val / 2, msb - 1, lsb - 1);
      HalfMod(val, Pow2(lsb - 1));
    }
  }

  /** A single bit is the field of width one. */
  lemma {:induction false} GetBitIsField(val: Word, bit: nat)
    requires bit < 64
    ensures GetBit(val, bit) <==> GetBits(val, bit, bit) != 0
  {
    if bit == 0 {
      assert LowBits(val / 2, 0) == 0 && LowBits(val, 1) == val % 2;
    } else {
      GetBitIsField(val / 2, bit - 1);
    }
  }

  /** The field is what the mask and the shift of the decoders extract. */
  lemma GetBitsIsMaskAndShift(val: Word, msb: nat, lsb: nat)
    requires lsb <= msb < 64
    ensures GetBits(val, msb, lsb) == Shr(And(val, Plus(Times(Minus(Shl(1, msb), 1), 2), 1)), lsb)
  {
    GetBitsValue(val, msb, lsb);
    FieldMask(msb);
    AndLowMask(val, msb + 1);
    ShrValue(And(val, Pow2(msb + 1) - 1), lsb);
    Pow2Add(lsb, msb - lsb + 1);
    assert lsb + (msb - lsb + 1) == msb + 1;
    DivOfMod(val, Pow2(lsb), Pow2(msb - lsb + 1));
  }

  lemma FieldMask(msb: nat)
    requires msb < 64
    ensures Plus(Times(Minus(Shl(1, msb), 1), 2), 1) == Pow2(msb + 1) - 1 < TWO64
  {
    var p := Pow2(msb);
    assert Pow2(msb + 1) == 2 * p;
    hide Shl, Pow2, Minus, Plus, Times;
    ShiftedOne(msb);
    Pow2Values();
    Pow2Mono(msb + 1, 64);
    MinusFits(p, 1);
    TimesFits(p - 1, 2);
    PlusFits(2 * p - 2, 1);
  }
}
