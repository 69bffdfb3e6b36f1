/** The formats of table entries: every decoded field in plain arithmetic. */
module EntryFormats {
  import opened Words
  import opened BitFields
  import opened PageTable

  lemma FieldPowers()
    ensures Pow2(1) == 2 && Pow2(2) == 4 && Pow2(3) == 8 && Pow2(4) == 0x10 && Pow2(5) == 0x20 && Pow2(6) == 0x40
    ensures Pow2(7) == 0x80 && Pow2(42) == 0x400_0000_0000
    ensures Pow2(51) == 0x8_0000_0000_0000 && Pow2(52) == 0x10_0000_0000_0000
    ensures Pow2(54) == 0x40_0000_0000_0000 && Pow2(55) == 0x80_0000_0000_0000
    ensures Pow2(56) == 0x100_0000_0000_0000 && Pow2(57) == 0x200_0000_0000_0000
    ensures Pow2(59) == 0x800_0000_0000_0000
  {
    SmallPowers();
    hide Pow2;
    Pow2Values();
    Pow2Add(21, 21);
    Pow2Add(42, 9);
    Pow2Add(51, 1);
    Pow2Add(52, 2);
    Pow2Add(54, 1);
    Pow2Add(54, 2);
    Pow2Add(54, 3);
    Pow2Add(54, 5);
  }

  lemma SmallPowers()
    ensures Pow2(0) == 1 && Pow2(1) == 2 && Pow2(2) == 4 && Pow2(3) == 8 && Pow2(4) == 0x10 && Pow2(5) == 0x20
    ensures Pow2(6) == 0x40 && Pow2(7) == 0x80
  {}

  // --------------------------------------------------------- fields in arithmetic

  lemma LowestBit(raw: Word)
    ensures GetBit(raw, 0) <==> raw % 2 == 1
  {}

  /** The fields of a directory entry. */
  lemma PdeByArithmetic(raw: Word)
    ensures var p := GetPdeFields(raw);
            && (p.valid <==> raw % 2 == 1)
            && (p.system <==> raw / 2 % 2 == 1)
            && (p.coherent <==> raw / 4 % 2 == 1)
            && p.baseAddress == raw / 0x40 % 0x400_0000_0000 * 0x40
            && (p.pte <==> raw / 0x40_0000_0000_0000 % 2 == 1)
            && p.blockFragmentSize == raw / 0x800_0000_0000_0000 % 0x20
  {
    FieldPowers();
    LowestBit(raw);
    hide GetBits, GetBit, Pow2, Shl;
    BitByArithmetic(raw, 1);
    BitByArithmetic(raw, 2);
    BitByArithmetic(raw, 54);
    GetBitsValue(raw, 47, 6);
    GetBitsValue(raw, 63, 59);
    ShlValue(GetBits(raw, 47, 6), 6);
  }

  /** The fields of a page entry. */
  lemma PteByArithmetic(raw: Word)
    ensures var p := GetPteFields(raw);
            && (p.valid <==> raw % 2 == 1)
            && (p.system <==> raw / 2 % 2 == 1)
            && (p.coherent <==> raw / 4 % 2 == 1)
            && (p.tmz <==> raw / 8 % 2 == 1)
            && (p.execute <==> raw / 0x10 % 2 == 1)
            && (p.read <==> raw / 0x20 % 2 == 1)
            && (p.write <==> raw / 0x40 % 2 == 1)
            && p.fragment == raw / 0x80 % 0x20
            && p.baseAddress == raw / 0x1000 % 0x10_0000_0000 * 0x1000
            && (p.tiled <==> raw / 0x8_0000_0000_0000 % 2 == 1)
            && p.sw == raw / 0x10_0000_0000_0000 % 4
            && (p.pte <==> raw / 0x40_0000_0000_0000 % 2 == 1)
            && (p.log <==> raw / 0x80_0000_0000_0000 % 2 == 1)
            && (p.translateFurther <==> raw / 0x100_0000_0000_0000 % 2 == 1)
            && p.mtype == raw / 0x200_0000_0000_0000 % 4
  {
    PteBits(raw);
    PteNumbers(raw);
    hide GetBits, GetBit, Shl;
  }

  lemma PteBits(raw: Word)
    ensures GetBit(raw, 0) <==> raw % 2 == 1
    ensures GetBit(raw, 1) <==> raw / 2 % 2 == 1
    ensures GetBit(raw, 2) <==> raw / 4 % 2 == 1
    ensures GetBit(raw, 3) <==> raw / 8 % 2 == 1
    ensures GetBit(raw, 4) <==> raw / 0x10 % 2 == 1
    ensures GetBit(raw, 5) <==> raw / 0x20 % 2 == 1
    ensures GetBit(raw, 6) <==> raw / 0x40 % 2 == 1
    ensures GetBit(raw, 51) <==> raw / 0x8_0000_0000_0000 % 2 == 1
    ensures GetBit(raw, 54) <==> raw / 0x40_0000_0000_0000 % 2 == 1
    ensures GetBit(raw, 55) <==> raw / 0x80_0000_0000_0000 % 2 == 1
    ensures GetBit(raw, 56) <==> raw / 0x100_0000_0000_0000 % 2 == 1
  {
    FieldPowers();
    LowestBit(raw);
    hide GetBit, Pow2;
    BitByArithmetic(raw, 1);
    BitByArithmetic(raw, 2);
    BitByArithmetic(raw, 3);
    BitByArithmetic(raw, 4);
    BitByArithmetic(raw, 5);
    BitByArithmetic(raw, 6);
    BitByArithmetic(raw, 51);
    BitByArithmetic(raw, 54);
    BitByArithmetic(raw, 55);
    BitByArithmetic(raw, 56);
  }

  lemma PteNumbers(raw: Word)
    ensures GetBits(raw, 11, 7) == raw / 0x80 % 0x20
    ensures Shl(GetBits(raw, 47, 12), 12) == raw / 0x1000 % 0x10_0000_0000 * 0x1000
    ensures GetBits(raw, 53, 52) == raw / 0x10_0000_0000_0000 % 4
    ensures GetBits(raw, 58, 57) == raw / 0x200_0000_0000_0000 % 4
  {
    FieldPowers();
    FrameNumberBound();
    Pow2Values();
    hide GetBits, Pow2, Shl;
    GetBitsValue(raw, 11, 7);
    GetBitsValue(raw, 47, 12);
    GetBitsValue(raw, 53, 52);
    GetBitsValue(raw, 58, 57);
    ShlValue(GetBits(raw, 47, 12), 12);
  }
}
