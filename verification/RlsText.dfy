/** The line patterns of a runlist dump: node lines, data lines, and the dwords of a data line. */
module RlsText {
  import opened Words
  import opened Options

  // -------------------------------------------------------------- characters

  /** The whitespace class of the patterns. */
  predicate IsSpace(c: char) {
    c == ' ' || '\t' <= c <= '\r'
  }

  predicate IsDigit(c: char) {
    '0' <= c <= '9'
  }

  predicate IsHex(c: char) {
    IsDigit(c) || 'a' <= c <= 'f' || 'A' <= c <= 'F'
  }

  function DigitValue(c: char): (d: nat)
    requires IsHex(c)
    ensures d < 16
  {
    if IsDigit(c) then c as int - '0' as int
    else if 'a' <= c <= 'f' then c as int - 'a' as int + 10
    else c as int - 'A' as int + 10
  }

  /** The end of the run of characters in a class, from position i. */
  function RunEnd(s: string, i: nat, member: char -> bool): (e: nat)
    requires i <= |s|
    ensures i <= e <= |s|
    ensures forall k | i <= k < e :: member(s[k])
    ensures e < |s| ==> !member(s[e])
    decreases |s| - i
  {
    if i < |s| && member(s[i]) then RunEnd(s, i + 1, member) else i
  }

  predicate StartsAt(s: string, i: nat, literal: string) {
    i + |literal| <= |s| && s[i..i + |literal|] == literal
  }

  /** The number written in the given base. */
  function NumberValue(s: string, base: nat): nat
    requires forall c | c in s :: IsHex(c)
  {
    if s == [] then 0 else NumberValue(s[..|s| - 1], base) * base + DigitValue(s[|s| - 1])
  }

  // -------------------------------------------------------------- node lines

  /** A node line's numbers; no match; or a match whose numbers do not fit 64 bits. */
  datatype NodeMatch = NodeLine(nodeId: Word32, gpuId: Word32) | NotNode | NodeError

  function AfterSpaces(line: string): (i: nat)
    ensures i <= |line|
  {
    RunEnd(line, 0, IsSpace)
  }

  function ParseNodeLine(line: string): NodeMatch {
    var start := AfterSpaces(line);
    if StartsAt(line, start, "Node ") then ParseNumbers(line, start + 5) else NotNode
  }

  /** The rest of a node line, from its first number on. */
  function ParseNumbers(line: string, idStart: nat): NodeMatch
    requires idStart <= |line|
  {
    var idEnd := RunEnd(line, idStart, IsDigit);
    if idEnd == idStart || !StartsAt(line, idEnd, ", gpu_id ") then NotNode
    else
      var gpuStart := idEnd + 9;
      var gpuEnd := RunEnd(line, gpuStart, IsHex);
      if gpuEnd == gpuStart || !StartsAt(line, gpuEnd, ":") then NotNode
      else if RunEnd(line, gpuEnd + 1, IsSpace) != |line| then NotNode
      else
        var node := NumberValue(line[idStart..idEnd], 10);
        var gpu := NumberValue(line[gpuStart..gpuEnd], 16);
        if node >= TWO64 || gpu >= TWO64 then NodeError
        else NodeLine(Wrap32(node), Wrap32(gpu))
  }

  // --------------------------------------------------------- carriage returns

  const CR: string := "\r"

  /** A carriage return at the end lengthens a run up to there if its class has it. */
  lemma {:induction false} RunEndBeforeReturn(s: string, i: nat, member: char -> bool)
    requires i <= |s|
    ensures var e := RunEnd(s, i, member);
            RunEnd(s + CR, i, member) == if e == |s| && member('\r') then |s| + 1 else e
    decreases |s| - i
  {
    assert (s + CR)[|s|] == '\r';
    if i < |s| {
      assert (s + CR)[i] == s[i];
      if member(s[i]) {
        RunEndBeforeReturn(s, i + 1, member);
      }
    }
  }

  lemma LiteralBeforeReturn(s: string, i: nat, literal: string)
    requires literal != [] && '\r' !in literal
    ensures StartsAt(s + CR, i, literal) == StartsAt(s, i, literal)
    ensures StartsAt(s, i, literal) ==> i + |literal| <= |s|
    ensures i >= |s| ==> !StartsAt(s, i, literal) && !StartsAt(s + CR, i, literal)
  {
    var j := i + |literal|;
    if j <= |s| {
      assert (s + CR)[i..j] == s[i..j];
    } else if j == |s| + 1 {
      assert (s + CR)[i..j][|literal| - 1] == '\r';
    }
  }

  lemma NumbersWithReturn(line: string, idStart: nat)
    requires idStart <= |line|
    ensures ParseNumbers(line + CR, idStart) == ParseNumbers(line, idStart)
  {
    hide RunEnd, StartsAt, NumberValue;
    var idEnd := RunEnd(line, idStart, IsDigit);
    RunEndBeforeReturn(line, idStart, IsDigit);
    LiteralBeforeReturn(line, idEnd, ", gpu_id ");
    if StartsAt(line, idEnd, ", gpu_id ") {
      var gpuEnd := RunEnd(line, idEnd + 9, IsHex);
      RunEndBeforeReturn(line, idEnd + 9, IsHex);
      LiteralBeforeReturn(line, gpuEnd, ":");
      assert (line + CR)[idStart..idEnd] == line[idStart..idEnd];
      assert (line + CR)[idEnd + 9..gpuEnd] == line[idEnd + 9..gpuEnd];
      if StartsAt(line, gpuEnd, ":") {
        RunEndBeforeReturn(line, gpuEnd + 1, IsSpace);
      }
    }
  }

  /** The node pattern does not see a carriage return at the end of a line. */
  lemma NodeLineWithReturn(line: string)
    ensures ParseNodeLine(line + CR) == ParseNodeLine(line)
  {
    hide RunEnd, StartsAt, ParseNumbers;
    var start := AfterSpaces(line);
    RunEndBeforeReturn(line, 0, IsSpace);
    LiteralBeforeReturn(line, start, "Node ");
    LiteralBeforeReturn(line, |line| + 1, "Node ");
    if StartsAt(line, start, "Node ") {
      NumbersWithReturn(line, start + 5);
    }
  }

  // -------------------------------------------------------------- data lines

  predicate EightHex(s: string, i: nat) {
    i + 8 <= |s| && forall k | i <= k < i + 8 :: IsHex(s[k])
  }

  /** Where the data of an address line starts. The rest of the line may not hold a line
      terminator, which the pattern's wildcard does not match. */
  function DataStart(line: string): (start: Option<nat>)
    ensures start.Some? ==> start.value <= |line|
  {
    var i := AfterSpaces(line);
    if EightHex(line, i) && StartsAt(line, i + 8, ":")
       && forall k | i + 9 <= k < |line| :: line[k] != '\n' && line[k] != '\r'
    then Some(i + 9)
    else None
  }

  function DwordAt(s: string, i: nat): Word32
    requires EightHex(s, i)
  {
    EightDigits(s[i..i + 8]);
    NumberValue(s[i..i + 8], 16)
  }

  lemma {:induction false} NumberBound(s: string)
    requires forall c | c in s :: IsHex(c)
    ensures NumberValue(s, 16) < Pow2(4 * |s|)
    decreases |s|
  {
    if s != [] {
      var k := |s| - 1;
      NumberBound(s[..k]);
      Pow2Add(4 * k, 4);
      assert Pow2(4) == 16 && 4 * |s| == 4 * k + 4;
      assert Pow2(4 * |s|) == Pow2(4 * k) * 16;
      assert |s[..k]| == k;
    }
  }

  lemma EightDigits(s: string)
    requires |s| == 8 && forall c | c in s :: IsHex(c)
    ensures NumberValue(s, 16) < 0x1_0000_0000
  {
    NumberBound(s);
    Pow2Values();
  }

  /** The first place at or after i where eight hex digits stand. */
  function NextMatch(s: string, i: nat): (m: Option<nat>)
    ensures m.Some? ==> i <= m.value && EightHex(s, m.value)
    ensures m.Some? ==> forall k | i <= k < m.value :: !EightHex(s, k)
    ensures m.None? ==> forall k | i <= k :: !EightHex(s, k)
    decreases |s| - i
  {
    if i + 8 > |s| then None
    else if EightHex(s, i) then Some(i)
    else NextMatch(s, i + 1)
  }

  /** The dwords from one match on. */
  function MatchDwords(s: string, m: Option<nat>): seq<Word32>
    requires m.Some? ==> EightHex(s, m.value)
    decreases if m.Some? then |s| - m.value else -1
  {
    match m
    case None => []
    case Some(i) => [DwordAt(s, i)] + MatchDwords(s, NextMatch(s, i + 8))
  }

  /** The dwords of a data section: leftmost, non-overlapping groups of eight hex digits. */
  function Dwords(s: string): seq<Word32> {
    MatchDwords(s, NextMatch(s, 0))
  }

  /** Counts the matches, then converts them. */
  method ParseDataSection(s: string) returns (data: seq<Word32>)
    ensures data == Dwords(s)
  {
    hide DwordAt, NextMatch, NumberValue;
    var n: nat := 0;
    var iter := NextMatch(s, 0);
    while iter.Some?
      invariant iter.Some? ==> EightHex(s, iter.value)
      invariant n + |MatchDwords(s, iter)| == |Dwords(s)|
      decreases if iter.Some? then |s| - iter.value else -1
    {
      n := n + 1;
      iter := NextMatch(s, iter.value + 8);
    }
    if n == 0 {
      return [];
    }
    data := FillDwords(s, n);
  }

  method FillDwords(s: string, n: nat) returns (data: seq<Word32>)
    requires n == |Dwords(s)|
    ensures data == Dwords(s)
  {
    hide DwordAt, NextMatch, NumberValue;
    var buffer := new Word32[n];
    var iter := NextMatch(s, 0);
    var i := 0;
    while iter.Some?
      invariant iter.Some? ==> EightHex(s, iter.value)
      invariant 0 <= i && i + |MatchDwords(s, iter)| == n
      invariant buffer[..i] + MatchDwords(s, iter) == Dwords(s)
      decreases if iter.Some? then |s| - iter.value else -1
    {
      ghost var rest := MatchDwords(s, iter);
      var word := DwordAt(s, iter.value);
      assert rest[0] == word;
      buffer[i] := word;
      iter := NextMatch(s, iter.value + 8);
      i := i + 1;
    }
    data := buffer[..];
  }
}
