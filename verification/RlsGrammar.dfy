/** What the line patterns match, as concatenations: node lines and data lines. */
module RlsGrammar {
  import opened Words
  import opened Options
  import opened RlsText

  // -------------------------------------------------------------- characters

  const DIGITS: string := "0123456789abcdef"
  const UPPER_DIGITS: string := "0123456789ABCDEF"
  const SPACES: string := " \t\n\U{0B}\U{0C}\r"

  /** The character classes of the patterns, as lists. */
  lemma CharacterClasses(c: char)
    ensures IsSpace(c) <==> c in SPACES
    ensures IsDigit(c) <==> c in DIGITS[..10]
    ensures IsHex(c) <==> c in DIGITS || c in UPPER_DIGITS
  {
    if IsDigit(c) {
      assert DIGITS[..10][c as int - '0' as int] == c == DIGITS[c as int - '0' as int];
    } else if 'a' <= c <= 'f' {
      assert DIGITS[c as int - 'a' as int + 10] == c;
    } else if 'A' <= c <= 'F' {
      assert UPPER_DIGITS[c as int - 'A' as int + 10] == c;
    }
    if '\t' <= c <= '\r' {
      assert SPACES[c as int - 8] == c;
    } else if c == ' ' {
      assert SPACES[0] == c;
    }
  }

  /** Digits in either case have the value of their place in the list. */
  lemma DigitValues(d: nat)
    requires d < 16
    ensures IsHex(DIGITS[d]) && DigitValue(DIGITS[d]) == d
    ensures IsHex(UPPER_DIGITS[d]) && DigitValue(UPPER_DIGITS[d]) == d
  {}

  predicate AllOf(s: string, member: char -> bool) {
    forall c | c in s :: member(c)
  }

  // -------------------------------------------------------------------- runs

  lemma {:induction false} RunEndIs(s: string, i: nat, e: nat, member: char -> bool)
    requires i <= e <= |s| && (forall k | i <= k < e :: member(s[k])) && (e < |s| ==> !member(s[e]))
    ensures RunEnd(s, i, member) == e
    decreases e - i
  {
    if i < e {
      RunEndIs(s, i + 1, e, member);
    }
  }

  /** A run at i that a literal follows, and what is left of the line. */
  lemma RunThenLiteral(line: string, i: nat, mid: string, literal: string, rest: string, member: char -> bool)
    requires i <= |line| && line[i..] == mid + (literal + rest)
    requires AllOf(mid, member) && (literal != "" ==> !member(literal[0])) && (literal == "" ==> rest == "")
    ensures var e := i + |mid|;
            && e + |literal| + |rest| == |line|
            && RunEnd(line, i, member) == e && line[i..e] == mid && StartsAt(line, e, literal)
            && line[e + |literal|..] == rest
  {
    var tail, e := line[i..], i + |mid|;
    assert forall k | i <= k < |line| :: line[k] == tail[k - i];
    forall k | i <= k < e ensures member(line[k]) {
      assert line[k] == mid[k - i];
    }
    assert literal != "" ==> line[e] == literal[0];
    assert line[i..e] == tail[..|mid|] && line[e..e + |literal|] == tail[|mid|..|mid| + |literal|];
    assert line[e + |literal|..] == tail[|mid| + |literal|..];
    RunEndIs(line, i, e, member);
  }

  // ---------------------------------------------------------------- node lines

  /** The shape of a node line. */
  predicate IsNodeLine(line: string, pre: string, id: string, gpu: string, post: string) {
    && line == pre + ("Node " + (id + (", gpu_id " + (gpu + (":" + post)))))
    && AllOf(pre, IsSpace) && AllOf(post, IsSpace)
    && id != "" && AllOf(id, IsDigit) && gpu != "" && AllOf(gpu, IsHex)
  }

  /** The ids of a node line: the numbers cut to 32 bits, if they fit 64. */
  function IdsOf(id: string, gpu: string): NodeMatch
    requires AllOf(id, IsHex) && AllOf(gpu, IsHex)
  {
    var node, gpuId := NumberValue(id, 10), NumberValue(gpu, 16);
    if node < TWO64 && gpuId < TWO64 then NodeLine(node % 0x1_0000_0000, gpuId % 0x1_0000_0000) else NodeError
  }

  lemma DigitsAreHex(id: string)
    requires AllOf(id, IsDigit)
    ensures AllOf(id, IsHex)
  {}

  lemma NumbersMatch(line: string, i: nat, id: string, tail: string, gpu: string, post: string)
    requires i <= |line| && line[i..] == id + (", gpu_id " + tail) && tail == gpu + (":" + post)
    requires id != "" && AllOf(id, IsDigit) && gpu != "" && AllOf(gpu, IsHex) && AllOf(post, IsSpace)
    ensures AllOf(id, IsHex) && ParseNumbers(line, i) == IdsOf(id, gpu)
  {
    hide RunEnd, StartsAt, AllOf, ParseNumbers, IdsOf;
    DigitsAreHex(id);
    IdRuns(line, i, id, tail);
    var j := i + |id| + 9;
    GpuRuns(line, j, gpu, post);
    NumbersOfRuns(line, i, i + |id|, j + |gpu|, id, gpu);
  }

  lemma IdRuns(line: string, i: nat, id: string, rest: string)
    requires i <= |line| && line[i..] == id + (", gpu_id " + rest) && AllOf(id, IsDigit)
    ensures var e := i + |id|;
            && e + 9 <= |line| && RunEnd(line, i, IsDigit) == e && line[i..e] == id && StartsAt(line, e, ", gpu_id ")
            && line[e + 9..] == rest
  {
    hide RunEnd, StartsAt, AllOf;
    RunThenLiteral(line, i, id, ", gpu_id ", rest, IsDigit);
  }

  lemma GpuRuns(line: string, j: nat, gpu: string, post: string)
    requires j <= |line| && line[j..] == gpu + (":" + post) && AllOf(gpu, IsHex) && AllOf(post, IsSpace)
    ensures var e := j + |gpu|;
            && e < |line| && RunEnd(line, j, IsHex) == e && line[j..e] == gpu && StartsAt(line, e, ":")
            && RunEnd(line, e + 1, IsSpace) == |line|
  {
    RunThenLiteral(line, j, gpu, ":", post, IsHex);
    hide RunEnd, StartsAt, AllOf;
    var k := j + |gpu| + 1;
    assert line[k..] == post + ("" + "");
    RunThenLiteral(line, k, post, "", "", IsSpace);
  }

  lemma NumbersOfRuns(line: string, idStart: nat, idEnd: nat, gpuEnd: nat, id: string, gpu: string)
    requires idStart < idEnd && idEnd + 9 < gpuEnd < |line|
    requires RunEnd(line, idStart, IsDigit) == idEnd && StartsAt(line, idEnd, ", gpu_id ")
    requires RunEnd(line, idEnd + 9, IsHex) == gpuEnd && StartsAt(line, gpuEnd, ":")
    requires RunEnd(line, gpuEnd + 1, IsSpace) == |line|
    requires line[idStart..idEnd] == id && line[idEnd + 9..gpuEnd] == gpu && AllOf(id, IsHex) && AllOf(gpu, IsHex)
    ensures ParseNumbers(line, idStart) == IdsOf(id, gpu)
  {
    hide RunEnd, StartsAt, NumberValue;
  }

  /** A line of the shape is matched, with the ids of its numbers. */
  lemma NodeLineMatches(line: string, pre: string, id: string, gpu: string, post: string)
    requires IsNodeLine(line, pre, id, gpu, post)
    ensures AllOf(id, IsHex) && ParseNodeLine(line) == IdsOf(id, gpu)
  {
    var rest := id + (", gpu_id " + (gpu + (":" + post)));
    assert line[0..] == line;
    RunThenLiteral(line, 0, pre, "Node ", rest, IsSpace);
    hide RunEnd, StartsAt, AllOf, ParseNumbers, IdsOf;
    NumbersMatch(line, |pre| + 5, id, gpu + (":" + post), gpu, post);
  }

  lemma SplitLiteral(line: string, i: nat, literal: string)
    requires StartsAt(line, i, literal)
    ensures i + |literal| <= |line| && line[i..] == literal + line[i + |literal|..]
  {}

  lemma SplitRun(line: string, i: nat, member: char -> bool)
    requires i <= |line|
    ensures var e := RunEnd(line, i, member); line[i..] == line[i..e] + line[e..] && AllOf(line[i..e], member)
  {
    hide RunEnd;
    var e := RunEnd(line, i, member);
    forall c | c in line[i..e] ensures member(c) {
      var k :| 0 <= k < |line[i..e]| && line[i..e][k] == c;
      assert line[i + k] == c;
    }
  }

  lemma NumbersMatched(line: string, i: nat)
    requires i <= |line| && ParseNumbers(line, i) != NotNode
    ensures var idEnd := RunEnd(line, i, IsDigit);
            && i < idEnd && StartsAt(line, idEnd, ", gpu_id ") && idEnd + 9 <= |line|
            && var gpuEnd := RunEnd(line, idEnd + 9, IsHex);
               && idEnd + 9 < gpuEnd < |line| && StartsAt(line, gpuEnd, ":")
               && RunEnd(line, gpuEnd + 1, IsSpace) == |line|
  {
    hide RunEnd, NumberValue;
  }

  lemma CutAt(s: string, a: nat, b: nat)
    requires a <= b <= |s|
    ensures s[a..] == s[a..b] + s[b..]
  {}

  lemma CutThreeTimes(s: string, i: nat, j: nat, k: nat, l: nat, m: nat)
    requires i <= j <= k <= l <= m <= |s|
    ensures s[i..] == s[i..j] + (s[j..k] + (s[k..l] + (s[l..m] + s[m..])))
  {
    CutAt(s, i, j);
    CutAt(s, j, k);
    CutAt(s, k, l);
    CutAt(s, l, m);
  }

  lemma NumbersHaveShape(line: string, i: nat) returns (id: string, gpu: string, post: string)
    requires i <= |line| && ParseNumbers(line, i) != NotNode
    ensures line[i..] == id + (", gpu_id " + (gpu + (":" + post)))
    ensures id != "" && AllOf(id, IsDigit) && gpu != "" && AllOf(gpu, IsHex) && AllOf(post, IsSpace)
  {
    hide ParseNumbers, RunEnd, StartsAt, AllOf;
    NumbersMatched(line, i);
    var idEnd := RunEnd(line, i, IsDigit);
    var gpuEnd := RunEnd(line, idEnd + 9, IsHex);
    id, gpu, post := line[i..idEnd], line[idEnd + 9..gpuEnd], line[gpuEnd + 1..];
    NumbersCut(line, i, idEnd, gpuEnd);
    RunIsOf(line, i, IsDigit);
    RunIsOf(line, idEnd + 9, IsHex);
    RunToEnd(line, gpuEnd + 1);
  }

  lemma RunToEnd(line: string, i: nat)
    requires i <= |line| && RunEnd(line, i, IsSpace) == |line|
    ensures AllOf(line[i..], IsSpace)
  {
    hide RunEnd, AllOf;
    RunIsOf(line, i, IsSpace);
    assert line[i..|line|] == line[i..];
  }

  lemma NumbersCut(line: string, i: nat, idEnd: nat, gpuEnd: nat)
    requires i <= idEnd && idEnd + 9 <= gpuEnd < |line|
    requires StartsAt(line, idEnd, ", gpu_id ") && StartsAt(line, gpuEnd, ":")
    ensures line[i..] == line[i..idEnd] + (", gpu_id " + (line[idEnd + 9..gpuEnd] + (":" + line[gpuEnd + 1..])))
  {
    hide StartsAt;
    LiteralAt(line, idEnd, ", gpu_id ");
    LiteralAt(line, gpuEnd, ":");
    CutThreeTimes(line, i, idEnd, idEnd + 9, gpuEnd, gpuEnd + 1);
  }

  lemma LiteralAt(line: string, i: nat, literal: string)
    requires StartsAt(line, i, literal)
    ensures i + |literal| <= |line| && line[i..i + |literal|] == literal
  {}

  lemma RunIsOf(line: string, i: nat, member: char -> bool)
    requires i <= |line|
    ensures AllOf(line[i..RunEnd(line, i, member)], member)
  {
    hide RunEnd;
    SplitRun(line, i, member);
  }

  /** A line that is matched has the shape. */
  lemma NodeLineHasShape(line: string) returns (pre: string, id: string, gpu: string, post: string)
    requires ParseNodeLine(line) != NotNode
    ensures IsNodeLine(line, pre, id, gpu, post)
  {
    hide RunEnd, StartsAt, ParseNumbers, AllOf;
    var start := AfterSpaces(line);
    SplitRun(line, 0, IsSpace);
    SplitLiteral(line, start, "Node ");
    pre := line[..start];
    id, gpu, post := NumbersHaveShape(line, start + 5);
    assert line[0..] == line && line[0..start] == pre;
  }

  /** A line is a node line, or an error, exactly when it has the shape; the shape gives the ids. */
  lemma NodeLineIff(line: string)
    ensures ParseNodeLine(line) != NotNode
            <==> exists pre: string, id: string, gpu: string, post: string :: IsNodeLine(line, pre, id, gpu, post)
    ensures forall pre: string, id: string, gpu: string, post: string | IsNodeLine(line, pre, id, gpu, post) ::
              AllOf(id, IsHex) && ParseNodeLine(line) == IdsOf(id, gpu)
  {
    hide ParseNodeLine, IsNodeLine, IdsOf, AllOf;
    forall pre: string, id: string, gpu: string, post: string | IsNodeLine(line, pre, id, gpu, post)
      ensures AllOf(id, IsHex) && AllOf(gpu, IsHex) && ParseNodeLine(line) == IdsOf(id, gpu)
      ensures ParseNodeLine(line) != NotNode
    {
      NodeLineMatches(line, pre, id, gpu, post);
      IdsMatch(line, pre, id, gpu, post);
    }
    if ParseNodeLine(line) != NotNode {
      var pre, id, gpu, post := NodeLineHasShape(line);
    }
  }

  lemma IdsMatch(line: string, pre: string, id: string, gpu: string, post: string)
    requires IsNodeLine(line, pre, id, gpu, post)
    ensures AllOf(gpu, IsHex) && AllOf(id, IsHex) && IdsOf(id, gpu) != NotNode
  {
    DigitsAreHex(id);
    hide NumberValue;
  }

  // ---------------------------------------------------------------- data lines

  /** The shape of a data line: an address column of eight digits, and no line terminator after it. */
  predicate IsDataLine(line: string, pre: string, address: string, data: string) {
    && line == pre + (address + (":" + data)) && AllOf(pre, IsSpace) && |address| == 8 && AllOf(address, IsHex)
    && '\n' !in data && '\r' !in data
  }

  lemma EightOf(s: string, i: nat)
    requires i + 8 <= |s|
    ensures EightHex(s, i) <==> AllOf(s[i..i + 8], IsHex)
  {
    assert forall k | i <= k < i + 8 :: s[k] == s[i..i + 8][k - i];
  }

  /** A line of the shape is matched, and its data starts after the colon. */
  lemma DataLineMatches(line: string, pre: string, address: string, data: string)
    requires IsDataLine(line, pre, address, data)
    ensures DataStart(line) == Some(|pre| + 9) && |pre| + 9 <= |line| && line[|pre| + 9..] == data
  {
    hide RunEnd, EightHex;
    var i := |pre|;
    PlaceOfParts(line, pre, address, data);
    SpacesEnd(line, pre, address, data);
    EightOf(line, i);
    hide AllOf;
  }

  lemma SpacesEnd(line: string, pre: string, address: string, data: string)
    requires IsDataLine(line, pre, address, data)
    ensures AfterSpaces(line) == |pre|
  {
    var i := |pre|;
    PlaceOfParts(line, pre, address, data);
    assert !IsSpace(address[0]) by {
      assert address[0] in address;
    }
    forall k | 0 <= k < i ensures IsSpace(line[k]) {
      assert line[..i][k] == line[k] == pre[k];
    }
    RunEndIs(line, 0, i, IsSpace);
  }

  lemma PlaceOfParts(line: string, pre: string, address: string, data: string)
    requires line == pre + (address + (":" + data)) && |address| == 8
    ensures var i := |pre|;
            && |line| == i + 9 + |data| && line[..i] == pre && line[i..i + 8] == address
            && line[i + 8..i + 9] == ":" && line[i + 9..] == data
            && (forall k | i <= k < i + 8 :: line[k] == address[k - i])
            && (forall k | i + 9 <= k < |line| :: line[k] == data[k - i - 9])
  {
    var i, rest := |pre|, address + (":" + data);
    assert line[i..] == rest;
    assert line[i..i + 8] == rest[..8] && line[i + 8..i + 9] == rest[8..9] && line[i + 9..] == rest[9..];
  }

  /** A line that is matched has the shape. */
  lemma DataLineHasShape(line: string) returns (pre: string, address: string, data: string)
    requires DataStart(line).Some?
    ensures IsDataLine(line, pre, address, data)
  {
    hide RunEnd, AllOf, StartsAt;
    var i := AfterSpaces(line);
    RunIsOf(line, 0, IsSpace);
    EightOf(line, i);
    LiteralAt(line, i + 8, ":");
    hide EightHex;
    pre, address, data := line[..i], line[i..i + 8], line[i + 9..];
    assert line[0..] == line && line[0..i] == pre;
    CutAt(line, 0, i);
    CutAt(line, i, i + 8);
    CutAt(line, i + 8, i + 9);
    NotIn(line, i + 9, '\n');
    NotIn(line, i + 9, '\r');
  }

  lemma NotIn(line: string, i: nat, c: char)
    requires i <= |line| && forall k | i <= k < |line| :: line[k] != c
    ensures c !in line[i..]
  {}

  lemma DataLineIff(line: string)
    ensures DataStart(line).Some?
            <==> exists pre: string, address: string, data: string :: IsDataLine(line, pre, address, data)
    ensures forall pre: string, address: string, data: string | IsDataLine(line, pre, address, data) ::
              DataStart(line) == Some(|pre| + 9) && line[|pre| + 9..] == data
  {
    hide DataStart, IsDataLine;
    forall pre: string, address: string, data: string | IsDataLine(line, pre, address, data)
      ensures DataStart(line) == Some(|pre| + 9) && |pre| + 9 <= |line| && line[|pre| + 9..] == data
    {
      DataLineMatches(line, pre, address, data);
    }
    if DataStart(line).Some? {
      var pre, address, data := DataLineHasShape(line);
    }
  }

  // -------------------------------------------------------------------- dwords

  /** Eight digits, after a gap. */
  datatype Cell = Cell(gap: string, digits: string)

  predicate IsCell(c: Cell) {
    (forall x | x in c.gap :: !IsHex(x)) && |c.digits| == 8 && AllOf(c.digits, IsHex)
  }

  function CellText(cells: seq<Cell>, tail: string): string {
    if cells == [] then tail else cells[0].gap + (cells[0].digits + CellText(cells[1..], tail))
  }

  function CellValues(cells: seq<Cell>): seq<Word32>
    requires forall c | c in cells :: IsCell(c)
  {
    if cells == [] then []
    else
      assert IsCell(cells[0]);
      EightDigits(cells[0].digits);
      [NumberValue(cells[0].digits, 16)] + CellValues(cells[1..])
  }

  lemma {:induction false} NoMatchIn(s: string, i: nat)
    requires i <= |s| && forall c | c in s[i..] :: !IsHex(c)
    ensures NextMatch(s, i) == None
    decreases |s| - i
  {
    if i + 8 <= |s| {
      assert s[i] == s[i..][0] && !EightHex(s, i);
      assert forall c | c in s[i + 1..] :: c in s[i..];
      NoMatchIn(s, i + 1);
    }
  }

  lemma {:induction false} MatchAfterGap(s: string, i: nat, e: nat)
    requires i <= e && e + 8 <= |s| && EightHex(s, e) && forall k | i <= k < e :: !IsHex(s[k])
    ensures NextMatch(s, i) == Some(e)
    decreases e - i
  {
    if i < e {
      assert !IsHex(s[i]) && !EightHex(s, i);
      MatchAfterGap(s, i + 1, e);
    }
  }

  /** Groups of eight digits, whatever stands between them and even if nothing does, are the dwords. */
  lemma {:induction false} CellsMatch(s: string, i: nat, cells: seq<Cell>, tail: string)
    requires i <= |s| && s[i..] == CellText(cells, tail)
    requires (forall c | c in cells :: IsCell(c)) && forall x | x in tail :: !IsHex(x)
    ensures MatchDwords(s, NextMatch(s, i)) == CellValues(cells)
    decreases |cells|
  {
    if cells == [] {
      NoMatchIn(s, i);
    } else {
      var c, rest := cells[0], CellText(cells[1..], tail);
      CellsStep(cells, tail);
      hide NextMatch, NumberValue, EightHex, CellText, CellValues, AllOf, MatchDwords;
      var e := i + |c.gap|;
      CellAt(s, i, c, rest);
      CellsMatch(s, e + 8, cells[1..], tail);
      FirstDword(s, e);
    }
  }

  lemma CellsStep(cells: seq<Cell>, tail: string)
    requires cells != [] && forall c | c in cells :: IsCell(c)
    ensures IsCell(cells[0]) && (forall c | c in cells[0].digits :: IsHex(c)) && forall c | c in cells[1..] :: IsCell(c)
    ensures CellText(cells, tail) == cells[0].gap + (cells[0].digits + CellText(cells[1..], tail))
    ensures NumberValue(cells[0].digits, 16) < 0x1_0000_0000
    ensures CellValues(cells) == [NumberValue(cells[0].digits, 16)] + CellValues(cells[1..])
  {
    assert IsCell(cells[0]);
    EightDigits(cells[0].digits);
    hide NumberValue;
  }

  lemma FirstDword(s: string, e: nat)
    requires EightHex(s, e)
    ensures (forall c | c in s[e..e + 8] :: IsHex(c)) && NumberValue(s[e..e + 8], 16) < 0x1_0000_0000
    ensures MatchDwords(s, Some(e)) == [NumberValue(s[e..e + 8], 16)] + MatchDwords(s, NextMatch(s, e + 8))
  {
    EightDigits(s[e..e + 8]);
    hide NextMatch, NumberValue;
  }

  lemma CellAt(s: string, i: nat, c: Cell, rest: string)
    requires i <= |s| && s[i..] == c.gap + (c.digits + rest) && IsCell(c)
    ensures var e := i + |c.gap|;
            && e + 8 <= |s| && EightHex(s, e) && NextMatch(s, i) == Some(e)
            && s[e..e + 8] == c.digits && s[e + 8..] == rest
  {
    var tail, e := s[i..], i + |c.gap|;
    assert forall k | i <= k < |s| :: s[k] == tail[k - i];
    assert s[e..e + 8] == tail[|c.gap|..|c.gap| + 8] == c.digits;
    assert s[e + 8..] == tail[|c.gap| + 8..] == rest;
    EightOf(s, e);
    forall k | i <= k < e ensures !IsHex(s[k]) {
      assert s[k] == c.gap[k - i];
    }
    MatchAfterGap(s, i, e);
  }
}
