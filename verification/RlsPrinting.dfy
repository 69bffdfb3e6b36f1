/** Dumps in the kernel's format, and the round trip from dwords and packets through text. */
module RlsPrinting {
  import opened Words
  import opened Options
  import opened Packets
  import opened PacketEncoding
  import opened RlsText
  import opened RlsGrammar
  import opened RlsSections

  // ----------------------------------------------------------------- numbers

  function DigitChar(d: nat): (c: char)
    requires d < 16
    ensures IsHex(c) && DigitValue(c) == d && (d < 10 ==> IsDigit(c)) && !IsSpace(c)
  {
    if d < 10 then '0' + d as char else 'a' + (d - 10) as char
  }

  /** The number with exactly `width` hex digits. */
  function HexDigits(n: nat, width: nat): (s: string)
    ensures |s| == width && forall c | c in s :: IsHex(c)
  {
    if width == 0 then "" else HexDigits(n / 16, width - 1) + [DigitChar(n % 16)]
  }

  /** The number in a base, without leading zeros. */
  function Digits(n: nat, base: nat): (s: string)
    requires 2 <= base <= 16
    ensures s != "" && forall c | c in s :: IsHex(c) && (base <= 10 ==> IsDigit(c))
  {
    if n < base then [DigitChar(n)]
    else
      Quotient(n, base);
      Digits(n / base, base) + [DigitChar(n % base)]
  }

  lemma Quotient(n: nat, base: nat)
    requires 2 <= base <= n
    ensures 0 <= n / base < n && n == n / base * base + n % base
  {
    DivMod(n, base);
    if n / base >= n {
      MulMono(2, base, n);
      MulMono(n, n / base, base);
    }
  }

  lemma HighDigits(n: nat, width: nat)
    requires 0 < width && n < Pow2(4 * width)
    ensures n / 16 < Pow2(4 * (width - 1)) && n == n / 16 * 16 + n % 16
  {
    var k := 4 * (width - 1);
    assert 4 * width == k + 4 && Pow2(4) == 16;
    Pow2Add(k, 4);
    hide Pow2;
  }

  lemma {:induction false} HexDigitsValue(n: nat, width: nat)
    requires n < Pow2(4 * width)
    ensures NumberValue(HexDigits(n, width), 16) == n
    decreases width
  {
    if width > 0 {
      HighDigits(n, width);
      hide Pow2, DigitChar, DigitValue;
      HexDigitsValue(n / 16, width - 1);
      var s := HexDigits(n, width);
      assert s[..|s| - 1] == HexDigits(n / 16, width - 1);
      assert s[|s| - 1] == DigitChar(n % 16);
    }
  }

  lemma {:induction false} DigitsValue(n: nat, base: nat)
    requires 2 <= base <= 16
    ensures NumberValue(Digits(n, base), base) == n
  {
    var s := Digits(n, base);
    if n < base {
      assert s[..0] == "";
    } else {
      Quotient(n, base);
      DigitsValue(n / base, base);
      assert s[..|s| - 1] == Digits(n / base, base);
    }
  }

  // ------------------------------------------------------------------- lines

  function Hex8(w: Word32): string {
    HexDigits(w, 8)
  }

  lemma Hex8Value(w: Word32)
    ensures NumberValue(Hex8(w), 16) == w
  {
    Pow2Values();
    HexDigitsValue(w, 8);
  }

  function PrintDwords(dwords: seq<Word32>): string {
    if dwords == [] then "" else " " + Hex8(dwords[0]) + PrintDwords(dwords[1..])
  }

  /** One line of data: two spaces, the address, a colon, and the dwords. */
  datatype DataLine = DataLine(address: Word32, dwords: seq<Word32>)

  function PrintDataLine(d: DataLine): string {
    "  " + Hex8(d.address) + ":" + PrintDwords(d.dwords)
  }

  function PrintNodeLine(node: nat, gpu: nat): string {
    "Node " + Digits(node, 10) + ", gpu_id " + Digits(gpu, 16) + ":"
  }

  /** A node line is read back with the numbers it was printed with, cut to 32 bits; numbers that do not
      fit 64 bits are an error. */
  lemma NodeLineRoundTrip(node: nat, gpu: nat)
    ensures ParseNodeLine(PrintNodeLine(node, gpu))
            == if node < TWO64 && gpu < TWO64 then NodeLine(node % 0x1_0000_0000, gpu % 0x1_0000_0000) else NodeError
  {
    var id, hex := Digits(node, 10), Digits(gpu, 16);
    DigitsValue(node, 10);
    DigitsValue(gpu, 16);
    NodeLineShape(PrintNodeLine(node, gpu), id, hex);
    hide Digits, NumberValue, ParseNodeLine, PrintNodeLine, IsNodeLine;
    NodeLineMatches(PrintNodeLine(node, gpu), "", id, hex, "");
  }

  lemma NodeLineShape(line: string, id: string, hex: string)
    requires line == "Node " + id + ", gpu_id " + hex + ":"
    requires id != "" && hex != "" && (forall c | c in id :: IsDigit(c)) && forall c | c in hex :: IsHex(c)
    ensures IsNodeLine(line, "", id, hex, "")
  {
    assert "Node " + id + ", gpu_id " + hex + ":" == "" + ("Node " + (id + (", gpu_id " + (hex + (":" + "")))));
  }

  lemma {:induction false} DwordsRoundTrip(s: string, i: nat, dwords: seq<Word32>)
    requires i <= |s| && s[i..] == PrintDwords(dwords)
    ensures MatchDwords(s, NextMatch(s, i)) == dwords
    decreases |dwords|
  {
    if dwords != [] {
      var digits := Hex8(dwords[0]);
      assert s[i..] == " " + digits + PrintDwords(dwords[1..]);
      assert s[i] == s[i..][0] == ' ';
      assert s[i + 1..i + 9] == s[i..][1..9] == digits;
      assert forall k | i + 1 <= k < i + 9 :: s[k] == digits[k - i - 1];
      assert s[i + 9..] == s[i..][9..] == PrintDwords(dwords[1..]);
      assert !EightHex(s, i) && EightHex(s, i + 1);
      assert NextMatch(s, i) == NextMatch(s, i + 1) == Some(i + 1);
      Hex8Value(dwords[0]);
      hide NextMatch, Hex8;
      DwordsRoundTrip(s, i + 9, dwords[1..]);
    } else {
      assert |s| == i;
    }
  }

  lemma {:induction false} PrintedCharacters(dwords: seq<Word32>)
    ensures forall c | c in PrintDwords(dwords) :: IsHex(c) || c == ' '
  {
    if dwords != [] {
      PrintedCharacters(dwords[1..]);
    }
  }

  /** A data line is read back without its address column. */
  lemma DataLineRoundTrip(d: DataLine)
    ensures IsData(PrintDataLine(d)) && LineDwords(PrintDataLine(d)) == d.dwords
  {
    var line, data := PrintDataLine(d), PrintDwords(d.dwords);
    PrintedCharacters(d.dwords);
    assert line == "  " + (Hex8(d.address) + (":" + data));
    assert IsDataLine(line, "  ", Hex8(d.address), data);
    hide Hex8, PrintDwords, DataStart, IsDataLine;
    DataLineMatches(line, "  ", Hex8(d.address), data);
    DwordsRoundTrip(data, 0, d.dwords);
  }

  // ------------------------------------------------------------------- dumps

  function JoinLines(lines: seq<string>): string {
    if lines == [] then "" else lines[0] + "\n" + JoinLines(lines[1..])
  }

  predicate OneLine(line: string) {
    '\n' !in line
  }

  lemma {:induction false} NewlineAt(text: string, start: nat, e: nat)
    requires start <= e < |text| < NPOS && text[e] == '\n' && forall k | start <= k < e :: text[k] != '\n'
    ensures FindNewline(text, start) == e
    decreases e - start
  {
    if start < e {
      NewlineAt(text, start + 1, e);
    }
  }

  /** The first line of a text and the text after it. */
  lemma FirstLine(text: string, start: nat, line: string, rest: string)
    requires start <= |text| < NPOS && text[start..] == line + "\n" + rest && OneLine(line)
    ensures start + |line| < |text| && text[start..start + |line|] == line
    ensures text[start + |line| + 1..] == rest
    ensures FindNewline(text, start) == start + |line|
  {
    var tail := text[start..];
    assert tail[..|line|] == line && tail[|line|] == '\n' && tail[|line| + 1..] == rest;
    assert forall k | start <= k < |text| :: text[k] == tail[k - start];
    assert text[start + |line| + 1..] == tail[|line| + 1..];
    NewlineAt(text, start, start + |line|);
  }

  lemma LineStep(text: string, start: nat, line: string, rest: string)
    requires start <= |text| < NPOS && text[start..] == line + "\n" + rest && OneLine(line)
    ensures start + |line| < |text| && text[start + |line| + 1..] == rest
    ensures LinesFrom(text, start) == [line] + LinesFrom(text, start + |line| + 1)
  {
    FirstLine(text, start, line, rest);
    hide FindNewline, LinesFrom, OneLine;
    SplitLine(text, start);
  }

  predicate AllOneLine(lines: seq<string>) {
    forall line | line in lines :: OneLine(line)
  }

  lemma {:induction false} NoNewline(text: string, start: nat)
    requires start <= |text| < NPOS && OneLine(text[start..])
    ensures FindNewline(text, start) == NPOS
    decreases |text| - start
  {
    if start < |text| {
      assert text[start] == text[start..][0] && text[start] in text[start..];
      assert forall c | c in text[start + 1..] :: c in text[start..];
      NoNewline(text, start + 1);
    }
  }

  /** Joined lines are split again; what follows the last newline is no line. */
  lemma {:induction false} LinesRoundTrip(text: string, start: nat, lines: seq<string>, rest: string)
    requires start <= |text| < NPOS && text[start..] == JoinLines(lines) + rest && AllOneLine(lines) && OneLine(rest)
    ensures LinesFrom(text, start) == lines
    decreases |lines|
  {
    hide FindNewline, LinesFrom;
    if lines == [] {
      assert text[start..] == rest;
      NoNewline(text, start);
      NoLines(text, start);
    } else {
      var tail := lines[1..];
      assert text[start..] == lines[0] + "\n" + (JoinLines(tail) + rest);
      assert lines == [lines[0]] + tail && AllOneLine(tail) && OneLine(lines[0]);
      hide JoinLines, AllOneLine, OneLine;
      LineStep(text, start, lines[0], JoinLines(tail) + rest);
      LinesRoundTrip(text, start + |lines[0]| + 1, tail, rest);
    }
  }

  /** A section to print: its ids, its data, and lines that belong to no section. */
  datatype Printed = Printed(id: NodeId, data: seq<DataLine>, noise: seq<string>)

  /** Ids of 32 bits, and other lines that neither are node lines nor continue the data. */
  predicate PrintedFits(p: Printed) {
    && -0x8000_0000 <= p.id.node < 0x8000_0000 && -0x8000_0000 <= p.id.gpu < 0x8000_0000
    && IsNoise(p.noise) && (p.noise != [] ==> !IsData(p.noise[0]))
  }

  predicate IsNoise(lines: seq<string>) {
    forall line | line in lines :: OneLine(line) && ParseNodeLine(line) == NotNode
  }

  predicate DumpFits(dump: seq<Printed>) {
    forall p | p in dump :: PrintedFits(p)
  }

  function DataLines(data: seq<DataLine>): (lines: seq<string>)
    ensures |lines| == |data|
  {
    if data == [] then [] else [PrintDataLine(data[0])] + DataLines(data[1..])
  }

  /** The node line of ids, which are printed without their sign. */
  function IdLine(id: NodeId): string {
    PrintNodeLine(id.node % 0x1_0000_0000, id.gpu % 0x1_0000_0000)
  }

  function DumpLines(dump: seq<Printed>): seq<string> {
    if dump == [] then []
    else [IdLine(dump[0].id)] + (DataLines(dump[0].data) + (dump[0].noise + DumpLines(dump[1..])))
  }

  function DwordLines(data: seq<DataLine>): seq<seq<Word32>> {
    if data == [] then [] else [data[0].dwords] + DwordLines(data[1..])
  }

  function SectionOf(p: Printed): Section {
    Section(p.id, DwordLines(p.data))
  }

  function SectionsOf(dump: seq<Printed>): seq<Section> {
    if dump == [] then [] else [SectionOf(dump[0])] + SectionsOf(dump[1..])
  }

  /** The line of an id of 32 bits gives back the id. */
  lemma IdLineRoundTrip(id: NodeId)
    requires -0x8000_0000 <= id.node < 0x8000_0000 && -0x8000_0000 <= id.gpu < 0x8000_0000
    ensures ParseNodeLine(IdLine(id)).NodeLine? && IdOf(ParseNodeLine(IdLine(id))) == id
  {
    IntRoundTrip(id.node);
    IntRoundTrip(id.gpu);
    NodeLineOfWords(id.node % 0x1_0000_0000, id.gpu % 0x1_0000_0000);
    hide PrintNodeLine, ParseNodeLine, ToInt;
  }

  lemma NodeLineOfWords(node: Word32, gpu: Word32)
    ensures ParseNodeLine(PrintNodeLine(node, gpu)) == NodeLine(node, gpu)
  {
    hide PrintNodeLine, ParseNodeLine;
    NodeLineRoundTrip(node, gpu);
    WordIsLow(node);
    WordIsLow(gpu);
  }

  lemma WordIsLow(w: Word32)
    ensures w % 0x1_0000_0000 == w < TWO64
  {}

  lemma NodeIsNotData(id: NodeId)
    requires -0x8000_0000 <= id.node < 0x8000_0000 && -0x8000_0000 <= id.gpu < 0x8000_0000
    ensures !IsData(IdLine(id))
  {
    IdLineRoundTrip(id);
    hide IdLine, ParseNodeLine;
    if IsData(IdLine(id)) {
      DataIsNotNode(IdLine(id));
    }
  }

  /** Lines that belong to no section are passed over. */
  lemma {:induction false} SkipNoise(noise: seq<string>, lines: seq<string>, want: Option<NodeId>)
    requires IsNoise(noise)
    ensures NextSection(noise + lines, want) == NextSection(lines, want)
    decreases |noise|
  {
    hide ParseNodeLine, OneLine;
    if noise == [] {
      assert noise + lines == lines;
    } else {
      assert (noise + lines)[0] == noise[0] && (noise + lines)[1..] == noise[1..] + lines;
      SectionStep(noise + lines, want);
      hide NextSection;
      SkipNoise(noise[1..], lines, want);
    }
  }

  lemma {:induction false} DataRunOf(data: seq<DataLine>, rest: seq<string>)
    requires rest != [] ==> !IsData(rest[0])
    ensures DataRun(DataLines(data) + rest) == DwordLines(data)
    ensures |DwordLines(data)| == |data|
  {
    var lines := DataLines(data) + rest;
    hide PrintDataLine, IsData, LineDwords;
    if data != [] {
      DataLineRoundTrip(data[0]);
      assert lines[0] == PrintDataLine(data[0]);
      assert lines[1..] == DataLines(data[1..]) + rest;
      DataRunOf(data[1..], rest);
    } else {
      assert lines == rest;
    }
  }

  lemma RestIsNotData(dump: seq<Printed>)
    requires dump != [] && DumpFits(dump)
    ensures var rest := dump[0].noise + DumpLines(dump[1..]); rest != [] ==> !IsData(rest[0])
  {
    assert PrintedFits(dump[0]);
    if |dump| > 1 {
      assert PrintedFits(dump[1]);
      NodeIsNotData(dump[1].id);
    }
    hide IsData, IdLine, IsNoise;
  }

  /** The first section of a dump, and what is left. */
  lemma FirstSectionOfDump(dump: seq<Printed>)
    requires dump != [] && DumpFits(dump)
    ensures NextSection(DumpLines(dump), None) == Found(SectionOf(dump[0]), dump[0].noise + DumpLines(dump[1..]))
  {
    var p := dump[0];
    assert PrintedFits(p);
    var rest := p.noise + DumpLines(dump[1..]);
    var tail := DataLines(p.data) + rest;
    RestIsNotData(dump);
    assert DumpLines(dump) == [IdLine(p.id)] + tail;
    assert tail[|p.data|..] == rest;
    assert ([IdLine(p.id)] + tail)[1..] == tail;
    hide ParseNodeLine, DataRun, DumpLines, DataLines, NextSection, DwordLines, IdLine, IdOf;
    IdLineRoundTrip(p.id);
    DataRunOf(p.data, rest);
    SectionStep([IdLine(p.id)] + tail, None);
  }

  /** What the parse makes of lines depends on the first section only, so that leading noise is passed
      over. */
  lemma NoiseBefore(noise: seq<string>, lines: seq<string>)
    requires IsNoise(noise)
    ensures Sections(noise + lines) == Sections(lines) && Runlists(noise + lines) == Runlists(lines)
  {
    hide NextSection, Build, IsNoise;
    SkipNoise(noise, lines, None);
  }

  /** The lines of a dump are grouped back into its sections. */
  lemma {:induction false} SectionsRoundTrip(dump: seq<Printed>)
    requires DumpFits(dump)
    ensures Sections(DumpLines(dump)) == SectionsOf(dump)
    decreases |dump|
  {
    hide NextSection, SectionOf, DumpLines;
    if dump != [] {
      assert PrintedFits(dump[0]);
      hide PrintedFits;
      FirstSectionOfDump(dump);
      SectionsRoundTrip(dump[1..]);
      NoiseBefore(dump[0].noise, DumpLines(dump[1..]));
    } else {
      NoLinesInEmptyDump();
      NoSections();
    }
  }

  lemma NoSections()
    ensures Sections([]) == [] && Runlists([]) == Series([])
  {}

  /** A dump, after lines that belong to no section. */
  function PrintDump(preamble: seq<string>, dump: seq<Printed>): string {
    JoinLines(preamble + DumpLines(dump))
  }

  lemma PrintedLineIsOneLine(d: DataLine)
    ensures OneLine(PrintDataLine(d))
  {
    PrintedCharacters(d.dwords);
    hide PrintDwords;
  }

  lemma NodeLineIsOneLine(id: NodeId)
    ensures OneLine(IdLine(id))
  {
    hide Digits;
  }

  lemma {:induction false} DataLinesAreLines(data: seq<DataLine>)
    ensures AllOneLine(DataLines(data))
  {
    hide PrintDataLine, OneLine;
    if data != [] {
      PrintedLineIsOneLine(data[0]);
      DataLinesAreLines(data[1..]);
    }
  }

  lemma {:induction false} DumpLinesAreLines(dump: seq<Printed>)
    requires DumpFits(dump)
    ensures AllOneLine(DumpLines(dump))
  {
    hide IdLine, OneLine, IsData, ParseNodeLine;
    if dump != [] {
      assert PrintedFits(dump[0]);
      NodeLineIsOneLine(dump[0].id);
      DataLinesAreLines(dump[0].data);
      DumpLinesAreLines(dump[1..]);
    }
  }

  lemma NothingIsOneLine()
    ensures OneLine("")
  {}

  /** The lines of a text are those it was joined from. */
  lemma DumpLinesRoundTrip(preamble: seq<string>, dump: seq<Printed>)
    requires |PrintDump(preamble, dump)| < NPOS && IsNoise(preamble) && DumpFits(dump)
    ensures LinesFrom(PrintDump(preamble, dump), 0) == preamble + DumpLines(dump)
  {
    hide DumpLines, LinesFrom, JoinLines, ParseNodeLine, OneLine;
    DumpLinesAreLines(dump);
    var text := PrintDump(preamble, dump);
    assert text[0..] == text == JoinLines(preamble + DumpLines(dump)) + "";
    NothingIsOneLine();
    LinesRoundTrip(text, 0, preamble + DumpLines(dump), "");
  }

  /** The text of a dump is split and grouped back into its sections. */
  lemma DumpRoundTrip(preamble: seq<string>, dump: seq<Printed>)
    requires |PrintDump(preamble, dump)| < NPOS && IsNoise(preamble) && DumpFits(dump)
    ensures Sections(LinesFrom(PrintDump(preamble, dump), 0)) == SectionsOf(dump)
  {
    hide DumpLines, LinesFrom, PrintDump, Sections, SectionsOf, IsNoise;
    DumpLinesRoundTrip(preamble, dump);
    NoiseBefore(preamble, DumpLines(dump));
    SectionsRoundTrip(dump);
  }

  // ------------------------------------------------------ packets to text and back

  /** The section's lines hold the encodings of the packets, broken into lines anyhow. */
  predicate Carries(p: Printed, packets: seq<Packet>) {
    packets != [] && AllPacketsFit(packets) && Flatten(DwordLines(p.data)) == EncodeAll(packets)
  }

  function RunlistOf(p: Printed, packets: seq<Packet>): Runlist {
    Runlist(p.id, EntriesOf(packets))
  }

  function RunlistsOf(dump: seq<Printed>, packets: seq<seq<Packet>>): seq<Runlist>
    requires |dump| == |packets|
  {
    if dump == [] then [] else [RunlistOf(dump[0], packets[0])] + RunlistsOf(dump[1..], packets[1..])
  }

  lemma CarriedSectionBuilds(p: Printed, packets: seq<Packet>)
    requires Carries(p, packets)
    ensures Build(DwordLines(p.data)) == Yield(EntriesOf(packets))
  {
    hide ParseEntries, EntriesOf, EncodePacket, PacketFits;
    EncodingsParse(packets);
    EncodedNotEmpty(packets[0]);
    assert EncodeAll(packets) != [];
  }

  lemma {:induction false} RunlistLinesRoundTrip(dump: seq<Printed>, packets: seq<seq<Packet>>)
    requires DumpFits(dump) && |dump| == |packets| && forall i | 0 <= i < |dump| :: Carries(dump[i], packets[i])
    ensures Runlists(DumpLines(dump)) == Series(RunlistsOf(dump, packets))
    decreases |dump|
  {
    hide NextSection, Build, Carries, EntriesOf, DumpLines;
    if dump != [] {
      assert PrintedFits(dump[0]);
      hide PrintedFits;
      FirstSectionOfDump(dump);
      CarriedSectionBuilds(dump[0], packets[0]);
      RunlistLinesRoundTrip(dump[1..], packets[1..]);
      NoiseBefore(dump[0].noise, DumpLines(dump[1..]));
    } else {
      NoLinesInEmptyDump();
      NoSections();
    }
  }

  lemma NoLinesInEmptyDump()
    ensures DumpLines([]) == []
  {}

  /** From packets to text and back: a printed dump whose sections carry packets, however their
      dwords are broken into lines and whatever other lines stand between them, is parsed to the ids,
      headers and bodies of the packets. */
  lemma RunlistTextRoundTrip(preamble: seq<string>, dump: seq<Printed>, packets: seq<seq<Packet>>)
    requires |PrintDump(preamble, dump)| < NPOS && IsNoise(preamble) && DumpFits(dump)
    requires |dump| == |packets| && forall i | 0 <= i < |dump| :: Carries(dump[i], packets[i])
    ensures Runlists(LinesFrom(PrintDump(preamble, dump), 0)) == Series(RunlistsOf(dump, packets))
  {
    hide Carries, DumpLines, Runlists, LinesFrom, RunlistsOf, PrintDump, IsNoise, PrintedFits;
    DumpLinesRoundTrip(preamble, dump);
    NoiseBefore(preamble, DumpLines(dump));
    RunlistLinesRoundTrip(dump, packets);
  }

  /** A search for one node finds the packets of the first section with its ids, and nothing if there
      is none. */
  lemma TargetedTextRoundTrip(preamble: seq<string>, dump: seq<Printed>, packets: seq<seq<Packet>>, id: NodeId)
    requires |PrintDump(preamble, dump)| < NPOS && IsNoise(preamble) && DumpFits(dump)
    requires |dump| == |packets| && forall i | 0 <= i < |dump| :: Carries(dump[i], packets[i])
    ensures forall i | 0 <= i < |dump| && dump[i].id == id && (forall j | 0 <= j < i :: dump[j].id != id) ::
              Targeted(LinesFrom(PrintDump(preamble, dump), 0), id) == Yield(EntriesOf(packets[i]))
    ensures (forall j | 0 <= j < |dump| :: dump[j].id != id) ==>
              Targeted(LinesFrom(PrintDump(preamble, dump), 0), id) == Nothing
  {
    hide Carries, DumpLines, Runlists, LinesFrom, RunlistsOf, PrintDump, IsNoise, PrintedFits, NextSection, EntriesOf;
    hide Targeted, FirstOf;
    DumpLinesRoundTrip(preamble, dump);
    RunlistTextRoundTrip(preamble, dump, packets);
    var lines := LinesFrom(PrintDump(preamble, dump), 0);
    forall i | 0 <= i < |dump| && dump[i].id == id && (forall j | 0 <= j < i :: dump[j].id != id)
      ensures Targeted(lines, id) == Yield(EntriesOf(packets[i]))
    {
      FirstOfDump(dump, packets, id, i);
      TargetedAgreesWithFull(lines, id);
    }
    if forall j | 0 <= j < |dump| :: dump[j].id != id {
      NoSuchSection(dump, id);
      SkipNoise(preamble, DumpLines(dump), Some(id));
      NotTargeted(lines, id);
    }
  }

  lemma NotTargeted(lines: seq<string>, id: NodeId)
    requires NextSection(lines, Some(id)) == NoNode
    ensures Targeted(lines, id) == Nothing
  {
    hide NextSection;
  }

  lemma {:induction false} FirstOfDump(dump: seq<Printed>, packets: seq<seq<Packet>>, id: NodeId, i: nat)
    requires |dump| == |packets| && i < |dump| && dump[i].id == id && forall j | 0 <= j < i :: dump[j].id != id
    ensures FirstOf(RunlistsOf(dump, packets), id) == Some(EntriesOf(packets[i]))
    decreases i
  {
    hide EntriesOf;
    assert RunlistsOf(dump, packets)[1..] == RunlistsOf(dump[1..], packets[1..]);
    if i > 0 {
      FirstOfDump(dump[1..], packets[1..], id, i - 1);
    }
  }

  lemma {:induction false} NoSuchSection(dump: seq<Printed>, id: NodeId)
    requires DumpFits(dump) && forall j | 0 <= j < |dump| :: dump[j].id != id
    ensures NextSection(DumpLines(dump), Some(id)) == NoNode
    decreases |dump|
  {
    if dump == [] {
      NoLinesInEmptyDump();
    } else {
      assert PrintedFits(dump[0]);
      hide PrintedFits, NextSection, DumpLines, IsNoise;
      FirstSectionOfDump(dump);
      SkipSection(DumpLines(dump), id);
      SkipNoise(dump[0].noise, DumpLines(dump[1..]), Some(id));
      NoSuchSection(dump[1..], id);
    }
  }
}
