/** The line-level meaning of a runlist dump: sections of a node line and its run of data lines. */
module RlsSections {
  import opened Words
  import opened Options
  import opened Packets
  import opened RlsText

  // ------------------------------------------------------------------- lines

  const NPOS: nat := 0xFFFF_FFFF_FFFF_FFFF

  /** The first newline at or after a position, or npos. */
  function FindNewline(text: string, start: nat): (e: nat)
    requires |text| < NPOS
    ensures e == NPOS || (start <= e < |text| && text[e] == '\n')
    ensures forall k | start <= k < |text| && (e == NPOS || k < e) :: text[k] != '\n'
    decreases |text| - start
  {
    if start >= |text| then NPOS
    else if text[start] == '\n' then start
    else FindNewline(text, start + 1)
  }

  /** The newline-terminated lines from a position; an unterminated rest is no line. */
  function LinesFrom(text: string, start: nat): seq<string>
    requires |text| < NPOS
    decreases |text| - start
  {
    var e := FindNewline(text, start);
    if e == NPOS then [] else [text[start..e]] + LinesFrom(text, e + 1)
  }

  lemma SplitLine(text: string, start: nat)
    requires |text| < NPOS && FindNewline(text, start) != NPOS
    ensures var e := FindNewline(text, start);
            && start <= e < |text| && text[e] == '\n'
            && LinesFrom(text, start) == [text[start..e]] + LinesFrom(text, e + 1)
  {}

  lemma NoLines(text: string, start: nat)
    requires |text| < NPOS && FindNewline(text, start) == NPOS
    ensures LinesFrom(text, start) == []
  {}

  lemma NewlineHere(text: string, e: nat)
    requires e < |text| < NPOS && text[e] == '\n'
    ensures FindNewline(text, e) == e
  {}

  // ---------------------------------------------------------------- sections

  datatype NodeId = NodeId(node: int, gpu: int)

  /** A node and the dwords of each of its data lines. */
  datatype Section = Section(id: NodeId, data: seq<seq<Word32>>)

  /** The first section and the lines after it; no node line; or a node line whose numbers do
      not fit, on which the parser throws. */
  datatype Grouping = Found(section: Section, rest: seq<string>) | NoNode | BadNode

  predicate IsData(line: string) {
    DataStart(line).Some?
  }

  function LineDwords(line: string): seq<Word32>
    requires IsData(line)
  {
    Dwords(line[DataStart(line).value..])
  }

  /** The dwords of the leading data lines, line by line. */
  function DataRun(lines: seq<string>): (run: seq<seq<Word32>>)
    ensures |run| <= |lines|
  {
    if lines == [] || !IsData(lines[0]) then [] else [LineDwords(lines[0])] + DataRun(lines[1..])
  }

  function IdOf(m: NodeMatch): NodeId
    requires m.NodeLine?
  {
    NodeId(ToInt(m.nodeId), ToInt(m.gpuId))
  }

  predicate Wanted(want: Option<NodeId>, id: NodeId) {
    want.None? || want.value == id
  }

  /** Skips to a node line that is wanted and takes the data lines that follow it. */
  function NextSection(lines: seq<string>, want: Option<NodeId>): Grouping {
    if lines == [] then NoNode
    else
      match ParseNodeLine(lines[0])
      case NodeError => BadNode
      case NotNode => NextSection(lines[1..], want)
      case NodeLine(_, _) =>
        var id := IdOf(ParseNodeLine(lines[0]));
        if Wanted(want, id) then
          var run := DataRun(lines[1..]);
          Found(Section(id, run), lines[1..][|run|..])
        else NextSection(lines[1..], want)
  }

  /** One step of the search, on the first line. */
  lemma SectionStep(lines: seq<string>, want: Option<NodeId>)
    requires lines != []
    ensures NextSection(lines, want) ==
            match ParseNodeLine(lines[0])
            case NodeError => BadNode
            case NotNode => NextSection(lines[1..], want)
            case NodeLine(_, _) =>
              var id := IdOf(ParseNodeLine(lines[0]));
              if Wanted(want, id)
              then Found(Section(id, DataRun(lines[1..])), lines[1..][|DataRun(lines[1..])|..])
              else NextSection(lines[1..], want)
  {
    hide ParseNodeLine, DataRun;
  }

  function Flatten(data: seq<seq<Word32>>): seq<Word32> {
    if data == [] then [] else data[0] + Flatten(data[1..])
  }

  /** What one call of the parser yields: entries; nothing; a thrown error; or the undefined
      result of decoding past the end of the buffer. */
  datatype Outcome = Yield(entries: seq<Entry>) | Nothing | Thrown | Undefined

  /** Decodes the dwords of a section. No data lines is nothing, and so is data that does not
      decode. */
  function Build(data: seq<seq<Word32>>): Outcome {
    if data == [] then Nothing
    else
      match ParseEntries(Flatten(data))
      case Parsed(entries) => Yield(entries)
      case Refused => Nothing
      case OutOfBounds => Undefined
  }

  /** In terms of the dwords: they are decoded if they are a tiling of acceptable frames; they make a
      section undefined if the first frame that is not decoded is too short for its header; otherwise
      the section yields nothing. */
  lemma BuildIff(data: seq<seq<Word32>>)
    ensures var words := Flatten(data);
            && (Build(data).Yield? <==>
                  && words != [] && FramesEnd(words, 0) == |words|
                  && forall s: nat | s < |words| && IsFrameStart(words, 0, s) :: Acceptable(words, s))
            && (Build(data) == Undefined <==>
                  && words != [] && FramesEnd(words, 0) == |words|
                  && exists s: nat :: FirstBad(words, 0, s) && !BadHeader(words[s]))
            && Build(data) != Thrown
  {
    hide ParseEntries, FramesEnd, IsFrameStart, Acceptable, FirstBad, BadHeader;
    EntriesAcceptedIff(Flatten(data));
    RefusedIff(Flatten(data));
  }

  // ---------------------------------------------------------- whole dumps

  datatype Runlist = Runlist(id: NodeId, entries: seq<Entry>)

  datatype Series = Series(runlists: seq<Runlist>) | SeriesThrown | SeriesUndefined

  function Preceded(r: Runlist, rest: Series): Series {
    if rest.Series? then Series([r] + rest.runlists) else rest
  }

  lemma {:induction false} SectionShrinks(lines: seq<string>, want: Option<NodeId>)
    ensures NextSection(lines, want).Found? ==> |NextSection(lines, want).rest| < |lines|
  {
    hide ParseNodeLine;
    if lines != [] {
      SectionShrinks(lines[1..], want);
    }
  }

  /** Section after section until one yields nothing. */
  function Runlists(lines: seq<string>): Series
    decreases |lines|
  {
    match NextSection(lines, None)
    case NoNode => Series([])
    case BadNode => SeriesThrown
    case Found(section, rest) =>
      SectionShrinks(lines, None);
      match Build(section.data)
      case Yield(entries) => Preceded(Runlist(section.id, entries), Runlists(rest))
      case Nothing => Series([])
      case Thrown => SeriesThrown
      case Undefined => SeriesUndefined
  }

  /** All the sections of a dump, decodable or not. */
  function Sections(lines: seq<string>): seq<Section>
    decreases |lines|
  {
    match NextSection(lines, None)
    case Found(section, rest) =>
      SectionShrinks(lines, None);
      [section] + Sections(rest)
    case _ => []
  }

  predicate Decodes(s: Section) {
    Build(s.data).Yield?
  }

  /** The leading sections that are not empty and decode. */
  function DecodingPrefix(sections: seq<Section>): seq<Runlist> {
    if sections == [] || !Decodes(sections[0]) then []
    else [Runlist(sections[0].id, Build(sections[0].data).entries)] + DecodingPrefix(sections[1..])
  }

  predicate NoBadNode(lines: seq<string>) {
    forall line | line in lines :: ParseNodeLine(line) != NodeError
  }

  /** Decoding never leaves the buffer of a section. */
  predicate AllDefined(sections: seq<Section>) {
    forall s | s in sections :: Build(s.data) != Undefined
  }

  lemma {:induction false} NextSectionGood(lines: seq<string>, want: Option<NodeId>)
    requires NoBadNode(lines)
    ensures NextSection(lines, want) != BadNode
    ensures NextSection(lines, want).Found? ==> NoBadNode(NextSection(lines, want).rest)
  {
    hide ParseNodeLine, DataRun;
    if lines != [] {
      NextSectionGood(lines[1..], want);
    }
  }

  lemma BuildDoesNotThrow(data: seq<seq<Word32>>)
    ensures Build(data) != Thrown
  {}

  /** A series that is produced is the longest prefix of sections that are not empty and decode,
      in order; and one is produced when no node line overflows and no decoding leaves its buffer. */
  lemma {:induction false} SeriesIsDecodingPrefix(lines: seq<string>)
    ensures Runlists(lines).Series? ==> Runlists(lines).runlists == DecodingPrefix(Sections(lines))
    ensures NoBadNode(lines) && AllDefined(Sections(lines)) ==> Runlists(lines).Series?
    decreases |lines|
  {
    hide NextSection, Build, NoBadNode, ParseNodeLine;
    if NoBadNode(lines) {
      NextSectionGood(lines, None);
    }
    SectionShrinks(lines, None);
    match NextSection(lines, None)
    case Found(section, rest) =>
      BuildDoesNotThrow(section.data);
      assert Sections(lines)[0] == section && Sections(lines)[1..] == Sections(rest);
      SeriesIsDecodingPrefix(rest);
    case _ =>
  }

  // ----------------------------------------------------------- every outcome

  /** A line that a search passes over: no node line, or one that is not wanted. */
  predicate Passed(line: string, want: Option<NodeId>) {
    match ParseNodeLine(line)
    case NodeError => false
    case NotNode => true
    case NodeLine(node, gpu) => want.Some? && want.value != NodeId(ToInt(node), ToInt(gpu))
  }

  /** Line k is the first one that a search does not pass over. */
  predicate FirstStop(lines: seq<string>, want: Option<NodeId>, k: nat) {
    k < |lines| && !Passed(lines[k], want) && forall j | 0 <= j < k :: Passed(lines[j], want)
  }

  lemma FirstStopStep(lines: seq<string>, want: Option<NodeId>, k: nat)
    requires lines != []
    ensures FirstStop(lines, want, k)
            <==> if Passed(lines[0], want) then k > 0 && FirstStop(lines[1..], want, k - 1) else k == 0
  {
    hide Passed;
    if k > 0 && FirstStop(lines[1..], want, k - 1) && Passed(lines[0], want) {
      forall j | 0 <= j < k ensures Passed(lines[j], want) {
        assert j > 0 ==> lines[j] == lines[1..][j - 1];
      }
    }
    if FirstStop(lines, want, k) && Passed(lines[0], want) {
      assert forall j | 0 <= j < k - 1 :: lines[1..][j] == lines[j + 1];
    }
  }

  /** A search ends at the first line it does not pass over: with an error, or with the section that
      starts there; if it passes over all lines, with nothing. */
  lemma {:induction false} SearchEnds(lines: seq<string>, want: Option<NodeId>, k: nat)
    requires FirstStop(lines, want, k)
    ensures NextSection(lines, want)
            == match ParseNodeLine(lines[k])
               case NodeLine(node, gpu) =>
                 var run := DataRun(lines[k + 1..]);
                 Found(Section(NodeId(ToInt(node), ToInt(gpu)), run), lines[k + 1 + |run|..])
               case _ => BadNode
    decreases k
  {
    hide ParseNodeLine, DataRun, ToInt;
    SectionStep(lines, want);
    if k > 0 {
      FirstStopStep(lines, want, k);
      hide NextSection, FirstStop;
      SearchEnds(lines[1..], want, k - 1);
      assert lines[1..][k..] == lines[k + 1..];
      var run := DataRun(lines[k + 1..]);
      assert lines[1..][k + |run|..] == lines[k + 1 + |run|..];
    } else {
      var run := DataRun(lines[1..]);
      assert lines[1..][|run|..] == lines[1 + |run|..];
    }
  }

  lemma {:induction false} SearchFindsNothing(lines: seq<string>, want: Option<NodeId>)
    requires forall line | line in lines :: Passed(line, want)
    ensures NextSection(lines, want) == NoNode
  {
    hide ParseNodeLine, ToInt;
    if lines != [] {
      SectionStep(lines, want);
      assert Passed(lines[0], want);
      hide NextSection;
      SearchFindsNothing(lines[1..], want);
    }
  }

  /** How the last search of a dump ends. */
  function LastSearch(lines: seq<string>): Grouping
    decreases |lines|
  {
    match NextSection(lines, None)
    case Found(_, rest) =>
      SectionShrinks(lines, None);
      LastSearch(rest)
    case other => other
  }

  /** What the series is, in every case: the first section that is empty or does not decode ends it, or
      makes it undefined; without one, a node line that overflows after the last section throws. */
  lemma {:induction false} SeriesOutcome(lines: seq<string>)
    ensures var sections, prefix := Sections(lines), DecodingPrefix(Sections(lines));
            && |prefix| <= |sections|
            && Runlists(lines)
               == if |prefix| < |sections| then
                    if Build(sections[|prefix|].data) == Undefined then SeriesUndefined else Series(prefix)
                  else if LastSearch(lines) == BadNode then SeriesThrown else Series(prefix)
    decreases |lines|
  {
    hide NextSection, Build;
    SectionShrinks(lines, None);
    match NextSection(lines, None)
    case Found(section, rest) =>
      BuildDoesNotThrow(section.data);
      assert Sections(lines)[0] == section && Sections(lines)[1..] == Sections(rest);
      SeriesOutcome(rest);
    case _ =>
  }

  // --------------------------------------------------- targeted and full parse

  /** The runlist of a wanted node, as the targeted parse finds it. */
  function Targeted(lines: seq<string>, id: NodeId): Outcome {
    match NextSection(lines, Some(id))
    case Found(section, _) => Build(section.data)
    case NoNode => Nothing
    case BadNode => Thrown
  }

  lemma DataIsNotNode(line: string)
    requires IsData(line)
    ensures ParseNodeLine(line) == NotNode
  {
    assert IsHex(line[AfterSpaces(line)]);
  }

  /** Data lines are passed over by a search for a node line. */
  lemma {:induction false} SkipData(lines: seq<string>, want: Option<NodeId>)
    ensures NextSection(lines, want) == NextSection(lines[|DataRun(lines)|..], want)
  {
    hide ParseNodeLine;
    if lines != [] && IsData(lines[0]) {
      DataIsNotNode(lines[0]);
      SkipData(lines[1..], want);
      assert lines[1..][|DataRun(lines[1..])|..] == lines[|DataRun(lines)|..];
    } else {
      assert lines[0..] == lines;
    }
  }

  /** A section of another node is passed over by a targeted search. */
  lemma {:induction false} SkipSection(lines: seq<string>, id: NodeId)
    requires NextSection(lines, None).Found? && NextSection(lines, None).section.id != id
    ensures NextSection(lines, Some(id)) == NextSection(NextSection(lines, None).rest, Some(id))
  {
    hide ParseNodeLine, DataRun;
    if ParseNodeLine(lines[0]).NodeLine? {
      SkipData(lines[1..], Some(id));
    } else {
      SkipSection(lines[1..], id);
    }
  }

  lemma {:induction false} SameSection(lines: seq<string>, id: NodeId)
    requires NextSection(lines, None).Found? && NextSection(lines, None).section.id == id
    ensures NextSection(lines, Some(id)) == NextSection(lines, None)
  {
    hide ParseNodeLine, DataRun;
    if !ParseNodeLine(lines[0]).NodeLine? {
      SameSection(lines[1..], id);
    }
  }

  /** The first runlist of a series with the given ids. */
  function FirstOf(runlists: seq<Runlist>, id: NodeId): Option<seq<Entry>> {
    if runlists == [] then None
    else if runlists[0].id == id then Some(runlists[0].entries)
    else FirstOf(runlists[1..], id)
  }

  /** If the full parse lists a runlist for a node, the targeted parse for that node returns the
      entries of the first one. */
  lemma {:induction false} TargetedAgreesWithFull(lines: seq<string>, id: NodeId)
    requires Runlists(lines).Series? && FirstOf(Runlists(lines).runlists, id).Some?
    ensures Targeted(lines, id) == Yield(FirstOf(Runlists(lines).runlists, id).value)
    decreases |lines|
  {
    SectionShrinks(lines, None);
    hide NextSection, Build;
    var section, rest := NextSection(lines, None).section, NextSection(lines, None).rest;
    if section.id == id {
      SameSection(lines, id);
    } else {
      assert Runlists(lines).runlists[1..] == Runlists(rest).runlists;
      SkipSection(lines, id);
      TargetedAgreesWithFull(rest, id);
    }
  }

  // --------------------------------------------------------- carriage returns

  /** The lines of a dump whose lines end in a carriage return and a newline. */
  function WithReturns(lines: seq<string>): seq<string> {
    seq(|lines|, i requires 0 <= i < |lines| => lines[i] + CR)
  }

  /** The wildcard of the data pattern does not match a carriage return. */
  lemma ReturnIsNotData(line: string)
    ensures !IsData(line + CR)
  {
    var full := line + CR;
    assert full[|line|] == '\r';
    assert !IsHex('\r');
  }

  /** The search finds the same node lines, without data. */
  lemma {:induction false} SectionsWithReturns(lines: seq<string>, want: Option<NodeId>)
    ensures var g, g' := NextSection(lines, want), NextSection(WithReturns(lines), want);
            if g.Found? then g'.Found? && g'.section == Section(g.section.id, []) else g' == g
    decreases |lines|
  {
    hide ParseNodeLine, IsData;
    if lines != [] {
      NodeLineWithReturn(lines[0]);
      SectionsWithReturns(lines[1..], want);
      assert WithReturns(lines)[1..] == WithReturns(lines[1..]);
      if |lines| > 1 {
        ReturnIsNotData(lines[1]);
      }
    }
  }

  /** A dump with carriage returns lists no runlist, and no node of it has entries, whatever the dump
      without them says; only a node line whose numbers do not fit is noticed. */
  lemma ReturnsLoseRunlists(lines: seq<string>, id: NodeId)
    ensures Runlists(WithReturns(lines))
            == if NextSection(lines, None) == BadNode then SeriesThrown else Series([])
    ensures Targeted(WithReturns(lines), id)
            == if NextSection(lines, Some(id)) == BadNode then Thrown else Nothing
  {
    hide NextSection, WithReturns;
    SectionsWithReturns(lines, None);
    SectionsWithReturns(lines, Some(id));
  }
}
