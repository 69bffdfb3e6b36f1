/** The runlist parser: a resumable state machine over the text, and the two entry points. */
module RlsParsing {
  import opened Words
  import opened Options
  import opened Packets
  import opened RlsText
  import opened RlsSections
  import opened Lists

  datatype State = NODE | DATA | ERROR | END

  class RlsParser {
    const text: string
    const findAll: bool
    var node: int
    var gpu: int
    var state: State
    var dwordsBuffer: seq<seq<Word32>>
    var end: nat

    constructor ForNode(text: string, node: int, gpu: int)
      requires |text| < NPOS
      ensures Ready() && this.text == text && end == 0 && Want() == Some(NodeId(node, gpu))
    {
      this.text, this.findAll := text, false;
      this.node, this.gpu := node, gpu;
      state, dwordsBuffer, end := NODE, [], 0;
    }

    constructor (text: string)
      requires |text| < NPOS
      ensures Ready() && this.text == text && end == 0 && Want() == None
    {
      this.text, this.findAll := text, true;
      this.node, this.gpu := 0, 0;
      state, dwordsBuffer, end := NODE, [], 0;
    }

    /** Between calls no dwords are held. */
    ghost predicate Ready()
      reads this
    {
      |text| < NPOS && dwordsBuffer == []
    }

    ghost function Want(): Option<NodeId>
      reads this
    {
      if findAll then None else Some(NodeId(node, gpu))
    }

    ghost function Remaining(): seq<string>
      requires |text| < NPOS
      reads this
    {
      LinesFrom(text, end)
    }

    method ParseNode(line: string) returns (next: State, increment: nat)
      modifies `node, `gpu
      ensures match ParseNodeLine(line)
              case NodeError => next == ERROR && increment == 0 && node == old(node) && gpu == old(gpu)
              case NotNode => next == NODE && increment == 1 && node == old(node) && gpu == old(gpu)
              case NodeLine(_, _) =>
                var id := IdOf(ParseNodeLine(line));
                if Wanted(old(Want()), id) then next == DATA && increment == 1 && NodeId(node, gpu) == id
                else next == NODE && increment == 1 && node == old(node) && gpu == old(gpu)
    {
      hide ParseNodeLine;
      match ParseNodeLine(line)
      case NodeError =>
        return ERROR, 0;
      case NotNode =>
        return NODE, 1;
      case NodeLine(nodeId, gpuId) =>
        if findAll || (ToInt(nodeId) == node && ToInt(gpuId) == gpu) {
          node, gpu := ToInt(nodeId), ToInt(gpuId);
          return DATA, 1;
        }
        return NODE, 1;
    }

    method ParseData(line: string) returns (next: State, increment: nat)
      modifies `dwordsBuffer
      ensures if IsData(line)
              then next == DATA && increment == 1 && dwordsBuffer == old(dwordsBuffer) + [LineDwords(line)]
              else next == END && increment == 0 && dwordsBuffer == old(dwordsBuffer)
    {
      hide DataStart, Dwords;
      var start := DataStart(line);
      if start.None? {
        return END, 0;
      }
      var data := ParseDataSection(line[start.value..]);
      dwordsBuffer := dwordsBuffer + [data];
      return DATA, 1;
    }

    /** Joins the lines of dwords into one buffer and decodes it. */
    method BuildEntries() returns (outcome: Outcome)
      modifies `dwordsBuffer
      ensures outcome == Build(old(dwordsBuffer)) && dwordsBuffer == []
    {
      if dwordsBuffer == [] {
        return Nothing;
      }
      var words := Join(dwordsBuffer);
      dwordsBuffer := [];
      var result := ParseRunlistEntries(words);
      outcome :=
        match result
        case Parsed(entries) => Yield(entries)
        case Refused => Nothing
        case OutOfBounds => Undefined;
    }

    /** One call: from `end` to the end of the next wanted section. On success `end` is left on
        the newline before the first line that is not data, so that no line is skipped or reused. */
    method Parse() returns (outcome: Outcome)
      requires Ready()
      modifies this
      ensures match NextSection(old(Remaining()), old(Want()))
              case NoNode =>
                outcome == Nothing && Ready() && end == NPOS && node == old(node) && gpu == old(gpu)
              case BadNode => outcome == Thrown
              case Found(section, rest) =>
                && outcome == Build(section.data) && Ready() && NodeId(node, gpu) == section.id
                && old(end) < end
                && if rest == [] then end == NPOS else end < |text| && Remaining() == [""] + rest
    {
      hide NextSection, ParseNodeLine, Build, LinesFrom, FindNewline, IsData, LineDwords, Reading, Complete, IdOf, Wanted;
      ghost var goal, want := NextSection(Remaining(), Want()), Want();
      var start: nat, lastDataMatch: nat := end, end;
      end := FindNewline(text, start);
      var parsedNode := false;
      state := NODE;
      while end != NPOS && !parsedNode
        invariant old(end) <= start && (end == NPOS ==> !parsedNode)
        invariant !parsedNode ==> end == FindNewline(text, start)
        invariant !parsedNode && state == NODE ==>
                    && NextSection(LinesFrom(text, start), want) == goal
                    && dwordsBuffer == [] && node == old(node) && gpu == old(gpu)
        invariant !parsedNode && state == DATA ==>
                    Reading(goal, NodeId(node, gpu), dwordsBuffer, text, start) && old(end) + 1 < start
        invariant !parsedNode && state == END ==>
                    end != NPOS && Complete(goal, NodeId(node, gpu), dwordsBuffer, text, lastDataMatch)
        invariant state == END ==> old(end) < lastDataMatch
        invariant state == ERROR ==> goal == BadNode && end != NPOS
        invariant parsedNode ==>
                    state == END && Complete(goal, NodeId(node, gpu), dwordsBuffer, text, end) && end == lastDataMatch
        decreases if parsedNode then 0 else 1, |text| + 1 - start, if state == NODE || state == DATA then 1 else 0
      {
        var line := text[start..end];
        var increment;
        match state {
          case NODE =>
            SeekStep(goal, want, text, start);
            state, increment := ParseNode(line);
            start := end + increment;
            end := FindNewline(text, start);
          case DATA =>
            ReadStep(goal, NodeId(node, gpu), dwordsBuffer, text, start);
            var next;
            next, increment := ParseData(line);
            if next != DATA {
              lastDataMatch := start - 1;
            }
            state := next;
            start := end + increment;
            end := FindNewline(text, start);
          case END =>
            CompleteMeans(goal, NodeId(node, gpu), dwordsBuffer, text, lastDataMatch);
            parsedNode := true;
            end := lastDataMatch;
          case ERROR =>
            return Thrown;
        }
      }
      if parsedNode {
        CompleteMeans(goal, NodeId(node, gpu), dwordsBuffer, text, end);
      } else {
        EndOfText(goal, want, NodeId(node, gpu), dwordsBuffer, text, start);
        BuildNothing();
      }
      outcome := BuildEntries();
    }
  }

  // ------------------------------------------------------ steps of the machine

  /** In the DATA state: the section found so far, and the run of data lines still to come. */
  ghost predicate Reading(goal: Grouping, id: NodeId, buffer: seq<seq<Word32>>, text: string, start: nat)
    requires |text| < NPOS
  {
    && 0 < start <= |text| && text[start - 1] == '\n'
    && goal == Found(Section(id, buffer + DataRun(LinesFrom(text, start))),
                     LinesFrom(text, start)[|DataRun(LinesFrom(text, start))|..])
  }

  /** In the END state: the section is complete, and `last` is the newline before the rest. */
  ghost predicate Complete(goal: Grouping, id: NodeId, buffer: seq<seq<Word32>>, text: string, last: nat)
    requires |text| < NPOS
  {
    && goal.Found? && goal.section == Section(id, buffer) && goal.rest != []
    && last < |text| && LinesFrom(text, last) == [""] + goal.rest
  }

  lemma BuildNothing()
    ensures Build([]) == Nothing
  {}

  lemma CompleteMeans(goal: Grouping, id: NodeId, buffer: seq<seq<Word32>>, text: string, last: nat)
    requires |text| < NPOS && Complete(goal, id, buffer, text, last)
    ensures goal.Found? && goal.section == Section(id, buffer) && goal.rest != []
    ensures last < |text| && LinesFrom(text, last) == [""] + goal.rest
  {}

  /** Without a further newline a search has found nothing, and a run is complete. */
  lemma EndOfText(
    goal: Grouping, want: Option<NodeId>, id: NodeId, buffer: seq<seq<Word32>>, text: string, start: nat)
    requires |text| < NPOS && FindNewline(text, start) == NPOS
    ensures NextSection(LinesFrom(text, start), want) == goal ==> goal == NoNode
    ensures Reading(goal, id, buffer, text, start) ==> start <= |text| && goal == Found(Section(id, buffer), [])
  {
    NoLines(text, start);
    hide LinesFrom, FindNewline;
    assert DataRun([]) == [] && buffer + [] == buffer;
  }

  lemma NodeLineNotEmpty(line: string)
    ensures line == "" ==> ParseNodeLine(line) == NotNode
  {}

  /** A line in the NODE state either starts the wanted section, or is passed over, or is an error. */
  lemma SeekStep(goal: Grouping, want: Option<NodeId>, text: string, start: nat)
    requires |text| < NPOS && FindNewline(text, start) != NPOS && NextSection(LinesFrom(text, start), want) == goal
    ensures var e := FindNewline(text, start);
            && start <= e < |text| && FindNewline(text, e) == e
            && var line := text[start..e];
               match ParseNodeLine(line)
               case NodeError => goal == BadNode
               case NotNode => NextSection(LinesFrom(text, e + 1), want) == goal
               case NodeLine(_, _) =>
                 if Wanted(want, IdOf(ParseNodeLine(line)))
                 then start < e && Reading(goal, IdOf(ParseNodeLine(line)), [], text, e + 1)
                 else NextSection(LinesFrom(text, e + 1), want) == goal
  {
    hide LinesFrom, FindNewline, NextSection, ParseNodeLine, DataRun, IdOf, Wanted;
    SplitLine(text, start);
    var e := FindNewline(text, start);
    var lines, after := LinesFrom(text, start), LinesFrom(text, e + 1);
    NewlineHere(text, e);
    NodeLineNotEmpty(text[start..e]);
    assert lines[1..] == after;
    SectionStep(lines, want);
    assert [] + DataRun(after) == DataRun(after);
  }

  /** A line in the DATA state either extends the run or ends it. */
  lemma ReadStep(goal: Grouping, id: NodeId, buffer: seq<seq<Word32>>, text: string, start: nat)
    requires |text| < NPOS && Reading(goal, id, buffer, text, start) && FindNewline(text, start) != NPOS
    ensures var e := FindNewline(text, start);
            && 0 < start <= e < |text| && FindNewline(text, e) == e
            && var line := text[start..e];
               if IsData(line) then Reading(goal, id, buffer + [LineDwords(line)], text, e + 1)
               else Complete(goal, id, buffer, text, start - 1)
  {
    hide IsData, LineDwords, FindNewline, LinesFrom;
    SplitLine(text, start);
    var e := FindNewline(text, start);
    var line, lines, after := text[start..e], LinesFrom(text, start), LinesFrom(text, e + 1);
    NewlineHere(text, e);
    assert lines[1..] == after;
    if IsData(line) {
      assert DataRun(lines) == [LineDwords(line)] + DataRun(after);
      assert buffer + ([LineDwords(line)] + DataRun(after)) == buffer + [LineDwords(line)] + DataRun(after);
      assert lines[|DataRun(lines)|..] == after[|DataRun(after)|..];
    } else {
      assert DataRun(lines) == [] && buffer + [] == buffer;
      NewlineHere(text, start - 1);
      SplitLine(text, start - 1);
      assert text[start - 1..start - 1] == "";
    }
  }

  /** Counts the dwords, then copies them line by line. */
  method Join(lines: seq<seq<Word32>>) returns (words: seq<Word32>)
    ensures words == Flatten(lines)
  {
    var total := 0;
    for k := 0 to |lines|
      invariant total + |Flatten(lines[k..])| == |Flatten(lines)|
    {
      assert lines[k..][1..] == lines[k + 1..];
      total := total + |lines[k]|;
    }
    assert lines[|lines|..] == [];
    var dwords := new Word32[total];
    var i: nat := 0;
    for k := 0 to |lines|
      invariant i + |Flatten(lines[k..])| == total
      invariant dwords[..i] + Flatten(lines[k..]) == Flatten(lines)
    {
      assert lines[k..][1..] == lines[k + 1..];
      ghost var rest := Flatten(lines[k + 1..]);
      ghost var before := dwords[..i];
      for j := 0 to |lines[k]|
        invariant i == |before| + j
        invariant dwords[..i] == before + lines[k][..j]
        invariant |before| + |lines[k]| + |rest| == total
      {
        dwords[i] := lines[k][j];
        i := i + 1;
      }
      assert before + (lines[k] + rest) == before + lines[k] + rest;
    }
    assert lines[|lines|..] == [];
    words := dwords[..];
  }

  // ------------------------------------------------------------- entry points

  datatype Status = SUCCESS | FAILURE | UNDEFINED

  /** The runlist of one node: the first section with its ids decides. */
  method SiftPm4ParseRunlist(node: int, gpu: int, text: string)
    returns (status: Status, runlist: Option<Runlist>)
    requires |text| < NPOS
    ensures match Targeted(LinesFrom(text, 0), NodeId(node, gpu))
            case Yield(entries) => status == SUCCESS && runlist == Some(Runlist(NodeId(node, gpu), entries))
            case Nothing => status == FAILURE && runlist == None
            case Thrown => status == FAILURE && runlist == None
            case Undefined => status == UNDEFINED && runlist == None
  {
    hide NextSection, LinesFrom;
    TargetedIds(LinesFrom(text, 0), NodeId(node, gpu));
    var parser := new RlsParser.ForNode(text, node, gpu);
    var outcome := parser.Parse();
    match outcome
    case Yield(entries) =>
      if gpu != parser.gpu || node != parser.node {
        return FAILURE, None;
      }
      return SUCCESS, Some(Runlist(NodeId(node, gpu), entries));
    case Undefined =>
      return UNDEFINED, None;
    case _ =>
      return FAILURE, None;
  }

  /** A targeted search finds only the wanted node. */
  lemma {:induction false} TargetedIds(lines: seq<string>, id: NodeId)
    ensures NextSection(lines, Some(id)).Found? ==> NextSection(lines, Some(id)).section.id == id
  {
    hide ParseNodeLine, DataRun;
    if lines != [] {
      TargetedIds(lines[1..], id);
    }
  }

  /** The blank line a resumed call starts on changes nothing. */
  lemma ResumeOnBlank(rest: seq<string>)
    ensures Runlists([""] + rest) == Runlists(rest)
  {
    NodeLineNotEmpty("");
    assert ([""] + rest)[1..] == rest;
    hide ParseNodeLine;
  }

  function PrecededAll(done: seq<Runlist>, rest: Series): Series {
    if rest.Series? then Series(done + rest.runlists) else rest
  }

  /** What one more call contributes to the series. */
  lemma SeriesStep(lines: seq<string>, done: seq<Runlist>)
    ensures PrecededAll(done, Runlists(lines)) ==
            match NextSection(lines, None)
            case NoNode => Series(done)
            case BadNode => SeriesThrown
            case Found(section, rest) =>
              match Build(section.data)
              case Yield(entries) => PrecededAll(done + [Runlist(section.id, entries)], Runlists(rest))
              case Nothing => Series(done)
              case Thrown => SeriesThrown
              case Undefined => SeriesUndefined
  {
    hide NextSection, Build;
    assert done + [] == done;
    match NextSection(lines, None)
    case Found(section, rest) =>
      SectionShrinks(lines, None);
      if Build(section.data).Yield? && Runlists(rest).Series? {
        var r := Runlist(section.id, Build(section.data).entries);
        assert done + ([r] + Runlists(rest).runlists) == done + [r] + Runlists(rest).runlists;
      }
    case _ =>
  }

  ghost predicate ReportsSeries(status: Status, head: Node?<Runlist>, nodes: seq<Node<Runlist>>, r: Series)
    reads nodes
  {
    match r
    case Series(series) => status == SUCCESS && IsList(head, nodes, series)
    case SeriesThrown => status == FAILURE
    case SeriesUndefined => status == UNDEFINED
  }

  /** All runlists of a dump as a list on the heap; a thrown error gives a failure. */
  method SiftPm4ParseRunlists(text: string) returns (status: Status, head: Node?<Runlist>)
    requires |text| < NPOS
    ensures exists nodes: seq<Node<Runlist>> :: ReportsSeries(status, head, nodes, Runlists(LinesFrom(text, 0)))
    ensures status == SUCCESS <==> Runlists(LinesFrom(text, 0)).Series?
    ensures status == FAILURE <==> Runlists(LinesFrom(text, 0)) == SeriesThrown
  {
    hide NextSection, LinesFrom, Build, Runlists, IsList, PrecededAll;
    EmptyList<Runlist>();
    var prev: Node?<Runlist> := null;
    ghost var nodes: seq<Node<Runlist>>, done: seq<Runlist> := [], [];
    ghost var goal := Runlists(LinesFrom(text, 0));
    head := null;
    var parser := new RlsParser(text);
    var more := true;
    PrecededByNothing(goal);
    while more
      invariant fresh(parser) && parser.Ready() && parser.text == text && parser.end <= NPOS
      invariant parser.findAll
      invariant IsList(head, nodes, done)
      invariant forall i | 0 <= i < |nodes| :: fresh(nodes[i])
      invariant prev == if nodes == [] then null else nodes[|nodes| - 1]
      invariant if more then PrecededAll(done, Runlists(parser.Remaining())) == goal else goal == Series(done)
      decreases if more then 1 else 0, NPOS - parser.end
    {
      SeriesStep(parser.Remaining(), done);
      ghost var next := NextSection(parser.Remaining(), None);
      var outcome := parser.Parse();
      match outcome {
        case Yield(entries) =>
          var r := Runlist(NodeId(parser.node, parser.gpu), entries);
          if next.rest == [] {
            PastTheEnd(text);
          } else {
            ResumeOnBlank(next.rest);
          }
          head, prev, nodes := Append(head, prev, r, nodes, done);
          done := done + [r];
        case Nothing =>
          more := false;
        case Thrown =>
          assert ReportsSeries(FAILURE, null, [], goal);
          return FAILURE, null;
        case Undefined =>
          assert ReportsSeries(UNDEFINED, null, [], goal);
          return UNDEFINED, null;
      }
    }
    status := SUCCESS;
    assert ReportsSeries(status, head, nodes, goal);
  }

  lemma PrecededByNothing(rest: Series)
    ensures PrecededAll([], rest) == rest
  {
    if rest.Series? {
      assert [] + rest.runlists == rest.runlists;
    }
  }

  lemma PastTheEnd(text: string)
    requires |text| < NPOS
    ensures LinesFrom(text, NPOS) == []
  {}
}
