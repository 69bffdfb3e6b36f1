/** PM4 packets: header and body decoding, the two-pass framer, and the inverse encoding. */
module Packets {
  import opened Words

  // -------------------------------------------------------------------- data

  /** Packet type minus one, opcode, and the number of dwords in the body. */
  datatype Header = Header(opcode: nat, count: nat, packetType: nat)

  datatype MapProcess = MapProcess(
    singleMemop: bool,
    debugFlag: bool,
    tmz: bool,
    diqEnable: bool,
    sdmaEnable: bool,
    pasid: Word,
    debugVmid: Word,
    processQuantum: Word,
    vmContextPageTableBaseAddrLo32: Word,
    vmContextPageTableBaseAddrHi32: Word,
    shMemBases: Word,
    shMemConfig: Word,
    sqShaderTbaLo: Word,
    sqShaderTbaHi: Word,
    sqShaderTmaLo: Word,
    sqShaderTmaHi: Word,
    gdsAddrLo: Word,
    gdsAddrHi: Word,
    numGws: Word,
    numOac: Word,
    gdsSizeHi: Word,
    gdsSizeLo: Word,
    numQueues: Word,
    spiGdbgPerVmidCntl: Word,
    tcpWatch0Cntl: Word,
    tcpWatch1Cntl: Word,
    tcpWatch2Cntl: Word,
    tcpWatch3Cntl: Word,
    completionSignalLo32: Word,
    completionSignalHi32: Word)

  datatype MapQueues = MapQueues(
    extendedEngineSel: Word,
    queueSel: Word,
    vmid: Word,
    gwsEnabled: bool,
    queue: Word,
    queueType: Word,
    staticQueueGroup: Word,
    engineSel: Word,
    numQueues: Word,
    checkDisable: bool,
    doorbellOffset: Word,
    mqdAddrLo: Word,
    mqdAddrHi: Word,
    wptrAddrLo: Word,
    wptrAddrHi: Word)

  datatype Body = Process(mapProcess: MapProcess) | Queues(mapQueues: MapQueues)

  datatype Entry = Entry(header: Header, body: Body)

  const MAP_PROCESS: nat := 0xA1
  const MAP_QUEUES: nat := 0xA2

  /** Dwords of the body that the decoder of an opcode reads. */
  function BodyNeeds(opcode: nat): nat {
    if opcode == MAP_PROCESS then 20 else if opcode == MAP_QUEUES then 6 else 0
  }

  // ------------------------------------------------------------------- spans

  /** A pointer into a buffer and a length. Indexing does not look at the length. */
  datatype Span = Span(buffer: seq<Word32>, start: nat, length: nat) {
    predicate Within() {
      start + length <= |buffer|
    }

    function Subspan(offset: nat, count: nat): Span {
      Span(buffer, start + offset, count)
    }

    predicate Readable(n: nat) {
      start + n <= |buffer|
    }

    function At(i: nat): Word32
      requires start + i < |buffer|
    {
      buffer[start + i]
    }
  }

  /** Body fields are addressed by the dword numbers of the packet tables, which start at 2. */
  function BodySlice(body: Span, index: nat, msb: nat, lsb: nat): Word
    requires 2 <= index && body.start + index - 2 < |body.buffer| && lsb <= msb < 64
  {
    GetBits(body.At(index - 2), msb, lsb)
  }

  function ParseBodyMapProcess(b: Span): MapProcess
    requires b.Readable(20)
  {
    MapProcess(
      BodySlice(b, 2, 16, 16) != 0,
      BodySlice(b, 2, 22, 22) != 0,
      BodySlice(b, 2, 23, 23) != 0,
      BodySlice(b, 2, 24, 24) != 0,
      BodySlice(b, 14, 7, 0) != 0,
      BodySlice(b, 2, 15, 0),
      BodySlice(b, 2, 21, 18),
      BodySlice(b, 2, 31, 25),
      BodySlice(b, 3, 31, 0),
      BodySlice(b, 4, 31, 0),
      BodySlice(b, 5, 31, 0),
      BodySlice(b, 6, 31, 0),
      BodySlice(b, 7, 31, 0),
      BodySlice(b, 8, 31, 0),
      BodySlice(b, 9, 31, 0),
      BodySlice(b, 10, 31, 0),
      BodySlice(b, 12, 31, 0),
      BodySlice(b, 13, 31, 0),
      BodySlice(b, 14, 6, 0),
      BodySlice(b, 14, 11, 8),
      BodySlice(b, 14, 15, 12),
      BodySlice(b, 14, 21, 16),
      BodySlice(b, 14, 31, 22),
      BodySlice(b, 15, 31, 0),
      BodySlice(b, 16, 31, 0),
      BodySlice(b, 17, 31, 0),
      BodySlice(b, 18, 31, 0),
      BodySlice(b, 19, 31, 0),
      BodySlice(b, 20, 31, 0),
      BodySlice(b, 21, 31, 0))
  }

  function ParseBodyMapQueues(b: Span): MapQueues
    requires b.Readable(6)
  {
    MapQueues(
      BodySlice(b, 2, 3, 2),
      BodySlice(b, 2, 5, 4),
      BodySlice(b, 2, 11, 8),
      BodySlice(b, 2, 12, 12) != 0,
      BodySlice(b, 2, 20, 13),
      BodySlice(b, 2, 23, 21),
      BodySlice(b, 2, 25, 24),
      BodySlice(b, 2, 28, 26),
      BodySlice(b, 2, 31, 29),
      BodySlice(b, 3, 1, 1) != 0,
      BodySlice(b, 3, 27, 2),
      BodySlice(b, 4, 31, 0),
      BodySlice(b, 5, 31, 0),
      BodySlice(b, 6, 31, 0),
      BodySlice(b, 7, 31, 0))
  }

  // ----------------------------------------------------------------- entries

  /** A value; a refusal (error status); or a read past the end of the buffer, which the code
      performs without noticing. */
  datatype Parse<+T> = Parsed(value: T) | Refused | OutOfBounds

  function Opcode(header: Word32): nat {
    GetBits(header, 15, 8)
  }

  function TypeBits(header: Word32): nat {
    GetBits(header, 31, 30)
  }

  /** The count field holds the number of body dwords minus one. */
  function BodyCount(header: Word32): nat {
    GetBits(header, 29, 16) + 1
  }

  function FrameSize(header: Word32): nat {
    BodyCount(header) + 1
  }

  function ParseRunlistEntry(data: Span): Parse<Entry>
    requires data.Within()
  {
    if data.length == 0 then Refused
    else
      var header := data.At(0);
      var packetType := Minus(TypeBits(header), 1);
      if packetType > 2 then Refused
      else if data.length - 1 < BodyCount(header) then Refused
      else
        var opcode := Opcode(header);
        var body := data.Subspan(1, data.length - 1);
        if opcode != MAP_PROCESS && opcode != MAP_QUEUES then Refused
        else if !body.Readable(BodyNeeds(opcode)) then OutOfBounds
        else
          Parsed(Entry(Header(opcode, BodyCount(header), packetType),
                       if opcode == MAP_PROCESS then Process(ParseBodyMapProcess(body))
                       else Queues(ParseBodyMapQueues(body))))
  }

  // ----------------------------------------------------------------- framing

  /** The sizes of the frames from `start`, as the header counts give them: the first pass. */
  function FrameSizes(words: seq<Word32>, start: nat): seq<nat>
    decreases |words| - start
  {
    if start >= |words| then []
    else [FrameSize(words[start])] + FrameSizes(words, start + FrameSize(words[start]))
  }

  /** Where the last of those frames ends, which may be past the end of the data. */
  function FramesEnd(words: seq<Word32>, start: nat): nat
    decreases |words| - start
  {
    if start >= |words| then start else FramesEnd(words, start + FrameSize(words[start]))
  }

  /** The entries from `start`, frame by frame: the second pass. */
  function EntriesFrom(words: seq<Word32>, start: nat): Parse<seq<Entry>>
    requires FramesEnd(words, start) == |words|
    decreases |words| - start
  {
    if start >= |words| then Parsed([])
    else
      var size := FrameSize(words[start]);
      FramesEndGrows(words, start + size);
      match ParseRunlistEntry(Span(words, start, size))
      case Refused => Refused
      case OutOfBounds => OutOfBounds
      case Parsed(entry) =>
        Prefixed([entry], EntriesFrom(words, start + size))
  }

  function Prefixed(entries: seq<Entry>, rest: Parse<seq<Entry>>): Parse<seq<Entry>> {
    match rest
    case Parsed(more) => Parsed(entries + more)
    case Refused => Refused
    case OutOfBounds => OutOfBounds
  }

  lemma PrefixedTwice(a: seq<Entry>, b: seq<Entry>, rest: Parse<seq<Entry>>)
    ensures Prefixed(a, Prefixed(b, rest)) == Prefixed(a + b, rest)
  {
    if rest.Parsed? {
      assert a + (b + rest.value) == a + b + rest.value;
    }
  }

  lemma PrefixedByNothing(rest: Parse<seq<Entry>>)
    ensures Prefixed([], rest) == rest
  {
    if rest.Parsed? {
      assert [] + rest.value == rest.value;
    }
  }

  lemma {:induction false} FramesEndGrows(words: seq<Word32>, start: nat)
    ensures start <= FramesEnd(words, start)
    decreases |words| - start
  {
    hide BodyCount;
    if start < |words| {
      FramesEndGrows(words, start + FrameSize(words[start]));
    }
  }

  function ParseEntries(words: seq<Word32>): Parse<seq<Entry>> {
    if words == [] || FramesEnd(words, 0) > |words| then Refused
    else
      FramesEndAtLeast(words, 0);
      EntriesFrom(words, 0)
  }

  lemma {:induction false} FramesEndAtLeast(words: seq<Word32>, start: nat)
    ensures FramesEnd(words, start) >= |words|
    decreases |words| - start
  {
    hide BodyCount;
    if start < |words| {
      FramesEndAtLeast(words, start + FrameSize(words[start]));
    }
  }

  /** The first frame of what is left. */
  lemma FrameStep(words: seq<Word32>, start: nat)
    requires start < |words| && FramesEnd(words, start) == |words|
    ensures var size := FrameSize(words[start]);
            && size >= 2 && start + size <= |words| && FramesEnd(words, start + size) == |words|
            && FrameSizes(words, start) == [size] + FrameSizes(words, start + size)
  {
    hide FrameSize;
    FrameSizePositive(words[start]);
    FramesEndGrows(words, start + FrameSize(words[start]));
  }

  /** Both passes over the data: frame sizes first, then one entry per frame. */
  method ParseRunlistEntries(words: seq<Word32>) returns (result: Parse<seq<Entry>>)
    ensures result == ParseEntries(words)
  {
    hide FrameSize, ParseRunlistEntry;
    if |words| == 0 {
      return Refused;
    }
    FramesEndAtLeast(words, 0);
    var sizes: seq<nat> := [];
    var total: nat := 0;
    while total < |words|
      invariant sizes + FrameSizes(words, total) == FrameSizes(words, 0)
      invariant FramesEnd(words, total) == FramesEnd(words, 0)
      decreases |words| - total
    {
      var size := FrameSize(words[total]);
      FrameSizePositive(words[total]);
      sizes, total := sizes + [size], total + size;
    }
    if total > |words| {
      return Refused;
    }
    var entries: seq<Entry> := [];
    var start: nat := 0;
    PrefixedByNothing(EntriesFrom(words, 0));
    assert SecondPass(words, sizes, 0, start, entries);
    hide Prefixed, FrameSizes, FramesEnd, EntriesFrom, ParseEntries, SecondPass;
    for i := 0 to |sizes|
      invariant SecondPass(words, sizes, i, start, entries)
    {
      SecondPassStep(words, sizes, i, start, entries);
      var size := sizes[i];
      var entry := ParseRunlistEntry(Span(words, start, size));
      match entry {
        case Refused => return Refused;
        case OutOfBounds => return OutOfBounds;
        case Parsed(value) => entries := entries + [value];
      }
      start := start + size;
    }
    SecondPassEnd(words, sizes, start, entries);
    result := Parsed(entries);
  }

  /** Before frame i of the second pass, which starts at `start`. */
  ghost predicate SecondPass(words: seq<Word32>, sizes: seq<nat>, i: nat, start: nat, entries: seq<Entry>) {
    && i <= |sizes| && start <= |words| && FramesEnd(words, start) == |words|
    && sizes[i..] == FrameSizes(words, start)
    && ParseEntries(words) == Prefixed(entries, EntriesFrom(words, start))
  }

  lemma SecondPassStep(words: seq<Word32>, sizes: seq<nat>, i: nat, start: nat, entries: seq<Entry>)
    requires i < |sizes| && SecondPass(words, sizes, i, start, entries)
    ensures start + sizes[i] <= |words|
    ensures match ParseRunlistEntry(Span(words, start, sizes[i]))
            case Parsed(entry) => SecondPass(words, sizes, i + 1, start + sizes[i], entries + [entry])
            case Refused => ParseEntries(words) == Refused
            case OutOfBounds => ParseEntries(words) == OutOfBounds
  {
    hide FrameSize, ParseRunlistEntry, ParseEntries;
    assert sizes[i] == FrameSizes(words, start)[0] && sizes[i..][1..] == sizes[i + 1..];
    FrameStep(words, start);
    var entry := ParseRunlistEntry(Span(words, start, sizes[i]));
    if entry.Parsed? {
      PrefixedTwice(entries, [entry.value], EntriesFrom(words, start + sizes[i]));
    }
  }

  lemma SecondPassEnd(words: seq<Word32>, sizes: seq<nat>, start: nat, entries: seq<Entry>)
    requires SecondPass(words, sizes, |sizes|, start, entries)
    ensures ParseEntries(words) == Parsed(entries)
  {
    hide FrameSize, ParseEntries;
    assert FrameSizes(words, start) == [] && entries + [] == entries;
  }

  lemma FrameSizePositive(header: Word32)
    ensures FrameSize(header) >= 2
  {}

  // ---------------------------------------------- when a buffer is accepted

  predicate IsFrameStart(words: seq<Word32>, start: nat, s: nat)
    decreases |words| - start
  {
    start < |words| && (s == start || IsFrameStart(words, start + FrameSize(words[start]), s))
  }

  /** A frame the decoder accepts: a known opcode, nonzero type bits, and a body that the decoder
      of the opcode can read without leaving the buffer. */
  predicate Acceptable(words: seq<Word32>, s: nat)
    requires s < |words|
  {
    && (Opcode(words[s]) == MAP_PROCESS || Opcode(words[s]) == MAP_QUEUES)
    && TypeBits(words[s]) != 0
    && s + 1 + BodyNeeds(Opcode(words[s])) <= |words|
  }

  lemma TypeBitsRange(header: Word32)
    ensures TypeBits(header) <= 3
    ensures Minus(TypeBits(header), 1) > 2 <==> TypeBits(header) == 0
  {
    GetBitsValue(header, 31, 30);
    assert Pow2(2) == 4;
    hide GetBits;
  }

  /** On a frame cut out by its own count, the size test cannot fail. */
  lemma FrameParsedIff(words: seq<Word32>, s: nat)
    requires s < |words| && s + FrameSize(words[s]) <= |words|
    ensures ParseRunlistEntry(Span(words, s, FrameSize(words[s]))).Parsed? <==> Acceptable(words, s)
  {
    TypeBitsRange(words[s]);
    hide GetBits, Minus, ParseBodyMapProcess, ParseBodyMapQueues;
  }

  lemma {:induction false} EntriesParsedIff(words: seq<Word32>, start: nat)
    requires FramesEnd(words, start) == |words|
    ensures EntriesFrom(words, start).Parsed?
            <==> forall s: nat | s < |words| && IsFrameStart(words, start, s) :: Acceptable(words, s)
    decreases |words| - start
  {
    hide Acceptable, FrameSize, ParseRunlistEntry;
    if start < |words| {
      FrameSizePositive(words[start]);
      var next := start + FrameSize(words[start]);
      FramesEndGrows(words, next);
      FrameParsedIff(words, start);
      EntriesParsedIff(words, next);
      assert IsFrameStart(words, start, start);
      forall s: nat | s < |words|
        ensures IsFrameStart(words, start, s) <==> s == start || IsFrameStart(words, next, s)
      {}
    }
  }

  /** A buffer is decoded exactly when it is not empty, the frames tile it, and each frame is
      acceptable. */
  lemma EntriesAcceptedIff(words: seq<Word32>)
    ensures ParseEntries(words).Parsed?
            <==> (&& words != [] && FramesEnd(words, 0) == |words|
                  && forall s: nat | s < |words| && IsFrameStart(words, 0, s) :: Acceptable(words, s))
  {
    hide Acceptable, FramesEnd, EntriesFrom, IsFrameStart;
    FramesEndAtLeast(words, 0);
    if words != [] && FramesEnd(words, 0) == |words| {
      EntriesParsedIff(words, 0);
    }
  }

  /** The first pass and the second agree: there is one entry per frame, with its count. */
  lemma {:induction false} EntriesMatchFrames(words: seq<Word32>, start: nat)
    requires FramesEnd(words, start) == |words| && EntriesFrom(words, start).Parsed?
    ensures var entries := EntriesFrom(words, start).value;
            && |entries| == |FrameSizes(words, start)|
            && forall i | 0 <= i < |entries| :: entries[i].header.count + 1 == FrameSizes(words, start)[i]
    decreases |words| - start
  {
    hide Opcode, TypeBits, BodyCount, ParseBodyMapProcess, ParseBodyMapQueues;
    if start < |words| {
      FramesEndGrows(words, start + FrameSize(words[start]));
      EntriesMatchFrames(words, start + FrameSize(words[start]));
    }
  }

  // ------------------------------------------------------------- every outcome

  /** The fields of a header in plain arithmetic. */
  lemma HeaderByArithmetic(header: Word32)
    ensures Opcode(header) == header / 0x100 % 0x100
    ensures FrameSize(header) == header / 0x1_0000 % 0x4000 + 2
    ensures TypeBits(header) == header / 0x4000_0000
  {
    HeaderPowers();
    hide GetBits, Pow2;
    GetBitsValue(header, 15, 8);
    GetBitsValue(header, 29, 16);
    GetBitsValue(header, 31, 30);
  }

  lemma HeaderPowers()
    ensures Pow2(2) == 4 && Pow2(8) == 0x100 && Pow2(14) == 0x4000 && Pow2(16) == 0x1_0000 && Pow2(30) == 0x4000_0000
  {
    assert Pow2(2) == 4 && Pow2(8) == 0x100;
    hide Pow2;
    Pow2Values();
    Pow2Add(12, 2);
    Pow2Add(8, 8);
    Pow2Add(21, 9);
  }

  /** A frame whose header is refused: no type bits, or an opcode other than the two known ones. */
  predicate BadHeader(header: Word32) {
    header / 0x4000_0000 == 0 || header / 0x100 % 0x100 !in {0xA1, 0xA2}
  }

  /** A frame whose body is shorter than its decoder reads, at the end of the buffer. */
  predicate ShortBody(words: seq<Word32>, s: nat)
    requires s < |words|
  {
    |words| < s + 1 + if words[s] / 0x100 % 0x100 == 0xA1 then 20 else 6
  }

  /** What becomes of a frame that is cut out by its own count. */
  lemma FrameOutcome(words: seq<Word32>, s: nat)
    requires s < |words| && s + FrameSize(words[s]) <= |words|
    ensures var entry := ParseRunlistEntry(Span(words, s, FrameSize(words[s])));
            && (entry == Refused <==> BadHeader(words[s]))
            && (entry == OutOfBounds <==> !BadHeader(words[s]) && ShortBody(words, s))
  {
    HeaderByArithmetic(words[s]);
    TypeBitsRange(words[s]);
    FrameSizePositive(words[s]);
    hide Opcode, TypeBits, Minus, ParseBodyMapProcess, ParseBodyMapQueues, GetBits;
  }

  /** The first frame from `start` on that is not decoded. */
  ghost predicate FirstBad(words: seq<Word32>, start: nat, s: nat) {
    && s < |words| && IsFrameStart(words, start, s) && (BadHeader(words[s]) || ShortBody(words, s))
    && forall t: nat | t < s && IsFrameStart(words, start, t) :: !BadHeader(words[t]) && !ShortBody(words, t)
  }

  /** No frame starts before the first one. */
  lemma {:induction false} FrameStartsGrow(words: seq<Word32>, start: nat, s: nat)
    requires IsFrameStart(words, start, s)
    ensures start <= s < |words|
    decreases |words| - start
  {
    hide FrameSize;
    FrameSizePositive(words[start]);
    if s != start {
      FrameStartsGrow(words, start + FrameSize(words[start]), s);
    }
  }

  lemma FirstBadStep(words: seq<Word32>, start: nat, s: nat)
    requires start < |words|
    ensures FirstBad(words, start, s)
            <==> if BadHeader(words[start]) || ShortBody(words, start) then s == start
                 else FirstBad(words, start + FrameSize(words[start]), s)
  {
    hide FrameSize, BadHeader, ShortBody;
    FrameSizePositive(words[start]);
    var next := start + FrameSize(words[start]);
    forall t: nat | t < |words|
      ensures IsFrameStart(words, start, t) <==> t == start || IsFrameStart(words, next, t)
      ensures IsFrameStart(words, start, t) ==> start <= t
      ensures IsFrameStart(words, next, t) ==> next <= t
    {
      if IsFrameStart(words, start, t) {
        FrameStartsGrow(words, start, t);
      }
      if IsFrameStart(words, next, t) {
        FrameStartsGrow(words, next, t);
      }
    }
  }

  lemma {:induction false} EntriesOutcome(words: seq<Word32>, start: nat)
    requires FramesEnd(words, start) == |words|
    ensures EntriesFrom(words, start) == Refused <==> exists s: nat :: FirstBad(words, start, s) && BadHeader(words[s])
    ensures EntriesFrom(words, start) == OutOfBounds
            <==> exists s: nat :: FirstBad(words, start, s) && !BadHeader(words[s])
    decreases |words| - start
  {
    hide FrameSize, ParseRunlistEntry, BadHeader, ShortBody, FirstBad, IsFrameStart;
    if start < |words| {
      FrameStep(words, start);
      FrameOutcome(words, start);
      forall s: nat
        ensures FirstBad(words, start, s)
                <==> if BadHeader(words[start]) || ShortBody(words, start) then s == start
                     else FirstBad(words, start + FrameSize(words[start]), s)
      {
        FirstBadStep(words, start, s);
      }
      EntriesOutcome(words, start + FrameSize(words[start]));
    } else {
      NoFrames(words, start);
    }
  }

  lemma NoFrames(words: seq<Word32>, start: nat)
    requires start >= |words|
    ensures forall s: nat :: !FirstBad(words, start, s)
  {}

  /** A buffer is refused exactly when it is empty, the frames do not tile it, or the first frame that
      is not decoded has a bad header; if that frame has a short body instead, the decoder reads past
      the end of the buffer. */
  lemma RefusedIff(words: seq<Word32>)
    ensures ParseEntries(words) == Refused
            <==> || words == [] || FramesEnd(words, 0) != |words|
                 || exists s: nat :: FirstBad(words, 0, s) && BadHeader(words[s])
    ensures ParseEntries(words) == OutOfBounds
            <==> && words != [] && FramesEnd(words, 0) == |words|
                 && exists s: nat :: FirstBad(words, 0, s) && !BadHeader(words[s])
  {
    hide FramesEnd, EntriesFrom, FirstBad, BadHeader;
    FramesEndAtLeast(words, 0);
    if FramesEnd(words, 0) == |words| {
      EntriesOutcome(words, 0);
    }
  }
}
