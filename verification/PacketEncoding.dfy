/** The inverse of the packet decoder, and the round trips between the two. */
module PacketEncoding {
  import opened Words
  import opened Packets
  import opened BitFields

  lemma WholeWord(x: Word32)
    ensures GetBits(x, 31, 0) == x
  {
    LowBitsValue(x, 32);
    Pow2Values();
    DivModUnique(x, 0x1_0000_0000, 0, x);
  }

  // ------------------------------------------------------------------ headers

  predicate HeaderFits(h: Header) {
    h.opcode < 256 && 0 < h.count <= 0x4000 && h.packetType <= 2
  }

  function HeaderFields(h: Header): seq<Field>
    requires HeaderFits(h)
  {
    [Field(8, 0), Field(8, h.opcode), Field(14, h.count - 1), Field(2, h.packetType + 1)]
  }

  function EncodeHeader(h: Header): Word32
    requires HeaderFits(h)
  {
    HeaderPacked(h);
    Pack(HeaderFields(h))
  }

  lemma HeaderPacked(h: Header)
    requires HeaderFits(h)
    ensures AllFit(HeaderFields(h))
    ensures Offset(HeaderFields(h), 1) == 8 && Offset(HeaderFields(h), 2) == 16 && Offset(HeaderFields(h), 3) == 30
    ensures Pack(HeaderFields(h)) < 0x1_0000_0000
  {
    var fields := HeaderFields(h);
    assert Pow2(8) == 256 && Pow2(2) == 4 && Pow2(14) == 0x4000;
    assert Offset(fields, 1) == 8;
    assert Offset(fields, 2) == 16;
    assert Offset(fields, 3) == 30;
    PackBound(fields);
    Pow2Values();
    hide Pack, Pow2;
  }

  /** The fields of an encoded header are the header. */
  lemma HeaderRoundTrip(h: Header)
    requires HeaderFits(h)
    ensures var w := EncodeHeader(h);
            Opcode(w) == h.opcode && BodyCount(w) == h.count && TypeBits(w) == h.packetType + 1
  {
    HeaderPacked(h);
    var fields := HeaderFields(h);
    hide Pack, Offset, GetBits, AllFit;
    FieldOf(fields, 1, EncodeHeader(h));
    FieldOf(fields, 2, EncodeHeader(h));
    FieldOf(fields, 3, EncodeHeader(h));
  }

  // ------------------------------------------------------------------- bodies

  predicate MapProcessFits(b: MapProcess) {
    && b.pasid < 0x1_0000 && b.debugVmid < 16 && b.processQuantum < 128
    && b.vmContextPageTableBaseAddrLo32 < 0x1_0000_0000 && b.vmContextPageTableBaseAddrHi32 < 0x1_0000_0000
    && b.shMemBases < 0x1_0000_0000 && b.shMemConfig < 0x1_0000_0000
    && b.sqShaderTbaLo < 0x1_0000_0000 && b.sqShaderTbaHi < 0x1_0000_0000
    && b.sqShaderTmaLo < 0x1_0000_0000 && b.sqShaderTmaHi < 0x1_0000_0000
    && b.gdsAddrLo < 0x1_0000_0000 && b.gdsAddrHi < 0x1_0000_0000
    && b.numGws < 128 && b.numOac < 16 && b.gdsSizeHi < 16 && b.gdsSizeLo < 64 && b.numQueues < 1024
    && b.spiGdbgPerVmidCntl < 0x1_0000_0000
    && b.tcpWatch0Cntl < 0x1_0000_0000 && b.tcpWatch1Cntl < 0x1_0000_0000
    && b.tcpWatch2Cntl < 0x1_0000_0000 && b.tcpWatch3Cntl < 0x1_0000_0000
    && b.completionSignalLo32 < 0x1_0000_0000 && b.completionSignalHi32 < 0x1_0000_0000
  }

  predicate MapQueuesFits(b: MapQueues) {
    && b.extendedEngineSel < 4 && b.queueSel < 4 && b.vmid < 16 && b.queue < 256 && b.queueType < 8
    && b.staticQueueGroup < 4 && b.engineSel < 8 && b.numQueues < 8 && b.doorbellOffset < 0x400_0000
    && b.mqdAddrLo < 0x1_0000_0000 && b.mqdAddrHi < 0x1_0000_0000
    && b.wptrAddrLo < 0x1_0000_0000 && b.wptrAddrHi < 0x1_0000_0000
  }

  /** Dword 2 of MAP_PROCESS; bit 17 is reserved. */
  function ProcessFields(b: MapProcess): seq<Field> {
    [Field(16, b.pasid), Field(1, Bit(b.singleMemop)), Field(1, 0), Field(4, b.debugVmid),
     Field(1, Bit(b.debugFlag)), Field(1, Bit(b.tmz)), Field(1, Bit(b.diqEnable)), Field(7, b.processQuantum)]
  }

  /** Dword 14 of MAP_PROCESS. */
  function ResourceFields(b: MapProcess): seq<Field> {
    [Field(7, b.numGws), Field(1, Bit(b.sdmaEnable)), Field(4, b.numOac), Field(4, b.gdsSizeHi),
     Field(6, b.gdsSizeLo), Field(10, b.numQueues)]
  }

  /** Dword 2 of MAP_QUEUES; bits 1:0 and 7:6 are reserved. */
  function QueueFields(b: MapQueues): seq<Field> {
    [Field(2, 0), Field(2, b.extendedEngineSel), Field(2, b.queueSel), Field(2, 0), Field(4, b.vmid),
     Field(1, Bit(b.gwsEnabled)), Field(8, b.queue), Field(3, b.queueType), Field(2, b.staticQueueGroup),
     Field(3, b.engineSel), Field(3, b.numQueues)]
  }

  /** Dword 3 of MAP_QUEUES; bit 0 and bits 31:28 are reserved. */
  function DoorbellFields(b: MapQueues): seq<Field> {
    [Field(1, 0), Field(1, Bit(b.checkDisable)), Field(26, b.doorbellOffset), Field(4, 0)]
  }

  lemma SmallPowers()
    ensures Pow2(1) == 2 && Pow2(2) == 4 && Pow2(3) == 8 && Pow2(4) == 16 && Pow2(6) == 64
    ensures Pow2(7) == 128 && Pow2(8) == 256 && Pow2(10) == 1024 && Pow2(16) == 0x1_0000 && Pow2(26) == 0x400_0000
  {
    Pow2Add(16, 10);
  }

  lemma PackedWord(fields: seq<Field>)
    requires AllFit(fields) && Offset(fields, |fields|) == 32
    ensures Pack(fields) < 0x1_0000_0000
  {
    PackBound(fields);
    Pow2Values();
  }

  lemma ProcessWord(b: MapProcess)
    requires MapProcessFits(b)
    ensures AllFit(ProcessFields(b)) && Pack(ProcessFields(b)) < 0x1_0000_0000
    ensures var w: Word := Pack(ProcessFields(b));
            && GetBits(w, 15, 0) == b.pasid && GetBits(w, 16, 16) == Bit(b.singleMemop)
            && GetBits(w, 21, 18) == b.debugVmid && GetBits(w, 22, 22) == Bit(b.debugFlag)
            && GetBits(w, 23, 23) == Bit(b.tmz) && GetBits(w, 24, 24) == Bit(b.diqEnable)
            && GetBits(w, 31, 25) == b.processQuantum
  {
    var f := ProcessFields(b);
    SmallPowers();
    hide Pow2, Pack, GetBits;
    assert Offset(f, 1) == 16;
    assert Offset(f, 2) == 17;
    assert Offset(f, 3) == 18;
    assert Offset(f, 4) == 22;
    assert Offset(f, 5) == 23;
    assert Offset(f, 6) == 24;
    assert Offset(f, 7) == 25;
    assert Offset(f, 8) == 32;
    hide Offset;
    PackedWord(f);
    hide AllFit;
    var w := Pack(f);
    FieldOf(f, 0, w);
    FieldOf(f, 1, w);
    FieldOf(f, 3, w);
    FieldOf(f, 4, w);
    FieldOf(f, 5, w);
    FieldOf(f, 6, w);
    FieldOf(f, 7, w);
  }

  /** The first two fields of dword 14 read as one, the way sdma_enable is read. */
  function MergedResourceFields(b: MapProcess): seq<Field> {
    [Field(8, b.numGws + 128 * Bit(b.sdmaEnable))] + ResourceFields(b)[2..]
  }

  lemma MergedResources(b: MapProcess)
    ensures Pack(MergedResourceFields(b)) == Pack(ResourceFields(b))
  {
    var f, g := ResourceFields(b), MergedResourceFields(b);
    SmallPowers();
    hide Pow2;
    assert f[1..][1..] == f[2..] == g[1..];
    assert Pack(f[1..]) == Bit(b.sdmaEnable) + 2 * Pack(f[2..]);
  }

  lemma ResourceWord(b: MapProcess)
    requires MapProcessFits(b)
    ensures AllFit(ResourceFields(b)) && Pack(ResourceFields(b)) < 0x1_0000_0000
    ensures var w: Word := Pack(ResourceFields(b));
            && GetBits(w, 6, 0) == b.numGws && GetBits(w, 7, 0) == b.numGws + 128 * Bit(b.sdmaEnable)
            && GetBits(w, 11, 8) == b.numOac && GetBits(w, 15, 12) == b.gdsSizeHi
            && GetBits(w, 21, 16) == b.gdsSizeLo && GetBits(w, 31, 22) == b.numQueues
  {
    var f, g := ResourceFields(b), MergedResourceFields(b);
    SmallPowers();
    MergedResources(b);
    hide Pow2, Pack, GetBits;
    assert Offset(f, 1) == 7;
    assert Offset(f, 2) == 8;
    assert Offset(f, 3) == 12;
    assert Offset(f, 4) == 16;
    assert Offset(f, 5) == 22;
    assert Offset(f, 6) == 32;
    assert Offset(g, 0) == 0;
    hide Offset;
    PackedWord(f);
    assert AllFit(g);
    hide AllFit;
    var w := Pack(f);
    FieldOf(g, 0, w);
    FieldOf(f, 0, w);
    FieldOf(f, 2, w);
    FieldOf(f, 3, w);
    FieldOf(f, 4, w);
    FieldOf(f, 5, w);
  }

  lemma QueueWord(b: MapQueues)
    requires MapQueuesFits(b)
    ensures AllFit(QueueFields(b)) && Pack(QueueFields(b)) < 0x1_0000_0000
    ensures var w: Word := Pack(QueueFields(b));
            && GetBits(w, 3, 2) == b.extendedEngineSel && GetBits(w, 5, 4) == b.queueSel
            && GetBits(w, 11, 8) == b.vmid && GetBits(w, 12, 12) == Bit(b.gwsEnabled)
            && GetBits(w, 20, 13) == b.queue && GetBits(w, 23, 21) == b.queueType
            && GetBits(w, 25, 24) == b.staticQueueGroup && GetBits(w, 28, 26) == b.engineSel
            && GetBits(w, 31, 29) == b.numQueues
  {
    var f := QueueFields(b);
    SmallPowers();
    hide Pow2, Pack, GetBits;
    assert Offset(f, 1) == 2;
    assert Offset(f, 2) == 4;
    assert Offset(f, 3) == 6;
    assert Offset(f, 4) == 8;
    assert Offset(f, 5) == 12;
    assert Offset(f, 6) == 13;
    assert Offset(f, 7) == 21;
    assert Offset(f, 8) == 24;
    assert Offset(f, 9) == 26;
    assert Offset(f, 10) == 29;
    assert Offset(f, 11) == 32;
    hide Offset;
    PackedWord(f);
    hide AllFit;
    var w := Pack(f);
    FieldOf(f, 1, w);
    FieldOf(f, 2, w);
    FieldOf(f, 4, w);
    FieldOf(f, 5, w);
    FieldOf(f, 6, w);
    FieldOf(f, 7, w);
    FieldOf(f, 8, w);
    FieldOf(f, 9, w);
    FieldOf(f, 10, w);
  }

  lemma DoorbellWord(b: MapQueues)
    requires MapQueuesFits(b)
    ensures AllFit(DoorbellFields(b)) && Pack(DoorbellFields(b)) < 0x1_0000_0000
    ensures var w: Word := Pack(DoorbellFields(b));
            GetBits(w, 1, 1) == Bit(b.checkDisable) && GetBits(w, 27, 2) == b.doorbellOffset
  {
    var f := DoorbellFields(b);
    SmallPowers();
    hide Pow2, Pack, GetBits;
    assert Offset(f, 1) == 1;
    assert Offset(f, 2) == 2;
    assert Offset(f, 3) == 28;
    assert Offset(f, 4) == 32;
    hide Offset;
    PackedWord(f);
    hide AllFit;
    var w := Pack(f);
    FieldOf(f, 1, w);
    FieldOf(f, 2, w);
  }

  function EncodeMapProcess(b: MapProcess): (words: seq<Word32>)
    requires MapProcessFits(b)
    ensures |words| == 20
  {
    ProcessWord(b);
    ResourceWord(b);
    [Pack(ProcessFields(b)),
     b.vmContextPageTableBaseAddrLo32, b.vmContextPageTableBaseAddrHi32,
     b.shMemBases, b.shMemConfig,
     b.sqShaderTbaLo, b.sqShaderTbaHi, b.sqShaderTmaLo, b.sqShaderTmaHi,
     0,
     b.gdsAddrLo, b.gdsAddrHi,
     Pack(ResourceFields(b)),
     b.spiGdbgPerVmidCntl, b.tcpWatch0Cntl, b.tcpWatch1Cntl, b.tcpWatch2Cntl, b.tcpWatch3Cntl,
     b.completionSignalLo32, b.completionSignalHi32]
  }

  function EncodeMapQueues(b: MapQueues): (words: seq<Word32>)
    requires MapQueuesFits(b)
    ensures |words| == 6
  {
    QueueWord(b);
    DoorbellWord(b);
    [Pack(QueueFields(b)), Pack(DoorbellFields(b)), b.mqdAddrLo, b.mqdAddrHi, b.wptrAddrLo, b.wptrAddrHi]
  }

  /** The buffer holds `words` at the span. */
  predicate HoldsAt(b: Span, words: seq<Word32>) {
    b.Readable(|words|) && forall i | 0 <= i < |words| :: b.buffer[b.start + i] == words[i]
  }

  lemma MapProcessWords(b: MapProcess, body: Span)
    requires MapProcessFits(b) && HoldsAt(body, EncodeMapProcess(b))
    ensures body.Readable(20)
    ensures body.At(0) == Pack(ProcessFields(b))
    ensures GetBits(body.At(1), 31, 0) == b.vmContextPageTableBaseAddrLo32
    ensures GetBits(body.At(2), 31, 0) == b.vmContextPageTableBaseAddrHi32
    ensures GetBits(body.At(3), 31, 0) == b.shMemBases
    ensures GetBits(body.At(4), 31, 0) == b.shMemConfig
    ensures GetBits(body.At(5), 31, 0) == b.sqShaderTbaLo
    ensures GetBits(body.At(6), 31, 0) == b.sqShaderTbaHi
    ensures GetBits(body.At(7), 31, 0) == b.sqShaderTmaLo
    ensures GetBits(body.At(8), 31, 0) == b.sqShaderTmaHi
    ensures GetBits(body.At(10), 31, 0) == b.gdsAddrLo
    ensures GetBits(body.At(11), 31, 0) == b.gdsAddrHi
    ensures body.At(12) == Pack(ResourceFields(b))
    ensures GetBits(body.At(13), 31, 0) == b.spiGdbgPerVmidCntl
    ensures GetBits(body.At(14), 31, 0) == b.tcpWatch0Cntl
    ensures GetBits(body.At(15), 31, 0) == b.tcpWatch1Cntl
    ensures GetBits(body.At(16), 31, 0) == b.tcpWatch2Cntl
    ensures GetBits(body.At(17), 31, 0) == b.tcpWatch3Cntl
    ensures GetBits(body.At(18), 31, 0) == b.completionSignalLo32
    ensures GetBits(body.At(19), 31, 0) == b.completionSignalHi32
  {
    hide GetBits, Pack, AllFit, ProcessFields, ResourceFields;
    var words := EncodeMapProcess(b);
    forall i | 0 <= i < 20 ensures body.At(i) == words[i] && GetBits(words[i], 31, 0) == words[i] {
      WholeWord(words[i]);
    }
  }

  lemma MapQueuesWords(b: MapQueues, body: Span)
    requires MapQueuesFits(b) && HoldsAt(body, EncodeMapQueues(b))
    ensures body.Readable(6)
    ensures body.At(0) == Pack(QueueFields(b))
    ensures body.At(1) == Pack(DoorbellFields(b))
    ensures GetBits(body.At(2), 31, 0) == b.mqdAddrLo
    ensures GetBits(body.At(3), 31, 0) == b.mqdAddrHi
    ensures GetBits(body.At(4), 31, 0) == b.wptrAddrLo
    ensures GetBits(body.At(5), 31, 0) == b.wptrAddrHi
  {
    hide GetBits, Pack, AllFit, QueueFields, DoorbellFields;
    var words := EncodeMapQueues(b);
    forall i | 0 <= i < 6 ensures body.At(i) == words[i] && GetBits(words[i], 31, 0) == words[i] {
      WholeWord(words[i]);
    }
  }

  /** A map-process body is decoded as it was encoded, except that sdma_enable also reads the bits
      of num_gws. */
  lemma MapProcessDecodes(b: MapProcess, body: Span)
    requires MapProcessFits(b) && HoldsAt(body, EncodeMapProcess(b))
    ensures body.Readable(20)
    ensures ParseBodyMapProcess(body) == b.(sdmaEnable := b.sdmaEnable || b.numGws != 0)
  {
    MapProcessWords(b, body);
    ProcessWord(b);
    ResourceWord(b);
    hide GetBits, Pack, AllFit, ProcessFields, ResourceFields, MapProcessFits, HoldsAt, EncodeMapProcess;
  }

  lemma MapQueuesDecodes(b: MapQueues, body: Span)
    requires MapQueuesFits(b) && HoldsAt(body, EncodeMapQueues(b))
    ensures body.Readable(6)
    ensures ParseBodyMapQueues(body) == b
  {
    MapQueuesWords(b, body);
    QueueWord(b);
    DoorbellWord(b);
    hide GetBits, Pack, AllFit, QueueFields, DoorbellFields, MapQueuesFits, HoldsAt, EncodeMapQueues;
  }

  // ------------------------------------------------------------------ packets

  /** A packet to encode: its body may be followed by dwords the decoder ignores. */
  datatype Packet = Packet(packetType: nat, body: Body, padding: seq<Word32>)

  function BodyOpcode(b: Body): nat {
    if b.Process? then MAP_PROCESS else MAP_QUEUES
  }

  function HeaderOf(p: Packet): Header {
    Header(BodyOpcode(p.body), BodyNeeds(BodyOpcode(p.body)) + |p.padding|, p.packetType)
  }

  predicate PacketFits(p: Packet) {
    && HeaderFits(HeaderOf(p))
    && (match p.body
        case Process(b) => MapProcessFits(b)
        case Queues(b) => MapQueuesFits(b))
  }

  predicate AllPacketsFit(ps: seq<Packet>) {
    forall p | p in ps :: PacketFits(p)
  }

  function EncodeBody(b: Body): (words: seq<Word32>)
    requires match b case Process(m) => MapProcessFits(m) case Queues(m) => MapQueuesFits(m)
    ensures |words| == BodyNeeds(BodyOpcode(b))
  {
    match b
    case Process(m) => EncodeMapProcess(m)
    case Queues(m) => EncodeMapQueues(m)
  }

  function EncodePacket(p: Packet): seq<Word32>
    requires PacketFits(p)
  {
    [EncodeHeader(HeaderOf(p))] + EncodeBody(p.body) + p.padding
  }

  function EncodeAll(ps: seq<Packet>): seq<Word32>
    requires AllPacketsFit(ps)
  {
    if ps == [] then [] else EncodePacket(ps[0]) + EncodeAll(ps[1..])
  }

  /** What the decoder makes of a body. */
  function AsDecoded(b: Body): Body {
    match b
    case Process(m) => Process(m.(sdmaEnable := m.sdmaEnable || m.numGws != 0))
    case Queues(_) => b
  }

  function EntryOf(p: Packet): Entry {
    Entry(HeaderOf(p), AsDecoded(p.body))
  }

  function EntriesOf(ps: seq<Packet>): seq<Entry> {
    if ps == [] then [] else [EntryOf(ps[0])] + EntriesOf(ps[1..])
  }

  function DecodeBody(opcode: nat, body: Span): Body
    requires body.Readable(BodyNeeds(opcode)) && (opcode == MAP_PROCESS || opcode == MAP_QUEUES)
  {
    if opcode == MAP_PROCESS then Process(ParseBodyMapProcess(body)) else Queues(ParseBodyMapQueues(body))
  }

  lemma BodyRoundTrip(b: Body, body: Span)
    requires match b case Process(m) => MapProcessFits(m) case Queues(m) => MapQueuesFits(m)
    requires HoldsAt(body, EncodeBody(b))
    ensures body.Readable(BodyNeeds(BodyOpcode(b)))
    ensures DecodeBody(BodyOpcode(b), body) == AsDecoded(b)
  {
    hide HoldsAt, ParseBodyMapProcess, ParseBodyMapQueues, EncodeMapProcess, EncodeMapQueues;
    match b {
      case Process(m) => MapProcessDecodes(m, body);
      case Queues(m) => MapQueuesDecodes(m, body);
    }
  }

  predicate PlacedAt(p: Packet, words: seq<Word32>, start: nat)
    requires PacketFits(p)
  {
    start + |EncodePacket(p)| <= |words| && words[start..start + |EncodePacket(p)|] == EncodePacket(p)
  }

  lemma PlacedParts(p: Packet, words: seq<Word32>, start: nat)
    requires PacketFits(p) && PlacedAt(p, words, start)
    ensures |EncodePacket(p)| == HeaderOf(p).count + 1
    ensures words[start] == EncodeHeader(HeaderOf(p))
    ensures HoldsAt(Span(words, start + 1, HeaderOf(p).count), EncodeBody(p.body))
  {
    hide EncodeHeader, EncodeBody;
    var encoded := EncodePacket(p);
    assert words[start..start + |encoded|][0] == encoded[0];
    forall i | 0 <= i < |EncodeBody(p.body)|
      ensures words[start + 1 + i] == EncodeBody(p.body)[i]
    {
      assert words[start..start + |encoded|][1 + i] == encoded[1 + i];
    }
  }

  lemma FrameParses(words: seq<Word32>, start: nat, h: Header)
    requires start + 1 + h.count <= |words| && BodyNeeds(h.opcode) <= h.count && h.packetType <= 2
    requires h.opcode == MAP_PROCESS || h.opcode == MAP_QUEUES
    requires Opcode(words[start]) == h.opcode && BodyCount(words[start]) == h.count
    requires TypeBits(words[start]) == h.packetType + 1
    ensures FrameSize(words[start]) == h.count + 1
    ensures ParseRunlistEntry(Span(words, start, h.count + 1))
            == Parsed(Entry(h, DecodeBody(h.opcode, Span(words, start + 1, h.count))))
  {
    hide ParseBodyMapProcess, ParseBodyMapQueues, Opcode, TypeBits, BodyCount;
    MinusFits(h.packetType + 1, 1);
    var data := Span(words, start, h.count + 1);
    assert data.Subspan(1, h.count) == Span(words, start + 1, h.count);
    hide Minus;
  }

  /** A packet anywhere in a buffer is decoded to its header and body. */
  lemma PacketRoundTrip(p: Packet, words: seq<Word32>, start: nat)
    requires PacketFits(p) && PlacedAt(p, words, start)
    ensures FrameSize(words[start]) == |EncodePacket(p)|
    ensures ParseRunlistEntry(Span(words, start, |EncodePacket(p)|)) == Parsed(EntryOf(p))
  {
    PlacedParts(p, words, start);
    hide EncodePacket, EncodeHeader, EncodeBody, HoldsAt, AsDecoded, ParseRunlistEntry, FrameSize;
    hide ParseBodyMapProcess, ParseBodyMapQueues, MapProcessFits, MapQueuesFits;
    HeaderRoundTrip(HeaderOf(p));
    hide Opcode, BodyCount, TypeBits;
    FrameParses(words, start, HeaderOf(p));
    BodyRoundTrip(p.body, Span(words, start + 1, HeaderOf(p).count));
  }

  lemma {:induction false} EntriesRoundTrip(ps: seq<Packet>, words: seq<Word32>, start: nat)
    requires AllPacketsFit(ps) && start <= |words| && words[start..] == EncodeAll(ps)
    ensures FramesEnd(words, start) == |words|
    ensures EntriesFrom(words, start) == Parsed(EntriesOf(ps))
    decreases |ps|
  {
    hide PacketFits, EncodePacket, EntryOf, FrameSize, ParseRunlistEntry;
    if ps != [] {
      var size := |EncodePacket(ps[0])|;
      assert words[start..][..size] == EncodePacket(ps[0]);
      assert words[start..][size..] == EncodeAll(ps[1..]);
      assert words[start..start + size] == EncodePacket(ps[0]);
      assert words[start + size..] == EncodeAll(ps[1..]);
      EncodedNotEmpty(ps[0]);
      PacketRoundTrip(ps[0], words, start);
      EntriesRoundTrip(ps[1..], words, start + size);
    }
  }

  lemma EncodedNotEmpty(p: Packet)
    requires PacketFits(p)
    ensures |EncodePacket(p)| > 0
  {}

  /** Decoding the concatenated encodings of packets gives their headers and bodies. */
  lemma EncodingsParse(ps: seq<Packet>)
    requires ps != [] && AllPacketsFit(ps)
    ensures ParseEntries(EncodeAll(ps)) == Parsed(EntriesOf(ps))
  {
    hide EncodePacket, PacketFits;
    EncodedNotEmpty(ps[0]);
    EntriesRoundTrip(ps, EncodeAll(ps), 0);
  }

  /** sdma_enable was set, or num_gws, with which it is decoded, is zero. */
  predicate Recoverable(b: Body) {
    b.Process? ==> b.mapProcess.sdmaEnable || b.mapProcess.numGws == 0
  }

  /** The packets themselves, as entries. */
  function Originals(ps: seq<Packet>): seq<Entry> {
    if ps == [] then [] else [Entry(HeaderOf(ps[0]), ps[0].body)] + Originals(ps[1..])
  }

  lemma {:induction false} OriginalsIff(ps: seq<Packet>)
    ensures EntriesOf(ps) == Originals(ps) <==> forall p | p in ps :: Recoverable(p.body)
  {
    hide HeaderOf, Recoverable, AsDecoded;
    if ps != [] {
      OriginalsIff(ps[1..]);
      RecoveredIff(ps[0].body);
      assert EntriesOf(ps)[0] == EntryOf(ps[0]) && EntriesOf(ps)[1..] == EntriesOf(ps[1..]);
      assert Originals(ps)[0].body == ps[0].body && Originals(ps)[1..] == Originals(ps[1..]);
    }
  }

  lemma RecoveredIff(b: Body)
    ensures AsDecoded(b) == b <==> Recoverable(b)
  {}

  /** Decoding recovers the packets exactly when each of them is recoverable: the decoder reads
      sdma_enable from the bits of num_gws as well. */
  lemma RoundTripIff(ps: seq<Packet>)
    requires ps != [] && AllPacketsFit(ps)
    ensures ParseEntries(EncodeAll(ps)) == Parsed(Originals(ps)) <==> forall p | p in ps :: Recoverable(p.body)
  {
    hide ParseEntries, EncodeAll, EntriesOf, Originals, PacketFits, Recoverable;
    EncodingsParse(ps);
    OriginalsIff(ps);
  }

  /** A MAP_PROCESS body of zeros, but for num_gws. */
  const ONE_GWS: MapProcess := MapProcess(
    false, false, false, false, false,
    0, 0, 0, 0, 0, 0, 0, 0, 0, 0, 0, 0, 0, 1, 0, 0, 0, 0, 0, 0, 0, 0, 0, 0, 0)

  /** With one GWS and SDMA disabled, the packet is decoded as enabling SDMA. */
  lemma SdmaReadFromGws()
    ensures var ps := [Packet(2, Process(ONE_GWS), [])];
            && AllPacketsFit(ps)
            && !ONE_GWS.sdmaEnable && ONE_GWS.numGws == 1
            && ParseEntries(EncodeAll(ps)) == Parsed([Entry(HeaderOf(ps[0]), Process(ONE_GWS.(sdmaEnable := true)))])
            && ParseEntries(EncodeAll(ps)) != Parsed(Originals(ps))
  {
    hide ParseEntries, EncodeAll, HeaderOf;
    var p := Packet(2, Process(ONE_GWS), []);
    OnePacketFits();
    assert EntriesOf([p]) == [EntryOf(p)] && Originals([p]) == [Entry(HeaderOf(p), p.body)];
    EncodingsParse([p]);
  }

  lemma OnePacketFits()
    ensures PacketFits(Packet(2, Process(ONE_GWS), []))
  {}
}
