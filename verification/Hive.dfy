/** XGMI hive addresses: which node and which local offset a hive-wide address denotes. */
module Hive {
  import opened Words
  import opened Options

  const GIB: Word := 0x4000_0000

  // ------------------------------------------------------------ specification

  /** The room a node takes in the hive address space. */
  function RoundUp(size: nat): nat {
    (size + GIB - 1) / GIB * GIB
  }

  /** Where node n starts. */
  function Base(sizes: seq<Word>, n: nat): nat
    requires n <= |sizes|
  {
    if n == 0 then 0 else Base(sizes, n - 1) + RoundUp(sizes[n - 1])
  }

  datatype Decoded = At(node: nat, offset: Word) | OutOfRange

  /** Address `a` is offset `offset` in node n. */
  predicate Denotes(sizes: seq<Word>, a: nat, n: nat, offset: nat) {
    n < |sizes| && offset < sizes[n] && a == Base(sizes, n) + offset
  }

  // ----------------------------------------------------------------- decoding

  /** The bytes the loop subtracts for a node, in 64 bits. */
  function Skipped(size: Word): Word {
    Times(GIB, Minus(Plus(size, GIB), 1) / GIB)
  }

  /** The loop from node n, with the address that is left. */
  function DecodeFrom(sizes: seq<Word>, n: nat, address: Word): Decoded
    requires n <= |sizes|
    decreases |sizes| - n
  {
    if n == |sizes| then OutOfRange
    else if address < sizes[n] then At(n, address)
    else DecodeFrom(sizes, n + 1, Minus(address, Skipped(sizes[n])))
  }

  /** Rounding up gives the least multiple of 2^30 that is not below the size. */
  lemma RoundUpToGib(size: nat, multiple: nat)
    ensures RoundUp(size) % 0x4000_0000 == 0 && size <= RoundUp(size)
    ensures size <= multiple && multiple % 0x4000_0000 == 0 ==> RoundUp(size) <= multiple
  {
    RoundUpBounds(size);
    hide RoundUp;
    DivModUnique(RoundUp(size), 0x4000_0000, (size + GIB - 1) / GIB, 0);
  }

  lemma SkippedIsRoundUp(size: Word)
    requires RoundUp(size) < TWO64
    ensures Skipped(size) == RoundUp(size)
    ensures size <= RoundUp(size) < size + GIB
  {
    RoundUpBounds(size);
    var k := (size + GIB - 1) / GIB;
    hide Plus, Minus, Times, RoundUp;
    LastByteFits(size);
    TimesFits(GIB, k);
  }

  /** The sum that is rounded may wrap to zero, and taking one wraps it back. */
  lemma LastByteFits(size: Word)
    requires size + GIB <= TWO64
    ensures Minus(Plus(size, GIB), 1) == size + GIB - 1
  {}

  lemma RoundUpBounds(size: nat)
    ensures size <= RoundUp(size) < size + GIB && RoundUp(size) == GIB * ((size + GIB - 1) / GIB)
    ensures RoundUp(size) < TWO64 ==> size + GIB <= TWO64
  {
    DivMod(size + GIB - 1, GIB);
  }

  lemma {:induction false} BaseMonotone(sizes: seq<Word>, n: nat, m: nat)
    requires n <= m <= |sizes|
    ensures Base(sizes, n) <= Base(sizes, m)
    ensures n < m ==> Base(sizes, n) + RoundUp(sizes[n]) <= Base(sizes, m)
    decreases m
  {
    if n < m {
      BaseMonotone(sizes, n, m - 1);
    }
  }

  lemma BaseStep(sizes: seq<Word>, n: nat)
    requires n < |sizes|
    ensures Base(sizes, n + 1) == Base(sizes, n) + RoundUp(sizes[n])
  {}

  lemma DecodeStep(sizes: seq<Word>, n: nat, address: Word)
    requires n < |sizes|
    ensures DecodeFrom(sizes, n, address)
            == if address < sizes[n] then At(n, address)
               else DecodeFrom(sizes, n + 1, Minus(address, Skipped(sizes[n])))
  {}

  /** No node from n on holds the address. */
  ghost predicate Lost(sizes: seq<Word>, n: nat, a: nat) {
    forall m: nat, offset: nat :: n <= m ==> !Denotes(sizes, a, m, offset)
  }

  /** An address past node n, or in its hole, is not found at n; in the hole it is found nowhere. */
  lemma LostFrom(sizes: seq<Word>, n: nat, a: nat)
    requires n < |sizes| && Base(sizes, n) + sizes[n] <= a
    requires Lost(sizes, n + 1, a) || a < Base(sizes, n) + RoundUp(sizes[n])
    ensures Lost(sizes, n, a)
  {
    hide RoundUp;
    forall m: nat, offset: nat | n <= m ensures !Denotes(sizes, a, m, offset) {
      if n < m && Denotes(sizes, a, m, offset) {
        BaseMonotone(sizes, n, m);
      }
    }
  }

  /** While the address is still at or above the node's start, the loop finds what it denotes. */
  lemma {:induction false} DecodeFinds(sizes: seq<Word>, n: nat, a: nat)
    requires Base(sizes, |sizes|) < TWO64 && n <= |sizes| && Base(sizes, n) <= a < TWO64
    ensures match DecodeFrom(sizes, n, a - Base(sizes, n))
            case At(m, offset) => Denotes(sizes, a, m, offset)
            case OutOfRange => Lost(sizes, n, a)
    decreases |sizes| - n
  {
    hide RoundUp, Skipped, Minus, Base;
    if n < |sizes| {
      BaseMonotone(sizes, n + 1, |sizes|);
      BaseStep(sizes, n);
      SkippedIsRoundUp(sizes[n]);
      var left := a - Base(sizes, n);
      DecodeStep(sizes, n, left);
      hide DecodeFrom, Lost;
      if sizes[n] <= left {
        if RoundUp(sizes[n]) <= left {
          MinusFits(left, RoundUp(sizes[n]));
          DecodeFinds(sizes, n + 1, a);
          if Lost(sizes, n + 1, a) {
            LostFrom(sizes, n, a);
          }
        } else {
          MinusWraps(left, RoundUp(sizes[n]));
          HoleIsLost(sizes, n + 1, a);
          LostFrom(sizes, n, a);
        }
      }
    }
  }

  /** An address below the node's start, as one in a rounding hole becomes, has wrapped to the top
      of the address space and matches no later node. */
  lemma {:induction false} HoleIsLost(sizes: seq<Word>, n: nat, a: nat)
    requires Base(sizes, |sizes|) < TWO64 && n <= |sizes| && a < Base(sizes, n) < TWO64
    ensures DecodeFrom(sizes, n, a - Base(sizes, n) + TWO64) == OutOfRange
    decreases |sizes| - n
  {
    hide RoundUp, Skipped, Minus, Base;
    if n < |sizes| {
      BaseMonotone(sizes, n + 1, |sizes|);
      BaseStep(sizes, n);
      SkippedIsRoundUp(sizes[n]);
      var left: Word := a - Base(sizes, n) + TWO64;
      DecodeStep(sizes, n, left);
      hide DecodeFrom;
      MinusFits(left, RoundUp(sizes[n]));
      HoleIsLost(sizes, n + 1, a);
    }
  }

  lemma DenotesOnce(sizes: seq<Word>, a: nat, n: nat, offset: nat, m: nat, offset': nat)
    requires Base(sizes, |sizes|) < TWO64
    requires Denotes(sizes, a, n, offset) && Denotes(sizes, a, m, offset')
    ensures n == m && offset == offset'
  {
    hide RoundUp, Skipped, Base;
    BaseStep(sizes, n);
    BaseStep(sizes, m);
    BaseMonotone(sizes, n + 1, |sizes|);
    BaseMonotone(sizes, m + 1, |sizes|);
    SkippedIsRoundUp(sizes[n]);
    SkippedIsRoundUp(sizes[m]);
    if n < m {
      BaseMonotone(sizes, n, m);
    } else if m < n {
      BaseMonotone(sizes, m, n);
    }
  }

  /** Hive decoding is a bijection between the addresses that lie inside some node and the pairs
      of a node and an offset inside it; every other address is out of range. */
  lemma DecodeIff(sizes: seq<Word>, a: Word, n: nat, offset: Word)
    requires Base(sizes, |sizes|) < TWO64
    ensures DecodeFrom(sizes, 0, a) == At(n, offset) <==> Denotes(sizes, a, n, offset)
  {
    DecodeFinds(sizes, 0, a);
    hide DecodeFrom;
    if DecodeFrom(sizes, 0, a).At? && Denotes(sizes, a, n, offset) {
      DenotesOnce(sizes, a, n, offset, DecodeFrom(sizes, 0, a).node, DecodeFrom(sizes, 0, a).offset);
    }
  }

  /** Every pair is the decoding of an address. */
  lemma EveryPairDecoded(sizes: seq<Word>, n: nat, offset: Word)
    requires Base(sizes, |sizes|) < TWO64 && n < |sizes| && offset < sizes[n]
    ensures 0 <= Base(sizes, n) + offset < TWO64
    ensures DecodeFrom(sizes, 0, Base(sizes, n) + offset) == At(n, offset)
  {
    BaseMonotone(sizes, n + 1, |sizes|);
    SkippedIsRoundUp(sizes[n]);
    hide RoundUp, Skipped;
    DecodeIff(sizes, Base(sizes, n) + offset, n, offset);
  }

  // ------------------------------------------------------------ reads and writes

  datatype HiveNode = HiveNode(vramBytes: Word, cardName: string, deviceId: Word)

  /** One partition of the engine, as far as VRAM accesses look at it; without a debugfs directory
      it may not access VRAM. */
  datatype Partition = Partition(cardName: string, deviceId: Word, hiveId: Word, directory: Option<string>)

  /** The partition whose VRAM is accessed and the address there, or out of range. */
  datatype Target = Vram(partition: nat, address: Word) | Unreachable

  function Sizes(hive: seq<HiveNode>): (sizes: seq<Word>)
    ensures |sizes| == |hive| && forall i | 0 <= i < |hive| :: sizes[i] == hive[i].vramBytes
  {
    seq(|hive|, i requires 0 <= i < |hive| => hive[i].vramBytes)
  }

  predicate IsFirstWith(partitions: seq<Partition>, deviceId: Word, p: nat) {
    p < |partitions| && partitions[p].deviceId == deviceId
    && forall q | 0 <= q < p :: partitions[q].deviceId != deviceId
  }

  /** The first partition of a device at or after partition i. */
  function FirstFrom(partitions: seq<Partition>, deviceId: Word, i: nat): (p: Option<nat>)
    requires i <= |partitions|
    ensures p.Some? ==> i <= p.value < |partitions| && partitions[p.value].deviceId == deviceId
    ensures forall q | i <= q < (if p.Some? then p.value else |partitions|) :: partitions[q].deviceId != deviceId
    decreases |partitions| - i
  {
    if i == |partitions| then None
    else if partitions[i].deviceId == deviceId then Some(i)
    else FirstFrom(partitions, deviceId, i + 1)
  }

  method FindPartition(partitions: seq<Partition>, deviceId: Word) returns (p: Option<nat>)
    ensures p == FirstFrom(partitions, deviceId, 0)
  {
    for i := 0 to |partitions|
      invariant FirstFrom(partitions, deviceId, 0) == FirstFrom(partitions, deviceId, i)
    {
      if partitions[i].deviceId == deviceId {
        return Some(i);
      }
    }
    return None;
  }

  /** What an access at a local offset of a device reaches: its first partition. */
  function Searched(partitions: seq<Partition>, deviceId: Word, offset: Word): (target: Target)
    ensures target.Vram? ==> target.partition < |partitions|
  {
    match FirstFrom(partitions, deviceId, 0)
    case Some(p) => Vram(p, offset)
    case None => Unreachable
  }

  /** What a write by partition `self` reaches. */
  function WriteTarget(partitions: seq<Partition>, self: nat, hive: seq<HiveNode>, address: Word): (target: Target)
    requires self < |partitions|
    ensures target.Vram? ==> target.partition < |partitions|
  {
    if partitions[self].hiveId == 0 then Vram(self, address)
    else
      DecodedInRange(Sizes(hive), 0, address);
      match DecodeFrom(Sizes(hive), 0, address)
      case At(n, offset) => Searched(partitions, hive[n].deviceId, offset)
      case OutOfRange => Unreachable
  }

  /** The address lies on the card of partition `self`. */
  predicate OnOwnCard(partitions: seq<Partition>, self: nat, hive: seq<HiveNode>, address: Word)
    requires self < |partitions|
  {
    DecodedInRange(Sizes(hive), 0, address);
    var d := DecodeFrom(Sizes(hive), 0, address);
    d.At? && hive[d.node].cardName == partitions[self].cardName
  }

  /** Partition `self` is the first one of the device the address is on. */
  predicate FirstOfAddressed(partitions: seq<Partition>, self: nat, hive: seq<HiveNode>, address: Word) {
    DecodedInRange(Sizes(hive), 0, address);
    var d := DecodeFrom(Sizes(hive), 0, address);
    d.At? && IsFirstWith(partitions, hive[d.node].deviceId, self)
  }

  /** What a read by partition `self` reaches: its own card directly, any other by a search. */
  function ReadTarget(partitions: seq<Partition>, self: nat, hive: seq<HiveNode>, address: Word): (target: Target)
    requires self < |partitions|
    ensures target.Vram? ==> target.partition < |partitions|
  {
    if partitions[self].hiveId != 0 && OnOwnCard(partitions, self, hive, address)
    then Vram(self, DecodeFrom(Sizes(hive), 0, address).offset)
    else WriteTarget(partitions, self, hive, address)
  }

  lemma {:induction false} DecodedInRange(sizes: seq<Word>, n: nat, address: Word)
    requires n <= |sizes|
    ensures DecodeFrom(sizes, n, address).At? ==>
              && n <= DecodeFrom(sizes, n, address).node < |sizes|
              && DecodeFrom(sizes, n, address).offset < sizes[DecodeFrom(sizes, n, address).node]
    decreases |sizes| - n
  {
    hide Minus, Skipped;
    if n < |sizes| {
      DecodedInRange(sizes, n + 1, Minus(address, Skipped(sizes[n])));
    }
  }

  // ------------------------------------------------------------ files

  /** What an access comes to: an offset of the VRAM file in a directory; an error; or the use of a
      partition that has no directory. */
  datatype Access = InFile(directory: string, offset: Word) | NotPrivileged | OutOfRangeError | NullPointer

  /** An access through the directory of partition p. */
  function InVram(partitions: seq<Partition>, p: nat, offset: Word): Access
    requires p < |partitions|
  {
    if partitions[p].directory.Some? then InFile(partitions[p].directory.value, offset) else NullPointer
  }

  function ThroughTarget(partitions: seq<Partition>, self: nat, target: Target): Access
    requires self < |partitions| && (target.Vram? ==> target.partition < |partitions|)
  {
    if partitions[self].directory.None? then NotPrivileged
    else
      match target
      case Vram(p, offset) => InVram(partitions, p, offset)
      case Unreachable => OutOfRangeError
  }

  function ReadAccess(partitions: seq<Partition>, self: nat, hive: seq<HiveNode>, address: Word): Access
    requires self < |partitions|
  {
    ThroughTarget(partitions, self, ReadTarget(partitions, self, hive, address))
  }

  function WriteAccess(partitions: seq<Partition>, self: nat, hive: seq<HiveNode>, address: Word): Access
    requires self < |partitions|
  {
    ThroughTarget(partitions, self, WriteTarget(partitions, self, hive, address))
  }

  /** A read by partition `self`. */
  method ReadVram(partitions: seq<Partition>, self: nat, hive: seq<HiveNode>, address: Word)
    returns (access: Access)
    requires self < |partitions|
    ensures access == ReadAccess(partitions, self, hive, address)
  {
    hide Skipped;
    if partitions[self].directory.None? {
      return NotPrivileged;
    }
    if partitions[self].hiveId == 0 {
      return InVram(partitions, self, address);
    }
    var left := address;
    DecodedInRange(Sizes(hive), 0, address);
    for n := 0 to |hive|
      invariant DecodeFrom(Sizes(hive), n, left) == DecodeFrom(Sizes(hive), 0, address)
    {
      var vramSize := hive[n].vramBytes;
      if left < vramSize {
        if hive[n].cardName == partitions[self].cardName {
          return InVram(partitions, self, left);
        }
        var p := FindPartition(partitions, hive[n].deviceId);
        return if p.Some? then InVram(partitions, p.value, left) else OutOfRangeError;
      }
      left := Minus(left, Skipped(vramSize));
    }
    return OutOfRangeError;
  }

  /** A write by partition `self`. */
  method WriteVram(partitions: seq<Partition>, self: nat, hive: seq<HiveNode>, address: Word)
    returns (access: Access)
    requires self < |partitions|
    ensures access == WriteAccess(partitions, self, hive, address)
  {
    hide Skipped;
    if partitions[self].directory.None? {
      return NotPrivileged;
    }
    if partitions[self].hiveId == 0 {
      return InVram(partitions, self, address);
    }
    var left := address;
    DecodedInRange(Sizes(hive), 0, address);
    for n := 0 to |hive|
      invariant DecodeFrom(Sizes(hive), n, left) == DecodeFrom(Sizes(hive), 0, address)
    {
      var vramSize := hive[n].vramBytes;
      if left < vramSize {
        var p := FindPartition(partitions, hive[n].deviceId);
        return if p.Some? then InVram(partitions, p.value, left) else OutOfRangeError;
      }
      left := Minus(left, Skipped(vramSize));
    }
    return OutOfRangeError;
  }

  // ------------------------------------------------- what reads and writes mean

  /** An access by partition `self` at `address` means `offset` in partition p: outside a hive the
      address in itself; in a hive an offset in a node that the address denotes and p answers for. */
  predicate Means(
    partitions: seq<Partition>, self: nat, hive: seq<HiveNode>, address: Word, read: bool, n: nat, p: nat, offset: nat)
    requires self < |partitions|
  {
    if partitions[self].hiveId == 0 then p == self && offset == address
    else Denotes(Sizes(hive), address, n, offset) && (if read then Answers(partitions, self, hive[n], p)
                                                      else IsFirstWith(partitions, hive[n].deviceId, p))
  }

  /** A read reaches offset `offset` of a partition exactly when that is what its address means. */
  lemma {:induction false} ReadReachesIff(
    partitions: seq<Partition>, self: nat, hive: seq<HiveNode>, address: Word, p: nat, offset: Word)
    requires self < |partitions| && Base(Sizes(hive), |hive|) < TWO64
    ensures ReadTarget(partitions, self, hive, address) == Vram(p, offset)
            <==> exists n: nat :: Means(partitions, self, hive, address, true, n, p, offset)
  {
    hide DecodeFrom, Denotes, Base;
    DecodedInRange(Sizes(hive), 0, address);
    var d := DecodeFrom(Sizes(hive), 0, address);
    if partitions[self].hiveId == 0 {
      assert Means(partitions, self, hive, address, true, 0, p, offset) <==> p == self && offset == address;
    } else {
      if d.At? {
        DecodeIff(Sizes(hive), address, d.node, d.offset);
        FirstIff(partitions, hive[d.node].deviceId, p);
        assert Means(partitions, self, hive, address, true, d.node, p, d.offset)
               <==> Answers(partitions, self, hive[d.node], p);
      }
      forall n: nat | Denotes(Sizes(hive), address, n, offset) ensures d == At(n, offset) && n < |hive| {
        DecodeIff(Sizes(hive), address, n, offset);
      }
    }
  }

  /** So does a write, for which only the first partition of a device answers. */
  lemma {:induction false} WriteReachesIff(
    partitions: seq<Partition>, self: nat, hive: seq<HiveNode>, address: Word, p: nat, offset: Word)
    requires self < |partitions| && Base(Sizes(hive), |hive|) < TWO64
    ensures WriteTarget(partitions, self, hive, address) == Vram(p, offset)
            <==> exists n: nat :: Means(partitions, self, hive, address, false, n, p, offset)
  {
    hide DecodeFrom, Denotes, Base;
    DecodedInRange(Sizes(hive), 0, address);
    var d := DecodeFrom(Sizes(hive), 0, address);
    if partitions[self].hiveId == 0 {
      assert Means(partitions, self, hive, address, false, 0, p, offset) <==> p == self && offset == address;
    } else {
      if d.At? {
        DecodeIff(Sizes(hive), address, d.node, d.offset);
        FirstIff(partitions, hive[d.node].deviceId, p);
        assert Means(partitions, self, hive, address, false, d.node, p, d.offset)
               <==> IsFirstWith(partitions, hive[d.node].deviceId, p);
      }
      forall n: nat | Denotes(Sizes(hive), address, n, offset) ensures d == At(n, offset) && n < |hive| {
        DecodeIff(Sizes(hive), address, n, offset);
      }
    }
  }

  /** Outside a hive both go to the address itself in the own file. */
  lemma OutsideHive(partitions: seq<Partition>, self: nat, hive: seq<HiveNode>, address: Word)
    requires self < |partitions| && partitions[self].hiveId == 0 && partitions[self].directory.Some?
    ensures ReadAccess(partitions, self, hive, address) == WriteAccess(partitions, self, hive, address)
            == InFile(partitions[self].directory.value, address)
  {}

  /** What an access comes to, for every outcome: without a directory it is refused; otherwise it goes
      to the offset its address means, in the file of the partition that answers, if that has one; and
      if the address means nothing it is out of range. */
  lemma {:induction false} AccessIff(partitions: seq<Partition>, self: nat, hive: seq<HiveNode>, address: Word, read: bool)
    requires self < |partitions| && Base(Sizes(hive), |hive|) < TWO64
    ensures var access := if read then ReadAccess(partitions, self, hive, address)
                          else WriteAccess(partitions, self, hive, address);
            if partitions[self].directory == None then access == NotPrivileged
            else match access
                 case InFile(directory, offset) =>
                   exists n: nat, p: nat ::
                     && Means(partitions, self, hive, address, read, n, p, offset)
                     && p < |partitions| && partitions[p].directory == Some(directory)
                 case NullPointer =>
                   exists n: nat, p: nat, offset: Word ::
                     && Means(partitions, self, hive, address, read, n, p, offset)
                     && p < |partitions| && partitions[p].directory == None
                 case OutOfRangeError =>
                   forall n: nat, p: nat, offset: Word :: !Means(partitions, self, hive, address, read, n, p, offset)
                 case NotPrivileged => false
  {
    hide ReadTarget, WriteTarget, Means, Base;
    var target := if read then ReadTarget(partitions, self, hive, address)
                  else WriteTarget(partitions, self, hive, address);
    if target.Vram? {
      ReadReachesIff(partitions, self, hive, address, target.partition, target.address);
      WriteReachesIff(partitions, self, hive, address, target.partition, target.address);
    }
    forall n: nat, p: nat, offset: Word | Means(partitions, self, hive, address, read, n, p, offset)
      ensures target == Vram(p, offset)
    {
      ReadReachesIff(partitions, self, hive, address, p, offset);
      WriteReachesIff(partitions, self, hive, address, p, offset);
    }
  }

  /** Partition p answers reads by `self` of a node's memory. */
  predicate Answers(partitions: seq<Partition>, self: nat, node: HiveNode, p: nat)
    requires self < |partitions|
  {
    if node.cardName == partitions[self].cardName then p == self else IsFirstWith(partitions, node.deviceId, p)
  }

  lemma FirstIff(partitions: seq<Partition>, deviceId: Word, p: nat)
    ensures FirstFrom(partitions, deviceId, 0) == Some(p) <==> IsFirstWith(partitions, deviceId, p)
  {
    hide FirstFrom;
    var found := FirstFrom(partitions, deviceId, 0);
    if IsFirstWith(partitions, deviceId, p) {
      assert found.Some? && !(found.value < p) && !(p < found.value);
    }
  }

  /** A read and a write at one address go to the same offset of the same partition exactly when the
      partition is not in a hive, the address is not on its own card, or the partition is the first
      of the device the address is on. */
  lemma {:induction false} ReadsMeetWritesIff(partitions: seq<Partition>, self: nat, hive: seq<HiveNode>, address: Word)
    requires self < |partitions|
    ensures ReadTarget(partitions, self, hive, address) == WriteTarget(partitions, self, hive, address)
            <==> (partitions[self].hiveId == 0 || !OnOwnCard(partitions, self, hive, address)
                  || FirstOfAddressed(partitions, self, hive, address))
  {
    hide DecodeFrom;
    DecodedInRange(Sizes(hive), 0, address);
    var d := DecodeFrom(Sizes(hive), 0, address);
    if d.At? {
      FirstIff(partitions, hive[d.node].deviceId, self);
    }
  }

  /** The same in terms of the nodes: whenever the address denotes memory of a node on the own card,
      the partition has to be the first of that node's device. */
  lemma {:induction false} ReadsMeetWritesOnNodes(
    partitions: seq<Partition>, self: nat, hive: seq<HiveNode>, address: Word)
    requires self < |partitions| && partitions[self].hiveId != 0 && Base(Sizes(hive), |hive|) < TWO64
    ensures ReadTarget(partitions, self, hive, address) == WriteTarget(partitions, self, hive, address)
            <==> forall n: nat, offset: nat |
                   Denotes(Sizes(hive), address, n, offset) && hive[n].cardName == partitions[self].cardName ::
                   IsFirstWith(partitions, hive[n].deviceId, self)
  {
    ReadsMeetWritesIff(partitions, self, hive, address);
    hide DecodeFrom, Base, ReadTarget, WriteTarget, IsFirstWith;
    DecodedInRange(Sizes(hive), 0, address);
    var d := DecodeFrom(Sizes(hive), 0, address);
    if d.At? {
      DecodeIff(Sizes(hive), address, d.node, d.offset);
    }
    forall n: nat, offset: nat | Denotes(Sizes(hive), address, n, offset) ensures d == At(n, offset) {
      DecodeIff(Sizes(hive), address, n, offset);
    }
  }

  /** The first partition of the device the address is on has the directory of partition `self`. */
  predicate FirstSharesDirectory(partitions: seq<Partition>, self: nat, hive: seq<HiveNode>, address: Word)
    requires self < |partitions|
  {
    DecodedInRange(Sizes(hive), 0, address);
    var d := DecodeFrom(Sizes(hive), 0, address);
    d.At? &&
    var first := FirstFrom(partitions, hive[d.node].deviceId, 0);
    first.Some? && partitions[first.value].directory == partitions[self].directory
  }

  /** A read and a write at one address come to the same offset of the same file, or to the same
      error, exactly when the partition has no directory, is not in a hive, the address is not on its
      own card, or the first partition of the device the address is on has its directory. */
  lemma AccessesMeetIff(partitions: seq<Partition>, self: nat, hive: seq<HiveNode>, address: Word)
    requires self < |partitions|
    ensures ReadAccess(partitions, self, hive, address) == WriteAccess(partitions, self, hive, address)
            <==> (partitions[self].directory.None? || partitions[self].hiveId == 0
                  || !OnOwnCard(partitions, self, hive, address)
                  || FirstSharesDirectory(partitions, self, hive, address))
  {
    hide DecodeFrom, FirstFrom;
    DecodedInRange(Sizes(hive), 0, address);
  }

  /** The nodes on the card of partition `self` have its device id, and the partitions of a device id
      have one directory. */
  ghost predicate IdsAgree(partitions: seq<Partition>, self: nat, hive: seq<HiveNode>)
    requires self < |partitions|
  {
    && (forall n | 0 <= n < |hive| ::
          hive[n].cardName == partitions[self].cardName ==> hive[n].deviceId == partitions[self].deviceId)
    && (forall p, q | 0 <= p < |partitions| && 0 <= q < |partitions| ::
          partitions[p].deviceId == partitions[q].deviceId ==> partitions[p].directory == partitions[q].directory)
  }

  /** If ids agree, reads and writes meet at every address, in a hive or not, through whichever
      partition of a device. */
  lemma AccessesMeet(partitions: seq<Partition>, self: nat, hive: seq<HiveNode>, address: Word)
    requires self < |partitions| && IdsAgree(partitions, self, hive)
    ensures ReadAccess(partitions, self, hive, address) == WriteAccess(partitions, self, hive, address)
  {
    hide DecodeFrom, FirstFrom, ReadAccess, WriteAccess;
    AccessesMeetIff(partitions, self, hive, address);
    DecodedInRange(Sizes(hive), 0, address);
  }

  /** Two partitions of one device: the second reads through its own directory and writes through
      that of the first. */
  lemma SecondPartitionReadsElsewhere(first: string, second: string)
    ensures var partitions := [Partition("card0", 7, 1, Some(first)), Partition("card0", 7, 1, Some(second))];
            var hive := [HiveNode(0x1000, "card0", 7)];
            && ReadTarget(partitions, 1, hive, 0x10) == Vram(1, 0x10)
            && WriteTarget(partitions, 1, hive, 0x10) == Vram(0, 0x10)
            && ReadAccess(partitions, 1, hive, 0x10) == InFile(second, 0x10)
            && WriteAccess(partitions, 1, hive, 0x10) == InFile(first, 0x10)
  {
    var hive := [HiveNode(0x1000, "card0", 7)];
    assert Sizes(hive)[0] == 0x1000;
    assert DecodeFrom(Sizes(hive), 0, 0x10) == At(0, 0x10);
  }
}
