/** Enumeration: GPU nodes grouped into devices by bus address, and the global partition handles. */
module Devices {
  import opened Words
  import opened BitFields

  datatype KfdNode = KfdNode(simdCount: Word, domainId: Word, locationId: Word)

  /** The key of a device: domain and bus address, without the function number. */
  function BusKey(n: KfdNode): Word {
    Or(Shl(n.domainId, 16), And(n.locationId, 0xfff_fff8))
  }

  /** A node of a device, with its global partition id. */
  datatype Member = Member(node: KfdNode, globalId: nat)

  /** A device under construction; domain and bus address are cut to 32 and 16 bits. */
  datatype Builder = Builder(instance: nat, domain: int, bdf: nat, nodes: seq<Member>)

  // ------------------------------------------------------------ specification

  /** The nodes that are GPUs, in order: their positions are the global ids. */
  function GpuNodes(nodes: seq<KfdNode>): seq<KfdNode> {
    if nodes == [] then []
    else GpuNodes(nodes[..|nodes| - 1]) + (if nodes[|nodes| - 1].simdCount == 0 then [] else [nodes[|nodes| - 1]])
  }

  /** The members with a given key, among the first n GPU nodes, in order. */
  function Group(gpus: seq<KfdNode>, n: nat, key: Word): seq<Member>
    requires n <= |gpus|
  {
    if n == 0 then []
    else Group(gpus, n - 1, key) + (if BusKey(gpus[n - 1]) == key then [Member(gpus[n - 1], n - 1)] else [])
  }

  function KeysOf(gpus: seq<KfdNode>, n: nat): set<Word>
    requires n <= |gpus|
  {
    set i | 0 <= i < n :: BusKey(gpus[i])
  }

  /** A device is described by its first node, and numbered by how many devices came before. */
  predicate DescribedByFirst(b: Builder, gpus: seq<KfdNode>) {
    && b.nodes != [] && b.nodes[0].globalId <= |gpus|
    && b.domain == ToInt(Wrap32(b.nodes[0].node.domainId))
    && b.bdf == b.nodes[0].node.locationId % 0x1_0000
    && b.instance == |KeysOf(gpus, b.nodes[0].globalId)|
  }

  /** The builders hold the groups of the GPU nodes so far. */
  predicate BuildersHold(builders: map<Word, Builder>, gpus: seq<KfdNode>) {
    && builders.Keys == KeysOf(gpus, |gpus|)
    && forall key | key in builders ::
         builders[key].nodes == Group(gpus, |gpus|, key) && DescribedByFirst(builders[key], gpus)
  }

  /** Members in the order of their keys and, for one key, of their ids. */
  predicate Precedes(a: Member, b: Member) {
    BusKey(a.node) < BusKey(b.node) || (BusKey(a.node) == BusKey(b.node) && a.globalId < b.globalId)
  }

  predicate Ordered(order: seq<Member>) {
    forall i, j | 0 <= i < j < |order| :: Precedes(order[i], order[j])
  }

  /** Exactly the GPU nodes, each with its own global id. */
  predicate Enumerates(order: seq<Member>, gpus: seq<KfdNode>) {
    && (forall m | m in order :: m.globalId < |gpus| && m.node == gpus[m.globalId])
    && (forall g: nat | g < |gpus| :: Member(gpus[g], g) in order)
  }

  /** The stable sort of the GPU nodes by bus key. */
  predicate IsStableSort(order: seq<Member>, gpus: seq<KfdNode>) {
    Ordered(order) && Enumerates(order, gpus)
  }

  // ------------------------------------------------------------ on the nodes themselves

  predicate IsGpu(n: KfdNode) {
    n.simdCount > 0
  }

  /** How many of the first i nodes are GPUs. */
  function GpusBefore(nodes: seq<KfdNode>, i: nat): nat
    requires i <= |nodes|
  {
    |set j: nat | j < i && IsGpu(nodes[j])|
  }

  lemma GpusBeforeStep(nodes: seq<KfdNode>, i: nat)
    requires i < |nodes|
    ensures GpusBefore(nodes, i + 1) == GpusBefore(nodes, i) + if IsGpu(nodes[i]) then 1 else 0
  {
    var before, all := set j: nat | j < i && IsGpu(nodes[j]), set j: nat | j < i + 1 && IsGpu(nodes[j]);
    assert all == before + if IsGpu(nodes[i]) then {i} else {};
  }

  /** Node i is the GPU with g GPUs before it. */
  predicate IsNumbered(nodes: seq<KfdNode>, i: nat, g: nat) {
    i < |nodes| && IsGpu(nodes[i]) && GpusBefore(nodes, i) == g
  }

  /** One of the first n nodes is the GPU with g GPUs before it. */
  ghost predicate HasNumber(nodes: seq<KfdNode>, n: nat, g: nat) {
    exists i: nat :: i < n && IsNumbered(nodes, i, g)
  }

  /** The GPU nodes of a leading part, by the nodes before them. */
  lemma {:induction false} GpuPlaces(nodes: seq<KfdNode>, n: nat)
    requires n <= |nodes|
    ensures |GpuNodes(nodes[..n])| == GpusBefore(nodes, n)
    ensures forall i: nat, g: nat | i < n && IsNumbered(nodes, i, g) ::
              g < GpusBefore(nodes, n) && GpuNodes(nodes[..n])[g] == nodes[i]
    ensures forall g: nat | g < GpusBefore(nodes, n) :: HasNumber(nodes, n, g)
    decreases n
  {
    hide GpusBefore;
    if n > 0 {
      assert nodes[..n][..n - 1] == nodes[..n - 1];
      GpuPlaces(nodes, n - 1);
      GpusBeforeStep(nodes, n - 1);
      forall g: nat | g < GpusBefore(nodes, n) ensures HasNumber(nodes, n, g) {
        if g < GpusBefore(nodes, n - 1) {
          assert HasNumber(nodes, n - 1, g);
        } else {
          assert IsNumbered(nodes, n - 1, g);
        }
      }
    } else {
      NoneBefore(nodes);
    }
  }

  lemma NoneBefore(nodes: seq<KfdNode>)
    ensures GpusBefore(nodes, 0) == 0
  {
  }

  /** Each node with SIMDs occurs exactly once, under the number of such nodes before it, and no other
      node occurs. */
  ghost predicate HoldsEachGpuOnce(order: seq<Member>, nodes: seq<KfdNode>) {
    && (forall m | m in order :: exists i: nat :: IsNumbered(nodes, i, m.globalId) && nodes[i] == m.node)
    && (forall i: nat, g: nat | IsNumbered(nodes, i, g) :: Member(nodes[i], g) in order)
    && (forall j, k | 0 <= j < k < |order| :: order[j].globalId != order[k].globalId)
  }

  lemma EnumerationHoldsGpus(order: seq<Member>, nodes: seq<KfdNode>)
    requires IsStableSort(order, GpuNodes(nodes))
    ensures HoldsEachGpuOnce(order, nodes)
  {
    assert nodes[..|nodes|] == nodes;
    GpuPlaces(nodes, |nodes|);
    var gpus := GpuNodes(nodes);
    hide BusKey, GpusBefore, GpuNodes, Ordered;
    forall m | m in order ensures exists i: nat :: IsNumbered(nodes, i, m.globalId) && nodes[i] == m.node {
      assert HasNumber(nodes, |nodes|, m.globalId);
    }
    forall j, k | 0 <= j < k < |order| ensures order[j].globalId != order[k].globalId {
      OneMemberPerPlace(order, gpus, j, k);
    }
  }

  // ---------------------------------------------------------------- the loops

  function NewBuilder(instance: nat, n: KfdNode): Builder {
    Builder(instance, ToInt(Wrap32(n.domainId)), n.locationId % 0x1_0000, [])
  }

  /** Groups the nodes by bus key; ids are given out in the order of the nodes. */
  method CollectBuilders(nodes: seq<KfdNode>) returns (builders: map<Word, Builder>)
    ensures BuildersHold(builders, GpuNodes(nodes))
  {
    hide BusKey, NewBuilder, WithMember, BuildersHold;
    NothingCollected();
    builders := map[];
    var globalPartitionId: nat, numBuilders: nat := 0, 0;
    ghost var gpus: seq<KfdNode> := [];
    for i := 0 to |nodes|
      invariant gpus == GpuNodes(nodes[..i]) && globalPartitionId == |gpus|
      invariant BuildersHold(builders, gpus) && numBuilders == |builders|
    {
      var n := nodes[i];
      assert nodes[..i + 1][..i] == nodes[..i];
      if n.simdCount == 0 {
        continue;
      }
      var bdf := BusKey(n);
      var found := builders;
      if bdf !in builders {
        found := builders[bdf := NewBuilder(numBuilders, n)];
        numBuilders := numBuilders + 1;
      }
      found := found[bdf := WithMember(found[bdf], Member(n, globalPartitionId))];
      AddMember(builders, found, gpus, n);
      builders := found;
      globalPartitionId := globalPartitionId + 1;
      gpus := gpus + [n];
    }
    assert nodes[..|nodes|] == nodes;
  }

  lemma NothingCollected()
    ensures BuildersHold(map[], [])
  {}

  lemma {:induction false} GroupOfPrefix(gpus: seq<KfdNode>, more: seq<KfdNode>, n: nat, key: Word)
    requires n <= |gpus|
    ensures Group(gpus + more, n, key) == Group(gpus, n, key)
    decreases n
  {
    hide BusKey;
    if n > 0 {
      GroupOfPrefix(gpus, more, n - 1, key);
    }
  }

  lemma {:induction false} GroupOfAbsentKey(gpus: seq<KfdNode>, n: nat, key: Word)
    requires n <= |gpus| && key !in KeysOf(gpus, n)
    ensures Group(gpus, n, key) == []
    decreases n
  {
    hide BusKey;
    if n > 0 {
      GroupOfAbsentKey(gpus, n - 1, key);
    }
  }

  lemma KeysOfPrefix(gpus: seq<KfdNode>, n: KfdNode, k: nat)
    requires k <= |gpus|
    ensures KeysOf(gpus + [n], k) == KeysOf(gpus, k)
  {
    hide BusKey;
    assert forall i | 0 <= i < k :: (gpus + [n])[i] == gpus[i];
  }

  lemma KeysOfMore(gpus: seq<KfdNode>, n: KfdNode)
    ensures KeysOf(gpus + [n], |gpus| + 1) == KeysOf(gpus, |gpus|) + {BusKey(n)}
  {
    hide BusKey;
    var all := gpus + [n];
    assert (forall i | 0 <= i < |gpus| :: all[i] == gpus[i]) && all[|gpus|] == n;
  }

  /** The builder of a node's key after the node is added. */
  function WithMember(b: Builder, m: Member): Builder {
    b.(nodes := b.nodes + [m])
  }

  lemma GroupOfMore(gpus: seq<KfdNode>, n: KfdNode, key: Word)
    ensures Group(gpus + [n], |gpus| + 1, key)
            == Group(gpus, |gpus|, key) + if key == BusKey(n) then [Member(n, |gpus|)] else []
  {
    GroupOfPrefix(gpus, [n], |gpus|, key);
    hide BusKey;
  }

  lemma KeepsDescription(b: Builder, gpus: seq<KfdNode>, n: KfdNode)
    requires DescribedByFirst(b, gpus)
    ensures DescribedByFirst(b, gpus + [n])
    ensures DescribedByFirst(WithMember(b, Member(n, |gpus|)), gpus + [n])
  {
    KeysOfPrefix(gpus, n, b.nodes[0].globalId);
    hide BusKey, KeysOf;
  }

  lemma StartsDescription(count: nat, gpus: seq<KfdNode>, n: KfdNode)
    requires count == |KeysOf(gpus, |gpus|)|
    ensures DescribedByFirst(WithMember(NewBuilder(count, n), Member(n, |gpus|)), gpus + [n])
  {
    KeysOfPrefix(gpus, n, |gpus|);
    hide BusKey, KeysOf;
  }

  /** The builder of key k once node n has been added. */
  function After(builders: map<Word, Builder>, gpus: seq<KfdNode>, n: KfdNode, k: Word): Builder {
    var b := if k in builders then builders[k] else NewBuilder(|builders|, n);
    if k == BusKey(n) then WithMember(b, Member(n, |gpus|)) else b
  }

  lemma AfterHolds(builders: map<Word, Builder>, gpus: seq<KfdNode>, n: KfdNode, k: Word)
    requires BuildersHold(builders, gpus) && (k in builders || k == BusKey(n))
    ensures After(builders, gpus, n, k).nodes == Group(gpus + [n], |gpus| + 1, k)
    ensures DescribedByFirst(After(builders, gpus, n, k), gpus + [n])
  {
    GroupOfMore(gpus, n, k);
    hide BusKey, Group, KeysOf, DescribedByFirst;
    if k in builders {
      KeepsDescription(builders[k], gpus, n);
    } else {
      assert |builders| == |builders.Keys|;
      GroupOfAbsentKey(gpus, |gpus|, k);
      StartsDescription(|builders|, gpus, n);
    }
  }

  /** One more node keeps every other builder, and extends or starts the one of its key. */
  lemma AddMember(builders: map<Word, Builder>, after: map<Word, Builder>, gpus: seq<KfdNode>, n: KfdNode)
    requires BuildersHold(builders, gpus)
    requires after.Keys == builders.Keys + {BusKey(n)}
    requires forall k | k in after :: after[k] == After(builders, gpus, n, k)
    ensures BuildersHold(after, gpus + [n])
  {
    KeysOfMore(gpus, n);
    hide BusKey, Group, KeysOf, DescribedByFirst, After;
    forall k | k in after
      ensures after[k].nodes == Group(gpus + [n], |gpus| + 1, k) && DescribedByFirst(after[k], gpus + [n])
    {
      AfterHolds(builders, gpus, n, k);
    }
  }

  // ------------------------------------------------------- devices in key order

  function AllMembers(devices: seq<Builder>): seq<Member> {
    if devices == [] then [] else AllMembers(devices[..|devices| - 1]) + devices[|devices| - 1].nodes
  }

  /** The members of the groups whose keys are in `done`, in order. */
  predicate SortedSoFar(order: seq<Member>, gpus: seq<KfdNode>, done: set<Word>) {
    && Ordered(order)
    && (forall m | m in order :: m.globalId < |gpus| && m.node == gpus[m.globalId] && BusKey(m.node) in done)
    && (forall g: nat | g < |gpus| && BusKey(gpus[g]) in done :: Member(gpus[g], g) in order)
  }

  lemma {:induction false} GroupMembers(gpus: seq<KfdNode>, n: nat, key: Word)
    requires n <= |gpus|
    ensures forall m | m in Group(gpus, n, key) ::
              m.globalId < n && m.node == gpus[m.globalId] && BusKey(m.node) == key
    ensures forall g: nat | g < n && BusKey(gpus[g]) == key :: Member(gpus[g], g) in Group(gpus, n, key)
    ensures Ordered(Group(gpus, n, key))
    decreases n
  {
    hide BusKey;
    if n > 0 {
      GroupMembers(gpus, n - 1, key);
      var before := Group(gpus, n - 1, key);
      forall g: nat | g < n && BusKey(gpus[g]) == key ensures Member(gpus[g], g) in Group(gpus, n, key) {
        if g < n - 1 {
          assert Member(gpus[g], g) in before;
        }
      }
    }
  }

  lemma OrderedAppend(a: seq<Member>, b: seq<Member>)
    requires Ordered(a) && Ordered(b) && forall x, y | x in a && y in b :: Precedes(x, y)
    ensures Ordered(a + b)
  {}

  /** The group of a larger key goes after everything listed so far. */
  lemma AppendGroup(order: seq<Member>, gpus: seq<KfdNode>, done: set<Word>, key: Word)
    requires SortedSoFar(order, gpus, done) && forall k | k in done :: k < key
    ensures SortedSoFar(order + Group(gpus, |gpus|, key), gpus, done + {key})
  {
    GroupMembers(gpus, |gpus|, key);
    OrderedAppend(order, Group(gpus, |gpus|, key));
    hide BusKey, Ordered, Group;
  }

  lemma {:induction false} HasLeast(keys: set<Word>) returns (least: Word)
    requires keys != {}
    ensures least in keys && forall k | k in keys :: least <= k
    decreases keys
  {
    var k :| k in keys;
    if keys == {k} {
      least := k;
    } else {
      var rest := HasLeast(keys - {k});
      least := if k < rest then k else rest;
      forall x | x in keys ensures least <= x {
        if x != k {
          assert x in keys - {k};
        }
      }
    }
  }

  /** The device holds all the nodes of one key, and is described by the first of them. */
  ghost predicate IsGroup(d: Builder, gpus: seq<KfdNode>) {
    DescribedByFirst(d, gpus) && exists key :: d.nodes == Group(gpus, |gpus|, key)
  }

  lemma AllMembersAppend(devices: seq<Builder>, d: Builder)
    ensures AllMembers(devices + [d]) == AllMembers(devices) + d.nodes
  {
    assert (devices + [d])[..|devices|] == devices;
  }

  lemma NothingSorted(gpus: seq<KfdNode>)
    ensures SortedSoFar(AllMembers([]), gpus, {})
  {}

  /** Takes the builders in key order: the flattened members are the stable sort of the GPU nodes
      by bus key, and each device is one whole group. */
  method EnumerateDevices(nodes: seq<KfdNode>) returns (devices: seq<Builder>)
    ensures IsStableSort(AllMembers(devices), GpuNodes(nodes))
    ensures HoldsEachGpuOnce(AllMembers(devices), nodes)
    ensures forall d | d in devices :: IsGroup(d, GpuNodes(nodes))
  {
    hide BusKey, HoldsEachGpuOnce, Group, SortedSoFar, IsGroup, AllMembers, KeysOf, IsStableSort, GpuNodes, DescribedByFirst;
    ghost var gpus := GpuNodes(nodes);
    var builders := CollectBuilders(nodes);
    var left := builders.Keys;
    ghost var done: set<Word> := {};
    devices := [];
    NothingSorted(gpus);
    while left != {}
      invariant left + done == builders.Keys
      invariant SortedSoFar(AllMembers(devices), gpus, done)
      invariant forall k, l | k in done && l in left :: k < l
      invariant forall d | d in devices :: IsGroup(d, gpus)
      decreases left
    {
      ghost var least := HasLeast(left);
      var key :| key in left && forall k | k in left :: key <= k;
      AppendGroup(AllMembers(devices), gpus, done, key);
      WholeGroup(builders[key], gpus, key);
      AllMembersAppend(devices, builders[key]);
      devices := devices + [builders[key]];
      left, done := left - {key}, done + {key};
    }
    assert done == builders.Keys;
    SortedAll(AllMembers(devices), gpus);
    EnumerationHoldsGpus(AllMembers(devices), nodes);
  }

  lemma WholeGroup(d: Builder, gpus: seq<KfdNode>, key: Word)
    requires d.nodes == Group(gpus, |gpus|, key) && DescribedByFirst(d, gpus)
    ensures IsGroup(d, gpus)
  {}

  lemma SortedAll(order: seq<Member>, gpus: seq<KfdNode>)
    requires SortedSoFar(order, gpus, KeysOf(gpus, |gpus|))
    ensures IsStableSort(order, gpus)
  {
    hide BusKey, Ordered;
  }

  // ------------------------------------------------------- numbers and addresses

  lemma {:induction false} OnesBit(width: nat, k: nat)
    requires width <= 64 && k < 64
    ensures 0 <= Pow2(width) - 1 < TWO64
    ensures GetBit(Pow2(width) - 1, k) <==> k < width
    decreases width
  {
    Pow2Values();
    Pow2Mono(width, 64);
    if width > 0 {
      var p := Pow2(width - 1);
      assert Pow2(width) == 2 * p;
      hide Pow2;
      assert (2 * p - 1) / 2 == p - 1 && (2 * p - 1) % 2 == 1;
      if k > 0 {
        OnesBit(width - 1, k - 1);
      }
    } else {
      ZeroBit(k);
    }
  }

  lemma {:induction false} ZeroBit(k: nat)
    ensures !GetBit(0, k)
  {
    if k > 0 {
      ZeroBit(k - 1);
    }
  }

  lemma LocationMask(k: nat)
    requires k < 64
    ensures GetBit(0xfff_fff8, k) <==> 3 <= k < 28
  {
    Pow2Values();
    assert Pow2(4) == 16;
    hide Pow2;
    Pow2Add(21, 4);
    BitStep(0xfff_fff8, k);
    if k >= 1 {
      BitStep(0x7ff_fffc, k - 1);
    }
    if k >= 2 {
      BitStep(0x3ff_fffe, k - 2);
    }
    if k >= 3 {
      OnesBit(25, k - 3);
    }
    hide GetBit;
  }

  lemma BitStep(x: Word, k: nat)
    ensures GetBit(x, k) == if k == 0 then x % 2 == 1 else GetBit(x / 2, k - 1)
  {}

  /** The key bit by bit: the domain from bit 16 on, and bits 27 to 3 of the location id. */
  lemma KeyBits(n: KfdNode, k: nat)
    requires k < 64
    ensures GetBit(BusKey(n), k)
            <==> (16 <= k && GetBit(n.domainId, k - 16)) || (3 <= k < 28 && GetBit(n.locationId, k))
  {
    hide And, Or, Shl, GetBit;
    ShlBit(n.domainId, 16, k);
    AndBit(n.locationId, 0xfff_fff8, k);
    LocationMask(k);
    OrBit(Shl(n.domainId, 16), And(n.locationId, 0xfff_fff8), k);
  }

  /** GPU g starts a device: no GPU before it has its key. */
  predicate StartsDevice(gpus: seq<KfdNode>, g: nat) {
    g < |gpus| && forall h | 0 <= h < g :: BusKey(gpus[h]) != BusKey(gpus[g])
  }

  /** How many of the first n GPUs start a device. */
  function StartsBefore(gpus: seq<KfdNode>, n: nat): nat {
    |set g: nat | g < n && StartsDevice(gpus, g)|
  }

  lemma StartsBeforeStep(gpus: seq<KfdNode>, n: nat)
    ensures StartsBefore(gpus, n + 1) == StartsBefore(gpus, n) + if StartsDevice(gpus, n) then 1 else 0
  {
    hide StartsDevice;
    var before, all := set g: nat | g < n && StartsDevice(gpus, g), set g: nat | g < n + 1 && StartsDevice(gpus, g);
    assert all == before + if StartsDevice(gpus, n) then {n} else {};
  }

  lemma NoStartsBefore(gpus: seq<KfdNode>)
    ensures StartsBefore(gpus, 0) == 0
  {}

  lemma KeysOfStep(gpus: seq<KfdNode>, n: nat)
    requires n < |gpus|
    ensures |KeysOf(gpus, n + 1)| == |KeysOf(gpus, n)| + if StartsDevice(gpus, n) then 1 else 0
  {
    hide BusKey;
    assert KeysOf(gpus, n + 1) == KeysOf(gpus, n) + {BusKey(gpus[n])};
    var key := BusKey(gpus[n]);
    if StartsDevice(gpus, n) {
      assert key !in KeysOf(gpus, n);
    } else {
      assert key in KeysOf(gpus, n);
      assert KeysOf(gpus, n + 1) == KeysOf(gpus, n);
    }
  }

  lemma {:induction false} KeysAreStarts(gpus: seq<KfdNode>, n: nat)
    requires n <= |gpus|
    ensures |KeysOf(gpus, n)| == StartsBefore(gpus, n)
    decreases n
  {
    hide StartsDevice, StartsBefore;
    if n > 0 {
      KeysAreStarts(gpus, n - 1);
      KeysOfStep(gpus, n - 1);
      StartsBeforeStep(gpus, n - 1);
    } else {
      NoStartsBefore(gpus);
    }
  }

  /** A device has the number of devices that start before it, and the address of its first node. */
  lemma DeviceDescribed(d: Builder, gpus: seq<KfdNode>)
    requires IsGroup(d, gpus)
    ensures d.nodes != []
    ensures var g, n := d.nodes[0].globalId, d.nodes[0].node;
            && StartsDevice(gpus, g) && gpus[g] == n
            && d.instance == StartsBefore(gpus, g)
            && (n.domainId < 0x8000_0000 ==> d.domain == n.domainId)
            && (n.locationId < 0x1_0000 ==> d.bdf == n.locationId)
  {
    hide BusKey, KeysOf;
    var key :| d.nodes == Group(gpus, |gpus|, key);
    GroupMembers(gpus, |gpus|, key);
    var first := d.nodes[0];
    assert first in d.nodes;
    forall m | m in d.nodes ensures first.globalId <= m.globalId {
      var k: nat :| k < |d.nodes| && d.nodes[k] == m;
      assert k > 0 ==> Precedes(first, m);
    }
    assert forall h: nat | h < first.globalId && BusKey(gpus[h]) == key :: Member(gpus[h], h) in d.nodes;
    KeysAreStarts(gpus, first.globalId);
  }

  /** The engine's flat list of partitions. */
  method EnumeratePartitions(devices: seq<Builder>) returns (partitions: seq<Member>)
    ensures partitions == AllMembers(devices)
  {
    partitions := [];
    for i := 0 to |devices|
      invariant partitions == AllMembers(devices[..i])
    {
      ghost var before := partitions;
      for j := 0 to |devices[i].nodes|
        invariant partitions == before + devices[i].nodes[..j]
      {
        partitions := partitions + [devices[i].nodes[j]];
      }
      assert devices[..i + 1][..i] == devices[..i];
    }
    assert devices[..|devices|] == devices;
  }

  // ----------------------------------------------------------- global handles

  lemma OneMemberPerPlace(order: seq<Member>, gpus: seq<KfdNode>, i: nat, j: nat)
    requires IsStableSort(order, gpus) && i < |order| && j < |order|
    ensures order[i].globalId == order[j].globalId ==> i == j
  {
    hide BusKey;
    assert order[i] in order && order[j] in order;
    if i < j {
      assert Precedes(order[i], order[j]);
    } else if j < i {
      assert Precedes(order[j], order[i]);
    }
  }

  function IdSet(order: seq<Member>): set<nat> {
    set i | 0 <= i < |order| :: order[i].globalId
  }

  lemma {:induction false} DistinctIds(order: seq<Member>)
    requires forall i, j | 0 <= i < j < |order| :: order[i].globalId != order[j].globalId
    ensures |IdSet(order)| == |order|
  {
    if order != [] {
      var front, last := order[..|order| - 1], order[|order| - 1];
      DistinctIds(front);
      assert IdSet(order) == IdSet(front) + {last.globalId};
    }
  }

  function UpTo(n: nat): set<nat> {
    if n == 0 then {} else UpTo(n - 1) + {n - 1}
  }

  lemma {:induction false} UpToSize(n: nat)
    ensures |UpTo(n)| == n && forall g: nat :: g in UpTo(n) <==> g < n
  {
    if n > 0 {
      UpToSize(n - 1);
    }
  }

  /** There are as many partitions as GPU nodes. */
  lemma AsManyPartitions(order: seq<Member>, gpus: seq<KfdNode>)
    requires IsStableSort(order, gpus)
    ensures |order| == |gpus|
  {
    hide BusKey;
    forall i, j | 0 <= i < j < |order| ensures order[i].globalId != order[j].globalId {
      OneMemberPerPlace(order, gpus, i, j);
    }
    DistinctIds(order);
    UpToSize(|gpus|);
    forall g: nat ensures g in IdSet(order) <==> g in UpTo(|gpus|) {
      assert forall i | 0 <= i < |order| :: order[i] in order;
      if g < |gpus| {
        assert Member(gpus[g], g) in order;
      }
    }
    assert IdSet(order) == UpTo(|gpus|);
  }

  /** The partition that the handle of the partition at place i is resolved to. */
  function Resolved(order: seq<Member>, gpus: seq<KfdNode>, i: nat): Member
    requires IsStableSort(order, gpus) && i < |order|
  {
    AsManyPartitions(order, gpus);
    assert order[i] in order;
    order[order[i].globalId]
  }

  /** Visiting the handles of all partitions reaches each GPU node exactly once. */
  lemma HandlesReachEachNodeOnce(order: seq<Member>, gpus: seq<KfdNode>, g: nat)
    requires IsStableSort(order, gpus) && g < |gpus|
    ensures exists i: nat :: i < |order| && Resolved(order, gpus, i) == Member(gpus[g], g)
    ensures forall i: nat, j: nat | i < |order| && j < |order|
              && Resolved(order, gpus, i).globalId == g && Resolved(order, gpus, j).globalId == g :: i == j
  {
    hide BusKey, Ordered;
    AsManyPartitions(order, gpus);
    var place: nat :| place < |order| && order[place] == Member(gpus[g], g);
    var i: nat :| i < |order| && order[i] == Member(gpus[place], place);
    assert Resolved(order, gpus, i) == Member(gpus[g], g);
    forall i: nat, j: nat | i < |order| && j < |order|
      && Resolved(order, gpus, i).globalId == g && Resolved(order, gpus, j).globalId == g
      ensures i == j
    {
      assert order[i] in order && order[j] in order;
      OneMemberPerPlace(order, gpus, order[i].globalId, order[j].globalId);
      OneMemberPerPlace(order, gpus, i, j);
    }
  }

  predicate KeysNondecreasing(gpus: seq<KfdNode>) {
    forall i, j | 0 <= i < j < |gpus| :: BusKey(gpus[i]) <= BusKey(gpus[j])
  }

  /** With nondecreasing keys the ids of the sorted list increase. */
  lemma SortedIdsIncrease(order: seq<Member>, gpus: seq<KfdNode>, j: nat, k: nat)
    requires IsStableSort(order, gpus) && KeysNondecreasing(gpus) && j < k < |order|
    ensures order[j].globalId < order[k].globalId
  {
    hide BusKey;
    assert Precedes(order[j], order[k]) && order[j] in order && order[k] in order;
    var a, b := order[j].globalId, order[k].globalId;
    var low, high := if a < b then a else b, if a < b then b else a;
    assert low < high ==> BusKey(gpus[low]) <= BusKey(gpus[high]);
  }

  lemma {:induction false} SortedIdsAreIndices(order: seq<Member>, gpus: seq<KfdNode>, i: nat)
    requires IsStableSort(order, gpus) && KeysNondecreasing(gpus) && i < |order|
    ensures order[i].globalId == i
  {
    AsManyPartitions(order, gpus);
    assert Member(gpus[i], i) in order;
    hide BusKey, Ordered;
    var place: nat :| place < |order| && order[place] == Member(gpus[i], i);
    forall j: nat | j < i ensures order[j].globalId == j {
      SortedIdsAreIndices(order, gpus, j);
    }
    assert i <= place;
    if i < place {
      SortedIdsIncrease(order, gpus, i, place);
    }
    if i > 0 {
      SortedIdsIncrease(order, gpus, i - 1, i);
    }
  }

  /** The handle of every partition resolves to that partition exactly when the nodes already come
      in nondecreasing key order. */
  lemma HandlesAreOwnIff(order: seq<Member>, gpus: seq<KfdNode>)
    requires IsStableSort(order, gpus)
    ensures (forall i: nat | i < |order| :: Resolved(order, gpus, i) == order[i]) <==> KeysNondecreasing(gpus)
  {
    AsManyPartitions(order, gpus);
    if KeysNondecreasing(gpus) {
      forall i: nat | i < |order| ensures Resolved(order, gpus, i) == order[i] {
        SortedIdsAreIndices(order, gpus, i);
      }
    }
    hide BusKey;
    if forall i: nat | i < |order| :: Resolved(order, gpus, i) == order[i] {
      forall i: nat | i < |order| ensures order[i].globalId == i {
        assert order[i] in order && Resolved(order, gpus, i) == order[i];
        OneMemberPerPlace(order, gpus, i, order[i].globalId);
      }
      forall i, j | 0 <= i < j < |gpus| ensures BusKey(gpus[i]) <= BusKey(gpus[j]) {
        assert Precedes(order[i], order[j]) && order[i] in order && order[j] in order;
      }
    }
  }

  /** Two GPU nodes whose bus addresses come in decreasing order. */
  const SWAPPED: seq<KfdNode> := [KfdNode(1, 1, 0), KfdNode(1, 0, 0)]

  lemma SwappedKeys()
    ensures BusKey(SWAPPED[0]) > BusKey(SWAPPED[1])
  {
    ShiftedOne(16);
    Pow2Values();
    Pow2Mono(16, 63);
    ShlValue(0, 16);
    assert And(0, 0xfff_fff8) == 0;
    hide Pow2, Shl, And;
    AndOfZero(Not(Pow2(16)));
    AndOfZero(Not(0));
  }

  lemma AndOfZero(a: nat)
    ensures And(0, a) == 0
  {}

  /** The handle of the partition of the first device resolves to that of the second. */
  lemma SwappedHandles()
    ensures var order := [Member(SWAPPED[1], 1), Member(SWAPPED[0], 0)];
            && IsStableSort(order, SWAPPED) && !KeysNondecreasing(SWAPPED)
            && Resolved(order, SWAPPED, 0) == order[1] && Resolved(order, SWAPPED, 1) == order[0]
  {
    SwappedKeys();
    hide BusKey;
    var order := [Member(SWAPPED[1], 1), Member(SWAPPED[0], 0)];
    assert order[0] == Member(SWAPPED[1], 1) && order[1] == Member(SWAPPED[0], 0);
    assert Precedes(order[0], order[1]);
  }
}
