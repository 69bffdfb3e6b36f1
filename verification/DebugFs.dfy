/** The debugfs directory of a partition: found by the bus address of its node, so that the partitions
    of one device share their VRAM file. */
module DebugFs {
  import opened Words
  import opened Options
  import opened Devices
  import opened Hive

  /** Domain, bus and device number. */
  datatype Place = Place(domain: Word, bus: Word, device: Word)

  function PlaceOf(n: KfdNode): Place {
    Place(n.domainId, And(Shr(n.locationId, 8), 0xff), And(Shr(n.locationId, 3), 0x1f))
  }

  /** The name file of a directory: there is none, it cannot be understood, or it gives a place. */
  datatype NameFile = Missing | Garbled | Named(place: Place)

  /** A directory below the root, with or without the register file of the driver. */
  datatype DriEntry = DriEntry(path: string, hasRegs: bool, name: NameFile)

  /** The directory; none, after an error that is caught; or the code-bug error, which is not. */
  datatype Resolution = Opened(path: string) | NoInterface | CodeBugError

  // ------------------------------------------------------------ specification

  /** The search ends at this entry. */
  predicate Stops(e: DriEntry, place: Place) {
    e.hasRegs && (e.name.Garbled? || e.name == Named(place))
  }

  /** Entry k is the first one at which the search ends. */
  predicate FirstStop(dri: seq<DriEntry>, place: Place, k: nat) {
    k < |dri| && Stops(dri[k], place) && forall j | 0 <= j < k :: !Stops(dri[j], place)
  }

  /** What the search comes to. */
  ghost predicate ResolvesTo(root: Option<seq<DriEntry>>, place: Place, r: Resolution) {
    match r
    case Opened(path) =>
      root.Some? && exists k: nat :: FirstStop(root.value, place, k) && root.value[k] == DriEntry(path, true, Named(place))
    case NoInterface => root.None? || exists k: nat :: FirstStop(root.value, place, k) && root.value[k].name.Garbled?
    case CodeBugError => root.Some? && forall e | e in root.value :: !Stops(e, place)
  }

  lemma ResolvesToOne(root: Option<seq<DriEntry>>, place: Place, r: Resolution, r': Resolution)
    requires ResolvesTo(root, place, r) && ResolvesTo(root, place, r')
    ensures r == r'
  {
    if root.Some? {
      forall j: nat, k: nat | FirstStop(root.value, place, j) && FirstStop(root.value, place, k) ensures j == k {
        assert !(j < k) && !(k < j);
      }
      forall k: nat | FirstStop(root.value, place, k) ensures root.value[k] in root.value {}
    }
  }

  /** The search in terms of the directories: it looks at those with the register file only, and ends at
      the first one whose name is garbled or is the place. */
  lemma SearchByEntries(dri: seq<DriEntry>, place: Place, path: string)
    ensures ResolvesTo(Some(dri), place, Opened(path))
            <==> exists k: nat ::
                   && k < |dri| && dri[k].hasRegs && dri[k].name == Named(place) && dri[k].path == path
                   && forall j | 0 <= j < k && dri[j].hasRegs :: dri[j].name != Garbled && dri[j].name != Named(place)
    ensures ResolvesTo(Some(dri), place, NoInterface)
            <==> exists k: nat ::
                   && k < |dri| && dri[k].hasRegs && dri[k].name == Garbled
                   && forall j | 0 <= j < k && dri[j].hasRegs :: dri[j].name != Garbled && dri[j].name != Named(place)
    ensures ResolvesTo(Some(dri), place, CodeBugError)
            <==> forall j | 0 <= j < |dri| && dri[j].hasRegs :: dri[j].name != Garbled && dri[j].name != Named(place)
    ensures ResolvesTo(None, place, NoInterface)
  {
    assert forall j | 0 <= j < |dri| :: dri[j] in dri;
    forall k: nat | k < |dri| && dri[k].hasRegs && (dri[k].name == Garbled || dri[k].name == Named(place))
      && forall j | 0 <= j < k && dri[j].hasRegs :: dri[j].name != Garbled && dri[j].name != Named(place)
      ensures FirstStop(dri, place, k)
    {}
  }

  // ----------------------------------------------------------------- the search

  method ResolveDebugFs(root: Option<seq<DriEntry>>, n: KfdNode) returns (r: Resolution)
    ensures ResolvesTo(root, PlaceOf(n), r)
  {
    if root.None? {
      return NoInterface;
    }
    var dri := root.value;
    for k := 0 to |dri|
      invariant forall j | 0 <= j < k :: !Stops(dri[j], PlaceOf(n))
    {
      if !dri[k].hasRegs {
        continue;
      }
      match dri[k].name
      case Missing =>
      case Garbled =>
        assert FirstStop(dri, PlaceOf(n), k);
        return NoInterface;
      case Named(place) =>
        var bus, device := And(Shr(n.locationId, 8), 0xff), And(Shr(n.locationId, 3), 0x1f);
        if n.domainId == place.domain && bus == place.bus && device == place.device {
          assert FirstStop(dri, PlaceOf(n), k);
          return Opened(dri[k].path);
        }
    }
    return CodeBugError;
  }

  // ------------------------------------------------------------------ one device

  /** Location ids of 16 bits and domains that do not leave the key. */
  predicate Narrow(n: KfdNode) {
    n.locationId < 0x1_0000 && n.domainId < 0x1_0000_0000_0000
  }

  lemma {:induction false} DisjointBits(y: nat, z: nat, k: nat)
    requires y < Pow2(k) && LowBits(z, k) == 0
    ensures And(y, z) == 0
    decreases k
  {
    if k > 0 {
      var p := Pow2(k - 1);
      assert Pow2(k) == 2 * p && z % 2 == 0 && LowBits(z / 2, k - 1) == 0;
      hide And, Pow2, LowBits;
      HalfBelow(y, p);
      DisjointBits(y / 2, z / 2, k - 1);
      AndStep(y, z);
    }
  }

  /** A disjunction of words without common bits is their sum. */
  lemma OrOfDisjoint(x: Word, y: Word, k: nat)
    requires y < Pow2(k) && x * Pow2(k) < TWO64
    ensures Or(x * Pow2(k), y) == x * Pow2(k) + y
  {
    hide Pow2, And, LowBits;
    Pow2Values();
    var z := x * Pow2(k);
    LowBitsValue(z, k);
    DivModUnique(z, Pow2(k), x, 0);
    AndSplits(y, z, Not(z), 64);
    DisjointBits(y, z, k);
  }

  lemma MaskedLocation(location: Word)
    requires location < 0x1000_0000
    ensures And(location, 0xfff_fff8) == location - location % 8
  {
    hide And, Pow2;
    SmallPowers();
    AndSplits(location, 7, 0xfff_fff8, 28);
    AndLowMask(location, 3);
  }

  lemma SmallPowers()
    ensures Pow2(3) == 8 && Pow2(5) == 32 && Pow2(8) == 256 && Pow2(16) == 0x1_0000 && Pow2(28) == 0x1000_0000
  {
    assert Pow2(2) == 4 && Pow2(1) == 2;
    hide Pow2;
    Pow2Add(2, 1);
    Pow2Add(3, 2);
    Pow2Add(5, 3);
    Pow2Add(8, 8);
    Pow2Add(16, 8);
    Pow2Add(24, 3);
    Pow2Add(27, 1);
  }

  lemma KeyByArithmetic(n: KfdNode)
    requires Narrow(n)
    ensures BusKey(n) == 0x1_0000 * n.domainId + 8 * (n.locationId / 8)
  {
    hide And, Or, Shl, Pow2;
    SmallPowers();
    MaskedLocation(n.locationId);
    ShlValue(n.domainId, 16);
    OrOfDisjoint(n.domainId, n.locationId - n.locationId % 8, 16);
  }

  lemma PlaceByArithmetic(n: KfdNode)
    ensures PlaceOf(n) == Place(n.domainId, n.locationId / 256 % 256, n.locationId / 8 % 32)
  {
    hide And, Shr, Pow2, LowBits;
    SmallPowers();
    ShrValue(n.locationId, 8);
    ShrValue(n.locationId, 3);
    AndLowMask(Shr(n.locationId, 8), 8);
    AndLowMask(Shr(n.locationId, 3), 5);
  }

  /** Nodes are put into one device exactly when their partitions look for the same directory. */
  lemma SameDeviceIff(a: KfdNode, b: KfdNode)
    requires Narrow(a) && Narrow(b)
    ensures BusKey(a) == BusKey(b) <==> PlaceOf(a) == PlaceOf(b)
  {
    hide BusKey, PlaceOf;
    KeyByArithmetic(a);
    KeyByArithmetic(b);
    PlaceByArithmetic(a);
    PlaceByArithmetic(b);
    BusAndDevice(a.locationId);
    BusAndDevice(b.locationId);
    KeysSplit(a.domainId, a.locationId / 8, b.domainId, b.locationId / 8);
  }

  lemma KeysSplit(domain: Word, low: nat, domain': Word, low': nat)
    requires low < 0x2000 && low' < 0x2000
    ensures 0x1_0000 * domain + 8 * low == 0x1_0000 * domain' + 8 * low' <==> domain == domain' && low == low'
  {}

  /** The bus and the device number are the location id without the function number. */
  lemma BusAndDevice(location: Word)
    requires location < 0x1_0000
    ensures location / 8 == 32 * (location / 256 % 256) + location / 8 % 32 < 0x2000
  {
    DivDiv(location, 8, 32);
    DivMod(location / 8, 32);
  }

  /** A location id beyond 16 bits runs into the domain: two nodes of one device whose partitions look
      for different directories. */
  lemma WideLocation()
    ensures var a, b := KfdNode(1, 0, 0x1_0000), KfdNode(1, 1, 0);
            BusKey(a) == BusKey(b) && PlaceOf(a) != PlaceOf(b)
  {
    hide And, Or, Shl, Shr, Pow2;
    SmallPowers();
    MaskedLocation(0);
    MaskedLocation(0x1_0000);
    ShlValue(0, 16);
    ShlValue(1, 16);
    OrOfDisjoint(0, 0x1_0000, 28);
    OrOfDisjoint(1, 0, 16);
  }

  // ----------------------------------------------------------- reads and writes

  /** A partition with the directory that the search for its node comes to. */
  ghost predicate Located(root: Option<seq<DriEntry>>, n: KfdNode, p: Partition) {
    ResolvesTo(root, PlaceOf(n), if p.directory.Some? then Opened(p.directory.value) else NoInterface)
  }

  /** The partitions of one device have one directory. */
  lemma OneDeviceOneDirectory(root: Option<seq<DriEntry>>, a: KfdNode, b: KfdNode, p: Partition, q: Partition)
    requires Narrow(a) && Narrow(b) && BusKey(a) == BusKey(b) && Located(root, a, p) && Located(root, b, q)
    ensures p.directory == q.directory
  {
    hide BusKey, PlaceOf, ResolvesTo;
    SameDeviceIff(a, b);
    ResolvesToOne(root, PlaceOf(a), if p.directory.Some? then Opened(p.directory.value) else NoInterface,
                  if q.directory.Some? then Opened(q.directory.value) else NoInterface);
  }

  /** If each device id belongs to one device, and the nodes on the own card have the own device id,
      a read and a write of one address reach the same offset of the same file. */
  lemma ReadsMeetWrites(
    root: Option<seq<DriEntry>>, nodes: seq<KfdNode>, partitions: seq<Partition>, self: nat, hive: seq<HiveNode>,
    address: Word)
    requires |nodes| == |partitions| && self < |partitions|
    requires forall i | 0 <= i < |nodes| :: Narrow(nodes[i]) && Located(root, nodes[i], partitions[i])
    requires forall i, j | 0 <= i < |nodes| && 0 <= j < |nodes| ::
               partitions[i].deviceId == partitions[j].deviceId ==> BusKey(nodes[i]) == BusKey(nodes[j])
    requires forall n | 0 <= n < |hive| ::
               hive[n].cardName == partitions[self].cardName ==> hive[n].deviceId == partitions[self].deviceId
    ensures ReadAccess(partitions, self, hive, address) == WriteAccess(partitions, self, hive, address)
  {
    hide BusKey, Located, ReadAccess, WriteAccess;
    forall p, q | 0 <= p < |partitions| && 0 <= q < |partitions| && partitions[p].deviceId == partitions[q].deviceId
      ensures partitions[p].directory == partitions[q].directory
    {
      OneDeviceOneDirectory(root, nodes[p], nodes[q], partitions[p], partitions[q]);
    }
    AccessesMeet(partitions, self, hive, address);
  }
}
