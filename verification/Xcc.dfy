/** Which compute dies each partition of a device is given. */
module Xcc {
  import opened Words
  import opened Options

  datatype Instance = Instance(numInstance: int, harvest: bool)

  /** A die of the discovery table; a die without a GC block makes the lookup throw. */
  datatype Die = Die(gc: Option<seq<Instance>>)

  datatype Assignment = Assigned(xccs: seq<seq<int>>) | BailedOut | Thrown

  // ------------------------------------------------------------ specification

  function Kept(instances: seq<Instance>): seq<int> {
    if instances == [] then []
    else (if instances[0].harvest then [] else [instances[0].numInstance]) + Kept(instances[1..])
  }

  /** The instances that are not harvested: dies in order, instances in order. */
  function Available(dies: seq<Die>): seq<int>
    requires forall d | d in dies :: d.gc.Some?
  {
    if dies == [] then [] else Kept(dies[0].gc.value) + Available(dies[1..])
  }

  /** The quotas of the nodes before node k, added up. */
  function Before(quotas: seq<Word>, k: nat): (n: nat)
    requires k <= |quotas|
  {
    if k == 0 then 0 else Before(quotas, k - 1) + quotas[k - 1]
  }

  function Clip(n: nat, limit: nat): nat {
    if n < limit then n else limit
  }

  /** The slice of the available list that belongs to node k. */
  function Share(list: seq<int>, quotas: seq<Word>, k: nat): seq<int>
    requires k < |quotas|
  {
    list[Clip(Before(quotas, k), |list|)..Clip(Before(quotas, k + 1), |list|)]
  }

  function Shares(list: seq<int>, quotas: seq<Word>): seq<seq<int>> {
    seq(|quotas|, k requires 0 <= k < |quotas| => Share(list, quotas, k))
  }

  lemma {:induction false} BeforeMonotone(quotas: seq<Word>, j: nat, k: nat)
    requires j <= k <= |quotas|
    ensures Before(quotas, j) <= Before(quotas, k)
    decreases k
  {
    if j < k {
      BeforeMonotone(quotas, j, k - 1);
    }
  }

  // ---------------------------------------------------------------- assignment

  /** The nodes before the cursor are full, the nodes after it are empty. */
  predicate CursorAt(list: seq<int>, quotas: seq<Word>, cursor: nat) {
    && cursor <= |quotas| && Before(quotas, cursor) <= |list|
    && (cursor < |quotas| ==> |list| <= Before(quotas, cursor + 1))
  }

  /** A share that the list has filled, or not reached, is not changed by one more instance. */
  lemma ShareUnchanged(list: seq<int>, x: int, quotas: seq<Word>, j: nat)
    requires j < |quotas| && (Before(quotas, j + 1) <= |list| || |list| < Before(quotas, j))
    ensures Share(list + [x], quotas, j) == Share(list, quotas, j)
  {
    BeforeMonotone(quotas, j, j + 1);
    hide Before;
  }

  lemma ShareExtended(list: seq<int>, x: int, quotas: seq<Word>, k: nat)
    requires k < |quotas| && Before(quotas, k) <= |list| < Before(quotas, k + 1)
    ensures Share(list + [x], quotas, k) == Share(list, quotas, k) + [x]
  {
    hide Before;
  }

  /** One more instance goes to the node with the first free place, which is at or after the cursor. */
  lemma OneMore(list: seq<int>, x: int, quotas: seq<Word>, k: nat)
    requires k < |quotas| && Before(quotas, k) <= |list| < Before(quotas, k + 1)
    ensures Shares(list + [x], quotas) == Shares(list, quotas)[k := Share(list, quotas, k) + [x]]
    ensures CursorAt(list + [x], quotas, k)
  {
    hide Share, Before;
    forall j: nat | j < |quotas|
      ensures Share(list + [x], quotas, j) == if j == k then Share(list, quotas, k) + [x] else Share(list, quotas, j)
    {
      if j < k {
        BeforeMonotone(quotas, j + 1, k);
        ShareUnchanged(list, x, quotas, j);
      } else if k < j {
        BeforeMonotone(quotas, k + 1, j);
        ShareUnchanged(list, x, quotas, j);
      } else {
        ShareExtended(list, x, quotas, k);
      }
    }
  }

  /** When every node is full, a further instance changes nothing. */
  lemma NoRoom(list: seq<int>, x: int, quotas: seq<Word>)
    requires Before(quotas, |quotas|) <= |list|
    ensures Shares(list + [x], quotas) == Shares(list, quotas)
  {
    hide Share, Before;
    forall j: nat | j < |quotas| ensures Share(list + [x], quotas, j) == Share(list, quotas, j) {
      BeforeMonotone(quotas, j + 1, |quotas|);
      ShareUnchanged(list, x, quotas, j);
    }
  }

  /** Gives one instance to the first node from the cursor on that has room, and leaves the
      cursor there; a search without success leaves it past the last node. */
  method Place(xccs: seq<seq<int>>, quotas: seq<Word>, cursor: nat, x: int, ghost list: seq<int>)
    returns (xccs': seq<seq<int>>, cursor': nat)
    requires xccs == Shares(list, quotas) && CursorAt(list, quotas, cursor)
    ensures xccs' == Shares(list + [x], quotas) && CursorAt(list + [x], quotas, cursor')
  {
    xccs', cursor' := xccs, cursor;
    while cursor' < |quotas|
      invariant xccs' == xccs && CursorAt(list, quotas, cursor')
    {
      ShareSize(list, quotas, cursor');
      if |xccs'[cursor']| < quotas[cursor'] {
        OneMore(list, x, quotas, cursor');
        xccs' := xccs'[cursor' := xccs'[cursor'] + [x]];
        return;
      }
      cursor' := cursor' + 1;
      BeforeStep(quotas, cursor');
    }
    NoRoom(list, x, quotas);
  }

  lemma BeforeStep(quotas: seq<Word>, k: nat)
    requires k <= |quotas|
    ensures k < |quotas| ==> Before(quotas, k) <= Before(quotas, k + 1)
  {}

  lemma ShareSize(list: seq<int>, quotas: seq<Word>, k: nat)
    requires k < |quotas| && CursorAt(list, quotas, k)
    ensures |Share(list, quotas, k)| == |list| - Before(quotas, k)
    ensures |Share(list, quotas, k)| < quotas[k] <==> |list| < Before(quotas, k + 1)
  {}

  /** The assignment over the dies of the discovery table. */
  method AssignFromTable(dies: seq<Die>, quotas: seq<Word>) returns (result: Assignment)
    ensures if forall d | d in dies :: d.gc.Some? then result == Assigned(Shares(Available(dies), quotas))
            else result == Thrown
  {
    var xccs: seq<seq<int>> := seq(|quotas|, _ => []);
    var cursor: nat := 0;
    ghost var list: seq<int> := [];
    NothingShared(quotas);
    for i := 0 to |dies|
      invariant forall d | d in dies[..i] :: d.gc.Some?
      invariant list == Available(dies[..i])
      invariant xccs == Shares(list, quotas) && CursorAt(list, quotas, cursor)
    {
      var gc := dies[i].gc;
      if gc.None? {
        assert dies[i] in dies;
        return Thrown;
      }
      assert dies[..i + 1] == dies[..i] + [dies[i]];
      AvailableStep(dies[..i], dies[i]);
      ghost var before := list;
      for j := 0 to |gc.value|
        invariant list == before + Kept(gc.value[..j])
        invariant xccs == Shares(list, quotas) && CursorAt(list, quotas, cursor)
      {
        var inst := gc.value[j];
        assert gc.value[..j + 1] == gc.value[..j] + [inst];
        KeptStep(gc.value[..j], inst);
        if inst.harvest {
          continue;
        }
        xccs, cursor := Place(xccs, quotas, cursor, inst.numInstance, list);
        list := list + [inst.numInstance];
      }
      assert gc.value[..|gc.value|] == gc.value;
    }
    assert dies[..|dies|] == dies;
    return Assigned(xccs);
  }

  lemma NothingShared(quotas: seq<Word>)
    ensures Shares([], quotas) == seq(|quotas|, _ => [])
    ensures CursorAt([], quotas, 0)
  {
    forall k | 0 <= k < |quotas| ensures Shares([], quotas)[k] == [] {
      assert Share([], quotas, k) == [];
    }
  }

  lemma {:induction false} KeptStep(instances: seq<Instance>, inst: Instance)
    ensures Kept(instances + [inst]) == Kept(instances) + if inst.harvest then [] else [inst.numInstance]
  {
    if instances != [] {
      assert (instances + [inst])[1..] == instances[1..] + [inst];
      KeptStep(instances[1..], inst);
    }
  }

  lemma {:induction false} AvailableStep(dies: seq<Die>, die: Die)
    requires die.gc.Some? && forall d | d in dies :: d.gc.Some?
    ensures Available(dies + [die]) == Available(dies) + Kept(die.gc.value)
  {
    if dies == [] {
      assert Available([die]) == Kept(die.gc.value) + Available([]);
    } else {
      assert (dies + [die])[1..] == dies[1..] + [die];
      AvailableStep(dies[1..], die);
    }
  }

  /** The die ids of the nodes of a device, with a discovery table or by the guess that each node
      is the die 0; the guess is given up if a node has several dies. */
  method AssignXccs(table: Option<seq<Die>>, quotas: seq<Word>) returns (result: Assignment)
    ensures quotas == [] ==> result == Assigned([])
    ensures quotas != [] && table.Some? ==>
              if forall d | d in table.value :: d.gc.Some?
              then result == Assigned(Shares(Available(table.value), quotas))
              else result == Thrown
    ensures quotas != [] && table.None? ==>
              if exists q :: q in quotas && q > 1 then result == BailedOut
              else result.Assigned? && |result.xccs| == |quotas| && forall x | x in result.xccs :: x == [0]
  {
    if |quotas| == 0 {
      return Assigned([]);
    }
    if table.Some? {
      result := AssignFromTable(table.value, quotas);
      return;
    }
    var xccs: seq<seq<int>> := [];
    for id := 0 to |quotas|
      invariant |xccs| == id && (forall x | x in xccs :: x == [0])
      invariant forall k | 0 <= k < id :: quotas[k] <= 1
    {
      if quotas[id] > 1 {
        assert quotas[id] in quotas;
        return BailedOut;
      }
      xccs := xccs + [[0]];
    }
    return Assigned(xccs);
  }

  // ------------------------------------------------------- what the shares mean

  function Concat(lists: seq<seq<int>>): seq<int> {
    if lists == [] then [] else Concat(lists[..|lists| - 1]) + lists[|lists| - 1]
  }

  lemma {:induction false} SharesOfPrefix(list: seq<int>, quotas: seq<Word>, k: nat)
    requires k <= |quotas|
    ensures Concat(Shares(list, quotas)[..k]) == list[..Clip(Before(quotas, k), |list|)]
    decreases k
  {
    if k > 0 {
      SharesOfPrefix(list, quotas, k - 1);
      BeforeMonotone(quotas, k - 1, k);
      assert Shares(list, quotas)[..k][..k - 1] == Shares(list, quotas)[..k - 1];
    }
  }

  /** No node exceeds its quota. */
  lemma WithinQuota(list: seq<int>, quotas: seq<Word>, k: nat)
    requires k < |quotas|
    ensures |Share(list, quotas, k)| <= quotas[k]
  {}

  /** A node with anything at all comes after full ones only. */
  lemma EarlierIsFull(list: seq<int>, quotas: seq<Word>, j: nat, k: nat)
    requires j < k < |quotas| && Share(list, quotas, k) != []
    ensures |Share(list, quotas, j)| == quotas[j]
  {
    BeforeMonotone(quotas, j + 1, k);
    BeforeStep(quotas, j);
    BeforeStep(quotas, k);
  }

  /** Together the shares are the leading part of the list, each position given once and in order,
      up to the sum of the quotas; no node exceeds its quota; and a node with anything at all
      comes after full ones only. */
  lemma SharesPartition(list: seq<int>, quotas: seq<Word>)
    ensures Concat(Shares(list, quotas)) == list[..Clip(Before(quotas, |quotas|), |list|)]
    ensures forall k: nat | k < |quotas| :: |Share(list, quotas, k)| <= quotas[k]
    ensures forall j: nat, k: nat | j < k < |quotas| && Share(list, quotas, k) != [] ::
              |Share(list, quotas, j)| == quotas[j]
  {
    SharesOfPrefix(list, quotas, |quotas|);
    assert Shares(list, quotas)[..|quotas|] == Shares(list, quotas);
    hide Share, Before;
    forall k: nat | k < |quotas| ensures |Share(list, quotas, k)| <= quotas[k] {
      WithinQuota(list, quotas, k);
    }
    forall j: nat, k: nat | j < k < |quotas| && Share(list, quotas, k) != []
      ensures |Share(list, quotas, j)| == quotas[j]
    {
      EarlierIsFull(list, quotas, j, k);
    }
  }

  // ----------------------------------------------- where each instance goes

  /** How many of the first n instances are not harvested. */
  function UsableBefore(instances: seq<Instance>, n: nat): nat
    requires n <= |instances|
  {
    |set j: nat | j < n && !instances[j].harvest|
  }

  lemma UsableStep(instances: seq<Instance>, n: nat)
    requires n < |instances|
    ensures UsableBefore(instances, n + 1) == UsableBefore(instances, n) + if instances[n].harvest then 0 else 1
  {
    var before, all := set j: nat | j < n && !instances[j].harvest, set j: nat | j < n + 1 && !instances[j].harvest;
    assert all == before + if instances[n].harvest then {} else {n};
  }

  lemma NoneUsable(instances: seq<Instance>)
    ensures UsableBefore(instances, 0) == 0
  {}

  lemma {:induction false} KeptPlaces(instances: seq<Instance>, n: nat)
    requires n <= |instances|
    ensures |Kept(instances[..n])| == UsableBefore(instances, n)
    ensures forall i: nat | i < n && !instances[i].harvest ::
              && UsableBefore(instances, i) < UsableBefore(instances, n)
              && Kept(instances[..n])[UsableBefore(instances, i)] == instances[i].numInstance
    decreases n
  {
    hide UsableBefore;
    if n > 0 {
      assert instances[..n] == instances[..n - 1] + [instances[n - 1]];
      KeptPlaces(instances, n - 1);
      UsableStep(instances, n - 1);
      KeptStep(instances[..n - 1], instances[n - 1]);
      hide Kept;
    } else {
      NoneUsable(instances);
    }
  }

  /** How many usable instances the first n dies have. */
  function UsableInDies(dies: seq<Die>, n: nat): nat
    requires n <= |dies| && forall d | d in dies :: d.gc.Some?
  {
    if n == 0 then 0
    else UsableInDies(dies, n - 1) + UsableBefore(dies[n - 1].gc.value, |dies[n - 1].gc.value|)
  }

  /** The place of usable instance i of die d among all. */
  function PlaceOf(dies: seq<Die>, d: nat, i: nat): nat
    requires (forall d | d in dies :: d.gc.Some?) && d < |dies| && i < |dies[d].gc.value|
  {
    UsableInDies(dies, d) + UsableBefore(dies[d].gc.value, i)
  }

  lemma {:induction false} AvailablePlaces(dies: seq<Die>, n: nat, d: nat, i: nat)
    requires (forall d | d in dies :: d.gc.Some?) && d < n <= |dies| && i < |dies[d].gc.value|
    requires !dies[d].gc.value[i].harvest
    ensures |Available(dies[..n])| == UsableInDies(dies, n)
    ensures PlaceOf(dies, d, i) < |Available(dies[..n])|
    ensures Available(dies[..n])[PlaceOf(dies, d, i)] == dies[d].gc.value[i].numInstance
    decreases n
  {
    hide UsableBefore, Kept;
    var last := dies[n - 1].gc.value;
    assert dies[..n] == dies[..n - 1] + [dies[n - 1]] && last[..|last|] == last;
    AvailableStep(dies[..n - 1], dies[n - 1]);
    KeptPlaces(last, |last|);
    AvailableSize(dies, n - 1);
    if d < n - 1 {
      AvailablePlaces(dies, n - 1, d, i);
    }
  }

  lemma {:induction false} AvailableSize(dies: seq<Die>, n: nat)
    requires (forall d | d in dies :: d.gc.Some?) && n <= |dies|
    ensures |Available(dies[..n])| == UsableInDies(dies, n)
    decreases n
  {
    hide UsableBefore, Kept;
    if n > 0 {
      var last := dies[n - 1].gc.value;
      assert dies[..n] == dies[..n - 1] + [dies[n - 1]] && last[..|last|] == last;
      AvailableStep(dies[..n - 1], dies[n - 1]);
      KeptPlaces(last, |last|);
      AvailableSize(dies, n - 1);
    }
  }

  /** Each usable instance goes to the node in whose quota its place falls, and a node is given usable
      instances only: as many as there are places in its quota. */
  lemma InstanceGoesTo(dies: seq<Die>, quotas: seq<Word>, d: nat, i: nat, k: nat)
    requires (forall d | d in dies :: d.gc.Some?) && d < |dies| && i < |dies[d].gc.value| && k < |quotas|
    requires !dies[d].gc.value[i].harvest
    requires Before(quotas, k) <= PlaceOf(dies, d, i) < Before(quotas, k + 1)
    ensures var share, at := Share(Available(dies), quotas, k), PlaceOf(dies, d, i) - Before(quotas, k);
            at < |share| && share[at] == dies[d].gc.value[i].numInstance
    ensures |Share(Available(dies), quotas, k)|
            == Clip(Before(quotas, k + 1), UsableInDies(dies, |dies|)) - Before(quotas, k)
  {
    hide Before, UsableInDies, PlaceOf;
    assert dies[..|dies|] == dies;
    AvailablePlaces(dies, |dies|, d, i);
  }
}
