/** The walk with its per-level entry cache, and exactly when it agrees with the plain walk. */
module CachedWalk {
  import opened Words
  import opened Options
  import opened PageTable

  /** The last entry address and entry word seen at each level. The key is the address alone:
      the aperture the word was read from is not kept. */
  datatype Cache = Cache(addrs: seq<Word>, raws: seq<Word>) {
    predicate Valid() {
      |addrs| == 4 && |raws| == 4
    }

    function Fill(level: nat, addr: Word, raw: Word): (c: Cache)
      requires Valid() && level < 4
      ensures c.Valid()
    {
      Cache(addrs[level := addr], raws[level := raw])
    }
  }

  /** A fresh helper: all keys and words are zero. */
  function ZeroCache(): (c: Cache)
    ensures c.Valid()
  {
    Cache([0, 0, 0, 0], [0, 0, 0, 0])
  }

  /** One entry fetch: the cached word on an address match, otherwise memory. */
  function Fetch(mem: Memory, cache: Cache, level: nat, loc: Location): (r: (Option<Word>, Cache))
    requires cache.Valid() && level < 4
    ensures r.1.Valid()
  {
    if cache.addrs[level] == loc.addr then (Some(cache.raws[level]), cache)
    else
      match mem.Read(loc)
      case None => (None, cache)
      case Some(w) => (Some(w), cache.Fill(level, loc.addr, w))
  }

  function CachedDescend(cfg: TableConfig, mem: Memory, cache: Cache, rel: Word, level: int, words: seq<Word>)
    : (r: (Descent, Cache))
    requires cfg.Wellformed() && -1 <= level <= cfg.depth && |words| > 0 && cache.Valid()
    ensures r.1.Valid()
    decreases level + 1
  {
    if level == -1 then (Descent(words, AtPage), cache)
    else
      var pde := GetPdeFields(words[|words| - 1]);
      if pde.pte then (Descent(words, AtDirectory(level)), cache)
      else
        var (word, next) := Fetch(mem, cache, level, EntryLocation(cfg, rel, level, pde));
        match word
        case None => (Descent(words, Fault), next)
        case Some(w) => CachedDescend(cfg, mem, next, rel, level - 1, words + [w])
  }

  /** One step of the cached descent. */
  lemma CachedStep(cfg: TableConfig, mem: Memory, cache: Cache, rel: Word, level: nat, words: seq<Word>)
    requires cfg.Wellformed() && level <= cfg.depth && |words| > 0 && cache.Valid()
    ensures var d := CachedDescend(cfg, mem, cache, rel, level, words);
            var pde := GetPdeFields(words[|words| - 1]);
            if pde.pte then d == (Descent(words, AtDirectory(level)), cache)
            else
              var (word, next) := Fetch(mem, cache, level, EntryLocation(cfg, rel, level, pde));
              d == if word == None then (Descent(words, Fault), next)
                   else CachedDescend(cfg, mem, next, rel, level - 1, words + [word.value])
  {
    hide GetPdeFields, EntryLocation, Fetch;
  }

  lemma CachedPageStop(cfg: TableConfig, mem: Memory, cache: Cache, rel: Word, words: seq<Word>)
    requires cfg.Wellformed() && |words| > 0 && cache.Valid()
    ensures CachedDescend(cfg, mem, cache, rel, -1, words) == (Descent(words, AtPage), cache)
  {}

  lemma {:induction false} CachedDescentGrows(cfg: TableConfig, mem: Memory, cache: Cache, rel: Word, level: int, words: seq<Word>)
    requires cfg.Wellformed() && -1 <= level <= cfg.depth && |words| > 0 && cache.Valid()
    ensures words <= CachedDescend(cfg, mem, cache, rel, level, words).0.words
    ensures CachedDescend(cfg, mem, cache, rel, level, words).0.stop == AtPage
            ==> |CachedDescend(cfg, mem, cache, rel, level, words).0.words| == |words| + level + 1
    decreases level + 1
  {
    hide EntryLocation, GetPdeFields, Fetch;
    if level >= 0 && !GetPdeFields(words[|words| - 1]).pte {
      var loc := EntryLocation(cfg, rel, level, GetPdeFields(words[|words| - 1]));
      var (word, next) := Fetch(mem, cache, level, loc);
      if word.Some? {
        CachedDescentGrows(cfg, mem, next, rel, level - 1, words + [word.value]);
      }
    }
  }

  function CachedDescendFrom(cfg: TableConfig, mem: Memory, cache: Cache, va: Word): (r: (Descent, Cache))
    requires cfg.Wellformed() && cache.Valid()
    ensures r.1.Valid()
    ensures r.0.words != [] && (r.0.stop == AtPage ==> |r.0.words| >= 2)
  {
    CachedDescentGrows(cfg, mem, cache, Relative(cfg, va), cfg.depth, [cfg.baseAddr]);
    CachedDescend(cfg, mem, cache, Relative(cfg, va), cfg.depth, [cfg.baseAddr])
  }

  /** The walk as the translator performs it; the translate-further read is never cached. */
  function WalkWithCache(cfg: TableConfig, mem: Memory, cache: Cache, va: Word): (r: (WalkOutcome, Cache))
    requires cfg.Wellformed() && cache.Valid()
    ensures r.1.Valid()
  {
    if cfg.depth == 0 then (Unsupported, cache)
    else
      var (d, next) := CachedDescendFrom(cfg, mem, cache, va);
      (Finish(cfg, mem, Relative(cfg, va), d), next)
  }

  // ------------------------------------------------------ runs of many walks

  /** The descents of a run of addresses that share one cache. */
  function CachedRun(cfg: TableConfig, mem: Memory, cache: Cache, vas: seq<Word>): seq<Descent>
    requires cfg.Wellformed() && cache.Valid()
    decreases |vas|
  {
    if vas == [] then []
    else
      var (d, next) := CachedDescendFrom(cfg, mem, cache, vas[0]);
      [d] + CachedRun(cfg, mem, next, vas[1..])
  }

  /** The plain descents of the same addresses. */
  function PlainRun(cfg: TableConfig, mem: Memory, vas: seq<Word>): seq<Descent>
    requires cfg.Wellformed()
  {
    if vas == [] then []
    else [DescendFrom(cfg, mem, vas[0])] + PlainRun(cfg, mem, vas[1..])
  }

  /** Where the plain descent reads at level `target`, if it gets there. */
  function EntryAt(cfg: TableConfig, mem: Memory, rel: Word, level: nat, words: seq<Word>, target: nat): Option<Location>
    requires cfg.Wellformed() && target <= level <= cfg.depth && |words| > 0
  {
    var pde := GetPdeFields(words[|words| - 1]);
    if pde.pte then None
    else
      var loc := EntryLocation(cfg, rel, level, pde);
      if level == target then Some(loc)
      else
        match mem.Read(loc)
        case None => None
        case Some(w) => EntryAt(cfg, mem, rel, level - 1, words + [w], target)
  }

  function TableEntry(cfg: TableConfig, mem: Memory, va: Word, level: nat): Option<Location>
    requires cfg.Wellformed() && level <= cfg.depth
  {
    EntryAt(cfg, mem, Relative(cfg, va), cfg.depth, [cfg.baseAddr], level)
  }

  /** No entry the table uses is at address zero, unless it holds zero. */
  ghost predicate ZeroEntriesAreZero(cfg: TableConfig, mem: Memory)
    requires cfg.Wellformed()
  {
    forall va: Word, level: nat | level <= cfg.depth ::
      var e := TableEntry(cfg, mem, va, level);
      e.Some? && e.value.addr == 0 ==> mem.Read(e.value) == Some(0)
  }

  /** Two entries used at one level under one numeric address hold the same word, whichever
      aperture each of them is in. */
  ghost predicate AperturesAgree(cfg: TableConfig, mem: Memory)
    requires cfg.Wellformed()
  {
    forall va: Word, va': Word, level: nat | level <= cfg.depth ::
      EntriesAgree(mem, TableEntry(cfg, mem, va, level), TableEntry(cfg, mem, va', level))
  }

  predicate EntriesAgree(mem: Memory, e: Option<Location>, e': Option<Location>) {
    e.Some? && e'.Some? && e.value.addr == e'.value.addr ==> mem.Read(e.value) == mem.Read(e'.value)
  }

  ghost predicate CacheTransparent(cfg: TableConfig, mem: Memory)
    requires cfg.Wellformed()
  {
    ZeroEntriesAreZero(cfg, mem) && AperturesAgree(cfg, mem)
  }

  /** What a driver can promise of its tables without reading them: no entry at address zero, and
      no numeric address used in both apertures at one level. */
  ghost predicate OrdinaryTable(cfg: TableConfig, mem: Memory)
    requires cfg.Wellformed()
  {
    && (forall va: Word, level: nat | level <= cfg.depth ::
          var e := TableEntry(cfg, mem, va, level);
          e.Some? ==> e.value.addr != 0)
    && (forall va: Word, va': Word, level: nat | level <= cfg.depth ::
          var e, e' := TableEntry(cfg, mem, va, level), TableEntry(cfg, mem, va', level);
          e.Some? && e'.Some? && e.value.addr == e'.value.addr ==> e.value.system == e'.value.system)
  }

  lemma OrdinaryTablesAreTransparent(cfg: TableConfig, mem: Memory)
    requires cfg.Wellformed() && OrdinaryTable(cfg, mem)
    ensures CacheTransparent(cfg, mem)
  {
    hide TableEntry;
    forall va: Word, va': Word, level: nat | level <= cfg.depth
      ensures EntriesAgree(mem, TableEntry(cfg, mem, va, level), TableEntry(cfg, mem, va', level))
    {
      var e, e' := TableEntry(cfg, mem, va, level), TableEntry(cfg, mem, va', level);
      if e.Some? && e'.Some? && e.value.addr == e'.value.addr {
        assert e.value == e'.value;
      }
    }
  }

  // ------------------------------------------------------------------ one walk

  /** If the line has the address of the entry, it has the entry's word. */
  predicate LineAgrees(mem: Memory, cache: Cache, level: nat, e: Option<Location>)
    requires cache.Valid() && level < 4
  {
    e.Some? && e.value.addr == cache.addrs[level] ==> mem.Read(e.value) == Some(cache.raws[level])
  }

  /** Every line agrees with the entry that `va` uses at its level, if it uses one. */
  ghost predicate LinesAgree(cfg: TableConfig, mem: Memory, cache: Cache, va: Word)
    requires cfg.Wellformed() && cache.Valid()
  {
    forall level: nat | level <= cfg.depth :: LineAgrees(mem, cache, level, TableEntry(cfg, mem, va, level))
  }

  /** After a walk, the line holds the entry that was used at its level, or what it held before. */
  predicate LineAfter(mem: Memory, before: Cache, after: Cache, level: nat, e: Option<Location>)
    requires before.Valid() && after.Valid() && level < 4
  {
    if e.Some? && mem.Read(e.value).Some?
    then after.addrs[level] == e.value.addr && mem.Read(e.value) == Some(after.raws[level])
    else after.addrs[level] == before.addrs[level] && after.raws[level] == before.raws[level]
  }

  /** One fetch, at its own level and at the others. */
  lemma FetchAgrees(mem: Memory, cache: Cache, level: nat, loc: Location)
    requires cache.Valid() && level < 4 && LineAgrees(mem, cache, level, Some(loc))
    ensures var (word, next) := Fetch(mem, cache, level, loc);
            && word == mem.Read(loc) && LineAfter(mem, cache, next, level, Some(loc))
            && forall l: nat | l < 4 && l != level ::
                 next.addrs[l] == cache.addrs[l] && next.raws[l] == cache.raws[l]
  {}

  /** The lines at and below `level` agree with the entries that a descent from `words` uses. */
  ghost predicate LowerLinesAgree(
    cfg: TableConfig, mem: Memory, cache: Cache, rel: Word, level: int, words: seq<Word>)
    requires cfg.Wellformed() && level <= cfg.depth && |words| > 0 && cache.Valid()
  {
    forall target: nat | target <= level ::
      LineAgrees(mem, cache, target, EntryAt(cfg, mem, rel, level, words, target))
  }

  /** Past one fetch, the lines below still agree. */
  lemma DeeperLinesAgree(
    cfg: TableConfig, mem: Memory, cache: Cache, rel: Word, level: nat, words: seq<Word>, next: Cache, w: Word)
    requires cfg.Wellformed() && level <= cfg.depth && |words| > 0 && cache.Valid() && next.Valid()
    requires LowerLinesAgree(cfg, mem, cache, rel, level, words) && !GetPdeFields(words[|words| - 1]).pte
    requires mem.Read(EntryLocation(cfg, rel, level, GetPdeFields(words[|words| - 1]))) == Some(w)
    requires forall l: nat | l < level :: next.addrs[l] == cache.addrs[l] && next.raws[l] == cache.raws[l]
    ensures LowerLinesAgree(cfg, mem, next, rel, level - 1, words + [w])
  {
    hide EntryLocation, GetPdeFields;
    var below, deeper := level - 1, words + [w];
    forall target: nat | target <= below
      ensures LineAgrees(mem, next, target, EntryAt(cfg, mem, rel, below, deeper, target))
    {
      assert LineAgrees(mem, cache, target, EntryAt(cfg, mem, rel, level, words, target));
    }
  }

  lemma {:induction false} DescentAgrees(
    cfg: TableConfig, mem: Memory, cache: Cache, rel: Word, level: int, words: seq<Word>)
    requires cfg.Wellformed() && -1 <= level <= cfg.depth && |words| > 0 && cache.Valid()
    requires LowerLinesAgree(cfg, mem, cache, rel, level, words)
    ensures var (d, next) := CachedDescend(cfg, mem, cache, rel, level, words);
            && d == Descend(cfg, mem, rel, level, words)
            && (forall target: nat | target <= level ::
                  LineAfter(mem, cache, next, target, EntryAt(cfg, mem, rel, level, words, target)))
            && (forall target: nat | level < target < 4 ::
                  next.addrs[target] == cache.addrs[target] && next.raws[target] == cache.raws[target])
    decreases level + 1
  {
    hide EntryLocation, GetPdeFields, Fetch, CachedDescend;
    if level == -1 {
      CachedPageStop(cfg, mem, cache, rel, words);
    } else {
      CachedStep(cfg, mem, cache, rel, level, words);
      var pde := GetPdeFields(words[|words| - 1]);
      if !pde.pte {
        var loc := EntryLocation(cfg, rel, level, pde);
        assert EntryAt(cfg, mem, rel, level, words, level) == Some(loc);
        assert LineAgrees(mem, cache, level, Some(loc));
        FetchAgrees(mem, cache, level, loc);
        var (word, next) := Fetch(mem, cache, level, loc);
        if word.Some? {
          DeeperLinesAgree(cfg, mem, cache, rel, level, words, next, word.value);
          DescentAgrees(cfg, mem, next, rel, level - 1, words + [word.value]);
        }
      }
    }
  }

  /** Agreeing descents fetched the same word at their first step. */
  lemma {:induction false} StepsAgree(cfg: TableConfig, mem: Memory, cache: Cache, rel: Word, level: nat, words: seq<Word>)
    requires cfg.Wellformed() && level <= cfg.depth && |words| > 0 && cache.Valid()
    requires CachedDescend(cfg, mem, cache, rel, level, words).0 == Descend(cfg, mem, rel, level, words)
    requires !GetPdeFields(words[|words| - 1]).pte
    ensures var loc := EntryLocation(cfg, rel, level, GetPdeFields(words[|words| - 1]));
            Fetch(mem, cache, level, loc).0 == mem.Read(loc)
  {
    hide EntryLocation, GetPdeFields, Fetch, CachedDescend;
    CachedStep(cfg, mem, cache, rel, level, words);
    var loc := EntryLocation(cfg, rel, level, GetPdeFields(words[|words| - 1]));
    var (word, next) := Fetch(mem, cache, level, loc);
    if word.Some? {
      CachedDescentGrows(cfg, mem, next, rel, level - 1, words + [word.value]);
    }
    if mem.Read(loc).Some? {
      DescentGrows(cfg, mem, rel, level - 1, words + [mem.Read(loc).value]);
    }
  }

  /** An agreeing descent found, at each level it reached, the word its line already held. */
  lemma {:induction false} DescentReadsLine(
    cfg: TableConfig, mem: Memory, cache: Cache, rel: Word, level: nat, words: seq<Word>, target: nat)
    requires cfg.Wellformed() && target <= level <= cfg.depth && |words| > 0 && cache.Valid()
    requires CachedDescend(cfg, mem, cache, rel, level, words).0 == Descend(cfg, mem, rel, level, words)
    ensures LineAgrees(mem, cache, target, EntryAt(cfg, mem, rel, level, words, target))
    decreases level
  {
    hide EntryLocation, GetPdeFields;
    if !GetPdeFields(words[|words| - 1]).pte {
      StepsAgree(cfg, mem, cache, rel, level, words);
      var loc := EntryLocation(cfg, rel, level, GetPdeFields(words[|words| - 1]));
      var (word, next) := Fetch(mem, cache, level, loc);
      if level != target && word.Some? {
        DescentReadsLine(cfg, mem, next, rel, level - 1, words + [word.value], target);
      }
    }
  }

  /** One cached walk, from whatever lines, reads the words of the plain walk if and only if each
      line that has the address of an entry of the walk has its word; and it leaves those entries. */
  lemma WalkAgreesIff(cfg: TableConfig, mem: Memory, cache: Cache, va: Word)
    requires cfg.Wellformed() && cache.Valid()
    ensures CachedDescendFrom(cfg, mem, cache, va).0 == DescendFrom(cfg, mem, va)
            <==> LinesAgree(cfg, mem, cache, va)
    ensures LinesAgree(cfg, mem, cache, va) ==>
              && WalkWithCache(cfg, mem, cache, va).0 == Walk(cfg, mem, va)
              && forall level: nat | level <= cfg.depth ::
                   LineAfter(mem, cache, CachedDescendFrom(cfg, mem, cache, va).1, level,
                             TableEntry(cfg, mem, va, level))
  {
    hide EntryAt, CachedDescend, Descend, LineAgrees, LineAfter, Finish;
    if LinesAgree(cfg, mem, cache, va) {
      forall target: nat | target <= cfg.depth
        ensures LineAgrees(mem, cache, target,
                           EntryAt(cfg, mem, Relative(cfg, va), cfg.depth, [cfg.baseAddr], target))
      {
        assert LineAgrees(mem, cache, target, TableEntry(cfg, mem, va, target));
      }
      DescentAgrees(cfg, mem, cache, Relative(cfg, va), cfg.depth, [cfg.baseAddr]);
    }
    if CachedDescendFrom(cfg, mem, cache, va).0 == DescendFrom(cfg, mem, va) {
      forall target: nat | target <= cfg.depth
        ensures LineAgrees(mem, cache, target, TableEntry(cfg, mem, va, target))
      {
        DescentReadsLine(cfg, mem, cache, Relative(cfg, va), cfg.depth, [cfg.baseAddr], target);
      }
    }
  }

  // ------------------------------------------------------------------ all runs

  /** Every cache line is still blank, or holds what memory holds at some entry of its level. */
  ghost predicate LineSound(cfg: TableConfig, mem: Memory, cache: Cache, level: nat)
    requires cfg.Wellformed() && cache.Valid() && level <= cfg.depth
  {
    || (cache.addrs[level] == 0 && cache.raws[level] == 0)
    || exists va: Word ::
         var e := TableEntry(cfg, mem, va, level);
         e.Some? && e.value.addr == cache.addrs[level] && mem.Read(e.value) == Some(cache.raws[level])
  }

  ghost predicate CacheSound(cfg: TableConfig, mem: Memory, cache: Cache)
    requires cfg.Wellformed()
  {
    cache.Valid() && forall level: nat | level <= cfg.depth :: LineSound(cfg, mem, cache, level)
  }

  lemma ZeroCacheSound(cfg: TableConfig, mem: Memory)
    requires cfg.Wellformed()
    ensures CacheSound(cfg, mem, ZeroCache())
  {}

  /** A sound line of a transparent table agrees with every entry of its level. */
  lemma SoundLineAgrees(cfg: TableConfig, mem: Memory, cache: Cache, va: Word, level: nat)
    requires cfg.Wellformed() && level <= cfg.depth && cache.Valid()
    requires CacheTransparent(cfg, mem) && LineSound(cfg, mem, cache, level)
    ensures LineAgrees(mem, cache, level, TableEntry(cfg, mem, va, level))
  {
    hide TableEntry;
    if !(cache.addrs[level] == 0 && cache.raws[level] == 0) {
      var va' :| var e := TableEntry(cfg, mem, va', level);
        e.Some? && e.value.addr == cache.addrs[level] && mem.Read(e.value) == Some(cache.raws[level]);
      assert EntriesAgree(mem, TableEntry(cfg, mem, va, level), TableEntry(cfg, mem, va', level));
    }
  }

  lemma LineStaysSound(cfg: TableConfig, mem: Memory, before: Cache, after: Cache, va: Word, level: nat)
    requires cfg.Wellformed() && level <= cfg.depth && before.Valid() && after.Valid()
    requires LineSound(cfg, mem, before, level)
    requires LineAfter(mem, before, after, level, TableEntry(cfg, mem, va, level))
    ensures LineSound(cfg, mem, after, level)
  {
    hide TableEntry;
  }

  /** One cached walk from any sound cache is the plain walk, and leaves a sound cache. */
  lemma CachedWalkIsWalk(cfg: TableConfig, mem: Memory, cache: Cache, va: Word)
    requires cfg.Wellformed() && cache.Valid()
    requires CacheTransparent(cfg, mem) && CacheSound(cfg, mem, cache)
    ensures CachedDescendFrom(cfg, mem, cache, va).0 == DescendFrom(cfg, mem, va)
    ensures CacheSound(cfg, mem, CachedDescendFrom(cfg, mem, cache, va).1)
    ensures WalkWithCache(cfg, mem, cache, va).0 == Walk(cfg, mem, va)
    ensures CacheSound(cfg, mem, WalkWithCache(cfg, mem, cache, va).1)
  {
    hide CacheTransparent, LineSound, LineAgrees, LineAfter, CachedDescendFrom, DescendFrom, Finish, TableEntry;
    forall level: nat | level <= cfg.depth
      ensures LineAgrees(mem, cache, level, TableEntry(cfg, mem, va, level))
    {
      SoundLineAgrees(cfg, mem, cache, va, level);
    }
    WalkAgreesIff(cfg, mem, cache, va);
    var after := CachedDescendFrom(cfg, mem, cache, va).1;
    forall level: nat | level <= cfg.depth ensures LineSound(cfg, mem, after, level) {
      LineStaysSound(cfg, mem, cache, after, va, level);
    }
  }

  lemma {:induction false} RunsAgree(cfg: TableConfig, mem: Memory, cache: Cache, vas: seq<Word>)
    requires cfg.Wellformed() && cache.Valid()
    requires CacheTransparent(cfg, mem) && CacheSound(cfg, mem, cache)
    ensures CachedRun(cfg, mem, cache, vas) == PlainRun(cfg, mem, vas)
    decreases |vas|
  {
    hide CacheTransparent, CacheSound, DescendFrom, CachedDescendFrom, WalkWithCache, Walk;
    if vas != [] {
      CachedWalkIsWalk(cfg, mem, cache, vas[0]);
      RunsAgree(cfg, mem, CachedDescendFrom(cfg, mem, cache, vas[0]).1, vas[1..]);
    }
  }

  ghost predicate AllRunsAgree(cfg: TableConfig, mem: Memory)
    requires cfg.Wellformed()
  {
    forall vas: seq<Word> :: CachedRun(cfg, mem, ZeroCache(), vas) == PlainRun(cfg, mem, vas)
  }

  lemma RunOfOne(cfg: TableConfig, mem: Memory, va: Word)
    requires cfg.Wellformed() && AllRunsAgree(cfg, mem)
    ensures CachedDescendFrom(cfg, mem, ZeroCache(), va).0 == DescendFrom(cfg, mem, va)
  {
    hide CachedDescendFrom, DescendFrom;
    assert CachedRun(cfg, mem, ZeroCache(), [va]) == PlainRun(cfg, mem, [va]);
    assert PlainRun(cfg, mem, [va])[0] == DescendFrom(cfg, mem, va);
  }

  lemma RunOfTwo(cfg: TableConfig, mem: Memory, va: Word, va': Word)
    requires cfg.Wellformed() && AllRunsAgree(cfg, mem)
    ensures var next := CachedDescendFrom(cfg, mem, ZeroCache(), va).1;
            CachedDescendFrom(cfg, mem, next, va').0 == DescendFrom(cfg, mem, va')
  {
    hide CachedDescendFrom, DescendFrom;
    var run := [va, va'];
    assert CachedRun(cfg, mem, ZeroCache(), run) == PlainRun(cfg, mem, run);
    assert run[1..] == [va'];
    var (d, next) := CachedDescendFrom(cfg, mem, ZeroCache(), va);
    assert CachedRun(cfg, mem, next, [va'])[0] == CachedDescendFrom(cfg, mem, next, va').0;
    assert PlainRun(cfg, mem, [va'])[0] == DescendFrom(cfg, mem, va');
    assert CachedRun(cfg, mem, ZeroCache(), run)[1] == CachedRun(cfg, mem, next, [va'])[0];
    assert PlainRun(cfg, mem, run)[1] == PlainRun(cfg, mem, [va'])[0];
  }

  /** Walking `va` and then `va'` shows their common entry to hold one word. */
  lemma SecondWalkReadsFirst(cfg: TableConfig, mem: Memory, va: Word, va': Word, level: nat)
    requires cfg.Wellformed() && level <= cfg.depth && AllRunsAgree(cfg, mem)
    requires TableEntry(cfg, mem, va, level).Some? && TableEntry(cfg, mem, va', level).Some?
    requires TableEntry(cfg, mem, va, level).value.addr == TableEntry(cfg, mem, va', level).value.addr
    requires mem.Read(TableEntry(cfg, mem, va, level).value).Some?
    ensures mem.Read(TableEntry(cfg, mem, va', level).value) == mem.Read(TableEntry(cfg, mem, va, level).value)
  {
    hide AllRunsAgree, TableEntry, CachedDescendFrom, DescendFrom, WalkWithCache, Walk;
    RunOfOne(cfg, mem, va);
    RunOfTwo(cfg, mem, va, va');
    WalkAgreesIff(cfg, mem, ZeroCache(), va);
    var next := CachedDescendFrom(cfg, mem, ZeroCache(), va).1;
    WalkAgreesIff(cfg, mem, next, va');
    assert LineAfter(mem, ZeroCache(), next, level, TableEntry(cfg, mem, va, level));
    assert LineAgrees(mem, next, level, TableEntry(cfg, mem, va', level));
  }

  /** The cached walk agrees with the plain walk, word for word and over every run of addresses,
      exactly when the table is transparent to the cache. */
  lemma CacheAgreesIff(cfg: TableConfig, mem: Memory)
    requires cfg.Wellformed()
    ensures AllRunsAgree(cfg, mem) <==> CacheTransparent(cfg, mem)
  {
    hide CachedRun, PlainRun, TableEntry, CacheSound;
    if CacheTransparent(cfg, mem) {
      hide CacheTransparent;
      ZeroCacheSound(cfg, mem);
      forall vas: seq<Word> ensures CachedRun(cfg, mem, ZeroCache(), vas) == PlainRun(cfg, mem, vas) {
        RunsAgree(cfg, mem, ZeroCache(), vas);
      }
    }
    if AllRunsAgree(cfg, mem) {
      hide AllRunsAgree;
      forall va: Word, level: nat | level <= cfg.depth
        ensures var e := TableEntry(cfg, mem, va, level);
                e.Some? && e.value.addr == 0 ==> mem.Read(e.value) == Some(0)
      {
        ZeroEntryHoldsZero(cfg, mem, va, level);
      }
      forall va: Word, va': Word, level: nat | level <= cfg.depth
        ensures EntriesAgree(mem, TableEntry(cfg, mem, va, level), TableEntry(cfg, mem, va', level))
      {
        SharedEntryAgrees(cfg, mem, va, va', level);
      }
    }
  }

  lemma ZeroEntryHoldsZero(cfg: TableConfig, mem: Memory, va: Word, level: nat)
    requires cfg.Wellformed() && level <= cfg.depth && AllRunsAgree(cfg, mem)
    ensures var e := TableEntry(cfg, mem, va, level);
            e.Some? && e.value.addr == 0 ==> mem.Read(e.value) == Some(0)
  {
    hide AllRunsAgree, TableEntry, CachedDescendFrom, DescendFrom, WalkWithCache, Walk;
    RunOfOne(cfg, mem, va);
    WalkAgreesIff(cfg, mem, ZeroCache(), va);
    assert LineAgrees(mem, ZeroCache(), level, TableEntry(cfg, mem, va, level));
  }

  lemma SharedEntryAgrees(cfg: TableConfig, mem: Memory, va: Word, va': Word, level: nat)
    requires cfg.Wellformed() && level <= cfg.depth && AllRunsAgree(cfg, mem)
    ensures EntriesAgree(mem, TableEntry(cfg, mem, va, level), TableEntry(cfg, mem, va', level))
  {
    hide AllRunsAgree, TableEntry;
    var e, e' := TableEntry(cfg, mem, va, level), TableEntry(cfg, mem, va', level);
    if e.Some? && e'.Some? && e.value.addr == e'.value.addr {
      if mem.Read(e.value).Some? {
        SecondWalkReadsFirst(cfg, mem, va, va', level);
      } else if mem.Read(e'.value).Some? {
        SecondWalkReadsFirst(cfg, mem, va', va, level);
      }
    }
  }
}
