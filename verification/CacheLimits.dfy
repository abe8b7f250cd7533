/** Concrete runs that show which promises the concurrent cache does not make, and where the limits lie. */
module CacheLimits {
  import opened Bytes
  import opened Cache
  import opened CacheSteps
  import opened CacheSafety

  const KEY := Key("", "")

  // ---- A fresh entry swept away -------------------------------------------------

  const SWEPT: seq<Step> := [SetKey(KEY, "old", 1, 0), Tick(2), SweepStart, SweepSee(KEY), SetKey(KEY, "new", 0, 2)]

  const FRESH := State(
    map[KEY := Item("new", None, 0)], 2, map[], [], map[], Sweeper(2, Some((KEY, Item("old", None, 1)))))

  lemma SweptRun(cfg: Config)
    ensures Run(cfg, START, SWEPT) == Some(FRESH)
  {
    var s1 := START.(items := map[KEY := Item("old", None, 1)]);
    var s2 := s1.(now := 2);
    var s3 := s2.(sweeper := Sweeper(2, None));
    var s4 := s2.(sweeper := Sweeper(2, Some((KEY, Item("old", None, 1)))));
    assert s4.items[KEY := Item("new", None, 0)] == FRESH.items;
    Chain(cfg, SWEPT, [START, s1, s2, s3, s4, FRESH]) by { hide Run; }
    hide Run, Next;
  }

  /** An entry that never expires is swept away, because its predecessor had expired. */
  lemma SweeperLosesFreshEntry(cfg: Config)
    ensures Run(cfg, START, SWEPT).Some? && Live(Run(cfg, START, SWEPT).value, KEY)
    ensures Run(cfg, START, SWEPT + [SweepDelete]).Some?
    ensures !Live(Run(cfg, START, SWEPT + [SweepDelete]).value, KEY)
  {
    SweptRun(cfg);
    RunAppend(cfg, START, SWEPT, [SweepDelete]);
    Chain(cfg, [SweepDelete], [FRESH, FRESH.(items := map[], sweeper := Sweeper(2, None))]);
    hide Run;
  }

  // ---- A call alone ------------------------------------------------------------------

  /** A caller's first look finds no live entry, and its second, inside a flight of its own, neither. */
  function FirstLook(s: State, c: nat, key: Key): (steps: seq<Step>) {
    if key in s.items then [Call(c, key), Probe(c), ProbeCheck(c)] else [Call(c, key), Probe(c)]
  }

  function SecondLook(s: State, c: nat, key: Key): (steps: seq<Step>) {
    if key in s.items then [Join(c), Recheck(c), RecheckCheck(c)] else [Join(c), Recheck(c)]
  }

  function LoadAndStore(cfg: Config, s: State, c: nat, load: Outcome): (steps: seq<Step>) {
    [StartLoad(c), LoadDone(c, load), BuildEntry(c)] +
    (if EntryFor(cfg, load, s.now).Some? then [StoreEntry(c), Finish(c)] else [Finish(c)])
  }

  /** All steps of one call with nothing in between. */
  function Alone(cfg: Config, s: State, c: nat, key: Key, load: Outcome): (steps: seq<Step>) {
    if Live(s, key) then [Call(c, key), Probe(c), ProbeCheck(c)]
    else FirstLook(s, c, key) + SecondLook(s, c, key) + LoadAndStore(cfg, s, c, load)
  }

  predicate Free(cfg: Config, s: State, c: nat, key: Key) {
    (PcOf(s, c).Idle? || PcOf(s, c).Returned?) && cfg.render(key) !in s.active
  }

  lemma FirstLookRun(cfg: Config, s: State, c: nat, key: Key)
    requires (PcOf(s, c).Idle? || PcOf(s, c).Returned?) && !Live(s, key)
    ensures Run(cfg, s, FirstLook(s, c, key)).Some?
    ensures var s' := Run(cfg, s, FirstLook(s, c, key)).value;
      && s'.items == s.items && s'.now == s.now && s'.flights == s.flights && s'.active == s.active
      && PcOf(s', c) == Missed(key)
  {
    hide Run, EntryFor, Visible;
    var s1 := Next(cfg, s, Call(c, key)).value;
    var s2 := Next(cfg, s1, Probe(c)).value;
    if key in s.items {
      Chain(cfg, FirstLook(s, c, key), [s, s1, s2, Next(cfg, s2, ProbeCheck(c)).value]);
    } else {
      Chain(cfg, FirstLook(s, c, key), [s, s1, s2]);
    }
  }

  lemma SecondLookRun(cfg: Config, s: State, c: nat, key: Key)
    requires PcOf(s, c) == Missed(key) && cfg.render(key) !in s.active && !Live(s, key)
    ensures Run(cfg, s, SecondLook(s, c, key)).Some?
    ensures var s' := Run(cfg, s, SecondLook(s, c, key)).value;
      && s'.items == s.items && s'.now == s.now && |s'.flights| == |s.flights| + 1
      && PcOf(s', c) == ReadyToLoad(key, |s.flights|)
  {
    hide Run, EntryFor, Visible;
    var s1 := Next(cfg, s, Join(c)).value;
    var s2 := Next(cfg, s1, Recheck(c)).value;
    if key in s.items {
      Chain(cfg, SecondLook(s, c, key), [s, s1, s2, Next(cfg, s2, RecheckCheck(c)).value]);
    } else {
      Chain(cfg, SecondLook(s, c, key), [s, s1, s2]);
    }
  }

  lemma LooksRun(cfg: Config, s: State, c: nat, key: Key)
    requires Free(cfg, s, c, key) && !Live(s, key)
    ensures var looks := FirstLook(s, c, key) + SecondLook(s, c, key);
      && Run(cfg, s, looks).Some?
      && var s' := Run(cfg, s, looks).value;
        && s'.items == s.items && s'.now == s.now && |s'.flights| == |s.flights| + 1
        && PcOf(s', c) == ReadyToLoad(key, |s.flights|)
  {
    hide Run, Next;
    FirstLookRun(cfg, s, c, key);
    var s' := Run(cfg, s, FirstLook(s, c, key)).value;
    SecondLookRun(cfg, s', c, key);
    assert SecondLook(s', c, key) == SecondLook(s, c, key);
    RunAppend(cfg, s, FirstLook(s, c, key), SecondLook(s, c, key));
  }

  lemma LoadRun(cfg: Config, s: State, c: nat, load: Outcome)
    requires PcOf(s, c).ReadyToLoad? && PcOf(s, c).flight < |s.flights|
    ensures var steps := [StartLoad(c), LoadDone(c, load), BuildEntry(c)];
      && Run(cfg, s, steps).Some?
      && var s' := Run(cfg, s, steps).value; var key := PcOf(s, c).key; var f := PcOf(s, c).flight;
        var entry := EntryFor(cfg, load, s.now);
        && s'.items == s.items && |s'.flights| == |s.flights|
        && PcOf(s', c) == if entry.Some? then Pc.Storing(key, f, load, entry.value) else Finishing(key, f, load)
  {
    hide Run, EntryFor, Visible;
    var s1 := Next(cfg, s, StartLoad(c)).value;
    var s2 := Next(cfg, s1, LoadDone(c, load)).value;
    var s3 := Next(cfg, s2, BuildEntry(c)).value;
    Chain(cfg, [StartLoad(c), LoadDone(c, load), BuildEntry(c)], [s, s1, s2, s3]);
  }

  lemma LoadAndStoreRun(cfg: Config, s: State, c: nat, load: Outcome)
    requires PcOf(s, c).ReadyToLoad? && PcOf(s, c).flight < |s.flights|
    ensures Run(cfg, s, LoadAndStore(cfg, s, c, load)).Some?
    ensures var s' := Run(cfg, s, LoadAndStore(cfg, s, c, load)).value;
      var key := PcOf(s, c).key; var entry := EntryFor(cfg, load, s.now);
      && s'.items == (if entry.Some? then s.items[key := entry.value] else s.items)
      && PcOf(s', c) == Returned(key, Visible(load), Some(PcOf(s, c).flight))
  {
    hide Run, EntryFor, Visible;
    LoadRun(cfg, s, c, load);
    var loading := [StartLoad(c), LoadDone(c, load), BuildEntry(c)];
    var s3 := Run(cfg, s, loading).value;
    if EntryFor(cfg, load, s.now).Some? {
      var s4 := Next(cfg, s3, StoreEntry(c)).value;
      var s5 := Next(cfg, s4, Finish(c)).value;
      Chain(cfg, [StoreEntry(c), Finish(c)], [s3, s4, s5]);
      RunAppend(cfg, s, loading, [StoreEntry(c), Finish(c)]);
    } else {
      var s4 := Next(cfg, s3, Finish(c)).value;
      Chain(cfg, [Finish(c)], [s3, s4]);
      RunAppend(cfg, s, loading, [Finish(c)]);
    }
  }

  /** The entry a load leaves: a value lives until its TTL is over, a cacheable error until the negative one is. */
  lemma EntryMeaning(cfg: Config, load: Outcome, now: int)
    ensures var entry := EntryFor(cfg, load, now);
      if load.err.None? then
        entry == Some(Item(load.value, None, if cfg.ttl > 0 then now + cfg.ttl else 0))
      else if cfg.isCacheable.Some? && cfg.isCacheable.value(load.err.value) then
        entry == Some(Item("", load.err, if cfg.negativeTtl > 0 then now + cfg.negativeTtl else 0))
      else entry == None
  {}

  lemma AnswerMeaning(load: Outcome)
    ensures Visible(load).err == load.err && Visible(load).value == if load.err.Some? then "" else load.value
  {}

  /**
   Run alone, the steps of a call do what the sequential GetOrLoad promises: a live entry answers, and without one
   the load's outcome is returned, an error with the zero value, and stored unless it is an uncacheable error.
   */
  lemma AloneIsSequential(cfg: Config, s: State, c: nat, key: Key, load: Outcome)
    requires Free(cfg, s, c, key)
    ensures Run(cfg, s, Alone(cfg, s, c, key, load)).Some?
    ensures var s' := Run(cfg, s, Alone(cfg, s, c, key, load)).value; var pc := PcOf(s', c);
      && pc.Returned? && pc.key == key
      && if key in s.items && (s.items[key].expires <= 0 || s.now <= s.items[key].expires) then
        s'.items == s.items && pc.res.value == s.items[key].data && pc.res.err == s.items[key].err
      else
        && pc.res.err == load.err && pc.res.value == (if load.err.Some? then "" else load.value)
        && if load.err.None? then
          s'.items == s.items[key := Item(load.value, None, if cfg.ttl > 0 then s.now + cfg.ttl else 0)]
        else if cfg.isCacheable.Some? && cfg.isCacheable.value(load.err.value) then
          s'.items == s.items[key := Item("", load.err, if cfg.negativeTtl > 0 then s.now + cfg.negativeTtl else 0)]
        else
          s'.items == s.items
  {
    hide Run, EntryFor, Visible;
    EntryMeaning(cfg, load, s.now);
    AnswerMeaning(load);
    if Live(s, key) {
      var s1 := Next(cfg, s, Call(c, key)).value;
      var s2 := Next(cfg, s1, Probe(c)).value;
      var s3 := Next(cfg, s2, ProbeCheck(c)).value;
      Chain(cfg, Alone(cfg, s, c, key, load), [s, s1, s2, s3]);
    } else {
      LooksRun(cfg, s, c, key);
      var looks := FirstLook(s, c, key) + SecondLook(s, c, key);
      LoadAndStoreRun(cfg, Run(cfg, s, looks).value, c, load);
      RunAppend(cfg, s, looks, LoadAndStore(cfg, s, c, load));
    }
  }

  // ---- A leader among others ---------------------------------------------------------

  predicate OthersOnly(steps: seq<Step>, c: nat) { forall i :: 0 <= i < |steps| ==> Actor(steps[i]) != Some(c) }

  lemma {:induction false} OthersStayInRun(cfg: Config, s: State, steps: seq<Step>, c: nat)
    requires Run(cfg, s, steps).Some? && OthersOnly(steps, c)
    ensures PcOf(Run(cfg, s, steps).value, c) == PcOf(s, c)
    decreases |steps|
  {
    hide Next;
    if steps != [] {
      OthersStay(cfg, s, steps[0], c);
      OthersStayInRun(cfg, Next(cfg, s, steps[0]).value, steps[1..], c);
    }
  }

  /** The state after a leader has seen what its load gave and others have gone on. */
  function AfterBuild(cfg: Config, s: State, c: nat, between: seq<Step>): (r: Option<State>) {
    Run(cfg, s, [BuildEntry(c)] + between)
  }

  lemma BuiltThenOthers(cfg: Config, s: State, c: nat, between: seq<Step>)
    requires PcOf(s, c).Loaded? && OthersOnly(between, c) && AfterBuild(cfg, s, c, between).Some?
    ensures var s' := AfterBuild(cfg, s, c, between).value;
      var key, f, load := PcOf(s, c).key, PcOf(s, c).flight, PcOf(s, c).res;
      var entry := EntryFor(cfg, load, s.now);
      PcOf(s', c) == if entry.Some? then Pc.Storing(key, f, load, entry.value) else Finishing(key, f, load)
  {
    hide EntryFor;
    var first := Next(cfg, s, BuildEntry(c)).value;
    assert ([BuildEntry(c)] + between)[1..] == between;
    OthersStayInRun(cfg, first, between, c);
  }

  /**
   Whatever others do meanwhile, a leader puts its value or cacheable error under its key, where it lives until
   its TTL from the moment the entry was built is over; for an uncacheable error it stores nothing.
   */
  lemma LeaderStores(cfg: Config, s: State, c: nat, between: seq<Step>)
    requires PcOf(s, c).Loaded? && OthersOnly(between, c) && AfterBuild(cfg, s, c, between).Some?
    ensures var s', key, load := AfterBuild(cfg, s, c, between).value, PcOf(s, c).key, PcOf(s, c).res;
      var stored := Next(cfg, s', StoreEntry(c));
      var ttl := if load.err.None? then cfg.ttl else cfg.negativeTtl;
      && (stored.Some? <==> load.err.None? || (cfg.isCacheable.Some? && cfg.isCacheable.value(load.err.value)))
      && (stored.Some? ==>
        && stored.value.items - {key} == s'.items - {key} && key in stored.value.items
        && stored.value.items[key].err == load.err
        && stored.value.items[key].data == (if load.err.Some? then "" else load.value)
        && (s.now >= 0 ==> forall t ::
          LiveIn(stored.value.items, key, t) <==> (ttl <= 0 || t <= s.now + ttl)))
      && (stored.None? ==> Next(cfg, s', Finish(c)).Some? ==> Next(cfg, s', Finish(c)).value.items == s'.items)
  {
    hide EntryFor, Run;
    BuiltThenOthers(cfg, s, c, between);
    EntryMeaning(cfg, PcOf(s, c).res, s.now);
  }

  // ---- A load under a live entry --------------------------------------------------

  function Overtaken(): (steps: seq<Step>) {
    FirstLook(START, 0, KEY) + SecondLook(START, 0, KEY) + [SetKey(KEY, "set", 0, 0)]
  }

  /** A plain set after the leader's second look: the load may start although a live entry exists. */
  lemma LoadStartsDespiteEntry(cfg: Config)
    ensures Run(cfg, START, Overtaken()).Some?
    ensures LoadsOverLive(cfg, Run(cfg, START, Overtaken()).value, [], 0)
  {
    hide Run, FirstLook, SecondLook;
    var looks := FirstLook(START, 0, KEY) + SecondLook(START, 0, KEY);
    LooksRun(cfg, START, 0, KEY);
    var s := Run(cfg, START, looks).value;
    var s' := Next(cfg, s, SetKey(KEY, "set", 0, 0)).value;
    Chain(cfg, [SetKey(KEY, "set", 0, 0)], [s, s']);
    Chain(cfg, [], [s']);
    RunAppend(cfg, START, looks, [SetKey(KEY, "set", 0, 0)]);
  }
}
