/** Where answers come from: in runs whose entries all come from loads, each answer is one load's result. */
module CacheAnswers {
  import opened Bytes
  import opened Cache
  import opened CacheSteps
  import opened CacheSafety

  /** Some flight's load for the key gave this outcome. */
  ghost predicate Given(flights: seq<Flight>, key: Key, res: Outcome) {
    exists f :: 0 <= f < |flights| && GaveIt(flights[f], key, res)
  }

  predicate GaveIt(fl: Flight, key: Key, res: Outcome) {
    && fl.key == key && fl.loaded.Some? && fl.loaded.value.err == res.err
    && res.value == if res.err.Some? then "" else fl.loaded.value.value
  }

  ghost predicate CallerGiven(s: State, c: nat) {
    match PcOf(s, c)
    case ProbeTime(key, item) => Given(s.flights, key, ItemOutcome(item))
    case RecheckTime(key, _, item) => Given(s.flights, key, ItemOutcome(item))
    case Loaded(key, _, res) => Given(s.flights, key, Visible(res))
    case Storing(key, _, res, _) => Given(s.flights, key, Visible(res))
    case Finishing(key, _, res) => Given(s.flights, key, Visible(res))
    case Returned(key, res, None) => Given(s.flights, key, res)
    case _ => true
  }

  ghost predicate EntryGiven(s: State, key: Key) {
    key in s.items ==> Given(s.flights, key, ItemOutcome(s.items[key]))
  }

  ghost predicate ResultGiven(flights: seq<Flight>, fl: Flight) {
    fl.result.Some? ==> Given(flights, fl.key, Visible(fl.result.value))
  }

  ghost predicate AllGiven(s: State) {
    && (forall c :: CallerGiven(s, c))
    && (forall key :: EntryGiven(s, key))
    && (forall f :: 0 <= f < |s.flights| ==> ResultGiven(s.flights, s.flights[f]))
  }

  lemma GivenGrows(a: seq<Flight>, b: seq<Flight>, key: Key, res: Outcome)
    requires Grows(a, b) && Given(a, key, res)
    ensures Given(b, key, res)
  {
    var f :| 0 <= f < |a| && GaveIt(a[f], key, res);
    assert GaveIt(b[f], key, res);
  }

  lemma GivenIsVisible(flights: seq<Flight>, key: Key, res: Outcome)
    requires Given(flights, key, res)
    ensures Visible(res) == res
  {
    var f :| 0 <= f < |flights| && GaveIt(flights[f], key, res);
  }

  /** An entry built from a result answers as that result does. */
  lemma EntryAnswersAsResult(cfg: Config, res: Outcome, t: int)
    requires EntryFor(cfg, res, t).Some?
    ensures ItemOutcome(EntryFor(cfg, res, t).value) == Visible(res)
  {}

  lemma OtherKeepsGiven(cfg: Config, s: State, step: Step, c: nat)
    requires Inv(cfg, s) && CallerGiven(s, c) && Next(cfg, s, step).Some? && Actor(step) != Some(c)
    ensures CallerGiven(Next(cfg, s, step).value, c)
  {
    hide Inv, Next, Given, Grows;
    OthersStay(cfg, s, step, c);
    StepGrows(cfg, s, step);
    var s' := Next(cfg, s, step).value;
    forall key, res | Given(s.flights, key, res) ensures Given(s'.flights, key, res) {
      GivenGrows(s.flights, s'.flights, key, res);
    }
  }

  /** What the acting caller reads or is given was given before. */
  lemma ActorIsGiven(cfg: Config, s: State, step: Step)
    requires Inv(cfg, s) && AllGiven(s) && Next(cfg, s, step).Some? && Actor(step).Some? && !step.LoadDone?
    ensures var s' := Next(cfg, s, step).value; CallerGiven(s'.(flights := s.flights), Actor(step).value)
  {
    hide LoadMatches, LeaderHolds, SharerMatches, SlotHeld, StoresItsLoad, FlightMatches, WellStored, EntryFor, Expired;
    hide Given;
    var c := Actor(step).value;
    assert CallerGiven(s, c);
    if step.Probe? || step.Recheck? {
      assert EntryGiven(s, PcOf(s, c).key);
    } else if step.RecheckCheck? {
      GivenIsVisible(s.flights, PcOf(s, c).key, ItemOutcome(PcOf(s, c).item));
    }
  }

  lemma LoaderIsGiven(cfg: Config, s: State, step: Step)
    requires Inv(cfg, s) && Next(cfg, s, step).Some? && step.LoadDone?
    ensures CallerGiven(Next(cfg, s, step).value, step.c)
  {
    hide LoadMatches, SharerMatches, SlotHeld, StoresItsLoad, FlightMatches, WellStored, EntryFor, Expired;
    var s', pc := Next(cfg, s, step).value, PcOf(s, step.c);
    assert LeaderHolds(cfg, s, step.c);
    assert GaveIt(s'.flights[pc.flight], pc.key, Visible(step.res));
  }

  lemma CallersKeepGiven(cfg: Config, s: State, step: Step, c: nat)
    requires Inv(cfg, s) && AllGiven(s) && !step.SetKey? && Next(cfg, s, step).Some?
    ensures CallerGiven(Next(cfg, s, step).value, c)
  {
    hide Inv, Next, Given, Grows;
    assert CallerGiven(s, c);
    if Actor(step) != Some(c) {
      OtherKeepsGiven(cfg, s, step, c);
    } else if step.LoadDone? {
      LoaderIsGiven(cfg, s, step);
    } else {
      ActorIsGiven(cfg, s, step);
      StepGrows(cfg, s, step);
      var s' := Next(cfg, s, step).value;
      forall key, res | Given(s.flights, key, res) ensures Given(s'.flights, key, res) {
        GivenGrows(s.flights, s'.flights, key, res);
      }
      assert PcOf(s'.(flights := s.flights), c) == PcOf(s', c);
    }
  }

  lemma EntriesKeepGiven(cfg: Config, s: State, step: Step, key: Key)
    requires Inv(cfg, s) && AllGiven(s) && !step.SetKey? && Next(cfg, s, step).Some?
    ensures EntryGiven(Next(cfg, s, step).value, key)
  {
    hide LeaderHolds, SharerMatches, SlotHeld, LoadMatches, FlightMatches, WellStored, EntryFor, Given, GaveIt;
    StepGrows(cfg, s, step);
    var s' := Next(cfg, s, step).value;
    assert EntryGiven(s, key);
    if step.StoreEntry? && key == PcOf(s, step.c).key {
      var pc := PcOf(s, step.c);
      assert CallerGiven(s, step.c) && StoresItsLoad(cfg, s, step.c);
      var t :| t <= s.now && EntryFor(cfg, pc.res, t) == Some(pc.item);
      EntryAnswersAsResult(cfg, pc.res, t);
      GivenGrows(s.flights, s'.flights, key, Visible(pc.res));
    } else if key in s'.items {
      GivenGrows(s.flights, s'.flights, key, ItemOutcome(s.items[key]));
    }
  }

  lemma ResultsKeepGiven(cfg: Config, s: State, step: Step, f: nat)
    requires Inv(cfg, s) && AllGiven(s) && Next(cfg, s, step).Some?
    requires f < |Next(cfg, s, step).value.flights|
    ensures var s' := Next(cfg, s, step).value; ResultGiven(s'.flights, s'.flights[f])
  {
    hide SharerMatches, SlotHeld, LoadMatches, FlightMatches, WellStored, StoresItsLoad, EntryFor, Given, GaveIt;
    StepGrows(cfg, s, step);
    var s' := Next(cfg, s, step).value;
    if s'.flights[f].result.Some? {
      if f < |s.flights| && s.flights[f].result.Some? {
        assert ResultGiven(s.flights, s.flights[f]);
        GivenGrows(s.flights, s'.flights, s.flights[f].key, Visible(s.flights[f].result.value));
      } else {
        assert CallerGiven(s, step.c) && LeaderHolds(cfg, s, step.c);
        GivenGrows(s.flights, s'.flights, PcOf(s, step.c).key, Visible(PcOf(s, step.c).res));
      }
    }
  }

  lemma {:induction false} RunKeepsGiven(cfg: Config, s: State, steps: seq<Step>)
    requires Inv(cfg, s) && AllGiven(s) && Run(cfg, s, steps).Some?
    requires NoPlainSets(steps)
    ensures AllGiven(Run(cfg, s, steps).value)
    decreases |steps|
  {
    hide Inv, Next, CallerGiven, EntryGiven, ResultGiven;
    if steps != [] {
      var s' := Next(cfg, s, steps[0]).value;
      forall c ensures CallerGiven(s', c) { CallersKeepGiven(cfg, s, steps[0], c); }
      forall key ensures EntryGiven(s', key) { EntriesKeepGiven(cfg, s, steps[0], key); }
      forall f | 0 <= f < |s'.flights| ensures ResultGiven(s'.flights, s'.flights[f]) {
        ResultsKeepGiven(cfg, s, steps[0], f);
      }
      StepKeepsInv(cfg, s, steps[0]);
      RunKeepsGiven(cfg, s', steps[1..]);
    }
  }

  /**
   Without plain sets, each outcome a caller reports, cached or shared or its own, is what one load run for
   a key of the same rendering gave.
   */
  lemma AnswersAreLoaded(cfg: Config, steps: seq<Step>, c: nat)
    requires NoPlainSets(steps)
    requires Run(cfg, START, steps).Some? && PcOf(Run(cfg, START, steps).value, c).Returned?
    ensures var s := Run(cfg, START, steps).value;
      exists key :: cfg.render(key) == cfg.render(PcOf(s, c).key) && Given(s.flights, key, PcOf(s, c).res)
  {
    StartInv(cfg);
    RunKeepsInv(cfg, START, steps);
    RunKeepsGiven(cfg, START, steps);
    var s := Run(cfg, START, steps).value;
    assert CallerGiven(s, c) && SharerMatches(cfg, s, c);
    hide Given, Next, Run;
    if PcOf(s, c).shared.Some? {
      var fl := s.flights[PcOf(s, c).shared.value];
      assert ResultGiven(s.flights, fl);
      assert cfg.render(fl.key) == cfg.render(PcOf(s, c).key) && Given(s.flights, fl.key, PcOf(s, c).res);
    } else {
      var key := PcOf(s, c).key;
      assert cfg.render(key) == cfg.render(PcOf(s, c).key) && Given(s.flights, key, PcOf(s, c).res);
    }
  }

  // ---- Exactly when a caller gets an answer for its own key ---------------------

  ghost predicate Injective(render: Key -> string, keys: iset<Key>) {
    forall a, b :: a in keys && b in keys && render(a) == render(b) ==> a == b
  }

  predicate CallWithin(step: Step, keys: iset<Key>) { step.Call? ==> step.key in keys }

  ghost predicate CallsWithin(steps: seq<Step>, keys: iset<Key>) {
    forall i :: 0 <= i < |steps| ==> CallWithin(steps[i], keys)
  }

  predicate CallerWithin(s: State, c: nat, keys: iset<Key>) { PcOf(s, c).Idle? || PcOf(s, c).key in keys }

  ghost predicate KeysWithin(s: State, keys: iset<Key>) {
    && (forall c: nat :: CallerWithin(s, c, keys))
    && (forall f :: 0 <= f < |s.flights| ==> s.flights[f].key in keys)
  }

  lemma KeysStep(cfg: Config, s: State, step: Step, keys: iset<Key>)
    requires KeysWithin(s, keys) && CallWithin(step, keys) && Next(cfg, s, step).Some?
    ensures KeysWithin(Next(cfg, s, step).value, keys)
  {
    hide EntryFor, Expired, Visible;
    var s' := Next(cfg, s, step).value;
    if Actor(step).Some? { assert CallerWithin(s, Actor(step).value, keys); }
    forall c: nat ensures CallerWithin(s', c, keys) { assert CallerWithin(s, c, keys); }
  }

  lemma {:induction false} KeysRun(cfg: Config, s: State, steps: seq<Step>, keys: iset<Key>)
    requires KeysWithin(s, keys) && CallsWithin(steps, keys) && Run(cfg, s, steps).Some?
    ensures KeysWithin(Run(cfg, s, steps).value, keys)
    decreases |steps|
  {
    hide Next, KeysWithin, CallWithin;
    if steps != [] {
      assert CallWithin(steps[0], keys);
      KeysStep(cfg, s, steps[0], keys);
      KeysRun(cfg, Next(cfg, s, steps[0]).value, steps[1..], keys);
    }
  }

  /** In every run of calls for these keys, without plain sets, each answer is a load's for the very key asked for. */
  ghost predicate AnswersOwnKey(cfg: Config, keys: iset<Key>) {
    forall steps: seq<Step>, c: nat :: OwnAnswer(cfg, keys, steps, c)
  }

  ghost predicate OwnAnswer(cfg: Config, keys: iset<Key>, steps: seq<Step>, c: nat) {
    NoPlainSets(steps) && CallsWithin(steps, keys) && Run(cfg, START, steps).Some? ==>
      var s := Run(cfg, START, steps).value;
      PcOf(s, c).Returned? ==> Given(s.flights, PcOf(s, c).key, PcOf(s, c).res)
  }

  lemma InjectiveAnswersOwnKey(cfg: Config, keys: iset<Key>, steps: seq<Step>, c: nat)
    requires Injective(cfg.render, keys)
    ensures OwnAnswer(cfg, keys, steps, c)
  {
    hide Next, Run, KeysWithin;
    if NoPlainSets(steps) && CallsWithin(steps, keys) && Run(cfg, START, steps).Some? {
      var s := Run(cfg, START, steps).value;
      if PcOf(s, c).Returned? {
        StartWithin(keys);
        KeysRun(cfg, START, steps, keys);
        AnswersAreLoaded(cfg, steps, c);
        var key :| cfg.render(key) == cfg.render(PcOf(s, c).key) && Given(s.flights, key, PcOf(s, c).res);
        GivenWithin(s, c, key, PcOf(s, c).res, keys);
      }
    }
  }

  lemma StartWithin(keys: iset<Key>)
    ensures KeysWithin(START, keys)
  {}

  lemma GivenWithin(s: State, c: nat, key: Key, res: Outcome, keys: iset<Key>)
    requires KeysWithin(s, keys) && Given(s.flights, key, res) && !PcOf(s, c).Idle?
    ensures key in keys && PcOf(s, c).key in keys
  {
    assert CallerWithin(s, c, keys);
    var f :| 0 <= f < |s.flights| && GaveIt(s.flights[f], key, res);
  }

  const ANSWER := Outcome("x", None)

  /** Caller 1 asks for b while caller 0 is in a flight for a. */
  function Meeting(a: Key, b: Key): (steps: seq<Step>) {
    [Call(0, a), Probe(0), Join(0), Call(1, b), Probe(1), Join(1)]
  }

  const LOADING: seq<Step> := [Recheck(0), StartLoad(0), LoadDone(0, ANSWER), BuildEntry(0)]

  const SHARING: seq<Step> := [StoreEntry(0), Finish(0), Wake(1)]

  /** Both are in one flight, which is for a. */
  predicate Met(cfg: Config, s: State, a: Key, b: Key) {
    && s.items == map[] && s.flights == [Flight(a, 0, 0, None, None)]
    && PcOf(s, 0) == Rechecking(a, 0) && PcOf(s, 1) == Waiting(b, 0)
  }

  lemma MeetingRun(cfg: Config, a: Key, b: Key)
    requires cfg.render(a) == cfg.render(b)
    ensures Run(cfg, START, Meeting(a, b)).Some? && Met(cfg, Run(cfg, START, Meeting(a, b)).value, a, b)
  {
    hide Run;
    var s1 := Next(cfg, START, Call(0, a)).value;
    var s2 := Next(cfg, s1, Probe(0)).value;
    var s3 := Next(cfg, s2, Join(0)).value;
    var s4 := Next(cfg, s3, Call(1, b)).value;
    var s5 := Next(cfg, s4, Probe(1)).value;
    var s6 := Next(cfg, s5, Join(1)).value;
    Chain(cfg, Meeting(a, b), [START, s1, s2, s3, s4, s5, s6]);
  }

  predicate HaveLoaded(cfg: Config, s: State, a: Key, b: Key) {
    && |s.flights| == 1 && s.flights[0].key == a
    && PcOf(s, 0).Storing? && PcOf(s, 0).flight == 0 && PcOf(s, 0).res == ANSWER && PcOf(s, 1) == Waiting(b, 0)
  }

  lemma LoadingRun(cfg: Config, s: State, a: Key, b: Key)
    requires Met(cfg, s, a, b)
    ensures Run(cfg, s, LOADING).Some? && HaveLoaded(cfg, Run(cfg, s, LOADING).value, a, b)
  {
    hide Run;
    var s1 := Next(cfg, s, Recheck(0)).value;
    var s2 := Next(cfg, s1, StartLoad(0)).value;
    var s3 := Next(cfg, s2, LoadDone(0, ANSWER)).value;
    var s4 := Next(cfg, s3, BuildEntry(0)).value;
    Chain(cfg, LOADING, [s, s1, s2, s3, s4]);
  }

  lemma SharingRun(cfg: Config, s: State, a: Key, b: Key)
    requires HaveLoaded(cfg, s, a, b)
    ensures Run(cfg, s, SHARING).Some?
    ensures var s' := Run(cfg, s, SHARING).value;
      |s'.flights| == 1 && s'.flights[0].key == a && PcOf(s', 1) == Returned(b, ANSWER, Some(0))
  {
    hide Run;
    var s1 := Next(cfg, s, StoreEntry(0)).value;
    var s2 := Next(cfg, s1, Finish(0)).value;
    var s3 := Next(cfg, s2, Wake(1)).value;
    Chain(cfg, SHARING, [s, s1, s2, s3]);
  }

  /** Two keys with one rendering: the caller asking for b is answered by the load for a. */
  lemma CollisionAnswersOtherKey(cfg: Config, a: Key, b: Key, keys: iset<Key>)
    requires a != b && cfg.render(a) == cfg.render(b) && a in keys && b in keys
    ensures !OwnAnswer(cfg, keys, Meeting(a, b) + (LOADING + SHARING), 1)
  {
    hide Next, Run, Met, HaveLoaded;
    MeetingRun(cfg, a, b);
    var s := Run(cfg, START, Meeting(a, b)).value;
    LoadingRun(cfg, s, a, b);
    SharingRun(cfg, Run(cfg, s, LOADING).value, a, b);
    RunAppend(cfg, s, LOADING, SHARING);
    RunAppend(cfg, START, Meeting(a, b), LOADING + SHARING);
  }

  /**
   Callers that use only certain keys are answered for their own key in every run exactly when no two of
   these keys share a rendering.
   */
  lemma AnswersOwnKeyExactly(cfg: Config, keys: iset<Key>)
    ensures AnswersOwnKey(cfg, keys) <==> Injective(cfg.render, keys)
  {
    hide OwnAnswer;
    if Injective(cfg.render, keys) {
      forall steps: seq<Step>, c: nat ensures OwnAnswer(cfg, keys, steps, c) {
        InjectiveAnswersOwnKey(cfg, keys, steps, c);
      }
    } else {
      var a, b :| a in keys && b in keys && cfg.render(a) == cfg.render(b) && a != b;
      CollisionAnswersOtherKey(cfg, a, b, keys);
    }
  }

  // ---- The rendering in use -----------------------------------------------------

  /** The keys differ by a space that stands in the first field of one and in the second of the other. */
  predicate Shifted(a: Key, b: Key, between: string) {
    b.first == a.first + " " + between && a.second == between + " " + b.second
  }

  lemma ShiftedSprint(a: Key, b: Key, between: string)
    requires Shifted(a, b, between)
    ensures Sprint(a) == Sprint(b)
  {}

  /** Where the fields stand in the rendering. */
  lemma SprintFields(key: Key)
    ensures var n, r := |key.first|, Sprint(key);
      && |r| == n + |key.second| + 3
      && r[1..n + 1] == key.first && r[n + 1] == ' ' && r[n + 2..|r| - 1] == key.second
  {}

  lemma SprintShifts(a: Key, b: Key)
    requires Sprint(a) == Sprint(b) && |a.first| < |b.first|
    ensures Shifted(a, b, b.first[|a.first| + 1..])
  {
    var n, r := |a.first|, Sprint(a);
    SprintFields(a);
    SprintFields(b);
    var between := b.first[n + 1..];
    assert r[n + 1] == b.first[n];
    assert b.first == b.first[..n] + [b.first[n]] + between;
    assert b.first[..n] == r[1..n + 1];
    assert r[n + 2..|r| - 1] == between + " " + b.second;
  }

  /** Two keys have the same rendering exactly when they are the same or one is the other with a space shifted. */
  lemma SprintExactly(a: Key, b: Key)
    ensures Sprint(a) == Sprint(b) <==>
      a == b || (exists between :: Shifted(a, b, between)) || (exists between :: Shifted(b, a, between))
  {
    if between :| Shifted(a, b, between) { ShiftedSprint(a, b, between); }
    if between :| Shifted(b, a, between) { ShiftedSprint(b, a, between); }
    if Sprint(a) == Sprint(b) {
      if |a.first| < |b.first| {
        SprintShifts(a, b);
      } else if |b.first| < |a.first| {
        SprintShifts(b, a);
      } else {
        SprintFields(a);
        SprintFields(b);
      }
    }
  }

  /** With the rendering the code uses, two struct keys share a flight and a caller gets the other's load. */
  lemma SprintAnswersOtherKey(cfg: Config)
    requires cfg.render == Sprint
    ensures var a, b := Key("a b", "c"), Key("a", "b c");
      && a != b && Sprint(a) == Sprint(b) == "{a b c}"
      && !OwnAnswer(cfg, iset{a, b}, Meeting(a, b) + (LOADING + SHARING), 1)
  {
    hide OwnAnswer;
    var a, b := Key("a b", "c"), Key("a", "b c");
    assert Shifted(b, a, "b");
    ShiftedSprint(b, a, "b");
    assert a.first != b.first;
    CollisionAnswersOtherKey(cfg, a, b, iset{a, b});
  }

  ghost function Spaceless(): (keys: iset<Key>) { iset key: Key | ' ' !in key.first }

  /** Callers whose keys have no space in the first field are always answered for their own key. */
  lemma SpacelessAnswersOwnKey(cfg: Config)
    requires cfg.render == Sprint
    ensures AnswersOwnKey(cfg, Spaceless())
  {
    hide AnswersOwnKey, Sprint;
    forall a, b | a in Spaceless() && b in Spaceless() && cfg.render(a) == cfg.render(b) ensures a == b {
      SprintExactly(a, b);
      if between :| Shifted(a, b, between) { SpaceWithin(a, b, between); }
      if between :| Shifted(b, a, between) { SpaceWithin(b, a, between); }
    }
    AnswersOwnKeyExactly(cfg, Spaceless());
  }

  lemma SpaceWithin(a: Key, b: Key, between: string)
    requires Shifted(a, b, between)
    ensures ' ' in b.first
  {
    assert b.first[|a.first|] == ' ';
  }
}
