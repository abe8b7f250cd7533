/** What holds of every run of the cache's concurrent callers. */
module CacheSafety {
  import opened Bytes
  import opened Cache
  import opened CacheSteps

  // ---- One step -----------------------------------------------------------

  /** A step moves at most its own caller. */
  lemma OthersStay(cfg: Config, s: State, step: Step, c: nat)
    requires Next(cfg, s, step).Some? && Actor(step) != Some(c)
    ensures PcOf(Next(cfg, s, step).value, c) == PcOf(s, c)
  {
    hide EntryFor, Expired, Visible;
  }

  /** It changes at most the flight its caller leads, and frees at most that flight's slot. */
  lemma FlightsAfter(cfg: Config, s: State, step: Step, f: nat)
    requires Next(cfg, s, step).Some? && f < |s.flights|
    ensures var s' := Next(cfg, s, step).value;
      && f < |s'.flights|
      && (s'.flights[f] != s.flights[f] ==>
        Actor(step).Some? && Leads(PcOf(s, Actor(step).value)) && PcOf(s, Actor(step).value).flight == f)
  {
    hide EntryFor, Expired, Visible;
  }

  lemma SlotsAfter(cfg: Config, s: State, step: Step, r: string)
    requires Next(cfg, s, step).Some? && r in s.active
    ensures var s' := Next(cfg, s, step).value;
      if step.Finish? && cfg.render(PcOf(s, step.c).key) == r then Leads(PcOf(s, step.c))
      else r in s'.active && s'.active[r] == s.active[r]
  {
    hide EntryFor, Expired, Visible;
  }

  lemma OtherLeaderKept(cfg: Config, s: State, step: Step, c: nat)
    requires Inv(cfg, s) && Next(cfg, s, step).Some? && Actor(step) != Some(c)
    ensures LeaderHolds(cfg, Next(cfg, s, step).value, c) && LoadMatches(Next(cfg, s, step).value, c)
  {
    hide Next, SharerMatches, SlotHeld, StoresItsLoad, FlightMatches, WellStored;
    assert LeaderHolds(cfg, s, c) && LoadMatches(s, c);
    OthersStay(cfg, s, step, c);
    if Leads(PcOf(s, c)) {
      FlightsAfter(cfg, s, step, PcOf(s, c).flight);
      SlotsAfter(cfg, s, step, cfg.render(PcOf(s, c).key));
      if Actor(step).Some? { assert LeaderHolds(cfg, s, Actor(step).value); }
    }
  }

  lemma ActingLeaderHolds(cfg: Config, s: State, step: Step)
    requires Inv(cfg, s) && Next(cfg, s, step).Some? && Actor(step).Some?
    ensures LeaderHolds(cfg, Next(cfg, s, step).value, Actor(step).value)
  {
    hide LoadMatches, SharerMatches, SlotHeld, StoresItsLoad, FlightMatches, WellStored, EntryFor, Expired, Visible;
    assert LeaderHolds(cfg, s, Actor(step).value);
  }

  lemma ActingLoadMatches(cfg: Config, s: State, step: Step)
    requires Inv(cfg, s) && Next(cfg, s, step).Some? && Actor(step).Some?
    ensures LoadMatches(Next(cfg, s, step).value, Actor(step).value)
  {
    hide SharerMatches, SlotHeld, StoresItsLoad, WellStored, EntryFor, Expired, Visible;
    assert LeaderHolds(cfg, s, Actor(step).value) && LoadMatches(s, Actor(step).value);
  }

  lemma LeadersKept(cfg: Config, s: State, step: Step)
    requires Inv(cfg, s) && Next(cfg, s, step).Some?
    ensures forall c :: LeaderHolds(cfg, Next(cfg, s, step).value, c)
    ensures forall c :: LoadMatches(Next(cfg, s, step).value, c)
  {
    hide Inv, Next, LeaderHolds, LoadMatches;
    var s' := Next(cfg, s, step).value;
    forall c: nat ensures LeaderHolds(cfg, s', c) && LoadMatches(s', c) {
      if Actor(step) == Some(c) {
        ActingLeaderHolds(cfg, s, step);
        ActingLoadMatches(cfg, s, step);
      } else {
        OtherLeaderKept(cfg, s, step, c);
      }
    }
  }

  /** A slot is taken only by a caller that starts a flight of its own. */
  lemma SlotsBefore(cfg: Config, s: State, step: Step, r: string)
    requires Next(cfg, s, step).Some? && r in Next(cfg, s, step).value.active
    ensures var s' := Next(cfg, s, step).value;
      || (r in s.active && s'.active[r] == s.active[r] && !(step.Finish? && cfg.render(PcOf(s, step.c).key) == r))
      || (step.Join? && PcOf(s, step.c).Missed? && r == cfg.render(PcOf(s, step.c).key) && s'.active[r] == |s.flights|
          && |s'.flights| == |s.flights| + 1
          && s'.flights[|s.flights|] == Flight(PcOf(s, step.c).key, step.c, 0, None, None)
          && PcOf(s', step.c) == Rechecking(PcOf(s, step.c).key, |s.flights|))
  {
    hide EntryFor, Expired, Visible;
  }

  /** A leader stays in its flight until it finishes it. */
  lemma LeadersStay(cfg: Config, s: State, step: Step, c: nat)
    requires Next(cfg, s, step).Some? && Leads(PcOf(s, c)) && !(step.Finish? && step.c == c)
    ensures var s' := Next(cfg, s, step).value;
      && Leads(PcOf(s', c)) && PcOf(s', c).flight == PcOf(s, c).flight
      && forall f :: 0 <= f < |s.flights| ==> f < |s'.flights| && s'.flights[f].key == s.flights[f].key
  {
    hide EntryFor, Expired, Visible;
  }

  lemma OldSlotKept(cfg: Config, s: State, step: Step, r: string)
    requires Inv(cfg, s) && Next(cfg, s, step).Some? && r in s.active
    requires !(step.Finish? && cfg.render(PcOf(s, step.c).key) == r)
    requires r in Next(cfg, s, step).value.active && Next(cfg, s, step).value.active[r] == s.active[r]
    ensures SlotHeld(cfg, Next(cfg, s, step).value, r)
  {
    hide Next, LoadMatches, SharerMatches, StoresItsLoad, FlightMatches, WellStored;
    assert SlotHeld(cfg, s, r);
    var l := s.flights[s.active[r]].leader;
    assert LeaderHolds(cfg, s, l);
    LeadersStay(cfg, s, step, l);
    StepGrows(cfg, s, step);
    ResultsByFinish(cfg, s, step, s.active[r]);
    if step.Finish? {
      FinishSetsResult(cfg, s, step);
      assert LeaderHolds(cfg, s, step.c);
    }
  }

  lemma ResultsByFinish(cfg: Config, s: State, step: Step, f: nat)
    requires Next(cfg, s, step).Some? && f < |s.flights| && s.flights[f].result.None?
    ensures var s' := Next(cfg, s, step).value;
      f < |s'.flights| && (s'.flights[f].result.Some? ==>
        step.Finish? && PcOf(s, step.c).Finishing? && PcOf(s, step.c).flight == f)
  {
    hide EntryFor, Expired, Visible;
  }

  lemma SlotsKept(cfg: Config, s: State, step: Step)
    requires Inv(cfg, s) && Next(cfg, s, step).Some?
    ensures forall r :: SlotHeld(cfg, Next(cfg, s, step).value, r)
  {
    hide Next, LeaderHolds, LoadMatches, SharerMatches, StoresItsLoad, FlightMatches, WellStored;
    var s' := Next(cfg, s, step).value;
    forall r ensures SlotHeld(cfg, s', r) {
      assert SlotHeld(cfg, s, r);
      if r in s'.active {
        SlotsBefore(cfg, s, step, r);
        if s'.active[r] < |s.flights| { OldSlotKept(cfg, s, step, r); }
      }
    }
  }

  /** Flights are only added; their key, leader, load result and result never change once set. */
  predicate Grows(a: seq<Flight>, b: seq<Flight>) {
    |a| <= |b| && forall f :: 0 <= f < |a| ==>
      && b[f].key == a[f].key && b[f].leader == a[f].leader && a[f].loads <= b[f].loads
      && (a[f].loaded.Some? ==> b[f].loaded == a[f].loaded)
      && (a[f].result.Some? ==> b[f] == a[f])
  }

  lemma StepGrows(cfg: Config, s: State, step: Step)
    requires Inv(cfg, s) && Next(cfg, s, step).Some?
    ensures Grows(s.flights, Next(cfg, s, step).value.flights)
  {
    hide SharerMatches, SlotHeld, StoresItsLoad, WellStored, EntryFor, Expired, Visible;
    if step.StartLoad? || step.LoadDone? || step.Finish? {
      assert LeaderHolds(cfg, s, step.c) && LoadMatches(s, step.c);
    }
  }

  lemma OtherSharerKept(cfg: Config, s: State, step: Step, c: nat)
    requires Inv(cfg, s) && Next(cfg, s, step).Some? && Actor(step) != Some(c)
    ensures SharerMatches(cfg, Next(cfg, s, step).value, c)
  {
    hide Next, LoadMatches, SlotHeld, StoresItsLoad, FlightMatches, WellStored;
    assert SharerMatches(cfg, s, c);
    OthersStay(cfg, s, step, c);
    StepGrows(cfg, s, step);
    if PcOf(s, c).Waiting? {
      FinishSetsResult(cfg, s, step);
      if cfg.render(PcOf(s, c).key) in s.active { SlotsAfter(cfg, s, step, cfg.render(PcOf(s, c).key)); }
      if step.Finish? { assert LeaderHolds(cfg, s, step.c); }
    }
  }

  lemma FinishSetsResult(cfg: Config, s: State, step: Step)
    requires Next(cfg, s, step).Some?
    ensures step.Finish? ==>
      && PcOf(s, step.c).Finishing? && PcOf(s, step.c).flight < |Next(cfg, s, step).value.flights|
      && Next(cfg, s, step).value.flights[PcOf(s, step.c).flight].result.Some?
  {
    hide EntryFor, Expired, Visible;
  }

  lemma ActingSharerMatches(cfg: Config, s: State, step: Step)
    requires Inv(cfg, s) && Next(cfg, s, step).Some? && Actor(step).Some?
    ensures SharerMatches(cfg, Next(cfg, s, step).value, Actor(step).value)
  {
    hide LoadMatches, StoresItsLoad, FlightMatches, WellStored, EntryFor, Expired, Visible;
    var c := Actor(step).value;
    assert SharerMatches(cfg, s, c);
    if step.Finish? {
      assert LeaderHolds(cfg, s, c);
    } else if step.Join? && PcOf(s, c).Missed? {
      assert SlotHeld(cfg, s, cfg.render(PcOf(s, c).key));
    }
  }

  lemma SharersKept(cfg: Config, s: State, step: Step)
    requires Inv(cfg, s) && Next(cfg, s, step).Some?
    ensures forall c :: SharerMatches(cfg, Next(cfg, s, step).value, c)
  {
    hide Inv, Next, SharerMatches;
    forall c: nat ensures SharerMatches(cfg, Next(cfg, s, step).value, c) {
      if Actor(step) == Some(c) {
        ActingSharerMatches(cfg, s, step);
      } else {
        OtherSharerKept(cfg, s, step, c);
      }
    }
  }

  lemma FlightsKept(cfg: Config, s: State, step: Step)
    requires Inv(cfg, s) && Next(cfg, s, step).Some?
    ensures var s' := Next(cfg, s, step).value;
      forall f :: 0 <= f < |s'.flights| ==> FlightMatches(s'.flights[f])
  {
    hide SharerMatches, SlotHeld, StoresItsLoad, WellStored, EntryFor, Expired, Visible;
    if step.StartLoad? || step.LoadDone? || step.Finish? {
      assert LeaderHolds(cfg, s, step.c) && LoadMatches(s, step.c);
    }
  }

  lemma EntriesKept(cfg: Config, s: State, step: Step)
    requires Inv(cfg, s) && Next(cfg, s, step).Some?
    ensures WellStored(cfg, Next(cfg, s, step).value.items)
  {
    hide SharerMatches, SlotHeld, LeaderHolds, LoadMatches, FlightMatches, Visible, Expired;
    if step.StoreEntry? {
      assert StoresItsLoad(cfg, s, step.c);
    }
  }

  lemma BuildsKept(cfg: Config, s: State, step: Step)
    requires Inv(cfg, s) && Next(cfg, s, step).Some?
    ensures forall c :: StoresItsLoad(cfg, Next(cfg, s, step).value, c)
  {
    hide SharerMatches, SlotHeld, LeaderHolds, LoadMatches, FlightMatches, WellStored, Visible, Expired, EntryFor;
    var s' := Next(cfg, s, step).value;
    forall c ensures StoresItsLoad(cfg, s', c) {
      assert StoresItsLoad(cfg, s, c);
      if step.BuildEntry? && step.c == c && PcOf(s', c).Storing? {
        assert EntryFor(cfg, PcOf(s', c).res, s'.now) == Some(PcOf(s', c).item);
      }
    }
  }

  lemma SweeperKept(cfg: Config, s: State, step: Step)
    requires Inv(cfg, s) && Next(cfg, s, step).Some?
    ensures var s' := Next(cfg, s, step).value;
      && 0 <= s.now <= s'.now && s'.sweeper.at <= s'.now
      && (s'.sweeper.doomed.Some? ==> Expired(s'.sweeper.doomed.value.1, s'.sweeper.at))
  {
    hide SharerMatches, SlotHeld, LeaderHolds, LoadMatches, FlightMatches, StoresItsLoad, WellStored, Visible, EntryFor;
  }

  /** Every step keeps the invariant. */
  lemma StepKeepsInv(cfg: Config, s: State, step: Step)
    requires Inv(cfg, s) && Next(cfg, s, step).Some?
    ensures Inv(cfg, Next(cfg, s, step).value)
  {
    hide Next, SharerMatches, SlotHeld, LeaderHolds, LoadMatches, FlightMatches, StoresItsLoad, WellStored, Expired;
    LeadersKept(cfg, s, step);
    SlotsKept(cfg, s, step);
    SharersKept(cfg, s, step);
    FlightsKept(cfg, s, step);
    EntriesKept(cfg, s, step);
    BuildsKept(cfg, s, step);
    SweeperKept(cfg, s, step);
  }

  /** It holds after every run, whatever plain sets, deletes and sweeps are mixed in. */
  lemma {:induction false} RunKeepsInv(cfg: Config, s: State, steps: seq<Step>)
    requires Inv(cfg, s) && Run(cfg, s, steps).Some?
    ensures Inv(cfg, Run(cfg, s, steps).value)
    decreases |steps|
  {
    hide Inv, Next;
    if steps != [] {
      StepKeepsInv(cfg, s, steps[0]);
      RunKeepsInv(cfg, Next(cfg, s, steps[0]).value, steps[1..]);
    }
  }

  lemma StartInv(cfg: Config)
    ensures Inv(cfg, START)
  {}

  // ---- One load at a time, and only on a miss --------------------------------

  /** In every run, at most one caller leads, and so loads, under one rendering. */
  lemma OneLeader(cfg: Config, steps: seq<Step>, c: nat, d: nat)
    requires Run(cfg, START, steps).Some?
    requires var s := Run(cfg, START, steps).value;
      Leads(PcOf(s, c)) && Leads(PcOf(s, d)) && cfg.render(PcOf(s, c).key) == cfg.render(PcOf(s, d).key)
    ensures c == d
  {
    StartInv(cfg);
    RunKeepsInv(cfg, START, steps);
    var s := Run(cfg, START, steps).value;
    assert LeaderHolds(cfg, s, c) && LeaderHolds(cfg, s, d);
  }

  // ---- Loads over a live entry ------------------------------------------------

  /** After the steps, none of them a plain set, the caller may start its load although a live entry exists. */
  ghost predicate LoadsOverLive(cfg: Config, s: State, steps: seq<Step>, c: nat) {
    && NoPlainSets(steps) && Run(cfg, s, steps).Some?
    && var s' := Run(cfg, s, steps).value;
      PcOf(s', c).ReadyToLoad? && Next(cfg, s', StartLoad(c)).Some? && Live(s', PcOf(s', c).key)
  }

  predicate NoPlainSets(steps: seq<Step>) { forall i :: 0 <= i < |steps| ==> !steps[i].SetKey? }

  lemma OtherUnansweredKept(cfg: Config, s: State, step: Step, c: nat)
    requires Inv(cfg, s) && Next(cfg, s, step).Some? && !Answered(s, c) && !step.SetKey? && Actor(step) != Some(c)
    ensures !Answered(Next(cfg, s, step).value, c)
  {
    hide LoadMatches, SharerMatches, SlotHeld, StoresItsLoad, FlightMatches, WellStored, EntryFor, Visible, Outlives;
    OthersStay(cfg, s, step, c);
    if step.StoreEntry? {
      assert LeaderHolds(cfg, s, c) && LeaderHolds(cfg, s, step.c);
    }
  }

  lemma ActingUnansweredKept(cfg: Config, s: State, step: Step, c: nat)
    requires Next(cfg, s, step).Some? && !Answered(s, c) && Actor(step) == Some(c)
    ensures !Answered(Next(cfg, s, step).value, c)
  {
    hide EntryFor, Visible;
  }

  lemma UnansweredKept(cfg: Config, s: State, step: Step, c: nat)
    requires Inv(cfg, s) && Next(cfg, s, step).Some? && !Answered(s, c) && !step.SetKey?
    ensures !Answered(Next(cfg, s, step).value, c)
  {
    hide Inv, Next, Answered;
    if Actor(step) == Some(c) { ActingUnansweredKept(cfg, s, step, c); } else { OtherUnansweredKept(cfg, s, step, c); }
  }

  lemma {:induction false} UnansweredNeverLoads(cfg: Config, s: State, steps: seq<Step>, c: nat)
    requires Inv(cfg, s) && !Answered(s, c)
    ensures !LoadsOverLive(cfg, s, steps, c)
    decreases |steps|
  {
    hide Inv, Next, Live;
    if steps != [] && NoPlainSets(steps) && Next(cfg, s, steps[0]).Some? {
      UnansweredKept(cfg, s, steps[0], c);
      StepKeepsInv(cfg, s, steps[0]);
      UnansweredNeverLoads(cfg, Next(cfg, s, steps[0]).value, steps[1..], c);
      assert NoPlainSets(steps[1..]);
    }
  }

  lemma AnsweredLoads(cfg: Config, s: State, c: nat) returns (steps: seq<Step>)
    requires Inv(cfg, s) && Answered(s, c)
    ensures LoadsOverLive(cfg, s, steps, c)
  {
    hide SharerMatches, SlotHeld, StoresItsLoad, LoadMatches, FlightMatches, WellStored, EntryFor, Visible, Run;
    assert LeaderHolds(cfg, s, c);
    if PcOf(s, c).ReadyToLoad? {
      steps := [];
      Chain(cfg, [], [s]);
    } else {
      var seen := PcOf(s, c).item;
      var d := if s.now > seen.expires then 0 else seen.expires + 1 - s.now;
      steps := [Tick(d), RecheckCheck(c)];
      var s1 := Next(cfg, s, Tick(d)).value;
      Chain(cfg, steps, [s, s1, Next(cfg, s1, RecheckCheck(c)).value]);
    }
  }

  /** From any reachable state: without further plain sets a load can start over a live entry iff one is answered. */
  lemma LoadOverLiveExactly(cfg: Config, s: State, c: nat)
    requires Inv(cfg, s)
    ensures (exists steps :: LoadsOverLive(cfg, s, steps, c)) <==> Answered(s, c)
  {
    hide Inv, Answered, LoadsOverLive;
    if Answered(s, c) {
      var steps := AnsweredLoads(cfg, s, c);
    } else {
      forall steps ensures !LoadsOverLive(cfg, s, steps, c) { UnansweredNeverLoads(cfg, s, steps, c); }
    }
  }

  /**
   A plain set that lands under a leader past its second look, with an entry that is not expired: either the
   leader is about to load, or it saw an entry that expires before the new one does.
   */
  predicate Overtakes(s: State, step: Step, c: nat) {
    && step.SetKey? && (step.ttl <= 0 || s.now <= step.at + step.ttl)
    && match PcOf(s, c)
       case ReadyToLoad(key, _) => key == step.key
       case RecheckTime(key, _, item) =>
         key == step.key && item.expires > 0 && (step.ttl <= 0 || step.at + step.ttl > item.expires)
       case _ => false
  }

  lemma AnsweredAfterSet(cfg: Config, s: State, step: Step, c: nat)
    requires Inv(cfg, s) && Next(cfg, s, step).Some? && !Answered(s, c) && step.SetKey?
    ensures Answered(Next(cfg, s, step).value, c) <==> Overtakes(s, step, c)
  {
    hide Inv, EntryFor, Visible;
  }

  lemma AnsweredExactly(cfg: Config, s: State, step: Step, c: nat)
    requires Inv(cfg, s) && Next(cfg, s, step).Some? && !Answered(s, c)
    ensures Answered(Next(cfg, s, step).value, c) <==> Overtakes(s, step, c)
  {
    hide Inv, Next, Answered;
    if step.SetKey? {
      AnsweredAfterSet(cfg, s, step, c);
    } else {
      UnansweredKept(cfg, s, step, c);
    }
  }

  /**
   In a state of any run from which no load can start over a live entry, exactly an overtaking plain set
   makes one possible without another plain set.
   */
  lemma OvertakingExactly(cfg: Config, before: seq<Step>, step: Step, c: nat)
    requires Run(cfg, START, before).Some? && Next(cfg, Run(cfg, START, before).value, step).Some?
    requires forall steps :: !LoadsOverLive(cfg, Run(cfg, START, before).value, steps, c)
    ensures var s := Run(cfg, START, before).value; var s' := Next(cfg, s, step).value;
      (exists steps :: LoadsOverLive(cfg, s', steps, c)) <==> Overtakes(s, step, c)
  {
    hide Inv, Next, Run, Answered, Overtakes, LoadsOverLive;
    StartInv(cfg);
    RunKeepsInv(cfg, START, before);
    var s := Run(cfg, START, before).value;
    LoadOverLiveExactly(cfg, s, c);
    AnsweredExactly(cfg, s, step, c);
    StepKeepsInv(cfg, s, step);
    LoadOverLiveExactly(cfg, Next(cfg, s, step).value, c);
  }

  /** No plain set overtakes a leader. */
  ghost predicate Quiet(cfg: Config, s: State, steps: seq<Step>)
    decreases |steps|
  {
    steps != [] && Next(cfg, s, steps[0]).Some? ==>
      && (forall c :: !Overtakes(s, steps[0], c))
      && Quiet(cfg, Next(cfg, s, steps[0]).value, steps[1..])
  }

  /** At no point of the run can a load start over a live entry without a further plain set. */
  ghost predicate NeverLoadsOverLive(cfg: Config, s: State, steps: seq<Step>)
    decreases |steps|
  {
    && Harmless(cfg, s)
    && (steps != [] && Next(cfg, s, steps[0]).Some? ==>
      NeverLoadsOverLive(cfg, Next(cfg, s, steps[0]).value, steps[1..]))
  }

  ghost predicate Harmless(cfg: Config, s: State) {
    forall c: nat, more: seq<Step> :: !LoadsOverLive(cfg, s, more, c)
  }

  lemma HarmlessExactly(cfg: Config, s: State)
    requires Inv(cfg, s)
    ensures Harmless(cfg, s) <==> forall c :: !Answered(s, c)
  {
    hide Inv, Answered, LoadsOverLive;
    if c: nat :| Answered(s, c) {
      var steps := AnsweredLoads(cfg, s, c);
    } else {
      forall c: nat, more: seq<Step> ensures !LoadsOverLive(cfg, s, more, c) { UnansweredNeverLoads(cfg, s, more, c); }
    }
  }

  lemma {:induction false} QuietFrom(cfg: Config, s: State, steps: seq<Step>)
    requires Inv(cfg, s) && forall c :: !Answered(s, c)
    ensures Quiet(cfg, s, steps) <==> NeverLoadsOverLive(cfg, s, steps)
    decreases |steps|
  {
    hide Inv, Next, Answered, Overtakes, Harmless;
    HarmlessExactly(cfg, s);
    if steps != [] && Next(cfg, s, steps[0]).Some? {
      var s' := Next(cfg, s, steps[0]).value;
      forall c: nat ensures Answered(s', c) <==> Overtakes(s, steps[0], c) { AnsweredExactly(cfg, s, steps[0], c); }
      StepKeepsInv(cfg, s, steps[0]);
      HarmlessExactly(cfg, s');
      if forall c :: !Overtakes(s, steps[0], c) { QuietFrom(cfg, s', steps[1..]); }
    }
  }

  /** Loads start over live entries, now or without another plain set, exactly in runs that are not quiet. */
  lemma QuietExactly(cfg: Config, steps: seq<Step>)
    ensures Quiet(cfg, START, steps) <==> NeverLoadsOverLive(cfg, START, steps)
  {
    StartInv(cfg);
    QuietFrom(cfg, START, steps);
  }

  /** Runs whose entries are all stored by GetOrLoad are quiet. */
  lemma {:induction false} LoadedOnlyIsQuiet(cfg: Config, s: State, steps: seq<Step>)
    requires NoPlainSets(steps)
    ensures Quiet(cfg, s, steps)
    decreases |steps|
  {
    hide Next;
    if steps != [] && Next(cfg, s, steps[0]).Some? {
      LoadedOnlyIsQuiet(cfg, Next(cfg, s, steps[0]).value, steps[1..]);
    }
  }

  lemma {:induction false} QuietKeepsUnanswered(cfg: Config, s: State, steps: seq<Step>)
    requires Inv(cfg, s) && (forall c :: !Answered(s, c)) && Quiet(cfg, s, steps) && Run(cfg, s, steps).Some?
    ensures forall c :: !Answered(Run(cfg, s, steps).value, c)
    decreases |steps|
  {
    hide Inv, Next, Answered, Overtakes;
    if steps != [] {
      var s' := Next(cfg, s, steps[0]).value;
      StepKeepsInv(cfg, s, steps[0]);
      forall c: nat ensures !Answered(s', c) { AnsweredExactly(cfg, s, steps[0], c); }
      QuietKeepsUnanswered(cfg, s', steps[1..]);
    }
  }

  /**
   In a quiet run, a load that starts finds no live entry for its key and is its flight's first, and no
   other caller leads under that rendering.
   */
  lemma LoadStartsOnMiss(cfg: Config, steps: seq<Step>, c: nat)
    requires Quiet(cfg, START, steps) && Run(cfg, START, steps).Some?
    requires Next(cfg, Run(cfg, START, steps).value, StartLoad(c)).Some?
    ensures var s := Run(cfg, START, steps).value;
      && PcOf(s, c).ReadyToLoad?
      && !Live(s, PcOf(s, c).key)
      && PcOf(s, c).flight < |s.flights| && s.flights[PcOf(s, c).flight].loads == 0
      && forall d :: Leads(PcOf(s, d)) && d != c ==> cfg.render(PcOf(s, d).key) != cfg.render(PcOf(s, c).key)
  {
    hide Run, SharerMatches, SlotHeld, StoresItsLoad, FlightMatches, WellStored, EntryFor, Visible;
    StartInv(cfg);
    RunKeepsInv(cfg, START, steps);
    QuietKeepsUnanswered(cfg, START, steps);
    var s := Run(cfg, START, steps).value;
    assert !Answered(s, c) && LoadMatches(s, c) && LeaderHolds(cfg, s, c);
    forall d | Leads(PcOf(s, d)) && d != c ensures cfg.render(PcOf(s, d).key) != cfg.render(PcOf(s, c).key) {
      assert LeaderHolds(cfg, s, d);
    }
  }

  // ---- Sharing --------------------------------------------------------------

  lemma {:induction false} RunGrows(cfg: Config, s: State, steps: seq<Step>)
    requires Inv(cfg, s) && Run(cfg, s, steps).Some?
    ensures Grows(s.flights, Run(cfg, s, steps).value.flights)
    decreases |steps|
  {
    hide Inv, Next;
    if steps != [] {
      StepGrows(cfg, s, steps[0]);
      StepKeepsInv(cfg, s, steps[0]);
      RunGrows(cfg, Next(cfg, s, steps[0]).value, steps[1..]);
    }
  }

  /**
   Two callers that came back through one flight, possibly at different times, report the same outcome: that
   of the flight's one result, an error with the zero value.
   */
  lemma SharersAgree(cfg: Config, before: seq<Step>, after: seq<Step>, c: nat, d: nat)
    requires Run(cfg, START, before).Some? && Run(cfg, Run(cfg, START, before).value, after).Some?
    requires var s := Run(cfg, START, before).value; var s' := Run(cfg, s, after).value;
      && PcOf(s, c).Returned? && PcOf(s', d).Returned?
      && PcOf(s, c).shared.Some? && PcOf(s, c).shared == PcOf(s', d).shared
    ensures var s := Run(cfg, START, before).value; var s' := Run(cfg, s, after).value;
      var f := PcOf(s, c).shared.value;
      && PcOf(s, c).res == PcOf(s', d).res
      && f < |s.flights| && s.flights[f].loads <= 1 && s.flights[f].result.Some?
      && PcOf(s, c).res.err == s.flights[f].result.value.err
      && PcOf(s, c).res.value == (if PcOf(s, c).res.err.Some? then "" else s.flights[f].result.value.value)
      && (s.flights[f].loads == 1 ==> s.flights[f].loaded == s.flights[f].result)
  {
    StartInv(cfg);
    RunKeepsInv(cfg, START, before);
    var s := Run(cfg, START, before).value;
    RunKeepsInv(cfg, s, after);
    RunGrows(cfg, s, after);
    assert SharerMatches(cfg, s, c) && SharerMatches(cfg, Run(cfg, s, after).value, d);
    hide Next, Run, SlotHeld, LeaderHolds, LoadMatches, StoresItsLoad, WellStored;
  }

  /** The next step of a leader; any outcome may come of its load. */
  function LeaderStep(s: State, c: nat, load: Outcome): (step: Step)
    requires Leads(PcOf(s, c))
  {
    match PcOf(s, c)
    case Rechecking(_, _) => Recheck(c)
    case RecheckTime(_, _, _) => RecheckCheck(c)
    case ReadyToLoad(_, _) => StartLoad(c)
    case Loading(_, _) => LoadDone(c, load)
    case Loaded(_, _, _) => BuildEntry(c)
    case Storing(_, _, _, _) => StoreEntry(c)
    case _ => Finish(c)
  }

  /** How many steps a leader has to take at most. */
  function StepsLeft(pc: Pc): (n: nat) {
    match pc
    case Rechecking(_, _) => 7
    case RecheckTime(_, _, _) => 6
    case ReadyToLoad(_, _) => 5
    case Loading(_, _) => 4
    case Loaded(_, _, _) => 3
    case Storing(_, _, _, _) => 2
    case Finishing(_, _, _) => 1
    case _ => 0
  }

  /** A leader can always move, which brings it nearer to its flight's result, or sets it. */
  lemma LeaderCanMove(cfg: Config, s: State, c: nat, load: Outcome)
    requires Inv(cfg, s) && Leads(PcOf(s, c))
    ensures Next(cfg, s, LeaderStep(s, c, load)).Some?
    ensures var s' := Next(cfg, s, LeaderStep(s, c, load)).value; var f := PcOf(s, c).flight;
      if Leads(PcOf(s', c)) then PcOf(s', c).flight == f && StepsLeft(PcOf(s', c)) < StepsLeft(PcOf(s, c))
      else f < |s'.flights| && s'.flights[f].result.Some?
  {
    hide LoadMatches, SharerMatches, SlotHeld, StoresItsLoad, FlightMatches, WellStored, EntryFor, Expired, Visible;
    assert LeaderHolds(cfg, s, c);
  }

  ghost predicate FinishesAlone(cfg: Config, s: State, c: nat, steps: seq<Step>, f: nat) {
    && (forall i :: 0 <= i < |steps| ==> Actor(steps[i]) == Some(c))
    && Run(cfg, s, steps).Some?
    && var s' := Run(cfg, s, steps).value; f < |s'.flights| && s'.flights[f].result.Some?
  }

  /** So, whatever its load gives, a leader's own steps finish its flight. */
  lemma {:induction false} LeaderCanFinish(cfg: Config, s: State, c: nat, load: Outcome) returns (steps: seq<Step>)
    requires Inv(cfg, s) && Leads(PcOf(s, c))
    ensures FinishesAlone(cfg, s, c, steps, PcOf(s, c).flight)
    decreases StepsLeft(PcOf(s, c))
  {
    hide Inv, Next, Grows;
    var step := LeaderStep(s, c, load);
    LeaderCanMove(cfg, s, c, load);
    var s' := Next(cfg, s, step).value;
    StepKeepsInv(cfg, s, step);
    if Leads(PcOf(s', c)) {
      var rest := LeaderCanFinish(cfg, s', c, load);
      steps := [step] + rest;
      assert steps[1..] == rest;
    } else {
      steps := [step];
      assert steps[1..] == [] && Run(cfg, s', []) == Some(s');
    }
  }

  /** Nobody waits in vain: the steps of the flight's leader alone let a waiting caller go on. */
  lemma WaitersHaveALeader(cfg: Config, before: seq<Step>, c: nat)
    requires Run(cfg, START, before).Some? && PcOf(Run(cfg, START, before).value, c).Waiting?
    ensures var s := Run(cfg, START, before).value; var f := PcOf(s, c).flight;
      && f < |s.flights|
      && cfg.render(s.flights[f].key) == cfg.render(PcOf(s, c).key)
      && (s.flights[f].result.Some? ||
        (Leads(PcOf(s, s.flights[f].leader)) && PcOf(s, s.flights[f].leader).flight == f &&
         exists steps :: FinishesAlone(cfg, s, s.flights[f].leader, steps, f)))
  {
    hide Run, LeaderHolds, LoadMatches, StoresItsLoad, FlightMatches, WellStored, FinishesAlone;
    StartInv(cfg);
    RunKeepsInv(cfg, START, before);
    var s := Run(cfg, START, before).value;
    assert SharerMatches(cfg, s, c);
    assert SlotHeld(cfg, s, cfg.render(PcOf(s, c).key));
    var fl := s.flights[PcOf(s, c).flight];
    if fl.result.None? {
      var steps := LeaderCanFinish(cfg, s, fl.leader, Outcome(ZERO, None));
    }
  }

  /** Only cacheable errors are stored, and with the zero value. */
  lemma OnlyCacheableErrorsStored(cfg: Config, steps: seq<Step>, key: Key)
    requires Run(cfg, START, steps).Some?
    requires key in Run(cfg, START, steps).value.items
    ensures var item := Run(cfg, START, steps).value.items[key];
      item.err.Some? ==> cfg.isCacheable.Some? && cfg.isCacheable.value(item.err.value) && item.data == ZERO
  {
    StartInv(cfg);
    RunKeepsInv(cfg, START, steps);
  }

  // ---- What a run leaves under a key ------------------------------------------

  /** The entry a step puts under the key. */
  function StoredBy(s: State, step: Step, key: Key): (r: Option<Item>) {
    if step.SetKey? && step.key == key then Some(Positive(step.value, step.at, step.ttl))
    else if step.StoreEntry? && PcOf(s, step.c).Storing? && PcOf(s, step.c).key == key then Some(PcOf(s, step.c).item)
    else None
  }

  predicate RemovedBy(s: State, step: Step, key: Key) {
    step == DeleteKey(key) || (step.SweepDelete? && s.sweeper.doomed.Some? && s.sweeper.doomed.value.0 == key)
  }

  /** The last entry the steps put under the key, unless it was removed again; `held` stands for earlier ones. */
  function LastStored(cfg: Config, s: State, steps: seq<Step>, key: Key, held: Option<Item>): (r: Option<Item>)
    decreases |steps|
  {
    if steps == [] || Next(cfg, s, steps[0]).None? then held
    else LastStored(cfg, Next(cfg, s, steps[0]).value, steps[1..], key, HeldAfter(s, steps[0], key, held))
  }

  function HeldAfter(s: State, step: Step, key: Key, held: Option<Item>): (r: Option<Item>) {
    if StoredBy(s, step, key).Some? then StoredBy(s, step, key)
    else if RemovedBy(s, step, key) then None
    else held
  }

  /** The key holds `held`, or else what it held at first, or nothing. */
  predicate Holding(s: State, key: Key, held: Option<Item>, first: Option<Item>) {
    if held.Some? then key in s.items && s.items[key] == held.value
    else key in s.items ==> Some(s.items[key]) == first
  }

  lemma HoldingStep(cfg: Config, s: State, step: Step, key: Key, held: Option<Item>, first: Option<Item>)
    requires Holding(s, key, held, first) && Next(cfg, s, step).Some?
    ensures Holding(Next(cfg, s, step).value, key, HeldAfter(s, step, key, held), first)
  {
    hide EntryFor, Expired, Visible;
  }

  lemma {:induction false} HoldingRun(cfg: Config, s: State, steps: seq<Step>, key: Key, held: Option<Item>,
                                      first: Option<Item>)
    requires Holding(s, key, held, first) && Run(cfg, s, steps).Some?
    ensures Holding(Run(cfg, s, steps).value, key, LastStored(cfg, s, steps, key, held), first)
    decreases |steps|
  {
    hide Next, Holding, HeldAfter;
    if steps != [] {
      HoldingStep(cfg, s, steps[0], key, held, first);
      HoldingRun(cfg, Next(cfg, s, steps[0]).value, steps[1..], key, HeldAfter(s, steps[0], key, held), first);
    }
  }

  predicate Unexpired(entry: Option<Item>, now: int) { entry.Some? && !Expired(entry.value, now) }

  lemma TimePasses(cfg: Config, s: State, step: Step)
    requires Next(cfg, s, step).Some?
    ensures s.now <= Next(cfg, s, step).value.now
  {
    hide EntryFor, Expired, Visible;
  }

  lemma {:induction false} TimePassesInRun(cfg: Config, s: State, steps: seq<Step>)
    requires Run(cfg, s, steps).Some?
    ensures s.now <= Run(cfg, s, steps).value.now
    decreases |steps|
  {
    hide Next;
    if steps != [] {
      TimePasses(cfg, s, steps[0]);
      TimePassesInRun(cfg, Next(cfg, s, steps[0]).value, steps[1..]);
    }
  }

  // ---- The sweeper ------------------------------------------------------------

  predicate NoSweeperSteps(steps: seq<Step>) {
    forall i :: 0 <= i < |steps| ==> !steps[i].SweepStart? && !steps[i].SweepSee? && !steps[i].SweepDelete?
  }

  lemma SweeperWaits(cfg: Config, s: State, step: Step)
    requires Next(cfg, s, step).Some? && !step.SweepStart? && !step.SweepSee? && !step.SweepDelete?
    ensures Next(cfg, s, step).value.sweeper == s.sweeper
  {
    hide EntryFor, Expired, Visible;
  }

  lemma {:induction false} SweeperWaitsInRun(cfg: Config, s: State, steps: seq<Step>)
    requires Run(cfg, s, steps).Some? && NoSweeperSteps(steps)
    ensures Run(cfg, s, steps).value.sweeper == s.sweeper
    decreases |steps|
  {
    hide Next;
    if steps != [] {
      SweeperWaits(cfg, s, steps[0]);
      assert NoSweeperSteps(steps[1..]);
      SweeperWaitsInRun(cfg, Next(cfg, s, steps[0]).value, steps[1..]);
    }
  }

  /**
   Between the sweeper's look at an entry and its delete anything may happen. The delete removes a live
   entry exactly when the last one stored in between has not been deleted and has not expired.
   */
  lemma SweepDeletesLiveExactly(cfg: Config, before: seq<Step>, key: Key, between: seq<Step>)
    requires Run(cfg, START, before).Some? && Next(cfg, Run(cfg, START, before).value, SweepSee(key)).Some?
    requires var seen := Next(cfg, Run(cfg, START, before).value, SweepSee(key)).value;
      NoSweeperSteps(between) && Run(cfg, seen, between).Some?
    ensures var seen := Next(cfg, Run(cfg, START, before).value, SweepSee(key)).value;
      var s := Run(cfg, seen, between).value;
      && Next(cfg, s, SweepDelete).Some?
      && Next(cfg, s, SweepDelete).value.items == s.items - {key}
      && (Live(s, key) <==> Unexpired(LastStored(cfg, seen, between, key, None), s.now))
  {
    hide Run, LastStored, LeaderHolds, LoadMatches, SharerMatches, SlotHeld, StoresItsLoad, FlightMatches, WellStored;
    StartInv(cfg);
    RunKeepsInv(cfg, START, before);
    var s0 := Run(cfg, START, before).value;
    var seen := Next(cfg, s0, SweepSee(key)).value;
    SweeperWaitsInRun(cfg, seen, between);
    TimePassesInRun(cfg, seen, between);
    HoldingRun(cfg, seen, between, key, None, Some(s0.items[key]));
  }

  // ---- Loads that meet a live entry -------------------------------------------

  /** Past its second look, which found `first`, and not loading yet. */
  predicate Looked(s: State, c: nat, key: Key, first: Option<Item>) {
    match PcOf(s, c)
    case RecheckTime(k, _, item) => k == key && first == Some(item)
    case ReadyToLoad(k, _) => k == key && (first.Some? ==> Expired(first.value, s.now))
    case Finishing(k, _, _) => k == key
    case _ => false
  }

  /** Of its own steps the caller takes only the check of the entry it saw. */
  predicate OnlyChecks(steps: seq<Step>, c: nat) {
    forall i :: 0 <= i < |steps| ==> Actor(steps[i]) == Some(c) ==> steps[i].RecheckCheck?
  }

  lemma LookedStep(cfg: Config, s: State, step: Step, c: nat, key: Key, first: Option<Item>)
    requires Looked(s, c, key, first) && Next(cfg, s, step).Some?
    requires Actor(step) == Some(c) ==> step.RecheckCheck?
    ensures Looked(Next(cfg, s, step).value, c, key, first)
  {
    hide EntryFor, Visible;
    if Actor(step) != Some(c) {
      OthersStay(cfg, s, step, c);
      TimePasses(cfg, s, step);
    }
  }

  lemma {:induction false} LookedRun(cfg: Config, s: State, steps: seq<Step>, c: nat, key: Key, first: Option<Item>)
    requires Looked(s, c, key, first) && Run(cfg, s, steps).Some? && OnlyChecks(steps, c)
    ensures Looked(Run(cfg, s, steps).value, c, key, first)
    decreases |steps|
  {
    hide Next, Looked;
    if steps != [] {
      LookedStep(cfg, s, steps[0], c, key, first);
      assert OnlyChecks(steps[1..], c);
      LookedRun(cfg, Next(cfg, s, steps[0]).value, steps[1..], c, key, first);
    }
  }

  /**
   A load that starts meets a live entry exactly when the last one stored since its leader's second look has
   not been removed and has not expired.
   */
  lemma LoadMeetsLiveExactly(cfg: Config, before: seq<Step>, c: nat, between: seq<Step>)
    requires Run(cfg, START, before).Some? && Next(cfg, Run(cfg, START, before).value, Recheck(c)).Some?
    requires var looked := Next(cfg, Run(cfg, START, before).value, Recheck(c)).value;
      && OnlyChecks(between, c) && Run(cfg, looked, between).Some?
      && Next(cfg, Run(cfg, looked, between).value, StartLoad(c)).Some?
    ensures var looked := Next(cfg, Run(cfg, START, before).value, Recheck(c)).value;
      var s := Run(cfg, looked, between).value;
      && PcOf(s, c).ReadyToLoad?
      && (Live(s, PcOf(s, c).key) <==> Unexpired(LastStored(cfg, looked, between, PcOf(s, c).key, None), s.now))
  {
    hide Run, LastStored, EntryFor, Visible;
    var s0 := Run(cfg, START, before).value;
    var key := PcOf(s0, c).key;
    var first := if key in s0.items then Some(s0.items[key]) else None;
    var looked := Next(cfg, s0, Recheck(c)).value;
    LookedRun(cfg, looked, between, c, key, first);
    HoldingRun(cfg, looked, between, key, None, first);
  }

  /** Such an entry comes from a plain set: nothing else is stored under a key somebody leads. */
  lemma OthersOnlySet(cfg: Config, before: seq<Step>, c: nat, step: Step)
    requires Run(cfg, START, before).Some? && Leads(PcOf(Run(cfg, START, before).value, c)) && Actor(step) != Some(c)
    requires var s := Run(cfg, START, before).value; StoredBy(s, step, PcOf(s, c).key).Some?
    ensures step.SetKey?
  {
    hide Run, Inv;
    if step.StoreEntry? { OneLeader(cfg, before, c, step.c); }
  }

  /**
   Between the entry one load leaves and the next load for the key in a quiet run, that entry, or whatever
   replaced it last, has been removed or has expired.
   */
  lemma BetweenLoads(cfg: Config, before: seq<Step>, d: nat, between: seq<Step>, c: nat)
    requires Run(cfg, START, before + [StoreEntry(d)]).Some? && Run(cfg, START, before).Some?
    requires PcOf(Run(cfg, START, before).value, d).Storing?
    requires var stored := Run(cfg, START, before + [StoreEntry(d)]).value;
      && Run(cfg, stored, between).Some? && Quiet(cfg, START, before + [StoreEntry(d)] + between)
      && Next(cfg, Run(cfg, stored, between).value, StartLoad(c)).Some?
      && PcOf(Run(cfg, stored, between).value, c).ReadyToLoad?
      && PcOf(Run(cfg, stored, between).value, c).key == PcOf(Run(cfg, START, before).value, d).key
    ensures var stored := Run(cfg, START, before + [StoreEntry(d)]).value;
      var s := Run(cfg, stored, between).value; var pc := PcOf(Run(cfg, START, before).value, d);
      !Unexpired(LastStored(cfg, stored, between, pc.key, Some(pc.item)), s.now)
  {
    hide Run, Quiet, LastStored, EntryFor, Visible;
    var run := before + [StoreEntry(d)];
    var stored := Run(cfg, START, run).value;
    var pc := PcOf(Run(cfg, START, before).value, d);
    RunAppend(cfg, START, before, [StoreEntry(d)]);
    OneStep(cfg, Run(cfg, START, before).value, StoreEntry(d));
    RunAppend(cfg, START, run, between);
    LoadStartsOnMiss(cfg, run + between, c);
    HoldingRun(cfg, stored, between, pc.key, Some(pc.item), None);
  }

  lemma OneStep(cfg: Config, s: State, step: Step)
    ensures Run(cfg, s, [step]) == Next(cfg, s, step)
  {
    hide Next;
    assert [step][1..] == [];
    var r := Next(cfg, s, step);
    if r.Some? { assert Run(cfg, r.value, []) == r; }
  }
}
