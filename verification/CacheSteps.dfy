/**
 Concurrent use of the cache as a machine of atomic steps: callers of GetOrLoad, flights that share one
 load, deletes, plain sets, the sweeper and the clock. A flight key is the rendering of a cache key.
 */
module CacheSteps {
  import opened Bytes
  import opened Cache

  /** Where a caller is. The states from Rechecking to Finishing are the leader's, inside its flight. */
  datatype Pc =
    | Idle
    | Probing(key: Key)
    | ProbeTime(key: Key, item: Item)
    | Missed(key: Key)
    | Waiting(key: Key, flight: nat)
    | Rechecking(key: Key, flight: nat)
    | RecheckTime(key: Key, flight: nat, item: Item)
    | ReadyToLoad(key: Key, flight: nat)
    | Loading(key: Key, flight: nat)
    | Loaded(key: Key, flight: nat, res: Outcome)
    | Storing(key: Key, flight: nat, res: Outcome, item: Item)
    | Finishing(key: Key, flight: nat, res: Outcome)
    | Returned(key: Key, res: Outcome, shared: Option<nat>)

  predicate Leads(pc: Pc) {
    pc.Rechecking? || pc.RecheckTime? || pc.ReadyToLoad? || pc.Loading? || pc.Loaded? || pc.Storing? || pc.Finishing?
  }

  /** The key a flight is for, who leads it, how often it ran its load and what that gave, and its result. */
  datatype Flight = Flight(key: Key, leader: nat, loads: nat, loaded: Option<Outcome>, result: Option<Outcome>)

  /** The sweeper remembers the time it started at, and the entry it is about to delete. */
  datatype Sweeper = Sweeper(at: int, doomed: Option<(Key, Item)>)

  datatype State = State(
    items: map<Key, Item>,
    now: int,
    active: map<string, nat>,
    flights: seq<Flight>,
    callers: map<nat, Pc>,
    sweeper: Sweeper)

  datatype Step =
    | Call(c: nat, key: Key)
    | Probe(c: nat)
    | ProbeCheck(c: nat)
    | Join(c: nat)
    | Recheck(c: nat)
    | RecheckCheck(c: nat)
    | StartLoad(c: nat)
    | LoadDone(c: nat, res: Outcome)
    | BuildEntry(c: nat)
    | StoreEntry(c: nat)
    | Finish(c: nat)
    | Wake(c: nat)
    | Tick(d: nat)
    | DeleteKey(key: Key)
    | SetKey(key: Key, value: Value, ttl: int, at: int)
    | SweepStart
    | SweepSee(key: Key)
    | SweepDelete

  const START := State(map[], 0, map[], [], map[], Sweeper(0, None))

  function PcOf(s: State, c: nat): (pc: Pc) { if c in s.callers then s.callers[c] else Idle }

  function Move(s: State, c: nat, pc: Pc): (s': State) { s.(callers := s.callers[c := pc]) }

  /** The caller a step moves. */
  function Actor(step: Step): (r: Option<nat>) {
    match step
    case Call(c, _) => Some(c)
    case Probe(c) => Some(c)
    case ProbeCheck(c) => Some(c)
    case Join(c) => Some(c)
    case Recheck(c) => Some(c)
    case RecheckCheck(c) => Some(c)
    case StartLoad(c) => Some(c)
    case LoadDone(c, _) => Some(c)
    case BuildEntry(c) => Some(c)
    case StoreEntry(c) => Some(c)
    case Finish(c) => Some(c)
    case Wake(c) => Some(c)
    case _ => None
  }

  /** The state after a step, if the step can be taken. A plain set stores what it built when it read the clock. */
  function Next(cfg: Config, s: State, step: Step): (r: Option<State>) {
    match step
    case Call(c, key) =>
      if PcOf(s, c).Idle? || PcOf(s, c).Returned? then Some(Move(s, c, Probing(key))) else None
    case Probe(c) =>
      (match PcOf(s, c)
       case Probing(key) => Some(Move(s, c, if key in s.items then ProbeTime(key, s.items[key]) else Missed(key)))
       case _ => None)
    case ProbeCheck(c) =>
      (match PcOf(s, c)
       case ProbeTime(key, item) =>
         Some(Move(s, c, if Expired(item, s.now) then Missed(key) else Returned(key, ItemOutcome(item), None)))
       case _ => None)
    case Join(c) =>
      (match PcOf(s, c)
       case Missed(key) =>
         if cfg.render(key) in s.active then Some(Move(s, c, Waiting(key, s.active[cfg.render(key)])))
         else
           var f := |s.flights|;
           Some(Move(s, c, Rechecking(key, f)).(
             active := s.active[cfg.render(key) := f],
             flights := s.flights + [Flight(key, c, 0, None, None)]))
       case _ => None)
    case Recheck(c) =>
      (match PcOf(s, c)
       case Rechecking(key, f) =>
         Some(Move(s, c, if key in s.items then RecheckTime(key, f, s.items[key]) else ReadyToLoad(key, f)))
       case _ => None)
    case RecheckCheck(c) =>
      (match PcOf(s, c)
       case RecheckTime(key, f, item) =>
         Some(Move(s, c, if Expired(item, s.now) then ReadyToLoad(key, f) else Finishing(key, f, ItemOutcome(item))))
       case _ => None)
    case StartLoad(c) =>
      (match PcOf(s, c)
       case ReadyToLoad(key, f) =>
         if f < |s.flights| then
           Some(Move(s, c, Loading(key, f)).(
             flights := s.flights[f := s.flights[f].(loads := s.flights[f].loads + 1)]))
         else None
       case _ => None)
    case LoadDone(c, res) =>
      (match PcOf(s, c)
       case Loading(key, f) =>
         if f < |s.flights| then
           Some(Move(s, c, Loaded(key, f, res)).(
             flights := s.flights[f := s.flights[f].(loaded := Some(res))]))
         else None
       case _ => None)
    case BuildEntry(c) =>
      (match PcOf(s, c)
       case Loaded(key, f, res) =>
         var entry := EntryFor(cfg, res, s.now);
         Some(Move(s, c, if entry.Some? then Storing(key, f, res, entry.value) else Finishing(key, f, res)))
       case _ => None)
    case StoreEntry(c) =>
      (match PcOf(s, c)
       case Storing(key, f, res, item) =>
         Some(Move(s, c, Finishing(key, f, res)).(items := s.items[key := item]))
       case _ => None)
    case Finish(c) =>
      (match PcOf(s, c)
       case Finishing(key, f, res) =>
         if f < |s.flights| then
           Some(Move(s, c, Returned(key, Visible(res), Some(f))).(
             active := s.active - {cfg.render(key)},
             flights := s.flights[f := s.flights[f].(result := Some(res))]))
         else None
       case _ => None)
    case Wake(c) =>
      (match PcOf(s, c)
       case Waiting(key, f) =>
         if f < |s.flights| && s.flights[f].result.Some? then
           Some(Move(s, c, Returned(key, Visible(s.flights[f].result.value), Some(f))))
         else None
       case _ => None)
    case Tick(d) => Some(s.(now := s.now + d))
    case DeleteKey(key) => Some(s.(items := s.items - {key}))
    case SetKey(key, value, ttl, at) =>
      if 0 <= at <= s.now then Some(s.(items := s.items[key := Positive(value, at, ttl)])) else None
    case SweepStart => Some(s.(sweeper := Sweeper(s.now, None)))
    case SweepSee(key) =>
      if key in s.items && s.sweeper.doomed.None? && Expired(s.items[key], s.sweeper.at) then
        Some(s.(sweeper := s.sweeper.(doomed := Some((key, s.items[key])))))
      else None
    case SweepDelete =>
      if s.sweeper.doomed.Some? then
        Some(s.(items := s.items - {s.sweeper.doomed.value.0}, sweeper := s.sweeper.(doomed := None)))
      else None
  }

  /** The state after a sequence of steps, if each can be taken. */
  function Run(cfg: Config, s: State, steps: seq<Step>): (r: Option<State>)
    decreases |steps|
  {
    if steps == [] then Some(s)
    else
      var s' := Next(cfg, s, steps[0]);
      if s'.None? then None else Run(cfg, s'.value, steps[1..])
  }

  lemma {:induction false} RunAppend(cfg: Config, s: State, first: seq<Step>, more: seq<Step>)
    requires Run(cfg, s, first).Some?
    ensures Run(cfg, s, first + more) == Run(cfg, Run(cfg, s, first).value, more)
    decreases |first|
  {
    hide Next;
    if first == [] {
      assert first + more == more;
    } else {
      RunAppend(cfg, Next(cfg, s, first[0]).value, first[1..], more);
      assert (first + more)[1..] == first[1..] + more;
    }
  }

  /** A run passes through a sequence of states that each step links. */
  lemma {:induction false} Chain(cfg: Config, steps: seq<Step>, states: seq<State>)
    requires |states| == |steps| + 1
    requires forall i {:trigger steps[i]} :: 0 <= i < |steps| ==> Next(cfg, states[i], steps[i]) == Some(states[i + 1])
    ensures Run(cfg, states[0], steps) == Some(states[|steps|])
    decreases |steps|
  {
    hide Next;
    if steps != [] {
      Chain(cfg, steps[1..], states[1..]);
    }
  }

  // ---- The invariant ------------------------------------------------------

  predicate Live(s: State, key: Key) { LiveIn(s.items, key, s.now) }

  /** A leader holds its flight's slot: nobody else leads under the same rendering. */
  predicate LeaderHolds(cfg: Config, s: State, c: nat) {
    var pc := PcOf(s, c);
    Leads(pc) ==>
      && pc.flight < |s.flights|
      && s.flights[pc.flight].key == pc.key
      && s.flights[pc.flight].leader == c
      && s.flights[pc.flight].result.None?
      && cfg.render(pc.key) in s.active
      && s.active[cfg.render(pc.key)] == pc.flight
  }

  /** How far the load of a led flight is. */
  predicate LoadMatches(s: State, c: nat) {
    var pc := PcOf(s, c);
    Leads(pc) && pc.flight < |s.flights| ==>
      var fl := s.flights[pc.flight];
      match pc
      case Rechecking(_, _) => fl.loads == 0
      case RecheckTime(_, _, _) => fl.loads == 0
      case ReadyToLoad(_, _) => fl.loads == 0
      case Loading(_, _) => fl.loads == 1 && fl.loaded.None?
      case Loaded(_, _, res) => fl.loads == 1 && fl.loaded == Some(res)
      case Storing(_, _, res, _) => fl.loads == 1 && fl.loaded == Some(res)
      case Finishing(_, _, res) => fl.loads == 0 || (fl.loads == 1 && fl.loaded == Some(res))
      case _ => true
  }

  /** Sharers have joined a flight with their key's rendering, and report its result. */
  predicate SharerMatches(cfg: Config, s: State, c: nat) {
    match PcOf(s, c)
    case Waiting(key, f) =>
      && f < |s.flights| && cfg.render(s.flights[f].key) == cfg.render(key)
      && (s.flights[f].result.None? ==> cfg.render(key) in s.active && s.active[cfg.render(key)] == f)
    case Returned(key, res, Some(f)) =>
      && f < |s.flights| && cfg.render(s.flights[f].key) == cfg.render(key)
      && s.flights[f].result.Some? && res == Visible(s.flights[f].result.value)
    case _ => true
  }

  /** A taken slot belongs to an unfinished flight whose leader is still in it. */
  predicate SlotHeld(cfg: Config, s: State, r: string) {
    r in s.active ==>
      && s.active[r] < |s.flights|
      && var fl := s.flights[s.active[r]];
        && cfg.render(fl.key) == r && fl.result.None?
        && Leads(PcOf(s, fl.leader)) && PcOf(s, fl.leader).flight == s.active[r]
  }

  /** A finished flight's result is a cached entry's, or its one load's. */
  predicate FlightMatches(fl: Flight) {
    && fl.loads <= 1 && (fl.loads == 0 ==> fl.loaded.None?)
    && (fl.result.Some? && fl.loads == 1 ==> fl.loaded == fl.result)
  }

  /** An entry on its way to the store was built from its load's result, at some time up to now. */
  ghost predicate StoresItsLoad(cfg: Config, s: State, c: nat) {
    match PcOf(s, c)
    case Storing(_, _, res, item) => exists t :: t <= s.now && EntryFor(cfg, res, t) == Some(item)
    case _ => true
  }

  ghost predicate Inv(cfg: Config, s: State) {
    && (forall c :: LeaderHolds(cfg, s, c))
    && (forall r :: SlotHeld(cfg, s, r))
    && (forall c :: LoadMatches(s, c))
    && (forall c :: SharerMatches(cfg, s, c))
    && (forall f :: 0 <= f < |s.flights| ==> FlightMatches(s.flights[f]))
    && WellStored(cfg, s.items)
    && (forall c :: StoresItsLoad(cfg, s, c))
    && 0 <= s.now && s.sweeper.at <= s.now
    && (s.sweeper.doomed.Some? ==> Expired(s.sweeper.doomed.value.1, s.sweeper.at))
  }

  // ---- Live entries under a leader ------------------------------------------

  /** The entry lives on past the one the leader has looked at. */
  predicate Outlives(entry: Item, seen: Item) {
    seen.expires > 0 && (entry.expires <= 0 || entry.expires > seen.expires)
  }

  /** A leader about to load has a live entry under its key, or will have when what it saw has expired. */
  predicate Answered(s: State, c: nat) {
    match PcOf(s, c)
    case ReadyToLoad(key, _) => Live(s, key)
    case RecheckTime(key, _, item) => Live(s, key) && Outlives(s.items[key], item)
    case _ => false
  }
}
