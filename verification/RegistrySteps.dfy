/**
 The registry as a machine of atomic steps: concurrent callers, a lock, transactions that read a snapshot and
 may fail at any point, restarts at any moment, and other users of the shared store.
 */
module RegistrySteps {
  import opened Bytes
  import opened Lex
  import opened Store
  import opened Tables
  import opened Registry

  /** Where a caller is. A transaction reads the rows as they were when it began. */
  datatype Pc =
    | Idle
    | Wanting(id: Bytes)
    | Holding(id: Bytes)
    | Reading(id: Bytes, snapshot: Rows)
    | Counting(id: Bytes, snapshot: Rows)
    | Writing(id: Bytes, prefix: Bytes)
    | Answering(id: Bytes, answer: Result<Bytes, Error>)
    | Returned(id: Bytes, answer: Result<Bytes, Error>)

  predicate Inside(pc: Pc) { pc.Holding? || pc.Reading? || pc.Counting? || pc.Writing? || pc.Answering? }

  datatype State = State(rows: Rows, lock: Option<nat>, callers: map<nat, Pc>)

  datatype Step =
    | Ask(c: nat, id: Bytes)
    | Lock(c: nat)
    | Begin(c: nat)
    | ReadAssignment(c: nat)
    | ReadLast(c: nat)
    | Commit(c: nat, reported: bool)
    | Fail(c: nat, call: StoreCall)
    | Unlock(c: nat)
    | Restart
    | OtherWrite(key: Bytes, value: Bytes)
    | OtherDelete(key: Bytes)

  const START := State(map[], None, map[])

  function PcOf(s: State, c: nat): (pc: Pc) { if c in s.callers then s.callers[c] else Idle }

  function Move(s: State, c: nat, pc: Pc): (s': State) { s.(callers := s.callers[c := pc]) }

  /** The store calls a caller makes from where it is. */
  predicate MayFail(pc: Pc, call: StoreCall) {
    match call
    case GetAssignment => pc.Reading?
    case GetCounter => pc.Counting?
    case _ => pc.Writing?
  }

  /** The state after a step, if the step can be taken. A commit may be durable although it reports failure. */
  function Next(s: State, step: Step): (r: Option<State>) {
    match step
    case Ask(c, id) =>
      if PcOf(s, c).Idle? || PcOf(s, c).Returned? then
        Some(Move(s, c, if id == [] then Returned(id, Err(EmptyId)) else Wanting(id)))
      else None
    case Lock(c) =>
      (match PcOf(s, c)
       case Wanting(id) => if s.lock.None? then Some(Move(s, c, Holding(id)).(lock := Some(c))) else None
       case _ => None)
    case Begin(c) =>
      (match PcOf(s, c)
       case Holding(id) => Some(Move(s, c, Reading(id, s.rows)))
       case _ => None)
    case ReadAssignment(c) =>
      (match PcOf(s, c)
       case Reading(id, snapshot) =>
         var found := Find(snapshot, AssignmentKey(id));
         Some(Move(s, c, if found.Some? then Answering(id, Ok(found.value)) else Counting(id, snapshot)))
       case _ => None)
    case ReadLast(c) =>
      (match PcOf(s, c)
       case Counting(id, snapshot) =>
         if !CounterFits(snapshot) then None
         else if Counter(snapshot) + 1 > MAX_PREFIX then Some(Move(s, c, Answering(id, Err(Exhausted))))
         else Some(Move(s, c, Writing(id, PrefixOf(Counter(snapshot) + 1))))
       case _ => None)
    case Commit(c, reported) =>
      (match PcOf(s, c)
       case Writing(id, prefix) =>
         Some(Move(s, c, Answering(id, if reported then Ok(prefix) else Err(StoreFailed(CommitTxn)))).(
           rows := WithAssignment(s.rows, id, prefix)))
       case _ => None)
    case Fail(c, call) =>
      if MayFail(PcOf(s, c), call) then Some(Move(s, c, Answering(PcOf(s, c).id, Err(StoreFailed(call))))) else None
    case Unlock(c) =>
      (match PcOf(s, c)
       case Answering(id, answer) => Some(Move(s, c, Returned(id, answer)).(lock := None))
       case _ => None)
    case Restart => Some(State(s.rows, None, map[]))
    case OtherWrite(key, value) =>
      if HasPrefix(key, RESERVED) then None else Some(s.(rows := s.rows[key := value]))
    case OtherDelete(key) =>
      if HasPrefix(key, RESERVED) then None else Some(s.(rows := s.rows - {key}))
  }

  function Run(s: State, steps: seq<Step>): (r: Option<State>)
    decreases |steps|
  {
    if steps == [] then Some(s)
    else
      var s' := Next(s, steps[0]);
      if s'.None? then None else Run(s'.value, steps[1..])
  }

  // ---- The invariant ----------------------------------------------------------------

  /** Only the holder of the lock is inside, and what it has read still holds. */
  ghost predicate CallerInv(s: State, c: nat)
    requires Sound(s.rows)
  {
    && (Inside(PcOf(s, c)) ==> s.lock == Some(c) && PcOf(s, c).id != [])
    && (PcOf(s, c).Wanting? ==> PcOf(s, c).id != [])
    && match PcOf(s, c)
       case Reading(_, snapshot) => SameReserved(snapshot, s.rows)
       case Counting(id, snapshot) => SameReserved(snapshot, s.rows) && id !in Assigned(s.rows)
       case Writing(id, prefix) =>
         id !in Assigned(s.rows) && Counter(s.rows) < MAX_PREFIX && prefix == PrefixOf(Counter(s.rows) + 1)
       case Answering(id, answer) => Truthful(s.rows, id, answer)
       case Returned(id, answer) => Truthful(s.rows, id, answer)
       case _ => true
  }

  /** What an answer says about the rows, then and ever after. */
  ghost predicate Truthful(rows: Rows, id: Bytes, answer: Result<Bytes, Error>)
    requires Sound(rows)
  {
    match answer
    case Ok(p) => id in Assigned(rows) && Assigned(rows)[id] == p
    case Err(Exhausted) => id !in Assigned(rows) && Counter(rows) == MAX_PREFIX
    case Err(EmptyId) => id == []
    case Err(StoreFailed(_)) => true
  }

  /** Nobody keeps the lock without being inside. */
  predicate LockHeld(s: State) { s.lock.Some? ==> Inside(PcOf(s, s.lock.value)) }

  ghost predicate Inv(s: State) { Sound(s.rows) && LockHeld(s) && forall c :: CallerInv(s, c) }

  /** Assignments are only added, in number as in name. */
  ghost predicate Grown(a: Rows, b: Rows)
    requires Sound(a) && Sound(b)
  {
    && Counter(a) <= Counter(b)
    && forall id :: id in Assigned(a) ==> id in Assigned(b) && Assigned(b)[id] == Assigned(a)[id]
  }

  lemma SameIsGrown(a: Rows, b: Rows)
    requires SameReserved(a, b) && Sound(a)
    ensures Sound(b) && Grown(a, b) && Grown(b, a)
  {
    hide Sound, Counter, SameReserved, View;
    SameReservedMeaning(a, b);
    SoundBounds(a);
    SoundBounds(b);
  }

  /** A step leaves the registry's rows alone, except for a commit by a caller about to write. */
  lemma RowsAfter(s: State, step: Step)
    requires Next(s, step).Some?
    ensures var s' := Next(s, step).value;
      if step.Commit? then
        PcOf(s, step.c).Writing? && s'.rows == WithAssignment(s.rows, PcOf(s, step.c).id, PcOf(s, step.c).prefix)
      else SameReserved(s.rows, s'.rows)
  {
    hide Counter, WithAssignment, AssignmentKey;
  }

  lemma WriterFacts(s: State, c: nat)
    requires Inv(s) && PcOf(s, c).Writing?
    ensures CounterFits(s.rows) && Counter(s.rows) < MAX_PREFIX
    ensures PcOf(s, c).id != [] && PcOf(s, c).id !in Assigned(s.rows)
    ensures PcOf(s, c).prefix == PrefixOf(Counter(s.rows) + 1)
  {
    hide Counter, SameReserved, View, PrefixOf, Truthful, Numbered;
    assert CallerInv(s, c);
  }

  lemma CommitIsSound(s: State, c: nat)
    requires Inv(s) && PcOf(s, c).Writing?
    ensures var rows' := WithAssignment(s.rows, PcOf(s, c).id, PcOf(s, c).prefix);
      && Sound(rows') && Grown(s.rows, rows') && Counter(rows') == Counter(s.rows) + 1
      && Assigned(rows') == Assigned(s.rows)[PcOf(s, c).id := PcOf(s, c).prefix]
  {
    hide Sound, Counter, CallerInv, View, WithAssignment, PrefixOf, Assigned;
    WriterFacts(s, c);
    AssignmentIsSound(s.rows, PcOf(s, c).id);
  }

  lemma StepIsSound(s: State, step: Step)
    requires Inv(s) && Next(s, step).Some?
    ensures Sound(Next(s, step).value.rows) && Grown(s.rows, Next(s, step).value.rows)
  {
    hide Next, Sound, Counter, SameReserved, View, WithAssignment, CallerInv, Grown;
    RowsAfter(s, step);
    if step.Commit? {
      CommitIsSound(s, step.c);
    } else {
      SameIsGrown(s.rows, Next(s, step).value.rows);
    }
  }

  /** With the same counter the assignments are the same: one more would need one more number. */
  lemma SameCounter(a: Rows, b: Rows)
    requires Sound(a) && Sound(b) && Grown(a, b) && Counter(a) == Counter(b)
    ensures Assigned(a) == Assigned(b)
  {
    hide View, Value, BigEndian;
    var m, m' := Assigned(a), Assigned(b);
    forall id | id in m' ensures id in m {
      PrefixOfValue(m'[id]);
      assert Taken(m, Value(m'[id]));
      var x :| x in m && m[x] == PrefixOf(Value(m'[id]));
      assert m'[x] == m'[id];
    }
  }

  lemma TruthfulStays(a: Rows, b: Rows, id: Bytes, answer: Result<Bytes, Error>)
    requires Sound(a) && Sound(b) && Grown(a, b) && Truthful(a, id, answer)
    ensures Truthful(b, id, answer)
  {
    hide Sound, Counter, Assigned;
    SoundBounds(a);
    SoundBounds(b);
    if answer == Err(Exhausted) { SameCounter(a, b); }
  }

  lemma SameReservedTrans(a: Rows, b: Rows, c: Rows)
    requires SameReserved(a, b) && SameReserved(b, c)
    ensures SameReserved(a, c)
  {
    hide HasPrefix;
    forall k | HasPrefix(k, RESERVED) ensures Find(a, k) == Find(c, k) { assert Find(a, k) == Find(b, k); }
  }

  /** The caller a step moves. */
  function Actor(step: Step): (r: Option<nat>) {
    match step
    case Ask(c, _) => Some(c)
    case Lock(c) => Some(c)
    case Begin(c) => Some(c)
    case ReadAssignment(c) => Some(c)
    case ReadLast(c) => Some(c)
    case Commit(c, _) => Some(c)
    case Fail(c, _) => Some(c)
    case Unlock(c) => Some(c)
    case _ => None
  }

  /** While one caller is inside, nobody else takes or gives back the lock, or writes the registry's rows. */
  lemma OthersWait(s: State, step: Step, c: nat)
    requires Inv(s) && Next(s, step).Some? && Actor(step) != Some(c) && !step.Restart?
    ensures var s' := Next(s, step).value;
      && PcOf(s', c) == PcOf(s, c)
      && (Inside(PcOf(s, c)) ==> s'.lock == Some(c) && !step.Commit?)
  {
    hide Sound, SameReserved, Truthful, Counter, Assigned, WithAssignment, CounterFits, AssignmentKey;
    assert CallerInv(s, c);
    if Actor(step).Some? { assert CallerInv(s, Actor(step).value); }
  }

  lemma BystanderKept(s: State, step: Step, c: nat)
    requires Inv(s) && Next(s, step).Some? && Actor(step) != Some(c)
    ensures Sound(Next(s, step).value.rows) && CallerInv(Next(s, step).value, c)
  {
    hide Next, Sound, SameReserved, Truthful, Counter, Assigned, WithAssignment, CounterFits, Grown;
    StepIsSound(s, step);
    var s' := Next(s, step).value;
    if step.Restart? {
      RestartForgets(s, c);
    } else {
      OthersWait(s, step, c);
      RowsAfter(s, step);
      SoundBounds(s.rows);
      assert CallerInv(s, c);
      var pc := PcOf(s, c);
      if pc.Answering? || pc.Returned? {
        TruthfulStays(s.rows, s'.rows, pc.id, pc.answer);
      } else if Inside(pc) {
        SameReservedMeaning(s.rows, s'.rows);
        if pc.Reading? || pc.Counting? { SameReservedTrans(pc.snapshot, s.rows, s'.rows); }
      }
    }
  }

  lemma RestartForgets(s: State, c: nat)
    ensures Next(s, Restart).Some? && PcOf(Next(s, Restart).value, c) == Idle
  {}

  /** The caller that takes the step. */
  lemma ActorKept(s: State, step: Step, c: nat)
    requires Inv(s) && Next(s, step).Some? && Actor(step) == Some(c)
    ensures Sound(Next(s, step).value.rows) && CallerInv(Next(s, step).value, c)
  {
    hide Next, CallerInv;
    if step.Commit? { CommitterKept(s, step); } else { ReaderKept(s, step, c); }
  }

  lemma CommitterKept(s: State, step: Step)
    requires Inv(s) && Next(s, step).Some? && step.Commit?
    ensures Sound(Next(s, step).value.rows) && CallerInv(Next(s, step).value, step.c)
  {
    hide Sound, SameReserved, Counter, Assigned, WithAssignment, Grown, PrefixOf, AssignmentKey;
    CommitIsSound(s, step.c);
    SoundBounds(s.rows);
    assert CallerInv(s, step.c);
  }

  /** Any step of a caller but its commit. */
  lemma ReaderKept(s: State, step: Step, c: nat)
    requires Inv(s) && Next(s, step).Some? && Actor(step) == Some(c) && !step.Commit?
    ensures Sound(Next(s, step).value.rows) && CallerInv(Next(s, step).value, c)
  {
    hide Sound, SameReserved, Counter, Assigned, WithAssignment, PrefixOf, AssignmentKey, HasPrefix;
    SoundBounds(s.rows);
    assert CallerInv(s, c);
    if step.ReadAssignment? {
      ReadsAssignment(PcOf(s, c).snapshot, s.rows, PcOf(s, c).id);
    } else if step.ReadLast? {
      SameReservedMeaning(PcOf(s, c).snapshot, s.rows);
    } else if step.Begin? {
      SameReservedRefl(s.rows);
    }
  }

  lemma SameReservedRefl(a: Rows)
    ensures SameReserved(a, a)
  {}

  lemma ReadsAssignment(snapshot: Rows, rows: Rows, id: Bytes)
    requires SameReserved(snapshot, rows)
    ensures Find(snapshot, AssignmentKey(id)) == if id in Assigned(rows) then Some(Assigned(rows)[id]) else None
  {
    hide View;
    SameReservedMeaning(snapshot, rows);
    AssignedAt(snapshot, id);
  }

  /** Every path out gives the lock back. */
  lemma LockKept(s: State, step: Step)
    requires Inv(s) && Next(s, step).Some?
    ensures LockHeld(Next(s, step).value)
  {
    hide Sound, SameReserved, Truthful, Counter, Assigned, WithAssignment, CounterFits, AssignmentKey, PrefixOf,
      HasPrefix;
    if s.lock.Some? { assert CallerInv(s, s.lock.value); }
    if Actor(step).Some? { assert CallerInv(s, Actor(step).value); }
  }

  /** Every step keeps the registry sound, the lock exclusive, and every answer given true. */
  lemma StepKeepsInv(s: State, step: Step)
    requires Inv(s) && Next(s, step).Some?
    ensures Inv(Next(s, step).value)
  {
    hide Next, Sound, CallerInv, LockHeld;
    StepIsSound(s, step);
    LockKept(s, step);
    forall c: nat ensures CallerInv(Next(s, step).value, c) {
      if Actor(step) == Some(c) { ActorKept(s, step, c); } else { BystanderKept(s, step, c); }
    }
  }

  lemma {:induction false} RunKeepsInv(s: State, steps: seq<Step>)
    requires Inv(s) && Run(s, steps).Some?
    ensures Inv(Run(s, steps).value) && Grown(s.rows, Run(s, steps).value.rows)
    decreases |steps|
  {
    hide Next, CallerInv, Sound, Counter, Assigned;
    SoundBounds(s.rows);
    if steps != [] {
      var s' := Next(s, steps[0]).value;
      StepIsSound(s, steps[0]);
      StepKeepsInv(s, steps[0]);
      RunKeepsInv(s', steps[1..]);
      SoundBounds(s'.rows);
      SoundBounds(Run(s, steps).value.rows);
    }
  }

  // ---- Progress -------------------------------------------------------------------------

  /** The next step of a caller inside, when no store call fails. */
  function HolderStep(s: State, c: nat): (step: Step)
    requires Inside(PcOf(s, c))
  {
    match PcOf(s, c)
    case Holding(_) => Begin(c)
    case Reading(_, _) => ReadAssignment(c)
    case Counting(_, _) => ReadLast(c)
    case Writing(_, _) => Commit(c, true)
    case _ => Unlock(c)
  }

  function StepsLeft(pc: Pc): (n: nat) {
    match pc
    case Holding(_) => 5
    case Reading(_, _) => 4
    case Counting(_, _) => 3
    case Writing(_, _) => 2
    case Answering(_, _) => 1
    case _ => 0
  }

  /** The caller inside can always move, which brings it nearer to giving back the lock, or gives it back. */
  lemma HolderCanMove(s: State, c: nat)
    requires Inv(s) && Inside(PcOf(s, c))
    ensures Next(s, HolderStep(s, c)).Some?
    ensures var s' := Next(s, HolderStep(s, c)).value;
      if Inside(PcOf(s', c)) then StepsLeft(PcOf(s', c)) < StepsLeft(PcOf(s, c))
      else s'.lock.None? && PcOf(s', c).Returned? && PcOf(s', c).id == PcOf(s, c).id
    ensures PcOf(Next(s, HolderStep(s, c)).value, c).id == PcOf(s, c).id
  {
    hide Sound, SameReserved, Truthful, Counter, Assigned, WithAssignment, AssignmentKey, PrefixOf, HasPrefix, LockHeld;
    assert CallerInv(s, c);
    SoundBounds(s.rows);
    if PcOf(s, c).Counting? { SameReservedMeaning(PcOf(s, c).snapshot, s.rows); }
  }

  /** Steps of one caller alone that end with its answer and the lock free. */
  ghost predicate AnswersAlone(s: State, c: nat, steps: seq<Step>) {
    && (forall i :: 0 <= i < |steps| ==> Actor(steps[i]) == Some(c))
    && Run(s, steps).Some?
    && var s' := Run(s, steps).value; s'.lock.None? && PcOf(s', c).Returned?
  }

  lemma {:induction false} HolderCanFinish(s: State, c: nat) returns (steps: seq<Step>)
    requires Inv(s) && Inside(PcOf(s, c))
    ensures AnswersAlone(s, c, steps)
    decreases StepsLeft(PcOf(s, c))
  {
    hide Inv, Next, Inside;
    var step := HolderStep(s, c);
    HolderCanMove(s, c);
    var s' := Next(s, step).value;
    StepKeepsInv(s, step);
    if Inside(PcOf(s', c)) {
      var rest := HolderCanFinish(s', c);
      steps := [step] + rest;
      assert steps[1..] == rest;
    } else {
      steps := [step];
      assert steps[1..] == [] && Run(s', []) == Some(s');
    }
  }
}
