/** What the registry promises over every run, and what that gives the tables that live under its prefixes. */
module RegistryResults {
  import opened Bytes
  import opened Lex
  import opened Store
  import opened Tables
  import opened Registry
  import opened RegistrySteps

  lemma StartInv()
    ensures Inv(START)
  {
    hide Sound;
    EmptyIsSound();
  }

  /** Runs from an empty store, in two parts. */
  ghost predicate Reached(before: seq<RegistrySteps.Step>, after: seq<RegistrySteps.Step>) {
    Run(START, before).Some? && Run(Run(START, before).value, after).Some?
  }

  lemma ReachedInv(before: seq<RegistrySteps.Step>, after: seq<RegistrySteps.Step>)
    requires Reached(before, after)
    ensures var s := Run(START, before).value; var s' := Run(s, after).value;
      Inv(s) && Inv(s') && Grown(s.rows, s'.rows)
  {
    hide Inv, Grown, Run;
    StartInv();
    RunKeepsInv(START, before);
    RunKeepsInv(Run(START, before).value, after);
  }

  /** In every run the prefixes in use are exactly 1 to the counter, one for each assigned id. */
  lemma {:induction false} PrefixesInUse(steps: seq<RegistrySteps.Step>)
    requires Run(START, steps).Some?
    ensures var rows := Run(START, steps).value.rows;
      && CounterFits(rows) && Counter(rows) <= 65535 && |Assigned(rows)| == Counter(rows)
      && (forall p :: p in Assigned(rows).Values <==> Within(p, Counter(rows)))
      && (forall a, b :: a in Assigned(rows) && b in Assigned(rows) && a != b ==>
        Assigned(rows)[a] != Assigned(rows)[b])
  {
    StartInv();
    RunKeepsInv(START, steps);
    var rows := Run(START, steps).value.rows;
    NumberedCount(Assigned(rows), Counter(rows));
    NumberedValues(Assigned(rows), Counter(rows));
  }

  lemma NumberedValues(m: map<Bytes, Bytes>, n: nat)
    requires Numbered(m, n)
    ensures forall p :: p in m.Values <==> Within(p, n)
  {
    hide Value, BigEndian;
    forall p ensures p in m.Values <==> Within(p, n) {
      if Within(p, n) {
        PrefixOfValue(p);
        assert Taken(m, Value(p));
      }
    }
  }

  lemma {:induction false} NumberedCount(m: map<Bytes, Bytes>, n: nat)
    requires Numbered(m, n)
    ensures |m| == n
    decreases n
  {
    hide Value, BigEndian;
    if n == 0 {
      assert m == map[];
    } else {
      assert Taken(m, n);
      var id :| id in m && m[id] == PrefixOf(n);
      NumberedLess(m, n, id);
      NumberedCount(m - {id}, n - 1);
      assert m.Keys == (m - {id}).Keys + {id};
    }
  }

  lemma NumberedLess(m: map<Bytes, Bytes>, n: nat, id: Bytes)
    requires n > 0 && Numbered(m, n) && id in m && m[id] == PrefixOf(n)
    ensures Numbered(m - {id}, n - 1)
  {
    hide Value, BigEndian;
    var less := m - {id};
    PrefixValue(n);
    forall a | a in less ensures Within(less[a], n - 1) {
      assert Within(m[a], n);
      PrefixOfValue(m[a]);
    }
    forall i: nat | 1 <= i <= n - 1 ensures Taken(less, i) {
      assert Taken(m, i);
      var a :| a in m && m[a] == PrefixOf(i);
      PrefixValue(i);
      assert a in less && less[a] == PrefixOf(i);
    }
  }

  /** Answers never contradict each other, across callers, failures and restarts: one prefix for one id. */
  lemma AnswersAgree(before: seq<RegistrySteps.Step>, after: seq<RegistrySteps.Step>, c: nat, d: nat)
    requires Reached(before, after)
    requires var s := Run(START, before).value; var s' := Run(s, after).value;
      && PcOf(s, c).Returned? && PcOf(s, c).answer.Ok? && PcOf(s', d).Returned? && PcOf(s', d).answer.Ok?
    ensures var s := Run(START, before).value; var s' := Run(s, after).value;
      PcOf(s, c).id == PcOf(s', d).id <==> PcOf(s, c).answer.value == PcOf(s', d).answer.value
  {
    hide Run, Next, View, Value, Counter;
    ReachedInv(before, after);
    var s := Run(START, before).value;
    assert CallerInv(s, c) && CallerInv(Run(s, after).value, d);
  }

  /** Once the numbers are used up, every id that has a prefix keeps it and no other ever gets one. */
  lemma ExhaustedForever(before: seq<RegistrySteps.Step>, after: seq<RegistrySteps.Step>)
    requires Reached(before, after)
    ensures var s := Run(START, before).value; var s' := Run(s, after).value;
      && CounterFits(s.rows) && CounterFits(s'.rows)
      && (Counter(s.rows) == 65535 ==> Counter(s'.rows) == 65535 && Assigned(s'.rows) == Assigned(s.rows))
  {
    hide Run, Next, CallerInv, Sound, Assigned, Counter;
    ReachedInv(before, after);
    var s := Run(START, before).value;
    var s' := Run(s, after).value;
    SoundBounds(s.rows);
    SoundBounds(s'.rows);
    if Counter(s.rows) == MAX_PREFIX { SameCounter(s.rows, s'.rows); }
  }

  /** A caller is told the numbers are used up only when they are, and its id never gets one. */
  lemma ToldExhausted(before: seq<RegistrySteps.Step>, after: seq<RegistrySteps.Step>, c: nat)
    requires Reached(before, after)
    requires var pc := PcOf(Run(START, before).value, c); pc.Returned? && pc.answer == Err(Exhausted)
    ensures var s := Run(START, before).value; var s' := Run(s, after).value;
      && |Assigned(s'.rows)| == 65535
      && PcOf(s, c).id !in Assigned(s'.rows)
  {
    hide Run, Next, Assigned, Counter;
    ReachedInv(before, after);
    ExhaustedForever(before, after);
    var s := Run(START, before).value;
    assert CallerInv(s, c);
    NumberedCount(Assigned(s.rows), Counter(s.rows));
  }

  /**
   In every run the lock is free or with a caller that can give it back by its own steps, so that a caller who
   wants it can take it next.
   */
  lemma LockComesBack(steps: seq<RegistrySteps.Step>, c: nat)
    requires Run(START, steps).Some? && PcOf(Run(START, steps).value, c).Wanting?
    ensures var s := Run(START, steps).value;
      if s.lock.None? then Next(s, Lock(c)).Some?
      else exists more :: AnswersAlone(s, s.lock.value, more) && Next(Run(s, more).value, Lock(c)).Some?
  {
    hide Run, Next, CallerInv, Sound, AnswersAlone;
    StartInv();
    RunKeepsInv(START, steps);
    var s := Run(START, steps).value;
    if s.lock.Some? {
      var holder := s.lock.value;
      assert PcOf(s, c) != PcOf(s, holder);
      var more := HolderCanFinish(s, holder);
      WantsStill(s, holder, c, more);
      FreeLock(Run(s, more).value, c);
    } else {
      FreeLock(s, c);
    }
  }

  lemma FreeLock(s: State, c: nat)
    requires PcOf(s, c).Wanting? && s.lock.None?
    ensures Next(s, Lock(c)).Some?
  {}

  lemma WantsStill(s: State, holder: nat, c: nat, steps: seq<RegistrySteps.Step>)
    requires AnswersAlone(s, holder, steps) && c != holder
    ensures Run(s, steps).Some?
    ensures var s' := Run(s, steps).value; PcOf(s', c) == PcOf(s, c) && s'.lock.None?
  {
    OthersStayPut(s, holder, c, steps);
  }

  /** A caller's own steps move nobody else. */
  lemma {:induction false} OthersStayPut(s: State, holder: nat, c: nat, steps: seq<RegistrySteps.Step>)
    requires Run(s, steps).Some? && c != holder && forall i :: 0 <= i < |steps| ==> Actor(steps[i]) == Some(holder)
    ensures PcOf(Run(s, steps).value, c) == PcOf(s, c)
    decreases |steps|
  {
    hide CounterFits, Counter, WithAssignment, PrefixOf, AssignmentKey;
    if steps != [] { OthersStayPut(Next(s, steps[0]).value, holder, c, steps[1..]); }
  }

  // ---- Tables under assigned prefixes -----------------------------------------------

  /** The ids of a replica's tables: its prefix, then what the replica itself adds. */
  function TableIds(m: map<Bytes, Bytes>, tables: map<Bytes, set<Bytes>>): (ids: set<Bytes>)
    requires tables.Keys <= m.Keys
  {
    set replica, t | replica in tables && t in tables[replica] :: m[replica] + t
  }

  lemma FrontOf(p: Bytes, t: Bytes, q: Bytes, u: Bytes)
    requires |p| == |q| == 2
    ensures HasPrefix(p + t, q + u) <==> p == q && HasPrefix(t, u)
  {
    if HasPrefix(p + t, q + u) {
      assert (p + t)[..2] == p && (q + u)[..2] == q;
      assert p == q;
    }
    if p == q { PrefixUnderPrefix(p, t, u); }
  }

  /** Table ids of different replicas, and of one replica that keeps its own apart, are incomparable. */
  lemma TableIdsIncomparable(rows: Rows, tables: map<Bytes, set<Bytes>>)
    requires Sound(rows) && tables.Keys <= Assigned(rows).Keys
    requires forall replica :: replica in tables ==> PairwiseIncomparable(tables[replica])
    ensures PairwiseIncomparable(TableIds(Assigned(rows), tables))
    ensures forall id :: id in TableIds(Assigned(rows), tables) ==> Incomparable(id, RESERVED)
  {
    hide View, Value, HasPrefix, Counter, Incomparable, TableIds;
    var m := Assigned(rows);
    var ids := TableIds(m, tables);
    forall a, b | a in ids && b in ids && a != b ensures Incomparable(a, b) {
      var r, t := TableId(m, tables, a);
      var q, u := TableId(m, tables, b);
      PairIncomparable(m[r], t, m[q], u, tables[r]);
    }
    forall id | id in ids ensures Incomparable(id, RESERVED) {
      var r, t := TableId(m, tables, id);
      ReservedIsZero();
      assert RESERVED + [] == RESERVED && m[r] != RESERVED;
      PairIncomparable(m[r], t, RESERVED, [], {});
    }
  }

  lemma TableId(m: map<Bytes, Bytes>, tables: map<Bytes, set<Bytes>>, id: Bytes) returns (replica: Bytes, t: Bytes)
    requires tables.Keys <= m.Keys && id in TableIds(m, tables)
    ensures replica in tables && t in tables[replica] && id == m[replica] + t
  {
    replica, t :| replica in tables && t in tables[replica] && id == m[replica] + t;
  }

  lemma PairIncomparable(p: Bytes, t: Bytes, q: Bytes, u: Bytes, own: set<Bytes>)
    requires |p| == |q| == 2 && p + t != q + u
    requires p == q ==> PairwiseIncomparable(own) && t in own && u in own
    ensures Incomparable(p + t, q + u)
  {
    hide HasPrefix;
    FrontOf(p, t, q, u);
    FrontOf(q, u, p, t);
    assert p == q ==> t != u;
  }

  lemma ReservedIsZero()
    ensures !Within(RESERVED, MAX_PREFIX)
  {
    assert RESERVED[..1] == [0] && [0][..0] == [];
    assert Value([0]) == Value([]) * 256 + 0;
  }

  lemma UnderBoth(k: Bytes, id: Bytes)
    requires HasPrefix(k, id) && HasPrefix(k, RESERVED)
    ensures !Incomparable(id, RESERVED)
  {
    assert k == id + k[|id|..] == RESERVED + k[2..];
    SharedKey(id, RESERVED, k[|id|..], k[2..]);
  }

  /**
   Any calls of the tables under assigned prefixes act as on private maps, one for each table, and leave
   the registry's own rows, and so all assignments, as they are.
   */
  lemma ReplicasAreIsolated(rows: Rows, tables: map<Bytes, set<Bytes>>, calls: seq<Call>)
    requires Sound(rows) && tables.Keys <= Assigned(rows).Keys
    requires forall replica :: replica in tables ==> PairwiseIncomparable(tables[replica])
    requires forall c :: c in calls ==> c.id in TableIds(Assigned(rows), tables)
    ensures var ids, rows' := TableIds(Assigned(rows), tables), RunShared(rows, calls).0;
      && RunShared(rows, calls).1 == RunPrivate(Views(rows, ids), calls).1
      && Views(rows', ids) == RunPrivate(Views(rows, ids), calls).0
      && SameReserved(rows, rows') && Sound(rows') && Assigned(rows') == Assigned(rows)
  {
    hide View, Sound, Assigned, RunShared, RunPrivate, TableIds;
    var ids, rows' := TableIds(Assigned(rows), tables), RunShared(rows, calls).0;
    TableIdsIncomparable(rows, tables);
    TablesAreIsolated(rows, ids, calls);
    forall k | HasPrefix(k, RESERVED) ensures !UnderSomeId(k, ids) {
      forall id | HasPrefix(k, id) ensures !Incomparable(id, RESERVED) { UnderBoth(k, id); }
    }
    SameReservedMeaning(rows, rows');
  }

  // ---- A request alone ---------------------------------------------------------------

  function ReadSteps(c: nat, id: Bytes): (steps: seq<RegistrySteps.Step>) {
    [Ask(c, id), Lock(c), Begin(c), ReadAssignment(c)]
  }

  function WriteSteps(rows: Rows, c: nat): (steps: seq<RegistrySteps.Step>)
    requires CounterFits(rows)
  {
    if Counter(rows) == MAX_PREFIX then [ReadLast(c), Unlock(c)]
    else [ReadLast(c), RegistrySteps.Commit(c, true), Unlock(c)]
  }

  /** The steps of one request with nothing in between and no failure. */
  function Alone(rows: Rows, c: nat, id: Bytes): (steps: seq<RegistrySteps.Step>)
    requires CounterFits(rows)
  {
    if id == [] then [Ask(c, id)]
    else ReadSteps(c, id) + if AssignmentKey(id) in rows then [Unlock(c)] else WriteSteps(rows, c)
  }

  lemma {:induction false} RunAppend(s: State, first: seq<RegistrySteps.Step>, more: seq<RegistrySteps.Step>)
    requires Run(s, first).Some?
    ensures Run(s, first + more) == Run(Run(s, first).value, more)
    decreases |first|
  {
    hide Next;
    if first == [] {
      assert first + more == more;
    } else {
      RunAppend(Next(s, first[0]).value, first[1..], more);
      assert (first + more)[1..] == first[1..] + more;
    }
  }

  lemma {:induction false} Chain(s: State, steps: seq<RegistrySteps.Step>, states: seq<State>)
    requires |states| == |steps| + 1 && states[0] == s
    requires forall i {:trigger steps[i]} :: 0 <= i < |steps| ==> Next(states[i], steps[i]) == Some(states[i + 1])
    ensures Run(s, steps) == Some(states[|steps|])
    decreases |steps|
  {
    hide Next;
    if steps != [] {
      Chain(states[1], steps[1..], states[1..]);
    }
  }

  lemma ReadingRun(s: State, c: nat, id: Bytes)
    requires CounterFits(s.rows) && s.lock.None? && (PcOf(s, c).Idle? || PcOf(s, c).Returned?) && id != []
    ensures
      && Run(s, ReadSteps(c, id)).Some?
      && var s' := Run(s, ReadSteps(c, id)).value; var found := Find(s.rows, AssignmentKey(id));
        && s'.rows == s.rows
        && PcOf(s', c) == if found.Some? then Answering(id, Ok(found.value)) else Counting(id, s.rows)
  {
    hide Run, Counter, CounterFits, AssignmentKey, WithAssignment;
    var s1 := Next(s, Ask(c, id)).value;
    var s2 := Next(s1, Lock(c)).value;
    var s3 := Next(s2, Begin(c)).value;
    var s4 := Next(s3, ReadAssignment(c)).value;
    Chain(s, ReadSteps(c, id), [s, s1, s2, s3, s4]);
  }

  lemma WritingRun(s: State, c: nat)
    requires PcOf(s, c).Counting? && PcOf(s, c).snapshot == s.rows
    requires CounterFits(s.rows) && Counter(s.rows) <= MAX_PREFIX
    ensures var full := Counter(s.rows) == MAX_PREFIX; var id := PcOf(s, c).id;
      var p := PrefixOf(Counter(s.rows) + 1);
      var steps := WriteSteps(s.rows, c);
      && Run(s, steps).Some?
      && Run(s, steps).value.rows == (if full then s.rows else WithAssignment(s.rows, id, p))
      && PcOf(Run(s, steps).value, c) == Returned(id, if full then Err(Exhausted) else Ok(p))
  {
    hide Run, Counter, CounterFits, AssignmentKey, WithAssignment;
    var s1 := Next(s, ReadLast(c)).value;
    if Counter(s.rows) == MAX_PREFIX {
      Chain(s, WriteSteps(s.rows, c), [s, s1, Next(s1, Unlock(c)).value]);
    } else {
      var s2 := Next(s1, RegistrySteps.Commit(c, true)).value;
      var s3 := Next(s2, Unlock(c)).value;
      Chain(s, WriteSteps(s.rows, c), [s, s1, s2, s3]);
    }
  }

  lemma EmptyIdRun(s: State, c: nat)
    requires PcOf(s, c).Idle? || PcOf(s, c).Returned?
    ensures Run(s, [Ask(c, [])]).Some?
    ensures var s' := Run(s, [Ask(c, [])]).value; s'.rows == s.rows && PcOf(s', c) == Returned([], Err(EmptyId))
  {
    hide Run;
    Chain(s, [Ask(c, [])], [s, Next(s, Ask(c, [])).value]);
  }

  lemma UnlockRun(s: State, c: nat)
    requires PcOf(s, c).Answering?
    ensures Run(s, [Unlock(c)]).Some?
    ensures var s' := Run(s, [Unlock(c)]).value;
      s'.rows == s.rows && PcOf(s', c) == Returned(PcOf(s, c).id, PcOf(s, c).answer)
  {
    hide Run;
    Chain(s, [Unlock(c)], [s, Next(s, Unlock(c)).value]);
  }

  /** Run alone, the steps of a request do what the sequential GetOrAssignPrefix promises. */
  lemma RequestIsSequential(s: State, c: nat, id: Bytes)
    requires Sound(s.rows) && s.lock.None? && (PcOf(s, c).Idle? || PcOf(s, c).Returned?)
    ensures Run(s, Alone(s.rows, c, id)).Some?
    ensures var s' := Run(s, Alone(s.rows, c, id)).value;
      PcOf(s', c).Returned? && (s'.rows, PcOf(s', c).answer) == Resolve(s.rows, id, NO_FAULTS)
  {
    hide Run, Next, Counter, Sound, WithAssignment, PrefixOf, AssignmentKey, ReadSteps, WriteSteps, PcOf, CounterFits,
      Assigned;
    SoundBounds(s.rows);
    if id == [] {
      EmptyIdRun(s, c);
    } else {
      ReadingRun(s, c, id);
      var s' := Run(s, ReadSteps(c, id)).value;
      if AssignmentKey(id) in s.rows {
        RunAppend(s, ReadSteps(c, id), [Unlock(c)]);
        UnlockRun(s', c);
      } else {
        RunAppend(s, ReadSteps(c, id), WriteSteps(s.rows, c));
        WritingRun(s', c);
      }
    }
  }
}
