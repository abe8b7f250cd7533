/** The registry that gives each replica id a two-byte prefix, kept in the store under a reserved prefix. */
module Registry {
  import opened Bytes
  import opened Lex
  import opened Store
  import opened Tables

  const RESERVED: Bytes := [0, 0]

  const ASSIGNMENTS: Bytes := CategoryKey(1)

  const COUNTER_KEY: Bytes := CategoryKey(2)

  const MAX_PREFIX: nat := 65535

  datatype StoreCall = GetAssignment | GetCounter | SetAssignment | SetCounter | CommitTxn

  datatype Error = EmptyId | StoreFailed(call: StoreCall) | Exhausted

  /** Which store calls fail. */
  datatype Faults = Faults(get: bool, counter: bool, setAssignment: bool, setCounter: bool, commit: bool)

  const NO_FAULTS := Faults(false, false, false, false, false)

  function CategoryKey(category: byte): (key: Bytes)
    ensures key == [0, 0, category]
  {
    RESERVED + [category]
  }

  function AssignmentKey(id: Bytes): (key: Bytes) { ASSIGNMENTS + id }

  function PrefixOf(n: nat): (p: Bytes) { BigEndian(n, 2) }

  // ---- What the rows mean ---------------------------------------------------

  /** The assignments a store holds. */
  function Assigned(rows: Rows): (m: map<Bytes, Bytes>) { View(rows, ASSIGNMENTS) }

  /** Reading a counter of fewer than two bytes would panic. */
  predicate CounterFits(rows: Rows) { COUNTER_KEY in rows ==> |rows[COUNTER_KEY]| >= 2 }

  /** The last prefix handed out, as a number. */
  function Counter(rows: Rows): (n: nat)
    requires CounterFits(rows)
  {
    if COUNTER_KEY in rows then Value(rows[COUNTER_KEY][..2]) else 0
  }

  ghost predicate Taken(m: map<Bytes, Bytes>, i: nat) { exists id :: id in m && m[id] == PrefixOf(i) }

  predicate Within(p: Bytes, n: nat) { |p| == 2 && 1 <= Value(p) <= n }

  /** The prefixes in use are exactly 1 to n, each for one non-empty id. */
  ghost predicate Numbered(m: map<Bytes, Bytes>, n: nat) {
    && n <= MAX_PREFIX && [] !in m
    && (forall id :: id in m ==> Within(m[id], n))
    && (forall a, b :: a in m && b in m && a != b ==> m[a] != m[b])
    && (forall i :: 1 <= i <= n ==> Taken(m, i))
  }

  ghost predicate Sound(rows: Rows) { CounterFits(rows) && Numbered(Assigned(rows), Counter(rows)) }

  lemma SoundBounds(rows: Rows)
    requires Sound(rows)
    ensures CounterFits(rows) && Counter(rows) <= MAX_PREFIX && [] !in Assigned(rows)
  {}

  lemma CounterBound(rows: Rows)
    requires CounterFits(rows)
    ensures Counter(rows) <= MAX_PREFIX
  {
    if COUNTER_KEY in rows { PrefixOfValue(rows[COUNTER_KEY][..2]); }
  }

  lemma EmptyIsSound()
    ensures Sound(map[])
  {}

  lemma PrefixValue(n: nat)
    requires n <= MAX_PREFIX
    ensures Value(PrefixOf(n)) == n && |PrefixOf(n)| == 2
  {
    SmallPowers();
    Pow2Plus(8);
    ValueOfBigEndian(n, 2);
  }

  lemma PrefixOfValue(p: Bytes)
    requires |p| == 2
    ensures PrefixOf(Value(p)) == p && Value(p) <= MAX_PREFIX
  {
    SmallPowers();
    Pow2Plus(8);
    BigEndianOfValue(p);
    ValueBound(p);
  }

  lemma NumberedNext(m: map<Bytes, Bytes>, n: nat, id: Bytes)
    requires Numbered(m, n) && n < MAX_PREFIX && id !in m && id != []
    ensures Numbered(m[id := PrefixOf(n + 1)], n + 1)
  {
    hide Value, BigEndian;
    var m' := m[id := PrefixOf(n + 1)];
    PrefixValue(n + 1);
    forall i: nat | 1 <= i <= n + 1 ensures Taken(m', i) {
      if i <= n {
        assert Taken(m, i);
        var a :| a in m && m[a] == PrefixOf(i);
        assert a in m' && m'[a] == PrefixOf(i);
      } else {
        assert m'[id] == PrefixOf(i);
      }
    }
  }

  // ---- Writing rows -------------------------------------------------------------

  /** Both writes of an assignment. */
  function WithAssignment(rows: Rows, id: Bytes, p: Bytes): (rows': Rows) {
    rows[AssignmentKey(id) := p][COUNTER_KEY := p]
  }

  lemma BothWritten(rows: Rows, id: Bytes, p: Bytes)
    ensures rows[AssignmentKey(id) := p][COUNTER_KEY := p] == WithAssignment(rows, id, p)
  {}

  lemma AssignmentWritten(rows: Rows, id: Bytes, p: Bytes)
    requires |p| == 2
    ensures var rows' := WithAssignment(rows, id, p);
      && Assigned(rows') == Assigned(rows)[id := p]
      && CounterFits(rows') && Counter(rows') == Value(p)
  {
    hide View, Value;
    assert p[..2] == p;
    var mid := rows[AssignmentKey(id) := p];
    ViewSet(rows, ASSIGNMENTS, id, p);
    assert COUNTER_KEY + [] == COUNTER_KEY;
    assert Incomparable(COUNTER_KEY, ASSIGNMENTS) by { assert COUNTER_KEY[2] != ASSIGNMENTS[2]; }
    assert mid - {COUNTER_KEY + []} == WithAssignment(rows, id, p) - {COUNTER_KEY + []};
    ViewOfOthers(mid, WithAssignment(rows, id, p), COUNTER_KEY, [], ASSIGNMENTS);
  }

  lemma AssignedAt(rows: Rows, id: Bytes)
    ensures id in Assigned(rows) <==> AssignmentKey(id) in rows
    ensures id in Assigned(rows) ==> Assigned(rows)[id] == rows[AssignmentKey(id)]
  {}

  lemma OthersKept(rows: Rows, id: Bytes, p: Bytes)
    ensures forall k :: !HasPrefix(k, RESERVED) ==> Find(WithAssignment(rows, id, p), k) == Find(rows, k)
  {
    assert HasPrefix(AssignmentKey(id), RESERVED) && HasPrefix(COUNTER_KEY, RESERVED);
  }

  /** The two stores agree on everything the registry keeps. */
  ghost predicate SameReserved(a: Rows, b: Rows) {
    forall k :: HasPrefix(k, RESERVED) ==> Find(a, k) == Find(b, k)
  }

  lemma SameReservedMeaning(a: Rows, b: Rows)
    requires SameReserved(a, b)
    ensures Assigned(a) == Assigned(b)
    ensures CounterFits(a) <==> CounterFits(b)
    ensures CounterFits(a) ==> Counter(a) == Counter(b)
    ensures Sound(a) <==> Sound(b)
  {
    hide Value, Numbered;
    forall id ensures Find(a, ASSIGNMENTS + id) == Find(b, ASSIGNMENTS + id) {
      assert HasPrefix(ASSIGNMENTS + id, RESERVED);
    }
    assert HasPrefix(COUNTER_KEY, RESERVED) && Find(a, COUNTER_KEY) == Find(b, COUNTER_KEY);
  }

  /** An assignment makes the next number's prefix the new id's, and keeps all else. */
  lemma AssignmentIsSound(rows: Rows, id: Bytes)
    requires Sound(rows) && Counter(rows) < MAX_PREFIX && id !in Assigned(rows) && id != []
    ensures var rows' := WithAssignment(rows, id, PrefixOf(Counter(rows) + 1));
      && Sound(rows') && Counter(rows') == Counter(rows) + 1
      && Assigned(rows') == Assigned(rows)[id := PrefixOf(Counter(rows) + 1)]
  {
    hide View, Numbered, WithAssignment, Value, BigEndian;
    var n := Counter(rows) + 1;
    PrefixValue(n);
    AssignmentWritten(rows, id, PrefixOf(n));
    NumberedNext(Assigned(rows), Counter(rows), id);
  }

  // ---- One request ---------------------------------------------------------------------

  /** The store and the answer after a request, when the given store calls fail. */
  function Resolve(rows: Rows, id: Bytes, faults: Faults): (r: (Rows, Result<Bytes, Error>))
    requires CounterFits(rows)
  {
    if id == [] then (rows, Err(EmptyId))
    else if faults.get then (rows, Err(StoreFailed(GetAssignment)))
    else if AssignmentKey(id) in rows then (rows, Ok(rows[AssignmentKey(id)]))
    else if faults.counter then (rows, Err(StoreFailed(GetCounter)))
    else if Counter(rows) == MAX_PREFIX then (rows, Err(Exhausted))
    else if faults.setAssignment then (rows, Err(StoreFailed(SetAssignment)))
    else if faults.setCounter then (rows, Err(StoreFailed(SetCounter)))
    else if faults.commit then (rows, Err(StoreFailed(CommitTxn)))
    else (WithAssignment(rows, id, PrefixOf(Counter(rows) + 1)), Ok(PrefixOf(Counter(rows) + 1)))
  }

  /**
   A request keeps the registry sound. An assigned id keeps its prefix; a new one gets the next number's
   unless all are taken; a failure stores nothing; and no row outside the registry's changes.
   */
  lemma ResolveIsSound(rows: Rows, id: Bytes, faults: Faults)
    requires Sound(rows)
    ensures var (rows', r) := Resolve(rows, id, faults);
      && Sound(rows')
      && (r.Err? ==> rows' == rows)
      && (r.Ok? ==> id in Assigned(rows') && Assigned(rows')[id] == r.value)
      && (id in Assigned(rows) ==> rows' == rows && (r.Ok? <==> !faults.get))
      && (r.Ok? && id !in Assigned(rows) ==>
        && Counter(rows') == Counter(rows) + 1 && r.value == PrefixOf(Counter(rows'))
        && Assigned(rows') == Assigned(rows)[id := r.value])
      && forall k :: !HasPrefix(k, RESERVED) ==> Find(rows', k) == Find(rows, k)
  {
    hide View, Numbered, Value, BigEndian, WithAssignment, HasPrefix;
    SoundBounds(rows);
    AssignedAt(rows, id);
    var (rows', r) := Resolve(rows, id, faults);
    if r.Ok? && id !in Assigned(rows) {
      AssignmentIsSound(rows, id);
      OthersKept(rows, id, r.value);
    }
  }

  lemma ResolveKeeps(rows: Rows, id: Bytes, faults: Faults)
    requires CounterFits(rows)
    ensures CounterFits(Resolve(rows, id, faults).0)
    ensures Sound(rows) ==> Sound(Resolve(rows, id, faults).0)
  {
    hide View, Numbered, Value, BigEndian, HasPrefix;
    if Sound(rows) { ResolveIsSound(rows, id, faults); }
  }

  /** The two bytes of a prefix and the number they stand for. */
  lemma TwoBytes(v: Bytes, n: nat)
    requires |v| >= 2 && n <= MAX_PREFIX
    ensures Value(v[..2]) == v[0] as int * 256 + v[1]
    ensures n / 256 < 256 && PrefixOf(n) == [n / 256, n % 256]
  {
    assert v[..2][..1] == [v[0]] && [v[0]][..0] == [];
    assert Value([]) == 0;
    assert Value([v[0]]) == Value([]) * 256 + v[0];
    assert Value(v[..2]) == Value(v[..2][..1]) * 256 + v[1];
    assert n / 256 < 256 && n / 256 % 256 == n / 256;
    assert BigEndian(n / 256 / 256, 0) == [];
    assert BigEndian(n / 256, 1) == [n / 256];
  }

  lemma CounterMeaning(rows: Rows)
    requires CounterFits(rows)
    ensures [0, 0, 2] in rows ==> |rows[[0, 0, 2]]| >= 2
    ensures Counter(rows) == if [0, 0, 2] in rows then rows[[0, 0, 2]][0] as int * 256 + rows[[0, 0, 2]][1] else 0
  {
    hide Value;
    assert COUNTER_KEY == [0, 0, 2];
    if COUNTER_KEY in rows { TwoBytes(rows[COUNTER_KEY], 0); }
  }

  /**
   What a request does, whichever store calls fail. An id that is new gets the next number's two bytes, stored
   under it and as the last number, exactly if no call fails and a number is left; otherwise nothing is stored,
   and the answer names what stopped it first.
   */
  lemma RequestMeaning(rows: Rows, id: Bytes, faults: Faults)
    requires [0, 0, 2] in rows ==> |rows[[0, 0, 2]]| >= 2
    ensures CounterFits(rows)
    ensures var (rows', r) := Resolve(rows, id, faults);
      var last := if [0, 0, 2] in rows then rows[[0, 0, 2]][0] as int * 256 + rows[[0, 0, 2]][1] else 0;
      && (id == [] ==> r == Err(EmptyId))
      && (id != [] && faults.get ==> r == Err(StoreFailed(GetAssignment)))
      && (id != [] && !faults.get && [0, 0, 1] + id in rows ==> r == Ok(rows[[0, 0, 1] + id]) && rows' == rows)
      && (r.Err? ==> rows' == rows)
      && (id != [] && !faults.get && [0, 0, 1] + id !in rows ==>
        && (r.Ok? <==> !faults.counter && !faults.setAssignment && !faults.setCounter && !faults.commit && last < 65535)
        && (r.Ok? ==>
          && r.value == [(last + 1) / 256, (last + 1) % 256]
          && rows' == rows[[0, 0, 1] + id := r.value][[0, 0, 2] := r.value])
        && (r.Err? ==>
          r.error == if faults.counter then StoreFailed(GetCounter) else if last >= 65535 then Exhausted
            else if faults.setAssignment then StoreFailed(SetAssignment)
            else if faults.setCounter then StoreFailed(SetCounter) else StoreFailed(CommitTxn)))
  {
    hide Value, BigEndian, PrefixOf, Counter;
    assert COUNTER_KEY == [0, 0, 2] && AssignmentKey(id) == [0, 0, 1] + id;
    CounterMeaning(rows);
    CounterBound(rows);
    if Counter(rows) < MAX_PREFIX { TwoBytes([0, 0], Counter(rows) + 1); }
  }

  /** Without store failures, exactly the non-empty ids that have a prefix or can still get one succeed. */
  lemma ResolveSucceedsExactly(rows: Rows, id: Bytes)
    requires Sound(rows)
    ensures Resolve(rows, id, NO_FAULTS).1.Ok? <==>
      id != [] && (id in Assigned(rows) || Counter(rows) < MAX_PREFIX)
  {
    hide View, Value, BigEndian, WithAssignment;
    AssignedAt(rows, id);
  }

  // ---- Listing ----------------------------------------------------------------------

  /** What the first i assignment rows, in key order, say. */
  function FirstEntries(rows: Rows, i: nat): (m: map<Bytes, Bytes>)
    requires i <= |PrefixKeys(rows, ASSIGNMENTS)|
  {
    map id | id in Assigned(rows) && AssignmentKey(id) in PrefixKeys(rows, ASSIGNMENTS)[..i] :: Assigned(rows)[id]
  }

  lemma AssignmentRows(rows: Rows)
    ensures FirstEntries(rows, 0) == map[]
    ensures FirstEntries(rows, |PrefixKeys(rows, ASSIGNMENTS)|) == Assigned(rows)
    ensures forall k :: k in PrefixKeys(rows, ASSIGNMENTS) ==> k in rows && HasPrefix(k, ASSIGNMENTS)
  {
    hide Sorted, View;
    var keys := PrefixKeys(rows, ASSIGNMENTS);
    assert keys[..|keys|] == keys;
    forall id | id in Assigned(rows) ensures AssignmentKey(id) in keys {
      assert HasPrefix(AssignmentKey(id), ASSIGNMENTS);
    }
  }

  lemma NextEntry(rows: Rows, i: nat)
    requires i < |PrefixKeys(rows, ASSIGNMENTS)|
    ensures var key := PrefixKeys(rows, ASSIGNMENTS)[i];
      && key in rows && HasPrefix(key, ASSIGNMENTS)
      && FirstEntries(rows, i + 1) == FirstEntries(rows, i)[key[|ASSIGNMENTS|..] := rows[key]]
  {
    hide PrefixKeys, View;
    AssignmentRows(rows);
    var keys := PrefixKeys(rows, ASSIGNMENTS);
    assert keys[i] in keys;
    var id := keys[i][|ASSIGNMENTS|..];
    assert keys[i] == AssignmentKey(id);
    AssignedAt(rows, id);
    forall k ensures AssignmentKey(k) in keys[..i + 1] <==> AssignmentKey(k) in keys[..i] || k == id {
      SameKey(ASSIGNMENTS, k, id);
    }
  }

  // ---- The registry object --------------------------------------------------------

  class Registry {
    var rows: Rows

    ghost predicate Valid() reads this { CounterFits(rows) }

    constructor (rows: Rows)
      requires CounterFits(rows)
      ensures this.rows == rows && Valid()
    {
      this.rows := rows;
    }

    method ReadCounter(txn: Txn, fails: bool) returns (r: Result<nat, Error>)
      requires CounterFits(txn.rows)
      ensures fails ==> r == Err(StoreFailed(GetCounter))
      ensures !fails && [0, 0, 2] !in txn.rows ==> r == Ok(0)
      ensures !fails && [0, 0, 2] in txn.rows ==> r == Ok(txn.rows[[0, 0, 2]][0] as int * 256 + txn.rows[[0, 0, 2]][1])
    {
      CounterMeaning(txn.rows);
      if fails {
        return Err(StoreFailed(GetCounter));
      }
      var v := txn.Get(COUNTER_KEY);
      if v.None? {
        return Ok(0);
      }
      return Ok(Value(v.value[..2]));
    }

    method GetOrAssignPrefix(id: Bytes, faults: Faults) returns (r: Result<Bytes, Error>)
      requires Valid()
      modifies this
      ensures Valid()
      ensures (rows, r) == Resolve(old(rows), id, faults)
      ensures old(Sound(rows)) ==> Sound(rows)
      // an error stores nothing, an assigned id keeps its prefix
      ensures r.Err? ==> rows == old(rows)
      ensures id == [] ==> r == Err(EmptyId)
      ensures id != [] && faults.get ==> r == Err(StoreFailed(GetAssignment))
      ensures id != [] && !faults.get && [0, 0, 1] + id in old(rows) ==>
        r == Ok(old(rows)[[0, 0, 1] + id]) && rows == old(rows)
      // a new id gets the next prefix, unless something stops it
      ensures id != [] && !faults.get && [0, 0, 1] + id !in old(rows) ==>
        var was := old(rows);
        var last := if [0, 0, 2] in was then was[[0, 0, 2]][0] as int * 256 + was[[0, 0, 2]][1] else 0;
        && (r.Ok? <==> !faults.counter && !faults.setAssignment && !faults.setCounter && !faults.commit && last < 65535)
        && (r.Ok? ==>
          && r.value == [(last + 1) / 256, (last + 1) % 256]
          && rows == was[[0, 0, 1] + id := r.value][[0, 0, 2] := r.value])
        && (r.Err? ==>
          r.error == if faults.counter then StoreFailed(GetCounter) else if last >= 65535 then Exhausted
            else if faults.setAssignment then StoreFailed(SetAssignment)
            else if faults.setCounter then StoreFailed(SetCounter) else StoreFailed(CommitTxn))
    {
      hide Sound, View, Numbered, Value, BigEndian, HasPrefix, WithAssignment, PrefixOf, AssignmentKey, Assigned;
      CounterBound(rows);
      CounterMeaning(rows);
      ResolveKeeps(rows, id, faults);
      RequestMeaning(rows, id, faults);
      if id == [] {
        return Err(EmptyId);
      }
      var txn := new Txn(rows);
      if faults.get {
        return Err(StoreFailed(GetAssignment));
      }
      var existing := txn.Get(AssignmentKey(id));
      if existing.Some? {
        return Ok(existing.value);
      }
      var last := ReadCounter(txn, faults.counter);
      if last.Err? {
        return Err(last.error);
      }
      var next := last.value + 1;
      if next > MAX_PREFIX {
        return Err(Exhausted);
      }
      var prefix := PrefixOf(next);
      if faults.setAssignment {
        return Err(StoreFailed(SetAssignment));
      }
      txn.Set(AssignmentKey(id), prefix);
      if faults.setCounter {
        return Err(StoreFailed(SetCounter));
      }
      txn.Set(COUNTER_KEY, prefix);
      if faults.commit {
        return Err(StoreFailed(CommitTxn));
      }
      BothWritten(rows, id, prefix);
      rows := txn.rows;
      r := Ok(prefix);
    }

    /** The map of all assignments, as a scan of their rows finds it. */
    method AllPrefixes() returns (m: map<Bytes, Bytes>)
      ensures m == Assigned(rows)
      ensures forall id :: (id in m <==> [0, 0, 1] + id in rows) && (id in m ==> m[id] == rows[[0, 0, 1] + id])
    {
      hide View, PrefixKeys;
      assert ASSIGNMENTS == [0, 0, 1];
      forall id { AssignedAt(rows, id); }
      var txn := new Txn(rows);
      var keys := txn.EachPrefix(ASSIGNMENTS);
      AssignmentRows(rows);
      m := map[];
      for i := 0 to |keys|
        invariant txn.rows == rows
        invariant m == FirstEntries(rows, i)
      {
        NextEntry(rows, i);
        m := m[keys[i][|ASSIGNMENTS|..] := rows[keys[i]]];
      }
    }
  }
}
