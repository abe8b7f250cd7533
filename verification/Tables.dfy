/** A table is the part of the shared store under one id; what it does is what a private sorted map does. */
module Tables {
  import opened Bytes
  import opened Lex
  import opened Store

  // ---- A table's own map --------------------------------------------------

  /** The table's keys, with the id stripped. */
  function Stripped(rows: Rows, id: Bytes): (ks: set<Bytes>) {
    set full | full in rows && HasPrefix(full, id) :: full[|id|..]
  }

  /** The private map a table id stands for. */
  function View(rows: Rows, id: Bytes): (m: Rows)
    ensures forall k :: k in m <==> id + k in rows
    ensures forall k :: k in m ==> m[k] == rows[id + k]
  {
    forall k ensures k in Stripped(rows, id) <==> id + k in rows {
      StrippedKey(rows, id, k);
    }
    map k | k in Stripped(rows, id) :: rows[id + k]
  }

  lemma StrippedKey(rows: Rows, id: Bytes, k: Bytes)
    ensures k in Stripped(rows, id) <==> id + k in rows
  {
    if k in Stripped(rows, id) {
      var full :| full in rows && HasPrefix(full, id) && full[|id|..] == k;
      assert full == id + k;
    }
    if id + k in rows {
      assert (id + k)[|id|..] == k;
    }
  }

  /** Ids that start one key are comparable. */
  lemma SharedKey(id: Bytes, other: Bytes, key: Bytes, k: Bytes)
    requires id + key == other + k
    ensures !Incomparable(id, other)
  {
    var full := id + key;
    assert id == full[..|id|] && other == full[..|other|];
    if |id| <= |other| {
      assert id == other[..|id|];
    } else {
      assert other == id[..|other|];
    }
  }

  lemma IncomparableKeys(id: Bytes, other: Bytes, key: Bytes, k: Bytes)
    requires Incomparable(id, other)
    ensures id + key != other + k
  {
    if id + key == other + k { SharedKey(id, other, key, k); }
  }

  lemma SameKey(id: Bytes, k: Bytes, key: Bytes)
    ensures id + k == id + key <==> k == key
  {
    assert (id + k)[|id|..] == k && (id + key)[|id|..] == key;
  }

  /** Writing or removing one full key of a table. */
  lemma ViewOfOthers(rows: Rows, rows': Rows, id: Bytes, key: Bytes, other: Bytes)
    requires rows - {id + key} == rows' - {id + key}
    requires Incomparable(id, other)
    ensures View(rows', other) == View(rows, other)
  {
    forall k ensures Find(rows, other + k) == Find(rows', other + k) {
      IncomparableKeys(id, other, key, k);
      SameBut(rows, rows', id + key, other + k);
    }
  }

  lemma SameBut(rows: Rows, rows': Rows, full: Bytes, k: Bytes)
    requires rows - {full} == rows' - {full} && k != full
    ensures Find(rows, k) == Find(rows', k)
  {
    if k in rows {
      assert k in rows - {full} && (rows - {full})[k] == rows[k];
    }
    if k in rows' {
      assert k in rows' - {full} && (rows' - {full})[k] == rows'[k];
    }
  }

  lemma ViewSet(rows: Rows, id: Bytes, key: Bytes, value: Bytes)
    ensures View(rows[id + key := value], id) == View(rows, id)[key := value]
    ensures forall other :: Incomparable(id, other) ==> View(rows[id + key := value], other) == View(rows, other)
  {
    var rows' := rows[id + key := value];
    forall k ensures id + k == id + key <==> k == key { SameKey(id, k, key); }
    forall other | Incomparable(id, other) ensures View(rows', other) == View(rows, other) {
      assert rows - {id + key} == rows' - {id + key};
      ViewOfOthers(rows, rows', id, key, other);
    }
  }

  lemma ViewDelete(rows: Rows, id: Bytes, key: Bytes)
    ensures View(rows - {id + key}, id) == View(rows, id) - {key}
    ensures forall other :: Incomparable(id, other) ==> View(rows - {id + key}, other) == View(rows, other)
  {
    ViewDeleteSelf(rows, id, key);
    var rows' := rows - {id + key};
    assert rows - {id + key} == rows' - {id + key};
    forall other | Incomparable(id, other) ensures View(rows', other) == View(rows, other) {
      ViewOfOthers(rows, rows', id, key, other);
    }
  }

  lemma ViewDeleteSelf(rows: Rows, id: Bytes, key: Bytes)
    ensures View(rows - {id + key}, id) == View(rows, id) - {key}
  {
    forall k ensures id + k == id + key <==> k == key { SameKey(id, k, key); }
    var v, w := View(rows - {id + key}, id), View(rows, id) - {key};
    assert forall k :: k in v <==> k in w;
  }

  // ---- Scans --------------------------------------------------------------

  function StripAll(id: Bytes, ks: seq<Bytes>): (r: seq<Bytes>)
    requires forall k :: k in ks ==> HasPrefix(k, id)
    ensures |r| == |ks|
  {
    seq(|ks|, i requires 0 <= i < |ks| => (assert HasPrefix(ks[i], id); ks[i][|id|..]))
  }

  /** Stripping the id keeps a sorted scan sorted. */
  lemma StripSorted(id: Bytes, full: set<Bytes>, keys: set<Bytes>)
    requires forall k :: k in full ==> HasPrefix(k, id)
    requires forall k :: k in keys <==> id + k in full
    ensures StripAll(id, Sorted(full)) == Sorted(keys)
  {
    hide Sorted, Le;
    var ks := Sorted(full);
    var r := StripAll(id, ks);
    forall i | 0 <= i < |ks| ensures ks[i] == id + r[i] && r[i] in keys {
      assert ks[i] in full;
      assert ks[i] == id + r[i];
    }
    forall i, j | 0 <= i < j < |r| ensures Lt(r[i], r[j]) {
      LeUnderPrefix(id, r[i], r[j]);
      assert Lt(ks[i], ks[j]);
    }
    forall k ensures k in r <==> k in keys {
      if k in keys {
        assert id + k in ks;
        var i :| 0 <= i < |ks| && ks[i] == id + k;
        assert r[i] == k;
      }
    }
    SortedUnique(r, keys);
  }

  lemma StripReversed(id: Bytes, ks: seq<Bytes>)
    requires forall k :: k in ks ==> HasPrefix(k, id)
    ensures forall k :: k in Reverse(ks) ==> HasPrefix(k, id)
    ensures StripAll(id, Reverse(ks)) == Reverse(StripAll(id, ks))
  {
    forall k | k in Reverse(ks) ensures HasPrefix(k, id) {
      var i :| 0 <= i < |ks| && Reverse(ks)[i] == k;
      assert k == ks[|ks| - 1 - i];
    }
  }

  predicate Between(key: Bytes, lower: Option<Bytes>, upper: Option<Bytes>) {
    && (lower.Some? ==> Le(lower.value, key))
    && (upper.Some? ==> Le(key, upper.value) || HasPrefix(key, upper.value))
  }

  /** A range scan of a private map: an absent bound is no bound. */
  function Scan(m: Rows, lower: Option<Bytes>, upper: Option<Bytes>, reverse: bool): (ks: seq<Bytes>) {
    Directed(Sorted(set k | k in m && Between(k, lower, upper)), reverse)
  }

  lemma ReversedKeys(m: Rows, lower: Option<Bytes>, upper: Option<Bytes>)
    ensures forall k :: k in Scan(m, lower, upper, true) <==> k in m && Between(k, lower, upper)
  {
    var ks := Sorted(set k | k in m && Between(k, lower, upper));
    forall k ensures k in Reverse(ks) <==> k in ks { ReverseMembers(ks, k); }
  }

  lemma ScanMeaning(m: Rows, lower: Option<Bytes>, upper: Option<Bytes>, reverse: bool)
    ensures var ks := Scan(m, lower, upper, reverse);
      && Ascending(if reverse then Reverse(ks) else ks)
      && forall k :: k in ks <==>
        && k in m && (lower.Some? ==> Le(lower.value, k))
        && (upper.Some? ==> Le(k, upper.value) || HasPrefix(k, upper.value))
  {
    hide Le, HasPrefix;
    ReversedKeys(m, lower, upper);
    var ks := Sorted(set k | k in m && Between(k, lower, upper));
    assert Reverse(Reverse(ks)) == ks;
  }

  function FullBound(id: Bytes, bound: Option<Bytes>): (b: Bytes) {
    if bound.Some? then id + bound.value else id
  }

  /** The store range a table scan asks for stays inside the table and means the bounds asked for. */
  lemma FullRange(id: Bytes, lower: Option<Bytes>, upper: Option<Bytes>, full: Bytes)
    ensures InRange(full, FullBound(id, lower), FullBound(id, upper)) <==>
      HasPrefix(full, id) && Between(full[|id|..], lower, upper)
  {
    var lo, hi := FullBound(id, lower), FullBound(id, upper);
    if InRange(full, lo, hi) && !HasPrefix(full, id) {
      PrefixLe(lo, id);
      LeTrans(id, lo, full);
      PrefixContiguous(id, full, hi);
    }
    if HasPrefix(full, id) {
      var k := full[|id|..];
      assert full == id + k;
      PrefixLe(full, id);
      if lower.Some? { LeUnderPrefix(id, lower.value, k); }
      if upper.Some? {
        LeUnderPrefix(id, k, upper.value);
        PrefixUnderPrefix(id, k, upper.value);
      }
    }
  }

  lemma RangeRefines(rows: Rows, id: Bytes, lower: Option<Bytes>, upper: Option<Bytes>, reverse: bool)
    ensures
      var ks := RangeKeys(rows, FullBound(id, lower), FullBound(id, upper), reverse);
      && (forall k :: k in ks ==> HasPrefix(k, id))
      && StripAll(id, ks) == Scan(View(rows, id), lower, upper, reverse)
  {
    var lo, hi := FullBound(id, lower), FullBound(id, upper);
    var full := set k | k in rows && InRange(k, lo, hi);
    var keys := set k | k in View(rows, id) && Between(k, lower, upper);
    forall k | k in full ensures HasPrefix(k, id) { FullRange(id, lower, upper, k); }
    forall k ensures k in keys <==> id + k in full {
      FullRange(id, lower, upper, id + k);
      assert (id + k)[|id|..] == k;
    }
    StripSorted(id, full, keys);
    StripReversed(id, Sorted(full));
  }

  lemma PrefixRefines(rows: Rows, id: Bytes, prefix: Bytes)
    ensures
      var ks := PrefixKeys(rows, id + prefix);
      && (forall k :: k in ks ==> HasPrefix(k, id))
      && StripAll(id, ks) == PrefixKeys(View(rows, id), prefix)
  {
    var full := set k | k in rows && HasPrefix(k, id + prefix);
    var keys := set k | k in View(rows, id) && HasPrefix(k, prefix);
    forall k | k in full ensures HasPrefix(k, id) {
      assert id == (id + prefix)[..|id|] == k[..|id|];
    }
    forall k ensures k in keys <==> id + k in full { PrefixUnderPrefix(id, k, prefix); }
    StripSorted(id, full, keys);
  }

  // ---- The table ----------------------------------------------------------

  class Table {
    const tableId: Bytes

    constructor (tableId: Bytes)
      requires tableId != []
      ensures this.tableId == tableId
    {
      this.tableId := tableId;
    }

    function FullKey(key: Bytes): Bytes { tableId + key }

    method Get(txn: Txn, key: Bytes) returns (r: Option<Bytes>)
      ensures r == if tableId + key in txn.rows then Some(txn.rows[tableId + key]) else None
    {
      r := txn.Get(FullKey(key));
    }

    method Set(txn: Txn, key: Bytes, value: Bytes)
      modifies txn
      ensures txn.rows == old(txn.rows)[tableId + key := value]
      ensures View(txn.rows, tableId) == old(View(txn.rows, tableId))[key := value]
      ensures forall other :: Incomparable(tableId, other) ==> View(txn.rows, other) == old(View(txn.rows, other))
    {
      ViewSet(txn.rows, tableId, key, value);
      txn.Set(FullKey(key), value);
    }

    method Delete(txn: Txn, key: Bytes)
      modifies txn
      ensures txn.rows == old(txn.rows) - {tableId + key}
      ensures View(txn.rows, tableId) == old(View(txn.rows, tableId)) - {key}
      ensures forall other :: Incomparable(tableId, other) ==> View(txn.rows, other) == old(View(txn.rows, other))
    {
      ViewDelete(txn.rows, tableId, key);
      txn.Delete(FullKey(key));
    }

    method PrefixExists(txn: Txn, prefix: Bytes) returns (r: bool)
      ensures r <==> exists k :: tableId + k in txn.rows && HasPrefix(k, prefix)
    {
      r := txn.PrefixExists(FullKey(prefix));
      if r {
        var full :| full in txn.rows && HasPrefix(full, tableId + prefix);
        assert tableId == (tableId + prefix)[..|tableId|] == full[..|tableId|];
        var k := full[|tableId|..];
        assert full == tableId + k;
        PrefixUnderPrefix(tableId, k, prefix);
        assert tableId + k in txn.rows;
      } else {
        forall k | tableId + k in txn.rows ensures !HasPrefix(k, prefix) {
          PrefixUnderPrefix(tableId, k, prefix);
        }
      }
    }

    method EachPrefix(txn: Txn, prefix: Bytes) returns (ks: seq<Bytes>)
      ensures ks == PrefixKeys(View(txn.rows, tableId), prefix)
      ensures Ascending(ks) && forall k :: k in ks <==> tableId + k in txn.rows && HasPrefix(k, prefix)
    {
      PrefixRefines(txn.rows, tableId, prefix);
      var full := txn.EachPrefix(FullKey(prefix));
      ks := StripAll(tableId, full);
    }

    method ListInRange(txn: Txn, lower: Option<Bytes>, upper: Option<Bytes>, reverse: bool) returns (ks: seq<Bytes>)
      ensures ks == Scan(View(txn.rows, tableId), lower, upper, reverse)
      ensures Ascending(if reverse then Reverse(ks) else ks)
      ensures forall k :: k in ks <==>
        && tableId + k in txn.rows && (lower.Some? ==> Le(lower.value, k))
        && (upper.Some? ==> Le(k, upper.value) || HasPrefix(k, upper.value))
    {
      ScanMeaning(View(txn.rows, tableId), lower, upper, reverse);
      RangeRefines(txn.rows, tableId, lower, upper, reverse);
      var lowerKey := if lower.Some? then FullKey(lower.value) else tableId;
      var upperKey := if upper.Some? then FullKey(upper.value) else tableId;
      var full := txn.EachRange(lowerKey, upperKey, reverse);
      ks := StripAll(tableId, full);
    }

    /** Every row of the table in key order. */
    method EachEntry(txn: Txn) returns (ks: seq<Bytes>)
      ensures ks == Sorted(View(txn.rows, tableId).Keys)
      ensures Ascending(ks) && forall k :: k in ks <==> tableId + k in txn.rows
    {
      ks := ListInRange(txn, None, None, false);
      var m := View(txn.rows, tableId);
      assert (set k | k in m && Between(k, None, None)) == m.Keys;
    }
  }

  // ---- Isolation ----------------------------------------------------------

  datatype Op =
    | Put(key: Bytes, value: Bytes)
    | Remove(key: Bytes)
    | Lookup(key: Bytes)
    | PrefixScan(prefix: Bytes)
    | RangeScan(lower: Option<Bytes>, upper: Option<Bytes>, reverse: bool)

  datatype Answer = Done | Found(value: Option<Bytes>) | Keys(keys: seq<Bytes>)

  /** One operation on a private map. */
  function Private(m: Rows, op: Op): (r: (Rows, Answer)) {
    match op
    case Put(key, value) => (m[key := value], Done)
    case Remove(key) => (m - {key}, Done)
    case Lookup(key) => (m, Found(Find(m, key)))
    case PrefixScan(prefix) => (m, Keys(PrefixKeys(m, prefix)))
    case RangeScan(lower, upper, reverse) => (m, Keys(Scan(m, lower, upper, reverse)))
  }

  /** The same operation as a table issues it on the shared store. */
  function Shared(rows: Rows, id: Bytes, op: Op): (r: (Rows, Answer)) {
    match op
    case Put(key, value) => (rows[id + key := value], Done)
    case Remove(key) => (rows - {id + key}, Done)
    case Lookup(key) => (rows, Found(Find(rows, id + key)))
    case PrefixScan(prefix) =>
      PrefixRefines(rows, id, prefix);
      (rows, Keys(StripAll(id, PrefixKeys(rows, id + prefix))))
    case RangeScan(lower, upper, reverse) =>
      RangeRefines(rows, id, lower, upper, reverse);
      (rows, Keys(StripAll(id, RangeKeys(rows, FullBound(id, lower), FullBound(id, upper), reverse))))
  }

  lemma SharedRefinesPrivate(rows: Rows, id: Bytes, op: Op)
    ensures Shared(rows, id, op).1 == Private(View(rows, id), op).1
    ensures View(Shared(rows, id, op).0, id) == Private(View(rows, id), op).0
    ensures forall other :: Incomparable(id, other) ==> View(Shared(rows, id, op).0, other) == View(rows, other)
  {
    match op
    case Put(key, value) => ViewSet(rows, id, key, value);
    case Remove(key) => ViewDelete(rows, id, key);
    case Lookup(key) =>
    case PrefixScan(prefix) => PrefixRefines(rows, id, prefix);
    case RangeScan(lower, upper, reverse) => RangeRefines(rows, id, lower, upper, reverse);
  }

  datatype Call = Call(id: Bytes, op: Op)

  /** Any interleaving of operations of many tables on the shared store. */
  function RunShared(rows: Rows, calls: seq<Call>): (r: (Rows, seq<Answer>))
    decreases |calls|
  {
    if calls == [] then (rows, [])
    else
      var step := Shared(rows, calls[0].id, calls[0].op);
      var rest := RunShared(step.0, calls[1..]);
      (rest.0, [step.1] + rest.1)
  }

  /** The same calls on a family of private maps. */
  function RunPrivate(family: map<Bytes, Rows>, calls: seq<Call>): (r: (map<Bytes, Rows>, seq<Answer>))
    requires forall c :: c in calls ==> c.id in family
    decreases |calls|
  {
    if calls == [] then (family, [])
    else
      assert calls[0] in calls;
      var step := Private(family[calls[0].id], calls[0].op);
      var rest := RunPrivate(family[calls[0].id := step.0], calls[1..]);
      (rest.0, [step.1] + rest.1)
  }

  function Views(rows: Rows, ids: set<Bytes>): (family: map<Bytes, Rows>) { map id | id in ids :: View(rows, id) }

  predicate PairwiseIncomparable(ids: set<Bytes>) {
    forall a, b :: a in ids && b in ids && a != b ==> Incomparable(a, b)
  }

  predicate UnderSomeId(key: Bytes, ids: set<Bytes>) { exists id :: id in ids && HasPrefix(key, id) }

  /**
   With pairwise incomparable ids, every interleaving of calls gets the answers the tables' private
   maps would give, leaves each table as its private map, and touches no row outside the tables.
   */
  lemma {:induction false} TablesAreIsolated(rows: Rows, ids: set<Bytes>, calls: seq<Call>)
    requires PairwiseIncomparable(ids) && forall c :: c in calls ==> c.id in ids
    ensures RunShared(rows, calls).1 == RunPrivate(Views(rows, ids), calls).1
    ensures Views(RunShared(rows, calls).0, ids) == RunPrivate(Views(rows, ids), calls).0
    ensures forall key :: !UnderSomeId(key, ids) ==> Find(RunShared(rows, calls).0, key) == Find(rows, key)
    decreases |calls|
  {
    hide View, Shared, Private;
    if calls != [] {
      var id, op := calls[0].id, calls[0].op;
      assert calls[0] in calls;
      var rows' := Shared(rows, id, op).0;
      SharedRefinesPrivate(rows, id, op);
      assert Views(rows', ids) == Views(rows, ids)[id := Private(View(rows, id), op).0];
      TablesAreIsolated(rows', ids, calls[1..]);
      forall key | !UnderSomeId(key, ids) ensures Find(rows', key) == Find(rows, key) {
        OutsideUntouched(rows, id, op, key);
      }
    }
  }

  lemma OutsideUntouched(rows: Rows, id: Bytes, op: Op, key: Bytes)
    requires !HasPrefix(key, id)
    ensures Find(Shared(rows, id, op).0, key) == Find(rows, key)
  {}

  predicate CallsTo(calls: seq<Call>, ids: set<Bytes>) { forall c :: c in calls ==> c.id in ids }

  predicate RunsAsPrivate(rows: Rows, ids: set<Bytes>, calls: seq<Call>)
    requires CallsTo(calls, ids)
  {
    && RunShared(rows, calls).1 == RunPrivate(Views(rows, ids), calls).1
    && Views(RunShared(rows, calls).0, ids) == RunPrivate(Views(rows, ids), calls).0
  }

  ghost predicate Isolated(ids: set<Bytes>) {
    forall rows: Rows, calls: seq<Call> :: CallsTo(calls, ids) ==> RunsAsPrivate(rows, ids, calls)
  }

  /** Tables act as private maps in all runs exactly if no table id is a prefix of another. */
  lemma IsolatedExactly(ids: set<Bytes>)
    ensures Isolated(ids) <==> PairwiseIncomparable(ids)
  {
    hide RunsAsPrivate, HasPrefix;
    if PairwiseIncomparable(ids) {
      forall rows: Rows, calls: seq<Call> | CallsTo(calls, ids) ensures RunsAsPrivate(rows, ids, calls) {
        IsolatedRun(rows, ids, calls);
      }
    } else {
      var x, y :| x in ids && y in ids && x != y && !Incomparable(x, y);
      var a, b := if HasPrefix(y, x) then x else y, if HasPrefix(y, x) then y else x;
      assert CallsTo([Call(b, Put([], []))], ids);
      PutShowsThrough(ids, a, b);
    }
  }

  lemma IsolatedRun(rows: Rows, ids: set<Bytes>, calls: seq<Call>)
    requires PairwiseIncomparable(ids) && CallsTo(calls, ids)
    ensures RunsAsPrivate(rows, ids, calls)
  {
    hide RunShared, RunPrivate, Views;
    TablesAreIsolated(rows, ids, calls);
  }

  lemma OnePut(family: map<Bytes, Rows>, b: Bytes)
    requires b in family
    ensures RunShared(map[], [Call(b, Put([], []))]).0 == map[b := []]
    ensures RunPrivate(family, [Call(b, Put([], []))]).0 == family[b := family[b][[] := []]]
  {
    hide View;
    var calls := [Call(b, Put([], []))];
    assert calls[1..] == [] && b + [] == b;
    var rows: Rows := map[];
    assert RunShared(rows[b := []], []).0 == rows[b := []];
  }

  /** A row of a table whose id extends another's is a row of that other table too. */
  lemma PutShowsThrough(ids: set<Bytes>, a: Bytes, b: Bytes)
    requires a in ids && b in ids && a != b && HasPrefix(b, a)
    ensures CallsTo([Call(b, Put([], []))], ids)
    ensures !RunsAsPrivate(map[], ids, [Call(b, Put([], []))])
  {
    hide View, RunShared, RunPrivate, Shared, Private;
    var family := Views(map[], ids);
    OnePut(family, b);
    assert b == a + b[|a|..];
    assert b[|a|..] in Views(map[b := []], ids)[a] && b[|a|..] !in family[a];
  }
}
