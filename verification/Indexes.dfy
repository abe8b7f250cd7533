/** One-to-many indexes: items stored as the tails of keys that start with a primary key. */
module Indexes {
  import opened Bytes
  import opened Lex
  import opened Store
  import opened Tables

  // ---- Byte-string items --------------------------------------------------

  datatype Change = Add(pk: Bytes, item: Bytes) | Delete(pk: Bytes, item: Bytes)

  /** What a change does to the index's table. */
  function Apply(m: Rows, c: Change): (m': Rows) {
    match c
    case Add(pk, item) => m[pk + item := []]
    case Delete(pk, item) => m - {pk + item}
  }

  function ApplyAll(m: Rows, cs: seq<Change>): (m': Rows) {
    if cs == [] then m else Apply(ApplyAll(m, cs[..|cs| - 1]), cs[|cs| - 1])
  }

  /** The items a primary key has after some changes to an empty index. */
  function Live(cs: seq<Change>, pk: Bytes): (items: set<Bytes>) {
    if cs == [] then {}
    else
      var before := Live(cs[..|cs| - 1], pk);
      match cs[|cs| - 1]
      case Add(p, item) => if p == pk then before + {item} else before
      case Delete(p, item) => if p == pk then before - {item} else before
  }

  /** What listing a primary key visits: the keys under it, with it stripped. */
  function Listed(m: Rows, pk: Bytes): (items: seq<Bytes>) { StripAll(pk, PrefixKeys(m, pk)) }

  lemma ListedLength(m: Rows, pk: Bytes)
    ensures |Listed(m, pk)| == |PrefixKeys(m, pk)|
  {}

  lemma ListedAt(m: Rows, pk: Bytes, i: nat)
    requires i < |PrefixKeys(m, pk)|
    ensures |Listed(m, pk)| == |PrefixKeys(m, pk)|
    ensures HasPrefix(PrefixKeys(m, pk)[i], pk)
    ensures Listed(m, pk)[i] == PrefixKeys(m, pk)[i][|pk|..]
  {
    assert PrefixKeys(m, pk)[i] in PrefixKeys(m, pk);
  }

  lemma ListedIsView(m: Rows, pk: Bytes)
    ensures Listed(m, pk) == Sorted(View(m, pk).Keys)
  {
    var full := set k | k in m && HasPrefix(k, pk);
    StripSorted(pk, full, View(m, pk).Keys);
  }

  /** The tails of all rows that start with the primary key, in order. */
  lemma ListedMeaning(rows: Rows, id: Bytes, pk: Bytes)
    ensures Ascending(Listed(View(rows, id), pk))
    ensures forall item :: item in Listed(View(rows, id), pk) <==> id + (pk + item) in rows
  {
    hide Ascending, Listed, Sorted;
    ListedIsView(View(rows, id), pk);
    assert forall item :: item in View(View(rows, id), pk).Keys <==> pk + item in View(rows, id);
  }

  /** With prefix-free primary keys, a key's items in the table are the live ones. */
  lemma {:induction false} ViewIsLive(cs: seq<Change>, pks: set<Bytes>, pk: Bytes)
    requires PairwiseIncomparable(pks) && pk in pks
    requires forall c :: c in cs ==> c.pk in pks
    ensures View(ApplyAll(map[], cs), pk).Keys == Live(cs, pk)
  {
    hide View;
    if cs == [] {
      EmptyView(pk);
    } else {
      var n := |cs| - 1;
      assert cs[n] in cs;
      ViewIsLive(cs[..n], pks, pk);
      var m := ApplyAll(map[], cs[..n]);
      match cs[n]
      case Add(p, item) => ViewSet(m, p, item, []);
      case Delete(p, item) => ViewDelete(m, p, item);
    }
  }

  lemma EmptyView(pk: Bytes)
    ensures View(map[], pk) == map[]
  {}

  predicate Over(cs: seq<Change>, pks: set<Bytes>) { forall c :: c in cs ==> c.pk in pks }

  /** Listing gives exactly the live items, in ascending order; the key has a row exactly when it has some. */
  ghost predicate Agrees(cs: seq<Change>, pk: Bytes) {
    var m := ApplyAll(map[], cs);
    && Listed(m, pk) == Sorted(Live(cs, pk))
    && ((exists k :: k in m && HasPrefix(k, pk)) <==> Live(cs, pk) != {})
  }

  lemma IndexAgrees(cs: seq<Change>, pks: set<Bytes>, pk: Bytes)
    requires PairwiseIncomparable(pks) && pk in pks && Over(cs, pks)
    ensures Agrees(cs, pk)
  {
    hide Sorted, Listed, Live, ApplyAll;
    var m := ApplyAll(map[], cs);
    ViewIsLive(cs, pks, pk);
    ListedIsView(m, pk);
    if k :| k in m && HasPrefix(k, pk) {
      assert pk + k[|pk|..] == k;
      assert k[|pk|..] in View(m, pk);
    }
    if item :| item in Live(cs, pk) {
      assert item in View(m, pk) && HasPrefix(pk + item, pk);
    }
  }

  /** One row under a key that extends another shows up in the other's listing. */
  lemma ExtensionDisagrees(a: Bytes, b: Bytes, item: Bytes)
    requires HasPrefix(b, a) && a != b
    ensures ApplyAll(map[], [Add(b, item)]) == map[b + item := []]
    ensures Live([Add(b, item)], a) == {}
    ensures Listed(map[b + item := []], a) == [b[|a|..] + item]
  {
    hide Sorted, View, Listed, Le;
    assert [Add(b, item)][..0] == [];
    assert b == a + b[|a|..];
    assert b + item == a + (b[|a|..] + item);
    ListedIsView(map[b + item := []], a);
    forall k ensures k in View(map[b + item := []], a) <==> k == b[|a|..] + item {
      SameKey(a, k, b[|a|..] + item);
    }
    SortedUnique([b[|a|..] + item], View(map[b + item := []], a).Keys);
  }

  ghost predicate AgreesFor(pks: set<Bytes>) {
    forall cs: seq<Change>, pk: Bytes :: pk in pks && Over(cs, pks) ==> Agrees(cs, pk)
  }

  /** The index agrees with a map from keys to sets, for all histories, exactly for prefix-free primary keys. */
  lemma AgreesExactly(pks: set<Bytes>)
    ensures AgreesFor(pks) <==> PairwiseIncomparable(pks)
  {
    hide Agrees, HasPrefix;
    if PairwiseIncomparable(pks) {
      forall cs: seq<Change>, pk: Bytes | pk in pks && Over(cs, pks) ensures Agrees(cs, pk) {
        IndexAgrees(cs, pks, pk);
      }
    } else {
      var x, y :| x in pks && y in pks && x != y && !Incomparable(x, y);
      var a, b := if HasPrefix(y, x) then x else y, if HasPrefix(y, x) then y else x;
      assert Over([Add(b, [])], pks);
      NotAgrees(a, b);
    }
  }

  lemma NotAgrees(a: Bytes, b: Bytes)
    requires HasPrefix(b, a) && a != b
    ensures !Agrees([Add(b, [])], a)
  {
    hide Listed, Live, ApplyAll;
    ExtensionDisagrees(a, b, []);
    assert Sorted({}) == [];
  }

  /** Primary keys 1 and 1 2: deleting item 3 of the second takes away item 2 3 of the first. */
  lemma DeleteHitsOtherKey()
    ensures var cs := [Add([1], [2, 3]), Delete([1, 2], [3])];
      Live(cs, [1]) == {[2, 3]} && ApplyAll(map[], cs) == map[]
  {
    var cs := [Add([1], [2, 3]), Delete([1, 2], [3])];
    var first := [Add([1], [2, 3])];
    assert cs[..1] == first && first[..0] == [];
    assert Live(first, [1]) == {[2, 3]} && ApplyAll(map[], first) == map[[1] + [2, 3] := []];
    assert ([1] + [2, 3] == [1, 2, 3]) && ([1, 2] + [3] == [1, 2, 3]);
  }

  // ---- Integer items ------------------------------------------------------

  const UINT64_BYTES: nat := 8

  predicate IsUint64(x: nat) { x < Pow2(8 * UINT64_BYTES) }

  function Uint64Bytes(x: nat): (b: Bytes) { BigEndian(x, UINT64_BYTES) }

  lemma {:induction false} LeSnoc(p: Bytes, q: Bytes, x: byte, y: byte)
    requires |p| == |q|
    ensures Le(p + [x], q + [y]) <==> if p == q then x <= y else Le(p, q)
  {
    if p == [] {
      assert p + [x] == [x] && q + [y] == [y] && [x][1..] == [] && [y][1..] == [];
    } else {
      LeSnoc(p[1..], q[1..], x, y);
      assert (p + [x])[1..] == p[1..] + [x] && (q + [y])[1..] == q[1..] + [y];
      assert p == [p[0]] + p[1..] && q == [q[0]] + q[1..];
    }
  }

  /** Big-endian keys sort as the numbers do. */
  lemma {:induction false} BigEndianOrder(a: nat, b: nat, n: nat)
    requires a < Pow2(8 * n) && b < Pow2(8 * n)
    ensures Le(BigEndian(a, n), BigEndian(b, n)) <==> a <= b
    ensures BigEndian(a, n) == BigEndian(b, n) <==> a == b
  {
    ValueOfBigEndian(a, n);
    ValueOfBigEndian(b, n);
    if n > 0 {
      Pow2Plus(8 * (n - 1));
      BigEndianOrder(a / 256, b / 256, n - 1);
      LeSnoc(BigEndian(a / 256, n - 1), BigEndian(b / 256, n - 1), a % 256, b % 256);
    }
  }

  datatype NumberChange = AddNumber(pk: Bytes, x: nat) | DeleteNumber(pk: Bytes, x: nat)

  function AsChange(c: NumberChange): (r: Change) {
    match c
    case AddNumber(pk, x) => Add(pk, Uint64Bytes(x))
    case DeleteNumber(pk, x) => Delete(pk, Uint64Bytes(x))
  }

  function AsChanges(cs: seq<NumberChange>): (r: seq<Change>)
    ensures |r| == |cs|
  {
    seq(|cs|, i requires 0 <= i < |cs| => AsChange(cs[i]))
  }

  function LiveNumbers(cs: seq<NumberChange>, pk: Bytes): (xs: set<nat>) {
    if cs == [] then {}
    else
      var before := LiveNumbers(cs[..|cs| - 1], pk);
      match cs[|cs| - 1]
      case AddNumber(p, x) => if p == pk then before + {x} else before
      case DeleteNumber(p, x) => if p == pk then before - {x} else before
  }

  function FirstEight(item: Bytes): (b: Bytes) { if |item| > UINT64_BYTES then item[..UINT64_BYTES] else item }

  /** Reading the numbers back: the first eight bytes of each. */
  function NumbersOf(items: seq<Bytes>): (xs: seq<nat>)
    ensures |xs| == |items|
  {
    seq(|items|, i requires 0 <= i < |items| => Value(FirstEight(items[i])))
  }

  lemma NumbersMeaning(items: seq<Bytes>)
    requires forall item :: item in items ==> |item| >= 8
    ensures forall i :: 0 <= i < |items| ==> |items[i]| >= 8 && NumbersOf(items)[i] == Value(items[i][..8])
  {
    hide Value;
    forall i | 0 <= i < |items| ensures |items[i]| >= 8 && FirstEight(items[i]) == items[i][..8] {
      assert items[i] in items;
    }
  }

  function Images(xs: set<nat>): (s: set<Bytes>) { set x | x in xs :: Uint64Bytes(x) }

  lemma {:induction false} LiveImages(cs: seq<NumberChange>, pk: Bytes)
    requires forall c :: c in cs ==> IsUint64(c.x)
    ensures Live(AsChanges(cs), pk) == Images(LiveNumbers(cs, pk))
    ensures forall x :: x in LiveNumbers(cs, pk) ==> IsUint64(x)
  {
    if cs != [] {
      var n := |cs| - 1;
      assert cs[n] in cs;
      LiveImages(cs[..n], pk);
      assert AsChanges(cs)[..n] == AsChanges(cs[..n]);
      var before := LiveNumbers(cs[..n], pk);
      var x := cs[n].x;
      assert Images(before + {x}) == Images(before) + {Uint64Bytes(x)};
      forall y | y in before ensures Uint64Bytes(y) == Uint64Bytes(x) <==> y == x {
        BigEndianOrder(x, y, UINT64_BYTES);
      }
      assert Images(before - {x}) == Images(before) - {Uint64Bytes(x)};
    }
  }

  predicate NumbersOver(cs: seq<NumberChange>, pks: set<Bytes>) {
    forall c :: c in cs ==> c.pk in pks && IsUint64(c.x)
  }

  /** Listing does not panic, and gives exactly the live numbers, in increasing order. */
  ghost predicate NumbersAgree(cs: seq<NumberChange>, pk: Bytes) {
    var items := Listed(ApplyAll(map[], AsChanges(cs)), pk);
    && (forall item :: item in items ==> |item| >= UINT64_BYTES)
    && (forall i, j :: 0 <= i < j < |items| ==> NumbersOf(items)[i] < NumbersOf(items)[j])
    && (forall x :: x in NumbersOf(items) <==> x in LiveNumbers(cs, pk))
  }

  lemma NumberIndexAgrees(cs: seq<NumberChange>, pks: set<Bytes>, pk: Bytes)
    requires PairwiseIncomparable(pks) && pk in pks && NumbersOver(cs, pks)
    ensures NumbersAgree(cs, pk)
    ensures forall item :: item in Listed(ApplyAll(map[], AsChanges(cs)), pk) ==> |item| == UINT64_BYTES
  {
    hide Sorted, Listed, Live, ApplyAll, LiveNumbers, AsChanges, NumbersOf, Images, IsUint64;
    ChangesOver(cs, pks);
    IndexAgrees(AsChanges(cs), pks, pk);
    LiveImages(cs, pk);
    NumbersSorted(LiveNumbers(cs, pk));
  }

  lemma ChangesOver(cs: seq<NumberChange>, pks: set<Bytes>)
    requires NumbersOver(cs, pks)
    ensures Over(AsChanges(cs), pks)
  {
    hide IsUint64, Uint64Bytes;
    forall c | c in AsChanges(cs) ensures c.pk in pks {
      var i :| 0 <= i < |cs| && AsChanges(cs)[i] == c;
      assert cs[i] in cs;
    }
  }

  ghost predicate NumbersAgreeFor(pks: set<Bytes>) {
    forall cs: seq<NumberChange>, pk: Bytes :: pk in pks && NumbersOver(cs, pks) ==> NumbersAgree(cs, pk)
  }

  /** So does the integer index: listings never panic and are right exactly for prefix-free primary keys. */
  lemma NumbersAgreeExactly(pks: set<Bytes>)
    ensures NumbersAgreeFor(pks) <==> PairwiseIncomparable(pks)
  {
    hide NumbersAgree, HasPrefix, Pow2;
    if PairwiseIncomparable(pks) {
      forall cs: seq<NumberChange>, pk: Bytes | pk in pks && NumbersOver(cs, pks) ensures NumbersAgree(cs, pk) {
        NumberIndexAgrees(cs, pks, pk);
      }
    } else {
      var x, y :| x in pks && y in pks && x != y && !Incomparable(x, y);
      var a, b := if HasPrefix(y, x) then x else y, if HasPrefix(y, x) then y else x;
      assert NumbersOver([AddNumber(b, 0)], pks);
      NumbersDisagree(a, b);
    }
  }

  lemma NumbersDisagree(a: Bytes, b: Bytes)
    requires HasPrefix(b, a) && a != b
    ensures !NumbersAgree([AddNumber(b, 0)], a)
  {
    hide Listed, ApplyAll, Uint64Bytes;
    assert AsChanges([AddNumber(b, 0)]) == [Add(b, Uint64Bytes(0))];
    ExtensionDisagrees(a, b, Uint64Bytes(0));
    var items := [b[|a|..] + Uint64Bytes(0)];
    assert NumbersOf(items)[0] in NumbersOf(items);
    assert [AddNumber(b, 0)][..0] == [];
    assert LiveNumbers([AddNumber(b, 0)], a) == {};
  }

  /** One row for key 1 makes listing the key 1 0 read an item of seven bytes. */
  lemma ShortItem()
    ensures var m := ApplyAll(map[], AsChanges([AddNumber([1], 0)]));
      |Listed(m, [1, 0])| == 1 && |Listed(m, [1, 0])[0]| == 7
  {
    hide View, Sorted;
    var zeros: Bytes := [0, 0, 0, 0, 0, 0, 0, 0];
    ZeroBytes();
    var cs := [Add([1], zeros)];
    assert AsChanges([AddNumber([1], 0)]) == cs && cs[..0] == [];
    var m: Rows := map[[1] + zeros := []];
    assert ApplyAll(map[], cs) == m;
    assert [1] + zeros == [1, 0] + zeros[1..];
    ListedIsView(m, [1, 0]);
    forall k ensures k in View(m, [1, 0]) <==> k == zeros[1..] { SameKey([1, 0], k, zeros[1..]); }
    SortedUnique([zeros[1..]], View(m, [1, 0]).Keys);
  }

  lemma ZeroBytes()
    ensures Uint64Bytes(0) == [0, 0, 0, 0, 0, 0, 0, 0]
  {
    assert BigEndian(0, 2) == [0, 0];
    assert BigEndian(0, 4) == BigEndian(0, 2) + [0, 0];
    assert BigEndian(0, 6) == BigEndian(0, 4) + [0, 0];
    assert BigEndian(0, 8) == BigEndian(0, 6) + [0, 0];
  }

  lemma NumbersSorted(live: set<nat>)
    requires forall x :: x in live ==> IsUint64(x)
    ensures
      var items := Sorted(Images(live));
      var xs := NumbersOf(items);
      && (forall item :: item in items ==> |item| == UINT64_BYTES)
      && (forall i, j :: 0 <= i < j < |xs| ==> xs[i] < xs[j])
      && (forall x :: x in xs <==> x in live)
  {
    hide Sorted;
    var items := Sorted(Images(live));
    var xs := NumbersOf(items);
    forall i | 0 <= i < |items| ensures xs[i] in live && items[i] == Uint64Bytes(xs[i]) {
      assert items[i] in items;
      var x :| x in live && items[i] == Uint64Bytes(x);
      ValueOfBigEndian(x, UINT64_BYTES);
    }
    forall i, j | 0 <= i < j < |xs| ensures xs[i] < xs[j] {
      assert Lt(items[i], items[j]);
      BigEndianOrder(xs[i], xs[j], UINT64_BYTES);
    }
    forall x | x in live ensures x in xs {
      assert Uint64Bytes(x) in items;
      var i :| 0 <= i < |items| && items[i] == Uint64Bytes(x);
      ValueOfBigEndian(x, UINT64_BYTES);
      assert xs[i] == x;
    }
  }

  // ---- The index classes --------------------------------------------------

  class OneToManySortedIndex {
    const table: Table

    constructor (tableId: Bytes)
      requires tableId != []
      ensures table.tableId == tableId
    {
      table := new Table(tableId);
    }

    method Add(txn: Txn, pk: Bytes, item: Bytes)
      modifies txn
      ensures View(txn.rows, table.tableId) == Apply(old(View(txn.rows, table.tableId)), Change.Add(pk, item))
      ensures txn.rows == old(txn.rows)[table.tableId + (pk + item) := []]
    {
      table.Set(txn, pk + item, []);
    }

    method Delete(txn: Txn, pk: Bytes, item: Bytes)
      modifies txn
      ensures View(txn.rows, table.tableId) == Apply(old(View(txn.rows, table.tableId)), Change.Delete(pk, item))
      ensures txn.rows == old(txn.rows) - {table.tableId + (pk + item)}
    {
      table.Delete(txn, pk + item);
    }

    method NotEmpty(txn: Txn, pk: Bytes) returns (r: bool)
      ensures r <==> exists k :: table.tableId + k in txn.rows && HasPrefix(k, pk)
    {
      r := table.PrefixExists(txn, pk);
    }

    method ListAll(txn: Txn, pk: Bytes) returns (items: seq<Bytes>)
      ensures items == Listed(View(txn.rows, table.tableId), pk)
      ensures Ascending(items) && forall item :: item in items <==> table.tableId + (pk + item) in txn.rows
    {
      hide Listed, Ascending, PrefixKeys;
      ListedMeaning(txn.rows, table.tableId, pk);
      ListedLength(View(txn.rows, table.tableId), pk);
      var ks := table.EachPrefix(txn, pk);
      items := [];
      for i := 0 to |ks|
        invariant items == Listed(View(txn.rows, table.tableId), pk)[..i]
      {
        ListedAt(View(txn.rows, table.tableId), pk, i);
        items := items + [ks[i][|pk|..]];
      }
    }

    /** Visits whole keys, primary key included. */
    method ListInRange(txn: Txn, pk: Bytes, lower: Bytes, upper: Bytes) returns (ks: seq<Bytes>)
      ensures ks == RangeVisited(View(txn.rows, table.tableId), pk, lower, upper)
      ensures Ascending(ks) && forall k :: k in ks <==>
        table.tableId + k in txn.rows && Le(pk + lower, k) && (Le(k, pk + upper) || HasPrefix(k, pk + upper))
    {
      ks := table.ListInRange(txn, Some(pk + lower), Some(pk + upper), false);
    }
  }

  class OneToManyUint64Index {
    const table: Table

    constructor (tableId: Bytes)
      requires tableId != []
      ensures table.tableId == tableId
    {
      table := new Table(tableId);
    }

    method Add(txn: Txn, pk: Bytes, x: nat)
      requires IsUint64(x)
      modifies txn
      ensures View(txn.rows, table.tableId) == Apply(old(View(txn.rows, table.tableId)), AsChange(AddNumber(pk, x)))
      ensures txn.rows == old(txn.rows)[table.tableId + (pk + BigEndian(x, 8)) := []]
    {
      table.Set(txn, pk + Uint64Bytes(x), []);
    }

    method Delete(txn: Txn, pk: Bytes, x: nat)
      requires IsUint64(x)
      modifies txn
      ensures View(txn.rows, table.tableId) == Apply(old(View(txn.rows, table.tableId)), AsChange(DeleteNumber(pk, x)))
      ensures txn.rows == old(txn.rows) - {table.tableId + (pk + BigEndian(x, 8))}
    {
      table.Delete(txn, pk + Uint64Bytes(x));
    }

    /** Reads eight bytes after the primary key; a shorter key would make the Go code panic. */
    method List(txn: Txn, pk: Bytes) returns (xs: seq<nat>, ghost items: seq<Bytes>)
      requires forall item :: item in Listed(View(txn.rows, table.tableId), pk) ==> |item| >= UINT64_BYTES
      ensures xs == NumbersOf(Listed(View(txn.rows, table.tableId), pk))
      ensures Ascending(items) && forall item :: item in items <==> table.tableId + (pk + item) in txn.rows
      ensures |xs| == |items| && forall i :: 0 <= i < |xs| ==> |items[i]| >= 8 && xs[i] == Value(items[i][..8])
    {
      hide Listed, View, PrefixKeys, Ascending, Value;
      ListedMeaning(txn.rows, table.tableId, pk);
      var ks := table.EachPrefix(txn, pk);
      ListedLength(View(txn.rows, table.tableId), pk);
      items := Listed(View(txn.rows, table.tableId), pk);
      xs := [];
      for i := 0 to |ks|
        invariant xs == NumbersOf(items)[..i]
      {
        ListedAt(View(txn.rows, table.tableId), pk, i);
        assert items[i] in items;
        assert ks[i][|pk|..][..UINT64_BYTES] == FirstEight(items[i]);
        xs := xs + [Value(ks[i][|pk|..][..UINT64_BYTES])];
      }
      NumbersMeaning(items);
    }
  }

  // ---- Range listing ------------------------------------------------------

  /** What the range listing of one primary key visits. */
  function RangeVisited(m: Rows, pk: Bytes, lower: Bytes, upper: Bytes): (ks: seq<Bytes>) {
    Scan(m, Some(pk + lower), Some(pk + upper), false)
  }

  /**
   The range listing stays under its primary key and visits the key's items between the bounds in
   order, each with the primary key still in front: it visits the items themselves exactly when the
   primary key is empty or there are none.
   */
  lemma RangeListing(m: Rows, pk: Bytes, lower: Bytes, upper: Bytes)
    ensures
      var ks := RangeVisited(m, pk, lower, upper);
      var items := Scan(View(m, pk), Some(lower), Some(upper), false);
      && (forall k :: k in ks ==> HasPrefix(k, pk))
      && StripAll(pk, ks) == items
      && (ks == items <==> pk == [] || items == [])
  {
    hide View, RangeKeys, Sorted, Le;
    RangeRefines(m, pk, Some(lower), Some(upper), false);
    ScanIsRange(m, pk, lower, upper);
    var ks, items := RangeVisited(m, pk, lower, upper), Scan(View(m, pk), Some(lower), Some(upper), false);
    if ks != [] {
      assert ks[0] in ks && |items[0]| == |ks[0]| - |pk|;
    }
    if pk == [] {
      assert forall i :: 0 <= i < |ks| ==> items[i] == ks[i];
    }
  }

  lemma ScanIsRange(m: Rows, pk: Bytes, lower: Bytes, upper: Bytes)
    ensures RangeVisited(m, pk, lower, upper) == RangeKeys(m, pk + lower, pk + upper, false)
  {
    hide Sorted, Le;
    assert (set k | k in m && InRange(k, pk + lower, pk + upper))
        == set k | k in m && Between(k, Some(pk + lower), Some(pk + upper));
  }

  const ONE_ITEM: Rows := map[[1, 2] := []]

  /** For primary key 1 with the one item 2, the range listing visits the bytes 1 2, the full listing 2. */
  lemma WholeKeyVisited()
    ensures RangeVisited(ONE_ITEM, [1], [], [9]) == [[1, 2]]
    ensures Listed(ONE_ITEM, [1]) == [[2]]
  {
    hide Sorted;
    var key: Bytes := [1, 2];
    assert HasPrefix(key, [1]) && key[1..] == [2];
    assert PrefixKeys(ONE_ITEM, [1]) == [key] by {
      SortedUnique([key], set k | k in ONE_ITEM && HasPrefix(k, [1]));
    }
    assert Between(key, Some([1] + []), Some([1] + [9])) by {
      assert [1] + [] == [1] && [1] + [9] == [1, 9] && key[1..] == [2] && [1, 9][1..] == [9];
      assert Le([], [2]) && Le([2], [9]);
    }
    SortedUnique([key], set k | k in ONE_ITEM && Between(k, Some([1] + []), Some([1] + [9])));
  }
}
