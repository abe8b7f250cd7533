/** Keyset pagination over a table: pages, tokens in both directions, and walks from page to page. */
module Pagination {
  import opened Bytes
  import opened Lex
  import opened Store
  import opened Tables

  datatype Token = Token(key: Bytes, reverse: bool)

  datatype Page = Page(keys: seq<Bytes>, values: seq<Bytes>, next: Option<Token>, prev: Option<Token>)

  // ---- What one request returns -------------------------------------------

  /** The leading keys that have the prefix: a scan stops at the first that has not. */
  function Leading(ks: seq<Bytes>, prefix: Bytes): (r: seq<Bytes>)
    ensures r <= ks && forall k :: k in r ==> k in ks
  {
    if ks == [] || !HasPrefix(ks[0], prefix) then [] else [ks[0]] + Leading(ks[1..], prefix)
  }

  /** At most `limit` keys; a negative limit is never reached. */
  function Take(ks: seq<Bytes>, limit: int): (r: seq<Bytes>)
    ensures r <= ks && forall k :: k in r ==> k in ks
  {
    if 0 <= limit < |ks| then ks[..limit] else ks
  }

  /** The key that did not fit. */
  function TokenAt(ks: seq<Bytes>, limit: int, reverse: bool): (r: Option<Token>) {
    if 0 <= limit < |ks| then Some(Token(ks[limit], reverse)) else None
  }

  /** The first key other than `at`, if the scan reaches one under the prefix. */
  function Neighbour(ks: seq<Bytes>, prefix: Bytes, at: Bytes, reverse: bool): (r: Option<Token>) {
    if ks == [] || !HasPrefix(ks[0], prefix) then None
    else if ks[0] == at then Neighbour(ks[1..], prefix, at, reverse)
    else Some(Token(ks[0], reverse))
  }

  function ValuesOf(m: Rows, ks: seq<Bytes>): (vs: seq<Bytes>)
    requires forall k :: k in ks ==> k in m
    ensures |vs| == |ks|
  {
    seq(|ks|, i requires 0 <= i < |ks| => (assert ks[i] in ks; m[ks[i]]))
  }

  /** The keys a request visits, in its direction, before the limit is applied. */
  function Visited(m: Rows, prefix: Bytes, token: Option<Token>): (ks: seq<Bytes>)
    ensures forall k :: k in ks ==> k in m
  {
    if token.None? then PrefixKeys(m, prefix)
    else if !token.value.reverse then Leading(Scan(m, Some(token.value.key), None, false), prefix)
    else
      ReversedKeys(m, None, Some(token.value.key));
      Leading(Scan(m, None, Some(token.value.key), true), prefix)
  }

  function PageOf(m: Rows, prefix: Bytes, token: Option<Token>, limit: int): (p: Page) {
    var ks := Visited(m, prefix, token);
    var keys := Take(ks, limit);
    if token.None? then
      Page(keys, ValuesOf(m, keys), TokenAt(ks, limit, false), None)
    else
      var at := token.value.key;
      if !token.value.reverse then
        Page(keys, ValuesOf(m, keys), TokenAt(ks, limit, false),
             Neighbour(Scan(m, None, Some(at), true), prefix, at, true))
      else
        Page(keys, ValuesOf(m, keys), Neighbour(Scan(m, Some(at), None, false), prefix, at, false),
             TokenAt(ks, limit, true))
  }

  // ---- The request --------------------------------------------------------

  /** The page-filling visitor, run over a scan until it stops. */
  method Fill(t: Table, txn: Txn, ks: seq<Bytes>, prefix: Bytes, limit: int, reverse: bool)
    returns (keys: seq<Bytes>, values: seq<Bytes>, token: Option<Token>)
    requires forall k :: k in ks ==> k in View(txn.rows, t.tableId)
    ensures keys == Take(Leading(ks, prefix), limit)
    ensures values == ValuesOf(View(txn.rows, t.tableId), keys)
    ensures token == TokenAt(Leading(ks, prefix), limit, reverse)
  {
    hide Leading, View, HasPrefix, ValuesOf, Take, TokenAt;
    NoValues(View(txn.rows, t.tableId));
    keys, values, token := [], [], None;
    ghost var m := View(txn.rows, t.tableId);
    var i := 0;
    while i < |ks|
      invariant 0 <= i <= |ks| && |values| == |keys| == i
      invariant Leading(ks, prefix) == keys + Leading(ks[i..], prefix)
      invariant limit < 0 || i <= limit
      invariant forall k :: k in keys ==> k in m
      invariant values == ValuesOf(m, keys)
    {
      LeadingStep(ks, prefix, i);
      if !HasPrefix(ks[i], prefix) {
        break;
      }
      Regroup(keys, [ks[i]], Leading(ks[i + 1..], prefix));
      if |values| == limit {
        StopAt(keys, ks[i], Leading(ks[i + 1..], prefix), reverse);
        return keys, values, Some(Token(ks[i], reverse));
      }
      ViewAt(txn.rows, t.tableId, ks[i]);
      ValuesAppend(m, keys, ks[i]);
      values := values + [txn.rows[t.FullKey(ks[i])]];
      keys := keys + [ks[i]];
      i := i + 1;
    }
    LeadingStep(ks, prefix, i);
    AllFits(keys, limit, reverse);
  }

  lemma NoValues(m: Rows)
    ensures ValuesOf(m, []) == []
  {}

  lemma ValuesAppend(m: Rows, keys: seq<Bytes>, k: Bytes)
    requires (forall j :: j in keys ==> j in m) && k in m
    ensures (forall j :: j in keys + [k] ==> j in m) && ValuesOf(m, keys + [k]) == ValuesOf(m, keys) + [m[k]]
  {}

  lemma StopAt(keys: seq<Bytes>, k: Bytes, rest: seq<Bytes>, reverse: bool)
    ensures Take(keys + ([k] + rest), |keys|) == keys
    ensures TokenAt(keys + ([k] + rest), |keys|, reverse) == Some(Token(k, reverse))
  {}

  lemma AllFits(keys: seq<Bytes>, limit: int, reverse: bool)
    requires limit < 0 || |keys| <= limit
    ensures keys + [] == keys && Take(keys, limit) == keys && TokenAt(keys, limit, reverse) == None
  {}

  lemma LeadingStep(ks: seq<Bytes>, prefix: Bytes, i: nat)
    requires i <= |ks|
    ensures Leading(ks[i..], prefix) ==
      if i == |ks| || !HasPrefix(ks[i], prefix) then [] else [ks[i]] + Leading(ks[i + 1..], prefix)
  {
    if i < |ks| { assert ks[i..][1..] == ks[i + 1..]; }
  }

  lemma ViewAt(rows: Rows, id: Bytes, k: Bytes)
    requires k in View(rows, id)
    ensures id + k in rows && rows[id + k] == View(rows, id)[k]
  {}

  /** The visitor that looks for the nearest key on the other side of the token. */
  method Nearest(ks: seq<Bytes>, prefix: Bytes, at: Bytes, reverse: bool) returns (token: Option<Token>)
    ensures token == Neighbour(ks, prefix, at, reverse)
  {
    token := None;
    var i := 0;
    while i < |ks|
      invariant 0 <= i <= |ks|
      invariant Neighbour(ks, prefix, at, reverse) == Neighbour(ks[i..], prefix, at, reverse)
    {
      assert ks[i..][1..] == ks[i + 1..];
      if !HasPrefix(ks[i], prefix) {
        break;
      }
      if ks[i] != at {
        return Some(Token(ks[i], reverse));
      }
      i := i + 1;
    }
  }

  lemma {:induction false} LeadingAll(ks: seq<Bytes>, prefix: Bytes)
    requires forall k :: k in ks ==> HasPrefix(k, prefix)
    ensures Leading(ks, prefix) == ks
  {
    if ks != [] {
      assert ks[0] in ks;
      LeadingAll(ks[1..], prefix);
    }
  }

  // ---- What a page holds --------------------------------------------------

  /** The keys under a prefix, in order. */
  function Under(m: Rows, prefix: Bytes): (ks: seq<Bytes>) { PrefixKeys(m, prefix) }

  function UnderFrom(m: Rows, prefix: Bytes, at: Bytes): (s: set<Bytes>) {
    set k | k in m && HasPrefix(k, prefix) && Le(at, k)
  }

  function UnderTo(m: Rows, prefix: Bytes, at: Bytes): (s: set<Bytes>) {
    set k | k in m && HasPrefix(k, prefix) && (Le(k, at) || HasPrefix(k, at))
  }

  /** No key of the table properly extends `at`. */
  predicate Unextended(m: Rows, at: Bytes) { forall k :: k in m && HasPrefix(k, at) ==> k == at }

  /** The leading run under a prefix of an ascending list that starts inside the prefix's interval. */
  lemma {:induction false} LeadingAscending(ks: seq<Bytes>, prefix: Bytes, at: Bytes)
    requires Ascending(ks) && HasPrefix(at, prefix) && forall k :: k in ks ==> Le(at, k)
    ensures Ascending(Leading(ks, prefix))
    ensures forall k :: k in Leading(ks, prefix) <==> k in ks && HasPrefix(k, prefix)
  {
    if ks != [] {
      if HasPrefix(ks[0], prefix) {
        LeadingAscending(ks[1..], prefix, at);
        assert ks == [ks[0]] + ks[1..];
      } else {
        forall k | k in ks ensures !HasPrefix(k, prefix) {
          if HasPrefix(k, prefix) {
            var i :| 0 <= i < |ks| && ks[i] == k;
            assert ks[0] in ks && Le(at, ks[0]);
            PrefixLe(at, prefix);
            LeTrans(prefix, at, ks[0]);
            LeRefl(k);
            assert Le(ks[0], k);
            PrefixContiguous(prefix, ks[0], k);
          }
        }
      }
    }
  }

  /** A forward request sees the keys under the prefix from the token on. */
  lemma ForwardVisits(m: Rows, prefix: Bytes, at: Bytes)
    requires HasPrefix(at, prefix)
    ensures Visited(m, prefix, Some(Token(at, false))) == Sorted(UnderFrom(m, prefix, at))
  {
    var ks := Scan(m, Some(at), None, false);
    LeadingAscending(ks, prefix, at);
    SortedUnique(Leading(ks, prefix), UnderFrom(m, prefix, at));
  }

  lemma {:induction false} LeadingDescending(ks: seq<Bytes>, prefix: Bytes, at: Bytes)
    requires Ascending(Reverse(ks)) && HasPrefix(at, prefix)
    requires forall k :: k in ks ==> Le(k, at) || HasPrefix(k, at)
    ensures forall k :: k in Leading(ks, prefix) <==> k in ks && HasPrefix(k, prefix)
  {
    if ks != [] {
      if HasPrefix(ks[0], prefix) {
        DescendingTail(ks);
        LeadingDescending(ks[1..], prefix, at);
        assert ks == [ks[0]] + ks[1..];
      } else {
        forall k | k in ks ensures !HasPrefix(k, prefix) {
          if HasPrefix(k, prefix) {
            var i :| 0 <= i < |ks| && ks[i] == k;
            assert ks[0] in ks;
            if i > 0 { assert Lt(Reverse(ks)[|ks| - 1 - i], Reverse(ks)[|ks| - 1]); }
            UnderBetween(prefix, ks[0], k, at);
          }
        }
      }
    }
  }

  lemma DescendingTail(ks: seq<Bytes>)
    requires ks != [] && Ascending(Reverse(ks))
    ensures Ascending(Reverse(ks[1..]))
  {
    forall i, j | 0 <= i < j < |ks| - 1 ensures Lt(Reverse(ks[1..])[i], Reverse(ks[1..])[j]) {
      assert Lt(Reverse(ks)[i], Reverse(ks)[j]);
    }
  }

  lemma UnderBetween(prefix: Bytes, top: Bytes, k: Bytes, at: Bytes)
    requires HasPrefix(at, prefix) && HasPrefix(k, prefix) && Le(k, top)
    requires Le(top, at) || HasPrefix(top, at)
    ensures HasPrefix(top, prefix)
  {
    PrefixLe(k, prefix);
    LeTrans(prefix, k, top);
    if HasPrefix(top, at) {
      assert prefix == at[..|prefix|] == top[..|prefix|];
    } else {
      PrefixContiguous(prefix, top, at);
    }
  }

  lemma ScannedDown(m: Rows, at: Bytes)
    ensures var ks := Scan(m, None, Some(at), true);
      && Ascending(Reverse(ks))
      && forall k :: k in ks <==> k in m && (Le(k, at) || HasPrefix(k, at))
  {
    hide Le, HasPrefix, Lt;
    ReversedKeys(m, None, Some(at));
    assert Reverse(Scan(m, None, Some(at), true)) == Sorted(set k | k in m && Between(k, None, Some(at)));
  }

  /** A descending enumeration of a set is the sorted one reversed. */
  lemma SortedDown(run: seq<Bytes>, s: set<Bytes>)
    requires Ascending(Reverse(run)) && forall k :: k in run <==> k in s
    ensures run == Reverse(Sorted(s))
  {
    hide Ascending, Sorted;
    forall k ensures k in Reverse(run) <==> k in s { ReverseMembers(run, k); }
    SortedUnique(Reverse(run), s);
    assert Reverse(Reverse(run)) == run;
  }

  /** A reverse request sees the keys under the prefix down from the token, and its extensions first. */
  lemma ReverseVisits(m: Rows, prefix: Bytes, at: Bytes)
    requires HasPrefix(at, prefix)
    ensures Visited(m, prefix, Some(Token(at, true))) == Reverse(Sorted(UnderTo(m, prefix, at)))
    ensures Leading(Scan(m, None, Some(at), true), prefix) == Reverse(Sorted(UnderTo(m, prefix, at)))
  {
    hide Scan, Sorted, Reverse, Ascending, Leading, Le, HasPrefix;
    var ks := Scan(m, None, Some(at), true);
    ScannedDown(m, at);
    LeadingDescending(ks, prefix, at);
    DescendingPrefix(Leading(ks, prefix), ks);
    SortedDown(Leading(ks, prefix), UnderTo(m, prefix, at));
  }

  lemma DescendingPrefix(run: seq<Bytes>, ks: seq<Bytes>)
    requires run <= ks && Ascending(Reverse(ks))
    ensures Ascending(Reverse(run))
  {
    hide Lt;
    forall i, j | 0 <= i < j < |run| ensures Lt(Reverse(run)[i], Reverse(run)[j]) {
      var d := |ks| - |run|;
      assert Lt(Reverse(ks)[d + i], Reverse(ks)[d + j]);
    }
  }

  // ---- What a page shows ----------------------------------------------------

  lemma TakenKeys(ks: seq<Bytes>, limit: int, reverse: bool)
    ensures Take(ks, limit) <= ks && (limit >= 0 ==> |Take(ks, limit)| <= limit)
    ensures forall k :: k in ks ==> k in Take(ks, limit) || TokenAt(ks, limit, reverse).Some?
    ensures var next := TokenAt(ks, limit, reverse);
      next.Some? ==> next.value.key in ks && next.value.reverse == reverse
  {}

  /** What does not fit on a page comes at or after the token it leaves, in the page's direction. */
  lemma TakenAscending(ks: seq<Bytes>, limit: int, k: Bytes)
    requires Ascending(ks) && k in ks
    ensures Ascending(Take(ks, limit))
    ensures k in Take(ks, limit) || (TokenAt(ks, limit, false).Some? && Le(TokenAt(ks, limit, false).value.key, k))
  {
    hide Le;
    var i :| 0 <= i < |ks| && ks[i] == k;
    if 0 <= limit < |ks| {
      if i < limit {
        assert ks[..limit][i] == k;
      } else if i == limit {
        LeRefl(k);
      } else {
        assert Lt(ks[limit], ks[i]);
      }
    }
  }

  lemma TakenDescending(ks: seq<Bytes>, limit: int, k: Bytes)
    requires Ascending(Reverse(ks)) && k in ks
    ensures Ascending(Reverse(Take(ks, limit)))
    ensures k in Take(ks, limit) || (TokenAt(ks, limit, true).Some? && Le(k, TokenAt(ks, limit, true).value.key))
  {
    hide Le;
    DescendingPrefix(Take(ks, limit), ks);
    var i :| 0 <= i < |ks| && ks[i] == k;
    if 0 <= limit < |ks| {
      if i < limit {
        assert ks[..limit][i] == k;
      } else if i == limit {
        LeRefl(k);
      } else {
        assert Lt(Reverse(ks)[|ks| - 1 - i], Reverse(ks)[|ks| - 1 - limit]);
      }
    }
  }

  lemma {:induction false} NeighbourShown(ks: seq<Bytes>, prefix: Bytes, at: Bytes, reverse: bool)
    ensures var r := Neighbour(ks, prefix, at, reverse);
      r.Some? ==> r.value.reverse == reverse && r.value.key in ks && HasPrefix(r.value.key, prefix)
  {
    if ks != [] && HasPrefix(ks[0], prefix) && ks[0] == at { NeighbourShown(ks[1..], prefix, at, reverse); }
  }

  lemma {:induction false} LeadingUnder(ks: seq<Bytes>, prefix: Bytes)
    ensures forall k :: k in Leading(ks, prefix) ==> HasPrefix(k, prefix)
  {
    if ks != [] { LeadingUnder(ks[1..], prefix); }
  }

  lemma VisitedUnder(m: Rows, prefix: Bytes, token: Option<Token>)
    ensures forall k :: k in Visited(m, prefix, token) ==> k in m && HasPrefix(k, prefix)
  {
    hide Sorted, Le, HasPrefix;
    if token.Some? {
      LeadingUnder(Scan(m, Some(token.value.key), None, false), prefix);
      LeadingUnder(Scan(m, None, Some(token.value.key), true), prefix);
    }
  }

  lemma VisitedOrder(m: Rows, prefix: Bytes, token: Option<Token>)
    ensures var ks := Visited(m, prefix, token);
      Ascending(if token.Some? && token.value.reverse then Reverse(ks) else ks)
  {
    hide Sorted, Le, HasPrefix, Lt;
    if token.Some? {
      var at := token.value.key;
      if token.value.reverse {
        ScannedDown(m, at);
        DescendingPrefix(Leading(Scan(m, None, Some(at), true), prefix), Scan(m, None, Some(at), true));
      } else {
        AscendingPrefix(Leading(Scan(m, Some(at), None, false), prefix), Scan(m, Some(at), None, false));
      }
    }
  }

  lemma AscendingPrefix(run: seq<Bytes>, ks: seq<Bytes>)
    requires run <= ks && Ascending(ks)
    ensures Ascending(run)
  {
    hide Lt;
  }

  lemma VisitedForward(m: Rows, prefix: Bytes, token: Option<Token>, k: Bytes)
    requires token.None? || (!token.value.reverse && HasPrefix(token.value.key, prefix))
    requires k in m && HasPrefix(k, prefix) && (token.Some? ==> Le(token.value.key, k))
    ensures k in Visited(m, prefix, token)
  {
    hide Sorted, Le, HasPrefix;
    if token.Some? { ForwardVisits(m, prefix, token.value.key); }
  }

  lemma VisitedReverse(m: Rows, prefix: Bytes, at: Bytes, k: Bytes)
    requires HasPrefix(at, prefix) && k in m && HasPrefix(k, prefix) && (Le(k, at) || HasPrefix(k, at))
    ensures k in Visited(m, prefix, Some(Token(at, true)))
  {
    hide Sorted, Le, HasPrefix, Visited;
    ReverseVisits(m, prefix, at);
    ReverseMembers(Sorted(UnderTo(m, prefix, at)), k);
  }

  /** A page's values are those of its keys, and its tokens name keys under the prefix in their own direction. */
  lemma PageShows(m: Rows, prefix: Bytes, token: Option<Token>, limit: int)
    ensures var p := PageOf(m, prefix, token, limit);
      && |p.values| == |p.keys| && (limit >= 0 ==> |p.keys| <= limit)
      && (forall i :: 0 <= i < |p.keys| ==>
        p.keys[i] in m && p.values[i] == m[p.keys[i]] && HasPrefix(p.keys[i], prefix))
      && (token.None? ==> p.prev.None?)
      && (p.next.Some? ==> !p.next.value.reverse && p.next.value.key in m && HasPrefix(p.next.value.key, prefix))
      && (p.prev.Some? ==> p.prev.value.reverse && p.prev.value.key in m && HasPrefix(p.prev.value.key, prefix))
  {
    hide Sorted, Le, HasPrefix, Visited, Take, TokenAt, Neighbour;
    var ks := Visited(m, prefix, token);
    VisitedUnder(m, prefix, token);
    TakenKeys(ks, limit, false);
    TakenKeys(ks, limit, true);
    forall i | 0 <= i < |Take(ks, limit)| ensures Take(ks, limit)[i] in ks {
      assert Take(ks, limit)[i] in Take(ks, limit);
    }
    if token.Some? {
      var at := token.value.key;
      ReversedKeys(m, None, Some(at));
      NeighbourShown(Scan(m, None, Some(at), true), prefix, at, true);
      NeighbourShown(Scan(m, Some(at), None, false), prefix, at, false);
    }
  }

  /** A page is in order and leaves out nothing before the token it gives. */
  lemma PageIsComplete(m: Rows, prefix: Bytes, token: Option<Token>, limit: int)
    ensures var p := PageOf(m, prefix, token, limit);
      && Ascending(if token.Some? && token.value.reverse then Reverse(p.keys) else p.keys)
      && (token.None? || (!token.value.reverse && HasPrefix(token.value.key, prefix)) ==>
        forall k :: k in m && HasPrefix(k, prefix) && (token.Some? ==> Le(token.value.key, k)) ==>
          k in p.keys || (p.next.Some? && Le(p.next.value.key, k)))
      && (token.Some? && token.value.reverse && HasPrefix(token.value.key, prefix) ==>
        forall k :: k in m && HasPrefix(k, prefix) && (Le(k, token.value.key) || HasPrefix(k, token.value.key)) ==>
          k in p.keys || (p.prev.Some? && Le(k, p.prev.value.key)))
  {
    hide Sorted, Le, HasPrefix, Visited, Take, TokenAt, Neighbour, ValuesOf, Ascending;
    var ks, p := Visited(m, prefix, token), PageOf(m, prefix, token, limit);
    VisitedOrder(m, prefix, token);
    TakenInOrder(ks, limit, token.Some? && token.value.reverse);
    if token.None? || !token.value.reverse {
      if token.None? || HasPrefix(token.value.key, prefix) {
        forall k | k in m && HasPrefix(k, prefix) && (token.Some? ==> Le(token.value.key, k))
          ensures k in p.keys || (p.next.Some? && Le(p.next.value.key, k))
        {
          VisitedForward(m, prefix, token, k);
          TakenAscending(ks, limit, k);
        }
      }
    } else if HasPrefix(token.value.key, prefix) {
      forall k | k in m && HasPrefix(k, prefix) && (Le(k, token.value.key) || HasPrefix(k, token.value.key))
        ensures k in p.keys || (p.prev.Some? && Le(k, p.prev.value.key))
      {
        VisitedReverse(m, prefix, token.value.key, k);
        TakenDescending(ks, limit, k);
      }
    }
  }

  lemma TakenInOrder(ks: seq<Bytes>, limit: int, reverse: bool)
    requires Ascending(if reverse then Reverse(ks) else ks)
    ensures Ascending(if reverse then Reverse(Take(ks, limit)) else Take(ks, limit))
  {
    if reverse { DescendingPrefix(Take(ks, limit), ks); } else { AscendingPrefix(Take(ks, limit), ks); }
  }

  // ---- Any token ------------------------------------------------------------

  lemma {:induction false} LeadingAt(ks: seq<Bytes>, prefix: Bytes, i: nat)
    requires i < |ks|
    ensures i < |Leading(ks, prefix)| <==> forall j :: 0 <= j <= i ==> HasPrefix(ks[j], prefix)
  {
    hide HasPrefix;
    if HasPrefix(ks[0], prefix) && i > 0 {
      LeadingAt(ks[1..], prefix, i - 1);
      assert forall j :: 1 <= j <= i ==> ks[j] == ks[1..][j - 1];
    }
  }

  lemma LeadingAscends(ks: seq<Bytes>, prefix: Bytes, k: Bytes)
    requires Ascending(ks) && k in ks
    ensures k in Leading(ks, prefix) <==> forall j :: j in ks && Le(j, k) ==> HasPrefix(j, prefix)
  {
    hide Leading, Le, HasPrefix;
    var i :| 0 <= i < |ks| && ks[i] == k;
    LeadingAt(ks, prefix, i);
    LeRefl(k);
    forall j | 0 <= j < |ks| ensures Le(ks[j], k) <==> j <= i {
      if j < i { assert Lt(ks[j], ks[i]); }
      if i < j { assert Lt(ks[i], ks[j]); if Le(ks[j], k) { LeAntisym(ks[j], k); } }
    }
    SamePlace(ks, Leading(ks, prefix), i);
  }

  lemma LeadingDescends(ks: seq<Bytes>, prefix: Bytes, k: Bytes)
    requires Ascending(Reverse(ks)) && k in ks
    ensures k in Leading(ks, prefix) <==> forall j :: j in ks && Le(k, j) ==> HasPrefix(j, prefix)
  {
    hide Leading, Le, HasPrefix;
    var i :| 0 <= i < |ks| && ks[i] == k;
    LeadingAt(ks, prefix, i);
    LeRefl(k);
    forall j | 0 <= j < |ks| ensures Le(k, ks[j]) <==> j <= i {
      var n := |ks| - 1;
      if j < i { assert Lt(Reverse(ks)[n - i], Reverse(ks)[n - j]); }
      if i < j { assert Lt(Reverse(ks)[n - j], Reverse(ks)[n - i]); if Le(k, ks[j]) { LeAntisym(k, ks[j]); } }
    }
    forall a, b | 0 <= a < b < |ks| ensures ks[a] != ks[b] {
      assert Lt(Reverse(ks)[|ks| - 1 - b], Reverse(ks)[|ks| - 1 - a]);
    }
    SamePlace(ks, Leading(ks, prefix), i);
  }

  lemma SamePlace(ks: seq<Bytes>, run: seq<Bytes>, i: nat)
    requires run <= ks && i < |ks| && forall a, b :: 0 <= a < b < |ks| ==> ks[a] != ks[b]
    ensures ks[i] in run <==> i < |run|
  {}

  /**
   A forward page after any token, under the prefix or not: the keys from the token on, up to the first key of
   the table that is not under the prefix.
   */
  lemma AnyTokenForward(m: Rows, prefix: Bytes, at: Bytes, limit: int, k: Bytes)
    ensures
      var p := PageOf(m, prefix, Some(Token(at, false)), limit);
      var shown := k in m && Le(at, k) && forall j :: j in m && Le(at, j) && Le(j, k) ==> HasPrefix(j, prefix);
      && (k in p.keys ==> shown)
      && (shown ==> k in p.keys || (p.next.Some? && Le(p.next.value.key, k)))
  {
    hide Leading, Take, TokenAt, Neighbour, ValuesOf, Le, HasPrefix, Ascending;
    var ks, token := Scan(m, Some(at), None, false), Some(Token(at, false));
    ScanMeaning(m, Some(at), None, false);
    var run := Visited(m, prefix, token);
    VisitedOrder(m, prefix, token);
    TakenKeys(run, limit, false);
    if k in ks { LeadingAscends(ks, prefix, k); }
    if k in run { TakenAscending(run, limit, k); }
  }

  /** A reverse page: the token's extensions and the keys down from it, to the first that is not under the prefix. */
  lemma AnyTokenReverse(m: Rows, prefix: Bytes, at: Bytes, limit: int, k: Bytes)
    ensures
      var p := PageOf(m, prefix, Some(Token(at, true)), limit);
      var shown := k in m && (Le(k, at) || HasPrefix(k, at)) &&
        forall j :: j in m && Le(k, j) && (Le(j, at) || HasPrefix(j, at)) ==> HasPrefix(j, prefix);
      && (k in p.keys ==> shown)
      && (shown ==> k in p.keys || (p.prev.Some? && Le(k, p.prev.value.key)))
  {
    hide Leading, Take, TokenAt, Neighbour, ValuesOf, Le, HasPrefix, Ascending;
    var ks, token := Scan(m, None, Some(at), true), Some(Token(at, true));
    ScanMeaning(m, None, Some(at), true);
    var run := Visited(m, prefix, token);
    VisitedOrder(m, prefix, token);
    TakenKeys(run, limit, true);
    if k in ks { LeadingDescends(ks, prefix, k); }
    if k in run { TakenDescending(run, limit, k); }
  }

  // ---- Listing ----------------------------------------------------------------

  method ListPrefixedPaginated(t: Table, txn: Txn, prefix: Bytes, token: Option<Token>, limit: int)
    returns (page: Page)
    ensures page == PageOf(View(txn.rows, t.tableId), prefix, token, limit)
    // each key with its value, as the table holds them
    ensures |page.values| == |page.keys|
    ensures forall i :: 0 <= i < |page.keys| ==>
      && t.tableId + page.keys[i] in txn.rows && txn.rows[t.tableId + page.keys[i]] == page.values[i]
      && HasPrefix(page.keys[i], prefix)
    // in the request's direction, at most limit of them, and none left out
    ensures limit >= 0 ==> |page.keys| <= limit
    ensures Ascending(if token.Some? && token.value.reverse then Reverse(page.keys) else page.keys)
    ensures token.None? || (!token.value.reverse && HasPrefix(token.value.key, prefix)) ==>
      forall k :: t.tableId + k in txn.rows && HasPrefix(k, prefix) && (token.Some? ==> Le(token.value.key, k)) ==>
        k in page.keys || (page.next.Some? && Le(page.next.value.key, k))
    ensures token.Some? && token.value.reverse && HasPrefix(token.value.key, prefix) ==>
      forall k ::
        (t.tableId + k in txn.rows && HasPrefix(k, prefix) && (Le(k, token.value.key) || HasPrefix(k, token.value.key)))
        ==> k in page.keys || (page.prev.Some? && Le(k, page.prev.value.key))
    // tokens name keys of the table; a first page has nothing before it
    ensures token.None? ==> page.prev.None?
    ensures page.next.Some? ==>
      !page.next.value.reverse && t.tableId + page.next.value.key in txn.rows && HasPrefix(page.next.value.key, prefix)
    ensures page.prev.Some? ==>
      page.prev.value.reverse && t.tableId + page.prev.value.key in txn.rows && HasPrefix(page.prev.value.key, prefix)
  {
    ghost var m := View(txn.rows, t.tableId);
    PageShows(m, prefix, token, limit);
    PageIsComplete(m, prefix, token, limit);
    if token.None? {
      var ks := t.EachPrefix(txn, prefix);
      LeadingAll(ks, prefix);
      var keys, values, next := Fill(t, txn, ks, prefix, limit, false);
      page := Page(keys, values, next, None);
    } else if !token.value.reverse {
      var at := token.value.key;
      var below := t.ListInRange(txn, None, Some(at), true);
      var prev := Nearest(below, prefix, at, true);
      var above := t.ListInRange(txn, Some(at), None, false);
      var keys, values, next := Fill(t, txn, above, prefix, limit, false);
      page := Page(keys, values, next, prev);
    } else {
      var at := token.value.key;
      var above := t.ListInRange(txn, Some(at), None, false);
      var next := Nearest(above, prefix, at, false);
      var below := t.ListInRange(txn, None, Some(at), true);
      ReversedKeys(m, None, Some(at));
      var keys, values, prev := Fill(t, txn, below, prefix, limit, true);
      page := Page(keys, values, next, prev);
    }
  }

  // ---- Neighbours ---------------------------------------------------------

  /** The first key other than `at`. */
  function FirstOther(ks: seq<Bytes>, at: Bytes, reverse: bool): (r: Option<Token>) {
    if ks == [] then None
    else if ks[0] == at then FirstOther(ks[1..], at, reverse)
    else Some(Token(ks[0], reverse))
  }

  lemma {:induction false} NeighbourIsFirstOther(ks: seq<Bytes>, prefix: Bytes, at: Bytes, reverse: bool)
    ensures Neighbour(ks, prefix, at, reverse) == FirstOther(Leading(ks, prefix), at, reverse)
  {
    if ks != [] && HasPrefix(ks[0], prefix) {
      NeighbourIsFirstOther(ks[1..], prefix, at, reverse);
      assert Leading(ks, prefix)[1..] == Leading(ks[1..], prefix);
    }
  }

  /** With distinct keys, `at` can only be skipped at the front. */
  lemma FirstOtherDistinct(ks: seq<Bytes>, at: Bytes, reverse: bool)
    requires |ks| >= 2 ==> ks[0] != ks[1]
    ensures FirstOther(ks, at, reverse) ==
      if ks != [] && ks[0] != at then Some(Token(ks[0], reverse))
      else if |ks| >= 2 then Some(Token(ks[1], reverse))
      else None
  {
    if |ks| == 1 { assert ks[1..] == []; }
  }

  function KeysBelow(m: Rows, prefix: Bytes, at: Bytes): (s: set<Bytes>) {
    set k | k in m && HasPrefix(k, prefix) && Lt(k, at)
  }

  function LastToken(ks: seq<Bytes>): (r: Option<Token>) {
    if ks == [] then None else Some(Token(ks[|ks| - 1], true))
  }

  lemma ProperExtensionIsAbove(k: Bytes, at: Bytes)
    requires HasPrefix(k, at) && k != at
    ensures !Le(k, at) && Lt(at, k)
  {
    PrefixLe(k, at);
    if Le(k, at) { LeAntisym(k, at); }
  }

  /**
   The previous token of a forward page names the nearest key below the page exactly when no key of
   the table properly extends the page's own token.
   */
  lemma PreviousTokenExactly(m: Rows, prefix: Bytes, at: Bytes, limit: int)
    requires HasPrefix(at, prefix)
    ensures PageOf(m, prefix, Some(Token(at, false)), limit).prev == LastToken(Sorted(KeysBelow(m, prefix, at)))
      <==> Unextended(m, at)
  {
    hide Sorted, Visited, Scan, Leading, Neighbour, KeysBelow, UnderTo, Unextended, Le, HasPrefix, TokenAt, ValuesOf;
    var to, below := UnderTo(m, prefix, at), KeysBelow(m, prefix, at);
    var up := Sorted(to);
    ReverseVisits(m, prefix, at);
    NeighbourIsFirstOther(Scan(m, None, Some(at), true), prefix, at, true);
    var run := Reverse(up);
    if |run| >= 2 { assert Lt(up[|up| - 2], up[|up| - 1]); }
    FirstOtherDistinct(run, at, true);
    if Unextended(m, at) {
      PredecessorUnextended(m, prefix, at);
    } else {
      ExtensionComesFirst(m, prefix, at);
      assert run[0] == up[|up| - 1];
    }
  }

  /** A proper extension of the token is visited before it, and is not below it. */
  lemma ExtensionComesFirst(m: Rows, prefix: Bytes, at: Bytes)
    requires HasPrefix(at, prefix) && !Unextended(m, at)
    ensures
      var up, lo := Sorted(UnderTo(m, prefix, at)), Sorted(KeysBelow(m, prefix, at));
      up != [] && up[|up| - 1] != at && (lo != [] ==> lo[|lo| - 1] != up[|up| - 1])
  {
    hide Sorted;
    var up, lo := Sorted(UnderTo(m, prefix, at)), Sorted(KeysBelow(m, prefix, at));
    var e :| e in m && HasPrefix(e, at) && e != at;
    ProperExtensionIsAbove(e, at);
    assert prefix == at[..|prefix|] == e[..|prefix|];
    assert e in up;
    TopIsAbove(up, e, at);
    if lo != [] {
      assert lo[|lo| - 1] in lo;
      if lo[|lo| - 1] == up[|up| - 1] { LeAntisym(up[|up| - 1], at); }
    }
  }

  lemma TopIsAbove(ks: seq<Bytes>, e: Bytes, at: Bytes)
    requires Ascending(ks) && e in ks && Lt(at, e)
    ensures Lt(at, ks[|ks| - 1])
  {
    var i :| 0 <= i < |ks| && ks[i] == e;
    var top := ks[|ks| - 1];
    if i < |ks| - 1 {
      LeTrans(at, e, top);
      if at == top { LeAntisym(at, e); }
    }
  }

  /** Without extensions the keys down from `at` are those below it, and `at` itself if present. */
  lemma PredecessorUnextended(m: Rows, prefix: Bytes, at: Bytes)
    requires HasPrefix(at, prefix) && Unextended(m, at)
    ensures Sorted(UnderTo(m, prefix, at)) == Sorted(KeysBelow(m, prefix, at)) + if at in m then [at] else []
  {
    hide Sorted, Le;
    var lo := Sorted(KeysBelow(m, prefix, at));
    var ks := lo + if at in m then [at] else [];
    forall i, j | 0 <= i < j < |ks| ensures Lt(ks[i], ks[j]) {
      assert lo[i] in lo;
    }
    LeRefl(at);
    SortedUnique(ks, UnderTo(m, prefix, at));
  }

  // ---- Keys that extend the token ---------------------------------------------

  /** The first key a reverse request sees: the token itself exactly when no key extends it, and else a larger one. */
  lemma ReverseTop(m: Rows, prefix: Bytes, at: Bytes)
    requires at in m && HasPrefix(at, prefix)
    ensures
      var ks := Visited(m, prefix, Some(Token(at, true)));
      && ks != [] && ks[0] in m && HasPrefix(ks[0], prefix)
      && (if Unextended(m, at) then ks[0] == at else Lt(at, ks[0]))
  {
    hide Sorted, Visited, KeysBelow, Le, HasPrefix, Unextended;
    ReverseVisits(m, prefix, at);
    LeRefl(at);
    var up := Sorted(UnderTo(m, prefix, at));
    assert at in up;
    var top := up[|up| - 1];
    assert top in up;
    if Unextended(m, at) {
      PredecessorUnextended(m, prefix, at);
    } else {
      ExtensionComesFirst(m, prefix, at);
      LeLast(up, at);
    }
  }

  lemma LeLast(ks: seq<Bytes>, k: Bytes)
    requires Ascending(ks) && k in ks
    ensures Le(k, ks[|ks| - 1])
  {
    var i :| 0 <= i < |ks| && ks[i] == k;
    if i == |ks| - 1 { LeRefl(k); } else { assert Lt(ks[i], ks[|ks| - 1]); }
  }

  /** With an extended token, the previous token of a forward page points forward, to an extension. */
  lemma PreviousOfExtended(m: Rows, prefix: Bytes, at: Bytes, limit: int)
    requires at in m && HasPrefix(at, prefix) && !Unextended(m, at)
    ensures
      var prev := PageOf(m, prefix, Some(Token(at, false)), limit).prev;
      && prev.Some? && prev.value.reverse
      && prev.value.key in m && HasPrefix(prev.value.key, prefix) && Lt(at, prev.value.key)
  {
    hide Sorted, Scan, Leading, Neighbour, Le, HasPrefix, Unextended, TokenAt, ValuesOf;
    ReverseTop(m, prefix, at);
    NeighbourIsFirstOther(Scan(m, None, Some(at), true), prefix, at, true);
  }

  // ---- A table with an extended key ---------------------------------------------

  const A: Bytes := [0]

  const AB: Bytes := [0, 1]

  const EXTENDED: Rows := map[A := [], AB := []]

  lemma ExtendedVisited()
    ensures Visited(EXTENDED, [], Some(Token(A, true))) == [AB, A]
    ensures Visited(EXTENDED, [], Some(Token(AB, true))) == [AB, A]
  {
    hide Visited, Sorted;
    assert Le(A, AB) && !Le(AB, A) by { assert AB[1..] == [1] && A[1..] == []; }
    LeRefl(A);
    LeRefl(AB);
    assert HasPrefix(AB, A);
    SortedUnique([A, AB], UnderTo(EXTENDED, [], A));
    SortedUnique([A, AB], UnderTo(EXTENDED, [], AB));
    ReverseVisits(EXTENDED, [], A);
    ReverseVisits(EXTENDED, [], AB);
    assert Reverse([A, AB]) == [AB, A];
  }

  /** The page from the smaller key has nothing before it, but its previous token is the larger key. */
  lemma WrongPreviousToken()
    ensures PageOf(EXTENDED, [], Some(Token(A, false)), 1).prev == Some(Token(AB, true))
    ensures KeysBelow(EXTENDED, [], A) == {}
  {
    hide Visited, Sorted, Scan, Leading, Neighbour;
    NeighbourIsFirstOther(Scan(EXTENDED, None, Some(A), true), [], A, true);
    ExtendedVisited();
    ReverseVisitsLeading(EXTENDED, [], A);
    forall k | k in EXTENDED ensures !Lt(k, A) { if k == AB { ProperExtensionIsAbove(AB, A); } }
  }

  lemma ReverseVisitsLeading(m: Rows, prefix: Bytes, at: Bytes)
    ensures Visited(m, prefix, Some(Token(at, true))) == Leading(Scan(m, None, Some(at), true), prefix)
  {}
}
