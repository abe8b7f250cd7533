/** Walks from page to page, over a changing table and over an unchanged one. */
module PageWalks {
  import opened Bytes
  import opened Lex
  import opened Store
  import opened Tables
  import opened Pagination

  /** The pages of a walk whose i-th request sees tables[i]; `back` follows previous tokens. */
  function Walk(tables: seq<Rows>, prefix: Bytes, token: Option<Token>, limit: int, back: bool): (ps: seq<Page>)
    ensures |ps| <= |tables|
  {
    if tables == [] then []
    else
      var p := PageOf(tables[0], prefix, token, limit);
      var follow := if back then p.prev else p.next;
      if follow.None? then [p] else [p] + Walk(tables[1..], prefix, follow, limit, back)
  }

  predicate Ended(ps: seq<Page>, back: bool) {
    ps != [] && (if back then ps[|ps| - 1].prev.None? else ps[|ps| - 1].next.None?)
  }

  function KeysOf(ps: seq<Page>): (ks: seq<Bytes>) { if ps == [] then [] else ps[0].keys + KeysOf(ps[1..]) }

  /** A walk is its first page followed by the walk from the token that page offers. */
  lemma WalkStep(tables: seq<Rows>, prefix: Bytes, token: Option<Token>, limit: int, back: bool)
    requires tables != []
    ensures
      var ps := Walk(tables, prefix, token, limit, back);
      var p := PageOf(tables[0], prefix, token, limit);
      var follow := if back then p.prev else p.next;
      var rest := Walk(tables[1..], prefix, follow, limit, back);
      if follow.None? then ps == [p] && KeysOf(ps) == p.keys && Ended(ps, back)
      else ps == [p] + rest && KeysOf(ps) == p.keys + KeysOf(rest) && (Ended(ps, back) <==> Ended(rest, back))
  {
    hide PageOf;
    var ps := Walk(tables, prefix, token, limit, back);
    assert KeysOf(ps) == ps[0].keys + KeysOf(ps[1..]);
    assert KeysOf([]) == [];
    var p := PageOf(tables[0], prefix, token, limit);
    var follow := if back then p.prev else p.next;
    if follow.None? {
      assert ps[1..] == [];
    } else {
      var rest := Walk(tables[1..], prefix, follow, limit, back);
      assert ps[1..] == rest;
      assert rest != [] ==> ps[|ps| - 1] == rest[|rest| - 1];
    }
  }

  // ---- Forward walks over a changing table --------------------------------

  /** A forward walk starts at no token, or at a key under the prefix. */
  predicate ForwardToken(token: Option<Token>, prefix: Bytes) {
    token.Some? ==> !token.value.reverse && HasPrefix(token.value.key, prefix)
  }

  predicate FromToken(token: Option<Token>, k: Bytes) { token.Some? ==> Le(token.value.key, k) }

  function StartSet(m: Rows, prefix: Bytes, token: Option<Token>): (s: set<Bytes>) {
    set k | k in m && HasPrefix(k, prefix) && FromToken(token, k)
  }

  lemma ForwardPage(m: Rows, prefix: Bytes, token: Option<Token>, limit: int)
    requires ForwardToken(token, prefix)
    ensures
      var p, ks := PageOf(m, prefix, token, limit), Sorted(StartSet(m, prefix, token));
      && Visited(m, prefix, token) == ks
      && p.keys == Take(ks, limit) && p.next == TokenAt(ks, limit, false)
  {
    if token.Some? {
      ForwardVisits(m, prefix, token.value.key);
      assert StartSet(m, prefix, token) == UnderFrom(m, prefix, token.value.key);
    } else {
      assert StartSet(m, prefix, token) == set k | k in m && HasPrefix(k, prefix);
    }
  }

  lemma StartMember(m: Rows, prefix: Bytes, token: Option<Token>, k: Bytes)
    ensures k in Sorted(StartSet(m, prefix, token)) <==> k in m && HasPrefix(k, prefix) && FromToken(token, k)
  {}

  /** The key is in every table the walk looked at. */
  predicate PresentThroughout(k: Bytes, tables: seq<Rows>, n: nat)
    requires n <= |tables|
  {
    forall i :: 0 <= i < n ==> k in tables[i]
  }

  /**
   With any inserts and deletes between requests, the keys a forward walk returns are strictly
   increasing, so none comes twice; and once it ends it has returned every key that was there throughout.
   */
  lemma {:induction false} ForwardWalkIsSafe(tables: seq<Rows>, prefix: Bytes, token: Option<Token>, limit: int)
    requires ForwardToken(token, prefix)
    ensures
      var ps := Walk(tables, prefix, token, limit, false);
      && Ascending(KeysOf(ps))
      && (forall k :: k in KeysOf(ps) ==> HasPrefix(k, prefix) && FromToken(token, k))
      && (Ended(ps, false) ==>
        forall k :: HasPrefix(k, prefix) && FromToken(token, k) && PresentThroughout(k, tables, |ps|)
          ==> k in KeysOf(ps))
    decreases |tables|
  {
    hide PageOf, Sorted, StartSet, Walk, KeysOf, Ended, Le, HasPrefix, Ascending;
    if tables != [] {
      var m := tables[0];
      WalkStep(tables, prefix, token, limit, false);
      ForwardPage(m, prefix, token, limit);
      var ks := Sorted(StartSet(m, prefix, token));
      forall k ensures k in ks <==> k in m && HasPrefix(k, prefix) && FromToken(token, k) {
        StartMember(m, prefix, token, k);
      }
      var p := PageOf(m, prefix, token, limit);
      if p.next.Some? {
        assert ks[limit] in ks;
        ForwardWalkIsSafe(tables[1..], prefix, p.next, limit);
        var ps, rest := Walk(tables, prefix, token, limit, false), Walk(tables[1..], prefix, p.next, limit, false);
        JoinAscending(ks, limit, KeysOf(rest));
        forall k | k in KeysOf(rest) ensures FromToken(token, k) {
          if token.Some? { LeTrans(token.value.key, ks[limit], k); }
        }
        forall k | Ended(ps, false) && HasPrefix(k, prefix) && FromToken(token, k) && PresentThroughout(k, tables, |ps|)
          ensures k in KeysOf(ps)
        {
          assert k in tables[0];
          SplitSorted(ks, limit, k);
          forall i | 0 <= i < |rest| ensures k in tables[1..][i] { assert k in tables[i + 1]; }
        }
      } else {
        forall k | PresentThroughout(k, tables, 1) ensures k in m { assert k in tables[0]; }
      }
    } else {
      EmptyWalk(prefix, token, limit);
    }
  }

  lemma EmptyWalk(prefix: Bytes, token: Option<Token>, limit: int)
    ensures Walk([], prefix, token, limit, false) == [] && KeysOf([]) == [] && Ascending([]) && !Ended([], false)
  {}

  /** A page's keys followed by keys from its next token on. */
  lemma JoinAscending(ks: seq<Bytes>, n: nat, rest: seq<Bytes>)
    requires Ascending(ks) && n < |ks| && Ascending(rest) && forall k :: k in rest ==> Le(ks[n], k)
    ensures Ascending(ks[..n] + rest)
  {
    var all := ks[..n] + rest;
    forall i, j | 0 <= i < j < |all| ensures Lt(all[i], all[j]) {
      if i < n <= j {
        assert all[j] in rest;
        assert Lt(ks[i], ks[n]);
        LeTrans(ks[i], ks[n], all[j]);
        if ks[i] == all[j] { LeAntisym(ks[i], ks[n]); }
      }
    }
  }

  lemma SplitSorted(ks: seq<Bytes>, n: nat, k: Bytes)
    requires Ascending(ks) && n < |ks| && k in ks
    ensures k in ks[..n] || Le(ks[n], k)
  {
    var i :| 0 <= i < |ks| && ks[i] == k;
    if i < n {
      assert ks[..n][i] == k;
    } else if i == n {
      LeRefl(k);
    } else {
      assert Lt(ks[n], ks[i]);
    }
  }

  // ---- Pages of one table by position -------------------------------------

  /** The keys under the prefix from the i-th on, and up to the i-th. */
  lemma FromPosition(m: Rows, prefix: Bytes, i: nat)
    requires i < |Under(m, prefix)|
    ensures
      var s := Under(m, prefix);
      && s[i] in m && HasPrefix(s[i], prefix)
      && Sorted(UnderFrom(m, prefix, s[i])) == s[i..]
  {
    hide Sorted;
    var s := Under(m, prefix);
    assert s[i] in s;
    forall k ensures k in s[i..] <==> k in UnderFrom(m, prefix, s[i]) {
      if k in UnderFrom(m, prefix, s[i]) {
        assert k in s;
        var j :| 0 <= j < |s| && s[j] == k;
        if j < i {
          assert Lt(s[j], s[i]);
          LeAntisym(s[j], s[i]);
        }
        assert s[i..][j - i] == k;
      }
      if k in s[i..] {
        var j :| i <= j < |s| && s[j] == k;
        assert k in s;
        LeRefl(k);
        assert i < j ==> Lt(s[i], s[j]);
      }
    }
    SortedUnique(s[i..], UnderFrom(m, prefix, s[i]));
  }

  lemma ToPosition(m: Rows, prefix: Bytes, i: nat)
    requires i < |Under(m, prefix)| && Unextended(m, Under(m, prefix)[i])
    ensures
      var s := Under(m, prefix);
      && HasPrefix(s[i], prefix)
      && Sorted(UnderTo(m, prefix, s[i])) == s[..i + 1]
  {
    hide Sorted;
    var s := Under(m, prefix);
    assert s[i] in s;
    forall k ensures k in s[..i + 1] <==> k in UnderTo(m, prefix, s[i]) {
      LeRefl(s[i]);
      if k in UnderTo(m, prefix, s[i]) {
        assert Le(k, s[i]);
        assert k in s;
        var j :| 0 <= j < |s| && s[j] == k;
        if j > i {
          assert Lt(s[i], s[j]);
          LeAntisym(s[j], s[i]);
        }
        assert s[..i + 1][j] == k;
      }
      if k in s[..i + 1] {
        var j :| 0 <= j <= i && s[j] == k;
        assert k in s;
        assert j < i ==> Lt(s[j], s[i]);
      }
    }
    SortedUnique(s[..i + 1], UnderTo(m, prefix, s[i]));
  }

  lemma ForwardPageAt(m: Rows, prefix: Bytes, i: nat, limit: int)
    requires i < |Under(m, prefix)| && Unextended(m, Under(m, prefix)[i])
    ensures
      var s := Under(m, prefix);
      var p := PageOf(m, prefix, Some(Token(s[i], false)), limit);
      && p.keys == Take(s[i..], limit) && p.next == TokenAt(s[i..], limit, false)
      && p.prev == if i == 0 then None else Some(Token(s[i - 1], true))
  {
    hide Sorted, Visited, Scan, Take;
    var s := Under(m, prefix);
    FromPosition(m, prefix, i);
    ForwardVisits(m, prefix, s[i]);
    ToPosition(m, prefix, i);
    ReverseVisits(m, prefix, s[i]);
    NeighbourIsFirstOther(Scan(m, None, Some(s[i]), true), prefix, s[i], true);
    var run := Reverse(s[..i + 1]);
    if i > 0 { assert Lt(s[i - 1], s[i]); }
    FirstOtherDistinct(run, s[i], true);
  }

  lemma ReversePageAt(m: Rows, prefix: Bytes, i: nat, limit: int)
    requires i < |Under(m, prefix)| && Unextended(m, Under(m, prefix)[i])
    ensures
      var s := Under(m, prefix);
      var p := PageOf(m, prefix, Some(Token(s[i], true)), limit);
      && p.keys == Take(Reverse(s[..i + 1]), limit) && p.prev == TokenAt(Reverse(s[..i + 1]), limit, true)
      && p.next == if i + 1 == |s| then None else Some(Token(s[i + 1], false))
  {
    hide Sorted, Visited, Scan, Take, Under;
    ToPosition(m, prefix, i);
    ReverseVisits(m, prefix, Under(m, prefix)[i]);
    ReverseNext(m, prefix, i, limit);
  }

  /** The next token of a reverse page is the key after its token, extended or not. */
  lemma ReverseNext(m: Rows, prefix: Bytes, i: nat, limit: int)
    requires i < |Under(m, prefix)|
    ensures
      var s := Under(m, prefix);
      PageOf(m, prefix, Some(Token(s[i], true)), limit).next ==
        if i + 1 == |s| then None else Some(Token(s[i + 1], false))
  {
    hide Sorted, Visited, Scan, Take;
    var s := Under(m, prefix);
    FromPosition(m, prefix, i);
    ForwardRun(m, prefix, s[i]);
    NeighbourIsFirstOther(Scan(m, Some(s[i]), None, false), prefix, s[i], false);
    if i + 1 < |s| { assert Lt(s[i], s[i + 1]); }
    FirstOtherDistinct(s[i..], s[i], false);
  }

  lemma ForwardRun(m: Rows, prefix: Bytes, at: Bytes)
    requires HasPrefix(at, prefix)
    ensures Leading(Scan(m, Some(at), None, false), prefix) == Sorted(UnderFrom(m, prefix, at))
  {
    ForwardVisits(m, prefix, at);
  }

  // ---- Previous and next undo each other ----------------------------------

  lemma PositionOf(m: Rows, prefix: Bytes, at: Bytes) returns (i: nat)
    requires at in m && HasPrefix(at, prefix)
    ensures i < |Under(m, prefix)| && Under(m, prefix)[i] == at
  {
    assert at in Under(m, prefix);
    i :| 0 <= i < |Under(m, prefix)| && Under(m, prefix)[i] == at;
  }

  /** Going back and then on again returns to the same forward token, exactly when no key extends it. */
  lemma PreviousThenNext(m: Rows, prefix: Bytes, at: Bytes, limit: int)
    requires at in m && HasPrefix(at, prefix)
    ensures
      var p := PageOf(m, prefix, Some(Token(at, false)), limit);
      (p.prev.Some? ==> PageOf(m, prefix, p.prev, limit).next == Some(Token(at, false))) <==> Unextended(m, at)
  {
    hide PageOf, Under, Unextended, HasPrefix, Le;
    var i := PositionOf(m, prefix, at);
    if Unextended(m, at) {
      ForwardPageAt(m, prefix, i, limit);
      if i > 0 { ReverseNext(m, prefix, i - 1, limit); }
    } else {
      PreviousOfExtended(m, prefix, at, limit);
      var top := PageOf(m, prefix, Some(Token(at, false)), limit).prev.value.key;
      var j := PositionOf(m, prefix, top);
      ReverseNext(m, prefix, j, limit);
      if j + 1 < |Under(m, prefix)| { LtUnder(m, prefix, at, j); }
    }
  }

  /** A key below the j-th is not the one after it. */
  lemma LtUnder(m: Rows, prefix: Bytes, at: Bytes, j: nat)
    requires j + 1 < |Under(m, prefix)| && Lt(at, Under(m, prefix)[j])
    ensures at != Under(m, prefix)[j + 1]
  {
    hide Sorted, Le;
    var s := Under(m, prefix);
    assert Lt(s[j], s[j + 1]);
    if at == s[j + 1] { LeAntisym(at, s[j]); }
  }

  /**
   Going on and then back shows the same keys in descending order, exactly when no key extends the next
   token's key or the last key shown.
   */
  lemma NextThenPrevious(m: Rows, prefix: Bytes, token: Option<Token>, limit: nat)
    requires ForwardToken(token, prefix) && limit >= 1
    ensures
      var p := PageOf(m, prefix, token, limit);
      p.next.Some? ==>
        var q := PageOf(m, prefix, p.next, limit);
        && |p.keys| == limit && q.prev.Some?
        && (PageOf(m, prefix, q.prev, limit).keys == Reverse(p.keys) <==>
          Unextended(m, p.next.value.key) && Unextended(m, p.keys[limit - 1]))
  {
    hide PageOf, Sorted, Under, StartSet;
    ForwardPage(m, prefix, token, limit);
    var ks := Sorted(StartSet(m, prefix, token));
    if limit < |ks| {
      var i := StartPosition(m, prefix, token);
      BackPageAt(m, prefix, i, limit);
      assert ks[..limit] == Under(m, prefix)[i..i + limit];
    }
  }

  /** Where in the sorted keys a forward request starts. */
  lemma StartPosition(m: Rows, prefix: Bytes, token: Option<Token>) returns (i: nat)
    requires ForwardToken(token, prefix) && Sorted(StartSet(m, prefix, token)) != []
    ensures i < |Under(m, prefix)| && Sorted(StartSet(m, prefix, token)) == Under(m, prefix)[i..]
  {
    hide Sorted;
    var ks := Sorted(StartSet(m, prefix, token));
    assert ks[0] in ks;
    i := PositionOf(m, prefix, ks[0]);
    FromPosition(m, prefix, i);
    SuffixOf(m, prefix, token);
  }

  /** The page after the keys from the i-th on: where its previous token leads. */
  lemma BackPageAt(m: Rows, prefix: Bytes, i: nat, limit: nat)
    requires limit >= 1 && i + limit < |Under(m, prefix)|
    ensures
      var s := Under(m, prefix);
      var q := PageOf(m, prefix, Some(Token(s[i + limit], false)), limit);
      && q.prev.Some?
      && (PageOf(m, prefix, q.prev, limit).keys == Reverse(s[i..i + limit]) <==>
        Unextended(m, s[i + limit]) && Unextended(m, s[i + limit - 1]))
  {
    hide PageOf, Under, Unextended, HasPrefix, Le;
    var s := Under(m, prefix);
    var last, next := s[i + limit - 1], s[i + limit];
    InTable(m, prefix, i + limit);
    InTable(m, prefix, i + limit - 1);
    assert Reverse(s[i..i + limit])[0] == last;
    UnderAscends(m, prefix, i + limit - 1);
    if !Unextended(m, next) {
      PreviousOfExtended(m, prefix, next, limit);
      var top := PageOf(m, prefix, Some(Token(next, false)), limit).prev.value.key;
      FirstOfReversePage(m, prefix, top, limit);
      LtLe(last, next, top, PageOf(m, prefix, Some(Token(top, true)), limit).keys[0]);
    } else {
      ForwardPageAt(m, prefix, i + limit, limit);
      if Unextended(m, last) {
        ReversePageAt(m, prefix, i + limit - 1, limit);
        assert Take(Reverse(s[..i + limit]), limit) == Reverse(s[i..i + limit]);
      } else {
        FirstOfReversePage(m, prefix, last, limit);
      }
    }
  }

  lemma LtLe(a: Bytes, b: Bytes, c: Bytes, d: Bytes)
    requires Lt(a, b) && Lt(b, c) && Le(c, d)
    ensures a != d
  {
    hide Le;
    LeTrans(b, c, d);
    if a == d { LeAntisym(a, b); }
  }

  lemma UnderAscends(m: Rows, prefix: Bytes, i: nat)
    requires i + 1 < |Under(m, prefix)|
    ensures Lt(Under(m, prefix)[i], Under(m, prefix)[i + 1])
  {}

  /** A reverse page starts at its token's key, or above it exactly when that key is extended. */
  lemma FirstOfReversePage(m: Rows, prefix: Bytes, at: Bytes, limit: nat)
    requires at in m && HasPrefix(at, prefix) && limit >= 1
    ensures
      var p := PageOf(m, prefix, Some(Token(at, true)), limit);
      p.keys != [] && Le(at, p.keys[0]) && (p.keys[0] == at <==> Unextended(m, at))
  {
    hide Visited, Le, HasPrefix, Unextended, Neighbour;
    ReverseTop(m, prefix, at);
    LeRefl(at);
  }

  /** What a forward request sees is what a request from its first key sees. */
  lemma SuffixOf(m: Rows, prefix: Bytes, token: Option<Token>)
    requires ForwardToken(token, prefix) && StartSet(m, prefix, token) != {}
    ensures
      var ks := Sorted(StartSet(m, prefix, token));
      ks != [] && ks == Sorted(UnderFrom(m, prefix, ks[0]))
  {
    var keys := StartSet(m, prefix, token);
    var ks := Sorted(keys);
    assert ks[0] in ks;
    forall k ensures k in keys <==> k in UnderFrom(m, prefix, ks[0]) {
      if k in keys {
        assert k in ks;
        var j :| 0 <= j < |ks| && ks[j] == k;
        LeRefl(k);
        assert j > 0 ==> Lt(ks[0], ks[j]);
      }
      if k in UnderFrom(m, prefix, ks[0]) && token.Some? { LeTrans(token.value.key, ks[0], k); }
    }
    assert keys == UnderFrom(m, prefix, ks[0]);
  }

  // ---- Walks over an unchanged table --------------------------------------

  /** ceil(n / limit), and one request for an empty list. */
  function Requests(n: nat, limit: nat): (r: nat)
    requires limit >= 1
  {
    if n <= limit then 1 else 1 + Requests(n - limit, limit)
  }

  lemma {:induction false} RequestsIsCeiling(n: nat, limit: nat)
    requires limit >= 1 && n >= 1
    ensures (Requests(n, limit) - 1) * limit < n <= Requests(n, limit) * limit
  {
    if n > limit { RequestsIsCeiling(n - limit, limit); }
  }

  predicate Unchanged(tables: seq<Rows>, m: Rows) { forall i :: 0 <= i < |tables| ==> tables[i] == m }

  /** From a key on, a forward walk returns the rest of the sorted keys, in ceil(rest / limit) requests. */
  lemma {:induction false} ForwardWalkFrom(tables: seq<Rows>, m: Rows, prefix: Bytes, token: Option<Token>, limit: nat)
    requires Unchanged(tables, m) && ForwardToken(token, prefix) && limit >= 1
    requires |tables| >= Requests(|StartSet(m, prefix, token)|, limit)
    ensures
      var ps := Walk(tables, prefix, token, limit, false);
      && Ended(ps, false)
      && |ps| == Requests(|StartSet(m, prefix, token)|, limit)
      && KeysOf(ps) == Sorted(StartSet(m, prefix, token))
    decreases |tables|
  {
    hide PageOf, Sorted, StartSet, Walk, KeysOf, Ended, ForwardToken, Under, Unchanged, Requests, Take, TokenAt,
      Visited;
    FewerTables(tables, m, |StartSet(m, prefix, token)|, limit);
    WalkStep(tables, prefix, token, limit, false);
    ForwardPage(m, prefix, token, limit);
    var ks, next := Sorted(StartSet(m, prefix, token)), PageOf(m, prefix, token, limit).next;
    FullOrLast(ks, limit);
    if next.Some? {
      NextStart(m, prefix, token, limit);
      ForwardWalkFrom(tables[1..], m, prefix, next, limit);
      assert ks == ks[..limit] + ks[limit..];
    }
  }

  lemma FewerTables(tables: seq<Rows>, m: Rows, n: nat, limit: nat)
    requires Unchanged(tables, m) && limit >= 1 && |tables| >= Requests(n, limit)
    ensures tables != [] && tables[0] == m && Unchanged(tables[1..], m)
    ensures n > limit ==> |tables[1..]| >= Requests(n - limit, limit)
    ensures Requests(n, limit) == if n <= limit then 1 else 1 + Requests(n - limit, limit)
  {}

  lemma FullOrLast(ks: seq<Bytes>, limit: nat)
    ensures if |ks| <= limit then Take(ks, limit) == ks && TokenAt(ks, limit, false).None?
      else Take(ks, limit) == ks[..limit] && TokenAt(ks, limit, false) == Some(Token(ks[limit], false))
  {}

  lemma NextStart(m: Rows, prefix: Bytes, token: Option<Token>, limit: nat)
    requires ForwardToken(token, prefix) && limit < |StartSet(m, prefix, token)|
    ensures
      var ks := Sorted(StartSet(m, prefix, token));
      var next := Some(Token(ks[limit], false));
      && ForwardToken(next, prefix)
      && Sorted(StartSet(m, prefix, next)) == ks[limit..]
      && |StartSet(m, prefix, next)| == |StartSet(m, prefix, token)| - limit
  {
    hide Sorted, Under;
    var ks := Sorted(StartSet(m, prefix, token));
    var i := StartPosition(m, prefix, token);
    FromPosition(m, prefix, i + limit);
    var next := Some(Token(ks[limit], false));
    assert StartSet(m, prefix, next) == UnderFrom(m, prefix, ks[limit]);
  }

  /** The forward walk of an unchanged table is the sorted list of keys under the prefix. */
  lemma ForwardWalkOfTable(tables: seq<Rows>, m: Rows, prefix: Bytes, limit: nat)
    requires Unchanged(tables, m) && limit >= 1
    requires |tables| >= Requests(|Under(m, prefix)|, limit)
    ensures
      var ps := Walk(tables, prefix, None, limit, false);
      && Ended(ps, false)
      && |ps| == Requests(|Under(m, prefix)|, limit)
      && KeysOf(ps) == Under(m, prefix)
  {
    assert StartSet(m, prefix, None) == set k | k in m && HasPrefix(k, prefix);
    ForwardWalkFrom(tables, m, prefix, None, limit);
  }

  /** k is one or more steps of `limit` below i. */
  predicate Later(k: nat, i: nat, limit: nat)
    requires limit >= 1
    decreases i
  {
    i >= limit && (k == i - limit || Later(k, i - limit, limit))
  }

  predicate StepsDown(k: nat, i: nat, j: nat, limit: nat) { k + j * limit == i }

  lemma {:induction false} LaterMeaning(k: nat, i: nat, limit: nat)
    requires limit >= 1
    ensures Later(k, i, limit) <==> k < i && exists j: nat :: StepsDown(k, i, j, limit)
    decreases i
  {
    if i >= limit && k <= i - limit {
      var low := i - limit;
      LaterMeaning(k, low, limit);
      if k == low {
        assert StepsDown(k, i, 1, limit);
      } else {
        if j: nat :| StepsDown(k, low, j, limit) { assert StepsDown(k, i, j + 1, limit); }
        if j: nat :| StepsDown(k, i, j, limit) {
          OneStepUp(k, i, j, limit);
          assert StepsDown(k, low, j - 1, limit);
        }
      }
    } else if k < i {
      NotLater(k, i, limit);
      forall j: nat ensures !StepsDown(k, i, j, limit) { if j >= 1 { assert j * limit >= limit; } }
    } else {
      NotLater(k, i, limit);
    }
  }

  lemma OneStepUp(k: nat, i: nat, j: nat, limit: nat)
    requires StepsDown(k, i, j, limit) && k < i && limit <= i
    ensures j >= 1 && StepsDown(k, i - limit, j - 1, limit)
  {
    assert (j - 1) * limit == j * limit - limit;
  }

  lemma {:induction false} NotLater(k: nat, i: nat, limit: nat)
    requires limit >= 1 && k + limit > i
    ensures !Later(k, i, limit)
    decreases i
  {
    if i >= limit { NotLater(k, i - limit, limit); }
  }

  /** No key extends one of the tokens a reverse walk from the i-th key comes to: every limit-th key below it. */
  predicate TokensUnextended(m: Rows, s: seq<Bytes>, i: nat, limit: nat)
    requires limit >= 1 && i < |s|
  {
    forall k :: 0 <= k < i && Later(k, i, limit) ==> Unextended(m, s[k])
  }

  lemma TokensStep(m: Rows, s: seq<Bytes>, i: nat, limit: nat)
    requires limit >= 1 && i < |s|
    ensures TokensUnextended(m, s, i, limit) <==>
      (i >= limit ==> Unextended(m, s[i - limit]) && TokensUnextended(m, s, i - limit, limit))
  {
    hide Unextended;
    if i >= limit {
      assert Later(i - limit, i, limit);
      forall k | 0 <= k < i && Later(k, i, limit)
        ensures k == i - limit || (k < i - limit && Later(k, i - limit, limit))
      {
        if k >= i - limit { NotLater(k, i - limit, limit); }
      }
      forall k | 0 <= k < i - limit && Later(k, i - limit, limit) ensures Later(k, i, limit) {}
    }
  }

  /**
   From the i-th key down, a reverse walk ends and returns the first i + 1 keys in descending order exactly
   when no key extends one of its tokens, and then it takes ceil((i + 1) / limit) requests.
   */
  lemma {:induction false} ReverseWalkFrom(tables: seq<Rows>, m: Rows, prefix: Bytes, i: nat, limit: nat)
    requires Unchanged(tables, m) && limit >= 1
    requires i < |Under(m, prefix)| && Unextended(m, Under(m, prefix)[i]) && |tables| >= Requests(i + 1, limit)
    ensures
      var s := Under(m, prefix);
      var ps := Walk(tables, prefix, Some(Token(s[i], true)), limit, true);
      && (Ended(ps, true) && KeysOf(ps) == Reverse(s[..i + 1]) <==> TokensUnextended(m, s, i, limit))
      && (TokensUnextended(m, s, i, limit) ==> |ps| == Requests(i + 1, limit))
    decreases i
  {
    hide PageOf, Under, Walk, KeysOf, Ended, Unextended, TokensUnextended;
    var s := Under(m, prefix);
    var token := Some(Token(s[i], true));
    WalkStep(tables, prefix, token, limit, true);
    ReversePageAt(m, prefix, i, limit);
    TokensStep(m, s, i, limit);
    if i >= limit {
      var j := i - limit;
      DownSplit(s, i, limit);
      var rest := Walk(tables[1..], prefix, Some(Token(s[j], true)), limit, true);
      if Unextended(m, s[j]) {
        ReverseWalkFrom(tables[1..], m, prefix, j, limit);
        SameTail(Reverse(s[..i + 1])[..limit], KeysOf(rest), Reverse(s[..j + 1]));
      } else {
        InTable(m, prefix, j);
        FirstOfReversePage(m, prefix, s[j], limit);
        WalkStep(tables[1..], prefix, Some(Token(s[j], true)), limit, true);
        SameTail(Reverse(s[..i + 1])[..limit], KeysOf(rest), Reverse(s[..j + 1]));
        assert KeysOf(rest)[0] == PageOf(m, prefix, Some(Token(s[j], true)), limit).keys[0];
      }
    }
  }

  lemma DownSplit(s: seq<Bytes>, i: nat, limit: nat)
    requires limit <= i < |s|
    ensures
      var down := Reverse(s[..i + 1]);
      && down[limit] == s[i - limit] && Reverse(s[..i - limit + 1])[0] == s[i - limit]
      && down == down[..limit] + Reverse(s[..i - limit + 1])
  {}

  lemma SameTail(a: seq<Bytes>, b: seq<Bytes>, c: seq<Bytes>)
    ensures a + b == a + c <==> b == c
  {
    if a + b == a + c { assert (a + b)[|a|..] == b && (a + c)[|a|..] == c; }
  }

  lemma InTable(m: Rows, prefix: Bytes, i: nat)
    requires i < |Under(m, prefix)|
    ensures Under(m, prefix)[i] in m && HasPrefix(Under(m, prefix)[i], prefix)
  {
    assert Under(m, prefix)[i] in Under(m, prefix);
  }

  lemma LastUnextended(m: Rows, prefix: Bytes)
    requires Under(m, prefix) != []
    ensures Unextended(m, Under(m, prefix)[|Under(m, prefix)| - 1])
  {
    hide Sorted, Le;
    var s := Under(m, prefix);
    var last := s[|s| - 1];
    assert last in s;
    forall k | k in m && HasPrefix(k, last) ensures k == last {
      assert prefix == last[..|prefix|] == k[..|prefix|];
      LeLast(s, k);
      PrefixLe(k, last);
      LeAntisym(k, last);
    }
  }

  /**
   On an unchanged table the reverse walk from the last key ends with the reversal of the sorted list exactly
   when no key extends one of its tokens.
   */
  lemma ReverseWalkOfTable(tables: seq<Rows>, m: Rows, prefix: Bytes, limit: nat)
    requires Unchanged(tables, m) && limit >= 1 && Under(m, prefix) != []
    requires |tables| >= Requests(|Under(m, prefix)|, limit)
    ensures
      var s := Under(m, prefix);
      var ps := Walk(tables, prefix, Some(Token(s[|s| - 1], true)), limit, true);
      && (Ended(ps, true) && KeysOf(ps) == Reverse(s) <==> TokensUnextended(m, s, |s| - 1, limit))
      && (TokensUnextended(m, s, |s| - 1, limit) ==> |ps| == Requests(|s|, limit))
  {
    hide Walk, KeysOf, Ended, Under, TokensUnextended;
    var s := Under(m, prefix);
    LastUnextended(m, prefix);
    ReverseWalkFrom(tables, m, prefix, |s| - 1, limit);
    assert s[..|s|] == s;
  }

  predicate Repeats(ks: seq<Bytes>) { exists i, j :: 0 <= i < j < |ks| && ks[i] == ks[j] }

  /** Down to its first extended token a reverse walk returns all keys, and then one above that token. */
  ghost predicate TurnsBack(s: seq<Bytes>, i: nat, j: nat, ks: seq<Bytes>)
    requires i < |s|
  {
    && j < i && |ks| > i - j
    && ks[..i - j] == Reverse(s[j + 1..i + 1])
    && ks[i - j] in s && Lt(s[j], ks[i - j])
  }

  lemma TurnsBackHere(s: seq<Bytes>, i: nat, limit: nat, page: seq<Bytes>, rest: seq<Bytes>)
    requires 1 <= limit <= i < |s| && page == Reverse(s[..i + 1])[..limit]
    requires rest != [] && rest[0] in s && Lt(s[i - limit], rest[0])
    ensures TurnsBack(s, i, i - limit, page + rest)
  {
    assert page == Reverse(s[i - limit + 1..i + 1]);
    assert (page + rest)[..limit] == page;
  }

  lemma TurnsBackLater(s: seq<Bytes>, i: nat, limit: nat, page: seq<Bytes>, rest: seq<Bytes>, j: nat)
    requires 1 <= limit <= i < |s| && page == Reverse(s[..i + 1])[..limit]
    requires TurnsBack(s, i - limit, j, rest)
    ensures TurnsBack(s, i, j, page + rest)
  {
    var low := i - limit;
    assert page == Reverse(s[low + 1..i + 1]);
    assert (page + rest)[..i - j] == page + rest[..low - j];
    assert page + Reverse(s[j + 1..low + 1]) == Reverse(s[j + 1..i + 1]);
  }

  lemma {:induction false} ExtendedWalkTurnsBack(tables: seq<Rows>, m: Rows, prefix: Bytes, i: nat, limit: nat)
    returns (j: nat)
    requires Unchanged(tables, m) && limit >= 1
    requires i < |Under(m, prefix)| && Unextended(m, Under(m, prefix)[i]) && |tables| >= Requests(i + 1, limit)
    requires !TokensUnextended(m, Under(m, prefix), i, limit)
    ensures TurnsBack(Under(m, prefix), i, j,
                      KeysOf(Walk(tables, prefix, Some(Token(Under(m, prefix)[i], true)), limit, true)))
    decreases i
  {
    hide PageOf, Under, Walk, KeysOf, Ended, Unextended, TokensUnextended, TurnsBack, Lt, HasPrefix;
    var s := Under(m, prefix);
    var token := Some(Token(s[i], true));
    WalkStep(tables, prefix, token, limit, true);
    ReversePageAt(m, prefix, i, limit);
    TokensStep(m, s, i, limit);
    var low := i - limit;
    DownSplit(s, i, limit);
    var page, next := Reverse(s[..i + 1])[..limit], Some(Token(s[low], true));
    var rest := Walk(tables[1..], prefix, next, limit, true);
    if Unextended(m, s[low]) {
      j := ExtendedWalkTurnsBack(tables[1..], m, prefix, low, limit);
      TurnsBackLater(s, i, limit, page, KeysOf(rest), j);
    } else {
      j := low;
      InTable(m, prefix, low);
      AboveExtended(m, prefix, s[low], limit);
      WalkStep(tables[1..], prefix, next, limit, true);
      assert KeysOf(rest)[0] == PageOf(m, prefix, next, limit).keys[0];
      TurnsBackHere(s, i, limit, page, KeysOf(rest));
    }
  }

  lemma AboveExtended(m: Rows, prefix: Bytes, at: Bytes, limit: nat)
    requires at in m && HasPrefix(at, prefix) && !Unextended(m, at) && limit >= 1
    ensures
      var p := PageOf(m, prefix, Some(Token(at, true)), limit);
      p.keys != [] && p.keys[0] in Under(m, prefix) && Lt(at, p.keys[0])
  {
    hide Visited, Le, HasPrefix, Unextended, Neighbour;
    ReverseTop(m, prefix, at);
  }

  lemma TurningBackRepeats(m: Rows, prefix: Bytes, j: nat, ks: seq<Bytes>)
    requires Under(m, prefix) != [] && TurnsBack(Under(m, prefix), |Under(m, prefix)| - 1, j, ks)
    ensures Repeats(ks)
  {
    hide Sorted, Le;
    var s := Under(m, prefix);
    var i := |s| - 1;
    var e :| 0 <= e < |s| && s[e] == ks[i - j];
    if e < j { assert Lt(s[e], s[j]); LeAntisym(s[e], s[j]); }
    assert ks[..i - j][i - e] == s[e];
    assert ks[i - e] == ks[i - j];
  }

  /** When a key extends one of its tokens, the reverse walk from the last key returns a key twice. */
  lemma ExtendedWalkRepeats(tables: seq<Rows>, m: Rows, prefix: Bytes, limit: nat)
    requires Unchanged(tables, m) && limit >= 1 && Under(m, prefix) != []
    requires |tables| >= Requests(|Under(m, prefix)|, limit)
    requires !TokensUnextended(m, Under(m, prefix), |Under(m, prefix)| - 1, limit)
    ensures
      var s := Under(m, prefix);
      Repeats(KeysOf(Walk(tables, prefix, Some(Token(s[|s| - 1], true)), limit, true)))
  {
    hide Walk, KeysOf, Under, TokensUnextended, TurnsBack;
    var s := Under(m, prefix);
    LastUnextended(m, prefix);
    var j := ExtendedWalkTurnsBack(tables, m, prefix, |s| - 1, limit);
    TurningBackRepeats(m, prefix, j, KeysOf(Walk(tables, prefix, Some(Token(s[|s| - 1], true)), limit, true)));
  }

  /** It may not end at all: one key that extends another, and every page leads to itself. */
  lemma {:induction false} ReverseWalkLoops(tables: seq<Rows>, token: Token)
    requires Unchanged(tables, EXTENDED) && (token == Token(A, true) || token == Token(AB, true))
    ensures var ps := Walk(tables, [], Some(token), 1, true); |ps| == |tables| && !Ended(ps, true)
    decreases |tables|
  {
    hide Walk, KeysOf, Ended, Visited, Neighbour;
    if tables == [] {
      EmptyBackWalk(Some(token));
    } else {
      WalkStep(tables, [], Some(token), 1, true);
      ExtendedVisited();
      ReverseWalkLoops(tables[1..], Token(A, true));
    }
  }

  lemma EmptyBackWalk(token: Option<Token>)
    ensures Walk([], [], token, 1, true) == [] && !Ended([], true)
  {}
}
