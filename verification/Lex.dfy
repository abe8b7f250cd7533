/** Lexicographic order on keys, and sorted enumerations of key sets. */
module Lex {
  import opened Bytes

  // ---- The order ----------------------------------------------------------

  predicate Le(a: Bytes, b: Bytes) {
    a == [] || (b != [] && (a[0] < b[0] || (a[0] == b[0] && Le(a[1..], b[1..]))))
  }

  predicate Lt(a: Bytes, b: Bytes) { Le(a, b) && a != b }

  predicate HasPrefix(key: Bytes, prefix: Bytes) { prefix <= key }

  /** Neither id is a prefix of the other. */
  predicate Incomparable(a: Bytes, b: Bytes) { !HasPrefix(a, b) && !HasPrefix(b, a) }

  lemma {:induction false} LeRefl(a: Bytes)
    ensures Le(a, a)
  {
    if a != [] { LeRefl(a[1..]); }
  }

  predicate DifferAt(a: Bytes, b: Bytes, i: int) { 0 <= i < |a| && i < |b| && a[..i] == b[..i] && a[i] < b[i] }

  /** The first byte that differs decides, and a proper prefix comes first. */
  lemma {:induction false} LtMeaning(a: Bytes, b: Bytes)
    ensures Lt(a, b) <==> a < b || exists i :: DifferAt(a, b, i)
  {
    if a != [] && b != [] {
      forall i | i > 0 && DifferAt(a, b, i) ensures a[0] == b[0] { assert a[..i][0] == b[..i][0]; }
      if a[0] == b[0] {
        LtMeaning(a[1..], b[1..]);
        assert a == [a[0]] + a[1..] && b == [b[0]] + b[1..];
        forall i | i > 0 ensures DifferAt(a, b, i) <==> DifferAt(a[1..], b[1..], i - 1) {
          if i < |a| && i < |b| { assert a[..i] == [a[0]] + a[1..][..i - 1] && b[..i] == [b[0]] + b[1..][..i - 1]; }
        }
        if i :| DifferAt(a[1..], b[1..], i) { assert DifferAt(a, b, i + 1); }
      } else if a[0] < b[0] {
        assert DifferAt(a, b, 0);
      }
    }
  }

  lemma {:induction false} LeAntisym(a: Bytes, b: Bytes)
    requires Le(a, b) && Le(b, a)
    ensures a == b
  {
    if a != [] {
      LeAntisym(a[1..], b[1..]);
      assert a == [a[0]] + a[1..] && b == [b[0]] + b[1..];
    }
  }

  lemma {:induction false} LeTrans(a: Bytes, b: Bytes, c: Bytes)
    requires Le(a, b) && Le(b, c)
    ensures Le(a, c)
  {
    if a != [] && a[0] == b[0] == c[0] { LeTrans(a[1..], b[1..], c[1..]); }
  }

  lemma {:induction false} LeTotal(a: Bytes, b: Bytes)
    ensures Le(a, b) || Le(b, a)
  {
    if a != [] && b != [] && a[0] == b[0] { LeTotal(a[1..], b[1..]); }
  }

  lemma {:induction false} PrefixLe(key: Bytes, prefix: Bytes)
    requires HasPrefix(key, prefix)
    ensures Le(prefix, key)
  {
    if prefix != [] { PrefixLe(key[1..], prefix[1..]); }
  }

  /** Keys that share a prefix are contiguous: whatever lies between the prefix and such a key has it too. */
  lemma {:induction false} PrefixContiguous(prefix: Bytes, key: Bytes, last: Bytes)
    requires HasPrefix(last, prefix) && Le(prefix, key) && Le(key, last)
    ensures HasPrefix(key, prefix)
  {
    if prefix != [] {
      PrefixContiguous(prefix[1..], key[1..], last[1..]);
    }
  }

  /** A common prefix does not change the order. */
  lemma {:induction false} LeUnderPrefix(t: Bytes, a: Bytes, b: Bytes)
    ensures Le(t + a, t + b) <==> Le(a, b)
  {
    if t == [] {
      assert t + a == a && t + b == b;
    } else {
      LeUnderPrefix(t[1..], a, b);
      assert (t + a)[1..] == t[1..] + a && (t + b)[1..] == t[1..] + b;
    }
  }

  lemma PrefixUnderPrefix(t: Bytes, key: Bytes, prefix: Bytes)
    ensures HasPrefix(t + key, t + prefix) <==> HasPrefix(key, prefix)
  {
    if HasPrefix(t + key, t + prefix) {
      forall i | 0 <= i < |prefix| ensures key[i] == prefix[i] {
        assert (t + key)[|t| + i] == (t + prefix)[|t| + i];
      }
    }
  }

  // ---- Sorted enumerations ------------------------------------------------

  predicate IsLeast(m: Bytes, s: set<Bytes>) { m in s && forall k :: k in s ==> Le(m, k) }

  lemma LeastExists(s: set<Bytes>) returns (m: Bytes)
    requires s != {}
    ensures IsLeast(m, s)
  {
    m :| m in s;
    LeRefl(m);
    if s != {m} {
      var m' := LeastExists(s - {m});
      LeTotal(m, m');
      if Le(m, m') {
        forall k | k in s - {m} ensures Le(m, k) { LeTrans(m, m', k); }
      } else {
        m := m';
      }
    }
  }

  lemma LeastUnique(m: Bytes, m': Bytes, s: set<Bytes>)
    requires IsLeast(m, s) && IsLeast(m', s)
    ensures m == m'
  {
    LeAntisym(m, m');
  }

  function Least(s: set<Bytes>): (m: Bytes)
    requires s != {}
    ensures IsLeast(m, s)
  {
    assert exists m :: IsLeast(m, s) by { var m := LeastExists(s); }
    assert forall m, m' | IsLeast(m, s) && IsLeast(m', s) :: m == m' by {
      forall m, m' | IsLeast(m, s) && IsLeast(m', s) ensures m == m' { LeastUnique(m, m', s); }
    }
    var m :| m in s && IsLeast(m, s);
    m
  }

  predicate Ascending(ks: seq<Bytes>) { forall i, j :: 0 <= i < j < |ks| ==> Lt(ks[i], ks[j]) }

  /** The keys of a set in ascending order. */
  function Sorted(s: set<Bytes>): (ks: seq<Bytes>)
    ensures Ascending(ks)
    ensures forall k :: k in ks <==> k in s
    ensures |ks| == |s|
  {
    if s == {} then [] else [Least(s)] + Sorted(s - {Least(s)})
  }

  /** An ascending enumeration of a set is the sorted one. */
  lemma {:induction false} SortedUnique(ks: seq<Bytes>, s: set<Bytes>)
    requires Ascending(ks) && forall k :: k in ks <==> k in s
    ensures ks == Sorted(s)
  {
    if ks == [] {
      assert s == {};
    } else {
      assert ks[0] in s;
      var m := Least(s);
      assert m in ks;
      var i :| 0 <= i < |ks| && ks[i] == m;
      if i > 0 {
        assert Lt(ks[0], ks[i]);
        LeAntisym(ks[0], m);
      }
      assert ks == [ks[0]] + ks[1..];
      forall k ensures k in ks[1..] <==> k in s - {m} {
        if k in ks[1..] {
          var j :| 1 <= j < |ks| && ks[j] == k;
          assert Lt(ks[0], ks[j]);
        }
      }
      SortedUnique(ks[1..], s - {m});
    }
  }

  function Reverse(ks: seq<Bytes>): (r: seq<Bytes>)
    ensures |r| == |ks|
    ensures forall i :: 0 <= i < |ks| ==> r[i] == ks[|ks| - 1 - i]
  {
    seq(|ks|, i requires 0 <= i < |ks| => ks[|ks| - 1 - i])
  }

  lemma ReverseMembers(ks: seq<Bytes>, k: Bytes)
    ensures k in Reverse(ks) <==> k in ks
  {
    if k in ks {
      var i :| 0 <= i < |ks| && ks[i] == k;
      assert Reverse(ks)[|ks| - 1 - i] == k;
    }
    if k in Reverse(ks) {
      var i :| 0 <= i < |ks| && Reverse(ks)[i] == k;
      assert ks[|ks| - 1 - i] == k;
    }
  }
}
