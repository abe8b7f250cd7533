/**
 The shared store as its users see it: an ordered map with prefix and range scans.

 A range's upper bound is inclusive and covers every key that extends it, so a table id used as the
 upper bound means the end of that table. A scan is the sequence of keys it visits in order; a visitor
 that stops early looks at a prefix of that sequence.
 */
module Store {
  import opened Bytes
  import opened Lex

  type Rows = map<Bytes, Bytes>

  predicate InRange(key: Bytes, lower: Bytes, upper: Bytes) {
    Le(lower, key) && (Le(key, upper) || HasPrefix(key, upper))
  }

  function PrefixKeys(rows: Rows, prefix: Bytes): (ks: seq<Bytes>) {
    Sorted(set k | k in rows && HasPrefix(k, prefix))
  }

  function Directed(ks: seq<Bytes>, reverse: bool): (r: seq<Bytes>) { if reverse then Reverse(ks) else ks }

  function RangeKeys(rows: Rows, lower: Bytes, upper: Bytes, reverse: bool): (ks: seq<Bytes>) {
    Directed(Sorted(set k | k in rows && InRange(k, lower, upper)), reverse)
  }

  function Find(rows: Rows, key: Bytes): (r: Option<Bytes>) { if key in rows then Some(rows[key]) else None }

  class Txn {
    var rows: Rows

    constructor (rows: Rows)
      ensures this.rows == rows
    {
      this.rows := rows;
    }

    method Get(key: Bytes) returns (r: Option<Bytes>)
      ensures r == Find(rows, key)
    {
      r := Find(rows, key);
    }

    method Set(key: Bytes, value: Bytes)
      modifies this
      ensures rows == old(rows)[key := value]
    {
      rows := rows[key := value];
    }

    method Delete(key: Bytes)
      modifies this
      ensures rows == old(rows) - {key}
    {
      rows := rows - {key};
    }

    method PrefixExists(prefix: Bytes) returns (r: bool)
      ensures r <==> exists k :: k in rows && HasPrefix(k, prefix)
    {
      var ks := PrefixKeys(rows, prefix);
      r := ks != [];
      if r { assert ks[0] in ks; }
      assert forall k :: k in rows && HasPrefix(k, prefix) ==> k in ks;
    }

    method EachPrefix(prefix: Bytes) returns (ks: seq<Bytes>)
      ensures ks == PrefixKeys(rows, prefix)
    {
      ks := PrefixKeys(rows, prefix);
    }

    method EachRange(lower: Bytes, upper: Bytes, reverse: bool) returns (ks: seq<Bytes>)
      ensures ks == RangeKeys(rows, lower, upper, reverse)
    {
      ks := RangeKeys(rows, lower, upper, reverse);
    }
  }
}
