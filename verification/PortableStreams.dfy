/** What any streams mean, in terms of positions: which record decides a row, and which frame stops a reader. */
module PortableStreams {
  import opened Bytes
  import opened Portable
  import opened PortableRestore
  import opened PortableResults

  // ---- Frames by position ---------------------------------------------------

  /** The table that the last frame before the position names; none at the start. */
  function TableAt(frames: seq<Frame>, f: nat): (name: string)
    requires f <= |frames|
  {
    if f == 0 then "" else if frames[f - 1].TableStart? then frames[f - 1].name else TableAt(frames, f - 1)
  }

  /** Of several sections with a name, the last one counts. */
  predicate LastNamed(sections: seq<Section>, i: int, name: string) {
    && 0 <= i < |sections| && sections[i].name == name
    && forall j :: i < j < |sections| ==> sections[j].name != name
  }

  /** A record is acceptable if its table has a section, which decodes it. */
  ghost predicate Acceptable(sections: seq<Section>, frames: seq<Frame>, f: nat)
    requires f < |frames|
  {
    frames[f].Record? ==> exists i ::
      LastNamed(sections, i, TableAt(frames, f)) && sections[i].schema.decodes(frames[f].key, frames[f].value)
  }

  /** The frame is a record for the section, with the key, and in the bounds. */
  predicate Brought(sections: seq<Section>, bounds: ShardRange, frames: seq<Frame>, f: int, i: int, k: Bytes) {
    && 0 <= f < |frames| && frames[f].Record? && frames[f].key == k && LastNamed(sections, i, TableAt(frames, f))
    && bounds.lower <= sections[i].schema.shardOf(k, frames[f].value) <= bounds.upper
  }

  function At(m: Entities, k: Bytes): (r: Option<Bytes>) { if k in m then Some(m[k]) else None }

  /** The value of the last such record among the first n frames. */
  function Latest(sections: seq<Section>, bounds: ShardRange, frames: seq<Frame>, n: nat, i: int, k: Bytes)
    : (r: Option<Bytes>)
    requires n <= |frames|
  {
    if n == 0 then None
    else if Brought(sections, bounds, frames, n - 1, i, k) then Some(frames[n - 1].value)
    else Latest(sections, bounds, frames, n - 1, i, k)
  }

  lemma {:induction false} LatestExactly(sections: seq<Section>, bounds: ShardRange, frames: seq<Frame>, n: nat, i: int,
                                         k: Bytes)
    requires n <= |frames|
    ensures Latest(sections, bounds, frames, n, i, k).None? <==>
      forall f :: 0 <= f < n ==> !Brought(sections, bounds, frames, f, i, k)
    ensures forall f ::
      (0 <= f < n && Brought(sections, bounds, frames, f, i, k) &&
       forall g :: f < g < n ==> !Brought(sections, bounds, frames, g, i, k)) ==>
      Latest(sections, bounds, frames, n, i, k) == Some(frames[f].value)
  {
    hide Brought;
    if n > 0 { LatestExactly(sections, bounds, frames, n - 1, i, k); }
  }

  // ---- Reading ----------------------------------------------------------------

  lemma LookupExactly(sections: seq<Section>, name: string)
    ensures
      var r := Lookup(sections, name);
      forall i :: LastNamed(sections, i, name) <==> r.Some? && r.value == i
  {
    hide Lookup;
    var r := Lookup(sections, name);
    if r.Some? { assert LastNamed(sections, r.value, name); }
    forall i | LastNamed(sections, i, name) ensures r.Some? && r.value == i { assert sections[i] in sections; }
  }

  lemma AcceptableFrame(sections: seq<Section>, bounds: ShardRange, frames: seq<Frame>, f: nat)
    requires f < |frames|
    ensures
      var r := ReadFrame(sections, bounds, TableAt(frames, f), frames[f]);
      && (r.error.None? <==> Acceptable(sections, frames, f))
      && (r.error.None? ==> r.table == TableAt(frames, f + 1))
      && (r.error.Some? ==>
        r.error.value == if exists i :: LastNamed(sections, i, TableAt(frames, f)) then BadRecord(TableAt(frames, f))
          else UnknownTable(TableAt(frames, f)))
  {
    hide Lookup, LastNamed;
    LookupExactly(sections, TableAt(frames, f));
    var r := Lookup(sections, TableAt(frames, f));
    if r.Some? { assert LastNamed(sections, r.value, TableAt(frames, f)); }
  }

  lemma FrameBrings(sections: seq<Section>, bounds: ShardRange, frames: seq<Frame>, f: nat, i: nat, k: Bytes)
    requires f < |frames| && Acceptable(sections, frames, f)
    ensures
      var r := ReadFrame(sections, bounds, TableAt(frames, f), frames[f]);
      At(Final(r.kept, i), k) == if Brought(sections, bounds, frames, f, i, k) then Some(frames[f].value) else None
  {
    hide Lookup, LastNamed, Final, Acceptable;
    LookupExactly(sections, TableAt(frames, f));
    FinalOfNone();
    var r := Lookup(sections, TableAt(frames, f));
    if frames[f].Record? && r.Some? {
      AcceptableFrame(sections, bounds, frames, f);
      assert LastNamed(sections, r.value, TableAt(frames, f));
      FinalOfOne(r.value, frames[f].key, frames[f].value);
    }
  }

  lemma ReadOne(sections: seq<Section>, bounds: ShardRange, table: string, frame: Frame)
    ensures ReadFrames(sections, bounds, table, [frame]).error == ReadFrame(sections, bounds, table, frame).error
    ensures ReadFrames(sections, bounds, table, [frame]).table == ReadFrame(sections, bounds, table, frame).table
    ensures ReadFrames(sections, bounds, table, [frame]).kept == ReadFrame(sections, bounds, table, frame).kept
  {
    hide ReadFrame;
    assert [frame][1..] == [];
    var r := ReadFrame(sections, bounds, table, frame);
    assert r.kept + [] == r.kept;
  }

  lemma {:induction false} PrefixRead(sections: seq<Section>, bounds: ShardRange, frames: seq<Frame>, n: nat, i: nat,
                                      k: Bytes)
    requires n <= |frames| && forall f: nat :: f < n ==> Acceptable(sections, frames, f)
    ensures
      var r := ReadFrames(sections, bounds, "", frames[..n]);
      && r.error.None? && r.table == TableAt(frames, n)
      && At(Final(r.kept, i), k) == Latest(sections, bounds, frames, n, i, k)
  {
    hide ReadFrames, ReadFrame, Acceptable, Brought, Final;
    if n == 0 {
      NoFrames(sections, bounds, "");
      FinalOfNone();
    } else {
      PrefixRead(sections, bounds, frames, n - 1, i, k);
      var table, frame := TableAt(frames, n - 1), frames[n - 1];
      assert Acceptable(sections, frames, n - 1);
      assert frames[..n] == frames[..n - 1] + [frame];
      AcceptableFrame(sections, bounds, frames, n - 1);
      FrameBrings(sections, bounds, frames, n - 1, i, k);
      ReadOne(sections, bounds, table, frame);
      ReadAppend(sections, bounds, "", frames[..n - 1], [frame]);
      FinalAppend(ReadFrames(sections, bounds, "", frames[..n - 1]).kept,
                  ReadFrame(sections, bounds, table, frame).kept, i);
    }
  }

  /** The first frames are acceptable and the next one, if any, is not. */
  ghost predicate StopsAt(sections: seq<Section>, frames: seq<Frame>, n: nat) {
    && n <= |frames| && (forall f: nat :: f < n ==> Acceptable(sections, frames, f))
    && (n < |frames| ==> !Acceptable(sections, frames, n))
  }

  lemma {:induction false} StopExists(sections: seq<Section>, frames: seq<Frame>, upTo: nat) returns (n: nat)
    requires upTo <= |frames|
    ensures n <= upTo && (forall f: nat :: f < n ==> Acceptable(sections, frames, f))
    ensures n < upTo ==> !Acceptable(sections, frames, n)
  {
    hide Acceptable;
    n := 0;
    if upTo > 0 {
      n := StopExists(sections, frames, upTo - 1);
      if n == upTo - 1 && Acceptable(sections, frames, n) { n := upTo; }
    }
  }

  /**
   A stream is read up to its first unacceptable record, which decides the error; each section gets, for each key,
   its last version among the records before that which lie in the bounds.
   */
  lemma StreamExactly(sections: seq<Section>, bounds: ShardRange, s: Stream, n: nat, i: nat, k: Bytes)
    requires StopsAt(sections, s.frames, n)
    ensures
      var r := ReadStream(sections, bounds, s);
      && At(Final(r.kept, i), k) == Latest(sections, bounds, s.frames, n, i, k)
      && if n < |s.frames| then
        var name := TableAt(s.frames, n);
        r.error == Some(if exists j :: LastNamed(sections, j, name) then BadRecord(name) else UnknownTable(name))
      else
        r.error == if s.clean then None else Some(ReadFailed)
  {
    hide ReadFrames, ReadFrame, Acceptable, Latest, Final, LastNamed;
    var frames := s.frames;
    PrefixRead(sections, bounds, frames, n, i, k);
    if n < |frames| {
      var table := TableAt(frames, n);
      AcceptableFrame(sections, bounds, frames, n);
      ErrorKeepsNone(sections, bounds, table, frames[n]);
      ReadOne(sections, bounds, table, frames[n]);
      ReadAppend(sections, bounds, "", frames[..n], [frames[n]]);
      assert frames == (frames[..n] + [frames[n]]) + frames[n + 1..];
      ErrorStops(sections, bounds, "", frames[..n] + [frames[n]], frames[n + 1..]);
      var kept := ReadFrames(sections, bounds, "", frames[..n]).kept;
      assert kept + [] == kept;
    } else {
      assert frames[..n] == frames;
    }
  }

  /** Entities are kept in the order of their records: one for each record in the bounds, and none for other frames. */
  lemma KeptInOrder(sections: seq<Section>, bounds: ShardRange, frames: seq<Frame>, n: nat)
    requires n < |frames| && forall f: nat :: f <= n ==> Acceptable(sections, frames, f)
    ensures
      var before := ReadFrames(sections, bounds, "", frames[..n]).kept;
      var kept := ReadFrames(sections, bounds, "", frames[..n + 1]).kept;
      && (forall i: nat, k :: Brought(sections, bounds, frames, n, i, k) ==>
        kept == before + [Kept(i, k, frames[n].value)])
      && ((forall i, k :: !Brought(sections, bounds, frames, n, i, k)) ==> kept == before)
  {
    hide ReadFrames, Lookup, LastNamed, Acceptable;
    var table, frame := TableAt(frames, n), frames[n];
    PrefixRead(sections, bounds, frames, n, 0, []);
    AcceptableFrame(sections, bounds, frames, n);
    LookupExactly(sections, table);
    ReadOne(sections, bounds, table, frame);
    assert frames[..n + 1] == frames[..n] + [frame];
    ReadAppend(sections, bounds, "", frames[..n], [frame]);
    assert Acceptable(sections, frames, n);
    var r := Lookup(sections, table);
    if r.Some? && frame.Record? {
      assert LastNamed(sections, r.value, table);
      assert Brought(sections, bounds, frames, n, r.value, frame.key) <==>
        bounds.lower <= sections[r.value].schema.shardOf(frame.key, frame.value) <= bounds.upper;
    }
  }

  /** Streams are read without error exactly if each of them ends cleanly and has only acceptable records. */
  lemma ReadsExactly(sections: seq<Section>, bounds: ShardRange, streams: seq<Stream>)
    ensures ReadStreams(sections, bounds, streams).error.None? <==>
      forall s :: s in streams ==> s.clean && forall f: nat :: f < |s.frames| ==> Acceptable(sections, s.frames, f)
  {
    hide ReadStreams, ReadStream, Acceptable, Final, Latest;
    ErrorOfStreams(sections, bounds, streams);
    forall s | s in streams
      ensures ReadStream(sections, bounds, s).error.None? <==>
        s.clean && forall f: nat :: f < |s.frames| ==> Acceptable(sections, s.frames, f)
    {
      var n := StopExists(sections, s.frames, |s.frames|);
      StreamExactly(sections, bounds, s, n, 0, []);
    }
  }

  /** The record is the last of its stream to bring the key to the section. */
  predicate LastOfStream(sections: seq<Section>, bounds: ShardRange, frames: seq<Frame>, f: int, i: int, k: Bytes) {
    && Brought(sections, bounds, frames, f, i, k)
    && forall g :: f < g < |frames| ==> !Brought(sections, bounds, frames, g, i, k)
  }

  ghost predicate NoneBrings(sections: seq<Section>, bounds: ShardRange, streams: seq<Stream>, i: int, k: Bytes) {
    forall s, f :: s in streams ==> !Brought(sections, bounds, s.frames, f, i, k)
  }

  /** It is the last of all streams to do so. */
  ghost predicate Decides(sections: seq<Section>, bounds: ShardRange, streams: seq<Stream>, r: int, f: int, i: int,
                          k: Bytes)
  {
    && 0 <= r < |streams| && LastOfStream(sections, bounds, streams[r].frames, f, i, k)
    && NoneBrings(sections, bounds, streams[r + 1..], i, k)
  }

  lemma {:induction false} LastExists(sections: seq<Section>, bounds: ShardRange, frames: seq<Frame>, n: nat, i: int,
                                      k: Bytes) returns (f: int)
    requires n <= |frames| && Latest(sections, bounds, frames, n, i, k).Some?
    ensures 0 <= f < n && Brought(sections, bounds, frames, f, i, k)
    ensures forall g :: f < g < n ==> !Brought(sections, bounds, frames, g, i, k)
  {
    hide Brought;
    f := n - 1;
    if !Brought(sections, bounds, frames, f, i, k) { f := LastExists(sections, bounds, frames, n - 1, i, k); }
  }

  lemma OneStreamRow(sections: seq<Section>, bounds: ShardRange, s: Stream, i: nat, k: Bytes)
    requires ReadStream(sections, bounds, s).error.None?
    ensures
      var m := Contribution(sections, bounds, s, i);
      && (k in m <==> exists f :: LastOfStream(sections, bounds, s.frames, f, i, k))
      && (k !in m <==> forall f :: !Brought(sections, bounds, s.frames, f, i, k))
      && forall f :: LastOfStream(sections, bounds, s.frames, f, i, k) ==> k in m && m[k] == s.frames[f].value
  {
    hide ReadStream, Acceptable, Final, Latest, LastNamed;
    var n := StopExists(sections, s.frames, |s.frames|);
    StreamExactly(sections, bounds, s, n, i, k);
    LatestExactly(sections, bounds, s.frames, n, i, k);
    if k in Contribution(sections, bounds, s, i) {
      var f := LastExists(sections, bounds, s.frames, n, i, k);
      assert LastOfStream(sections, bounds, s.frames, f, i, k);
    }
  }

  /**
   Each section's row for a key is the value of the last record, over all streams in order, that stands under the
   section's name, has the key and lies in the bounds; without such a record there is no row.
   */
  lemma {:induction false} RowsExactly(sections: seq<Section>, bounds: ShardRange, streams: seq<Stream>, i: nat,
                                       k: Bytes)
    requires ReadStreams(sections, bounds, streams).error.None?
    ensures
      var m := FinalOf(sections, bounds, streams, i);
      && (k in m <==> exists r, f :: Decides(sections, bounds, streams, r, f, i, k))
      && (k !in m <==> NoneBrings(sections, bounds, streams, i, k))
      && forall r, f :: Decides(sections, bounds, streams, r, f, i, k) ==>
        k in m && m[k] == streams[r].frames[f].value
    decreases |streams|
  {
    hide ReadStream, Brought, Final, LastOfStream, Contribution;
    if streams == [] {
      FinalOfNone();
    } else {
      var s, rest := streams[0], streams[1..];
      assert streams == [s] + rest;
      ErrorOfStreams(sections, bounds, streams);
      ErrorOfStreams(sections, bounds, rest);
      OneStreamRow(sections, bounds, s, i, k);
      RowsExactly(sections, bounds, rest, i, k);
      FirstStream(sections, bounds, streams, i);
      forall r, f ensures Decides(sections, bounds, streams, r, f, i, k) <==>
        if r == 0 then LastOfStream(sections, bounds, s.frames, f, i, k) && NoneBrings(sections, bounds, rest, i, k)
        else Decides(sections, bounds, rest, r - 1, f, i, k)
      {
        if 0 < r < |streams| { assert streams[r + 1..] == rest[r..]; }
      }
      if k in FinalOf(sections, bounds, rest, i) {
        var r, f :| Decides(sections, bounds, rest, r, f, i, k);
        assert Decides(sections, bounds, streams, r + 1, f, i, k);
      } else if k in Contribution(sections, bounds, s, i) {
        var f :| LastOfStream(sections, bounds, s.frames, f, i, k);
        assert Decides(sections, bounds, streams, 0, f, i, k);
      }
    }
  }

  /** So it is after a restore that succeeds, and the index rows are exactly those the section's rows call for. */
  lemma RestoredExactly(sections: seq<Section>, bounds: ShardRange, db: Database, streams: seq<Stream>, i: nat,
                        k: Bytes)
    requires DistinctIds(sections) && i < |sections| && ReadStreams(sections, bounds, streams).error.None?
    ensures
      var t := TableOf(Restored(sections, bounds, db, streams), sections[i].id);
      && (k in t.primary <==> exists r, f :: Decides(sections, bounds, streams, r, f, i, k))
      && (forall r, f :: Decides(sections, bounds, streams, r, f, i, k) ==>
        k in t.primary && t.primary[k] == streams[r].frames[f].value)
      && forall tag :: IndexRow(tag, k) in t.index <==>
        k in t.primary && tag in sections[i].schema.tagsOf(k, t.primary[k])
  {
    hide ReadStreams, Restored, Decides, FinalOf;
    RowsExactly(sections, bounds, streams, i, k);
    RestoredState(sections, bounds, db, streams);
  }
}
