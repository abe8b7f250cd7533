/** What whole restores do: split, merge, and the order of streams. */
module PortableResults {
  import opened Bytes
  import opened Lex
  import opened Portable
  import opened PortableRestore

  /** What one stream brings to the i-th section. */
  function Contribution(sections: seq<Section>, bounds: ShardRange, s: Stream, i: nat): (m: Entities) {
    Final(ReadStream(sections, bounds, s).kept, i)
  }

  function FinalOf(sections: seq<Section>, bounds: ShardRange, streams: seq<Stream>, i: nat): (m: Entities) {
    Final(ReadStreams(sections, bounds, streams).kept, i)
  }

  lemma {:induction false} FinalAppend(a: seq<Kept>, b: seq<Kept>, i: nat)
    ensures Final(a + b, i) == Final(a, i) + Final(b, i)
    decreases |b|
  {
    if b == [] {
      assert a + b == a;
    } else {
      var n := |b| - 1;
      assert (a + b)[..|a + b| - 1] == a + b[..n];
      FinalAppend(a, b[..n], i);
    }
  }

  /** After a restore, sections hold their final entities with the derived index; nothing else changes. */
  lemma RestoredState(sections: seq<Section>, bounds: ShardRange, db: Database, streams: seq<Stream>)
    requires DistinctIds(sections)
    ensures forall i :: 0 <= i < |sections| ==>
      TableOf(Restored(sections, bounds, db, streams), sections[i].id) ==
      TableState(FinalOf(sections, bounds, streams, i),
                 Derived(sections[i].schema, FinalOf(sections, bounds, streams, i)))
    ensures forall id :: (forall s :: s in sections ==> s.id != id) ==>
      TableOf(Restored(sections, bounds, db, streams), id) == TableOf(db, id)
  {
    hide Final, Derived, ReadStreams, Replay, Cleared;
    ReadStreamsInSections(sections, bounds, streams);
    ClearedTables(db, sections);
    ReplayedState(sections, Cleared(db, sections), ReadStreams(sections, bounds, streams).kept);
  }

  // ---- Order of streams ---------------------------------------------------

  lemma {:induction false} ErrorOfStreams(sections: seq<Section>, bounds: ShardRange, streams: seq<Stream>)
    ensures ReadStreams(sections, bounds, streams).error.None? <==>
      forall s :: s in streams ==> ReadStream(sections, bounds, s).error.None?
    decreases |streams|
  {
    if streams != [] {
      ErrorOfStreams(sections, bounds, streams[1..]);
      assert streams == [streams[0]] + streams[1..];
    }
  }

  /** After filtering, no two different streams bring an entity with the same key to a section. */
  predicate Disjoint(sections: seq<Section>, bounds: ShardRange, streams: seq<Stream>) {
    forall s, t, i :: s in streams && t in streams && s != t && 0 <= i < |sections| ==>
      Contribution(sections, bounds, s, i).Keys !! Contribution(sections, bounds, t, i).Keys
  }

  predicate Maps(m: Entities, k: Bytes, v: Bytes) { k in m && m[k] == v }

  predicate Brings(sections: seq<Section>, bounds: ShardRange, streams: seq<Stream>, i: nat, k: Bytes, v: Bytes) {
    exists s :: s in streams && Maps(Contribution(sections, bounds, s, i), k, v)
  }

  /** Disjoint streams restored together give the union of what each brings. */
  lemma {:induction false} UnionOfStreams(sections: seq<Section>, bounds: ShardRange, streams: seq<Stream>, i: nat)
    requires ReadStreams(sections, bounds, streams).error.None? && Disjoint(sections, bounds, streams)
    requires i < |sections|
    ensures
      var m := FinalOf(sections, bounds, streams, i);
      forall k, v :: Maps(m, k, v) <==> Brings(sections, bounds, streams, i, k, v)
    decreases |streams|
  {
    hide Contribution, ReadStream;
    if streams != [] {
      var s, rest := streams[0], streams[1..];
      ErrorOfStreams(sections, bounds, streams);
      assert s in streams;
      assert forall t :: t in rest ==> t in streams;
      UnionOfStreams(sections, bounds, rest, i);
      FirstStream(sections, bounds, streams, i);
      var c := Contribution(sections, bounds, s, i);
      var m, m' := FinalOf(sections, bounds, streams, i), FinalOf(sections, bounds, rest, i);
      forall k, v ensures Maps(m, k, v) <==> Brings(sections, bounds, streams, i, k, v) {
        if k in c && k in m' {
          assert Maps(m', k, m'[k]);
          var t :| t in rest && Maps(Contribution(sections, bounds, t, i), k, m'[k]);
          assert t == s || c.Keys !! Contribution(sections, bounds, t, i).Keys;
          assert m'[k] == c[k];
        }
        BringsFirst(sections, bounds, streams, i, k, v);
      }
    }
  }

  lemma FirstStream(sections: seq<Section>, bounds: ShardRange, streams: seq<Stream>, i: nat)
    requires streams != [] && ReadStreams(sections, bounds, streams).error.None?
    ensures FinalOf(sections, bounds, streams, i) ==
      Contribution(sections, bounds, streams[0], i) + FinalOf(sections, bounds, streams[1..], i)
  {
    FinalAppend(ReadStream(sections, bounds, streams[0]).kept, ReadStreams(sections, bounds, streams[1..]).kept, i);
  }

  lemma BringsFirst(sections: seq<Section>, bounds: ShardRange, streams: seq<Stream>, i: nat, k: Bytes, v: Bytes)
    requires streams != []
    ensures
      var c := Contribution(sections, bounds, streams[0], i);
      Brings(sections, bounds, streams, i, k, v) <==>
        Maps(c, k, v) || Brings(sections, bounds, streams[1..], i, k, v)
  {
    hide Contribution;
    assert streams == [streams[0]] + streams[1..];
    assert streams[0] in streams;
    assert forall t :: t in streams[1..] ==> t in streams;
  }

  /** The order of disjoint streams does not matter. */
  lemma OrderIsIrrelevant(sections: seq<Section>, bounds: ShardRange, db: Database, a: seq<Stream>, b: seq<Stream>)
    requires DistinctIds(sections) && Disjoint(sections, bounds, a)
    requires forall s :: s in a <==> s in b
    requires ReadStreams(sections, bounds, a).error.None?
    ensures ReadStreams(sections, bounds, b).error.None?
    ensures forall id ::
      TableOf(Restored(sections, bounds, db, a), id) == TableOf(Restored(sections, bounds, db, b), id)
  {
    hide Restored, ReadStreams, Contribution, Derived, FinalOf;
    ErrorOfStreams(sections, bounds, a);
    ErrorOfStreams(sections, bounds, b);
    RestoredState(sections, bounds, db, a);
    RestoredState(sections, bounds, db, b);
    forall i | 0 <= i < |sections| ensures FinalOf(sections, bounds, a, i) == FinalOf(sections, bounds, b, i) {
      UnionOfStreams(sections, bounds, a, i);
      UnionOfStreams(sections, bounds, b, i);
      SameBrought(sections, bounds, a, b, i);
      SameEntities(FinalOf(sections, bounds, a, i), FinalOf(sections, bounds, b, i));
    }
    forall id ensures TableOf(Restored(sections, bounds, db, a), id) == TableOf(Restored(sections, bounds, db, b), id) {
      if s :| s in sections && s.id == id {
        var i :| 0 <= i < |sections| && sections[i] == s;
      }
    }
  }

  lemma SameBrought(sections: seq<Section>, bounds: ShardRange, a: seq<Stream>, b: seq<Stream>, i: nat)
    requires forall s :: s in a <==> s in b
    ensures forall k, v :: Brings(sections, bounds, a, i, k, v) <==> Brings(sections, bounds, b, i, k, v)
  {}

  lemma SameEntities(m: Entities, n: Entities)
    requires forall k, v :: Maps(m, k, v) <==> Maps(n, k, v)
    ensures m == n
  {
    forall k ensures k in m <==> k in n {
      if k in m { assert Maps(m, k, m[k]); }
      if k in n { assert Maps(n, k, n[k]); }
    }
    forall k | k in m ensures m[k] == n[k] { assert Maps(m, k, m[k]); }
  }

  // ---- Reading back what was written --------------------------------------

  /** The entities of m whose shard key lies in the bounds. */
  function Owned(schema: Schema, m: Entities, bounds: ShardRange): (o: Entities) {
    map k | k in m && bounds.Owns(schema.shardOf(k, m[k])) :: m[k]
  }

  /** The entities of the section with the given name. */
  function EntitiesNamed(db: Database, sections: seq<Section>, name: string): (m: Entities) {
    var i := Lookup(sections, name);
    if i.None? then map[] else TableOf(db, sections[i.value].id).primary
  }

  /**
   Another core of the application: it has a section for each name, with the same schema, in any order, under
   its own ids, and possibly more.
   */
  ghost predicate SameApplication(src: seq<Section>, dst: seq<Section>) {
    && DistinctNames(src) && DistinctNames(dst) && DistinctIds(dst)
    && forall s :: s in src ==> Serves(dst, s)
  }

  ghost predicate Serves(sections: seq<Section>, s: Section) {
    var i := Lookup(sections, s.name);
    i.Some? && sections[i.value].schema == s.schema
  }

  /** Every stored entity decodes. */
  predicate AllDecode(db: Database, sections: seq<Section>) {
    forall i, k :: 0 <= i < |sections| && k in TableOf(db, sections[i].id).primary ==>
      sections[i].schema.decodes(k, TableOf(db, sections[i].id).primary[k])
  }

  lemma {:induction false} LookupName(sections: seq<Section>, i: nat)
    requires i < |sections| && DistinctNames(sections)
    ensures Lookup(sections, sections[i].name) == Some(i)
    decreases |sections|
  {
    var n := |sections| - 1;
    if i < n { LookupName(sections[..n], i); }
  }

  lemma {:induction false} ReadAppend(sections: seq<Section>, bounds: ShardRange, table: string, a: seq<Frame>,
                                      b: seq<Frame>)
    requires ReadFrames(sections, bounds, table, a).error.None?
    ensures
      var r := ReadFrames(sections, bounds, table, a);
      var t := ReadFrames(sections, bounds, r.table, b);
      ReadFrames(sections, bounds, table, a + b) == Run(r.kept + t.kept, t.table, t.error)
    decreases |a|
  {
    hide ReadFrame;
    if a == [] {
      assert a + b == b;
    } else {
      var first := ReadFrame(sections, bounds, table, a[0]);
      ReadAppend(sections, bounds, first.table, a[1..], b);
      assert (a + b)[1..] == a[1..] + b;
      var r := ReadFrames(sections, bounds, first.table, a[1..]);
      var t := ReadFrames(sections, bounds, r.table, b);
      assert first.kept + (r.kept + t.kept) == (first.kept + r.kept) + t.kept;
    }
  }

  /** Entities with the given keys that lie in the bounds. */
  function OwnedAmong(schema: Schema, m: Entities, bounds: ShardRange, ks: seq<Bytes>): (o: Entities) {
    map k | k in ks && k in m && bounds.Owns(schema.shardOf(k, m[k])) :: m[k]
  }

  /** Reading the records of section j back. */
  lemma {:induction false} ReadRecords(sections: seq<Section>, bounds: ShardRange, j: nat, m: Entities, ks: seq<Bytes>)
    requires j < |sections| && DistinctNames(sections)
    requires forall k :: k in ks ==> k in m && sections[j].schema.decodes(k, m[k])
    ensures
      var r := ReadFrames(sections, bounds, sections[j].name, Records(m, ks));
      && r.error.None? && r.table == sections[j].name
      && (forall i :: i != j ==> Final(r.kept, i) == map[])
      && Final(r.kept, j) == OwnedAmong(sections[j].schema, m, bounds, ks)
    decreases |ks|
  {
    hide Final, OwnedAmong, ReadFrames;
    var name, schema := sections[j].name, sections[j].schema;
    NoFrames(sections, bounds, name);
    NoneAmong(schema, m, bounds);
    if ks != [] {
      var n := |ks| - 1;
      var k := ks[n];
      assert k in ks && ks == ks[..n] + [k];
      ReadRecords(sections, bounds, j, m, ks[..n]);
      assert Records(m, ks) == Records(m, ks[..n]) + [Record(k, m[k])];
      ReadAppend(sections, bounds, name, Records(m, ks[..n]), [Record(k, m[k])]);
      ReadRecord(sections, bounds, j, k, m[k]);
      var before := ReadFrames(sections, bounds, name, Records(m, ks[..n])).kept;
      var kept := ReadFrames(sections, bounds, name, [Record(k, m[k])]).kept;
      forall i ensures Final(before + kept, i) == Final(before, i) + Final(kept, i) { FinalAppend(before, kept, i); }
      OwnedStep(schema, m, bounds, ks[..n], k);
    } else {
      FinalOfNone();
    }
  }

  lemma NoFrames(sections: seq<Section>, bounds: ShardRange, table: string)
    ensures ReadFrames(sections, bounds, table, []) == Run([], table, None)
  {}

  lemma NoneAmong(schema: Schema, m: Entities, bounds: ShardRange)
    ensures OwnedAmong(schema, m, bounds, []) == map[]
  {}

  lemma OwnedStep(schema: Schema, m: Entities, bounds: ShardRange, ks: seq<Bytes>, k: Bytes)
    requires k in m
    ensures OwnedAmong(schema, m, bounds, ks + [k]) ==
      OwnedAmong(schema, m, bounds, ks) + if bounds.Owns(schema.shardOf(k, m[k])) then map[k := m[k]] else map[]
  {}

  lemma ReadRecord(sections: seq<Section>, bounds: ShardRange, j: nat, k: Bytes, v: Bytes)
    requires j < |sections| && DistinctNames(sections) && sections[j].schema.decodes(k, v)
    ensures
      var name, schema := sections[j].name, sections[j].schema;
      var r := ReadFrames(sections, bounds, name, [Record(k, v)]);
      && r.error.None? && r.table == name
      && (forall i :: i != j ==> Final(r.kept, i) == map[])
      && Final(r.kept, j) == if bounds.Owns(schema.shardOf(k, v)) then map[k := v] else map[]
  {
    LookupName(sections, j);
    assert [Record(k, v)][1..] == [];
    FinalOfOne(j, k, v);
    FinalOfNone();
  }

  lemma FinalOfOne(j: nat, k: Bytes, v: Bytes)
    ensures Final([Kept(j, k, v)], j) == map[k := v]
    ensures forall i :: i != j ==> Final([Kept(j, k, v)], i) == map[]
  {
    assert [Kept(j, k, v)][..0] == [];
  }

  lemma NamedCons(db: Database, sections: seq<Section>, name: string)
    requires DistinctNames(sections) && sections != []
    ensures DistinctNames(sections[1..])
    ensures EntitiesNamed(db, sections, name) ==
      if name == sections[0].name then TableOf(db, sections[0].id).primary else EntitiesNamed(db, sections[1..], name)
  {
    if i: nat :| i < |sections| && sections[i].name == name {
      LookupName(sections, i);
      if i > 0 {
        assert sections[1..][i - 1] == sections[i];
        LookupName(sections[1..], i - 1);
      }
    }
  }

  /** Reading the records of all sections back, each into the section of its name. */
  lemma {:induction false} ReadSections(db: Database, src: seq<Section>, dst: seq<Section>, bounds: ShardRange,
                                        table: string)
    requires SameApplication(src, dst) && AllDecode(db, src)
    ensures
      var r := ReadFrames(dst, bounds, table, AllSectionFrames(db, src));
      && r.error.None?
      && (forall i :: 0 <= i < |dst| ==>
        Final(r.kept, i) == Owned(dst[i].schema, EntitiesNamed(db, src, dst[i].name), bounds))
    decreases |src|
  {
    hide Final, Owned, ReadFrames, SectionFrames, Lookup, EntitiesNamed;
    if src == [] {
      NoFrames(dst, bounds, table);
      FinalOfNone();
      forall i | 0 <= i < |dst| ensures Owned(dst[i].schema, EntitiesNamed(db, [], dst[i].name), bounds) == map[] {
        NoneNamed(db, dst[i].schema, dst[i].name, bounds);
      }
    } else {
      var s, others := src[0], src[1..];
      assert s in src && forall o :: o in others ==> o in src;
      var own, rest := SectionFrames(db, s), AllSectionFrames(db, others);
      ReadSection(db, s, dst, bounds, table);
      ReadAppend(dst, bounds, table, own, rest);
      NamedCons(db, src, s.name);
      ReadSections(db, others, dst, bounds, s.name);
      var a, b := ReadFrames(dst, bounds, table, own).kept, ReadFrames(dst, bounds, s.name, rest).kept;
      forall i | 0 <= i < |dst|
        ensures Final(a + b, i) == Owned(dst[i].schema, EntitiesNamed(db, src, dst[i].name), bounds)
      {
        FinalAppend(a, b, i);
        NamedCons(db, src, dst[i].name);
        LookupName(dst, i);
        if dst[i].name == s.name { NotAmongOthers(db, src, dst[i].schema, bounds); }
      }
    }
  }

  lemma NoneNamed(db: Database, schema: Schema, name: string, bounds: ShardRange)
    ensures Owned(schema, EntitiesNamed(db, [], name), bounds) == map[]
  {}

  lemma NotAmongOthers(db: Database, src: seq<Section>, schema: Schema, bounds: ShardRange)
    requires src != [] && DistinctNames(src)
    ensures Owned(schema, EntitiesNamed(db, src[1..], src[0].name), bounds) == map[]
  {}

  lemma FinalOfNone()
    ensures forall i :: Final([], i) == map[]
  {}

  lemma ReadStart(sections: seq<Section>, bounds: ShardRange, table: string, name: string, fs: seq<Frame>)
    ensures ReadFrames(sections, bounds, table, [TableStart(name)] + fs) == ReadFrames(sections, bounds, name, fs)
  {
    assert ([TableStart(name)] + fs)[1..] == fs;
    var r := ReadFrames(sections, bounds, name, fs);
    assert [] + r.kept == r.kept;
  }

  lemma ReadSection(db: Database, s: Section, dst: seq<Section>, bounds: ShardRange, table: string)
    requires DistinctNames(dst) && Serves(dst, s)
    requires forall k :: k in TableOf(db, s.id).primary ==> s.schema.decodes(k, TableOf(db, s.id).primary[k])
    ensures
      var m := TableOf(db, s.id).primary;
      var r := ReadFrames(dst, bounds, table, SectionFrames(db, s));
      && r.error.None? && r.table == s.name
      && forall i: nat ::
        Final(r.kept, i) == if Lookup(dst, s.name) == Some(i) then Owned(s.schema, m, bounds) else map[]
  {
    hide Final, Sorted, Records, ReadFrames;
    var m, j := TableOf(db, s.id).primary, Lookup(dst, s.name).value;
    var ks := Sorted(m.Keys);
    ReadRecords(dst, bounds, j, m, ks);
    ReadStart(dst, bounds, table, s.name, Records(m, ks));
    assert OwnedAmong(s.schema, m, bounds, ks) == Owned(s.schema, m, bounds);
  }

  // ---- Exactly when a written snapshot can be read --------------------------

  predicate Accepts(sections: seq<Section>, name: string, key: Bytes, value: Bytes) {
    var i := Lookup(sections, name);
    i.Some? && sections[i.value].schema.decodes(key, value)
  }

  /** The restoring core has a namesake for the section that decodes its entities, unless there are none. */
  predicate Readable(db: Database, s: Section, dst: seq<Section>) {
    forall k :: k in TableOf(db, s.id).primary ==> Accepts(dst, s.name, k, TableOf(db, s.id).primary[k])
  }

  lemma {:induction false} ErrorStops(sections: seq<Section>, bounds: ShardRange, table: string, a: seq<Frame>,
                                      b: seq<Frame>)
    requires ReadFrames(sections, bounds, table, a).error.Some?
    ensures ReadFrames(sections, bounds, table, a + b) == ReadFrames(sections, bounds, table, a)
    decreases |a|
  {
    hide ReadFrame;
    var first := ReadFrame(sections, bounds, table, a[0]);
    assert (a + b)[0] == a[0] && (a + b)[1..] == a[1..] + b;
    if first.error.None? { ErrorStops(sections, bounds, first.table, a[1..], b); }
  }

  /** Frames read in sequence: both parts have to be read without error. */
  lemma ReadBoth(sections: seq<Section>, bounds: ShardRange, table: string, a: seq<Frame>, b: seq<Frame>)
    ensures
      var r := ReadFrames(sections, bounds, table, a);
      ReadFrames(sections, bounds, table, a + b).error.None? <==>
        r.error.None? && ReadFrames(sections, bounds, r.table, b).error.None?
    ensures ReadFrames(sections, bounds, table, a + b).error.None? ==>
      ReadFrames(sections, bounds, table, a + b).table ==
        ReadFrames(sections, bounds, ReadFrames(sections, bounds, table, a).table, b).table
  {
    hide ReadFrames;
    if ReadFrames(sections, bounds, table, a).error.None? {
      ReadAppend(sections, bounds, table, a, b);
    } else {
      ErrorStops(sections, bounds, table, a, b);
    }
  }

  lemma OneRecord(sections: seq<Section>, bounds: ShardRange, table: string, key: Bytes, value: Bytes)
    ensures ReadFrames(sections, bounds, table, [Record(key, value)]).error.None? <==>
      Accepts(sections, table, key, value)
    ensures ReadFrames(sections, bounds, table, [Record(key, value)]).table == table
  {
    assert [Record(key, value)][1..] == [];
  }

  lemma {:induction false} RecordsReadExactly(sections: seq<Section>, bounds: ShardRange, table: string, m: Entities,
                                              ks: seq<Bytes>)
    requires forall k :: k in ks ==> k in m
    ensures
      var r := ReadFrames(sections, bounds, table, Records(m, ks));
      && (r.error.None? <==> forall k :: k in ks ==> Accepts(sections, table, k, m[k]))
      && (r.error.None? ==> r.table == table)
    decreases |ks|
  {
    hide ReadFrames, Accepts;
    if ks == [] {
      NoFrames(sections, bounds, table);
    } else {
      var n := |ks| - 1;
      var k := ks[n];
      assert k in ks && ks == ks[..n] + [k];
      RecordsReadExactly(sections, bounds, table, m, ks[..n]);
      assert Records(m, ks) == Records(m, ks[..n]) + [Record(k, m[k])];
      ReadBoth(sections, bounds, table, Records(m, ks[..n]), [Record(k, m[k])]);
      OneRecord(sections, bounds, table, k, m[k]);
    }
  }

  lemma SectionReadsExactly(db: Database, s: Section, dst: seq<Section>, bounds: ShardRange, table: string)
    ensures
      var r := ReadFrames(dst, bounds, table, SectionFrames(db, s));
      (r.error.None? <==> Readable(db, s, dst)) && (r.error.None? ==> r.table == s.name)
  {
    hide Sorted, Records, ReadFrames, Accepts;
    var m := TableOf(db, s.id).primary;
    RecordsReadExactly(dst, bounds, s.name, m, Sorted(m.Keys));
    ReadStart(dst, bounds, table, s.name, Records(m, Sorted(m.Keys)));
  }

  lemma {:induction false} SectionsReadExactly(db: Database, src: seq<Section>, dst: seq<Section>, bounds: ShardRange,
                                               table: string)
    ensures ReadFrames(dst, bounds, table, AllSectionFrames(db, src)).error.None? <==>
      forall s :: s in src ==> Readable(db, s, dst)
    decreases |src|
  {
    hide ReadFrames, Readable, SectionFrames;
    if src == [] {
      NoFrames(dst, bounds, table);
    } else {
      assert src == [src[0]] + src[1..];
      SectionReadsExactly(db, src[0], dst, bounds, table);
      ReadBoth(dst, bounds, table, SectionFrames(db, src[0]), AllSectionFrames(db, src[1..]));
      SectionsReadExactly(db, src[1..], dst, bounds, src[0].name);
    }
  }

  /**
   Any core reads a written snapshot without error exactly when it has a namesake for each section that is not
   empty, and that section decodes the entities.
   */
  lemma WrittenReadsExactly(db: Database, core: string, src: seq<Section>, dst: seq<Section>, bounds: ShardRange)
    ensures ReadStream(dst, bounds, Written(db, core, src)).error.None? <==>
      forall s :: s in src ==> Readable(db, s, dst)
  {
    hide Readable;
    SectionsReadExactly(db, src, dst, bounds, "");
    MetaFirst(db, core, src, dst, bounds);
  }

  lemma MetaFirst(db: Database, core: string, src: seq<Section>, dst: seq<Section>, bounds: ShardRange)
    ensures ReadStream(dst, bounds, Written(db, core, src)) == ReadFrames(dst, bounds, "", AllSectionFrames(db, src))
  {
    var s := Written(db, core, src);
    assert s.frames[1..] == AllSectionFrames(db, src);
    var r := ReadFrames(dst, bounds, "", s.frames[1..]);
    assert [] + r.kept == r.kept;
  }

  /** A written snapshot reads back without error, and brings each section what the bounds own of its namesake. */
  lemma WrittenReadsBack(db: Database, core: string, src: seq<Section>, dst: seq<Section>, bounds: ShardRange)
    requires SameApplication(src, dst) && AllDecode(db, src)
    ensures ReadStream(dst, bounds, Written(db, core, src)).error.None?
    ensures forall i :: 0 <= i < |dst| ==>
      var owned := Owned(dst[i].schema, EntitiesNamed(db, src, dst[i].name), bounds);
      Contribution(dst, bounds, Written(db, core, src), i) == owned
  {
    hide Final, EntitiesNamed, Owned;
    ReadSections(db, src, dst, bounds, "");
    MetaFirst(db, core, src, dst, bounds);
  }

  /** Restoring one written snapshot: exactly the entities in the bounds, with the index derived from them. */
  lemma RestoredOwned(db: Database, core: string, src: seq<Section>, target: Database, dst: seq<Section>,
                       bounds: ShardRange)
    requires SameApplication(src, dst) && AllDecode(db, src)
    ensures ReadStreams(dst, bounds, [Written(db, core, src)]).error.None?
    ensures forall i :: 0 <= i < |dst| ==>
      var owned := Owned(dst[i].schema, EntitiesNamed(db, src, dst[i].name), bounds);
      TableOf(Restored(dst, bounds, target, [Written(db, core, src)]), dst[i].id) ==
        TableState(owned, Derived(dst[i].schema, owned))
  {
    hide Written, ReadStream, Restored, Derived, Owned, Final, EntitiesNamed;
    var s := Written(db, core, src);
    WrittenReadsBack(db, core, src, dst, bounds);
    RestoredState(dst, bounds, target, [s]);
    OneStream(dst, bounds, s);
  }

  /** Some section of the name holds the row. */
  predicate HeldUnder(db: Database, sections: seq<Section>, name: string, k: Bytes, v: Bytes) {
    exists j :: 0 <= j < |sections| && sections[j].name == name && sections[j].id in db &&
      k in db[sections[j].id].primary && db[sections[j].id].primary[k] == v
  }

  lemma HeldByName(db: Database, sections: seq<Section>, name: string, k: Bytes, v: Bytes)
    requires DistinctNames(sections)
    ensures var m := EntitiesNamed(db, sections, name); k in m && m[k] == v <==> HeldUnder(db, sections, name, k, v)
  {
    hide Lookup;
    var r := Lookup(sections, name);
    if j: nat :| j < |sections| && sections[j].name == name { LookupName(sections, j); }
  }

  /**
   After a restore of a written snapshot, a section holds a row exactly if its namesake does and the row's shard
   key is between the bounds, ends included; and it has exactly the index rows that its rows call for.
   */
  lemma RestoreWritten(db: Database, core: string, src: seq<Section>, target: Database, dst: seq<Section>,
                       bounds: ShardRange, i: nat, k: Bytes, v: Bytes)
    requires SameApplication(src, dst) && AllDecode(db, src) && i < |dst|
    ensures ReadStreams(dst, bounds, [Written(db, core, src)]).error.None?
    ensures var t := TableOf(Restored(dst, bounds, target, [Written(db, core, src)]), dst[i].id);
      && (k in t.primary && t.primary[k] == v <==>
        HeldUnder(db, src, dst[i].name, k, v) && bounds.lower <= dst[i].schema.shardOf(k, v) <= bounds.upper)
      && forall tag :: IndexRow(tag, k) in t.index <==> k in t.primary && tag in dst[i].schema.tagsOf(k, t.primary[k])
  {
    hide Written, ReadStreams, Restored, EntitiesNamed, HeldUnder;
    RestoredOwned(db, core, src, target, dst, bounds);
    HeldByName(db, src, dst[i].name, k, v);
  }

  lemma OneStream(sections: seq<Section>, bounds: ShardRange, s: Stream)
    requires ReadStream(sections, bounds, s).error.None?
    ensures ReadStreams(sections, bounds, [s]).error.None?
    ensures forall i :: FinalOf(sections, bounds, [s], i) == Contribution(sections, bounds, s, i)
  {
    assert [s][1..] == [];
    var kept := ReadStream(sections, bounds, s).kept;
    assert kept + [] == kept;
  }

  // ---- Split and merge ----------------------------------------------------

  /** Two ranges that cut a range in two split every set of entities in it: disjoint, and nothing lost. */
  lemma SplitIsPartition(schema: Schema, m: Entities, whole: ShardRange, cut: nat)
    requires whole.lower <= cut < whole.upper
    requires forall k :: k in m ==> whole.Owns(schema.shardOf(k, m[k]))
    ensures
      var low := Owned(schema, m, ShardRange(whole.lower, cut));
      var high := Owned(schema, m, ShardRange(cut + 1, whole.upper));
      low.Keys !! high.Keys && low + high == m
  {}

  /**
   Restoring two snapshots gives what the bounds own of each, the second stream's version where both have a
   key; so when what they own is disjoint, their order does not matter.
   */
  lemma MergeIsUnion(dbA: Database, coreA: string, srcA: seq<Section>, dbB: Database, coreB: string, srcB: seq<Section>,
                     target: Database, dst: seq<Section>, bounds: ShardRange)
    requires SameApplication(srcA, dst) && AllDecode(dbA, srcA)
    requires SameApplication(srcB, dst) && AllDecode(dbB, srcB)
    ensures
      var a, b := Written(dbA, coreA, srcA), Written(dbB, coreB, srcB);
      && ReadStreams(dst, bounds, [a, b]).error.None?
      && forall i :: 0 <= i < |dst| ==>
        var ownedA := Owned(dst[i].schema, EntitiesNamed(dbA, srcA, dst[i].name), bounds);
        var ownedB := Owned(dst[i].schema, EntitiesNamed(dbB, srcB, dst[i].name), bounds);
        && TableOf(Restored(dst, bounds, target, [a, b]), dst[i].id) ==
          TableState(ownedA + ownedB, Derived(dst[i].schema, ownedA + ownedB))
        && (ownedA.Keys !! ownedB.Keys ==>
          TableOf(Restored(dst, bounds, target, [b, a]), dst[i].id) ==
            TableOf(Restored(dst, bounds, target, [a, b]), dst[i].id))
  {
    hide Written, ReadStream, Restored, Derived, Final, EntitiesNamed, Owned;
    var a, b := Written(dbA, coreA, srcA), Written(dbB, coreB, srcB);
    WrittenReadsBack(dbA, coreA, srcA, dst, bounds);
    WrittenReadsBack(dbB, coreB, srcB, dst, bounds);
    RestoredState(dst, bounds, target, [a, b]);
    RestoredState(dst, bounds, target, [b, a]);
    TwoStreams(dst, bounds, a, b);
    TwoStreams(dst, bounds, b, a);
    forall i | 0 <= i < |dst| {
      UnionCommutes(Owned(dst[i].schema, EntitiesNamed(dbA, srcA, dst[i].name), bounds),
                    Owned(dst[i].schema, EntitiesNamed(dbB, srcB, dst[i].name), bounds));
    }
  }

  lemma UnionCommutes(m: Entities, n: Entities)
    ensures m.Keys !! n.Keys ==> m + n == n + m
  {}

  lemma TwoStreams(sections: seq<Section>, bounds: ShardRange, a: Stream, b: Stream)
    requires ReadStream(sections, bounds, a).error.None? && ReadStream(sections, bounds, b).error.None?
    ensures ReadStreams(sections, bounds, [a, b]).error.None?
    ensures forall i :: FinalOf(sections, bounds, [a, b], i)
                     == Contribution(sections, bounds, a, i) + Contribution(sections, bounds, b, i)
  {
    hide ReadStream, Final;
    assert [a, b][1..] == [b];
    OneStream(sections, bounds, b);
    forall i ensures FinalOf(sections, bounds, [a, b], i) ==
      Contribution(sections, bounds, a, i) + Contribution(sections, bounds, b, i)
    {
      FirstStream(sections, bounds, [a, b], i);
    }
  }

  /** What a half keeps of each name. */
  lemma HalfNamed(db: Database, core: string, src: seq<Section>, target: Database, half: seq<Section>,
                  bounds: ShardRange, s: Section)
    requires SameApplication(src, half) && AllDecode(db, src)
    requires Lookup(half, s.name).Some? ==> Serves(half, s)
    ensures EntitiesNamed(Restored(half, bounds, target, [Written(db, core, src)]), half, s.name) ==
      Owned(s.schema, EntitiesNamed(db, src, s.name), bounds)
  {
    hide Written, Restored, Derived, Owned, ReadStreams, Lookup;
    RestoredOwned(db, core, src, target, half, bounds);
    if Lookup(half, s.name).None? {
      NotNamed(db, src, half, s, bounds);
    }
  }

  lemma NotNamed(db: Database, src: seq<Section>, half: seq<Section>, s: Section, bounds: ShardRange)
    requires SameApplication(src, half) && Lookup(half, s.name).None?
    ensures Owned(s.schema, EntitiesNamed(db, src, s.name), bounds) == map[]
  {
    if Lookup(src, s.name).Some? { NamedInBoth(src, half, s.name); }
  }

  lemma NamedInBoth(src: seq<Section>, half: seq<Section>, name: string)
    requires SameApplication(src, half) && Lookup(src, name).Some?
    ensures Lookup(half, name).Some?
  {
    assert src[Lookup(src, name).value] in src;
  }

  /** A restored core's entities decode again. */
  lemma RestoredDecodes(db: Database, core: string, src: seq<Section>, target: Database, half: seq<Section>,
                        bounds: ShardRange)
    requires SameApplication(src, half) && AllDecode(db, src)
    ensures AllDecode(Restored(half, bounds, target, [Written(db, core, src)]), half)
  {
    hide Written, Restored, Derived, ReadStreams, Lookup;
    RestoredOwned(db, core, src, target, half, bounds);
    forall i | 0 <= i < |half| ensures NamedDecode(db, src, half[i]) {
      LookupName(half, i);
      NamedSchema(db, src, half, i);
    }
  }

  ghost predicate NamedDecode(db: Database, src: seq<Section>, s: Section) {
    forall k :: k in EntitiesNamed(db, src, s.name) ==> s.schema.decodes(k, EntitiesNamed(db, src, s.name)[k])
  }

  lemma NamedSchema(db: Database, src: seq<Section>, half: seq<Section>, i: nat)
    requires SameApplication(src, half) && AllDecode(db, src) && i < |half| && Lookup(half, half[i].name) == Some(i)
    ensures NamedDecode(db, src, half[i])
  {
    var j := Lookup(src, half[i].name);
    if j.Some? { assert src[j.value] in src; }
  }

  /**
   Splitting a core in two and merging the halves again restores every section of the original, by name:
   its entities and the index derived from them. Sections the original does not have end up empty.
   */
  lemma SplitThenMerge(db: Database, core: string, src: seq<Section>, dbLow: Database, low: seq<Section>,
                       dbHigh: Database, high: seq<Section>, target: Database, dst: seq<Section>,
                       whole: ShardRange, cut: nat)
    requires SameApplication(src, low) && SameApplication(src, high)
    requires SameApplication(low, dst) && SameApplication(high, dst)
    requires AllDecode(db, src) && whole.lower <= cut < whole.upper
    requires forall i, k :: 0 <= i < |src| && k in TableOf(db, src[i].id).primary ==>
      whole.Owns(src[i].schema.shardOf(k, TableOf(db, src[i].id).primary[k]))
    ensures
      var snapshot := [Written(db, core, src)];
      var halfLow := Restored(low, ShardRange(whole.lower, cut), dbLow, snapshot);
      var halfHigh := Restored(high, ShardRange(cut + 1, whole.upper), dbHigh, snapshot);
      var merged := Restored(dst, whole, target, [Written(halfLow, core, low), Written(halfHigh, core, high)]);
      forall i :: 0 <= i < |dst| ==>
        var m := EntitiesNamed(db, src, dst[i].name);
        TableOf(merged, dst[i].id) == TableState(m, Derived(dst[i].schema, m))
  {
    hide Written, Restored, Derived, ReadStreams, Owned, EntitiesNamed, Serves, Lookup, AllDecode;
    var snapshot := [Written(db, core, src)];
    var boundsLow, boundsHigh := ShardRange(whole.lower, cut), ShardRange(cut + 1, whole.upper);
    var halfLow, halfHigh := Restored(low, boundsLow, dbLow, snapshot), Restored(high, boundsHigh, dbHigh, snapshot);
    RestoredDecodes(db, core, src, dbLow, low, boundsLow);
    RestoredDecodes(db, core, src, dbHigh, high, boundsHigh);
    forall i | 0 <= i < |dst|
      ensures
        var s, m := dst[i], EntitiesNamed(db, src, dst[i].name);
        Owned(s.schema, EntitiesNamed(halfLow, low, s.name), whole) +
          Owned(s.schema, EntitiesNamed(halfHigh, high, s.name), whole) == m
    {
      LookupName(dst, i);
      ServedBack(low, dst, i);
      ServedBack(high, dst, i);
      HalfNamed(db, core, src, dbLow, low, boundsLow, dst[i]);
      HalfNamed(db, core, src, dbHigh, high, boundsHigh, dst[i]);
      NamedOwned(db, src, low, dst, i, whole);
      OwnedTwice(dst[i].schema, EntitiesNamed(db, src, dst[i].name), whole, cut);
    }
    MergeIsUnion(halfLow, core, low, halfHigh, core, high, target, dst, whole);
  }

  /** A section of the same name has the same schema, read either way. */
  lemma ServedBack(half: seq<Section>, dst: seq<Section>, i: nat)
    requires SameApplication(half, dst) && i < |dst| && Lookup(dst, dst[i].name) == Some(i)
    ensures Lookup(half, dst[i].name).Some? ==> Serves(half, dst[i])
  {
    var j := Lookup(half, dst[i].name);
    if j.Some? { assert half[j.value] in half; }
  }

  ghost predicate AllOwned(schema: Schema, m: Entities, whole: ShardRange) {
    forall k :: k in m ==> whole.Owns(schema.shardOf(k, m[k]))
  }

  lemma NamedOwned(db: Database, src: seq<Section>, half: seq<Section>, dst: seq<Section>, i: nat, whole: ShardRange)
    requires SameApplication(src, half) && SameApplication(half, dst) && i < |dst|
    requires Lookup(dst, dst[i].name) == Some(i)
    requires forall i, k :: 0 <= i < |src| && k in TableOf(db, src[i].id).primary ==>
      whole.Owns(src[i].schema.shardOf(k, TableOf(db, src[i].id).primary[k]))
    ensures AllOwned(dst[i].schema, EntitiesNamed(db, src, dst[i].name), whole)
  {
    var j := Lookup(src, dst[i].name);
    if j.Some? {
      assert src[j.value] in src;
      var h := Lookup(half, dst[i].name);
      assert half[h.value] in half;
    }
  }

  /** The two halves of a set of entities, filtered again by the whole range, are the whole. */
  lemma OwnedTwice(schema: Schema, m: Entities, whole: ShardRange, cut: nat)
    requires whole.lower <= cut < whole.upper && AllOwned(schema, m, whole)
    ensures
      var low := Owned(schema, m, ShardRange(whole.lower, cut));
      var high := Owned(schema, m, ShardRange(cut + 1, whole.upper));
      Owned(schema, low, whole) + Owned(schema, high, whole) == m
  {
    SplitIsPartition(schema, m, whole, cut);
    var low, high := Owned(schema, m, ShardRange(whole.lower, cut)), Owned(schema, m, ShardRange(cut + 1, whole.upper));
    assert Owned(schema, low, whole) == low && Owned(schema, high, whole) == high;
  }
}
