/**
 Portable snapshots: writing a core's primary entities as a frame stream, and restoring streams into
 another core with shard filtering and chunked commits.

 A portable table keeps primary rows and a secondary index derived from them. Its schema says which
 entities decode, which shard key an entity has, and which index tags it gets.
 */
module Portable {
  import opened Bytes

  const RESTORE_TXN_CHUNK: nat := 512

  datatype ShardRange = ShardRange(lower: nat, upper: nat) {
    predicate Owns(shardKey: nat) { lower <= shardKey <= upper }
  }

  datatype Schema = Schema(
    decodes: (Bytes, Bytes) -> bool,
    shardOf: (Bytes, Bytes) -> nat,
    tagsOf: (Bytes, Bytes) -> set<Bytes>)

  datatype Section = Section(name: string, id: nat, schema: Schema)

  // ---- Tables -------------------------------------------------------------

  type Entities = map<Bytes, Bytes>

  /** An index row: a tag and the key of the entity it leads to. */
  datatype IndexRow = IndexRow(tag: Bytes, key: Bytes)

  datatype TableState = TableState(primary: Entities, index: set<IndexRow>)

  const EMPTY := TableState(map[], {})

  type Database = map<nat, TableState>

  function TableOf(db: Database, id: nat): (t: TableState) { if id in db then db[id] else EMPTY }

  function RowsOf(schema: Schema, key: Bytes, value: Bytes): (rows: set<IndexRow>) {
    set tag | tag in schema.tagsOf(key, value) :: IndexRow(tag, key)
  }

  /** The index that the entities call for. */
  function Derived(schema: Schema, entities: Entities): (rows: set<IndexRow>) {
    set k, tag | k in entities && tag in schema.tagsOf(k, entities[k]) :: IndexRow(tag, k)
  }

  /** The table's normal write path: replaces the row, takes down its old index rows, puts up the new. */
  function Insert(schema: Schema, t: TableState, key: Bytes, value: Bytes): (t': TableState) {
    var stale := if key in t.primary then RowsOf(schema, key, t.primary[key]) else {};
    TableState(t.primary[key := value], t.index - stale + RowsOf(schema, key, value))
  }

  /** An insertion replaces the entity's last version, whose index rows go; all other rows stay. */
  lemma InsertedRows(schema: Schema, t: TableState, key: Bytes, value: Bytes)
    ensures
      var t' := Insert(schema, t, key, value);
      && t'.primary == t.primary[key := value]
      && forall tag, k :: IndexRow(tag, k) in t'.index <==>
        if k == key && tag in schema.tagsOf(key, value) then true
        else if k == key && key in t.primary && tag in schema.tagsOf(key, t.primary[key]) then false
        else IndexRow(tag, k) in t.index
  {}

  lemma InsertKeepsIndex(schema: Schema, t: TableState, key: Bytes, value: Bytes)
    requires t.index == Derived(schema, t.primary)
    ensures
      var t' := Insert(schema, t, key, value);
      t'.index == Derived(schema, t'.primary)
  {
    var t' := Insert(schema, t, key, value);
    forall r ensures r in t'.index <==> r in Derived(schema, t'.primary) {
      if r.key != key {
        assert r in t.index <==> r in t'.index;
        assert r.key in t.primary <==> r.key in t'.primary;
      } else {
        assert r in t.index ==> key in t.primary && r in RowsOf(schema, key, t.primary[key]);
      }
    }
  }

  // ---- Streams ------------------------------------------------------------

  datatype Frame = Meta(metaName: string, data: string) | TableStart(name: string) | Record(key: Bytes, value: Bytes)

  /** What a reader yields: frames, then the end of the stream or a read error. */
  datatype Stream = Stream(frames: seq<Frame>, clean: bool)

  datatype RestoreError = UnknownTable(name: string) | BadRecord(table: string) | ReadFailed | StoreFailed

  /** An entity accepted by a section. */
  datatype Kept = Kept(section: nat, key: Bytes, value: Bytes)

  /** The section a name stands for: the last one declared with it. */
  function Lookup(sections: seq<Section>, name: string): (r: Option<nat>)
    ensures r.Some? ==> r.value < |sections| && sections[r.value].name == name
    ensures r.Some? ==> forall j :: r.value < j < |sections| ==> sections[j].name != name
    ensures r.None? ==> forall s :: s in sections ==> s.name != name
  {
    if sections == [] then None
    else
      var n := |sections| - 1;
      assert sections == sections[..n] + [sections[n]];
      if sections[n].name == name then Some(n) else Lookup(sections[..n], name)
  }

  /** Reading frames: the entities kept, the table being read at the end, and the error that stopped it. */
  datatype Run = Run(kept: seq<Kept>, table: string, error: Option<RestoreError>)

  function ReadFrame(sections: seq<Section>, bounds: ShardRange, table: string, frame: Frame): (r: Run) {
    match frame
    case Meta(_, _) => Run([], table, None)
    case TableStart(name) => Run([], name, None)
    case Record(key, value) =>
      var sec := Lookup(sections, table);
      if sec.None? then Run([], table, Some(UnknownTable(table)))
      else
        var s := sections[sec.value];
        if !s.schema.decodes(key, value) then Run([], table, Some(BadRecord(table)))
        else if !bounds.Owns(s.schema.shardOf(key, value)) then Run([], table, None)
        else Run([Kept(sec.value, key, value)], table, None)
  }

  function ReadFrames(sections: seq<Section>, bounds: ShardRange, table: string, frames: seq<Frame>): (r: Run)
    decreases |frames|
  {
    if frames == [] then Run([], table, None)
    else
      var first := ReadFrame(sections, bounds, table, frames[0]);
      if first.error.Some? then first
      else
        var rest := ReadFrames(sections, bounds, first.table, frames[1..]);
        Run(first.kept + rest.kept, rest.table, rest.error)
  }

  /** Every stream starts without a table; a read error comes after the frames read. */
  function ReadStream(sections: seq<Section>, bounds: ShardRange, s: Stream): (r: Run) {
    var r := ReadFrames(sections, bounds, "", s.frames);
    if r.error.None? && !s.clean then r.(error := Some(ReadFailed)) else r
  }

  function ReadStreams(sections: seq<Section>, bounds: ShardRange, streams: seq<Stream>): (r: Run)
    decreases |streams|
  {
    if streams == [] then Run([], "", None)
    else
      var first := ReadStream(sections, bounds, streams[0]);
      if first.error.Some? then first
      else
        var rest := ReadStreams(sections, bounds, streams[1..]);
        Run(first.kept + rest.kept, rest.table, rest.error)
  }

  predicate InSections(kept: seq<Kept>, n: nat) { forall e :: e in kept ==> e.section < n }

  lemma {:induction false} ReadFramesInSections(sections: seq<Section>, bounds: ShardRange, table: string,
                                                frames: seq<Frame>)
    ensures InSections(ReadFrames(sections, bounds, table, frames).kept, |sections|)
    decreases |frames|
  {
    if frames != [] {
      var first := ReadFrame(sections, bounds, table, frames[0]);
      ReadFramesInSections(sections, bounds, first.table, frames[1..]);
    }
  }

  lemma {:induction false} ReadStreamsInSections(sections: seq<Section>, bounds: ShardRange, streams: seq<Stream>)
    ensures InSections(ReadStreams(sections, bounds, streams).kept, |sections|)
    decreases |streams|
  {
    if streams != [] {
      ReadFramesInSections(sections, bounds, "", streams[0].frames);
      ReadStreamsInSections(sections, bounds, streams[1..]);
    }
  }

  // ---- Replaying kept entities --------------------------------------------

  function Cleared(db: Database, sections: seq<Section>): (db': Database)
    decreases |sections|
  {
    if sections == [] then db else Cleared(db[sections[0].id := EMPTY], sections[1..])
  }

  function InsertInto(sections: seq<Section>, db: Database, e: Kept): (db': Database)
    requires e.section < |sections|
  {
    var s := sections[e.section];
    db[s.id := Insert(s.schema, TableOf(db, s.id), e.key, e.value)]
  }

  /** Only the section's own table changes; one that is not there yet is filled from empty. */
  lemma InsertedInto(sections: seq<Section>, db: Database, e: Kept)
    requires e.section < |sections|
    ensures
      var id, db' := sections[e.section].id, InsertInto(sections, db, e);
      && id in db' && db' == db[id := db'[id]]
      && db'[id].primary == (if id in db then db[id].primary else map[])[e.key := e.value]
      && forall tag, k :: k != e.key ==>
        (IndexRow(tag, k) in db'[id].index <==> id in db && IndexRow(tag, k) in db[id].index)
  {}

  /** One pass over the kept entities, without chunks. */
  function Replay(sections: seq<Section>, db: Database, kept: seq<Kept>): (db': Database)
    requires InSections(kept, |sections|)
    decreases |kept|
  {
    if kept == [] then db
    else
      var n := |kept| - 1;
      assert kept[n] in kept;
      InsertInto(sections, Replay(sections, db, kept[..n]), kept[n])
  }

  lemma ReplayAppend(sections: seq<Section>, db: Database, kept: seq<Kept>, e: Kept)
    requires InSections(kept, |sections|) && e.section < |sections|
    ensures InSections(kept + [e], |sections|)
    ensures Replay(sections, db, kept + [e]) == InsertInto(sections, Replay(sections, db, kept), e)
  {
    assert (kept + [e])[..|kept|] == kept;
  }

  /** The database after a successful restore: one unchunked pass over the cleared tables. */
  function Restored(sections: seq<Section>, bounds: ShardRange, db: Database, streams: seq<Stream>): (db': Database) {
    ReadStreamsInSections(sections, bounds, streams);
    Replay(sections, Cleared(db, sections), ReadStreams(sections, bounds, streams).kept)
  }

  /** The entities of one section after a pass over an empty table. */
  function Final(kept: seq<Kept>, i: nat): (m: Entities) {
    if kept == [] then map[]
    else
      var n := |kept| - 1;
      var m := Final(kept[..n], i);
      if kept[n].section == i then m[kept[n].key := kept[n].value] else m
  }

  predicate DistinctIds(sections: seq<Section>) {
    forall i, j :: 0 <= i < j < |sections| ==> sections[i].id != sections[j].id
  }

  predicate DistinctNames(sections: seq<Section>) {
    forall i, j :: 0 <= i < j < |sections| ==> sections[i].name != sections[j].name
  }

  lemma {:induction false} ClearedTables(db: Database, sections: seq<Section>)
    ensures forall s :: s in sections ==> TableOf(Cleared(db, sections), s.id) == EMPTY
    ensures forall id :: TableOf(db, id) == EMPTY ==> TableOf(Cleared(db, sections), id) == EMPTY
    ensures forall id ::
      (forall s :: s in sections ==> s.id != id) ==> TableOf(Cleared(db, sections), id) == TableOf(db, id)
    decreases |sections|
  {
    if sections != [] { ClearedTables(db[sections[0].id := EMPTY], sections[1..]); }
  }

  /**
   After a pass over cleared tables each section holds its last version of every kept entity, with
   exactly the index rows derived from them; no other table changes.
   */
  lemma {:induction false} ReplayedState(sections: seq<Section>, db: Database, kept: seq<Kept>)
    requires DistinctIds(sections) && InSections(kept, |sections|)
    requires forall s :: s in sections ==> TableOf(db, s.id) == EMPTY
    ensures forall i :: 0 <= i < |sections| ==>
      TableOf(Replay(sections, db, kept), sections[i].id) ==
      TableState(Final(kept, i), Derived(sections[i].schema, Final(kept, i)))
    ensures forall id :: (forall s :: s in sections ==> s.id != id) ==>
      TableOf(Replay(sections, db, kept), id) == TableOf(db, id)
    decreases |kept|
  {
    hide Insert, Derived;
    if kept == [] {
      forall i | 0 <= i < |sections|
        ensures TableOf(db, sections[i].id) == TableState(map[], Derived(sections[i].schema, map[]))
      {
        assert sections[i] in sections;
        DerivedOfNone(sections[i].schema);
      }
    } else {
      var n := |kept| - 1;
      var e := kept[n];
      assert e in kept;
      ReplayedState(sections, db, kept[..n]);
      var before := Replay(sections, db, kept[..n]);
      var s := sections[e.section];
      assert s in sections;
      InsertKeepsIndex(s.schema, TableOf(before, s.id), e.key, e.value);
      InsertedRows(s.schema, TableOf(before, s.id), e.key, e.value);
    }
  }

  lemma DerivedOfNone(schema: Schema)
    ensures Derived(schema, map[]) == {}
  {}
}
