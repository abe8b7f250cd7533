/** Writing and restoring snapshots step by step, and what a restore as a whole does. */
module PortableRestore {
  import opened Bytes
  import opened Lex
  import opened Portable

  // ---- Writing ------------------------------------------------------------

  function Records(entities: Entities, ks: seq<Bytes>): (fs: seq<Frame>)
    requires forall k :: k in ks ==> k in entities
    ensures |fs| == |ks|
  {
    seq(|ks|, i requires 0 <= i < |ks| => (assert ks[i] in ks; Record(ks[i], entities[ks[i]])))
  }

  /** One section: its name, then its primary entities in key order. */
  function SectionFrames(db: Database, s: Section): (fs: seq<Frame>) {
    var entities := TableOf(db, s.id).primary;
    [TableStart(s.name)] + Records(entities, Sorted(entities.Keys))
  }

  function AllSectionFrames(db: Database, sections: seq<Section>): (fs: seq<Frame>)
    decreases |sections|
  {
    if sections == [] then [] else SectionFrames(db, sections[0]) + AllSectionFrames(db, sections[1..])
  }

  function Written(db: Database, coreName: string, sections: seq<Section>): (s: Stream) {
    Stream([Meta("core", coreName)] + AllSectionFrames(db, sections), true)
  }

  method WriteSection(db: Database, s: Section, frames: seq<Frame>) returns (r: seq<Frame>)
    ensures r == frames + SectionFrames(db, s)
  {
    hide Sorted;
    r := frames + [TableStart(s.name)];
    var entities := TableOf(db, s.id).primary;
    var ks := Sorted(entities.Keys);
    for j := 0 to |ks|
      invariant r == frames + [TableStart(s.name)] + Records(entities, ks)[..j]
    {
      assert ks[j] in ks;
      r := r + [Record(ks[j], entities[ks[j]])];
    }
  }

  predicate IsRecordOf(frame: Frame, m: Entities) {
    frame.Record? && frame.key in m && frame.value == m[frame.key]
  }

  predicate RecordsOf(frames: seq<Frame>, from: int, to: int, m: Entities) {
    0 <= from <= to <= |frames| && forall f :: from < f < to ==> IsRecordOf(frames[f], m)
  }

  predicate InKeyOrder(frames: seq<Frame>, from: int, to: int, m: Entities)
    requires RecordsOf(frames, from, to, m)
  {
    forall f, g :: from < f < g < to ==> Lt(frames[f].key, frames[g].key)
  }

  predicate HasKey(frames: seq<Frame>, from: int, to: int, m: Entities, k: Bytes)
    requires RecordsOf(frames, from, to, m)
  {
    exists f :: from < f < to && frames[f].key == k
  }

  /** The frames between the two positions: the name, then one record for each entity, in strict key order. */
  ghost predicate IsSection(frames: seq<Frame>, from: int, to: int, name: string, m: Entities) {
    && from < to && RecordsOf(frames, from, to, m) && frames[from] == TableStart(name)
    && InKeyOrder(frames, from, to, m) && forall k :: k in m ==> HasKey(frames, from, to, m, k)
  }

  lemma OneSection(db: Database, s: Section)
    ensures IsSection(SectionFrames(db, s), 0, |SectionFrames(db, s)|, s.name,
                      if s.id in db then db[s.id].primary else map[])
  {
    hide Sorted, Ascending, IsSection, Records;
    var m := TableOf(db, s.id).primary;
    SortedRecords(s.name, m, Sorted(m.Keys));
  }

  lemma SortedRecords(name: string, m: Entities, ks: seq<Bytes>)
    requires Ascending(ks) && forall k :: k in ks <==> k in m.Keys
    ensures var frames := [TableStart(name)] + Records(m, ks); IsSection(frames, 0, |frames|, name, m)
  {
    hide Lt;
    var frames := [TableStart(name)] + Records(m, ks);
    forall f | 0 < f < |frames| ensures frames[f] == Record(ks[f - 1], m[ks[f - 1]]) && IsRecordOf(frames[f], m) {
      assert ks[f - 1] in ks;
    }
    forall k | k in m ensures HasKey(frames, 0, |frames|, m, k) {
      var i :| 0 <= i < |ks| && ks[i] == k;
      assert frames[i + 1].key == k;
    }
  }

  /** A section stays one with frames before it and after it. */
  lemma SectionWithin(a: seq<Frame>, b: seq<Frame>, c: seq<Frame>, from: int, to: int, name: string, m: Entities)
    requires IsSection(b, from, to, name, m)
    ensures IsSection(a + b + c, |a| + from, |a| + to, name, m)
  {
    hide Lt;
    var n, all := |a|, a + b + c;
    assert forall f :: n <= f < n + |b| ==> all[f] == b[f - n];
    forall f | n + from < f < n + to ensures IsRecordOf(all[f], m) { assert IsRecordOf(b[f - n], m); }
    forall f, g | n + from < f < g < n + to ensures Lt(all[f].key, all[g].key) {
      assert Lt(b[f - n].key, b[g - n].key);
    }
    forall k | k in m ensures HasKey(all, n + from, n + to, m, k) {
      assert HasKey(b, from, to, m, k);
      var f :| from < f < to && b[f].key == k;
      assert all[n + f].key == k;
    }
  }

  /** Each section stands between its start and its stop, where the next one starts. */
  ghost predicate LaidOut(frames: seq<Frame>, first: nat, starts: seq<nat>, stops: seq<nat>, db: Database,
                          sections: seq<Section>)
  {
    && |starts| == |stops| == |sections|
    && (forall i :: 0 <= i < |sections| ==> starts[i] == if i == 0 then first else stops[i - 1])
    && |frames| == (if sections == [] then first else stops[|sections| - 1])
    && forall i :: 0 <= i < |sections| ==>
      var id := sections[i].id;
      IsSection(frames, starts[i], stops[i], sections[i].name, if id in db then db[id].primary else map[])
  }

  lemma LaidOutCons(frames: seq<Frame>, first: nat, next: nat, starts: seq<nat>, stops: seq<nat>, db: Database,
                    sections: seq<Section>)
    requires sections != [] && LaidOut(frames, next, starts, stops, db, sections[1..])
    requires var s := sections[0];
      IsSection(frames, first, next, s.name, if s.id in db then db[s.id].primary else map[])
    ensures LaidOut(frames, first, [first] + starts, [next] + stops, db, sections)
  {
    hide IsSection;
    var starts', stops' := [first] + starts, [next] + stops;
    forall i | 1 <= i < |sections|
      ensures sections[i] == sections[1..][i - 1] && starts'[i] == starts[i - 1] && stops'[i] == stops[i - 1]
    {}
  }

  lemma {:induction false} SectionsLaidOut(db: Database, before: seq<Frame>, sections: seq<Section>)
    returns (starts: seq<nat>, stops: seq<nat>)
    ensures LaidOut(before + AllSectionFrames(db, sections), |before|, starts, stops, db, sections)
    decreases |sections|
  {
    hide IsSection, SectionFrames;
    if sections == [] {
      starts, stops := [], [];
    } else {
      hide LaidOut;
      var s, own, rest := sections[0], SectionFrames(db, sections[0]), AllSectionFrames(db, sections[1..]);
      OneSection(db, s);
      SectionWithin(before, own, rest, 0, |own|, s.name, if s.id in db then db[s.id].primary else map[]);
      Regroup(before, own, rest);
      starts, stops := SectionsLaidOut(db, before + own, sections[1..]);
      LaidOutCons(before + own + rest, |before|, |before| + |own|, starts, stops, db, sections);
      starts, stops := [|before|] + starts, [|before| + |own|] + stops;
    }
  }

  /** A written snapshot is the core's name, then the sections in declared order, and nothing else. */
  lemma WrittenFrames(db: Database, coreName: string, sections: seq<Section>)
    returns (starts: seq<nat>, stops: seq<nat>)
    ensures var s := Written(db, coreName, sections);
      && s.clean && s.frames != [] && s.frames[0] == Meta("core", coreName)
      && LaidOut(s.frames, 1, starts, stops, db, sections)
  {
    hide LaidOut, AllSectionFrames;
    starts, stops := SectionsLaidOut(db, [Meta("core", coreName)], sections);
  }

  /** The i-th section's frames go from the i-th start up to the i-th stop, where the next begins. */
  method WriteSnapshot(db: Database, coreName: string, sections: seq<Section>)
    returns (s: Stream, ghost starts: seq<nat>, ghost stops: seq<nat>)
    ensures s == Written(db, coreName, sections)
    ensures s.clean && s.frames != [] && s.frames[0] == Meta("core", coreName)
    ensures LaidOut(s.frames, 1, starts, stops, db, sections)
  {
    hide SectionFrames, AllSectionFrames, LaidOut;
    starts, stops := WrittenFrames(db, coreName, sections);
    var frames := [Meta("core", coreName)];
    AllFrom(db, sections, 0);
    for i := 0 to |sections|
      invariant frames + AllSectionFrames(db, sections[i..]) == Written(db, coreName, sections).frames
    {
      AllFrom(db, sections, i);
      Regroup(frames, SectionFrames(db, sections[i]), AllSectionFrames(db, sections[i + 1..]));
      frames := WriteSection(db, sections[i], frames);
    }
    AllFrom(db, sections, |sections|);
    s := Stream(frames, true);
  }

  lemma AllFrom(db: Database, sections: seq<Section>, i: nat)
    requires i <= |sections|
    ensures sections[0..] == sections
    ensures AllSectionFrames(db, sections[i..]) ==
      if i == |sections| then [] else SectionFrames(db, sections[i]) + AllSectionFrames(db, sections[i + 1..])
  {
    if i < |sections| { assert sections[i..][1..] == sections[i + 1..]; }
  }

  // ---- Restoring ----------------------------------------------------------

  class BadgerStore {
    var tables: Database

    constructor (tables: Database)
      ensures this.tables == tables
    {
      this.tables := tables;
    }
  }

  /** A write transaction: it reads its own writes, and nothing is durable before the commit. */
  class StoreTxn {
    var tables: Database

    constructor (store: BadgerStore)
      ensures tables == store.tables
    {
      tables := store.tables;
    }

    /** `insertOk` says whether the transaction takes the rows of an insertion. */
    method RestoreEntity(sections: seq<Section>, i: nat, key: Bytes, value: Bytes, bounds: ShardRange, insertOk: bool)
      returns (r: Result<bool, RestoreError>)
      requires i < |sections|
      modifies this
      ensures tables == if r.Ok? && r.value then InsertInto(sections, old(tables), Kept(i, key, value)) else old(tables)
      // the entity is inserted exactly if it decodes, lies in the bounds, ends included, and fits the transaction
      ensures var s := sections[i];
        && (r.Err? <==>
          (s.schema.decodes(key, value) ==> bounds.lower <= s.schema.shardOf(key, value) <= bounds.upper && !insertOk))
        && (r.Err? ==> r.error == if s.schema.decodes(key, value) then StoreFailed else BadRecord(s.name))
        && (r.Ok? ==> (r.value <==> bounds.lower <= s.schema.shardOf(key, value) <= bounds.upper))
      ensures !(r.Ok? && r.value) ==> tables == old(tables)
    {
      var s := sections[i];
      if !s.schema.decodes(key, value) {
        return Err(BadRecord(s.name));
      }
      if !bounds.Owns(s.schema.shardOf(key, value)) {
        return Ok(false);
      }
      if !insertOk {
        return Err(StoreFailed);
      }
      tables := tables[s.id := Insert(s.schema, TableOf(tables, s.id), key, value)];
      return Ok(true);
    }
  }

  /** What the readers still hold: the rest of the current stream, then the streams after it. */
  function RestOf(sections: seq<Section>, bounds: ShardRange, table: string, frames: seq<Frame>, clean: bool,
                  streams: seq<Stream>): (r: Run)
  {
    var r := ReadFrames(sections, bounds, table, frames);
    if r.error.Some? then r
    else if !clean then r.(error := Some(ReadFailed))
    else
      var t := ReadStreams(sections, bounds, streams);
      Run(r.kept + t.kept, t.table, t.error)
  }

  lemma RestOfStream(sections: seq<Section>, bounds: ShardRange, streams: seq<Stream>)
    requires streams != []
    ensures
      var r := RestOf(sections, bounds, "", streams[0].frames, streams[0].clean, streams[1..]);
      var t := ReadStreams(sections, bounds, streams);
      r.kept == t.kept && r.error == t.error
  {}

  lemma ErrorKeepsNone(sections: seq<Section>, bounds: ShardRange, table: string, frame: Frame)
    ensures
      var r := ReadFrame(sections, bounds, table, frame);
      r.error.Some? ==> r.kept == []
  {}

  lemma RestOfFrames(sections: seq<Section>, bounds: ShardRange, table: string, frames: seq<Frame>, clean: bool,
                     streams: seq<Stream>)
    requires frames != []
    ensures
      var r := RestOf(sections, bounds, table, frames, clean, streams);
      var first := ReadFrame(sections, bounds, table, frames[0]);
      if first.error.Some? then r.error == first.error && r.kept == first.kept == []
      else
        var t := RestOf(sections, bounds, first.table, frames[1..], clean, streams);
        r.kept == first.kept + t.kept && r.error == t.error
  {
    hide ReadFrame, ReadStreams;
    ErrorKeepsNone(sections, bounds, table, frames[0]);
    var first := ReadFrame(sections, bounds, table, frames[0]);
    if first.error.None? {
      var r := ReadFrames(sections, bounds, first.table, frames[1..]);
      var t := ReadStreams(sections, bounds, streams);
      assert (first.kept + r.kept) + t.kept == first.kept + (r.kept + t.kept);
    }
  }

  lemma StreamAt(sections: seq<Section>, bounds: ShardRange, streams: seq<Stream>, i: nat)
    requires i < |streams|
    ensures
      var r := RestOf(sections, bounds, "", streams[i].frames[0..], streams[i].clean, streams[i + 1..]);
      var t := ReadStreams(sections, bounds, streams[i..]);
      r.kept == t.kept && r.error == t.error
  {
    hide RestOf, ReadStreams;
    assert streams[i..][1..] == streams[i + 1..] && streams[i].frames[0..] == streams[i].frames;
    RestOfStream(sections, bounds, streams[i..]);
  }

  lemma FrameAt(sections: seq<Section>, bounds: ShardRange, table: string, frames: seq<Frame>, i: nat, clean: bool,
                streams: seq<Stream>)
    requires i < |frames|
    ensures
      var r := RestOf(sections, bounds, table, frames[i..], clean, streams);
      var first := ReadFrame(sections, bounds, table, frames[i]);
      if first.error.Some? then r.error == first.error && r.kept == first.kept == []
      else
        var t := RestOf(sections, bounds, first.table, frames[i + 1..], clean, streams);
        r.kept == first.kept + t.kept && r.error == t.error
  {
    hide RestOf, ReadFrame;
    assert frames[i..][1..] == frames[i + 1..];
    RestOfFrames(sections, bounds, table, frames[i..], clean, streams);
  }

  lemma RestOfNone(sections: seq<Section>, bounds: ShardRange, table: string, clean: bool, streams: seq<Stream>)
    ensures
      var r := RestOf(sections, bounds, table, [], clean, streams);
      var t := ReadStreams(sections, bounds, streams);
      if !clean then r.error == Some(ReadFailed) && r.kept == []
      else r.kept == t.kept && r.error == t.error
  {}

  /**
   A restore under way: of everything the streams hold, `kept` has been inserted and `rest` is still
   to come; the store has all committed chunks, the open transaction all of `kept`.
   */
  ghost predicate Restoring(sections: seq<Section>, base: Database, all: Run, rest: Run, kept: seq<Kept>,
                            commits: nat, pending: nat, stored: Database, open: Database)
  {
    var durable := RESTORE_TXN_CHUNK * commits;
    && InSections(all.kept, |sections|)
    && all.kept == kept + rest.kept && all.error == rest.error
    && |kept| == durable + pending && pending <= RESTORE_TXN_CHUNK
    && InSections(kept, |sections|) && InSections(kept[..durable], |sections|)
    && stored == Replay(sections, base, kept[..durable])
    && open == Replay(sections, base, kept)
  }

  /** The store holds the first n kept entities. */
  ghost predicate Holds(sections: seq<Section>, base: Database, all: Run, n: nat, stored: Database) {
    n <= |all.kept| && InSections(all.kept[..n], |sections|) && stored == Replay(sections, base, all.kept[..n])
  }

  lemma RestoringStart(sections: seq<Section>, base: Database, all: Run)
    requires InSections(all.kept, |sections|)
    ensures Restoring(sections, base, all, all, [], 0, 0, base, base)
  {}

  /** Reading something that keeps no entity. */
  lemma RestoringSkip(sections: seq<Section>, base: Database, all: Run, rest: Run, kept: seq<Kept>, commits: nat,
                      pending: nat, stored: Database, open: Database, rest': Run)
    requires Restoring(sections, base, all, rest, kept, commits, pending, stored, open)
    requires rest.kept == rest'.kept && rest.error == rest'.error
    ensures Restoring(sections, base, all, rest', kept, commits, pending, stored, open)
  {}

  lemma RestoringInsert(sections: seq<Section>, base: Database, all: Run, rest: Run, kept: seq<Kept>, commits: nat,
                        pending: nat, stored: Database, open: Database, e: Kept, rest': Run)
    requires Restoring(sections, base, all, rest, kept, commits, pending, stored, open)
    requires e.section < |sections| && pending < RESTORE_TXN_CHUNK
    requires rest.kept == [e] + rest'.kept && rest.error == rest'.error
    ensures
      var open' := InsertInto(sections, open, e);
      Restoring(sections, base, all, rest', kept + [e], commits, pending + 1, stored, open')
  {
    hide Replay, InsertInto;
    ReplayAppend(sections, base, kept, e);
    assert (kept + [e])[..RESTORE_TXN_CHUNK * commits] == kept[..RESTORE_TXN_CHUNK * commits];
    assert kept + ([e] + rest'.kept) == (kept + [e]) + rest'.kept;
  }

  lemma RestoringCommit(sections: seq<Section>, base: Database, all: Run, rest: Run, kept: seq<Kept>, commits: nat,
                        pending: nat, stored: Database, open: Database)
    requires Restoring(sections, base, all, rest, kept, commits, pending, stored, open)
    requires pending == RESTORE_TXN_CHUNK
    ensures Restoring(sections, base, all, rest, kept, commits + 1, 0, open, open)
  {
    assert kept[..|kept|] == kept;
  }

  lemma ClearedAppend(db: Database, sections: seq<Section>, s: Section)
    ensures Cleared(db, sections + [s]) == Cleared(db, sections)[s.id := EMPTY]
    decreases |sections|
  {
    if sections == [] {
      assert [s][1..] == [];
    } else {
      ClearedAppend(db[sections[0].id := EMPTY], sections[1..], s);
      assert (sections + [s])[1..] == sections[1..] + [s];
    }
  }

  /** Which store operations succeed: clearing the i-th table, the i-th insertion, the n-th commit, the flatten. */
  datatype Faults = Faults(clearOk: nat -> bool, insertOk: nat -> bool, commitOk: nat -> bool, flattenOk: bool)

  predicate CommitsUpTo(faults: Faults, n: nat) { forall i :: 0 <= i < n ==> faults.commitOk(i) }

  predicate FirstFailure(faults: Faults, n: nat) { CommitsUpTo(faults, n) && !faults.commitOk(n) }

  /**
   How a restore that got past clearing ends. The store holds the first `durable` of the k kept entities. If
   the n-th chunk's commit is the first to fail, these are the n chunks before it. Otherwise a read error leaves
   the full chunks, and without one everything is durable.
   */
  predicate Ending(k: nat, error: Option<RestoreError>, faults: Faults, err: Option<RestoreError>, durable: nat) {
    var full := k / RESTORE_TXN_CHUNK;
    && (forall n :: 0 <= n <= full && FirstFailure(faults, n) && (n < full || error.None?) ==>
      err == Some(StoreFailed) && durable == RESTORE_TXN_CHUNK * n)
    && (CommitsUpTo(faults, full) && error.Some? ==> err == error && durable == RESTORE_TXN_CHUNK * full)
    && (CommitsUpTo(faults, full + 1) && error.None? ==>
      err == (if faults.flattenOk then None else Some(StoreFailed)) && durable == k)
    && (err.None? ==> error.None? && durable == k)
  }

  predicate InsertsUpTo(faults: Faults, n: nat) { forall i :: 0 <= i < n ==> faults.insertOk(i) }

  /** Every commit and insertion up to here has succeeded. */
  predicate Undisturbed(faults: Faults, commits: nat, pending: nat) {
    CommitsUpTo(faults, commits) && InsertsUpTo(faults, RESTORE_TXN_CHUNK * commits + pending)
  }

  /** How many of k insertions succeed before one fails. */
  function Inserted(faults: Faults, k: nat): (n: nat)
    ensures n <= k && InsertsUpTo(faults, n) && (n < k ==> !faults.insertOk(n))
  {
    if k == 0 then 0
    else
      var n := Inserted(faults, k - 1);
      if n == k - 1 && faults.insertOk(n) then k else n
  }

  /** A failing insertion stops a restore as a read error in its place would. */
  predicate Outcome(all: Run, faults: Faults, err: Option<RestoreError>, durable: nat) {
    var n := Inserted(faults, |all.kept|);
    Ending(n, if n < |all.kept| then Some(StoreFailed) else all.error, faults, err, durable)
  }

  /** What that comes to: which failure is reported, and how many entities are durable. */
  lemma OutcomeMeaning(all: Run, faults: Faults, err: Option<RestoreError>, durable: nat)
    requires Outcome(all, faults, err, durable)
    ensures
      var k := Inserted(faults, |all.kept|);
      var stopped := if k < |all.kept| then Some(StoreFailed) else all.error;
      && (forall n: nat ::
        (!faults.commitOk(n) && (forall m :: 0 <= m < n ==> faults.commitOk(m)) &&
         (512 * n + 512 <= k || (stopped.None? && 512 * n <= k)))
        ==> err == Some(StoreFailed) && durable == 512 * n)
      && (stopped.Some? && (forall m :: 0 <= m < k / 512 ==> faults.commitOk(m)) ==>
        err == stopped && durable == k - k % 512)
      && (stopped.None? && (forall m :: 0 <= m <= k / 512 ==> faults.commitOk(m)) ==>
        durable == k && err == if faults.flattenOk then None else Some(StoreFailed))
  {
    hide Inserted, InsertsUpTo;
    var k := Inserted(faults, |all.kept|);
    forall n: nat | !faults.commitOk(n) && (forall m :: 0 <= m < n ==> faults.commitOk(m))
      ensures FirstFailure(faults, n)
    {}
  }

  /** A restore succeeds exactly if nothing fails. */
  lemma SucceedsExactly(all: Run, faults: Faults, err: Option<RestoreError>, durable: nat)
    requires Outcome(all, faults, err, durable)
    ensures err.None? <==>
      && all.error.None? && faults.flattenOk
      && (forall i :: 0 <= i < |all.kept| ==> faults.insertOk(i))
      && (forall n :: 0 <= n <= |all.kept| / 512 ==> faults.commitOk(n))
    ensures err.None? ==> durable == |all.kept|
  {
    hide Inserted, FirstFailure;
    var k := Inserted(faults, |all.kept|);
    if err.None? {
      assert k == |all.kept| && InsertsUpTo(faults, k);
      if !CommitsUpTo(faults, k / 512 + 1) {
        var n := FirstFailed(faults, k / 512 + 1);
      }
    }
  }

  lemma {:induction false} FirstFailed(faults: Faults, upTo: nat) returns (n: nat)
    requires !CommitsUpTo(faults, upTo)
    ensures n < upTo && FirstFailure(faults, n)
  {
    if CommitsUpTo(faults, upTo - 1) { n := upTo - 1; } else { n := FirstFailed(faults, upTo - 1); }
  }

  /** A read error leaves the committed chunks. */
  lemma StopReading(sections: seq<Section>, base: Database, all: Run, rest: Run, kept: seq<Kept>, commits: nat,
                    pending: nat, stored: Database, open: Database, faults: Faults)
    requires Restoring(sections, base, all, rest, kept, commits, pending, stored, open)
    requires Undisturbed(faults, commits, pending)
    requires pending < RESTORE_TXN_CHUNK && rest.kept == [] && rest.error.Some?
    ensures Holds(sections, base, all, RESTORE_TXN_CHUNK * commits, stored)
    ensures Outcome(all, faults, rest.error, RESTORE_TXN_CHUNK * commits)
  {
    hide Replay, InSections;
    assert all.kept == kept && all.kept[..RESTORE_TXN_CHUNK * commits] == kept[..RESTORE_TXN_CHUNK * commits];
  }

  /** So does a failed insertion. */
  lemma StopInserting(sections: seq<Section>, base: Database, all: Run, rest: Run, kept: seq<Kept>, commits: nat,
                      pending: nat, stored: Database, open: Database, faults: Faults)
    requires Restoring(sections, base, all, rest, kept, commits, pending, stored, open)
    requires Undisturbed(faults, commits, pending)
    requires pending < RESTORE_TXN_CHUNK && rest.kept != []
    requires !faults.insertOk(RESTORE_TXN_CHUNK * commits + pending)
    ensures Holds(sections, base, all, RESTORE_TXN_CHUNK * commits, stored)
    ensures Outcome(all, faults, Some(StoreFailed), RESTORE_TXN_CHUNK * commits)
  {
    hide Replay, InSections;
    assert all.kept[..RESTORE_TXN_CHUNK * commits] == kept[..RESTORE_TXN_CHUNK * commits];
  }

  /** So does a failed commit, of a full chunk or at the end. */
  lemma StopCommitting(sections: seq<Section>, base: Database, all: Run, rest: Run, kept: seq<Kept>, commits: nat,
                       pending: nat, stored: Database, open: Database, faults: Faults)
    requires Restoring(sections, base, all, rest, kept, commits, pending, stored, open)
    requires Undisturbed(faults, commits, pending) && !faults.commitOk(commits)
    requires pending == RESTORE_TXN_CHUNK || (rest.kept == [] && rest.error.None?)
    ensures Holds(sections, base, all, RESTORE_TXN_CHUNK * commits, stored)
    ensures Outcome(all, faults, Some(StoreFailed), RESTORE_TXN_CHUNK * commits)
  {
    hide Replay, InSections;
    assert all.kept[..RESTORE_TXN_CHUNK * commits] == kept[..RESTORE_TXN_CHUNK * commits];
    OnlyFailure(faults, commits);
  }

  lemma OnlyFailure(faults: Faults, n: nat)
    requires FirstFailure(faults, n)
    ensures forall i :: FirstFailure(faults, i) ==> i == n
    ensures forall i :: i > n ==> !CommitsUpTo(faults, i)
  {}

  /** After the last stream and commit the store holds everything. */
  lemma StopAtEnd(sections: seq<Section>, base: Database, all: Run, rest: Run, kept: seq<Kept>, commits: nat,
                  pending: nat, stored: Database, open: Database, faults: Faults)
    requires Restoring(sections, base, all, rest, kept, commits, pending, stored, open)
    requires Undisturbed(faults, commits, pending) && faults.commitOk(commits)
    requires rest.kept == [] && rest.error.None? && pending < RESTORE_TXN_CHUNK
    ensures Holds(sections, base, all, |all.kept|, open) && all.error.None? && open == Replay(sections, base, all.kept)
    ensures Outcome(all, faults, if faults.flattenOk then None else Some(StoreFailed), |all.kept|)
  {
    assert all.kept[..|all.kept|] == all.kept == kept;
  }

  /** Clears tables in order up to the first that fails. */
  method ClearAll(store: BadgerStore, sections: seq<Section>, faults: Faults) returns (ok: bool, ghost wiped: nat)
    modifies store
    ensures wiped <= |sections| && store.tables == Cleared(old(store.tables), sections[..wiped])
    ensures forall i :: 0 <= i < wiped ==> faults.clearOk(i)
    ensures if wiped < |sections| then !ok && !faults.clearOk(wiped) else ok
  {
    for i := 0 to |sections|
      invariant store.tables == Cleared(old(store.tables), sections[..i])
      invariant forall j :: 0 <= j < i ==> faults.clearOk(j)
    {
      if !faults.clearOk(i) {
        return false, i;
      }
      ClearedAppend(old(store.tables), sections[..i], sections[i]);
      assert sections[..i + 1] == sections[..i] + [sections[i]];
      store.tables := store.tables[sections[i].id := EMPTY];
    }
    return true, |sections|;
  }

  method NameIndex(sections: seq<Section>) returns (byName: map<string, nat>)
    ensures Names(byName, sections)
  {
    byName := map[];
    for i := 0 to |sections|
      invariant Names(byName, sections[..i])
    {
      assert sections[..i + 1][..i] == sections[..i];
      byName := byName[sections[i].name := i];
    }
    assert sections[..|sections|] == sections;
  }

  /** A commit makes the transaction's tables durable and begins the next one, or fails and changes nothing. */
  method Commit(store: BadgerStore, txn: StoreTxn, ok: bool) returns (done: bool, next: StoreTxn)
    modifies store
    ensures done == ok && store.tables == if ok then txn.tables else old(store.tables)
    ensures if ok then fresh(next) && next.tables == store.tables else next == txn
  {
    done, next := ok, txn;
    if ok {
      store.tables := txn.tables;
      next := new StoreTxn(store);
    }
  }

  ghost predicate Names(byName: map<string, nat>, sections: seq<Section>) {
    forall name :: Lookup(sections, name) == if name in byName then Some(byName[name]) else None
  }

  lemma NamesMeaning(byName: map<string, nat>, sections: seq<Section>, name: string)
    requires Names(byName, sections)
    ensures Lookup(sections, name) == if name in byName then Some(byName[name]) else None
  {}

  lemma NextCommit(faults: Faults, commits: nat)
    requires Undisturbed(faults, commits, RESTORE_TXN_CHUNK) && faults.commitOk(commits)
    ensures Undisturbed(faults, commits + 1, 0)
  {}

  lemma NextInsertion(faults: Faults, commits: nat, pending: nat)
    requires Undisturbed(faults, commits, pending) && faults.insertOk(RESTORE_TXN_CHUNK * commits + pending)
    ensures Undisturbed(faults, commits, pending + 1)
  {}

  /** The frames of one stream. Without an error the restore is still under way, at the streams after it. */
  method RestoreStream(store: BadgerStore, sections: seq<Section>, byName: map<string, nat>, bounds: ShardRange,
                       s: Stream, faults: Faults, txn0: StoreTxn, pending0: nat, commits0: nat,
                       ghost base: Database, ghost all: Run, ghost kept0: seq<Kept>, ghost later: seq<Stream>)
    returns (err: Option<RestoreError>, txn: StoreTxn, pending: nat, commits: nat, ghost kept: seq<Kept>)
    requires Names(byName, sections) && pending0 < RESTORE_TXN_CHUNK
    requires Undisturbed(faults, commits0, pending0)
    requires Restoring(sections, base, all, RestOf(sections, bounds, "", s.frames[0..], s.clean, later), kept0,
                       commits0, pending0, store.tables, txn0.tables)
    modifies store, txn0
    ensures txn == txn0 || fresh(txn)
    ensures err.None? ==>
      && pending < RESTORE_TXN_CHUNK && Undisturbed(faults, commits, pending)
      && Restoring(sections, base, all, ReadStreams(sections, bounds, later), kept, commits, pending, store.tables,
                   txn.tables)
    ensures err.Some? ==>
      && Outcome(all, faults, err, RESTORE_TXN_CHUNK * commits)
      && Holds(sections, base, all, RESTORE_TXN_CHUNK * commits, store.tables)
  {
    hide Restoring, ReadFrames, ReadStreams, RestOf, InsertInto, Cleared, Lookup, Replay, Insert,
      TableOf, InSections, Outcome, Names, Undisturbed, ReadFrame, ReadStream, RowsOf, Holds, LaidOut;
    err, txn, pending, commits, kept := None, txn0, pending0, commits0, kept0;
    var table := "";
    for f := 0 to |s.frames|
      invariant txn == txn0 || fresh(txn)
      invariant pending < RESTORE_TXN_CHUNK && Undisturbed(faults, commits, pending)
      invariant Restoring(sections, base, all, RestOf(sections, bounds, table, s.frames[f..], s.clean, later), kept,
                          commits, pending, store.tables, txn.tables)
    {
      var frame := s.frames[f];
      ghost var rest := RestOf(sections, bounds, table, s.frames[f..], s.clean, later);
      ghost var read := ReadFrame(sections, bounds, table, frame);
      ghost var rest' := RestOf(sections, bounds, read.table, s.frames[f + 1..], s.clean, later);
      ghost var stored, open := store.tables, txn.tables;
      FrameAt(sections, bounds, table, s.frames, f, s.clean, later);
      NamesMeaning(byName, sections, table);
      FrameCases(sections, bounds, table, frame);
      if frame.Meta? {
        RestoringSkip(sections, base, all, rest, kept, commits, pending, stored, open, rest');
      } else if frame.TableStart? {
        RestoringSkip(sections, base, all, rest, kept, commits, pending, stored, open, rest');
        table := frame.name;
      } else {
        if table !in byName {
          StopReading(sections, base, all, rest, kept, commits, pending, stored, open, faults);
          err := Some(UnknownTable(table));
          return;
        }
        var res := txn.RestoreEntity(sections, byName[table], frame.key, frame.value, bounds,
                                     faults.insertOk(RESTORE_TXN_CHUNK * commits + pending));
        if res.Err? {
          if sections[byName[table]].schema.decodes(frame.key, frame.value) {
            StopInserting(sections, base, all, rest, kept, commits, pending, stored, open, faults);
          } else {
            StopReading(sections, base, all, rest, kept, commits, pending, stored, open, faults);
          }
          err := Some(res.error);
          return;
        }
        if res.value {
          ghost var e := Kept(byName[table], frame.key, frame.value);
          RestoringInsert(sections, base, all, rest, kept, commits, pending, stored, open, e, rest');
          NextInsertion(faults, commits, pending);
          kept := kept + [e];
          pending := pending + 1;
          if pending >= RESTORE_TXN_CHUNK {
            RestoringCommit(sections, base, all, rest', kept, commits, pending, store.tables, txn.tables);
            var committed, next := Commit(store, txn, faults.commitOk(commits));
            if !committed {
              StopCommitting(sections, base, all, rest', kept, commits, pending, store.tables, txn.tables, faults);
              err := Some(StoreFailed);
              return;
            }
            NextCommit(faults, commits);
            txn := next;
            pending := 0;
            commits := commits + 1;
          }
        } else {
          RestoringSkip(sections, base, all, rest, kept, commits, pending, stored, open, rest');
        }
      }
    }
    ghost var rest := RestOf(sections, bounds, table, s.frames[|s.frames|..], s.clean, later);
    NoFramesLeft(sections, bounds, table, s, later);
    if !s.clean {
      StopReading(sections, base, all, rest, kept, commits, pending, store.tables, txn.tables, faults);
      err := Some(ReadFailed);
      return;
    }
    RestoringSkip(sections, base, all, rest, kept, commits, pending, store.tables, txn.tables,
                  ReadStreams(sections, bounds, later));
  }

  lemma FrameCases(sections: seq<Section>, bounds: ShardRange, table: string, frame: Frame)
    ensures
      var r, i := ReadFrame(sections, bounds, table, frame), Lookup(sections, table);
      match frame
      case Meta(_, _) => r == Run([], table, None)
      case TableStart(name) => r == Run([], name, None)
      case Record(key, value) =>
        if i.None? then r == Run([], table, Some(UnknownTable(table)))
        else
          var schema := sections[i.value].schema;
          if !schema.decodes(key, value) then r == Run([], table, Some(BadRecord(table)))
          else if bounds.lower <= schema.shardOf(key, value) <= bounds.upper then
            r == Run([Kept(i.value, key, value)], table, None)
          else r == Run([], table, None)
  {}

  lemma NoFramesLeft(sections: seq<Section>, bounds: ShardRange, table: string, s: Stream, later: seq<Stream>)
    ensures
      var r := RestOf(sections, bounds, table, s.frames[|s.frames|..], s.clean, later);
      var t := ReadStreams(sections, bounds, later);
      if !s.clean then r.error == Some(ReadFailed) && r.kept == [] else r.kept == t.kept && r.error == t.error
  {
    assert s.frames[|s.frames|..] == [];
    RestOfNone(sections, bounds, table, s.clean, later);
  }

  /** Replays the streams over the cleared tables. */
  method ReplayStreams(store: BadgerStore, sections: seq<Section>, bounds: ShardRange, streams: seq<Stream>,
                       faults: Faults)
    returns (err: Option<RestoreError>, ghost durable: nat)
    modifies store
    ensures var all := ReadStreams(sections, bounds, streams);
      && Outcome(all, faults, err, durable)
      && durable <= |all.kept| && InSections(all.kept[..durable], |sections|)
      && store.tables == Replay(sections, old(store.tables), all.kept[..durable])
  {
    hide Restoring, ReadStreams, RestOf, Cleared, Lookup, Replay, InSections, Outcome, Names, Undisturbed;
    durable := 0;
    var byName := NameIndex(sections);
    ghost var base, all := store.tables, ReadStreams(sections, bounds, streams);
    ReadStreamsInSections(sections, bounds, streams);
    RestoringStart(sections, base, all);
    NoCommits(faults);
    var txn := new StoreTxn(store);
    var pending: nat, commits: nat := 0, 0;
    ghost var kept: seq<Kept> := [];
    assert streams[0..] == streams;
    for r := 0 to |streams|
      invariant fresh(txn)
      invariant pending < RESTORE_TXN_CHUNK && Undisturbed(faults, commits, pending)
      invariant Restoring(sections, base, all, ReadStreams(sections, bounds, streams[r..]), kept, commits, pending,
                          store.tables, txn.tables)
    {
      StreamAt(sections, bounds, streams, r);
      RestoringSkip(sections, base, all, ReadStreams(sections, bounds, streams[r..]), kept, commits, pending,
                    store.tables, txn.tables,
                    RestOf(sections, bounds, "", streams[r].frames[0..], streams[r].clean, streams[r + 1..]));
      err, txn, pending, commits, kept := RestoreStream(store, sections, byName, bounds, streams[r], faults, txn,
                                                        pending, commits, base, all, kept, streams[r + 1..]);
      if err.Some? {
        durable := RESTORE_TXN_CHUNK * commits;
        return;
      }
    }
    assert streams[|streams|..] == [];
    NoStreams(sections, bounds);
    ghost var rest := ReadStreams(sections, bounds, []);
    if !faults.commitOk(commits) {
      StopCommitting(sections, base, all, rest, kept, commits, pending, store.tables, txn.tables, faults);
    } else {
      StopAtEnd(sections, base, all, rest, kept, commits, pending, store.tables, txn.tables, faults);
    }
    var committed, _ := Commit(store, txn, faults.commitOk(commits));
    if !committed {
      return Some(StoreFailed), RESTORE_TXN_CHUNK * commits;
    }
    if !faults.flattenOk {
      return Some(StoreFailed), |all.kept|;
    }
    return None, |all.kept|;
  }

  /**
   Clears every section's table once, then replays the streams in order, committing every 512 kept
   entities. `wiped` counts the tables cleared, and `durable` the kept entities whose rows the store
   holds at the end. The first commit to fail leaves the chunks before it; a read error or a failed insertion
   leaves the full chunks; and without either everything is durable.
   */
  method RestoreSnapshot(store: BadgerStore, sections: seq<Section>, bounds: ShardRange, streams: seq<Stream>,
                         faults: Faults)
    returns (err: Option<RestoreError>, ghost wiped: nat, ghost durable: nat)
    modifies store
    ensures wiped <= |sections| && forall i :: 0 <= i < wiped ==> faults.clearOk(i)
    ensures wiped < |sections| ==>
      !faults.clearOk(wiped) && err == Some(StoreFailed) &&
      store.tables == Cleared(old(store.tables), sections[..wiped])
    ensures wiped == |sections| ==>
      var all := ReadStreams(sections, bounds, streams);
      && durable <= |all.kept| && InSections(all.kept[..durable], |sections|)
      && store.tables == Replay(sections, Cleared(old(store.tables), sections), all.kept[..durable])
    ensures wiped == |sections| ==>
      var all := ReadStreams(sections, bounds, streams);
      var k := Inserted(faults, |all.kept|);
      var stopped := if k < |all.kept| then Some(StoreFailed) else all.error;
      && (forall n: nat ::
        (!faults.commitOk(n) && (forall m :: 0 <= m < n ==> faults.commitOk(m)) &&
         (512 * n + 512 <= k || (stopped.None? && 512 * n <= k)))
        ==> err == Some(StoreFailed) && durable == 512 * n)
      && (stopped.Some? && (forall m :: 0 <= m < k / 512 ==> faults.commitOk(m)) ==>
        err == stopped && durable == k - k % 512)
      && (stopped.None? && (forall m :: 0 <= m <= k / 512 ==> faults.commitOk(m)) ==>
        durable == k && err == if faults.flattenOk then None else Some(StoreFailed))
    // nothing is reported exactly if nothing fails
    ensures var all := ReadStreams(sections, bounds, streams);
      err.None? <==>
        && (forall i :: 0 <= i < |sections| ==> faults.clearOk(i))
        && all.error.None? && faults.flattenOk
        && (forall i :: 0 <= i < |all.kept| ==> faults.insertOk(i))
        && (forall n :: 0 <= n <= |all.kept| / 512 ==> faults.commitOk(n))
    ensures err.None? ==> store.tables == Restored(sections, bounds, old(store.tables), streams)
  {
    hide Restoring, ReadStreams, RestOf, Cleared, Lookup, Replay, InSections, Outcome, Ending, Inserted, Undisturbed;
    var ok, n := ClearAll(store, sections, faults);
    wiped, durable := n, 0;
    if !ok {
      return Some(StoreFailed), n, 0;
    }
    assert sections[..|sections|] == sections;
    err, durable := ReplayStreams(store, sections, bounds, streams, faults);
    ghost var all := ReadStreams(sections, bounds, streams);
    OutcomeMeaning(all, faults, err, durable);
    SucceedsExactly(all, faults, err, durable);
    assert all.kept[..|all.kept|] == all.kept;
  }

  lemma NoCommits(faults: Faults)
    ensures Undisturbed(faults, 0, 0)
  {}

  lemma NoStreams(sections: seq<Section>, bounds: ShardRange)
    ensures ReadStreams(sections, bounds, []) == Run([], "", None)
  {}
}
