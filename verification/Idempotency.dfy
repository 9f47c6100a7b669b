/**
 Idempotent assertions under concurrency (crates/core/src/temporal_graph.rs:668-683 and
 crates/core/src/storage_append_log.rs:1087-1124): each caller looks its key up and, if it found
 nothing, writes under the lock; other callers and other steps run in between.
 */
module Idempotency {
  import opened Prelude
  import opened Json
  import opened Facts
  import opened Records
  import opened LogState
  import opened LogFile
  import opened Compaction
  import opened Database
  import FactId

  // ---- The mapping never changes -----------------------------------------

  /** All idempotency entries of `a` are in `b`, with the same ids. */
  predicate Extends(b: Memory, a: Memory)
  {
    forall k :: k in a.idempotency ==> k in b.idempotency && b.idempotency[k] == a.idempotency[k]
  }

  lemma CommitExtends(m: Memory, r: Record)
    requires r.UpsertFactAndIdempotency? ==> r.idempotencyKey !in m.idempotency
    ensures Extends(Apply(m, r), m)
  {
    hide UpsertChains, FactId.Text;
  }

  lemma ReopenExtends(db: Db)
    requires Good(db)
    ensures Extends(Opened(db, db.log).memory, db.memory)
  {
    hide Good, Replay, AllStorable;
    ReplayedTables(db);
  }

  lemma InitializeExtends(db: Db)
    ensures Extends(InitializeSchema(db).memory, db.memory)
  {
  }

  lemma InvalidateExtends(db: Db, id: FactId.Id, at: Rfc3339.Timestamp)
    ensures Extends(InvalidateFact(db, id, at).memory, db.memory)
  {
    hide Apply, Extends, Database.FactById;
    SameExtends(db.memory);
    if Database.FactById(db.memory, id).Some? {
      var row := Database.FactById(db.memory, id).value;
      CommitExtends(db.memory, ReplaceFact(row.key, Ended(row.fact, at)));
    }
  }

  lemma SameExtends(m: Memory)
    ensures Extends(m, m)
  {
  }

  lemma EntryExtends(db: Db, kind: EntryKind, name: string, encoded: string)
    ensures Extends(Commit(db, Entry(kind, name, encoded)).memory, db.memory)
  {
    hide Apply, Extends;
    CommitExtends(db.memory, Entry(kind, name, encoded));
  }

  lemma WritesExtend(db: Db, k: string, f: Fact, embedding: seq<Float>)
    ensures Extends(WriteFact(db, f).memory, db.memory)
    ensures Extends(WriteIdempotent(db, k, f).memory, db.memory)
    ensures Extends(WriteEmbedded(db, f, embedding).memory, db.memory)
  {
    hide Apply, Extends, RowKey, EmbeddingFits;
    SameExtends(db.memory);
    CommitExtends(db.memory, UpsertFact(RowKey(f), f));
    if k !in db.memory.idempotency { CommitExtends(db.memory, UpsertFactAndIdempotency(RowKey(f), f, k)); }
    CommitExtends(db.memory, UpsertFactWithEmbedding(RowKey(f), f, embedding));
  }

  /** No step but losing part of the log changes what a key stands for. */
  lemma NextExtends(db: Db, step: Step)
    requires Good(db) && !step.Crash?
    ensures Extends(Next(db, step).memory, db.memory)
  {
    hide Good, Extends, Commit, WriteFact, WriteIdempotent, WriteEmbedded, InvalidateFact, InitializeSchema, Opened,
         ContradictionsOf, CompactionRecords;
    SameExtends(db.memory);
    match step
    case Initialize => InitializeExtends(db);
    case SetEntry(kind, name, encoded) => EntryExtends(db, kind, name, encoded);
    case Assert(f) => WritesExtend(db, "", f, []);
    case AssertIdempotent(k, f) => WritesExtend(db, k, f, []);
    case AssertEmbedded(f, embedding) => WritesExtend(db, "", f, embedding);
    case AssertChecked(f, _) => WritesExtend(db, "", f, []);
    case Invalidate(id, at) => InvalidateExtends(db, id, at);
    case Compact =>
    case Reopen => ReopenExtends(db);
  }

  // ---- One record for each key -------------------------------------------

  predicate Carries(r: Record, k: string)
  {
    r.UpsertFactAndIdempotency? && r.idempotencyKey == k
  }

  /** How many records of a log carry a key. */
  function Carriers(rs: seq<Record>, k: string): nat
  {
    if rs == [] then 0 else (if Carries(rs[0], k) then 1 else 0) + Carriers(rs[1..], k)
  }

  ghost predicate OnceEach(rs: seq<Record>)
  {
    forall k :: Carriers(rs, k) <= 1
  }

  lemma {:induction false} CarriersConcat(a: seq<Record>, b: seq<Record>, k: string)
    ensures Carriers(a + b, k) == Carriers(a, k) + Carriers(b, k)
  {
    if a == [] {
      assert a + b == b;
    } else {
      assert (a + b)[1..] == a[1..] + b;
      CarriersConcat(a[1..], b, k);
    }
  }

  /** Replaying records a key exactly when some record carries it. */
  lemma {:induction false} ReplayHasKey(m: Memory, rs: seq<Record>, k: string)
    ensures k in ReplayOn(m, rs).idempotency <==> k in m.idempotency || Carriers(rs, k) > 0
    decreases |rs|
  {
    if rs != [] {
      ApplyHasKey(m, rs[0], k);
      hide Apply, Carries;
      ReplayHasKey(Apply(m, rs[0]), rs[1..], k);
    }
  }

  lemma ApplyHasKey(m: Memory, r: Record, k: string)
    ensures k in Apply(m, r).idempotency <==> k in m.idempotency || Carries(r, k)
  {
    hide UpsertChains, FactId.Text;
  }

  lemma CarriersOfGood(db: Db, k: string)
    requires Good(db)
    ensures k in db.memory.idempotency <==> Carriers(db.log, k) > 0
  {
    ReplayedTables(db);
    hide Good;
    ReplayHasKey(EMPTY, db.log, k);
  }

  lemma CommitOnce(db: Db, r: Record)
    requires Good(db) && OnceEach(db.log) && (r.UpsertFactAndIdempotency? ==> r.idempotencyKey !in db.memory.idempotency)
    ensures OnceEach(Commit(db, r).log)
  {
    hide Good;
    forall k ensures Carriers(db.log + [r], k) <= 1 {
      CarriersConcat(db.log, [r], k);
      assert [r][1..] == [];
      CarriersOfGood(db, k);
    }
  }

  lemma PartOnce(log: seq<Record>, n: nat)
    requires OnceEach(log) && n <= |log|
    ensures OnceEach(log[..n])
  {
    forall k ensures Carriers(log[..n], k) <= 1 {
      assert log == log[..n] + log[n..];
      CarriersConcat(log[..n], log[n..], k);
    }
  }

  lemma {:induction false} NoneInEntries(kind: EntryKind, registry: map<string, string>, ks: seq<string>, k: string)
    requires forall i :: 0 <= i < |ks| ==> ks[i] in registry
    ensures Carriers(EntryRecords(kind, registry, ks), k) == 0
  {
    if ks != [] {
      NoneInEntries(kind, registry, ks[1..], k);
      assert EntryRecords(kind, registry, ks)[1..] == EntryRecords(kind, registry, ks[1..]);
    }
  }

  lemma {:induction false} NoneInRows(m: Memory, ks: seq<string>, k: string)
    requires InTable(m.facts, ks)
    ensures Carriers(RowRecords(m, ks), k) == 0
  {
    hide FactId.Text;
    if ks != [] {
      NoneInRows(m, ks[1..], k);
      assert RowRecords(m, ks)[1..] == RowRecords(m, ks[1..]);
    }
  }

  lemma {:induction false} OneForEach(m: Memory, ks: seq<string>, k: string)
    requires forall i :: 0 <= i < |ks| ==> ks[i] in m.idempotency
    requires NoDuplicates(ks)
    ensures var rs := IdempotencyRecords(m, ks); rs.Ok? ==> Carriers(rs.value, k) == if k in ks then 1 else 0
  {
    if ks != [] && IdempotencyRecords(m, ks).Ok? {
      OneForEach(m, ks[1..], k);
      var rs := IdempotencyRecords(m, ks).value;
      assert rs[1..] == IdempotencyRecords(m, ks[1..]).value;
      assert k in ks <==> k == ks[0] || k in ks[1..];
    }
  }

  lemma ListingDistinct(s: set<string>)
    ensures NoDuplicates(Listing(s))
  {
    var ks := Listing(s);
    forall i, j | 0 <= i < j < |ks| ensures ks[i] != ks[j] {
      assert Below(ks[i], ks[j]);
      BelowIrreflexive(ks[i]);
    }
  }

  lemma NoneInHead(m: Memory, k: string)
    ensures Carriers(Head(m), k) == 0
  {
    var rest := Head(m)[1..];
    assert rest[1..] == [];
    assert Carriers(rest, k) == 0;
  }

  lemma NoneInRegistries(m: Memory, k: string)
    ensures Carriers(Registries(m), k) == 0
  {
    hide EntryRecords, Listing, Lists, Carriers;
    ListingCovers(m.predicateRegistry);
    ListingCovers(m.volatilityRegistry);
    ListingCovers(m.sourceWeightRegistry);
    var a := EntryRecords(Predicates, m.predicateRegistry, Listing(m.predicateRegistry.Keys));
    var b := EntryRecords(Volatilities, m.volatilityRegistry, Listing(m.volatilityRegistry.Keys));
    var c := EntryRecords(SourceWeights, m.sourceWeightRegistry, Listing(m.sourceWeightRegistry.Keys));
    NoneInEntries(Predicates, m.predicateRegistry, Listing(m.predicateRegistry.Keys), k);
    NoneInEntries(Volatilities, m.volatilityRegistry, Listing(m.volatilityRegistry.Keys), k);
    NoneInEntries(SourceWeights, m.sourceWeightRegistry, Listing(m.sourceWeightRegistry.Keys), k);
    CarriersConcat(a, b, k);
    CarriersConcat(a + b, c, k);
  }

  /** A compacted log has one record for each key and no other. */
  lemma CompactedOnce(m: Memory, k: string)
    ensures var rs := CompactionRecords(m); rs.Ok? ==> Carriers(rs.value, k) == if k in m.idempotency then 1 else 0
  {
    hide RowRecords, IdempotencyRecords, Listing, Lists, Head, Registries, Carriers, NoDuplicates;
    ListingCovers(m.facts);
    ListingCovers(m.idempotency);
    ListingDistinct(m.idempotency.Keys);
    NoneInHead(m, k);
    NoneInRegistries(m, k);
    var rows, last := RowRecords(m, Listing(m.facts.Keys)), IdempotencyRecords(m, Listing(m.idempotency.Keys));
    NoneInRows(m, Listing(m.facts.Keys), k);
    OneForEach(m, Listing(m.idempotency.Keys), k);
    if last.Ok? {
      CarriersConcat(Head(m), Registries(m), k);
      CarriersConcat(Head(m) + Registries(m), rows, k);
      CarriersConcat(Head(m) + Registries(m) + rows, last.value, k);
      ListedKeys(m, k);
    }
  }

  lemma ListedKeys(m: Memory, k: string)
    ensures k in Listing(m.idempotency.Keys) <==> k in m.idempotency
  {
  }

  lemma InitializeOnce(db: Db)
    requires Good(db) && OnceEach(db.log)
    ensures OnceEach(InitializeSchema(db).log)
  {
    HeaderGood(db);
    hide Good, OnceEach, Apply;
    if !db.memory.headerPresent { CommitOnce(db, Header(MAGIC)); }
    var headed := WriteHeader(db);
    if headed.memory.schemaVersion.None? { CommitOnce(headed, SchemaVersion(SCHEMA_VERSION)); }
  }

  lemma WritesOnce(db: Db, k: string, f: Fact, embedding: seq<Float>)
    requires Good(db) && OnceEach(db.log)
    ensures OnceEach(WriteFact(db, f).log)
    ensures OnceEach(WriteIdempotent(db, k, f).log)
    ensures OnceEach(WriteEmbedded(db, f, embedding).log)
  {
    hide Good, OnceEach, Commit, RowKey, EmbeddingFits;
    CommitOnce(db, UpsertFact(RowKey(f), f));
    if k !in db.memory.idempotency { CommitOnce(db, UpsertFactAndIdempotency(RowKey(f), f, k)); }
    CommitOnce(db, UpsertFactWithEmbedding(RowKey(f), f, embedding));
  }

  lemma InvalidateOnce(db: Db, id: FactId.Id, at: Rfc3339.Timestamp)
    requires Good(db) && OnceEach(db.log)
    ensures OnceEach(InvalidateFact(db, id, at).log)
  {
    hide Good, OnceEach, Commit, Database.FactById;
    if Database.FactById(db.memory, id).Some? {
      var row := Database.FactById(db.memory, id).value;
      CommitOnce(db, ReplaceFact(row.key, Ended(row.fact, at)));
    }
  }

  lemma CompactOnce(db: Db)
    requires OnceEach(db.log)
    ensures OnceEach(Compacted(db).log)
  {
    hide CompactionRecords, Carriers;
    forall k ensures Carriers(Compacted(db).log, k) <= 1 { CompactedOnce(db.memory, k); }
  }

  lemma OpenOnce(db: Db, log: seq<Record>)
    requires OnceEach(db.log) && OnceEach(log)
    ensures OnceEach(Opened(db, log).log)
  {
    hide OnceEach, Replay, AllStorable;
  }

  /** Every possible step leaves at most one record with each key in the log. */
  lemma NextOnce(db: Db, step: Step)
    requires Good(db) && OnceEach(db.log)
    ensures OnceEach(Next(db, step).log)
  {
    hide Good, OnceEach, Commit, WriteFact, WriteIdempotent, WriteEmbedded, InvalidateFact, InitializeSchema, Opened,
         ContradictionsOf, Compacted;
    match step
    case Initialize => InitializeOnce(db);
    case SetEntry(kind, name, encoded) => CommitOnce(db, Entry(kind, name, encoded));
    case Assert(f) => WritesOnce(db, "", f, []);
    case AssertIdempotent(k, f) => WritesOnce(db, k, f, []);
    case AssertEmbedded(f, embedding) => WritesOnce(db, "", f, embedding);
    case AssertChecked(f, _) => WritesOnce(db, "", f, []);
    case Invalidate(id, at) => InvalidateOnce(db, id, at);
    case Compact => CompactOnce(db);
    case Reopen => OpenOnce(db, db.log);
    case Crash(lines) =>
      if lines <= |db.log| {
        PartOnce(db.log, lines);
        OpenOnce(db, db.log[..lines]);
      }
  }

  /** After any run, a key is recorded exactly when one record of the log carries it, and never by two. */
  lemma {:induction false} RunOnce(db: Db, steps: seq<Step>)
    requires Good(db) && OnceEach(db.log) && PossibleRun(db, steps)
    ensures OnceEach(Run(db, steps).log) && Good(Run(db, steps))
    decreases |steps|
  {
    hide Good, OnceEach, Possible, Next;
    if steps != [] {
      NextGood(db, steps[0]);
      NextOnce(db, steps[0]);
      RunOnce(Next(db, steps[0]), steps[1..]);
    }
  }

  lemma OneRecordPerKey(steps: seq<Step>, k: string)
    requires PossibleRun(NEW, steps)
    ensures var db := Run(NEW, steps); Carriers(db.log, k) == if k in db.memory.idempotency then 1 else 0
  {
    EmptyGood();
    hide Good, Run, PossibleRun;
    RunOnce(NEW, steps);
    CarriersOfGood(Run(NEW, steps), k);
  }

  // ---- Interleaved callers -----------------------------------------------

  /** Where a caller of `assert_fact_idempotent` is: before its look-up, after finding nothing, or done. */
  datatype Caller = Idle | Missed | Done(id: string)

  datatype Request = Request(key: string, fact: Fact)

  datatype Config = Config(db: Db, callers: seq<Caller>)

  datatype Action = Check(i: nat) | Write(i: nat) | Meanwhile(step: Step)

  ghost function Act(requests: seq<Request>, c: Config, a: Action): (r: Config)
    requires |c.callers| == |requests|
    ensures |r.callers| == |requests|
  {
    match a
    case Check(i) =>
      if i < |requests| && c.callers[i].Idle? then
        var k := requests[i].key;
        c.(callers := c.callers[i := if k in c.db.memory.idempotency then Done(c.db.memory.idempotency[k]) else Missed])
      else c
    case Write(i) =>
      if i < |requests| && c.callers[i].Missed? then
        var db := WriteIdempotent(c.db, requests[i].key, requests[i].fact);
        var k := requests[i].key;
        Config(db, c.callers[i := if k in db.memory.idempotency then Done(db.memory.idempotency[k]) else Idle])
      else c
    case Meanwhile(step) => c.(db := Next(c.db, step))
  }

  predicate PossibleAction(requests: seq<Request>, c: Config, a: Action)
    requires |c.callers| == |requests|
  {
    match a
    case Check(i) => i < |requests| && c.callers[i].Idle?
    case Write(i) =>
      i < |requests| && c.callers[i].Missed?
      && Possible(c.db, AssertIdempotent(requests[i].key, requests[i].fact))
    case Meanwhile(step) => Possible(c.db, step) && !step.Crash?
  }

  ghost function Acts(requests: seq<Request>, c: Config, actions: seq<Action>): (r: Config)
    requires |c.callers| == |requests|
    ensures |r.callers| == |requests|
    decreases |actions|
  {
    if actions == [] then c else Acts(requests, Act(requests, c, actions[0]), actions[1..])
  }

  ghost predicate PossibleActs(requests: seq<Request>, c: Config, actions: seq<Action>)
    requires |c.callers| == |requests|
    decreases |actions|
  {
    actions == []
    || (PossibleAction(requests, c, actions[0]) && PossibleActs(requests, Act(requests, c, actions[0]), actions[1..]))
  }

  /** Every caller that is done was told what its key stands for. */
  ghost predicate Told(requests: seq<Request>, c: Config)
    requires |c.callers| == |requests|
  {
    forall i :: 0 <= i < |requests| && c.callers[i].Done? ==>
      requests[i].key in c.db.memory.idempotency && c.db.memory.idempotency[requests[i].key] == c.callers[i].id
  }

  lemma StillTold(requests: seq<Request>, c: Config, db: Db)
    requires |c.callers| == |requests| && Told(requests, c) && Extends(db.memory, c.db.memory)
    ensures Told(requests, Config(db, c.callers))
  {
  }

  lemma ActTold(requests: seq<Request>, c: Config, a: Action)
    requires |c.callers| == |requests| && Good(c.db) && Told(requests, c) && PossibleAction(requests, c, a)
    ensures Good(Act(requests, c, a).db) && Told(requests, Act(requests, c, a))
    ensures Extends(Act(requests, c, a).db.memory, c.db.memory)
  {
    hide Good, Possible, WriteIdempotent;
    match a
    case Check(i) =>
    case Write(i) =>
      var step := AssertIdempotent(requests[i].key, requests[i].fact);
      NextGood(c.db, step);
      NextExtends(c.db, step);
      hide Next, Extends;
      assert Next(c.db, step) == WriteIdempotent(c.db, requests[i].key, requests[i].fact) by { NextIsWrite(c.db, step); }
      StillTold(requests, c, Next(c.db, step));
    case Meanwhile(step) =>
      NextGood(c.db, step);
      NextExtends(c.db, step);
      hide Next, Extends;
      StillTold(requests, c, Next(c.db, step));
  }

  lemma NextIsWrite(db: Db, step: Step)
    requires step.AssertIdempotent?
    ensures Next(db, step) == WriteIdempotent(db, step.k, step.f)
  {
  }

  lemma {:induction false} ActsTold(requests: seq<Request>, c: Config, actions: seq<Action>)
    requires |c.callers| == |requests| && Good(c.db) && Told(requests, c) && PossibleActs(requests, c, actions)
    ensures Good(Acts(requests, c, actions).db) && Told(requests, Acts(requests, c, actions))
    ensures Extends(Acts(requests, c, actions).db.memory, c.db.memory)
    decreases |actions|
  {
    hide Good, Told, PossibleAction, Act;
    if actions != [] {
      ActTold(requests, c, actions[0]);
      ActsTold(requests, Act(requests, c, actions[0]), actions[1..]);
    }
  }

  /**
   Idempotency under interleaving.  Start any number of callers, run their look-ups and writes in
   any order with any other steps, reopening and compacting as often as wished: all callers of
   one key that are done were told one id, the one the key stands for, which no step changes.
   */
  lemma OneIdPerKey(requests: seq<Request>, db: Db, actions: seq<Action>, i: nat, j: nat)
    requires Good(db) && i < |requests| && j < |requests| && requests[i].key == requests[j].key
    requires PossibleActs(requests, Config(db, seq(|requests|, _ => Idle)), actions)
    ensures var c := Acts(requests, Config(db, seq(|requests|, _ => Idle)), actions);
      c.callers[i].Done? && c.callers[j].Done? ==>
        c.callers[i].id == c.callers[j].id
        && requests[i].key in c.db.memory.idempotency && c.db.memory.idempotency[requests[i].key] == c.callers[i].id
    ensures Extends(Acts(requests, Config(db, seq(|requests|, _ => Idle)), actions).db.memory, db.memory)
  {
    hide Good, PossibleActs, Acts;
    var start := Config(db, seq(|requests|, _ => Idle));
    assert Told(requests, start);
    ActsTold(requests, start, actions);
  }
}
