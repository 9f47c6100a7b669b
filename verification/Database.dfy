/**
 The backend as a state machine: its log, its memory, and one step for each section the program
 runs under its lock (crates/core/src/storage_append_log.rs:818-882, 1064-1221), with opening and
 crashes.

 Whatever steps are run, the memory stays coherent and indexed, and the log replays to it.
 */
module Database {
  import opened Prelude
  import opened Json
  import opened Facts
  import opened Records
  import opened RecordRoundTrip
  import opened LogState
  import opened LogFile
  import opened Queries
  import opened Coherence
  import opened Compaction
  import Contradictions
  import Recovery
  import FactId
  import Utf8
  import opened Rfc3339

  datatype Db = Db(log: seq<Record>, memory: Memory)

  const NEW := Db([], EMPTY)

  /** Append, then apply. */
  function Commit(db: Db, r: Record): Db
  {
    Db(db.log + [r], Apply(db.memory, r))
  }

  // ---- Operations --------------------------------------------------------

  function WriteHeader(db: Db): Db
  {
    if db.memory.headerPresent then db else Commit(db, Header(MAGIC))
  }

  function InitializeSchema(db: Db): Db
  {
    var headed := WriteHeader(db);
    if headed.memory.schemaVersion.Some? then headed else Commit(headed, SchemaVersion(SCHEMA_VERSION))
  }

  function WriteFact(db: Db, f: Fact): Db
  {
    Commit(db, UpsertFact(RowKey(f), f))
  }

  /** A known idempotency key writes nothing. */
  function WriteIdempotent(db: Db, k: string, f: Fact): Db
  {
    if k in db.memory.idempotency then db else Commit(db, UpsertFactAndIdempotency(RowKey(f), f, k))
  }

  predicate EmbeddingFits(m: Memory, embedding: seq<Float>)
  {
    embedding != [] && (m.embeddingDim.Some? ==> |embedding| == m.embeddingDim.value)
  }

  /** An empty embedding, or one of another dimension, is refused. */
  function WriteEmbedded(db: Db, f: Fact, embedding: seq<Float>): Db
  {
    if EmbeddingFits(db.memory, embedding) then Commit(db, UpsertFactWithEmbedding(RowKey(f), f, embedding)) else db
  }

  function FactsOf(rows: seq<Row>): (fs: seq<Fact>)
    ensures |fs| == |rows| && forall i :: 0 <= i < |rows| ==> fs[i] == rows[i].fact
  {
    if rows == [] then [] else [rows[0].fact] + FactsOf(rows[1..])
  }

  /** What a checked write compares with: the unexpired facts indexed under the pair, or a scan. */
  ghost function Existing(facts: FactTable, prefix: string): seq<Fact>
  {
    var active := KeysOf(facts, Active, prefix);
    if active != {} then FactsOf(Scan(facts, active))
    else FactsOf(Scan(facts, set k | k in Starting(facts, prefix) && facts[k].expiredAt.None?))
  }

  ghost function ContradictionsOf(m: Memory, f: Fact): seq<Contradictions.Contradiction>
  {
    Contradictions.Against(f, Existing(m.facts, PrefixOf(f)))
  }

  /** A checked write of a singleton predicate; with the Reject policy a contradiction stops it. */
  ghost function WriteChecked(db: Db, f: Fact, reject: bool): Db
  {
    if reject && ContradictionsOf(db.memory, f) != [] then db else WriteFact(db, f)
  }

  function FactById(m: Memory, id: FactId.Id): Option<Row>
  {
    var t := FactId.Text(id);
    if t in m.keyById && m.keyById[t] in m.facts then Some(Row(m.keyById[t], m.facts[m.keyById[t]])) else None
  }

  function Ended(f: Fact, at: Timestamp): Fact
  {
    f.(validTo := Some(at), expiredAt := Some(at))
  }

  /** An unknown id changes nothing. */
  function InvalidateFact(db: Db, id: FactId.Id, at: Timestamp): Db
  {
    match FactById(db.memory, id)
    case Some(row) => Commit(db, ReplaceFact(row.key, Ended(row.fact, at)))
    case None => db
  }

  ghost function Compacted(db: Db): Db
  {
    match CompactionRecords(db.memory) case Ok(rs) => Db(rs, db.memory) case Err(_) => db
  }

  /**
   The store that opening the file of a log gives; the old one if the file does not load.  By
   `OpenedIsLoaded` this is what the load loop does.
   */
  function Opened(db: Db, log: seq<Record>): Db
  {
    if AllStorable(log) then Db(log, Replay(log)) else db
  }

  // ---- Steps -------------------------------------------------------------

  datatype Step =
    | Initialize
    | SetEntry(kind: EntryKind, name: string, encoded: string)
    | Assert(f: Fact)
    | AssertIdempotent(k: string, f: Fact)
    | AssertEmbedded(f: Fact, embedding: seq<Float>)
    | AssertChecked(f: Fact, reject: bool)
    | Invalidate(id: FactId.Id, at: Timestamp)
    | Compact
    | Reopen
    | Crash(lines: nat)

  ghost function Next(db: Db, step: Step): Db
  {
    match step
    case Initialize => InitializeSchema(db)
    case SetEntry(kind, name, encoded) => Commit(db, Entry(kind, name, encoded))
    case Assert(f) => WriteFact(db, f)
    case AssertIdempotent(k, f) => WriteIdempotent(db, k, f)
    case AssertEmbedded(f, embedding) => WriteEmbedded(db, f, embedding)
    case AssertChecked(f, reject) => WriteChecked(db, f, reject)
    case Invalidate(id, at) => InvalidateFact(db, id, at)
    case Compact => Compacted(db)
    case Reopen => Opened(db, db.log)
    case Crash(lines) => if lines <= |db.log| then Opened(db, db.log[..lines]) else db
  }

  predicate Ready(m: Memory)
  {
    m.headerPresent && m.schemaVersion == Some(SCHEMA_VERSION)
  }

  /** A fact that was just built: all its texts are strings, and its id is new. */
  predicate NewFact(m: Memory, f: Fact)
  {
    WritableFact(f) && FactId.Text(f.id) !in m.keyById
  }

  /**
   When a step can be taken: the schema is initialised before use, texts are strings, the ids of
   new facts are new, and a crash leaves the header.
   */
  predicate Possible(db: Db, step: Step)
  {
    match step
    case Initialize => true
    case SetEntry(_, name, encoded) => Ready(db.memory) && Utf8.Valid(name) && Utf8.Valid(encoded)
    case Assert(f) => Ready(db.memory) && NewFact(db.memory, f)
    case AssertIdempotent(k, f) => Ready(db.memory) && NewFact(db.memory, f) && Utf8.Valid(k)
    case AssertEmbedded(f, embedding) =>
      Ready(db.memory) && NewFact(db.memory, f) && forall i :: 0 <= i < |embedding| ==> WritableFloat(embedding[i])
    case AssertChecked(f, _) => Ready(db.memory) && NewFact(db.memory, f)
    case Invalidate(_, _) => Ready(db.memory)
    case Compact => Ready(db.memory)
    case Reopen => true
    case Crash(lines) => 0 < lines <= |db.log|
  }

  ghost function Run(db: Db, steps: seq<Step>): Db
    decreases |steps|
  {
    if steps == [] then db else Run(Next(db, steps[0]), steps[1..])
  }

  ghost predicate PossibleRun(db: Db, steps: seq<Step>)
    decreases |steps|
  {
    steps == [] || (Possible(db, steps[0]) && PossibleRun(Next(db, steps[0]), steps[1..]))
  }

  // ---- The invariant -----------------------------------------------------

  /** The log is one the backend could write, each record admissible where it stands. */
  predicate SoundLog(log: seq<Record>)
  {
    BackendLog(log) && AdmissibleFrom(EMPTY, log)
  }

  /** Everything kept by every step. */
  ghost predicate Good(db: Db)
  {
    SoundLog(db.log) && SameUpToTies(Replay(db.log), db.memory)
    && Coherent(db.memory) && WritableMemory(db.memory)
    && (db.log != [] <==> db.memory.headerPresent)
  }

  lemma EmptyGood()
    ensures Good(NEW)
  {
    EmptyChained();
    ReplayNothing(EMPTY);
  }

  // ---- Writing -----------------------------------------------------------

  lemma ApplyModulo(a: Memory, b: Memory, r: Record)
    requires Modulo(a) == Modulo(b)
    ensures Modulo(Apply(a, r)) == Modulo(Apply(b, r))
  {
    hide FactId.Text, UpsertChains;
    SameFields(a, b);
  }

  lemma SameFields(a: Memory, b: Memory)
    requires Modulo(a) == Modulo(b)
    ensures a == b.(chains := a.chains)
  {
    assert Modulo(a).(chains := a.chains) == a && Modulo(b).(chains := a.chains) == b.(chains := a.chains);
  }

  lemma ApplySame(a: Memory, b: Memory, r: Record)
    requires SameUpToTies(a, b)
    ensures SameUpToTies(Apply(a, r), Apply(b, r))
  {
    ApplyModulo(a, b, r);
    ApplyChained(a, r);
    ApplyChained(b, r);
  }

  lemma AdmissibleSame(a: Memory, b: Memory, r: Record)
    requires Modulo(a) == Modulo(b) && Admissible(a, r)
    ensures Admissible(b, r)
  {
    hide FactId.Text, RowKey;
    SameFields(a, b);
  }

  lemma ReplaySnoc(log: seq<Record>, r: Record)
    ensures Replay(log + [r]) == Apply(Replay(log), r)
    ensures AdmissibleFrom(EMPTY, log + [r]) <==> AdmissibleFrom(EMPTY, log) && Admissible(Replay(log), r)
  {
    hide Apply, Admissible;
    ReplayConcat(EMPTY, log, [r]);
    AdmissibleConcat(EMPTY, log, [r]);
    assert [r][1..] == [];
    ReplayNothing(Apply(Replay(log), r));
  }

  /** Committing an admissible record keeps everything. */
  lemma CommitGood(db: Db, r: Record)
    requires Good(db) && Sendable(r) && Admissible(db.memory, r)
    requires db.log == [] ==> IsHeader(r)
    ensures Good(Commit(db, r))
  {
    var replayed := Replay(db.log);
    AdmissibleSame(db.memory, replayed, r);
    ApplySame(replayed, db.memory, r);
    ReplaySnoc(db.log, r);
    ApplyCoherent(db.memory, r);
    ApplyWritable(db.memory, r);
    LogGrows(db.log, r);
    HeaderOf(db, r);
    hide BackendLog, AdmissibleFrom, SameUpToTies, Coherent, WritableMemory, Apply, Admissible, Sendable, Replay;
  }

  lemma HeaderOf(db: Db, r: Record)
    requires Good(db) && Admissible(db.memory, r) && (db.log == [] ==> IsHeader(r))
    ensures Apply(db.memory, r).headerPresent
  {
    GoodHeaded(db);
    hide Good, Apply, Admissible;
    HeaderStays(db.memory, r);
  }

  lemma LogGrows(log: seq<Record>, r: Record)
    requires BackendLog(log) && Sendable(r) && (log == [] ==> IsHeader(r))
    ensures BackendLog(log + [r])
  {
    hide WritableRecord;
  }

  // ---- Records of the steps ----------------------------------------------

  lemma RowKeyValid(f: Fact)
    requires WritableFact(f)
    ensures Utf8.Valid(RowKey(f))
  {
    IdTextValid(f.id);
    ColonValid();
    hide Utf8.Valid, FactId.Text;
    Utf8.ConcatValid(f.subject, ":");
    Utf8.ConcatValid(f.subject + ":", f.predicate_);
    Utf8.ConcatValid(f.subject + ":" + f.predicate_, ":");
    Utf8.ConcatValid(f.subject + ":" + f.predicate_ + ":", FactId.Text(f.id));
  }

  lemma ColonValid()
    ensures Utf8.Valid(":")
  {
    Utf8.AsciiValid(":");
  }

  lemma HeaderGood(db: Db)
    requires Good(db)
    ensures Good(WriteHeader(db))
  {
    MagicValid();
    hide Utf8.Valid, Good;
    GoodHeaded(db);
    if !db.memory.headerPresent { CommitGood(db, Header(MAGIC)); }
  }

  lemma InitializeGood(db: Db)
    requires Good(db)
    ensures Good(InitializeSchema(db)) && Ready(InitializeSchema(db).memory)
  {
    HeaderGood(db);
    hide Good;
    var headed := WriteHeader(db);
    GoodHeaded(headed);
    if headed.memory.schemaVersion.None? {
      CommitGood(headed, SchemaVersion(SCHEMA_VERSION));
    }
  }

  lemma GoodHeaded(db: Db)
    requires Good(db)
    ensures (db.log != [] <==> db.memory.headerPresent) && VersionMatches(db.memory)
  {
    hide SoundLog, SameUpToTies, WritableMemory;
  }

  lemma NewRowAdmissible(m: Memory, f: Fact)
    requires NewFact(m, f)
    ensures AdmissibleRow(m, RowKey(f), f) && Utf8.Valid(RowKey(f))
  {
    RowKeyValid(f);
    hide RowKey, FactId.Text, Utf8.Valid, WritableFact;
  }

  /** Each of the three records that carry a new fact may be committed. */
  lemma NewFactRecords(m: Memory, f: Fact, k: string, embedding: seq<Float>)
    requires NewFact(m, f)
    ensures Sendable(UpsertFact(RowKey(f), f)) && Admissible(m, UpsertFact(RowKey(f), f))
    ensures var r := UpsertFactAndIdempotency(RowKey(f), f, k); Admissible(m, r) && (Utf8.Valid(k) ==> Sendable(r))
    ensures var r := UpsertFactWithEmbedding(RowKey(f), f, embedding);
      (EmbeddingFits(m, embedding) ==> Admissible(m, r))
      && ((forall i :: 0 <= i < |embedding| ==> WritableFloat(embedding[i])) ==> Sendable(r))
  {
    NewRowAdmissible(m, f);
    hide Utf8.Valid, WritableFact, RowKey, FactId.Text, AdmissibleRow, WritableFloat;
  }

  lemma WriteFactGood(db: Db, f: Fact)
    requires Good(db) && Ready(db.memory) && NewFact(db.memory, f)
    ensures Good(WriteFact(db, f))
  {
    hide Good, NewFact, Sendable, Admissible, Commit, RowKey;
    NewFactRecords(db.memory, f, "", []);
    GoodHeaded(db);
    CommitGood(db, UpsertFact(RowKey(f), f));
  }

  lemma WriteIdempotentGood(db: Db, k: string, f: Fact)
    requires Good(db) && Ready(db.memory) && NewFact(db.memory, f) && Utf8.Valid(k)
    ensures Good(WriteIdempotent(db, k, f))
  {
    hide Good, NewFact, Sendable, Admissible, Commit, RowKey, Utf8.Valid;
    NewFactRecords(db.memory, f, k, []);
    GoodHeaded(db);
    CommitGood(db, UpsertFactAndIdempotency(RowKey(f), f, k));
  }

  lemma WriteEmbeddedGood(db: Db, f: Fact, embedding: seq<Float>)
    requires Good(db) && Ready(db.memory) && NewFact(db.memory, f)
    requires forall i :: 0 <= i < |embedding| ==> WritableFloat(embedding[i])
    ensures Good(WriteEmbedded(db, f, embedding))
  {
    hide Good, NewFact, Sendable, Admissible, Commit, RowKey, EmbeddingFits, WritableFloat;
    NewFactRecords(db.memory, f, "", embedding);
    GoodHeaded(db);
    if EmbeddingFits(db.memory, embedding) {
      CommitGood(db, UpsertFactWithEmbedding(RowKey(f), f, embedding));
    }
  }

  lemma EntryGood(db: Db, kind: EntryKind, name: string, encoded: string)
    requires Good(db) && Ready(db.memory) && Utf8.Valid(name) && Utf8.Valid(encoded)
    ensures Good(Commit(db, Entry(kind, name, encoded)))
  {
    hide Utf8.Valid, Good;
    GoodHeaded(db);
    CommitGood(db, Entry(kind, name, encoded));
  }

  /** The row is stored, under the key of its fact. */
  predicate Holds(facts: FactTable, row: Row)
  {
    row.key in facts && facts[row.key] == row.fact && row.key == RowKey(row.fact)
  }

  /** Looking a fact up by id finds the stored fact of that id, under its key. */
  lemma FoundById(m: Memory, id: FactId.Id)
    requires Coherent(m)
    ensures FactById(m, id).Some? <==> exists k :: k in m.facts && m.facts[k].id == id
    ensures FactById(m, id).Some? ==> Holds(m.facts, FactById(m, id).value) && FactById(m, id).value.fact.id == id
  {
    var t := FactId.Text(id);
    hide RowKey;
    FactId.ParseUndoesText(id);
    if FactById(m, id).Some? {
      FactId.ParseUndoesText(FactById(m, id).value.fact.id);
    }
    hide FactId.Text;
  }

  lemma InvalidateGood(db: Db, id: FactId.Id, at: Timestamp)
    requires Good(db) && Ready(db.memory)
    ensures Good(InvalidateFact(db, id, at))
  {
    if FactById(db.memory, id).Some? {
      var row := FactById(db.memory, id).value;
      GoodHeaded(db);
      EndedSendable(db, id, at);
      hide Good, Sendable, Admissible, FactById, Commit;
      CommitGood(db, ReplaceFact(row.key, Ended(row.fact, at)));
    }
  }

  lemma EndedSendable(db: Db, id: FactId.Id, at: Timestamp)
    requires Good(db) && FactById(db.memory, id).Some?
    ensures var row := FactById(db.memory, id).value; var r := ReplaceFact(row.key, Ended(row.fact, at));
      Sendable(r) && Admissible(db.memory, r)
  {
    hide SoundLog, SameUpToTies, Admissible;
    FoundById(db.memory, id);
    var row := FactById(db.memory, id).value;
    EndedAdmissible(db.memory, row, at);
    hide Coherent, Utf8.Valid, FactById;
    assert WritableFact(row.fact) && Utf8.Valid(row.key);
  }

  lemma EndedAdmissible(m: Memory, row: Row, at: Timestamp)
    requires Coherent(m) && Holds(m.facts, row)
    ensures Admissible(m, ReplaceFact(row.key, Ended(row.fact, at)))
  {
    hide RowKeyed, FactId.Text;
  }

  // ---- Compaction and opening --------------------------------------------

  lemma CompactGood(db: Db)
    requires Good(db) && Ready(db.memory)
    ensures CompactionRecords(db.memory).Ok? && Good(Compacted(db))
  {
    hide BackendLog, AdmissibleFrom, Coherent, WritableMemory, CompactionRecords, Replay;
    CompactionPreserves(db.memory);
    CompactedLasts(db.memory);
  }

  /** A part of a sound log that is not empty is a sound log, of a state that is everything it should be. */
  lemma PartGood(log: seq<Record>, n: nat)
    requires SoundLog(log) && n <= |log|
    ensures Good(Db(log[..n], Replay(log[..n])))
  {
    var part := log[..n];
    assert part + log[n..] == log;
    AdmissibleConcat(EMPTY, part, log[n..]);
    ChainsAlwaysOrdered(part);
    PartWritable(log, n);
    EmptyCoherent();
    ReplayCoherent(EMPTY, part);
    hide AdmissibleFrom, Coherent, WritableMemory, BackendLog;
    PartHeaded(part);
  }

  lemma EmptyCoherent()
    ensures Coherent(EMPTY) && WritableMemory(EMPTY) && StorableMemory(EMPTY)
  {
  }

  lemma PartWritable(log: seq<Record>, n: nat)
    requires BackendLog(log) && n <= |log|
    ensures BackendLog(log[..n]) && WritableMemory(Replay(log[..n]))
  {
    hide WritableRecord, WritableMemory;
    EmptyCoherent();
    ReplayWritable(EMPTY, log[..n]);
  }

  lemma PartHeaded(part: seq<Record>)
    requires BackendLog(part) && AdmissibleFrom(EMPTY, part)
    ensures part != [] <==> Replay(part).headerPresent
  {
    hide WritableRecord, Coherent;
    if part == [] {
      ReplayNothing(EMPTY);
    } else {
      assert IsHeader(part[0]);
      ReplayHeaded(Apply(EMPTY, part[0]), part[1..]);
    }
  }

  /** Loading the file of a sound log gives the replay of its records, or fails. */
  lemma OpenedIsLoaded(db: Db, log: seq<Record>)
    requires SoundLog(log)
    ensures var loaded := Load(LogText(log)); Opened(db, log) == if loaded.Ok? then Db(log, Replay(loaded.value)) else db
  {
    hide BackendLog, AdmissibleFrom, Replay, AllStorable, Load, LogText;
    LogLoads(log);
  }

  /** So a step that reopens the store, or reopens what a crash left of it, loads the bytes of the file. */
  lemma StepsReopen(db: Db, lines: nat)
    requires Good(db) && 0 < lines <= |db.log|
    ensures var whole := Load(LogText(db.log)); var part := Load(LogText(db.log[..lines]));
      Next(db, Reopen) == (if whole.Ok? then Db(db.log, Replay(whole.value)) else db)
      && Next(db, Crash(lines)) == if part.Ok? then Db(db.log[..lines], Replay(part.value)) else db
  {
    hide *;
    GoodIsSound(db);
    PartGood(db.log, lines);
    GoodIsSound(Db(db.log[..lines], Replay(db.log[..lines])));
    OpenedIsLoaded(db, db.log);
    OpenedIsLoaded(db, db.log[..lines]);
    OpeningSteps(db, lines);
  }

  lemma OpeningSteps(db: Db, lines: nat)
    requires lines <= |db.log|
    ensures Next(db, Reopen) == Opened(db, db.log) && Next(db, Crash(lines)) == Opened(db, db.log[..lines])
  {
    hide Opened;
  }

  /** The replayed log and the memory hold the same rows, ids and idempotency entries. */
  lemma ReplayedTables(db: Db)
    requires Good(db)
    ensures var m := Replay(db.log); m.facts == db.memory.facts && m.idempotency == db.memory.idempotency
  {
    hide SoundLog, Coherent, WritableMemory, Chained, Replay;
    SameFields(Replay(db.log), db.memory);
  }

  // ---- Every step, every run ---------------------------------------------

  lemma ReopenGood(db: Db, lines: nat)
    requires Good(db) && lines <= |db.log|
    ensures Good(Opened(db, db.log[..lines]))
  {
    hide Good, SoundLog, AllStorable, Replay;
    GoodIsSound(db);
    PartGood(db.log, lines);
  }

  /** Every possible step keeps the invariant. */
  lemma NextGood(db: Db, step: Step)
    requires Good(db) && Possible(db, step)
    ensures Good(Next(db, step))
  {
    hide Good, NewFact, Ready, WritableFloat, ContradictionsOf, InitializeSchema, Commit, WriteFact, WriteIdempotent,
         WriteEmbedded, InvalidateFact, Compacted, Opened, Utf8.Valid;
    match step
    case Initialize => InitializeGood(db);
    case SetEntry(kind, name, encoded) => EntryGood(db, kind, name, encoded);
    case Assert(f) => WriteFactGood(db, f);
    case AssertIdempotent(k, f) => WriteIdempotentGood(db, k, f);
    case AssertEmbedded(f, embedding) => WriteEmbeddedGood(db, f, embedding);
    case AssertChecked(f, _) => WriteFactGood(db, f);
    case Invalidate(id, at) => InvalidateGood(db, id, at);
    case Compact => CompactGood(db);
    case Reopen =>
      assert db.log[..|db.log|] == db.log;
      ReopenGood(db, |db.log|);
    case Crash(lines) => ReopenGood(db, lines);
  }

  lemma GoodIsSound(db: Db)
    requires Good(db)
    ensures SoundLog(db.log)
  {
  }

  /** So does every run. */
  lemma {:induction false} RunGood(db: Db, steps: seq<Step>)
    requires Good(db) && PossibleRun(db, steps)
    ensures Good(Run(db, steps))
    decreases |steps|
  {
    hide Good, Possible, Next;
    if steps != [] {
      NextGood(db, steps[0]);
      RunGood(Next(db, steps[0]), steps[1..]);
    }
  }

  /**
   The main result of the store.  After any run from an empty store, the memory is coherent with
   exact chains, the log replays to it up to ties, a compaction of it would succeed, and its file
   loads to the log exactly when everything in it is storable, and is refused otherwise.
   */
  lemma EveryRun(steps: seq<Step>)
    requires PossibleRun(NEW, steps)
    ensures var db := Run(NEW, steps);
      Coherent(db.memory) && Chained(db.memory.facts, db.memory.chains)
      && SameUpToTies(Replay(db.log), db.memory)
      && (Ready(db.memory) ==> CompactionRecords(db.memory).Ok?)
      && (if AllStorable(db.log) then Load(LogText(db.log)) == Ok(db.log) else Refused(Load(LogText(db.log))))
  {
    EmptyGood();
    RunGood(NEW, steps);
    var db := Run(NEW, steps);
    hide Run, Coherent, Chained, Modulo, Load, LogText, AllStorable, CompactionRecords, AdmissibleFrom, WritableMemory;
    LogLoads(db.log);
    if Ready(db.memory) { CompactGood(db); }
  }

  /**
   A crash at any byte after the header leaves a file that opens, if its whole lines can be read,
   and opening it gives a store with everything every run keeps: the replay of the records that
   the cut leaves.
   */
  lemma CrashAnywhere(db: Db, k: nat)
    requires Good(db) && db.log != [] && |RecordText(db.log[0])| <= k <= |LogText(db.log)|
    ensures var n := Recovery.Recovered(db.log, k);
      Good(Db(db.log[..n], Replay(db.log[..n])))
      && if AllStorable(db.log[..Recovery.WholeLines(db.log, k)]) then Load(LogText(db.log)[..k]) == Ok(db.log[..n])
         else Refused(Load(LogText(db.log)[..k]))
  {
    GoodIsSound(db);
    PartGood(db.log, Recovery.Recovered(db.log, k));
    hide Good, AdmissibleFrom, BackendLog, AllStorable, RecordText, Load, LogText, Recovery.Recovered, Replay;
    Recovery.CrashRecovery(db.log, k);
  }

  /**
   After any run with crashes and compactions, another compaction may stop at any point: if every
   record of the log is storable the file in place loads, to the state up to ties.
   */
  lemma CompactionAnywhere(steps: seq<Step>, d: Directory)
    requires PossibleRun(NEW, steps) && Ready(Run(NEW, steps).memory) && AllStorable(Run(NEW, steps).log)
    ensures CompactionRecords(Run(NEW, steps).memory).Ok?
    ensures var db := Run(NEW, steps);
      DuringCompaction(d, LogText(db.log), LogText(CompactionRecords(db.memory).value)) ==> LoadsTo(d.main, db.memory)
  {
    EmptyGood();
    RunGood(NEW, steps);
    var db := Run(NEW, steps);
    CompactGood(db);
    GoodForCompaction(db);
    hide Run, Good, Coherent, WritableMemory, AllStorable, LogText, CompactionRecords, LoadsTo, DuringCompaction;
    if DuringCompaction(d, LogText(db.log), LogText(CompactionRecords(db.memory).value)) {
      CompactionCrash(db.log, db.memory, d);
    }
  }

  lemma GoodForCompaction(db: Db)
    requires Good(db)
    ensures BackendLog(db.log) && SameUpToTies(Replay(db.log), db.memory) && Coherent(db.memory) && WritableMemory(db.memory)
  {
    hide Coherent, WritableMemory, BackendLog, AdmissibleFrom, Modulo, Replay;
  }
}
