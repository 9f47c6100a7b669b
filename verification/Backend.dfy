/**
 `AppendLogBackend` (crates/core/src/storage_append_log.rs:656-1222): the bytes of the log file
 and the state, with the load loop, the queries and the writes that append a line before they
 change the state.  Each method is tied to the step of `Database` or the scan of `Queries` it
 performs.

 The in-memory mode writes no bytes; its `log` is only a record of what was applied.
 */
module Backend {
  import opened Prelude
  import opened Json
  import opened Facts
  import opened Records
  import opened LogState
  import opened LogFile
  import opened Queries
  import opened Compaction
  import opened Database
  import AppendLogState
  import Contradictions
  import FactId
  import opened Rfc3339

  // ---- Loading -----------------------------------------------------------

  /** The load loop: split at newlines, read each line, apply its record. */
  method LoadState(bytes: string) returns (result: Result<AppendLogState.State, LoadError>)
    ensures result.Err? <==> Load(bytes).Err?
    ensures result.Err? ==> result.error == Load(bytes).error
    ensures result.Ok? ==> fresh(result.value) && result.value.Valid() && result.value.Contents() == Replay(Load(bytes).value)
  {
    hide ReadLine, Trim, Apply, IsHeader;
    var state := new AppendLogState.State();
    if bytes == [] {
      ReplayNothing(EMPTY);
      return Ok(state);
    }
    var ends := EndsWithNewline(bytes);
    var segments := Split(bytes, '\n');
    var sawValid := false;
    ghost var applied: seq<Record> := [];
    ReplayNothing(EMPTY);
    var i := 0;
    while i < |segments|
      invariant 0 <= i <= |segments|
      invariant fresh(state) && state.Valid() && state.Contents() == Replay(applied)
      invariant LoadSegments(segments[i..], sawValid, ends, applied) == Load(bytes)
    {
      var line := Trim(segments[i]);
      assert segments[i..][0] == segments[i] && segments[i..][1..] == segments[i + 1..];
      if line != [] {
        match ReadLine(line) {
          case Ok(None) => sawValid := true;
          case Ok(Some(r)) =>
            if !sawValid && !IsHeader(r) {
              return Err(BackendMismatch);
            }
            if r.SchemaVersion? && r.version != SCHEMA_VERSION {
              return Err(SchemaMismatch(r.version));
            }
            sawValid := true;
            ReplaySnoc(applied, r);
            state.ApplyRecord(r);
            applied := applied + [r];
          case Err(e) =>
            if e == NotJson(SliceAbort) {
              return Err(Aborted);
            }
            if sawValid && i + 1 == |segments| && !ends {
              return Ok(state);
            }
            if !sawValid {
              return Err(BackendMismatch);
            }
            return Err(Corruption);
        }
      }
      i := i + 1;
    }
    assert segments[i..] == [];
    return Ok(state);
  }

  function Following(rs: seq<Record>, rest: Result<seq<Record>, CompactionError>): Result<seq<Record>, CompactionError>
  {
    match rest case Ok(more) => Ok(rs + more) case Err(e) => Err(e)
  }

  lemma FollowingNothing(rest: Result<seq<Record>, CompactionError>)
    ensures Following([], rest) == rest
  {
    if rest.Ok? { assert [] + rest.value == rest.value; }
  }

  lemma FollowingStep(rs: seq<Record>, r: Record, rest: Result<seq<Record>, CompactionError>)
    ensures Following(rs, Following([r], rest)) == Following(rs + [r], rest)
  {
    if rest.Ok? { Associative(rs, [r], rest.value); }
  }

  lemma RowsStep(facts: FactTable, ks: seq<string>, i: nat)
    requires i < |ks|
    ensures RowsOf(facts, ks[i..])
      == (if ks[i] in facts then [Row(ks[i], facts[ks[i]])] else []) + RowsOf(facts, ks[i + 1..])
  {
    assert ks[i..][0] == ks[i] && ks[i..][1..] == ks[i + 1..];
  }

  lemma NoRowsLeft(facts: FactTable, ks: seq<string>)
    ensures RowsOf(facts, ks[|ks|..]) == [] && ks[0..] == ks
  {
  }

  lemma NothingValid(facts: FactTable, c: seq<string>, at: Timestamp)
    ensures ValidDown(facts, c[..0], at) == [] && ValidDown(facts, [], at) == [] && Begun(facts, [], at) == 0
  {
  }

  /** Only what has begun can be valid, and the chain may be searched for it. */
  lemma OnlyBegunValid(facts: FactTable, chains: map<string, seq<string>>, prefix: string, at: Timestamp)
    requires Chained(facts, chains)
    ensures var c := ChainAt(chains, prefix);
      InTable(facts, c) && ByBeginning(facts, c) && ValidDown(facts, c, at) == ValidDown(facts, c[..Begun(facts, c, at)], at)
  {
    var c := ChainAt(chains, prefix);
    assert ChainFor(facts, prefix, c);
    BegunSplits(facts, c, at);
    hide ValidDown, Begun, KeysOf;
    ValidDownBegun(facts, c, Begun(facts, c, at), at);
  }

  lemma ValidDownStep(facts: FactTable, c: seq<string>, i: nat, at: Timestamp)
    requires 0 < i <= |c|
    ensures var k := c[i - 1];
      ValidDown(facts, c[..i], at)
      == (if k in facts && WasValidAt(facts[k], at) then [Row(k, facts[k])] else []) + ValidDown(facts, c[..i - 1], at)
  {
    hide WasValidAt;
    assert c[..i][..i - 1] == c[..i - 1];
  }

  lemma RecordsStep(m: Memory, ks: seq<string>, i: nat)
    requires i < |ks| && InTable(m.facts, ks)
    ensures RowRecords(m, ks[i..]) == [RowRecord(m, ks[i])] + RowRecords(m, ks[i + 1..])
  {
    hide RowRecord;
    assert ks[i..][0] == ks[i] && ks[i..][1..] == ks[i + 1..];
  }

  lemma EntriesStep(kind: EntryKind, registry: map<string, string>, ks: seq<string>, i: nat)
    requires i < |ks| && forall j :: 0 <= j < |ks| ==> ks[j] in registry
    ensures EntryRecords(kind, registry, ks[i..])
      == [Entry(kind, ks[i], registry[ks[i]])] + EntryRecords(kind, registry, ks[i + 1..])
  {
    assert ks[i..][0] == ks[i] && ks[i..][1..] == ks[i + 1..];
  }

  class Store {
    const onDisk: bool
    const state: AppendLogState.State
    var disk: string
    /** The records written since the log was created. */
    ghost var log: seq<Record>

    ghost predicate Valid()
      reads this, state
    {
      state.Valid() && (onDisk ==> disk == LogText(log))
    }

    ghost function Value(): Db
      reads this, state
    {
      Db(log, state.Contents())
    }

    constructor InMemory()
      ensures Valid() && fresh(state) && Value() == NEW && !onDisk
    {
      onDisk, disk, log := false, "", [];
      state := new AppendLogState.State();
    }

    /** Around a loaded state, whose file is the text of some records that replay to it. */
    constructor OnDisk(bytes: string, loaded: AppendLogState.State, ghost records: seq<Record>)
      requires loaded.Valid() && bytes == LogText(records)
      ensures Valid() && state == loaded && Value() == Db(records, loaded.Contents()) && onDisk && disk == bytes
    {
      onDisk, disk, log, state := true, bytes, records, loaded;
    }

    /** One line, synced before the state changes. */
    method AppendRecord(r: Record)
      requires Valid()
      modifies `disk, `log
      ensures Valid() && log == old(log) + [r]
      ensures disk == if onDisk then old(disk) + RecordText(r) + "\n" else old(disk)
    {
      hide RecordText;
      LogSnoc(log, r);
      if onDisk {
        disk := disk + RecordText(r) + "\n";
      }
      log := log + [r];
    }

    method CommitRecord(r: Record)
      requires Valid()
      modifies this, state
      ensures Valid() && Value() == Commit(old(Value()), r)
    {
      hide Apply, RecordText;
      AppendRecord(r);
      state.ApplyRecord(r);
    }

    method InitializeSchema() returns (version: nat)
      requires Valid()
      modifies this, state
      ensures Valid() && Value() == Database.InitializeSchema(old(Value())) == Next(old(Value()), Initialize)
      ensures Some(version) == state.schemaVersion
    {
      if !state.headerPresent {
        CommitRecord(Header(MAGIC));
      }
      match state.schemaVersion {
        case Some(found) => version := found;
        case None =>
          CommitRecord(SchemaVersion(SCHEMA_VERSION));
          version := SCHEMA_VERSION;
      }
    }

    // ---- Queries ---------------------------------------------------------

    /** The rows of a set of keys, as its ordered iteration gives them. */
    method RowsInOrder(keys: set<string>) returns (rows: seq<Row>)
      ensures rows == Scan(state.facts, keys)
    {
      hide Listing, Lists, RowsOf;
      var ks := InOrder(keys);
      rows := [];
      for i := 0 to |ks|
        invariant rows + RowsOf(state.facts, ks[i..]) == RowsOf(state.facts, ks)
      {
        RowsStep(state.facts, ks, i);
        if ks[i] in state.facts {
          rows := rows + [Row(ks[i], state.facts[ks[i]])];
        }
      }
      NoRowsLeft(state.facts, ks);
    }

    method ScanFacts(prefix: string) returns (rows: seq<Row>)
      requires Valid()
      ensures rows == Queries.ScanFacts(state.facts, prefix)
    {
      hide IndexOf, Chained, Scan;
      IndexEntries(state.facts, All, prefix);
      if prefix in state.allByPrefix {
        rows := RowsInOrder(state.allByPrefix[prefix]);
      } else {
        rows := RowsInOrder(set k | k in state.facts && prefix <= k);
      }
    }

    method CurrentFacts(subject: string, predicate_: string) returns (rows: seq<Row>)
      requires Valid()
      ensures rows == Queries.CurrentFacts(state.facts, subject, predicate_)
    {
      hide IndexOf, Chained;
      var prefix := PairPrefix(subject, predicate_);
      IndexEntries(state.facts, Current, prefix);
      if prefix !in state.currentByPrefix {
        return [];
      }
      rows := RowsInOrder(state.currentByPrefix[prefix]);
    }

    /** Binary search for the first fact not yet begun, then a walk back to the chain's head. */
    method FactsAt(subject: string, predicate_: string, at: Timestamp) returns (rows: seq<Row>, scanned: nat)
      requires Valid()
      ensures rows == Queries.FactsAt(state.Contents(), subject, predicate_, at)
      ensures scanned == Begun(state.facts, ChainAt(state.chains, PairPrefix(subject, predicate_)), at)
    {
      hide IndexOf, WasValidAt, Chained, Begun, ValidDown, PairPrefix, ByBeginning, InTable;
      var prefix := PairPrefix(subject, predicate_);
      rows, scanned := [], 0;
      NothingValid(state.facts, [], at);
      if prefix !in state.chains {
        return;
      }
      var chain := state.chains[prefix];
      OnlyBegunValid(state.facts, state.chains, prefix, at);
      var upper := state.PartitionPoint(chain, at);
      var i := upper;
      while i > 0
        invariant 0 <= i <= upper && scanned == upper - i
        invariant rows + ValidDown(state.facts, chain[..i], at) == ValidDown(state.facts, chain[..upper], at)
      {
        ValidDownStep(state.facts, chain, i, at);
        i := i - 1;
        scanned := scanned + 1;
        var key := chain[i];
        if key in state.facts && WasValidAt(state.facts[key], at) {
          rows := rows + [Row(key, state.facts[key])];
        }
      }
      NothingValid(state.facts, chain, at);
    }

    method FactById(id: FactId.Id) returns (row: Option<Row>)
      ensures row == Database.FactById(state.Contents(), id)
    {
      var t := FactId.Text(id);
      if t !in state.keyById {
        return None;
      }
      var key := state.keyById[t];
      row := if key in state.facts then Some(Row(key, state.facts[key])) else None;
    }

    /** The recorded id, parsed back; a recorded text that is no id is an error. */
    method GetIdempotency(k: string) returns (found: Result<Option<FactId.Id>, FactId.IdError>)
      ensures k !in state.idempotency ==> found == Ok(None)
      ensures k in state.idempotency ==> forall id: FactId.Id :: state.idempotency[k] == FactId.Text(id) ==> found == Ok(Some(id))
    {
      if k !in state.idempotency {
        return Ok(None);
      }
      forall id: FactId.Id | state.idempotency[k] == FactId.Text(id) ensures FactId.ParseId(state.idempotency[k]) == Ok(id) {
        FactId.ParseUndoesText(id);
      }
      match FactId.ParseId(state.idempotency[k]) {
        case Ok(id) => found := Ok(Some(id));
        case Err(e) => found := Err(e);
      }
    }

    // ---- Compaction ------------------------------------------------------

    method EntriesToKeep(kind: EntryKind) returns (rs: seq<Record>)
      ensures var registry := Registry(kind, state.Contents()); var ks := Listing(registry.Keys);
        (forall i :: 0 <= i < |ks| ==> ks[i] in registry) && rs == EntryRecords(kind, registry, ks)
    {
      hide Listing, Lists, EntryRecords;
      var registry := match kind
        case Predicates => state.predicateRegistry
        case Volatilities => state.volatilityRegistry
        case SourceWeights => state.sourceWeightRegistry;
      ListingCovers(registry);
      var ks := InOrder(registry.Keys);
      rs := [];
      for i := 0 to |ks|
        invariant rs + EntryRecords(kind, registry, ks[i..]) == EntryRecords(kind, registry, ks)
      {
        EntriesStep(kind, registry, ks, i);
        rs := rs + [Entry(kind, ks[i], registry[ks[i]])];
      }
      assert EntryRecords(kind, registry, ks[|ks|..]) == [];
    }

    method RowsToKeep() returns (rs: seq<Record>)
      ensures InTable(state.facts, Listing(state.facts.Keys))
      ensures rs == RowRecords(state.Contents(), Listing(state.facts.Keys))
    {
      hide Listing, Lists, FactId.Text, RowRecords;
      ListingCovers(state.facts);
      var ks := InOrder(state.facts.Keys);
      rs := [];
      for i := 0 to |ks|
        invariant rs + RowRecords(state.Contents(), ks[i..]) == RowRecords(state.Contents(), ks)
      {
        RecordsStep(state.Contents(), ks, i);
        var fact := state.facts[ks[i]];
        var t := FactId.Text(fact.id);
        if t in state.embeddings {
          rs := rs + [UpsertFactWithEmbedding(ks[i], fact, state.embeddings[t])];
        } else {
          rs := rs + [UpsertFact(ks[i], fact)];
        }
      }
      assert RowRecords(state.Contents(), ks[|ks|..]) == [];
    }

    method IdempotencyToKeep() returns (result: Result<seq<Record>, CompactionError>)
      ensures var ks := Listing(state.idempotency.Keys);
        (forall i :: 0 <= i < |ks| ==> ks[i] in state.idempotency) && result == IdempotencyRecords(state.Contents(), ks)
    {
      hide Listing, Lists;
      ListingCovers(state.idempotency);
      var ks := InOrder(state.idempotency.Keys);
      var rs: seq<Record> := [];
      assert ks[0..] == ks;
      FollowingNothing(IdempotencyRecords(state.Contents(), ks));
      for i := 0 to |ks|
        invariant IdempotencyRecords(state.Contents(), ks) == Following(rs, IdempotencyRecords(state.Contents(), ks[i..]))
      {
        assert ks[i..][0] == ks[i] && ks[i..][1..] == ks[i + 1..];
        var id := state.idempotency[ks[i]];
        if id !in state.keyById {
          return Err(MissingKey(id));
        }
        var key := state.keyById[id];
        if key !in state.facts {
          return Err(MissingRow(id));
        }
        var r := UpsertFactAndIdempotency(key, state.facts[key], ks[i]);
        FollowingStep(rs, r, IdempotencyRecords(state.Contents(), ks[i + 1..]));
        rs := rs + [r];
      }
      assert ks[|ks|..] == [] && rs + [] == rs;
      result := Ok(rs);
    }

    method RecordsToKeep() returns (result: Result<seq<Record>, CompactionError>)
      ensures result == CompactionRecords(state.Contents())
    {
      hide EntryRecords, RowRecords, IdempotencyRecords, Listing, Lists;
      var version := if state.schemaVersion.Some? then state.schemaVersion.value else SCHEMA_VERSION;
      var predicates := EntriesToKeep(Predicates);
      var volatilities := EntriesToKeep(Volatilities);
      var sourceWeights := EntriesToKeep(SourceWeights);
      var rows := RowsToKeep();
      var last := IdempotencyToKeep();
      match last {
        case Err(e) => result := Err(e);
        case Ok(rs) =>
          result := Ok([Header(MAGIC), SchemaVersion(version)] + (predicates + volatilities + sourceWeights) + rows + rs);
      }
    }

    /** Write the records that recreate the state to a new file, and put it in the old one's place. */
    method Compact() returns (result: Option<CompactionError>)
      requires Valid()
      modifies `disk, `log
      ensures Valid() && Value() == if onDisk then Compacted(old(Value())) else old(Value())
      ensures onDisk ==> Value() == Next(old(Value()), Step.Compact)
      ensures result.None? <==> !onDisk || CompactionRecords(state.Contents()).Ok?
    {
      hide CompactionRecords, RecordText;
      if !onDisk {
        return None;
      }
      var kept := RecordsToKeep();
      match kept {
        case Err(e) => result := Some(e);
        case Ok(rs) =>
          var temp := "";
          for i := 0 to |rs|
            invariant temp == LogText(rs[..i])
          {
            LogSnoc(rs[..i], rs[i]);
            assert rs[..i] + [rs[i]] == rs[..i + 1];
            temp := temp + RecordText(rs[i]) + "\n";
          }
          assert rs[..|rs|] == rs;
          disk, log := temp, rs;
          result := None;
      }
    }

    // ---- Writes ----------------------------------------------------------

    method WriteFact(f: Fact)
      requires Valid()
      modifies this, state
      ensures Valid() && Value() == Database.WriteFact(old(Value()), f) == Next(old(Value()), Assert(f))
      ensures log == old(log) + [UpsertFact(RowKey(f), f)] && state.facts == old(state.facts)[RowKey(f) := f]
    {
      hide RowKey, Apply;
      FactsAfter(state.Contents(), UpsertFact(RowKey(f), f), RowKey(f), f);
      CommitRecord(UpsertFact(RowKey(f), f));
    }

    method ReplaceFactRow(key: string, f: Fact)
      requires Valid()
      modifies this, state
      ensures Valid() && Value() == Commit(old(Value()), ReplaceFact(key, f))
      ensures log == old(log) + [ReplaceFact(key, f)] && state.facts == old(state.facts)[key := f]
    {
      hide Apply;
      FactsAfter(state.Contents(), ReplaceFact(key, f), key, f);
      CommitRecord(ReplaceFact(key, f));
    }

    /** The id under which the key is recorded afterwards. */
    method WriteFactAndIdempotency(k: string, f: Fact) returns (id: Result<FactId.Id, FactId.IdError>)
      requires Valid()
      modifies this, state
      ensures Valid() && Value() == WriteIdempotent(old(Value()), k, f) == Next(old(Value()), AssertIdempotent(k, f))
      ensures k in state.idempotency
      ensures forall x: FactId.Id :: state.idempotency[k] == FactId.Text(x) ==> id == Ok(x)
    {
      hide Upsert;
      if k in state.idempotency {
        forall x: FactId.Id | state.idempotency[k] == FactId.Text(x) ensures FactId.ParseId(state.idempotency[k]) == Ok(x) {
          FactId.ParseUndoesText(x);
        }
        id := FactId.ParseId(state.idempotency[k]);
        return;
      }
      CommitRecord(UpsertFactAndIdempotency(RowKey(f), f, k));
      IdempotencyRecorded(old(state.Contents()), k, f);
      assert state.idempotency == state.Contents().idempotency;
      forall x: FactId.Id | FactId.Text(f.id) == FactId.Text(x) ensures f.id == x {
        FactId.ParseUndoesText(x);
        FactId.ParseUndoesText(f.id);
      }
      id := Ok(f.id);
    }

    method WriteFactWithEmbedding(f: Fact, embedding: seq<Float>) returns (ok: bool)
      requires Valid()
      modifies this, state
      ensures Valid() && Value() == WriteEmbedded(old(Value()), f, embedding) == Next(old(Value()), AssertEmbedded(f, embedding))
      ensures ok == EmbeddingFits(old(state.Contents()), embedding)
    {
      if embedding == [] {
        return false;
      }
      if state.embeddingDim.Some? && |embedding| != state.embeddingDim.value {
        return false;
      }
      CommitRecord(UpsertFactWithEmbedding(RowKey(f), f, embedding));
      ok := true;
    }

    /** The check and the write under one lock.  Whatever was found, without an error the fact is stored. */
    method WriteFactChecked(f: Fact, reject: bool)
      returns (result: Result<seq<Contradictions.Contradiction>, seq<Contradictions.Contradiction>>)
      requires Valid()
      modifies this, state
      ensures Valid() && Value() == WriteChecked(old(Value()), f, reject) == Next(old(Value()), AssertChecked(f, reject))
      ensures var found := ContradictionsOf(old(state.Contents()), f);
        result == if reject && found != [] then Err(found) else Ok(found)
      ensures result.Ok? ==> log == old(log) + [UpsertFact(RowKey(f), f)] && state.facts == old(state.facts)[RowKey(f) := f]
      ensures result.Err? ==> Value() == old(Value()) && disk == old(disk)
    {
      hide IndexOf, Chained, Scan, Contradictions.DetectPairwise;
      var prefix := PrefixOf(f);
      IndexEntries(state.facts, Active, prefix);
      var rows: seq<Row>;
      if prefix in state.activeByPrefix {
        rows := RowsInOrder(state.activeByPrefix[prefix]);
      } else {
        rows := RowsInOrder(set k | k in Starting(state.facts, prefix) && state.facts[k].expiredAt.None?);
      }
      var found := Contradictions.Against(f, FactsOf(rows));
      if reject && found != [] {
        return Err(found);
      }
      WriteFact(f);
      result := Ok(found);
    }
  }

  lemma IdempotencyRecorded(m: Memory, k: string, f: Fact)
    ensures var n := Apply(m, UpsertFactAndIdempotency(RowKey(f), f, k));
      n.idempotency == m.idempotency[k := FactId.Text(f.id)]
  {
    hide UpsertChains, FactId.Text;
  }

  lemma {:induction false} LogSnoc(rs: seq<Record>, r: Record)
    ensures LogText(rs + [r]) == LogText(rs) + RecordText(r) + "\n"
  {
    hide RecordText;
    if rs == [] {
      assert [r][1..] == [];
      assert rs + [r] == [r];
      assert "" + RecordText(r) == RecordText(r) && RecordText(r) + "\n" + "" == RecordText(r) + "\n";
    } else {
      assert (rs + [r])[1..] == rs[1..] + [r];
      LogSnoc(rs[1..], r);
      Associative(RecordText(rs[0]) + "\n", LogText(rs[1..]), RecordText(r));
      Associative(RecordText(rs[0]) + "\n", LogText(rs[1..]) + RecordText(r), "\n");
    }
  }
}
