/**
 The vector index as a cache of the stored embeddings (crates/core/src/temporal_graph.rs:551-558,
 1066-1093, crates/core/src/storage_append_log.rs:1127-1172): it is rebuilt on opening and
 updated after each durable write.
 */
module VectorCoherence {
  import opened Prelude
  import opened Json
  import opened Facts
  import opened Records
  import opened LogState
  import opened Coherence
  import Queries
  import opened Compaction
  import opened Database
  import opened Vectors
  import FactId

  /** The index holds exactly the stored embeddings, and has their dimension. */
  ghost predicate Mirrors(v: Vectors, m: Memory)
  {
    v.dim == m.embeddingDim
    && (forall id: FactId.Id :: id in v.table <==> FactId.Text(id) in m.embeddings)
    && (forall id: FactId.Id :: id in v.table ==> v.table[id] == m.embeddings[FactId.Text(id)])
  }

  // ---- Rebuilding --------------------------------------------------------

  /** Inserting the listed embeddings; a text that is no id or a misfit is an error. */
  function Rebuild(m: Memory, ks: seq<string>, v: Vectors): Option<Vectors>
    requires forall i :: 0 <= i < |ks| ==> ks[i] in m.embeddings
    decreases |ks|
  {
    if ks == [] then Some(v)
    else
      match FactId.ParseId(ks[0])
      case Err(_) => None
      case Ok(id) =>
        if Accepts(v, m.embeddings[ks[0]]) then Rebuild(m, ks[1..], Inserted(v, id, m.embeddings[ks[0]])) else None
  }

  /** The index holds exactly the embeddings of the listed ids. */
  ghost predicate MirrorsKeys(v: Vectors, m: Memory, ks: set<string>)
  {
    (v.dim == if ks == {} then None else m.embeddingDim)
    && (forall id: FactId.Id :: id in v.table <==> FactId.Text(id) in ks)
    && (forall id: FactId.Id :: id in v.table ==> FactId.Text(id) in m.embeddings && v.table[id] == m.embeddings[FactId.Text(id)])
  }

  lemma EmbeddingKeyIsId(m: Memory, k: string) returns (id: FactId.Id)
    requires Coherent(m) && k in m.embeddings
    ensures k == FactId.Text(id) && FactId.ParseId(k) == Ok(id)
    ensures m.embeddings[k] != [] && m.embeddingDim == Some(|m.embeddings[k]|)
  {
    id := m.facts[m.keyById[k]].id;
    FactId.ParseUndoesText(id);
    hide FactId.Text, Queries.RowKeyed;
  }

  lemma TextInjective(a: FactId.Id, b: FactId.Id)
    requires FactId.Text(a) == FactId.Text(b)
    ensures a == b
  {
    FactId.ParseUndoesText(a);
    FactId.ParseUndoesText(b);
  }

  lemma InsertMirrorsKeys(v: Vectors, m: Memory, done: set<string>, id: FactId.Id)
    requires MirrorsKeys(v, m, done) && FactId.Text(id) in m.embeddings
    requires var e := m.embeddings[FactId.Text(id)]; e != [] && m.embeddingDim == Some(|e|)
    ensures var e := m.embeddings[FactId.Text(id)];
      Accepts(v, e) && MirrorsKeys(Inserted(v, id, e), m, done + {FactId.Text(id)})
  {
    var e := m.embeddings[FactId.Text(id)];
    var after := Inserted(v, id, e);
    forall x: FactId.Id ensures x in after.table <==> FactId.Text(x) in done + {FactId.Text(id)} {
      if FactId.Text(x) == FactId.Text(id) { TextInjective(x, id); }
    }
    hide FactId.Text;
  }

  lemma {:induction false} RebuildMirrorsKeys(m: Memory, ks: seq<string>, done: set<string>, v: Vectors)
    requires Coherent(m) && MirrorsKeys(v, m, done)
    requires forall i :: 0 <= i < |ks| ==> ks[i] in m.embeddings
    ensures Rebuild(m, ks, v).Some? && MirrorsKeys(Rebuild(m, ks, v).value, m, done + (set k | k in ks))
    decreases |ks|
  {
    hide Coherent, MirrorsKeys, FactId.Text, Inserted, Accepts;
    if ks == [] {
      assert done + (set k | k in ks) == done;
    } else {
      var id := EmbeddingKeyIsId(m, ks[0]);
      InsertMirrorsKeys(v, m, done, id);
      RebuildMirrorsKeys(m, ks[1..], done + {ks[0]}, Inserted(v, id, m.embeddings[ks[0]]));
      assert done + {ks[0]} + (set k | k in ks[1..]) == done + (set k | k in ks);
    }
  }

  ghost function Rebuilt(m: Memory): Option<Vectors>
  {
    ListingCovers(m.embeddings);
    Rebuild(m, Listing(m.embeddings.Keys), NONE)
  }

  /** Rebuilding the index from a coherent state succeeds and mirrors its embeddings. */
  lemma RebuiltMirrors(m: Memory)
    requires Coherent(m)
    ensures Rebuilt(m).Some? && Mirrors(Rebuilt(m).value, m)
  {
    hide Rebuild, MirrorsKeys, FactId.Text, Listing, Lists, Coherent, Mirrors;
    ListingCovers(m.embeddings);
    var ks := Listing(m.embeddings.Keys);
    NothingMirrored(m);
    RebuildMirrorsKeys(m, ks, {}, NONE);
    assert {} + (set k | k in ks) == m.embeddings.Keys;
    AllMirrored(Rebuild(m, ks, NONE).value, m);
  }

  lemma NothingMirrored(m: Memory)
    ensures MirrorsKeys(NONE, m, {})
  {
  }

  lemma AllMirrored(v: Vectors, m: Memory)
    requires Coherent(m) && MirrorsKeys(v, m, m.embeddings.Keys)
    ensures Mirrors(v, m)
  {
    EmbeddedDimension(m);
    hide FactId.Text, Coherent;
  }

  lemma EmbeddedDimension(m: Memory)
    requires Coherent(m)
    ensures m.embeddings.Keys == {} ==> m.embeddingDim.None?
  {
  }

  /** There is one index that mirrors a state, so a rebuilt one is the one kept up to date. */
  lemma MirrorIsUnique(v: Vectors, w: Vectors, m: Memory)
    requires Mirrors(v, m) && Mirrors(w, m)
    ensures v == w
  {
    hide FactId.Text;
    assert v.table.Keys == w.table.Keys;
    assert v.table == w.table;
  }

  // ---- Keeping the index up to date --------------------------------------

  /** What a step does to the index: an insert after an accepted write, a rebuild on opening. */
  ghost function NextVectors(db: Db, v: Vectors, step: Step): Vectors
  {
    match step
    case AssertEmbedded(f, e) => if EmbeddingFits(db.memory, e) then Inserted(v, f.id, e) else v
    case Reopen => (match Rebuilt(Next(db, step).memory) case Some(w) => w case None => v)
    case Crash(_) => (match Rebuilt(Next(db, step).memory) case Some(w) => w case None => v)
    case _ => v
  }

  /** The insert that follows a durable write never fails. */
  lemma InsertNeverFails(v: Vectors, m: Memory, e: seq<Float>)
    requires Mirrors(v, m)
    ensures EmbeddingFits(m, e) <==> Accepts(v, e)
  {
    hide FactId.Text;
  }

  lemma EmbeddedMirrors(db: Db, v: Vectors, f: Fact, e: seq<Float>)
    requires Mirrors(v, db.memory)
    ensures Mirrors(NextVectors(db, v, AssertEmbedded(f, e)), WriteEmbedded(db, f, e).memory)
  {
    InsertNeverFails(v, db.memory, e);
    if EmbeddingFits(db.memory, e) {
      var after := WriteEmbedded(db, f, e).memory;
      EmbeddingsAfter(db.memory, UpsertFactWithEmbedding(RowKey(f), f, e));
      hide Apply, RowKey;
      var w := Inserted(v, f.id, e);
      forall x: FactId.Id ensures x in w.table <==> FactId.Text(x) in after.embeddings
        ensures x in w.table ==> w.table[x] == after.embeddings[FactId.Text(x)] {
        if FactId.Text(x) == FactId.Text(f.id) { TextInjective(x, f.id); }
      }
    }
  }

  lemma EmbeddingsAfter(m: Memory, r: Record)
    ensures var n := Apply(m, r);
      if r.UpsertFactWithEmbedding? then
        n.embeddings == m.embeddings[FactId.Text(r.fact.id) := r.embedding]
        && n.embeddingDim == if m.embeddingDim.None? then Some(|r.embedding|) else m.embeddingDim
      else n.embeddings == m.embeddings && n.embeddingDim == m.embeddingDim
  {
    hide FactId.Text, UpsertChains;
  }

  predicate SameEmbeddings(a: Memory, b: Memory)
  {
    a.embeddings == b.embeddings && a.embeddingDim == b.embeddingDim
  }

  lemma OtherCommit(db: Db, r: Record)
    requires !r.UpsertFactWithEmbedding?
    ensures SameEmbeddings(Commit(db, r).memory, db.memory)
  {
    EmbeddingsAfter(db.memory, r);
    hide Apply;
  }

  lemma InitializeSame(db: Db)
    ensures SameEmbeddings(InitializeSchema(db).memory, db.memory)
  {
  }

  lemma InvalidateSame(db: Db, id: FactId.Id, at: Rfc3339.Timestamp)
    ensures SameEmbeddings(InvalidateFact(db, id, at).memory, db.memory)
  {
    hide Commit, Database.FactById;
    if Database.FactById(db.memory, id).Some? {
      var row := Database.FactById(db.memory, id).value;
      OtherCommit(db, ReplaceFact(row.key, Ended(row.fact, at)));
    }
  }

  lemma OtherStepsSame(db: Db, step: Step)
    requires !step.AssertEmbedded? && !step.Reopen? && !step.Crash?
    ensures SameEmbeddings(Next(db, step).memory, db.memory)
  {
    hide Commit, InitializeSchema, InvalidateFact, ContradictionsOf, CompactionRecords, RowKey;
    match step
    case Initialize => InitializeSame(db);
    case SetEntry(kind, name, encoded) => OtherCommit(db, Compaction.Entry(kind, name, encoded));
    case Assert(f) => OtherCommit(db, UpsertFact(RowKey(f), f));
    case AssertIdempotent(k, f) => OtherCommit(db, UpsertFactAndIdempotency(RowKey(f), f, k));
    case AssertChecked(f, _) => OtherCommit(db, UpsertFact(RowKey(f), f));
    case Invalidate(id, at) => InvalidateSame(db, id, at);
    case Compact =>
  }

  lemma SameMirrors(v: Vectors, a: Memory, b: Memory)
    requires Mirrors(v, a) && SameEmbeddings(b, a)
    ensures Mirrors(v, b)
  {
    hide FactId.Text;
  }

  lemma CoherentAfter(db: Db)
    requires Good(db)
    ensures Coherent(db.memory)
  {
    hide SoundLog, Coherent, WritableMemory, SameUpToTies;
  }

  /** Every step keeps the index a mirror of the store. */
  lemma NextMirrors(db: Db, v: Vectors, step: Step)
    requires Good(db) && Possible(db, step) && Mirrors(v, db.memory)
    ensures Good(Next(db, step)) && Mirrors(NextVectors(db, v, step), Next(db, step).memory)
  {
    hide Good, Mirrors, Next, Rebuilt, Coherent, Possible, WriteEmbedded, Inserted, EmbeddingFits;
    NextGood(db, step);
    CoherentAfter(Next(db, step));
    if step.AssertEmbedded? {
      EmbeddedMirrors(db, v, step.f, step.embedding);
      EmbeddedStep(db, step);
    } else if step.Reopen? || step.Crash? {
      RebuiltMirrors(Next(db, step).memory);
    } else {
      OtherStepsSame(db, step);
      SameMirrors(v, db.memory, Next(db, step).memory);
    }
  }

  lemma EmbeddedStep(db: Db, step: Step)
    requires step.AssertEmbedded?
    ensures Next(db, step) == WriteEmbedded(db, step.f, step.embedding)
  {
  }

  ghost function RunVectors(db: Db, v: Vectors, steps: seq<Step>): Vectors
    decreases |steps|
  {
    if steps == [] then v else RunVectors(Next(db, steps[0]), NextVectors(db, v, steps[0]), steps[1..])
  }

  lemma {:induction false} RunMirrors(db: Db, v: Vectors, steps: seq<Step>)
    requires Good(db) && PossibleRun(db, steps) && Mirrors(v, db.memory)
    ensures Good(Run(db, steps)) && Mirrors(RunVectors(db, v, steps), Run(db, steps).memory)
    decreases |steps|
  {
    hide Good, Mirrors, Next, NextVectors, Possible;
    if steps != [] {
      NextMirrors(db, v, steps[0]);
      RunMirrors(Next(db, steps[0]), NextVectors(db, v, steps[0]), steps[1..]);
    }
  }

  /**
   Cache coherence.  After any run the index holds exactly the stored embeddings, all of one
   dimension, and rebuilding it would give the same index.
   */
  lemma CacheCoherence(steps: seq<Step>)
    requires PossibleRun(NEW, steps)
    ensures var m := Run(NEW, steps).memory; var v := RunVectors(NEW, NONE, steps);
      Mirrors(v, m) && Rebuilt(m) == Some(v)
    ensures var v := RunVectors(NEW, NONE, steps);
      forall id: FactId.Id :: id in v.table ==> v.dim == Some(|v.table[id]|) && v.table[id] != []
  {
    EmptyGood();
    EmptyMirror();
    RunMirrors(NEW, NONE, steps);
    var m, v := Run(NEW, steps).memory, RunVectors(NEW, NONE, steps);
    CoherentAfter(Run(NEW, steps));
    RebuiltMirrors(m);
    MirrorIsUnique(Rebuilt(m).value, v, m);
    hide Good, Run, RunVectors, PossibleRun, FactId.Text, Rebuilt;
    forall id: FactId.Id | id in v.table ensures v.dim == Some(|v.table[id]|) && v.table[id] != [] {
      assert FactId.Text(id) in m.embeddings;
    }
  }

  lemma EmptyMirror()
    ensures Mirrors(NONE, NEW.memory)
  {
  }
}
