/**
 What every reachable in-memory state of the append log satisfies beside its indexes
 (crates/core/src/storage_append_log.rs:469-528): rows sit under their own keys, rows and ids
 name each other, embeddings and idempotency entries belong to stored facts, and all embeddings
 have the dimension of the first.

 A record is admissible in a state when writing it keeps this; the records of the backend are.
 */
module Coherence {
  import opened Prelude
  import opened Json
  import opened Facts
  import opened Records
  import opened RecordRoundTrip
  import opened LogState
  import opened Queries
  import FactId
  import Utf8

  /** Rows and ids name each other. */
  predicate IdsMatch(facts: FactTable, keyById: map<string, string>)
  {
    (forall k :: k in facts ==> FactId.Text(facts[k].id) in keyById && keyById[FactId.Text(facts[k].id)] == k)
    && (forall t :: t in keyById ==> keyById[t] in facts && FactId.Text(facts[keyById[t]].id) == t)
  }

  /** Embeddings belong to stored facts and share one dimension. */
  predicate EmbeddingsMatch(m: Memory)
  {
    (forall t :: t in m.embeddings ==>
      t in m.keyById && |m.embeddings[t]| > 0 && m.embeddingDim == Some(|m.embeddings[t]|))
    && (m.embeddings == map[] ==> m.embeddingDim.None?)
  }

  predicate IdempotencyMatches(m: Memory)
  {
    forall k :: k in m.idempotency ==> m.idempotency[k] in m.keyById
  }

  /** A version is only recorded after a header, and is the current one. */
  predicate VersionMatches(m: Memory)
  {
    m.schemaVersion.Some? ==> m.schemaVersion.value == SCHEMA_VERSION && m.headerPresent
  }

  predicate Coherent(m: Memory)
  {
    VersionMatches(m) && RowKeyed(m.facts) && IdsMatch(m.facts, m.keyById) && EmbeddingsMatch(m) && IdempotencyMatches(m)
  }

  // ---- Admissible records ------------------------------------------------

  /** The row is under its own key, and a known id stays with its key. */
  predicate AdmissibleRow(m: Memory, key: string, fact: Fact)
  {
    key == RowKey(fact)
    && (FactId.Text(fact.id) in m.keyById ==> m.keyById[FactId.Text(fact.id)] == key)
  }

  predicate AdmissibleEmbedding(m: Memory, embedding: seq<Float>)
  {
    embedding != [] && (m.embeddingDim.Some? ==> m.embeddingDim.value == |embedding|)
  }

  predicate Admissible(m: Memory, r: Record)
  {
    match r
    case Header(magic) => magic == MAGIC
    case SchemaVersion(version) => version == SCHEMA_VERSION && m.headerPresent
    case UpsertFact(key, fact) => AdmissibleRow(m, key, fact)
    case ReplaceFact(key, fact) => AdmissibleRow(m, key, fact)
    case UpsertFactAndIdempotency(key, fact, _) => AdmissibleRow(m, key, fact)
    case UpsertFactWithEmbedding(key, fact, embedding) =>
      AdmissibleRow(m, key, fact) && AdmissibleEmbedding(m, embedding)
    case _ => true
  }

  lemma RowStaysKeyed(m: Memory, key: string, fact: Fact)
    requires RowKeyed(m.facts) && IdsMatch(m.facts, m.keyById) && AdmissibleRow(m, key, fact)
    ensures var n := Upsert(m, key, fact); RowKeyed(n.facts) && IdsMatch(n.facts, n.keyById)
  {
    var n, t := Upsert(m, key, fact), FactId.Text(fact.id);
    if key in m.facts {
      RowKeyParts(m.facts[key], fact);
    }
    hide RowKey, FactId.Text, UpsertChains;
    forall k | k in n.facts ensures FactId.Text(n.facts[k].id) in n.keyById && n.keyById[FactId.Text(n.facts[k].id)] == k {
      if k != key { assert k in m.facts; }
    }
  }

  lemma UpsertCoherent(m: Memory, key: string, fact: Fact)
    requires VersionMatches(m) && RowKeyed(m.facts) && IdsMatch(m.facts, m.keyById) && AdmissibleRow(m, key, fact)
    requires forall t :: t in m.embeddings ==> (t in m.keyById || t == FactId.Text(fact.id))
    requires forall t :: t in m.embeddings ==> |m.embeddings[t]| > 0 && m.embeddingDim == Some(|m.embeddings[t]|)
    requires m.embeddings == map[] ==> m.embeddingDim.None?
    requires forall k :: k in m.idempotency ==> (m.idempotency[k] in m.keyById || m.idempotency[k] == FactId.Text(fact.id))
    ensures Coherent(Upsert(m, key, fact))
  {
    RowStaysKeyed(m, key, fact);
    hide UpsertChains, RowKeyed, IdsMatch, AdmissibleRow, FactId.Text;
  }

  /** An admissible record keeps a coherent state coherent. */
  lemma ApplyCoherent(m: Memory, r: Record)
    requires Coherent(m) && Admissible(m, r)
    ensures Coherent(Apply(m, r))
  {
    hide RowKeyed, IdsMatch, FactId.Text, UpsertChains, RowKey;
    match r
    case UpsertFact(key, fact) => UpsertCoherent(m, key, fact);
    case ReplaceFact(key, fact) => UpsertCoherent(m, key, fact);
    case UpsertFactAndIdempotency(key, fact, k) =>
      UpsertCoherent(m.(idempotency := m.idempotency[k := FactId.Text(fact.id)]), key, fact);
    case UpsertFactWithEmbedding(key, fact, embedding) =>
      hide Upsert;
      EmbedReady(m, fact, embedding);
      UpsertCoherent(Embed(m, fact.id, embedding), key, fact);
    case _ =>
  }

  lemma EmbedReady(m: Memory, fact: Fact, embedding: seq<Float>)
    requires EmbeddingsMatch(m) && AdmissibleEmbedding(m, embedding)
    ensures var n := Embed(m, fact.id, embedding);
      (forall t :: t in n.embeddings ==> (t in n.keyById || t == FactId.Text(fact.id)))
      && (forall t :: t in n.embeddings ==> |n.embeddings[t]| > 0 && n.embeddingDim == Some(|n.embeddings[t]|))
      && n.embeddings != map[]
  {
    hide FactId.Text;
    assert FactId.Text(fact.id) in Embed(m, fact.id, embedding).embeddings;
  }

  // ---- Admissible logs ---------------------------------------------------

  predicate AdmissibleFrom(m: Memory, rs: seq<Record>)
    decreases |rs|
  {
    rs == [] || (Admissible(m, rs[0]) && AdmissibleFrom(Apply(m, rs[0]), rs[1..]))
  }

  lemma {:induction false} AdmissibleConcat(m: Memory, a: seq<Record>, b: seq<Record>)
    ensures AdmissibleFrom(m, a + b) <==> AdmissibleFrom(m, a) && AdmissibleFrom(ReplayOn(m, a), b)
    decreases |a|
  {
    hide Apply, Admissible;
    if a == [] {
      assert a + b == b;
    } else {
      assert (a + b)[1..] == a[1..] + b;
      AdmissibleConcat(Apply(m, a[0]), a[1..], b);
    }
  }

  lemma {:induction false} ReplayCoherent(m: Memory, rs: seq<Record>)
    requires Coherent(m) && AdmissibleFrom(m, rs)
    ensures Coherent(ReplayOn(m, rs))
    decreases |rs|
  {
    hide Coherent, Admissible, Apply;
    if rs != [] {
      ApplyCoherent(m, rs[0]);
      ReplayCoherent(Apply(m, rs[0]), rs[1..]);
    }
  }

  lemma HeaderStays(m: Memory, r: Record)
    requires Admissible(m, r) && (m.headerPresent || r == Header(MAGIC))
    ensures Apply(m, r).headerPresent
  {
    hide UpsertChains, FactId.Text;
  }

  /** An admissible log keeps its header. */
  lemma {:induction false} ReplayHeaded(m: Memory, rs: seq<Record>)
    requires AdmissibleFrom(m, rs) && m.headerPresent
    ensures ReplayOn(m, rs).headerPresent
    decreases |rs|
  {
    hide Apply, Admissible;
    if rs != [] {
      HeaderStays(m, rs[0]);
      ReplayHeaded(Apply(m, rs[0]), rs[1..]);
    }
  }

  // ---- What the state could write ----------------------------------------

  /** All texts of the state are strings, so that all of it can be written. */
  predicate WritableMemory(m: Memory)
  {
    (forall k :: k in m.predicateRegistry ==> Utf8.Valid(k) && Utf8.Valid(m.predicateRegistry[k]))
    && (forall k :: k in m.volatilityRegistry ==> Utf8.Valid(k) && Utf8.Valid(m.volatilityRegistry[k]))
    && (forall k :: k in m.sourceWeightRegistry ==> Utf8.Valid(k) && Utf8.Valid(m.sourceWeightRegistry[k]))
    && (forall k :: k in m.facts ==> Utf8.Valid(k) && WritableFact(m.facts[k]))
    && (forall k :: k in m.idempotency ==> Utf8.Valid(k))
    && (forall t :: t in m.embeddings ==>
         forall i :: 0 <= i < |m.embeddings[t]| ==> WritableFloat(m.embeddings[t][i]))
  }

  /** All floats and instants of the state would read back. */
  predicate StorableMemory(m: Memory)
  {
    (forall k :: k in m.facts ==> FiniteFact(m.facts[k]) && DatedFact(m.facts[k]))
    && (forall t :: t in m.embeddings ==>
         forall i :: 0 <= i < |m.embeddings[t]| ==> m.embeddings[t][i].Finite?)
  }

  lemma UpsertWritable(m: Memory, key: string, fact: Fact)
    requires WritableMemory(m) && Utf8.Valid(key) && WritableFact(fact)
    ensures WritableMemory(Upsert(m, key, fact))
  {
    hide UpsertChains, FactId.Text, Utf8.Valid, WritableFact, WritableFloat;
  }

  lemma EmbedWritable(m: Memory, id: FactId.Id, embedding: seq<Float>)
    requires WritableMemory(m) && forall i :: 0 <= i < |embedding| ==> WritableFloat(embedding[i])
    ensures WritableMemory(Embed(m, id, embedding))
  {
    hide FactId.Text, Utf8.Valid, WritableFact, WritableFloat;
  }

  lemma KeyWritable(m: Memory, k: string, id: string)
    requires WritableMemory(m) && Utf8.Valid(k)
    ensures WritableMemory(m.(idempotency := m.idempotency[k := id]))
  {
    hide Utf8.Valid, WritableFact, WritableFloat;
  }

  lemma OtherWritable(m: Memory, r: Record)
    requires WritableMemory(m) && WritableRecord(r)
    ensures r.Header? || r.SchemaVersion? || r.PredicateEntry? || r.VolatilityEntry? || r.SourceWeightEntry?
      ==> WritableMemory(Apply(m, r))
  {
    hide Upsert, Embed, Utf8.Valid, WritableFact, WritableFloat;
  }

  lemma ApplyWritable(m: Memory, r: Record)
    requires WritableMemory(m) && WritableRecord(r)
    ensures WritableMemory(Apply(m, r))
  {
    hide Upsert, Embed, FactId.Text, Utf8.Valid, WritableFact, WritableFloat, WritableMemory;
    OtherWritable(m, r);
    match r
    case UpsertFact(key, fact) => UpsertWritable(m, key, fact);
    case ReplaceFact(key, fact) => UpsertWritable(m, key, fact);
    case UpsertFactAndIdempotency(key, fact, k) =>
      KeyWritable(m, k, FactId.Text(fact.id));
      UpsertWritable(m.(idempotency := m.idempotency[k := FactId.Text(fact.id)]), key, fact);
    case UpsertFactWithEmbedding(key, fact, embedding) =>
      EmbedWritable(m, fact.id, embedding);
      UpsertWritable(Embed(m, fact.id, embedding), key, fact);
    case _ =>
  }

  lemma ApplyStorable(m: Memory, r: Record)
    requires StorableMemory(m) && Storable(r)
    ensures StorableMemory(Apply(m, r))
  {
    hide UpsertChains, FactId.Text, FiniteFact, DatedFact;
  }

  lemma {:induction false} ReplayWritable(m: Memory, rs: seq<Record>)
    requires WritableMemory(m) && forall i :: 0 <= i < |rs| ==> WritableRecord(rs[i])
    ensures WritableMemory(ReplayOn(m, rs))
    decreases |rs|
  {
    hide WritableMemory, WritableRecord, Apply;
    if rs != [] {
      ApplyWritable(m, rs[0]);
      ReplayWritable(Apply(m, rs[0]), rs[1..]);
    }
  }

  lemma {:induction false} ReplayStorable(m: Memory, rs: seq<Record>)
    requires StorableMemory(m) && forall i :: 0 <= i < |rs| ==> Storable(rs[i])
    ensures StorableMemory(ReplayOn(m, rs))
    decreases |rs|
  {
    hide StorableMemory, Storable, Apply;
    if rs != [] {
      ApplyStorable(m, rs[0]);
      ReplayStorable(Apply(m, rs[0]), rs[1..]);
    }
  }
}
