/**
 `TemporalGraph` (crates/core/src/temporal_graph.rs:482-851, 897-926, 1000-1093): the store with
 the caches beside it.  Identifiers and the time of recording, which the program takes from its
 generator and clock, come as parameters.

 Every method does one step of `Database` on the store, and leaves the vector index a mirror of
 the stored embeddings.
 */
module TemporalGraph {
  import opened Prelude
  import opened Json
  import opened Facts
  import opened Records
  import opened LogState
  import opened Queries
  import opened Coherence
  import opened Compaction
  import opened Database
  import opened Contradictions
  import opened VectorCoherence
  import opened Vectors
  import PredicateRegistry
  import Singletons
  import Temporal
  import UncertaintyRegistry
  import Backend
  import FactId
  import opened Rfc3339

  datatype GraphError =
    | InvalidFactId(e: FactId.IdError)
    | NotFound
    | BadEmbedding
    | NotFinite
    | CorruptId
    | BadRegistration
    | ContradictionRejected(found: seq<Contradiction>)

  const ZERO := Finite(NumberToken(false, "0", "", ""))

  /** A confidence brought into `[0, 1]`. */
  function Clamped(n: NumberToken): Float
  {
    if NumberValue(n) < 0.0 then ZERO else if NumberValue(n) > 1.0 then Temporal.ONE else Finite(n)
  }

  /** What a caller asserts, with the identifier and the instant that the generator and the clock give. */
  datatype Assertion = Assertion(
    id: FactId.Id,
    now: Timestamp,
    subject: string,
    predicate_: string,
    object_: Value,
    validFrom: Timestamp)

  /** The fact says what was asserted, is current, and was recorded now. */
  predicate Says(f: Fact, a: Assertion)
  {
    f.id == a.id && f.subject == a.subject && f.predicate_ == a.predicate_ && f.object_ == a.object_
    && f.validFrom == a.validFrom && f.validTo.None? && f.recordedAt == a.now && f.expiredAt.None?
  }

  /** A fact as it is asserted, its confidence the given one or the nearer bound of `[0, 1]`. */
  function BuildFact(a: Assertion, confidence: Float, source: Option<string>): (r: Result<Fact, GraphError>)
    ensures r.Ok? <==> confidence.Finite?
    ensures r.Ok? ==> Says(r.value, a) && r.value.source == source && r.value.confidence.Finite?
    ensures r.Ok? && 0.0 <= NumberValue(confidence.n) <= 1.0 ==> r.value.confidence == confidence
    ensures r.Ok? && NumberValue(confidence.n) < 0.0 ==> NumberValue(r.value.confidence.n) == 0.0
    ensures r.Ok? && NumberValue(confidence.n) > 1.0 ==> NumberValue(r.value.confidence.n) == 1.0
  {
    if !confidence.Finite? then Err(NotFinite)
    else
      OneDigit();
      Ok(Fact(a.id, a.subject, a.predicate_, a.object_, a.validFrom, None, a.now, None, Clamped(confidence.n), source))
  }

  /** A fact asserted without a confidence: of confidence one and no source. */
  function AssertedFact(a: Assertion): (f: Fact)
    ensures Says(f, a) && f.source.None? && f.confidence.Finite? && NumberValue(f.confidence.n) == 1.0
  {
    OneDigit();
    BuildFact(a, Temporal.ONE, None).value
  }

  lemma OneDigit()
    ensures NumberValue(ZERO.n) == 0.0 && NumberValue(Temporal.ONE.n) == 1.0
  {
    assert PowerOfTen(0) == 1.0;
    assert "0"[..0] == "" && "1"[..0] == "";
    assert Decimals.DigitsValue("") == 0;
    assert Decimals.DigitsValue("0") == 0 && Decimals.DigitsValue("1") == 1;
  }

  // ---- What an assertion leaves ------------------------------------------

  /** The id is stored nowhere. */
  predicate Unused(m: Memory, id: FactId.Id)
  {
    Coherent(m) && FactId.Text(id) !in m.keyById
  }

  /** The asserted value is among the answers at an instant. */
  ghost predicate Answered(m: Memory, a: Assertion, t: Timestamp)
  {
    exists row :: row in FactsAt(m, a.subject, a.predicate_, t) && row.fact.id == a.id && row.fact.object_ == a.object_
  }

  /** It is from its beginning on, and not before. */
  ghost predicate AnswersFrom(m: Memory, a: Assertion)
  {
    forall t: Timestamp :: Answered(m, a, t) <==> t >= a.validFrom
  }

  /** Exactly the fact was added to the log and to the rows. */
  predicate Added(before: Db, after: Db, r: Record, f: Fact)
  {
    after.log == before.log + [r] && after.memory.facts == before.memory.facts[RowKey(f) := f]
  }

  lemma AssertionAnswers(before: Memory, after: Memory, a: Assertion, f: Fact)
    requires Unused(before, a.id) && Says(f, a)
    requires after.facts == before.facts[RowKey(f) := f] && Chained(after.facts, after.chains)
    ensures AnswersFrom(after, a)
  {
    hide Chained, RowKey, FactId.Text, FactsAt, WasValidAt, Descends, PairPrefix;
    OnlyRow(before, after, a, f);
    forall t: Timestamp ensures Answered(after, a, t) <==> t >= a.validFrom {
      FactsAtIsNaive(after, a.subject, a.predicate_, t);
      CurrentFromBeginning(f, t);
      if t >= a.validFrom {
        assert FiledAnswer(after.facts, a.subject, a.predicate_, t, Row(RowKey(f), f));
      }
      if Answered(after, a, t) {
        var row :| row in FactsAt(after, a.subject, a.predicate_, t) && row.fact.id == a.id && row.fact.object_ == a.object_;
        assert FiledAnswer(after.facts, a.subject, a.predicate_, t, row);
      }
    }
  }

  /** A correction of a known fact, with an identifier that is not in use. */
  lemma CorrectionOf(db: Db, id: FactId.Id, c: Temporal.Correction)
    requires Unused(db.memory, c.id) && Database.FactById(db.memory, id).Some? && Chained(db.memory.facts, db.memory.chains)
    ensures Temporal.CorrectedTo(db, Temporal.CorrectFact(db, id, c), id, c)
  {
    hide Chained, Temporal.CorrectedTo, Database.FactById, Temporal.CorrectFact, Coherent, FactId.Text;
    Temporal.CorrectionStores(db, id, c);
  }

  lemma CurrentFromBeginning(f: Fact, t: Timestamp)
    requires IsCurrentlyValid(f)
    ensures WasValidAt(f, t) <==> t >= f.validFrom
  {
  }

  lemma OnlyRow(before: Memory, after: Memory, a: Assertion, f: Fact)
    requires Unused(before, a.id) && Says(f, a) && after.facts == before.facts[RowKey(f) := f]
    ensures forall k :: k in after.facts && after.facts[k].id == a.id ==> k == RowKey(f)
  {
    hide RowKeyed, FactId.Text, RowKey, EmbeddingsMatch, IdempotencyMatches;
  }

  class Graph {
    const store: Backend.Store
    const detector: Detector
    const vectors: VectorIndex
    const uncertainty: UncertaintyRegistry.Engine

    ghost predicate Valid()
      reads this, store, store.state, vectors
    {
      store.Valid() && vectors.Valid() && Mirrors(vectors.Contents(), store.state.Contents())
    }

    ghost function Value(): Db
      reads this, store, store.state
    {
      store.Value()
    }

    constructor (backing: Backend.Store, loaded: Detector, index: VectorIndex, engine: UncertaintyRegistry.Engine)
      requires backing.Valid() && index.Valid() && Mirrors(index.Contents(), backing.state.Contents())
      ensures Valid() && store == backing && detector == loaded && vectors == index && uncertainty == engine
    {
      store, detector, vectors, uncertainty := backing, loaded, index, engine;
    }

    /** Write a built fact. */
    method WriteBuilt(f: Fact)
      requires Valid()
      modifies store, store.state
      ensures Valid() && Value() == WriteFact(old(Value()), f)
      ensures Added(old(Value()), Value(), UpsertFact(RowKey(f), f), f)
    {
      hide Mirrors, Apply, RowKey;
      OtherCommit(Value(), UpsertFact(RowKey(f), f));
      FactsAfter(Value().memory, UpsertFact(RowKey(f), f), RowKey(f), f);
      store.WriteFact(f);
      SameMirrors(vectors.Contents(), old(store.state.Contents()), store.state.Contents());
    }

    method AssertFact(a: Assertion) returns (id: FactId.Id)
      requires Valid()
      modifies store, store.state
      ensures Valid() && id == a.id && Value() == WriteFact(old(Value()), AssertedFact(a))
      ensures Added(old(Value()), Value(), UpsertFact(RowKey(AssertedFact(a)), AssertedFact(a)), AssertedFact(a))
      ensures Unused(old(store.state.Contents()), a.id) ==> AnswersFrom(store.state.Contents(), a)
    {
      hide Mirrors, Apply, RowKey, AnswersFrom, Unused;
      var f := AssertedFact(a);
      WriteBuilt(f);
      if Unused(old(store.state.Contents()), a.id) {
        AssertionAnswers(old(store.state.Contents()), store.state.Contents(), a, f);
      }
      id := f.id;
    }

    /** With a confidence, and a source if there is one. */
    method AssertFactWithSource(a: Assertion, confidence: Float, source: Option<string>) returns (result: Result<FactId.Id, GraphError>)
      requires Valid()
      modifies store, store.state
      ensures Valid() && (result.Ok? <==> confidence.Finite?)
      ensures result.Err? ==> Value() == old(Value())
      ensures result.Ok? ==> result.value == a.id && BuildFact(a, confidence, source).Ok?
      ensures result.Ok? ==> var f := BuildFact(a, confidence, source).value; Added(old(Value()), Value(), UpsertFact(RowKey(f), f), f)
      ensures result.Ok? && Unused(old(store.state.Contents()), a.id) ==> AnswersFrom(store.state.Contents(), a)
    {
      hide Mirrors, Apply, RowKey, AnswersFrom, Unused, NumberValue;
      match BuildFact(a, confidence, source) {
        case Err(e) => return Err(e);
        case Ok(f) =>
          WriteBuilt(f);
          if Unused(old(store.state.Contents()), a.id) {
            AssertionAnswers(old(store.state.Contents()), store.state.Contents(), a, f);
          }
          return Ok(f.id);
      }
    }

    /** Look the key up, and only if it is unknown write the fact with it. */
    method AssertFactIdempotent(k: string, a: Assertion) returns (id: Result<FactId.Id, GraphError>)
      requires Valid()
      modifies store, store.state
      ensures Valid() && Value() == WriteIdempotent(old(Value()), k, AssertedFact(a))
      ensures k in store.state.idempotency
      ensures forall x: FactId.Id :: store.state.idempotency[k] == FactId.Text(x) ==> id == Ok(x)
      ensures k in old(store.state.idempotency) ==> Value() == old(Value())
      ensures k !in old(store.state.idempotency) ==> id == Ok(a.id)
      ensures var f := AssertedFact(a);
        k !in old(store.state.idempotency) ==> Added(old(Value()), Value(), UpsertFactAndIdempotency(RowKey(f), f, k), f)
      ensures k !in old(store.state.idempotency) && Unused(old(store.state.Contents()), a.id) ==> AnswersFrom(store.state.Contents(), a)
    {
      hide Mirrors, Apply, RowKey, FactId.Text, AnswersFrom, Unused;
      var f := AssertedFact(a);
      OtherCommit(Value(), UpsertFactAndIdempotency(RowKey(f), f, k));
      FactsAfter(Value().memory, UpsertFactAndIdempotency(RowKey(f), f, k), RowKey(f), f);
      Backend.IdempotencyRecorded(Value().memory, k, f);
      var known := store.GetIdempotency(k);
      match known {
        case Err(_) => return Err(CorruptId);
        case Ok(Some(x)) => return Ok(x);
        case Ok(None) =>
      }
      var written := store.WriteFactAndIdempotency(k, f);
      assert SameEmbeddings(store.state.Contents(), old(store.state.Contents()));
      SameMirrors(vectors.Contents(), old(store.state.Contents()), store.state.Contents());
      if k !in old(store.state.idempotency) && Unused(old(store.state.Contents()), a.id) {
        AssertionAnswers(old(store.state.Contents()), store.state.Contents(), a, f);
      }
      match written {
        case Ok(x) => id := Ok(x);
        case Err(_) => id := Err(CorruptId);
      }
    }

    method InvalidateFact(text: string, at: Timestamp) returns (failed: Option<GraphError>)
      requires Valid()
      modifies store, store.state
      ensures Valid()
      ensures match FactId.ParseId(text)
        case Err(e) => failed == Some(InvalidFactId(e)) && Value() == old(Value())
        case Ok(id) =>
          Value() == Database.InvalidateFact(old(Value()), id, at) == Next(old(Value()), Invalidate(id, at))
          && failed == if Database.FactById(old(store.state.Contents()), id).Some? then None else Some(NotFound)
      ensures var read := FactId.ParseId(text);
        failed.None? && Coherent(old(store.state.Contents())) ==>
          read.Ok? && Temporal.EndedAt(old(Value()), Value(), read.value, at)
    {
      hide Mirrors, Apply, FactId.ParseId, Database.FactById, Coherent, Temporal.EndedAt;
      match FactId.ParseId(text) {
        case Err(e) => return Some(InvalidFactId(e));
        case Ok(id) =>
          var found := store.FactById(id);
          match found {
            case None => return Some(NotFound);
            case Some(row) =>
              if Coherent(Value().memory) { Temporal.InvalidationStores(Value(), id, at); }
              var ended := row.fact.(validTo := Some(at), expiredAt := Some(at));
              OtherCommit(Value(), ReplaceFact(row.key, ended));
              store.ReplaceFactRow(row.key, ended);
              SameMirrors(vectors.Contents(), old(store.state.Contents()), store.state.Contents());
              return None;
          }
      }
    }

    /** End the old fact, then assert its replacement. */
    method CorrectFact(text: string, c: Temporal.Correction) returns (result: Result<FactId.Id, GraphError>)
      requires Valid()
      modifies store, store.state
      ensures Valid()
      ensures match FactId.ParseId(text)
        case Err(e) => result == Err(InvalidFactId(e)) && Value() == old(Value())
        case Ok(id) =>
          Value() == Temporal.CorrectFact(old(Value()), id, c)
          && result == if Database.FactById(old(store.state.Contents()), id).Some? then Ok(c.id) else Err(NotFound)
      ensures var read := FactId.ParseId(text);
        result.Ok? && Unused(old(store.state.Contents()), c.id) ==>
          read.Ok? && Temporal.CorrectedTo(old(Value()), Value(), read.value, c)
    {
      hide FactId.ParseId, Database.FactById, Database.InvalidateFact, Database.WriteFact, Mirrors, Unused, Temporal.CorrectedTo,
           Temporal.EndedAt;
      match FactId.ParseId(text) {
        case Err(e) => return Err(InvalidFactId(e));
        case Ok(id) =>
          var found := store.FactById(id);
          match found {
            case None => return Err(NotFound);
            case Some(row) =>
              if Unused(old(store.state.Contents()), c.id) { CorrectionOf(Value(), id, c); }
              var _ := InvalidateFact(text, c.at);
              var f := Temporal.Replacement(row.fact, c);
              WriteBuilt(f);
              return Ok(f.id);
          }
      }
    }

    method RegisterSingletonPredicate(p: string, policy: Policy)
      requires Valid()
      modifies store, store.state, detector
      ensures Valid() && Value() == Commit(old(Value()), PredicateEntry(p, PredicateRegistry.Encode(Singleton, policy)))
      ensures Value() == Next(old(Value()), SetEntry(Predicates, p, PredicateRegistry.Encode(Singleton, policy)))
      ensures store.state.predicateRegistry == old(store.state.predicateRegistry)[p := PredicateRegistry.Encode(Singleton, policy)]
      ensures detector.IsSingleton(p) && detector.PolicyFor(p) == policy
      ensures forall q :: q != p ==> detector.IsSingleton(q) == old(detector.IsSingleton(q))
    {
      hide Mirrors, Apply, PredicateRegistry.Encode;
      var encoded := PredicateRegistry.Encode(Singleton, policy);
      OtherCommit(Value(), PredicateEntry(p, encoded));
      EntryAfter(Value().memory, p, encoded);
      store.CommitRecord(PredicateEntry(p, encoded));
      SameMirrors(vectors.Contents(), old(store.state.Contents()), store.state.Contents());
      detector.Register(p, Singleton, policy);
    }

    /**
     Checked only for a singleton whose policy is not to allow everything.  The fact is stored
     whenever there is no error, warnings or not; with an error nothing changes; and there is one
     exactly when the policy rejects and a stored fact conflicts.
     */
    method AssertFactChecked(a: Assertion) returns (result: Result<seq<Contradiction>, GraphError>)
      requires Valid()
      modifies store, store.state
      ensures Valid()
      ensures var f := AssertedFact(a); result.Ok? ==> Added(old(Value()), Value(), UpsertFact(RowKey(f), f), f)
      ensures result.Err? ==> Value() == old(Value())
      ensures result.Err? <==> Rejected(old(store.state.facts), a)
      ensures result.Ok? && Unused(old(store.state.Contents()), a.id) ==> AnswersFrom(store.state.Contents(), a)
      ensures var policy := detector.PolicyFor(a.predicate_);
        var found := ContradictionsOf(old(store.state.Contents()), AssertedFact(a));
        if !detector.IsSingleton(a.predicate_) || policy.Allow? then
          result == Ok([]) && Value() == WriteFact(old(Value()), AssertedFact(a))
        else
          Value() == WriteChecked(old(Value()), AssertedFact(a), policy.Reject?)
          && result == if policy.Reject? && found != [] then Err(ContradictionRejected(found)) else Ok(found)
    {
      hide Mirrors, Apply, RowKey, ContradictionsOf, Unused, AnswersFrom, Conflict;
      var policy := detector.PolicyFor(a.predicate_);
      var singleton := detector.IsSingleton(a.predicate_);
      if !singleton || policy.Allow? {
        var _ := AssertFact(a);
        return Ok([]);
      }
      var f := AssertedFact(a);
      OtherCommit(Value(), UpsertFact(RowKey(f), f));
      FactsAfter(Value().memory, UpsertFact(RowKey(f), f), RowKey(f), f);
      Singletons.NothingFound(Value().memory, f);
      var written := store.WriteFactChecked(f, policy.Reject?);
      assert SameEmbeddings(store.state.Contents(), old(store.state.Contents()));
      SameMirrors(vectors.Contents(), old(store.state.Contents()), store.state.Contents());
      match written {
        case Ok(found) =>
          if Unused(old(store.state.Contents()), a.id) {
            AssertionAnswers(old(store.state.Contents()), store.state.Contents(), a, f);
          }
          result := Ok(found);
        case Err(found) => result := Err(ContradictionRejected(found));
      }
    }

    /** The policy rejects, and a stored fact conflicts with what is asserted. */
    predicate Rejected(facts: FactTable, a: Assertion)
      reads detector
    {
      detector.IsSingleton(a.predicate_) && detector.PolicyFor(a.predicate_).Reject?
      && exists k :: k in facts && Conflict(facts[k], AssertedFact(a))
    }

    /** After the durable write the index takes the embedding too, and never refuses it. */
    method AssertFactWithEmbedding(a: Assertion, embedding: seq<Float>) returns (result: Result<FactId.Id, GraphError>)
      requires Valid()
      modifies store, store.state, vectors
      ensures Valid() && Value() == WriteEmbedded(old(Value()), AssertedFact(a), embedding)
      ensures result == if EmbeddingFits(old(store.state.Contents()), embedding) then Ok(a.id) else Err(BadEmbedding)
      ensures result.Err? ==> Value() == old(Value()) && vectors.Contents() == old(vectors.Contents())
      ensures var f := AssertedFact(a); result.Ok? ==> Added(old(Value()), Value(), UpsertFactWithEmbedding(RowKey(f), f, embedding), f)
      ensures result.Ok? ==> store.state.embeddings == old(store.state.embeddings)[FactId.Text(a.id) := embedding]
      ensures result.Ok? ==> vectors.Contents() == Inserted(old(vectors.Contents()), a.id, embedding)
      ensures result.Ok? && Unused(old(store.state.Contents()), a.id) ==> AnswersFrom(store.state.Contents(), a)
    {
      hide Mirrors, Apply, RowKey, TableOf, Unused, AnswersFrom, Inserted, FactId.Text;
      var f := AssertedFact(a);
      EmbeddedMirrors(Value(), vectors.Contents(), f, embedding);
      InsertNeverFails(vectors.Contents(), store.state.Contents(), embedding);
      FactsAfter(Value().memory, UpsertFactWithEmbedding(RowKey(f), f, embedding), RowKey(f), f);
      EmbeddingAfter(Value().memory, RowKey(f), f, embedding);
      if embedding == [] {
        return Err(BadEmbedding);
      }
      var ok := store.WriteFactWithEmbedding(f, embedding);
      if !ok {
        return Err(BadEmbedding);
      }
      var refused := vectors.Insert(f.id, embedding);
      assert refused.None?;
      if Unused(old(store.state.Contents()), a.id) {
        AssertionAnswers(old(store.state.Contents()), store.state.Contents(), a, f);
      }
      return Ok(f.id);
    }

    /** All pairs among the unexpired facts of the scan, for a registered singleton. */
    method DetectContradictions(s: string, p: string) returns (found: seq<Contradiction>)
      requires Valid()
      ensures found == if detector.IsSingleton(p) then Singletons.DetectContradictions(store.state.facts, s, p) else []
    {
      hide Mirrors, Queries.ScanFacts, AllPairs;
      if !detector.IsSingleton(p) {
        return [];
      }
      var rows := store.ScanFacts(PairPrefix(s, p));
      var facts: seq<Fact> := [];
      for i := 0 to |rows|
        invariant facts == FactsOf(Singletons.Unexpired(rows[..i]))
      {
        KeepRow(rows, i);
        if rows[i].fact.expiredAt.None? {
          facts := facts + [rows[i].fact];
        }
      }
      assert rows[..|rows|] == rows;
      found := DetectAmong(facts);
    }
  }

  // ---- Opening -----------------------------------------------------------

  lemma RebuildStep(m: Memory, ks: seq<string>, i: nat, v: Vectors)
    requires i < |ks| && forall j :: 0 <= j < |ks| ==> ks[j] in m.embeddings
    ensures FactId.ParseId(ks[i]).Err? || !Accepts(v, m.embeddings[ks[i]]) ==> Rebuild(m, ks[i..], v) == None
    ensures FactId.ParseId(ks[i]).Ok? && Accepts(v, m.embeddings[ks[i]]) ==>
      Rebuild(m, ks[i..], v) == Rebuild(m, ks[i + 1..], Inserted(v, FactId.ParseId(ks[i]).value, m.embeddings[ks[i]]))
  {
    hide FactId.ParseId, Accepts, Inserted;
    assert ks[i..][0] == ks[i] && ks[i..][1..] == ks[i + 1..];
  }

  /** Read every stored embedding into a new index. */
  method RebuildVectorIndex(store: Backend.Store) returns (result: Result<VectorIndex, GraphError>)
    requires store.Valid()
    ensures result.Ok? <==> Rebuilt(store.state.Contents()).Some?
    ensures result.Ok? ==> fresh(result.value) && result.value.Valid()
    ensures result.Ok? ==> Rebuilt(store.state.Contents()) == Some(result.value.Contents())
  {
    hide Rebuild, FactId.ParseId, Accepts, Inserted, Listing, Lists, TableOf;
    var m := store.state.embeddings;
    ListingCovers(m);
    var ks := InOrder(m.Keys);
    var index := new VectorIndex();
    assert ks[0..] == ks;
    for i := 0 to |ks|
      invariant fresh(index) && index.Valid()
      invariant Rebuild(store.state.Contents(), ks[i..], index.Contents()) == Rebuilt(store.state.Contents())
    {
      RebuildStep(store.state.Contents(), ks, i, index.Contents());
      match FactId.ParseId(ks[i]) {
        case Err(_) => return Err(CorruptId);
        case Ok(id) =>
          var refused := index.Insert(id, m[ks[i]]);
          if refused.Some? {
            return Err(BadEmbedding);
          }
      }
    }
    assert Rebuild(store.state.Contents(), ks[|ks|..], index.Contents()) == Some(index.Contents()) by {
      RebuildNothing(store.state.Contents(), ks, index.Contents());
    }
    result := Ok(index);
  }

  lemma RebuildNothing(m: Memory, ks: seq<string>, v: Vectors)
    ensures Rebuild(m, ks[|ks|..], v) == Some(v)
  {
  }

  /**
   `init`: on a coherent store whose registrations can be read it always succeeds, with the schema
   initialised, the registrations loaded and the index a mirror of the store.  One registration of
   a predicate, a volatility or a source weight that cannot be read makes it fail.
   */
  method Init(store: Backend.Store) returns (result: Result<Graph, GraphError>)
    requires store.Valid() && Good(store.Value())
    modifies store, store.state
    ensures store.Valid() && store.Value() == Database.InitializeSchema(old(store.Value()))
    ensures result.Ok? <==>
      (forall k :: k in store.state.predicateRegistry ==> PredicateRegistry.Decode(store.state.predicateRegistry[k]).Ok?)
      && UncertaintyRegistry.Readable(store.state.volatilityRegistry, store.state.sourceWeightRegistry)
    ensures result.Ok? ==> UncertaintyRegistry.Loaded(result.value.uncertainty, store.state.volatilityRegistry, store.state.sourceWeightRegistry)
    ensures result.Ok? ==> result.value.Valid() && result.value.store == store
    ensures result.Ok? ==> PredicateRegistry.Registered(result.value.detector, store.state.predicateRegistry)
  {
    hide Good, Mirrors, Rebuilt, PredicateRegistry.Decode, Database.InitializeSchema, Coherent, TableOf;
    hide UncertaintyRegistry.Readable, UncertaintyRegistry.Loaded;
    InitializeGood(store.Value());
    var version := store.InitializeSchema();
    ReadyVersion(store.Value());
    assert version == SCHEMA_VERSION;
    CoherentAfter(store.Value());
    RebuiltMirrors(store.state.Contents());
    var index := RebuildVectorIndex(store);
    var loaded := PredicateRegistry.LoadDetector(store.state.predicateRegistry);
    match loaded {
      case Err(e) => return Err(BadRegistration);
      case Ok(detector) =>
        var read := UncertaintyRegistry.LoadEngine(store.state.volatilityRegistry, store.state.sourceWeightRegistry);
        match read {
          case Err(e) => return Err(BadRegistration);
          case Ok(engine) =>
            var graph := new Graph(store, detector, index.value, engine);
            return Ok(graph);
        }
    }
  }

  lemma ReadyVersion(db: Db)
    requires Ready(db.memory)
    ensures db.memory.schemaVersion == Some(SCHEMA_VERSION)
  {
  }

  lemma {:induction false} UnexpiredConcat(a: seq<Row>, b: seq<Row>)
    ensures Singletons.Unexpired(a + b) == Singletons.Unexpired(a) + Singletons.Unexpired(b)
  {
    if a == [] {
      assert a + b == b;
    } else {
      assert (a + b)[1..] == a[1..] + b;
      UnexpiredConcat(a[1..], b);
      Associative(if a[0].fact.expiredAt.None? then [a[0]] else [], Singletons.Unexpired(a[1..]), Singletons.Unexpired(b));
    }
  }

  lemma {:induction false} FactsOfConcat(a: seq<Row>, b: seq<Row>)
    ensures FactsOf(a + b) == FactsOf(a) + FactsOf(b)
  {
    if a == [] {
      assert a + b == b;
    } else {
      assert (a + b)[1..] == a[1..] + b;
      FactsOfConcat(a[1..], b);
      Associative([a[0].fact], FactsOf(a[1..]), FactsOf(b));
    }
  }

  lemma KeepRow(rows: seq<Row>, i: nat)
    requires i < |rows|
    ensures FactsOf(Singletons.Unexpired(rows[..i + 1]))
      == FactsOf(Singletons.Unexpired(rows[..i])) + (if rows[i].fact.expiredAt.None? then [rows[i].fact] else [])
    ensures rows[..0] == [] && FactsOf(Singletons.Unexpired([])) == []
  {
    assert rows[..i + 1] == rows[..i] + [rows[i]];
    UnexpiredConcat(rows[..i], [rows[i]]);
    assert [rows[i]][1..] == [];
    var kept := Singletons.Unexpired([rows[i]]);
    FactsOfConcat(Singletons.Unexpired(rows[..i]), kept);
    assert kept == if rows[i].fact.expiredAt.None? then [rows[i]] else [];
    if rows[i].fact.expiredAt.None? { assert kept[1..] == []; }
  }
}
