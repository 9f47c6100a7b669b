/**
 `AppendLogState` (crates/core/src/storage_append_log.rs:378-528): the maps, set indexes and
 version chains that applying a record updates in place.  Its value is a `LogState.Memory`; the
 set indexes, which the program maintains key by key, are always what `IndexOf` computes from
 the facts.
 */
module AppendLogState {
  import opened Prelude
  import opened Json
  import opened Facts
  import opened Records
  import opened LogState
  import FactId
  import opened Rfc3339

  type SetIndex = map<string, set<string>>

  function AddKey(index: SetIndex, prefix: string, key: string): SetIndex
  {
    index[prefix := (if prefix in index then index[prefix] else {}) + {key}]
  }

  function DropKey(index: SetIndex, prefix: string, key: string): SetIndex
  {
    if prefix !in index then index
    else if index[prefix] - {key} == {} then index - {prefix}
    else index[prefix := index[prefix] - {key}]
  }

  lemma IndexAdded(facts: FactTable, kind: IndexKind, key: string, fact: Fact)
    ensures var rest := IndexOf(facts - {key}, kind);
      IndexOf(facts[key := fact], kind) == if Belongs(kind, fact) then AddKey(rest, PrefixOf(fact), key) else rest
  {
    var q := PrefixOf(fact);
    var after := IndexOf(facts[key := fact], kind);
    var rest := IndexOf(facts - {key}, kind);
    hide IndexOf, PrefixOf, Belongs, KeysOf;
    var added := if Belongs(kind, fact) then AddKey(rest, q, key) else rest;
    forall p ensures p in after <==> p in added
      ensures p in after ==> after[p] == added[p] {
      IndexEntries(facts[key := fact], kind, p);
      IndexEntries(facts - {key}, kind, p);
      KeysWith(facts, kind, p, key, fact);
    }
    assert after.Keys == added.Keys;
  }

  lemma IndexDropped(facts: FactTable, kind: IndexKind, key: string)
    requires key in facts
    ensures IndexOf(facts - {key}, kind) == DropKey(IndexOf(facts, kind), PrefixOf(facts[key]), key)
  {
    var q := PrefixOf(facts[key]);
    var after := IndexOf(facts - {key}, kind);
    var dropped := DropKey(IndexOf(facts, kind), q, key);
    forall p ensures p in after <==> p in dropped
      ensures p in after ==> after[p] == dropped[p] {
      DroppedEntry(facts, kind, key, p);
    }
    hide IndexOf, PrefixOf, Belongs, KeysOf, DropKey;
    assert after.Keys == dropped.Keys;
  }

  lemma DroppedEntry(facts: FactTable, kind: IndexKind, key: string, p: string)
    requires key in facts
    ensures var after := IndexOf(facts - {key}, kind); var dropped := DropKey(IndexOf(facts, kind), PrefixOf(facts[key]), key);
      (p in after <==> p in dropped) && (p in after ==> after[p] == dropped[p])
  {
    IndexEntries(facts, kind, p);
    IndexEntries(facts - {key}, kind, p);
    KeysWithout(facts, kind, p, key);
    if p != PrefixOf(facts[key]) { assert key !in KeysOf(facts, kind, p); }
    hide IndexOf, PrefixOf, Belongs, KeysOf;
  }

  class State {
    var headerPresent: bool
    var schemaVersion: Option<nat>
    var predicateRegistry: map<string, string>
    var volatilityRegistry: map<string, string>
    var sourceWeightRegistry: map<string, string>
    var embeddingDim: Option<nat>
    var embeddings: map<string, seq<Float>>
    var facts: FactTable
    var keyById: map<string, string>
    var allByPrefix: SetIndex
    var activeByPrefix: SetIndex
    var currentByPrefix: SetIndex
    var chains: map<string, seq<string>>
    var idempotency: map<string, string>

    /** The state as a value. */
    ghost function Contents(): Memory
      reads this
    {
      Memory(headerPresent, schemaVersion, predicateRegistry, volatilityRegistry, sourceWeightRegistry,
             embeddingDim, embeddings, facts, keyById, chains, idempotency)
    }

    /** The indexes are those of a fact table. */
    ghost predicate Indexes(table: FactTable)
      reads this
    {
      allByPrefix == IndexOf(table, All)
      && activeByPrefix == IndexOf(table, Active)
      && currentByPrefix == IndexOf(table, Current)
      && Chained(table, chains)
    }

    ghost predicate Valid()
      reads this
    {
      Indexes(facts)
    }

    constructor ()
      ensures Valid() && Contents() == EMPTY
    {
      headerPresent, schemaVersion := false, None;
      predicateRegistry, volatilityRegistry, sourceWeightRegistry := map[], map[], map[];
      embeddingDim, embeddings := None, map[];
      facts, keyById, idempotency := map[], map[], map[];
      allByPrefix, activeByPrefix, currentByPrefix, chains := map[], map[], map[], map[];
    }

    /** Binary search for the first fact of an ordered chain that has not begun at `t`. */
    method PartitionPoint(c: seq<string>, t: Timestamp) returns (lo: nat)
      requires InTable(facts, c) && ByBeginning(facts, c)
      ensures lo == Begun(facts, c, t)
    {
      BegunSplits(facts, c, t);
      lo := 0;
      var hi := |c|;
      while lo < hi
        invariant lo <= Begun(facts, c, t) <= hi <= |c|
      {
        var mid := lo + (hi - lo) / 2;
        if facts[c[mid]].validFrom <= t {
          lo := mid + 1;
        } else {
          hi := mid;
        }
      }
    }

    /**
     Enter a stored fact in every index it belongs to.  The look-up of each chain member in
     `facts`, which the program expects to succeed, always does.
     */
    method InsertFactIndex(key: string, fact: Fact)
      requires key in facts && facts[key] == fact && Indexes(facts - {key})
      modifies `allByPrefix, `activeByPrefix, `currentByPrefix, `chains
      ensures Valid()
      ensures chains == old(chains)[PrefixOf(fact) := Place(facts, ChainAt(old(chains), PrefixOf(fact)), key)]
    {
      hide IndexOf, Chained, PrefixOf, NoDuplicates, ByBeginning, Begun;
      assert facts[key := fact] == facts;
      IndexAdded(facts, All, key, fact);
      IndexAdded(facts, Active, key, fact);
      IndexAdded(facts, Current, key, fact);
      ChainsPlaced(facts, chains, key, fact);
      var prefix := PrefixOf(fact);
      allByPrefix := AddKey(allByPrefix, prefix, key);
      if fact.expiredAt.None? {
        activeByPrefix := AddKey(activeByPrefix, prefix, key);
      }
      if IsCurrentlyValid(fact) {
        currentByPrefix := AddKey(currentByPrefix, prefix, key);
      }
      var chain := if prefix in chains then chains[prefix] else [];
      ChainSearchable(facts, chains, key, prefix);
      var i := PartitionPoint(chain, fact.validFrom);
      chain := chain[..i] + [key] + chain[i..];
      chains := chains[prefix := chain];
    }

    /** Take a fact that was just overwritten out of every index. */
    method RemoveFactIndex(key: string, previous: Fact)
      requires Indexes(facts[key := previous])
      modifies `allByPrefix, `activeByPrefix, `currentByPrefix, `chains
      ensures Indexes(facts - {key})
      ensures chains == RemoveFromChain(old(chains), PrefixOf(previous), key)
    {
      hide IndexOf, Chained, PrefixOf, PositionOf;
      var table := facts[key := previous];
      assert table - {key} == facts - {key};
      IndexDropped(table, All, key);
      IndexDropped(table, Active, key);
      IndexDropped(table, Current, key);
      ChainsRemoved(table, chains, key);
      var prefix := PrefixOf(previous);
      allByPrefix := DropKey(allByPrefix, prefix, key);
      activeByPrefix := DropKey(activeByPrefix, prefix, key);
      currentByPrefix := DropKey(currentByPrefix, prefix, key);
      if prefix in chains {
        var chain := chains[prefix];
        var position := PositionOf(chain, key);
        if position < |chain| {
          chain := chain[..position] + chain[position + 1..];
        }
        if chain == [] {
          chains := chains - {prefix};
        } else {
          chains := chains[prefix := chain];
        }
      }
    }

    method ApplyFactUpsert(key: string, fact: Fact)
      requires Valid()
      modifies this
      ensures Valid() && Contents() == Upsert(old(Contents()), key, fact)
    {
      hide IndexOf, Chained, PrefixOf, RemoveFromChain, Place, FactId.Text;
      var known := key in facts;
      var previous := if known then facts[key] else fact;
      Overwriting(facts, key, fact);
      facts := facts[key := fact];
      if known {
        RemoveFactIndex(key, previous);
      }
      keyById := keyById[FactId.Text(fact.id) := key];
      InsertFactIndex(key, fact);
    }

    method ApplyEmbeddingUpsert(id: FactId.Id, embedding: seq<Float>)
      requires Valid()
      modifies `embeddingDim, `embeddings
      ensures Valid() && Contents() == Embed(old(Contents()), id, embedding)
    {
      if embeddingDim.None? {
        embeddingDim := Some(|embedding|);
      }
      embeddings := embeddings[FactId.Text(id) := embedding];
    }

    /** One record: the indexes stay exact, and the state becomes what the record means. */
    method ApplyRecord(r: Record)
      requires Valid()
      modifies this
      ensures Valid() && Contents() == Apply(old(Contents()), r)
    {
      hide IndexOf, Chained, Upsert, Embed, FactId.Text;
      match r {
        case Header(magic) => headerPresent := magic == MAGIC;
        case SchemaVersion(version) => schemaVersion := Some(version);
        case PredicateEntry(name, encoded) => predicateRegistry := predicateRegistry[name := encoded];
        case VolatilityEntry(name, encoded) => volatilityRegistry := volatilityRegistry[name := encoded];
        case SourceWeightEntry(name, encoded) => sourceWeightRegistry := sourceWeightRegistry[name := encoded];
        case UpsertFact(key, fact) => ApplyFactUpsert(key, fact);
        case ReplaceFact(key, fact) => ApplyFactUpsert(key, fact);
        case UpsertFactAndIdempotency(key, fact, idempotencyKey) =>
          idempotency := idempotency[idempotencyKey := FactId.Text(fact.id)];
          ApplyFactUpsert(key, fact);
        case UpsertFactWithEmbedding(key, fact, embedding) =>
          ApplyEmbeddingUpsert(fact.id, embedding);
          ApplyFactUpsert(key, fact);
      }
    }
  }

  lemma Overwriting(facts: FactTable, key: string, fact: Fact)
    ensures key in facts ==> facts[key := fact][key := facts[key]] == facts
    ensures facts[key := fact] - {key} == facts - {key}
    ensures key !in facts ==> facts - {key} == facts
  {
  }

  lemma ChainSearchable(facts: FactTable, chains: map<string, seq<string>>, key: string, p: string)
    requires Chained(facts - {key}, chains)
    ensures InTable(facts, ChainAt(chains, p)) && ByBeginning(facts, ChainAt(chains, p))
  {
    hide PrefixOf;
    assert ChainFor(facts - {key}, p, ChainAt(chains, p));
  }
}
