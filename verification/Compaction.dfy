/**
 Compaction of the append log (crates/core/src/storage_append_log.rs:841-882, 1328-1396): a log
 that recreates the state, written beside the old one and renamed over it.
 */
module Compaction {
  import opened Prelude
  import opened Json
  import opened Facts
  import opened Records
  import opened RecordRoundTrip
  import opened LogState
  import opened LogFile
  import opened Queries
  import opened Coherence
  import FactId
  import Utf8

  // ---- Equality up to ties -----------------------------------------------

  /** The state but for its chains. */
  function Modulo(m: Memory): Memory
  {
    m.(chains := map[])
  }

  /** Equal but for the order of keys of equal `valid_from` in the chains. */
  ghost predicate SameUpToTies(a: Memory, b: Memory)
  {
    Modulo(a) == Modulo(b) && Chained(a.facts, a.chains) && Chained(b.facts, b.chains)
  }

  lemma {:induction false} KeysAsSeq(c: seq<string>, d: seq<string>)
    requires NoDuplicates(c) && NoDuplicates(d) && (forall k :: k in c <==> k in d)
    ensures multiset(c) == multiset(d)
  {
    OnceEach(c);
    OnceEach(d);
    forall k ensures multiset(c)[k] == multiset(d)[k] {
      assert multiset(c)[k] == if k in c then 1 else 0;
      assert multiset(d)[k] == if k in d then 1 else 0;
    }
  }

  lemma {:induction false} OnceEach(c: seq<string>)
    requires NoDuplicates(c)
    ensures forall k :: multiset(c)[k] == if k in c then 1 else 0
  {
    if c != [] {
      var d, x := c[..|c| - 1], c[|c| - 1];
      OnceEach(d);
      assert c == d + [x];
      assert x !in d;
    }
  }

  /** How many keys of a chain have begun is the same for any chain of the same keys. */
  lemma BegunCount(facts: FactTable, c: seq<string>, t: int)
    requires InTable(facts, c) && ByBeginning(facts, c) && NoDuplicates(c)
    requires Rfc3339.I64_MIN <= t <= Rfc3339.I64_MAX
    ensures Begun(facts, c, t) == |set k | k in c && facts[k].validFrom <= t|
  {
    var n := Begun(facts, c, t);
    BegunSplits(facts, c, t);
    hide Begun;
    assert NoDuplicates(c[..n]);
    Distinct(c[..n]);
    var s, e := set k | k in c && facts[k].validFrom <= t, set k | k in c[..n];
    forall k ensures k in s <==> k in e {
      if k in s {
        var i :| 0 <= i < |c| && c[i] == k;
        assert c[..n][i] == k;
      }
    }
    assert s == e;
  }

  lemma {:induction false} Distinct(c: seq<string>)
    requires NoDuplicates(c)
    ensures |set k | k in c| == |c|
  {
    if c != [] {
      var d, x := c[..|c| - 1], c[|c| - 1];
      Distinct(d);
      assert c == d + [x];
      assert (set k | k in c) == (set k | k in d) + {x};
    }
  }

  /** Two chains of one prefix hold the same keys and differ only inside runs of equal `valid_from`. */
  lemma ChainsDifferInTies(facts: FactTable, p: string, c: seq<string>, d: seq<string>)
    requires ChainFor(facts, p, c) && ChainFor(facts, p, d)
    ensures multiset(c) == multiset(d) && |c| == |d|
    ensures forall i :: 0 <= i < |c| ==> facts[c[i]].validFrom == facts[d[i]].validFrom
  {
    hide KeysOf;
    assert forall k :: k in c <==> k in d;
    KeysAsSeq(c, d);
    assert |multiset(c)| == |c| && |multiset(d)| == |d|;
    forall i | 0 <= i < |c| ensures facts[c[i]].validFrom == facts[d[i]].validFrom {
      NotLater(facts, c, d, i);
      NotLater(facts, d, c, i);
    }
  }

  lemma NotLater(facts: FactTable, c: seq<string>, d: seq<string>, i: nat)
    requires InTable(facts, c) && ByBeginning(facts, c) && NoDuplicates(c)
    requires InTable(facts, d) && ByBeginning(facts, d) && NoDuplicates(d)
    requires (forall k :: k in c <==> k in d) && i < |c| && i < |d|
    ensures facts[d[i]].validFrom <= facts[c[i]].validFrom
  {
    var t := facts[c[i]].validFrom;
    BegunSplits(facts, c, t);
    BegunSplits(facts, d, t);
    BegunCount(facts, c, t);
    BegunCount(facts, d, t);
    hide Begun, ByBeginning, NoDuplicates;
    assert (set k | k in c && facts[k].validFrom <= t) == (set k | k in d && facts[k].validFrom <= t);
  }

  // ---- The compacted records ---------------------------------------------

  datatype EntryKind = Predicates | Volatilities | SourceWeights

  function Entry(kind: EntryKind, name: string, encoded: string): Record
  {
    match kind
    case Predicates => PredicateEntry(name, encoded)
    case Volatilities => VolatilityEntry(name, encoded)
    case SourceWeights => SourceWeightEntry(name, encoded)
  }

  /** One record for each listed entry of a registry. */
  function EntryRecords(kind: EntryKind, registry: map<string, string>, ks: seq<string>): (rs: seq<Record>)
    requires forall i :: 0 <= i < |ks| ==> ks[i] in registry
    ensures |rs| == |ks|
  {
    if ks == [] then [] else [Entry(kind, ks[0], registry[ks[0]])] + EntryRecords(kind, registry, ks[1..])
  }

  /** The record of a row, with its embedding if it has one. */
  function RowRecord(m: Memory, key: string): Record
    requires key in m.facts
  {
    var fact := m.facts[key];
    var t := FactId.Text(fact.id);
    if t in m.embeddings then UpsertFactWithEmbedding(key, fact, m.embeddings[t]) else UpsertFact(key, fact)
  }

  function RowRecords(m: Memory, ks: seq<string>): (rs: seq<Record>)
    requires InTable(m.facts, ks)
    ensures |rs| == |ks|
  {
    if ks == [] then [] else [RowRecord(m, ks[0])] + RowRecords(m, ks[1..])
  }

  datatype CompactionError = MissingKey(id: string) | MissingRow(id: string)

  function IdempotencyRecords(m: Memory, ks: seq<string>): Result<seq<Record>, CompactionError>
    requires forall i :: 0 <= i < |ks| ==> ks[i] in m.idempotency
  {
    if ks == [] then Ok([])
    else
      var id := m.idempotency[ks[0]];
      if id !in m.keyById then Err(MissingKey(id))
      else if m.keyById[id] !in m.facts then Err(MissingRow(id))
      else
        match IdempotencyRecords(m, ks[1..])
        case Err(e) => Err(e)
        case Ok(rest) => Ok([UpsertFactAndIdempotency(m.keyById[id], m.facts[m.keyById[id]], ks[0])] + rest)
  }

  ghost function Head(m: Memory): seq<Record>
  {
    [Header(MAGIC), SchemaVersion(if m.schemaVersion.Some? then m.schemaVersion.value else SCHEMA_VERSION)]
  }

  ghost function Registries(m: Memory): seq<Record>
  {
    EntryRecords(Predicates, m.predicateRegistry, Listing(m.predicateRegistry.Keys))
    + EntryRecords(Volatilities, m.volatilityRegistry, Listing(m.volatilityRegistry.Keys))
    + EntryRecords(SourceWeights, m.sourceWeightRegistry, Listing(m.sourceWeightRegistry.Keys))
  }

  /** The records that recreate the state, each map in byte order. */
  ghost function CompactionRecords(m: Memory): Result<seq<Record>, CompactionError>
  {
    match IdempotencyRecords(m, Listing(m.idempotency.Keys))
    case Err(e) => Err(e)
    case Ok(last) => Ok(Head(m) + Registries(m) + RowRecords(m, Listing(m.facts.Keys)) + last)
  }

  // ---- Replaying registry entries ----------------------------------------

  function Registry(kind: EntryKind, m: Memory): map<string, string>
  {
    match kind
    case Predicates => m.predicateRegistry
    case Volatilities => m.volatilityRegistry
    case SourceWeights => m.sourceWeightRegistry
  }

  function SetRegistry(kind: EntryKind, m: Memory, registry: map<string, string>): Memory
  {
    match kind
    case Predicates => m.(predicateRegistry := registry)
    case Volatilities => m.(volatilityRegistry := registry)
    case SourceWeights => m.(sourceWeightRegistry := registry)
  }

  function Restrict<T>(m: map<string, T>, ks: seq<string>): map<string, T>
  {
    map k | k in m && k in ks :: m[k]
  }

  lemma RestrictAll<T>(m: map<string, T>, ks: seq<string>)
    requires forall k :: k in m ==> k in ks
    ensures Restrict(m, ks) == m
  {
  }

  lemma RestrictNone<T>(x: map<string, T>, m: map<string, T>)
    ensures x + Restrict(m, []) == x
  {
  }

  lemma RestrictStep<T>(x: map<string, T>, m: map<string, T>, ks: seq<string>)
    requires ks != [] && ks[0] in m
    ensures x[ks[0] := m[ks[0]]] + Restrict(m, ks[1..]) == x + Restrict(m, ks)
  {
    assert forall k :: k in ks <==> k == ks[0] || k in ks[1..];
  }

  lemma {:induction false} ReplayEntries(kind: EntryKind, x: Memory, registry: map<string, string>, ks: seq<string>)
    requires forall i :: 0 <= i < |ks| ==> ks[i] in registry
    ensures ReplayOn(x, EntryRecords(kind, registry, ks)) == SetRegistry(kind, x, Registry(kind, x) + Restrict(registry, ks))
    ensures AdmissibleFrom(x, EntryRecords(kind, registry, ks))
    decreases |ks|
  {
    if ks == [] {
      assert Registry(kind, x) + Restrict(registry, ks) == Registry(kind, x);
    } else {
      var y := Apply(x, Entry(kind, ks[0], registry[ks[0]]));
      ReplayEntries(kind, y, registry, ks[1..]);
      RestrictStep(Registry(kind, x), registry, ks);
      assert EntryRecords(kind, registry, ks)[1..] == EntryRecords(kind, registry, ks[1..]);
    }
  }

  // ---- Replaying rows ----------------------------------------------------

  function IdsIn(m: Memory, ks: seq<string>): map<string, string>
  {
    map t | t in m.keyById && m.keyById[t] in ks :: m.keyById[t]
  }

  function EmbeddingsIn(m: Memory, ks: seq<string>): map<string, seq<Float>>
  {
    map t | t in m.embeddings && t in m.keyById && m.keyById[t] in ks :: m.embeddings[t]
  }

  /** What replaying the rows of `ks` adds to a state, chains aside. */
  function WithRows(x: Memory, m: Memory, ks: seq<string>): Memory
  {
    Modulo(x).(
      facts := x.facts + Restrict(m.facts, ks),
      keyById := x.keyById + IdsIn(m, ks),
      embeddings := x.embeddings + EmbeddingsIn(m, ks),
      embeddingDim := if EmbeddingsIn(m, ks) != map[] then m.embeddingDim else x.embeddingDim)
  }

  lemma RowApplied(x: Memory, m: Memory, key: string)
    requires key in m.facts
    ensures var t := FactId.Text(m.facts[key].id);
      Modulo(Apply(x, RowRecord(m, key))) == Modulo(x).(
        facts := x.facts[key := m.facts[key]],
        keyById := x.keyById[t := key],
        embeddings := if t in m.embeddings then x.embeddings[t := m.embeddings[t]] else x.embeddings,
        embeddingDim := if t in m.embeddings && x.embeddingDim.None? then Some(|m.embeddings[t]|) else x.embeddingDim)
  {
    hide FactId.Text, UpsertChains;
  }

  lemma RowStep(x: Memory, m: Memory, ks: seq<string>)
    requires IdsMatch(m.facts, m.keyById) && EmbeddingsMatch(m) && InTable(m.facts, ks) && ks != []
    requires x.embeddingDim.None? || x.embeddingDim == m.embeddingDim
    ensures var y := Apply(x, RowRecord(m, ks[0]));
      (y.embeddingDim.None? || y.embeddingDim == m.embeddingDim) && WithRows(y, m, ks[1..]) == WithRows(x, m, ks)
  {
    var key := ks[0];
    var t := FactId.Text(m.facts[key].id);
    RowApplied(x, m, key);
    hide FactId.Text, Apply, RowRecord, Restrict, IdsIn, EmbeddingsIn, Leads;
    FirstLeads(m, ks, t);
    RestrictStep(x.facts, m.facts, ks);
    IdsStep(x.keyById, m, ks, t);
    EmbeddingsStep(x.embeddings, m, ks, t);
    DimensionStep(x, m, ks, t);
  }

  /** `t` is the id of the first key. */
  predicate Leads(m: Memory, ks: seq<string>, t: string)
  {
    ks != [] && t in m.keyById && m.keyById[t] == ks[0]
    && (forall u :: u in m.keyById ==> (m.keyById[u] in ks <==> u == t || m.keyById[u] in ks[1..]))
  }

  lemma FirstLeads(m: Memory, ks: seq<string>, t: string)
    requires ks != [] && t in m.keyById && m.keyById[t] == ks[0]
    requires forall u :: u in m.keyById && m.keyById[u] == ks[0] ==> u == t
    ensures Leads(m, ks, t)
  {
    assert forall k :: k in ks <==> k == ks[0] || k in ks[1..];
  }

  lemma IdsStep(x: map<string, string>, m: Memory, ks: seq<string>, t: string)
    requires Leads(m, ks, t)
    ensures x[t := ks[0]] + IdsIn(m, ks[1..]) == x + IdsIn(m, ks)
  {
    var rest, all := IdsIn(m, ks[1..]), IdsIn(m, ks);
    assert forall u :: u in all <==> u in rest || u == t;
    hide IdsIn;
    assert all == rest[t := ks[0]];
  }

  lemma EmbeddingsStep(x: map<string, seq<Float>>, m: Memory, ks: seq<string>, t: string)
    requires Leads(m, ks, t)
    ensures (if t in m.embeddings then x[t := m.embeddings[t]] else x) + EmbeddingsIn(m, ks[1..])
      == x + EmbeddingsIn(m, ks)
    ensures EmbeddingsIn(m, ks)
      == if t in m.embeddings then EmbeddingsIn(m, ks[1..])[t := m.embeddings[t]] else EmbeddingsIn(m, ks[1..])
  {
    var rest, all := EmbeddingsIn(m, ks[1..]), EmbeddingsIn(m, ks);
    assert forall u :: u in all <==> u in rest || (u == t && t in m.embeddings);
    assert forall u :: u in all ==> all[u] == m.embeddings[u];
    assert forall u :: u in rest ==> rest[u] == m.embeddings[u];
    hide EmbeddingsIn, Leads;
    assert all == if t in m.embeddings then rest[t := m.embeddings[t]] else rest;
  }

  lemma DimensionStep(x: Memory, m: Memory, ks: seq<string>, t: string)
    requires Leads(m, ks, t)
    requires forall u :: u in m.embeddings ==> m.embeddingDim == Some(|m.embeddings[u]|)
    requires x.embeddingDim.None? || x.embeddingDim == m.embeddingDim
    ensures
      var d := if t in m.embeddings && x.embeddingDim.None? then Some(|m.embeddings[t]|) else x.embeddingDim;
      (if EmbeddingsIn(m, ks[1..]) != map[] then m.embeddingDim else d)
      == (if EmbeddingsIn(m, ks) != map[] then m.embeddingDim else x.embeddingDim)
  {
    EmbeddingsStep(x.embeddings, m, ks, t);
    hide EmbeddingsIn, Leads;
    if t in m.embeddings { assert t in EmbeddingsIn(m, ks); }
  }

  lemma {:induction false} ReplayRows(x: Memory, m: Memory, ks: seq<string>)
    requires IdsMatch(m.facts, m.keyById) && EmbeddingsMatch(m) && InTable(m.facts, ks)
    requires x.embeddingDim.None? || x.embeddingDim == m.embeddingDim
    ensures Modulo(ReplayOn(x, RowRecords(m, ks))) == WithRows(x, m, ks)
    decreases |ks|
  {
    hide Apply, RowRecord, IdsMatch, EmbeddingsMatch;
    if ks == [] {
      hide ReplayOn;
      NoRows(x, m);
      assert ReplayOn(x, []) == x by { ReplayNothing(x); }
    } else {
      var y := Apply(x, RowRecord(m, ks[0]));
      RowStep(x, m, ks);
      ReplayRows(y, m, ks[1..]);
      assert RowRecords(m, ks)[1..] == RowRecords(m, ks[1..]);
      hide WithRows, RowRecords;
    }
  }

  lemma ReplayNothing(x: Memory)
    ensures ReplayOn(x, []) == x
  {
  }

  lemma NoRows(x: Memory, m: Memory)
    ensures WithRows(x, m, []) == Modulo(x)
  {
    assert IdsIn(m, []) == map[] && EmbeddingsIn(m, []) == map[];
    assert x.facts + Restrict(m.facts, []) == x.facts;
    assert x.keyById + IdsIn(m, []) == x.keyById;
    assert x.embeddings + EmbeddingsIn(m, []) == x.embeddings;
  }

  /** The ids of `x` are ids of `m`, with the same keys. */
  predicate IdsWithin(x: Memory, m: Memory)
  {
    forall t :: t in x.keyById ==> t in m.keyById && m.keyById[t] == x.keyById[t]
  }

  lemma RowAdmissible(x: Memory, m: Memory, key: string)
    requires Coherent(m) && key in m.facts && IdsWithin(x, m)
    requires x.embeddingDim.None? || x.embeddingDim == m.embeddingDim
    ensures Admissible(x, RowRecord(m, key)) && IdsWithin(Apply(x, RowRecord(m, key)), m)
    ensures var y := Apply(x, RowRecord(m, key)); y.embeddingDim.None? || y.embeddingDim == m.embeddingDim
  {
    RowApplied(x, m, key);
    hide FactId.Text, RowKey, Apply;
  }

  lemma {:induction false} RowsAdmissible(x: Memory, m: Memory, ks: seq<string>)
    requires Coherent(m) && InTable(m.facts, ks) && IdsWithin(x, m)
    requires x.embeddingDim.None? || x.embeddingDim == m.embeddingDim
    ensures AdmissibleFrom(x, RowRecords(m, ks))
    decreases |ks|
  {
    hide Apply, RowRecord, Coherent, IdsWithin, Admissible;
    if ks != [] {
      RowAdmissible(x, m, ks[0]);
      RowsAdmissible(Apply(x, RowRecord(m, ks[0])), m, ks[1..]);
      assert RowRecords(m, ks)[1..] == RowRecords(m, ks[1..]);
    }
  }

  // ---- Replaying idempotency entries -------------------------------------

  lemma IdempotencyApplied(z: Memory, m: Memory, k: string)
    requires Coherent(m) && k in m.idempotency && z.facts == m.facts && z.keyById == m.keyById
    ensures var key := m.keyById[m.idempotency[k]]; var r := UpsertFactAndIdempotency(key, m.facts[key], k);
      Admissible(z, r) && Modulo(Apply(z, r)) == Modulo(z).(idempotency := z.idempotency[k := m.idempotency[k]])
  {
    var id := m.idempotency[k];
    var key := m.keyById[id];
    hide FactId.Text, RowKey, UpsertChains;
    assert FactId.Text(m.facts[key].id) == id;
    assert m.facts[key := m.facts[key]] == m.facts;
    assert m.keyById[id := key] == m.keyById;
  }

  lemma {:induction false} ReplayIdempotency(z: Memory, m: Memory, ks: seq<string>)
    requires Coherent(m) && z.facts == m.facts && z.keyById == m.keyById
    requires forall i :: 0 <= i < |ks| ==> ks[i] in m.idempotency
    ensures IdempotencyRecords(m, ks).Ok?
    ensures var rs := IdempotencyRecords(m, ks).value;
      AdmissibleFrom(z, rs)
      && Modulo(ReplayOn(z, rs)) == Modulo(z).(idempotency := z.idempotency + Restrict(m.idempotency, ks))
    decreases |ks|
  {
    hide Apply, Admissible, Restrict;
    if ks == [] {
      RestrictNone(z.idempotency, m.idempotency);
    } else {
      assert m.idempotency[ks[0]] in m.keyById;
      var key := m.keyById[m.idempotency[ks[0]]];
      var r := UpsertFactAndIdempotency(key, m.facts[key], ks[0]);
      var y := Apply(z, r);
      IdempotencyApplied(z, m, ks[0]);
      hide Coherent;
      ReplayIdempotency(y, m, ks[1..]);
      RestrictStep(z.idempotency, m.idempotency, ks);
      var rs := IdempotencyRecords(m, ks).value;
      assert rs[0] == r && rs[1..] == IdempotencyRecords(m, ks[1..]).value;
    }
  }

  // ---- Compaction preserves meaning --------------------------------------

  lemma ListingCovers<T>(m: map<string, T>)
    ensures var ks := Listing(m.Keys);
      (forall i :: 0 <= i < |ks| ==> ks[i] in m) && (forall k :: k in m ==> k in ks)
  {
    var ks := Listing(m.Keys);
    assert forall i :: 0 <= i < |ks| ==> ks[i] in m.Keys;
  }

  lemma HeadReplays(m: Memory)
    requires m.schemaVersion == Some(SCHEMA_VERSION)
    ensures ReplayOn(EMPTY, Head(m)) == EMPTY.(headerPresent := true, schemaVersion := m.schemaVersion)
    ensures AdmissibleFrom(EMPTY, Head(m))
  {
    var rs := Head(m);
    assert rs[1..] == [SchemaVersion(SCHEMA_VERSION)] && rs[1..][1..] == [];
    ReplayNothing(EMPTY.(headerPresent := true, schemaVersion := m.schemaVersion));
  }

  lemma RegistryReplays(kind: EntryKind, x: Memory, registry: map<string, string>)
    requires Registry(kind, x) == map[]
    ensures (forall i :: 0 <= i < |Listing(registry.Keys)| ==> Listing(registry.Keys)[i] in registry)
    ensures var rs := EntryRecords(kind, registry, Listing(registry.Keys));
      ReplayOn(x, rs) == SetRegistry(kind, x, registry) && AdmissibleFrom(x, rs)
  {
    hide Listing, Lists, EntryRecords, ReplayOn, AdmissibleFrom, Restrict;
    ListingCovers(registry);
    var ks := Listing(registry.Keys);
    ReplayEntries(kind, x, registry, ks);
    RestrictAll(registry, ks);
    assert map[] + registry == registry;
  }

  /** The state after the header and the registries. */
  function Named(m: Memory): Memory
  {
    EMPTY.(headerPresent := true, schemaVersion := m.schemaVersion, predicateRegistry := m.predicateRegistry,
           volatilityRegistry := m.volatilityRegistry, sourceWeightRegistry := m.sourceWeightRegistry)
  }

  lemma NamesReplay(m: Memory)
    requires m.schemaVersion == Some(SCHEMA_VERSION)
    ensures ReplayOn(EMPTY, Head(m) + Registries(m)) == Named(m) && AdmissibleFrom(EMPTY, Head(m) + Registries(m))
  {
    var x0 := EMPTY.(headerPresent := true, schemaVersion := m.schemaVersion);
    var x1 := x0.(predicateRegistry := m.predicateRegistry);
    var x2 := x1.(volatilityRegistry := m.volatilityRegistry);
    RegistryReplays(Predicates, x0, m.predicateRegistry);
    RegistryReplays(Volatilities, x1, m.volatilityRegistry);
    RegistryReplays(SourceWeights, x2, m.sourceWeightRegistry);
    HeadReplays(m);
    hide EntryRecords, ReplayOn, AdmissibleFrom, Head;
    var a := EntryRecords(Predicates, m.predicateRegistry, Listing(m.predicateRegistry.Keys));
    var b := EntryRecords(Volatilities, m.volatilityRegistry, Listing(m.volatilityRegistry.Keys));
    var c := EntryRecords(SourceWeights, m.sourceWeightRegistry, Listing(m.sourceWeightRegistry.Keys));
    ReplayConcat(x0, a, b);
    ReplayConcat(x0, a + b, c);
    AdmissibleConcat(x0, a, b);
    AdmissibleConcat(x0, a + b, c);
    ReplayConcat(EMPTY, Head(m), a + b + c);
    AdmissibleConcat(EMPTY, Head(m), a + b + c);
  }

  /** Replaying all rows on the names gives the state but for its idempotency entries. */
  lemma RowsReplay(m: Memory)
    requires Coherent(m) && InTable(m.facts, Listing(m.facts.Keys))
    requires m.headerPresent && forall k :: k in m.facts ==> k in Listing(m.facts.Keys)
    ensures var rs := RowRecords(m, Listing(m.facts.Keys));
      Modulo(ReplayOn(Named(m), rs)) == Modulo(m).(idempotency := map[]) && AdmissibleFrom(Named(m), rs)
  {
    hide Listing, Lists, RowRecords, ReplayOn, AdmissibleFrom, RowKeyed, IdsMatch, WithRows;
    var ks := Listing(m.facts.Keys);
    ReplayRows(Named(m), m, ks);
    RowsAdmissible(Named(m), m, ks);
    AllRows(m, ks);
  }

  lemma AllRows(m: Memory, ks: seq<string>)
    requires Coherent(m) && m.headerPresent && forall k :: k in m.facts ==> k in ks
    ensures WithRows(Named(m), m, ks) == Modulo(m).(idempotency := map[])
  {
    hide FactId.Text, RowKeyed;
    RestrictAll(m.facts, ks);
    assert map[] + Restrict(m.facts, ks) == m.facts;
    assert IdsIn(m, ks) == m.keyById;
    assert map[] + IdsIn(m, ks) == m.keyById;
    assert EmbeddingsIn(m, ks) == m.embeddings;
    assert map[] + EmbeddingsIn(m, ks) == m.embeddings;
  }

  /**
   Compaction preserves meaning: in a coherent state it never fails, and replaying its records
   gives that state back, with chains equal up to the order of equal `valid_from`.
   */
  lemma CompactionPreserves(m: Memory)
    requires Coherent(m) && Chained(m.facts, m.chains)
    requires m.headerPresent && m.schemaVersion == Some(SCHEMA_VERSION)
    ensures CompactionRecords(m).Ok?
    ensures SameUpToTies(Replay(CompactionRecords(m).value), m)
    ensures AdmissibleFrom(EMPTY, CompactionRecords(m).value)
  {
    ListingCovers(m.facts);
    var names, rows := Head(m) + Registries(m), RowRecords(m, Listing(m.facts.Keys));
    NamesReplay(m);
    RowsReplay(m);
    hide Head, Registries, RowRecords, ReplayOn, Coherent, AdmissibleFrom, Chained, IdempotencyRecords;
    var z := ReplayOn(Named(m), rows);
    ReplayConcat(EMPTY, names, rows);
    AdmissibleConcat(EMPTY, names, rows);
    SameTables(z, m);
    LastReplays(z, m);
    var last := IdempotencyRecords(m, Listing(m.idempotency.Keys)).value;
    ReplayConcat(EMPTY, names + rows, last);
    AdmissibleConcat(EMPTY, names + rows, last);
    ChainsAlwaysOrdered(names + rows + last);
    assert CompactionRecords(m).value == names + rows + last;
  }

  lemma SameTables(z: Memory, m: Memory)
    requires Modulo(z) == Modulo(m).(idempotency := map[])
    ensures z.facts == m.facts && z.keyById == m.keyById && z.idempotency == map[]
  {
    assert Modulo(z).facts == m.facts && Modulo(z).keyById == m.keyById && Modulo(z).idempotency == map[];
  }

  lemma WithIdempotency(x: Memory, z: Memory, m: Memory)
    requires Modulo(z) == Modulo(m).(idempotency := map[]) && z.idempotency == map[]
    requires Modulo(x) == Modulo(z).(idempotency := z.idempotency + m.idempotency)
    ensures Modulo(x) == Modulo(m)
  {
    assert map[] + m.idempotency == m.idempotency;
  }

  lemma LastReplays(z: Memory, m: Memory)
    requires Coherent(m) && Modulo(z) == Modulo(m).(idempotency := map[])
    requires z.facts == m.facts && z.keyById == m.keyById && z.idempotency == map[]
    ensures forall i :: 0 <= i < |Listing(m.idempotency.Keys)| ==> Listing(m.idempotency.Keys)[i] in m.idempotency
    ensures IdempotencyRecords(m, Listing(m.idempotency.Keys)).Ok?
    ensures var last := IdempotencyRecords(m, Listing(m.idempotency.Keys)).value;
      Modulo(ReplayOn(z, last)) == Modulo(m) && AdmissibleFrom(z, last)
  {
    hide Listing, Lists, Coherent, AdmissibleFrom, IdempotencyRecords, ReplayOn, Restrict, Modulo;
    ListingCovers(m.idempotency);
    var ks := Listing(m.idempotency.Keys);
    ReplayIdempotency(z, m, ks);
    RestrictAll(m.idempotency, ks);
    WithIdempotency(ReplayOn(z, IdempotencyRecords(m, ks).value), z, m);
  }

  // ---- The compacted log can be written and read back --------------------

  /** What may stand in a backend log. */
  predicate Sendable(r: Record)
  {
    WritableRecord(r) && (r.SchemaVersion? ==> r.version == SCHEMA_VERSION)
  }

  /** What may stand in a backend log, and reads back if the state would. */
  predicate Lasts(m: Memory, rs: seq<Record>)
  {
    (forall i :: 0 <= i < |rs| ==> Sendable(rs[i])) && (StorableMemory(m) ==> AllStorable(rs))
  }

  lemma {:induction false} EntriesLast(m: Memory, kind: EntryKind, registry: map<string, string>, ks: seq<string>)
    requires forall i :: 0 <= i < |ks| ==> ks[i] in registry
    requires forall k :: k in registry ==> Utf8.Valid(k) && Utf8.Valid(registry[k])
    ensures Lasts(m, EntryRecords(kind, registry, ks))
  {
    hide Utf8.Valid, StorableMemory;
    if ks != [] { EntriesLast(m, kind, registry, ks[1..]); }
  }

  lemma RowLasts(m: Memory, key: string)
    requires WritableMemory(m) && key in m.facts
    ensures Sendable(RowRecord(m, key)) && (StorableMemory(m) ==> Storable(RowRecord(m, key)))
  {
    hide Utf8.Valid, FactId.Text, WritableFact, FiniteFact, DatedFact;
  }

  lemma {:induction false} RowsLast(m: Memory, ks: seq<string>)
    requires WritableMemory(m) && InTable(m.facts, ks)
    ensures Lasts(m, RowRecords(m, ks))
  {
    hide WritableMemory, StorableMemory, Sendable, Storable, RowRecord;
    if ks != [] {
      RowLasts(m, ks[0]);
      RowsLast(m, ks[1..]);
    }
  }

  lemma {:induction false} IdempotencyLasts(m: Memory, ks: seq<string>)
    requires WritableMemory(m)
    requires forall i :: 0 <= i < |ks| ==> ks[i] in m.idempotency
    ensures var rs := IdempotencyRecords(m, ks); rs.Ok? ==> Lasts(m, rs.value)
  {
    hide Utf8.Valid, WritableFact, FiniteFact, DatedFact;
    if ks != [] { IdempotencyLasts(m, ks[1..]); }
  }

  lemma HeadLasts(m: Memory)
    requires m.schemaVersion == Some(SCHEMA_VERSION)
    ensures Lasts(m, Head(m)) && Head(m) != [] && IsHeader(Head(m)[0])
  {
    MagicValid();
    hide Utf8.Valid, StorableMemory;
  }

  lemma MagicValid()
    ensures Utf8.Valid(MAGIC)
  {
    MagicAscii();
    hide Utf8.Ascii, Utf8.Valid;
    Utf8.AsciiValid(MAGIC);
  }

  lemma MagicAscii()
    ensures Utf8.Ascii(MAGIC)
  {
  }

  lemma LastsConcat(m: Memory, a: seq<Record>, b: seq<Record>)
    requires Lasts(m, a) && Lasts(m, b)
    ensures Lasts(m, a + b)
  {
    hide Sendable, Storable, StorableMemory;
  }

  lemma RegistriesLast(m: Memory)
    requires WritableMemory(m)
    ensures Lasts(m, Registries(m))
  {
    ListingCovers(m.predicateRegistry);
    ListingCovers(m.volatilityRegistry);
    ListingCovers(m.sourceWeightRegistry);
    hide Utf8.Valid, Lasts, EntryRecords;
    var a := EntryRecords(Predicates, m.predicateRegistry, Listing(m.predicateRegistry.Keys));
    var b := EntryRecords(Volatilities, m.volatilityRegistry, Listing(m.volatilityRegistry.Keys));
    var c := EntryRecords(SourceWeights, m.sourceWeightRegistry, Listing(m.sourceWeightRegistry.Keys));
    EntriesLast(m, Predicates, m.predicateRegistry, Listing(m.predicateRegistry.Keys));
    EntriesLast(m, Volatilities, m.volatilityRegistry, Listing(m.volatilityRegistry.Keys));
    EntriesLast(m, SourceWeights, m.sourceWeightRegistry, Listing(m.sourceWeightRegistry.Keys));
    LastsConcat(m, a, b);
    LastsConcat(m, a + b, c);
  }

  lemma PartsLast(m: Memory, a: seq<Record>, b: seq<Record>, c: seq<Record>, d: seq<Record>)
    requires Lasts(m, a) && Lasts(m, b) && Lasts(m, c) && Lasts(m, d) && a != [] && IsHeader(a[0])
    ensures var rs := a + b + c + d; Lasts(m, rs) && rs != [] && IsHeader(rs[0]) && BackendLog(rs)
  {
    hide Lasts, BackendLog, IsHeader;
    LastsConcat(m, a, b);
    LastsConcat(m, a + b, c);
    LastsConcat(m, a + b + c, d);
    assert (a + b + c + d)[0] == a[0];
    SendableLog(m, a + b + c + d);
  }

  /** The compacted records can be written; what the state would read back, they do. */
  lemma CompactedLasts(m: Memory)
    requires WritableMemory(m) && m.schemaVersion == Some(SCHEMA_VERSION) && CompactionRecords(m).Ok?
    ensures var rs := CompactionRecords(m).value; Lasts(m, rs) && rs != [] && IsHeader(rs[0]) && BackendLog(rs)
  {
    HeadLasts(m);
    RegistriesLast(m);
    FactsLast(m);
    hide WritableMemory, StorableMemory, Lasts, Head, Registries, RowRecords, IdempotencyRecords, Listing, Lists, BackendLog, IsHeader;
    var rows, last := RowRecords(m, Listing(m.facts.Keys)), IdempotencyRecords(m, Listing(m.idempotency.Keys)).value;
    PartsLast(m, Head(m), Registries(m), rows, last);
  }

  lemma FactsLast(m: Memory)
    requires WritableMemory(m)
    ensures InTable(m.facts, Listing(m.facts.Keys)) && Lasts(m, RowRecords(m, Listing(m.facts.Keys)))
    ensures forall i :: 0 <= i < |Listing(m.idempotency.Keys)| ==> Listing(m.idempotency.Keys)[i] in m.idempotency
    ensures var rs := IdempotencyRecords(m, Listing(m.idempotency.Keys)); rs.Ok? ==> Lasts(m, rs.value)
  {
    hide WritableMemory, StorableMemory, Lasts, RowRecords, IdempotencyRecords, Listing, Lists;
    ListingCovers(m.facts);
    ListingCovers(m.idempotency);
    RowsLast(m, Listing(m.facts.Keys));
    IdempotencyLasts(m, Listing(m.idempotency.Keys));
  }

  lemma SendableLog(m: Memory, rs: seq<Record>)
    requires Lasts(m, rs) && rs != [] && IsHeader(rs[0])
    ensures BackendLog(rs)
  {
    hide WritableRecord, Storable, StorableMemory;
    forall i | 0 <= i < |rs|
      ensures WritableRecord(rs[i]) && (rs[i].SchemaVersion? ==> rs[i].version == SCHEMA_VERSION) {
      assert Sendable(rs[i]);
    }
  }

  /** What a log of storable records replays to is storable. */
  lemma ReplayedStorable(log: seq<Record>, m: Memory)
    requires AllStorable(log) && SameUpToTies(Replay(log), m)
    ensures StorableMemory(m)
  {
    NothingUnstorable();
    ReplayStorable(EMPTY, log);
    SameRows(Replay(log), m);
    hide Replay, Modulo, FiniteFact, DatedFact;
  }

  lemma NothingUnstorable()
    ensures StorableMemory(EMPTY)
  {
  }

  lemma SameRows(a: Memory, b: Memory)
    requires SameUpToTies(a, b)
    ensures a.facts == b.facts && a.embeddings == b.embeddings
  {
    assert Modulo(a).facts == a.facts && Modulo(b).facts == b.facts;
  }

  /** The file that compaction writes recreates the state; it loads exactly when the state is storable. */
  lemma CompactedLoads(m: Memory)
    requires Coherent(m) && Chained(m.facts, m.chains) && WritableMemory(m)
    requires m.headerPresent && m.schemaVersion == Some(SCHEMA_VERSION)
    ensures CompactionRecords(m).Ok?
    ensures var rs := CompactionRecords(m).value; var loaded := Load(LogText(rs));
      SameUpToTies(Replay(rs), m) && if StorableMemory(m) then loaded == Ok(rs) else Refused(loaded)
  {
    CompactionPreserves(m);
    CompactedLasts(m);
    var rs := CompactionRecords(m).value;
    if AllStorable(rs) { ReplayedStorable(rs, m); }
    hide Coherent, Chained, WritableMemory, StorableMemory, CompactionRecords, Load, LogText, SameUpToTies, AllStorable, BackendLog;
    LogLoads(rs);
  }

  // ---- Crashes during compaction -----------------------------------------

  /** The directory: the log, and the file that compaction writes beside it. */
  datatype Directory = Directory(main: string, temp: Option<string>)

  /** Create the temporary file, write it byte by byte, sync it, rename it over the log. */
  ghost predicate DuringCompaction(d: Directory, before: string, after: string)
  {
    d == Directory(before, None)
    || (exists k :: 0 <= k <= |after| && d == Directory(before, Some(after[..k])))
    || d == Directory(after, None)
  }

  /** The file loads, to the state up to ties. */
  ghost predicate LoadsTo(bytes: string, m: Memory)
  {
    Load(bytes).Ok? && SameUpToTies(Replay(Load(bytes).value), m)
  }

  /**
   Wherever a compaction stops, the file in place is the old log or the new one.  The old one
   loads to the state exactly when its records are storable, the new one exactly when the state
   is; and the state is whenever the old log was.
   */
  lemma CompactionCrash(log: seq<Record>, m: Memory, d: Directory)
    requires BackendLog(log) && SameUpToTies(Replay(log), m) && Coherent(m) && WritableMemory(m)
    requires m.headerPresent && m.schemaVersion == Some(SCHEMA_VERSION)
    requires CompactionRecords(m).Ok? && DuringCompaction(d, LogText(log), LogText(CompactionRecords(m).value))
    ensures d.main == LogText(log) || d.main == LogText(CompactionRecords(m).value)
    ensures d.main == LogText(log) ==> if AllStorable(log) then LoadsTo(d.main, m) else Refused(Load(d.main))
    ensures d.main == LogText(CompactionRecords(m).value) ==>
      if StorableMemory(m) then LoadsTo(d.main, m) else Refused(Load(d.main))
    ensures AllStorable(log) ==> StorableMemory(m) && LoadsTo(d.main, m)
  {
    hide *;
    SameUpToTiesChained(Replay(log), m);
    CompactedLoads(m);
    LogLoads(log);
    if AllStorable(log) { ReplayedStorable(log, m); }
    LoadsToByRecords(log, m);
    LoadsToByRecords(CompactionRecords(m).value, m);
    InPlace(d, LogText(log), LogText(CompactionRecords(m).value));
  }

  lemma LoadsToByRecords(rs: seq<Record>, m: Memory)
    ensures Load(LogText(rs)) == Ok(rs) && SameUpToTies(Replay(rs), m) ==> LoadsTo(LogText(rs), m)
  {
    hide Load, SameUpToTies, Replay;
  }

  lemma InPlace(d: Directory, before: string, after: string)
    requires DuringCompaction(d, before, after)
    ensures d.main == before || d.main == after
  {
  }

  lemma SameUpToTiesChained(a: Memory, b: Memory)
    requires SameUpToTies(a, b)
    ensures Chained(b.facts, b.chains)
  {
    hide Chained, Modulo;
  }
}
