/**
 The in-memory state of the append log (crates/core/src/storage_append_log.rs:378-528) as a
 value: what a sequence of records means.

 The last record of a key, name or id wins.  The three set indexes are not part of the value:
 `IndexOf` says what each must hold, computed from the facts alone.  The version chains are part
 of it, because they remember in which order facts with equal `valid_from` arrived.
 */
module LogState {
  import opened Prelude
  import opened Json
  import opened Facts
  import opened Records
  import FactId
  import opened Rfc3339

  type FactTable = map<string, Fact>

  datatype Memory = Memory(
    headerPresent: bool,
    schemaVersion: Option<nat>,
    predicateRegistry: map<string, string>,
    volatilityRegistry: map<string, string>,
    sourceWeightRegistry: map<string, string>,
    embeddingDim: Option<nat>,
    embeddings: map<string, seq<Float>>,
    facts: FactTable,
    keyById: map<string, string>,
    chains: map<string, seq<string>>,
    idempotency: map<string, string>)

  const EMPTY := Memory(false, None, map[], map[], map[], None, map[], map[], map[], map[], map[])

  // ---- Set indexes -------------------------------------------------------

  datatype IndexKind = All | Active | Current

  predicate Belongs(kind: IndexKind, f: Fact)
  {
    match kind
    case All => true
    case Active => f.expiredAt.None?
    case Current => IsCurrentlyValid(f)
  }

  /** The keys an index of this kind must hold under a prefix. */
  function KeysOf(facts: FactTable, kind: IndexKind, prefix: string): set<string>
  {
    set k | k in facts && Belongs(kind, facts[k]) && PrefixOf(facts[k]) == prefix
  }

  function PrefixesOf(facts: FactTable, kind: IndexKind): set<string>
  {
    set k | k in facts && Belongs(kind, facts[k]) :: PrefixOf(facts[k])
  }

  /** The whole index: one non-empty set for each prefix that has keys, and no other entry. */
  function IndexOf(facts: FactTable, kind: IndexKind): map<string, set<string>>
  {
    map p | p in PrefixesOf(facts, kind) :: KeysOf(facts, kind, p)
  }

  lemma IndexEntries(facts: FactTable, kind: IndexKind, p: string)
    ensures p in IndexOf(facts, kind) <==> KeysOf(facts, kind, p) != {}
    ensures p in IndexOf(facts, kind) ==> IndexOf(facts, kind)[p] == KeysOf(facts, kind, p)
  {
    hide PrefixOf, Belongs;
    if p in PrefixesOf(facts, kind) {
      var k :| k in facts && Belongs(kind, facts[k]) && PrefixOf(facts[k]) == p;
      assert k in KeysOf(facts, kind, p);
    }
    if KeysOf(facts, kind, p) != {} {
      var k :| k in KeysOf(facts, kind, p);
    }
  }

  // ---- Version chains ----------------------------------------------------

  /** Where a key first occurs in a chain, or the length of the chain. */
  function PositionOf(c: seq<string>, key: string): (i: nat)
    ensures i <= |c| && (i < |c| ==> c[i] == key) && (forall j :: 0 <= j < i ==> c[j] != key)
  {
    if c == [] || c[0] == key then 0 else 1 + PositionOf(c[1..], key)
  }

  /** The chain without the first occurrence of a key. */
  function Without(c: seq<string>, key: string): seq<string>
  {
    var i := PositionOf(c, key);
    if i < |c| then c[..i] + c[i + 1..] else c
  }

  /** How many facts at the head of the chain begin no later than `t`. */
  function Begun(facts: FactTable, c: seq<string>, t: Timestamp): (n: nat)
    ensures n <= |c|
  {
    if c == [] || c[0] !in facts || facts[c[0]].validFrom > t then 0
    else 1 + Begun(facts, c[1..], t)
  }

  /** The chain with a key put after every fact that begins no later than its own. */
  function Place(facts: FactTable, c: seq<string>, key: string): seq<string>
    requires key in facts
  {
    var i := Begun(facts, c, facts[key].validFrom);
    c[..i] + [key] + c[i..]
  }

  function ChainAt(chains: map<string, seq<string>>, p: string): seq<string>
  {
    if p in chains then chains[p] else []
  }

  function RemoveFromChain(chains: map<string, seq<string>>, p: string, key: string): map<string, seq<string>>
  {
    if p !in chains then chains
    else
      var c := Without(chains[p], key);
      if c == [] then chains - {p} else chains[p := c]
  }

  // ---- Applying records --------------------------------------------------

  function UpsertChains(m: Memory, key: string, fact: Fact): map<string, seq<string>>
  {
    var facts := m.facts[key := fact];
    var p := PrefixOf(fact);
    var chains := if key in m.facts then RemoveFromChain(m.chains, PrefixOf(m.facts[key]), key) else m.chains;
    chains[p := Place(facts, ChainAt(chains, p), key)]
  }

  function Upsert(m: Memory, key: string, fact: Fact): Memory
  {
    m.(facts := m.facts[key := fact],
       keyById := m.keyById[FactId.Text(fact.id) := key],
       chains := UpsertChains(m, key, fact))
  }

  function Embed(m: Memory, id: FactId.Id, embedding: seq<Float>): Memory
  {
    m.(embeddingDim := if m.embeddingDim.None? then Some(|embedding|) else m.embeddingDim,
       embeddings := m.embeddings[FactId.Text(id) := embedding])
  }

  function Apply(m: Memory, r: Record): Memory
  {
    match r
    case Header(magic) => m.(headerPresent := magic == MAGIC)
    case SchemaVersion(version) => m.(schemaVersion := Some(version))
    case PredicateEntry(name, encoded) => m.(predicateRegistry := m.predicateRegistry[name := encoded])
    case VolatilityEntry(name, encoded) => m.(volatilityRegistry := m.volatilityRegistry[name := encoded])
    case SourceWeightEntry(name, encoded) => m.(sourceWeightRegistry := m.sourceWeightRegistry[name := encoded])
    case UpsertFact(key, fact) => Upsert(m, key, fact)
    case ReplaceFact(key, fact) => Upsert(m, key, fact)
    case UpsertFactAndIdempotency(key, fact, idempotencyKey) =>
      Upsert(m.(idempotency := m.idempotency[idempotencyKey := FactId.Text(fact.id)]), key, fact)
    case UpsertFactWithEmbedding(key, fact, embedding) => Upsert(Embed(m, fact.id, embedding), key, fact)
  }

  function ReplayOn(m: Memory, rs: seq<Record>): Memory
    decreases |rs|
  {
    if rs == [] then m else ReplayOn(Apply(m, rs[0]), rs[1..])
  }

  function Replay(rs: seq<Record>): Memory
  {
    ReplayOn(EMPTY, rs)
  }

  lemma {:induction false} ReplayConcat(m: Memory, a: seq<Record>, b: seq<Record>)
    ensures ReplayOn(m, a + b) == ReplayOn(ReplayOn(m, a), b)
    decreases |a|
  {
    hide Apply;
    if a == [] {
      assert a + b == b;
    } else {
      assert (a + b)[1..] == a[1..] + b;
      ReplayConcat(Apply(m, a[0]), a[1..], b);
    }
  }

  // ---- The chain invariant -----------------------------------------------

  predicate NoDuplicates(c: seq<string>)
  {
    forall i, j :: 0 <= i < j < |c| ==> c[i] != c[j]
  }

  predicate InTable(facts: FactTable, c: seq<string>)
  {
    forall i :: 0 <= i < |c| ==> c[i] in facts
  }

  /** Ordered by the beginning of valid time. */
  predicate ByBeginning(facts: FactTable, c: seq<string>)
    requires InTable(facts, c)
  {
    forall i, j :: 0 <= i < j < |c| ==> facts[c[i]].validFrom <= facts[c[j]].validFrom
  }

  /** A chain holds each key of its prefix once, ordered by the beginning of valid time. */
  ghost predicate ChainFor(facts: FactTable, p: string, c: seq<string>)
  {
    NoDuplicates(c) && InTable(facts, c) && ByBeginning(facts, c)
    && (forall k :: k in c <==> k in KeysOf(facts, All, p))
  }

  ghost predicate Chained(facts: FactTable, chains: map<string, seq<string>>)
  {
    (forall p :: p in chains ==> chains[p] != [])
    && (forall p :: ChainFor(facts, p, ChainAt(chains, p)))
  }

  /** On an ordered chain exactly the first `Begun` facts have begun. */
  lemma {:induction false} BegunSplits(facts: FactTable, c: seq<string>, t: Timestamp)
    requires InTable(facts, c) && ByBeginning(facts, c)
    ensures forall i :: 0 <= i < |c| ==> (i < Begun(facts, c, t) <==> facts[c[i]].validFrom <= t)
  {
    if c != [] {
      var rest := c[1..];
      assert forall i :: 0 <= i < |rest| ==> rest[i] == c[i + 1];
      BegunSplits(facts, rest, t);
      forall i | 0 <= i < |c| ensures i < Begun(facts, c, t) <==> facts[c[i]].validFrom <= t {
        if i > 0 {
          assert c[i] == rest[i - 1];
          assert facts[c[0]].validFrom <= facts[c[i]].validFrom;
        }
      }
    }
  }

  lemma WithoutOrdered(facts: FactTable, c: seq<string>, key: string)
    requires NoDuplicates(c) && InTable(facts, c) && ByBeginning(facts, c)
    ensures forall k :: k in Without(c, key) <==> k in c && k != key
    ensures NoDuplicates(Without(c, key)) && InTable(facts - {key}, Without(c, key))
    ensures ByBeginning(facts - {key}, Without(c, key))
  {
    hide PositionOf;
    var i, d := PositionOf(c, key), Without(c, key);
    if i < |c| {
      assert forall j :: 0 <= j < |d| ==> d[j] == c[if j < i then j else j + 1];
      forall k | k in c && k != key ensures k in d {
        var j :| 0 <= j < |c| && c[j] == k;
        assert d[if j < i then j else j - 1] == k;
      }
    }
  }

  /** Taking a key out leaves the others once each and in order. */
  lemma ChainWithout(facts: FactTable, p: string, c: seq<string>, key: string)
    requires ChainFor(facts, p, c)
    ensures ChainFor(facts - {key}, p, Without(c, key))
  {
    WithoutOrdered(facts, c, key);
    KeysWithout(facts, All, p, key);
    hide Without, NoDuplicates, InTable, ByBeginning, KeysOf;
  }

  lemma KeysWithout(facts: FactTable, kind: IndexKind, p: string, key: string)
    ensures KeysOf(facts - {key}, kind, p) == KeysOf(facts, kind, p) - {key}
  {
    hide PrefixOf, Belongs;
  }

  lemma KeysWith(facts: FactTable, kind: IndexKind, p: string, key: string, fact: Fact)
    ensures var rest := KeysOf(facts - {key}, kind, p);
      KeysOf(facts[key := fact], kind, p) == if Belongs(kind, fact) && PrefixOf(fact) == p then rest + {key} else rest
  {
    hide PrefixOf, Belongs;
  }

  /** A sequence with an element put in at `i`. */
  lemma PutIn(c: seq<string>, i: nat, key: string)
    requires i <= |c|
    ensures var d := c[..i] + [key] + c[i..];
      |d| == |c| + 1 && d[i] == key
      && (forall j :: 0 <= j < |d| && j != i ==> d[j] == c[if j < i then j else j - 1])
    ensures forall k :: k in c[..i] + [key] + c[i..] <==> k in c || k == key
  {
    var d := c[..i] + [key] + c[i..];
    forall k ensures k in d <==> k in c || k == key {
      assert c == c[..i] + c[i..];
    }
  }

  lemma PlaceDistinct(facts: FactTable, c: seq<string>, key: string)
    requires key in facts && key !in c && NoDuplicates(c) && InTable(facts, c)
    ensures NoDuplicates(Place(facts, c, key)) && InTable(facts, Place(facts, c, key))
    ensures forall k :: k in Place(facts, c, key) <==> k in c || k == key
  {
    var i := Begun(facts, c, facts[key].validFrom);
    hide Begun;
    PutIn(c, i, key);
  }

  lemma PlaceOrdered(facts: FactTable, c: seq<string>, key: string)
    requires key in facts && InTable(facts, c) && ByBeginning(facts, c) && InTable(facts, Place(facts, c, key))
    ensures ByBeginning(facts, Place(facts, c, key))
  {
    var t := facts[key].validFrom;
    var i := Begun(facts, c, t);
    BegunSplits(facts, c, t);
    PutIn(c, i, key);
    hide Begun;
    var d := Place(facts, c, key);
    forall j, k | 0 <= j < k < |d| ensures facts[d[j]].validFrom <= facts[d[k]].validFrom {
      if j != i && k != i {
        assert facts[c[if j < i then j else j - 1]].validFrom <= facts[c[if k < i then k else k - 1]].validFrom;
      }
    }
  }

  /** Placing a new key keeps the chain complete and ordered. */
  lemma ChainPlace(facts: FactTable, p: string, c: seq<string>, key: string)
    requires key in facts && PrefixOf(facts[key]) == p && ChainFor(facts - {key}, p, c)
    ensures ChainFor(facts, p, Place(facts, c, key))
  {
    KeysWithout(facts, All, p, key);
    assert key !in c;
    assert InTable(facts, c) && ByBeginning(facts, c);
    PlaceDistinct(facts, c, key);
    PlaceOrdered(facts, c, key);
    assert key in KeysOf(facts, All, p);
    hide Place, NoDuplicates, InTable, ByBeginning, KeysOf, PrefixOf;
  }

  lemma ChainElsewhere(facts: FactTable, p: string, c: seq<string>, key: string, fact: Fact)
    requires ChainFor(facts - {key}, p, c) && PrefixOf(fact) != p
    ensures ChainFor(facts[key := fact], p, c)
  {
    hide PrefixOf;
    assert forall k :: k in KeysOf(facts - {key}, All, p) <==> k in KeysOf(facts[key := fact], All, p);
    assert forall k :: k in c ==> k in KeysOf(facts - {key}, All, p);
  }

  lemma ChainsRemoved(facts: FactTable, chains: map<string, seq<string>>, key: string)
    requires Chained(facts, chains) && key in facts
    ensures Chained(facts - {key}, RemoveFromChain(chains, PrefixOf(facts[key]), key))
  {
    hide PrefixOf, ChainFor;
    var q := PrefixOf(facts[key]);
    var after := RemoveFromChain(chains, q, key);
    forall p ensures ChainFor(facts - {key}, p, ChainAt(after, p)) {
      assert ChainFor(facts, p, ChainAt(chains, p));
      ChainWithout(facts, p, ChainAt(chains, p), key);
      if p != q { NotInChain(facts, p, ChainAt(chains, p), key); }
    }
  }

  lemma NotInChain(facts: FactTable, p: string, c: seq<string>, key: string)
    requires ChainFor(facts, p, c) && key in facts && PrefixOf(facts[key]) != p
    ensures Without(c, key) == c
  {
    hide PrefixOf, PositionOf;
    assert key !in KeysOf(facts, All, p);
  }

  lemma ChainsPlaced(facts: FactTable, chains: map<string, seq<string>>, key: string, fact: Fact)
    requires Chained(facts - {key}, chains)
    ensures Chained(facts[key := fact],
                    chains[PrefixOf(fact) := Place(facts[key := fact], ChainAt(chains, PrefixOf(fact)), key)])
  {
    hide PrefixOf, ChainFor;
    var q, table := PrefixOf(fact), facts[key := fact];
    var after := chains[q := Place(table, ChainAt(chains, q), key)];
    assert table - {key} == facts - {key};
    forall p ensures ChainFor(table, p, ChainAt(after, p)) {
      assert ChainFor(facts - {key}, p, ChainAt(chains, p));
      if p == q {
        ChainPlace(table, p, ChainAt(chains, p), key);
      } else {
        ChainElsewhere(facts, p, ChainAt(chains, p), key, fact);
      }
    }
  }

  /** What a registration and an embedding leave, beside the rest. */
  lemma EntryAfter(m: Memory, name: string, encoded: string)
    ensures Apply(m, PredicateEntry(name, encoded)).predicateRegistry == m.predicateRegistry[name := encoded]
  {
  }

  lemma EmbeddingAfter(m: Memory, key: string, f: Fact, embedding: seq<Float>)
    ensures Apply(m, UpsertFactWithEmbedding(key, f, embedding)).embeddings == m.embeddings[FactId.Text(f.id) := embedding]
  {
  }

  /** A record that carries a fact puts it under its key, and changes no other row. */
  lemma FactsAfter(m: Memory, r: Record, key: string, f: Fact)
    requires r == UpsertFact(key, f) || r == ReplaceFact(key, f)
      || (r.UpsertFactAndIdempotency? && r.key == key && r.fact == f)
      || (r.UpsertFactWithEmbedding? && r.key == key && r.fact == f)
    ensures Apply(m, r).facts == m.facts[key := f]
  {
    hide UpsertChains, FactId.Text;
  }

  lemma UpsertChained(m: Memory, key: string, fact: Fact)
    requires Chained(m.facts, m.chains)
    ensures Chained(Upsert(m, key, fact).facts, Upsert(m, key, fact).chains)
  {
    hide Chained, PrefixOf, Place, RemoveFromChain;
    if key in m.facts {
      ChainsRemoved(m.facts, m.chains, key);
      ChainsPlaced(m.facts, RemoveFromChain(m.chains, PrefixOf(m.facts[key]), key), key, fact);
    } else {
      assert m.facts - {key} == m.facts;
      ChainsPlaced(m.facts, m.chains, key, fact);
    }
  }

  lemma EmbedKeepsFacts(m: Memory, id: FactId.Id, embedding: seq<Float>)
    ensures Embed(m, id, embedding).facts == m.facts && Embed(m, id, embedding).chains == m.chains
  {
  }

  lemma ApplyChained(m: Memory, r: Record)
    requires Chained(m.facts, m.chains)
    ensures Chained(Apply(m, r).facts, Apply(m, r).chains)
  {
    hide Chained, Upsert, Embed, FactId.Text;
    match r
    case UpsertFact(key, fact) => UpsertChained(m, key, fact);
    case ReplaceFact(key, fact) => UpsertChained(m, key, fact);
    case UpsertFactAndIdempotency(key, fact, k) =>
      UpsertChained(m.(idempotency := m.idempotency[k := FactId.Text(fact.id)]), key, fact);
    case UpsertFactWithEmbedding(key, fact, embedding) =>
      EmbedKeepsFacts(m, fact.id, embedding);
      UpsertChained(Embed(m, fact.id, embedding), key, fact);
    case _ =>
  }

  lemma {:induction false} ReplayOnChained(m: Memory, rs: seq<Record>)
    requires Chained(m.facts, m.chains)
    ensures Chained(ReplayOn(m, rs).facts, ReplayOn(m, rs).chains)
    decreases |rs|
  {
    hide Chained, Apply;
    if rs != [] {
      ApplyChained(m, rs[0]);
      ReplayOnChained(Apply(m, rs[0]), rs[1..]);
    }
  }

  /** After any records whatever, each chain is a duplicate-free ordering of its prefix's keys. */
  lemma ChainsAlwaysOrdered(rs: seq<Record>)
    ensures Chained(Replay(rs).facts, Replay(rs).chains)
  {
    EmptyChained();
    ReplayOnChained(EMPTY, rs);
  }

  lemma EmptyChained()
    ensures Chained(EMPTY.facts, EMPTY.chains)
  {
  }
}
