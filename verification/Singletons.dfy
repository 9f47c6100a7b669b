/**
 Singleton enforcement over whole runs (crates/core/src/storage_append_log.rs:1174-1221 and
 crates/core/src/temporal_graph.rs:897-926, 1000-1039): the indexed check misses nothing, and a
 predicate written only through rejecting checks never holds a contradiction, crashes included.
 */
module Singletons {
  import opened Prelude
  import opened Json
  import opened Facts
  import opened Records
  import opened LogState
  import opened LogFile
  import opened Queries
  import opened Coherence
  import opened Compaction
  import opened Database
  import opened Contradictions
  import FactId
  import RecordRoundTrip

  // ---- The indexed check -------------------------------------------------

  function ConflictKeys(facts: FactTable, f: Fact): set<string>
  {
    set k | k in facts && Conflict(facts[k], f)
  }

  /** The listed keys whose facts conflict. */
  function Kept(facts: FactTable, f: Fact, ks: seq<string>): seq<string>
  {
    if ks == [] then []
    else (if ks[0] in facts && Conflict(facts[ks[0]], f) then [ks[0]] else []) + Kept(facts, f, ks[1..])
  }

  lemma {:induction false} KeptMembers(facts: FactTable, f: Fact, ks: seq<string>)
    ensures forall k :: k in Kept(facts, f, ks) <==> k in ks && k in ConflictKeys(facts, f)
  {
    hide Conflict;
    if ks != [] {
      KeptMembers(facts, f, ks[1..]);
      assert forall k :: k in ks <==> k == ks[0] || k in ks[1..];
    }
  }

  lemma {:induction false} KeptAscending(facts: FactTable, f: Fact, ks: seq<string>)
    requires Ascending(ks)
    ensures Ascending(Kept(facts, f, ks))
  {
    hide Conflict, Below;
    if ks != [] {
      var rest := ks[1..];
      assert Ascending(rest);
      KeptAscending(facts, f, rest);
      KeptMembers(facts, f, rest);
      var kept := Kept(facts, f, rest);
      forall i | 0 <= i < |kept| ensures Below(ks[0], kept[i]) {
        assert kept[i] in rest;
        var j :| 0 <= j < |rest| && rest[j] == kept[i];
        assert ks[j + 1] == kept[i];
      }
    }
  }

  lemma {:induction false} AgainstKept(facts: FactTable, f: Fact, ks: seq<string>)
    ensures Against(f, FactsOf(RowsOf(facts, ks))) == Against(f, FactsOf(RowsOf(facts, Kept(facts, f, ks))))
  {
    hide DetectPairwise;
    if ks != [] {
      var rest := ks[1..];
      AgainstKept(facts, f, rest);
      assert ks == [ks[0]] + rest;
      assert [] + Kept(facts, f, rest) == Kept(facts, f, rest) && [] + RowsOf(facts, rest) == RowsOf(facts, rest);
      if ks[0] in facts {
        FactsOfCons(facts, ks[0], rest);
        if Conflict(facts[ks[0]], f) {
          assert Kept(facts, f, ks) == [ks[0]] + Kept(facts, f, rest);
          FactsOfCons(facts, ks[0], Kept(facts, f, rest));
          AgainstCons(f, facts[ks[0]], FactsOf(RowsOf(facts, rest)));
          AgainstCons(f, facts[ks[0]], FactsOf(RowsOf(facts, Kept(facts, f, rest))));
        } else {
          AgainstCons(f, facts[ks[0]], FactsOf(RowsOf(facts, rest)));
        }
      }
    }
  }

  lemma AgainstCons(f: Fact, first: Fact, rest: seq<Fact>)
    ensures Against(f, [first] + rest)
      == (if Conflict(first, f) then [DetectPairwise(first, f).value] else []) + Against(f, rest)
  {
    hide DetectPairwise;
    assert ([first] + rest)[1..] == rest;
  }

  lemma FactsOfCons(facts: FactTable, k: string, ks: seq<string>)
    requires k in facts
    ensures FactsOf(RowsOf(facts, [k] + ks)) == [facts[k]] + FactsOf(RowsOf(facts, ks))
  {
    assert ([k] + ks)[1..] == ks;
    var rows := RowsOf(facts, [k] + ks);
    assert rows == [Row(k, facts[k])] + RowsOf(facts, ks);
    assert rows[0] == Row(k, facts[k]) && rows[1..] == RowsOf(facts, ks);
  }

  /** Comparing with any set of rows that has all the conflicting ones finds the same. */
  lemma AgainstEnough(facts: FactTable, f: Fact, chosen: set<string>)
    requires forall k :: k in ConflictKeys(facts, f) ==> k in chosen
    ensures Against(f, FactsOf(Scan(facts, chosen))) == Against(f, FactsOf(Scan(facts, ConflictKeys(facts, f))))
  {
    var ks := Listing(chosen);
    AgainstKept(facts, f, ks);
    KeptMembers(facts, f, ks);
    KeptAscending(facts, f, ks);
    hide Kept, Conflict, Against, RowsOf, Ascending;
    assert Lists(Kept(facts, f, ks), ConflictKeys(facts, f));
    ListingUnique(Kept(facts, f, ks), Listing(ConflictKeys(facts, f)), ConflictKeys(facts, f));
  }

  lemma ConflictIsActive(facts: FactTable, f: Fact, k: string)
    requires k in ConflictKeys(facts, f)
    ensures k in KeysOf(facts, Active, PrefixOf(f))
  {
    hide ValuesConflict, SeverityOf;
  }

  /**
   The check against the index, or against the prefix scan that stands in for it, finds exactly
   the contradictions that comparing with every stored fact finds, for all names whatever.
   */
  lemma IndexedCheckIsComplete(m: Memory, f: Fact)
    ensures ContradictionsOf(m, f) == Against(f, FactsOf(Scan(m.facts, m.facts.Keys)))
  {
    var prefix := PrefixOf(f);
    forall k | k in ConflictKeys(m.facts, f) ensures k in KeysOf(m.facts, Active, prefix) {
      ConflictIsActive(m.facts, f, k);
    }
    hide Conflict, KeysOf, PrefixOf, Scan, Against;
    AgainstEnough(m.facts, f, m.facts.Keys);
    if KeysOf(m.facts, Active, prefix) != {} {
      AgainstEnough(m.facts, f, KeysOf(m.facts, Active, prefix));
    } else {
      AgainstEnough(m.facts, f, set k | k in Starting(m.facts, prefix) && m.facts[k].expiredAt.None?);
    }
  }

  /**
   What the check finds: one contradiction with each stored fact that conflicts, none twice, in the
   order of their keys.
   */
  lemma CheckFinds(m: Memory, f: Fact) returns (ks: seq<string>)
    ensures var found := ContradictionsOf(m, f);
      Ascending(ks) && |ks| == |found|
      && (forall i :: 0 <= i < |ks| ==> ks[i] in m.facts && DetectPairwise(m.facts[ks[i]], f) == Some(found[i]))
      && (forall k :: k in m.facts && Conflict(m.facts[k], f) ==> k in ks)
  {
    var keys := ConflictKeys(m.facts, f);
    ks := Listing(keys);
    IndexedCheckIsComplete(m, f);
    hide Conflict, Scan, Against, ContradictionsOf, FactsOf, DetectPairwise, Below;
    AgainstEnough(m.facts, f, m.facts.Keys);
    var rows := RowsOf(m.facts, ks);
    assert Scan(m.facts, keys) == rows by { ScanOfKeys(m.facts, keys); }
    RowsComplete(m.facts, ks);
    var js := AgainstExact(f, FactsOf(rows));
    forall j | 0 <= j < |rows| ensures Conflict(FactsOf(rows)[j], f) {
      assert rows[j] == Row(ks[j], m.facts[ks[j]]) && ks[j] in keys;
    }
    AllPlaces(f, FactsOf(rows), js, Against(f, FactsOf(rows)));
  }

  lemma ScanOfKeys(facts: FactTable, keys: set<string>)
    ensures Scan(facts, keys) == RowsOf(facts, Listing(keys))
  {
  }

  /** When all of the others conflict each is found in its place. */
  lemma AllPlaces(f: Fact, others: seq<Fact>, js: seq<nat>, found: seq<Contradiction>)
    requires ListsAgainst(f, others, js, found) && forall j :: 0 <= j < |others| ==> Conflict(others[j], f)
    ensures |found| == |others| && forall j :: 0 <= j < |others| ==> DetectPairwise(others[j], f) == Some(found[j])
  {
    hide Conflict, DetectPairwise;
    CoversAll(js, |others|);
  }

  lemma LastIsGreatest(js: seq<nat>, k: nat)
    requires Rising(js) && k < |js|
    ensures js[k] <= js[|js| - 1]
  {
  }

  /** An increasing list of all numbers below `n` is the list of them. */
  lemma {:induction false} CoversAll(js: seq<nat>, n: nat)
    requires Rising(js) && (forall k :: 0 <= k < |js| ==> js[k] < n) && forall j: nat :: j < n ==> j in js
    ensures |js| == n && forall k :: 0 <= k < |js| ==> js[k] == k
  {
    assert js == [] || js[0] < n;
    if n > 0 {
      var l := n - 1;
      assert l in js;
      var m := |js| - 1;
      var last :| 0 <= last < |js| && js[last] == l;
      LastIsGreatest(js, last);
      forall j: nat | j < n - 1 ensures j in js[..m] {
        assert j in js;
        var k :| 0 <= k < |js| && js[k] == j;
        assert js[..m][k] == j;
      }
      CoversAll(js[..m], n - 1);
    }
  }

  /** So nothing is found exactly when no stored fact conflicts. */
  lemma NothingFound(m: Memory, f: Fact)
    ensures ContradictionsOf(m, f) == [] <==> forall k :: k in m.facts ==> !Conflict(m.facts[k], f)
  {
    hide Conflict, Scan, Against, ContradictionsOf, Below, FactsOf;
    IndexedCheckIsComplete(m, f);
    var rows := Scan(m.facts, m.facts.Keys);
    AgainstEmpty(f, FactsOf(rows));
    ScanIsExact(m.facts, m.facts.Keys);
    if Against(f, FactsOf(rows)) == [] {
      forall k | k in m.facts ensures !Conflict(m.facts[k], f) {
        assert Row(k, m.facts[k]) in rows;
        var i :| 0 <= i < |rows| && rows[i] == Row(k, m.facts[k]);
        assert !Conflict(FactsOf(rows)[i], f);
      }
    } else {
      var j :| 0 <= j < |rows| && Conflict(FactsOf(rows)[j], f);
      assert rows[j].key in m.facts && Conflict(m.facts[rows[j].key], f);
    }
  }

  // ---- Consistency -------------------------------------------------------

  /** No fact of the predicate conflicts with another fact. */
  predicate Consistent(facts: FactTable, p: string)
  {
    forall k, l :: k in facts && l in facts && k != l && facts[k].predicate_ == p ==> !Conflict(facts[k], facts[l])
  }

  function Unexpired(rows: seq<Row>): seq<Row>
  {
    if rows == [] then []
    else (if rows[0].fact.expiredAt.None? then [rows[0]] else []) + Unexpired(rows[1..])
  }

  predicate DistinctRows(rows: seq<Row>)
  {
    forall i, j :: 0 <= i < j < |rows| ==> rows[i].key != rows[j].key
  }

  lemma {:induction false} UnexpiredWithin(rows: seq<Row>)
    ensures forall row :: row in Unexpired(rows) <==> row in rows && row.fact.expiredAt.None?
  {
    if rows != [] {
      UnexpiredWithin(rows[1..]);
      assert forall row :: row in rows <==> row == rows[0] || row in rows[1..];
    }
  }

  lemma {:induction false} UnexpiredDistinct(rows: seq<Row>)
    requires DistinctRows(rows)
    ensures DistinctRows(Unexpired(rows))
  {
    if rows != [] {
      var rest := rows[1..];
      assert forall i :: 0 <= i < |rest| ==> rest[i] == rows[i + 1];
      UnexpiredDistinct(rest);
      UnexpiredWithin(rest);
      var kept := Unexpired(rest);
      forall i | 0 <= i < |kept| ensures kept[i].key != rows[0].key {
        assert kept[i] in rest;
        var j :| 0 <= j < |rest| && rest[j] == kept[i];
      }
    }
  }

  /** `detect_contradictions` of a registered singleton. */
  ghost function DetectContradictions(facts: FactTable, s: string, p: string): seq<Contradiction>
  {
    AllPairs(FactsOf(Unexpired(ScanFacts(facts, PairPrefix(s, p)))))
  }

  lemma ScannedRows(facts: FactTable, chosen: set<string>)
    requires forall k :: k in chosen ==> k in facts
    ensures DistinctRows(Scan(facts, chosen))
    ensures forall row :: row in Scan(facts, chosen) ==> row.key in chosen && facts[row.key] == row.fact
  {
    hide Below, Scan;
    ScanIsExact(facts, chosen);
    var rows := Scan(facts, chosen);
    forall i, j | 0 <= i < j < |rows| ensures rows[i].key != rows[j].key { BelowIrreflexive(rows[i].key); }
    forall row | row in rows ensures row.key in chosen && facts[row.key] == row.fact {
      var j :| 0 <= j < |rows| && rows[j] == row;
    }
  }

  /** Two facts that a scan of the pair picks conflict. */
  predicate ConflictPicked(facts: FactTable, s: string, p: string, k: string, l: string)
    requires k in facts && l in facts
  {
    k in ScannedKeys(facts, PairPrefix(s, p)) && l in ScannedKeys(facts, PairPrefix(s, p))
    && k != l && Conflict(facts[k], facts[l])
  }

  lemma ScannedUnexpired(facts: FactTable, s: string, p: string)
    requires RowKeyed(facts)
    ensures var rows := Unexpired(ScanFacts(facts, PairPrefix(s, p)));
      DistinctRows(rows) && forall row :: row in rows <==> PickedUnexpired(facts, s, p, row)
  {
    var picked := ScannedKeys(facts, PairPrefix(s, p));
    var rows := ScanFacts(facts, PairPrefix(s, p));
    ScanPicks(facts, PairPrefix(s, p));
    ScannedRows(facts, picked);
    hide RowKeyed, ScanFacts, PairPrefix, ScannedKeys, Unexpired, Scan, DistinctRows, Below;
    UnexpiredWithin(rows);
    UnexpiredDistinct(rows);
    ScanIsExact(facts, picked);
    forall row ensures row in rows <==> row.key in picked && facts[row.key] == row.fact {
      if row.key in picked && facts[row.key] == row.fact { assert Row(row.key, facts[row.key]) in rows; }
    }
  }

  predicate PickedUnexpired(facts: FactTable, s: string, p: string, row: Row)
  {
    row.key in facts && row.key in ScannedKeys(facts, PairPrefix(s, p)) && facts[row.key] == row.fact
    && row.fact.expiredAt.None?
  }

  lemma FoundInOrder(rows: seq<Row>, a: Row, b: Row) returns (i: nat, j: nat)
    requires a in rows && b in rows && a.key != b.key && Conflict(a.fact, b.fact)
    ensures i < j < |rows| && Conflict(rows[i].fact, rows[j].fact)
  {
    DetectSymmetric(a.fact, b.fact);
    hide Conflict;
    var x :| 0 <= x < |rows| && rows[x] == a;
    var y :| 0 <= y < |rows| && rows[y] == b;
    if x < y { return x, y; }
    return y, x;
  }

  /** For all names, `detect_contradictions` finds something exactly when two facts that the scan picks conflict. */
  lemma DetectedExactly(facts: FactTable, s: string, p: string)
    requires RowKeyed(facts)
    ensures DetectContradictions(facts, s, p) != []
      <==> exists k, l :: k in facts && l in facts && ConflictPicked(facts, s, p, k, l)
  {
    ScannedUnexpired(facts, s, p);
    var rows := Unexpired(ScanFacts(facts, PairPrefix(s, p)));
    AllPairsEmpty(FactsOf(rows));
    hide RowKeyed, ScanFacts, PairPrefix, Unexpired, ScannedKeys, AllPairs, Conflict;
    if k, l :| k in facts && l in facts && ConflictPicked(facts, s, p, k, l) {
      ConflictUnexpired(facts[k], facts[l]);
      assert PickedUnexpired(facts, s, p, Row(k, facts[k])) && PickedUnexpired(facts, s, p, Row(l, facts[l]));
      var i, j := FoundInOrder(rows, Row(k, facts[k]), Row(l, facts[l]));
      assert Conflict(FactsOf(rows)[i], FactsOf(rows)[j]);
    }
    if i, j :| 0 <= i < j < |rows| && Conflict(FactsOf(rows)[i], FactsOf(rows)[j]) {
      assert rows[i] in rows && rows[j] in rows;
      assert ConflictPicked(facts, s, p, rows[i].key, rows[j].key);
    }
  }

  lemma ConflictUnexpired(a: Fact, b: Fact)
    requires Conflict(a, b)
    ensures a.expiredAt.None? && b.expiredAt.None? && a.predicate_ == b.predicate_
  {
    hide ValuesConflict, SeverityOf;
  }

  /** Two conflicting facts of another predicate, picked by a scan of this pair because pairs are mixed. */
  ghost predicate OtherConflict(facts: FactTable, s: string, p: string)
  {
    exists k, l :: k in facts && l in facts && ConflictPicked(facts, s, p, k, l) && facts[k].predicate_ != p
  }

  /** For a consistent predicate something is detected exactly when facts of another one conflict in its scan. */
  lemma DetectedIsOther(facts: FactTable, s: string, p: string)
    requires RowKeyed(facts) && Consistent(facts, p)
    ensures DetectContradictions(facts, s, p) == [] <==> !OtherConflict(facts, s, p)
  {
    DetectedExactly(facts, s, p);
    hide RowKeyed, DetectContradictions, ScannedKeys, PairPrefix, Conflict;
  }

  /** When every predicate is consistent nothing is detected, whatever the names. */
  lemma NothingDetected(facts: FactTable, s: string, p: string)
    requires RowKeyed(facts) && forall q: string :: Consistent(facts, q)
    ensures DetectContradictions(facts, s, p) == []
  {
    DetectedExactly(facts, s, p);
    hide RowKeyed, DetectContradictions, ScannedKeys, PairPrefix, Conflict;
    forall k, l | k in facts && l in facts ensures !ConflictPicked(facts, s, p, k, l) {
      assert Consistent(facts, facts[k].predicate_);
    }
  }

  /** On names without colons a consistent predicate is enough. */
  lemma NothingMixed(facts: FactTable, s: string, p: string)
    requires PairsColonFree(facts) && ColonFree(s) && ColonFree(p)
    ensures !OtherConflict(facts, s, p)
  {
    forall k | k in facts && k in ScannedKeys(facts, PairPrefix(s, p)) ensures facts[k].predicate_ == p {
      ColonFreePair(s, p, facts[k]);
    }
    hide ScannedKeys, PairPrefix, Conflict, PairsColonFree;
  }

  // ---- Steps that keep a predicate consistent ----------------------------

  /** Facts of the predicate are only written through a rejecting check. */
  predicate Guarded(step: Step, p: string)
  {
    match step
    case Assert(f) => f.predicate_ != p
    case AssertIdempotent(_, f) => f.predicate_ != p
    case AssertEmbedded(f, _) => f.predicate_ != p
    case AssertChecked(f, reject) => f.predicate_ == p ==> reject
    case _ => true
  }

  /** Whatever part of the log survives a crash is consistent. */
  ghost predicate ConsistentLog(log: seq<Record>, p: string)
  {
    forall n :: 0 <= n <= |log| ==> Consistent(Replay(log[..n]).facts, p)
  }

  ghost predicate Safe(db: Db, p: string)
  {
    Good(db) && Consistent(db.memory.facts, p) && ConsistentLog(db.log, p)
  }

  /** Adding a fact that conflicts with none, or that is of another predicate. */
  lemma AddedConsistent(facts: FactTable, key: string, f: Fact, p: string)
    requires Consistent(facts, p)
    requires f.predicate_ != p || forall k :: k in facts ==> !Conflict(facts[k], f)
    ensures Consistent(facts[key := f], p)
  {
    var after := facts[key := f];
    forall k, l | k in after && l in after && k != l && after[k].predicate_ == p ensures !Conflict(after[k], after[l]) {
      DetectSymmetric(after[k], after[l]);
      OtherPredicate(after[k], after[l]);
    }
  }

  lemma OtherPredicate(a: Fact, b: Fact)
    ensures a.predicate_ != b.predicate_ ==> !Conflict(a, b)
  {
  }

  /** Ending a fact takes it out of every conflict. */
  lemma EndedConsistent(facts: FactTable, key: string, f: Fact, p: string)
    requires Consistent(facts, p) && f.expiredAt.Some?
    ensures Consistent(facts[key := f], p)
  {
    forall k | k in facts ensures !Conflict(facts[k], f) { ExpiredNeverConflicts(facts[k], f); }
    AddedConsistent(facts, key, f, p);
  }

  lemma ExpiredNeverConflicts(a: Fact, b: Fact)
    requires b.expiredAt.Some?
    ensures !Conflict(a, b)
  {
    hide ValuesConflict, SeverityOf;
  }

  lemma CommitSafe(db: Db, r: Record, p: string)
    requires Safe(db, p) && Good(Commit(db, r)) && Consistent(Apply(db.memory, r).facts, p)
    ensures Safe(Commit(db, r), p)
  {
    hide Good, Apply, Consistent, Replay, Admissible, AdmissibleFrom;
    var log := db.log + [r];
    ReplayedTables(Commit(db, r));
    assert Replay(log).facts == Apply(db.memory, r).facts;
    assert log[..|log|] == log;
    forall n | 0 <= n <= |log| ensures Consistent(Replay(log[..n]).facts, p) {
      if n <= |db.log| { assert log[..n] == db.log[..n]; }
    }
  }

  lemma NewFactSafe(db: Db, r: Record, f: Fact, p: string)
    requires Safe(db, p) && Good(Commit(db, r))
    requires r == UpsertFact(RowKey(f), f)
      || (r.UpsertFactAndIdempotency? && r.key == RowKey(f) && r.fact == f)
      || (r.UpsertFactWithEmbedding? && r.key == RowKey(f) && r.fact == f)
    requires f.predicate_ != p || forall k :: k in db.memory.facts ==> !Conflict(db.memory.facts[k], f)
    ensures Safe(Commit(db, r), p)
  {
    AddedConsistent(db.memory.facts, RowKey(f), f, p);
    FactsAfter(db.memory, r, RowKey(f), f);
    hide Good, ConsistentLog, Conflict, Apply, RowKey, Consistent;
    CommitSafe(db, r, p);
  }

  lemma OtherFactsAfter(m: Memory, r: Record)
    requires r.Header? || r.SchemaVersion? || r.PredicateEntry? || r.VolatilityEntry? || r.SourceWeightEntry?
    ensures Apply(m, r).facts == m.facts
  {
  }

  lemma OtherSafe(db: Db, r: Record, p: string)
    requires Safe(db, p) && Good(Commit(db, r))
    requires r.Header? || r.SchemaVersion? || r.PredicateEntry? || r.VolatilityEntry? || r.SourceWeightEntry?
    ensures Safe(Commit(db, r), p)
  {
    OtherFactsAfter(db.memory, r);
    hide Good, ConsistentLog, Apply, Consistent;
    CommitSafe(db, r, p);
  }

  lemma InvalidateSafe(db: Db, id: FactId.Id, at: Rfc3339.Timestamp, p: string)
    requires Safe(db, p) && Good(InvalidateFact(db, id, at))
    ensures Safe(InvalidateFact(db, id, at), p)
  {
    hide Good, ConsistentLog, Consistent, Apply, Database.FactById;
    if Database.FactById(db.memory, id).Some? {
      var row := Database.FactById(db.memory, id).value;
      EndedConsistent(db.memory.facts, row.key, Ended(row.fact, at), p);
      FactsAfter(db.memory, ReplaceFact(row.key, Ended(row.fact, at)), row.key, Ended(row.fact, at));
      CommitSafe(db, ReplaceFact(row.key, Ended(row.fact, at)), p);
    }
  }

  lemma InitializeSafe(db: Db, p: string)
    requires Safe(db, p)
    ensures Safe(InitializeSchema(db), p)
  {
    HeaderGood(db);
    InitializeGood(db);
    hide Good, ConsistentLog, Consistent, Apply;
    if !db.memory.headerPresent { OtherSafe(db, Header(MAGIC), p); }
    var headed := WriteHeader(db);
    if headed.memory.schemaVersion.None? { OtherSafe(headed, SchemaVersion(SCHEMA_VERSION), p); }
  }

  // ---- Compaction --------------------------------------------------------

  /** The record carries no row but one of the state. */
  predicate Within(m: Memory, r: Record)
  {
    match r
    case UpsertFact(key, f) => key in m.facts && m.facts[key] == f
    case ReplaceFact(key, f) => key in m.facts && m.facts[key] == f
    case UpsertFactAndIdempotency(key, f, _) => key in m.facts && m.facts[key] == f
    case UpsertFactWithEmbedding(key, f, _) => key in m.facts && m.facts[key] == f
    case _ => true
  }

  predicate AllWithin(m: Memory, rs: seq<Record>)
  {
    forall i :: 0 <= i < |rs| ==> Within(m, rs[i])
  }

  lemma {:induction false} EntriesWithin(m: Memory, kind: EntryKind, registry: map<string, string>, ks: seq<string>)
    requires forall i :: 0 <= i < |ks| ==> ks[i] in registry
    ensures AllWithin(m, EntryRecords(kind, registry, ks))
  {
    if ks != [] { EntriesWithin(m, kind, registry, ks[1..]); }
  }

  lemma {:induction false} RowsWithin(m: Memory, ks: seq<string>)
    requires InTable(m.facts, ks)
    ensures AllWithin(m, RowRecords(m, ks))
  {
    hide FactId.Text;
    if ks != [] { RowsWithin(m, ks[1..]); }
  }

  lemma {:induction false} IdempotencyWithin(m: Memory, ks: seq<string>)
    requires forall i :: 0 <= i < |ks| ==> ks[i] in m.idempotency
    ensures var rs := IdempotencyRecords(m, ks); rs.Ok? ==> AllWithin(m, rs.value)
  {
    if ks != [] { IdempotencyWithin(m, ks[1..]); }
  }

  lemma PartsWithin(m: Memory, a: seq<Record>, b: seq<Record>, c: seq<Record>, d: seq<Record>)
    requires AllWithin(m, a) && AllWithin(m, b) && AllWithin(m, c) && AllWithin(m, d)
    ensures AllWithin(m, a + b + c + d)
  {
    hide Within;
  }

  lemma RegistriesWithin(m: Memory)
    ensures AllWithin(m, Registries(m))
  {
    hide EntryRecords, Listing, Lists, AllWithin;
    ListingCovers(m.predicateRegistry);
    ListingCovers(m.volatilityRegistry);
    ListingCovers(m.sourceWeightRegistry);
    EntriesWithin(m, Predicates, m.predicateRegistry, Listing(m.predicateRegistry.Keys));
    EntriesWithin(m, Volatilities, m.volatilityRegistry, Listing(m.volatilityRegistry.Keys));
    EntriesWithin(m, SourceWeights, m.sourceWeightRegistry, Listing(m.sourceWeightRegistry.Keys));
    NothingWithin(m);
    PartsWithin(m, EntryRecords(Predicates, m.predicateRegistry, Listing(m.predicateRegistry.Keys)),
                EntryRecords(Volatilities, m.volatilityRegistry, Listing(m.volatilityRegistry.Keys)),
                EntryRecords(SourceWeights, m.sourceWeightRegistry, Listing(m.sourceWeightRegistry.Keys)), []);
    assert Registries(m) + [] == Registries(m);
  }

  lemma NothingWithin(m: Memory)
    ensures AllWithin(m, []) && AllWithin(m, Head(m))
  {
  }

  lemma CompactedWithin(m: Memory)
    ensures CompactionRecords(m).Ok? ==> AllWithin(m, CompactionRecords(m).value)
  {
    hide RowRecords, IdempotencyRecords, Listing, Lists, Head, Registries, AllWithin;
    ListingCovers(m.facts);
    ListingCovers(m.idempotency);
    RegistriesWithin(m);
    NothingWithin(m);
    RowsWithin(m, Listing(m.facts.Keys));
    IdempotencyWithin(m, Listing(m.idempotency.Keys));
    var last := IdempotencyRecords(m, Listing(m.idempotency.Keys));
    if last.Ok? {
      PartsWithin(m, Head(m), Registries(m), RowRecords(m, Listing(m.facts.Keys)), last.value);
    }
  }

  /** Replaying rows of a table onto part of it gives part of it. */
  lemma {:induction false} ReplayWithin(x: Memory, m: Memory, rs: seq<Record>)
    requires AllWithin(m, rs) && forall k :: k in x.facts ==> k in m.facts && x.facts[k] == m.facts[k]
    ensures var y := ReplayOn(x, rs); forall k :: k in y.facts ==> k in m.facts && y.facts[k] == m.facts[k]
    decreases |rs|
  {
    if rs != [] {
      ApplyWithin(x, m, rs[0]);
      hide Apply, Within;
      ReplayWithin(Apply(x, rs[0]), m, rs[1..]);
    }
  }

  lemma ApplyWithin(x: Memory, m: Memory, r: Record)
    requires Within(m, r) && forall k :: k in x.facts ==> k in m.facts && x.facts[k] == m.facts[k]
    ensures var y := Apply(x, r); forall k :: k in y.facts ==> k in m.facts && y.facts[k] == m.facts[k]
  {
    hide UpsertChains, FactId.Text;
  }

  lemma CompactSafe(db: Db, p: string)
    requires Safe(db, p) && Ready(db.memory)
    ensures Safe(Compacted(db), p)
  {
    CompactGood(db);
    hide Good, CompactionRecords, Replay, Consistent;
    var rs := CompactionRecords(db.memory).value;
    CompactedWithin(db.memory);
    forall n | 0 <= n <= |rs| ensures Consistent(Replay(rs[..n]).facts, p) {
      PartOfCompacted(db.memory, rs, n, p);
    }
  }

  lemma PartOfCompacted(m: Memory, rs: seq<Record>, n: nat, p: string)
    requires AllWithin(m, rs) && n <= |rs| && Consistent(m.facts, p)
    ensures Consistent(Replay(rs[..n]).facts, p)
  {
    hide Conflict, Within, ReplayOn;
    ReplayWithin(EMPTY, m, rs[..n]);
  }

  lemma PartConsistent(log: seq<Record>, lines: nat, p: string)
    requires ConsistentLog(log, p) && lines <= |log|
    ensures ConsistentLog(log[..lines], p) && Consistent(Replay(log[..lines]).facts, p)
  {
    hide Consistent, Replay;
    forall n | 0 <= n <= lines ensures Consistent(Replay(log[..lines][..n]).facts, p) {
      assert log[..lines][..n] == log[..n];
    }
  }

  lemma OpenSafe(db: Db, lines: nat, p: string)
    requires Safe(db, p) && lines <= |db.log|
    ensures Safe(Opened(db, db.log[..lines]), p)
  {
    hide Good, Consistent, ConsistentLog, Replay, AllStorable;
    ReopenGood(db, lines);
    PartConsistent(db.log, lines, p);
  }

  // ---- Every guarded run -------------------------------------------------

  lemma AssertSafe(db: Db, f: Fact, p: string)
    requires Safe(db, p) && Good(WriteFact(db, f)) && f.predicate_ != p
    ensures Safe(WriteFact(db, f), p)
  {
    hide Good, Consistent, ConsistentLog, Apply, RowKey;
    NewFactSafe(db, UpsertFact(RowKey(f), f), f, p);
  }

  lemma EntrySafe(db: Db, kind: EntryKind, name: string, encoded: string, p: string)
    requires Safe(db, p) && Good(Commit(db, Entry(kind, name, encoded)))
    ensures Safe(Commit(db, Entry(kind, name, encoded)), p)
  {
    hide Good, Consistent, ConsistentLog, Commit;
    OtherSafe(db, Entry(kind, name, encoded), p);
  }

  lemma IdempotentSafe(db: Db, k: string, f: Fact, p: string)
    requires Safe(db, p) && Good(WriteIdempotent(db, k, f)) && f.predicate_ != p
    ensures Safe(WriteIdempotent(db, k, f), p)
  {
    hide Good, Consistent, ConsistentLog, Apply, RowKey;
    if k !in db.memory.idempotency { NewFactSafe(db, UpsertFactAndIdempotency(RowKey(f), f, k), f, p); }
  }

  lemma EmbeddedSafe(db: Db, f: Fact, embedding: seq<Json.Float>, p: string)
    requires Safe(db, p) && Good(WriteEmbedded(db, f, embedding)) && f.predicate_ != p
    ensures Safe(WriteEmbedded(db, f, embedding), p)
  {
    hide Good, Consistent, ConsistentLog, Apply, RowKey, EmbeddingFits;
    if EmbeddingFits(db.memory, embedding) { NewFactSafe(db, UpsertFactWithEmbedding(RowKey(f), f, embedding), f, p); }
  }

  lemma CheckedSafe(db: Db, f: Fact, reject: bool, p: string)
    requires Safe(db, p) && Good(WriteChecked(db, f, reject)) && (f.predicate_ == p ==> reject)
    ensures Safe(WriteChecked(db, f, reject), p)
  {
    hide Good, Consistent, ConsistentLog, Apply, RowKey, ContradictionsOf, Conflict;
    NothingFound(db.memory, f);
    if !(reject && ContradictionsOf(db.memory, f) != []) { NewFactSafe(db, UpsertFact(RowKey(f), f), f, p); }
  }

  lemma OpeningSafe(db: Db, step: Step, p: string)
    requires Safe(db, p) && Possible(db, step) && (step.Compact? || step.Reopen? || step.Crash?)
    ensures Safe(Next(db, step), p)
  {
    hide Safe, Compacted, Opened, Good;
    match step
    case Compact => CompactSafe(db, p);
    case Reopen =>
      assert db.log[..|db.log|] == db.log;
      OpenSafe(db, |db.log|, p);
    case Crash(lines) => OpenSafe(db, lines, p);
  }

  lemma WritingSafe(db: Db, step: Step, p: string)
    requires Safe(db, p) && Guarded(step, p) && !step.Compact? && !step.Reopen? && !step.Crash? && Good(Next(db, step))
    ensures Safe(Next(db, step), p)
  {
    hide Safe, Good, WriteChecked, WriteIdempotent, WriteEmbedded, InitializeSchema, InvalidateFact, Commit, WriteFact;
    match step
    case Initialize => InitializeSafe(db, p);
    case SetEntry(kind, name, encoded) => EntrySafe(db, kind, name, encoded, p);
    case Assert(f) => AssertSafe(db, f, p);
    case AssertIdempotent(k, f) => IdempotentSafe(db, k, f, p);
    case AssertEmbedded(f, embedding) => EmbeddedSafe(db, f, embedding, p);
    case AssertChecked(f, reject) => CheckedSafe(db, f, reject, p);
    case Invalidate(id, at) => InvalidateSafe(db, id, at, p);
  }

  lemma NextSafe(db: Db, step: Step, p: string)
    requires Safe(db, p) && Possible(db, step) && Guarded(step, p)
    ensures Safe(Next(db, step), p)
  {
    NextGood(db, step);
    hide Good, Consistent, ConsistentLog, Possible, Guarded, Next;
    if step.Compact? || step.Reopen? || step.Crash? {
      OpeningSafe(db, step, p);
    } else {
      WritingSafe(db, step, p);
    }
  }

  lemma {:induction false} RunSafe(db: Db, steps: seq<Step>, p: string)
    requires Safe(db, p) && PossibleRun(db, steps) && forall i :: 0 <= i < |steps| ==> Guarded(steps[i], p)
    ensures Safe(Run(db, steps), p)
    decreases |steps|
  {
    hide Safe, Possible, Next, Guarded;
    if steps != [] {
      NextSafe(db, steps[0], p);
      RunSafe(Next(db, steps[0]), steps[1..], p);
    }
  }

  lemma SafeConsistent(db: Db, p: string)
    requires Safe(db, p)
    ensures Consistent(db.memory.facts, p) && RowKeyed(db.memory.facts)
  {
    GoodRowKeyed(db);
    hide Good, Consistent, ConsistentLog, RowKeyed;
  }

  lemma GuardedConsistent(steps: seq<Step>, q: string)
    requires PossibleRun(NEW, steps) && forall i :: 0 <= i < |steps| ==> Guarded(steps[i], q)
    ensures Consistent(Run(NEW, steps).memory.facts, q) && RowKeyed(Run(NEW, steps).memory.facts)
  {
    hide Run, Safe, PossibleRun, Guarded, Consistent, RowKeyed;
    EmptySafe(q);
    RunSafe(NEW, steps, q);
    SafeConsistent(Run(NEW, steps), q);
  }

  /**
   Singleton safety.  However a store is used, crashed, reopened and compacted, no two facts of a
   predicate that is only written through rejecting checks ever conflict.  For all names
   `detect_contradictions` then finds nothing, exactly unless facts of some other predicate
   conflict that its scan takes for facts of the pair; on names without colons there are none.
   */
  lemma SingletonSafety(steps: seq<Step>, s: string, p: string)
    requires PossibleRun(NEW, steps) && forall i :: 0 <= i < |steps| ==> Guarded(steps[i], p)
    ensures Consistent(Run(NEW, steps).memory.facts, p)
    ensures DetectContradictions(Run(NEW, steps).memory.facts, s, p) == [] <==> !OtherConflict(Run(NEW, steps).memory.facts, s, p)
    ensures PairsColonFree(Run(NEW, steps).memory.facts) && ColonFree(s) && ColonFree(p)
      ==> DetectContradictions(Run(NEW, steps).memory.facts, s, p) == []
  {
    hide Run, PossibleRun, Guarded, DetectContradictions, OtherConflict, PairsColonFree, Consistent, RowKeyed;
    var facts := Run(NEW, steps).memory.facts;
    GuardedConsistent(steps, p);
    DetectedIsOther(facts, s, p);
    if PairsColonFree(facts) && ColonFree(s) && ColonFree(p) { NothingMixed(facts, s, p); }
  }

  /** Where every predicate is only written through rejecting checks, nothing is ever detected, whatever the names. */
  lemma FullyGuardedSafety(steps: seq<Step>, s: string, p: string)
    requires PossibleRun(NEW, steps) && forall i, q: string :: 0 <= i < |steps| ==> Guarded(steps[i], q)
    ensures DetectContradictions(Run(NEW, steps).memory.facts, s, p) == []
  {
    hide Run, Safe, PossibleRun, Guarded, DetectContradictions;
    hide Consistent, RowKeyed;
    assert RowKeyed(Run(NEW, steps).memory.facts) by { GuardedConsistent(steps, p); }
    forall q: string ensures Consistent(Run(NEW, steps).memory.facts, q) {
      GuardedConsistent(steps, q);
    }
    NothingDetected(Run(NEW, steps).memory.facts, s, p);
  }

  lemma GoodRowKeyed(db: Db)
    requires Good(db)
    ensures RowKeyed(db.memory.facts)
  {
    hide SoundLog, SameUpToTies, WritableMemory, RowKeyed;
  }

  lemma EmptySafe(p: string)
    ensures Safe(NEW, p)
  {
    EmptyGood();
    ReplayNothing(EMPTY);
    hide Good;
  }

  // ---- A run that detects facts of another pair --------------------------

  lemma TwoAssertions(f: Fact, g: Fact)
    requires RecordRoundTrip.WritableFact(f) && RecordRoundTrip.WritableFact(g) && f.id != g.id
    ensures PossibleRun(NEW, [Initialize, Assert(f), Assert(g)])
    ensures Run(NEW, [Initialize, Assert(f), Assert(g)]).memory.facts == map[RowKey(f) := f][RowKey(g) := g]
    ensures RowKey(f) != RowKey(g)
  {
    var ready := InitializeSchema(NEW);
    var one := WriteFact(ready, f);
    var two := WriteFact(one, g);
    Initialized(ready);
    FactsAfter(ready.memory, UpsertFact(RowKey(f), f), RowKey(f), f);
    FactsAfter(one.memory, UpsertFact(RowKey(g), g), RowKey(g), g);
    IdsAfter(ready.memory, f);
    DistinctTexts(f, g);
    hide RecordRoundTrip.WritableFact, RowKey, FactId.Text, Apply, InitializeSchema;
    var steps := [Initialize, Assert(f), Assert(g)];
    assert steps[1..] == [Assert(f), Assert(g)] && [Assert(f), Assert(g)][1..] == [Assert(g)] && [Assert(g)][1..] == [];
    assert Run(two, []) == two && PossibleRun(two, []);
    assert Run(one, [Assert(g)]) == two && PossibleRun(one, [Assert(g)]);
    assert Run(ready, [Assert(f), Assert(g)]) == two && PossibleRun(ready, [Assert(f), Assert(g)]);
  }

  lemma Initialized(ready: Db)
    requires ready == InitializeSchema(NEW)
    ensures Ready(ready.memory) && ready.memory.facts == map[] && ready.memory.keyById == map[]
  {
  }

  lemma IdsAfter(m: Memory, f: Fact)
    requires Ready(m)
    ensures Ready(Apply(m, UpsertFact(RowKey(f), f)))
    ensures Apply(m, UpsertFact(RowKey(f), f)).keyById == m.keyById[FactId.Text(f.id) := RowKey(f)]
  {
    hide UpsertChains, FactId.Text, RowKey;
  }

  lemma DistinctTexts(f: Fact, g: Fact)
    requires f.id != g.id
    ensures FactId.Text(f.id) != FactId.Text(g.id) && RowKey(f) != RowKey(g)
  {
    FactId.ParseUndoesText(f.id);
    FactId.ParseUndoesText(g.id);
    if RowKey(f) == RowKey(g) { RowKeyParts(f, g); }
  }

  /**
   Two conflicting facts of a subject with a colon are detected as contradictions of another pair,
   though its predicate is guarded and has no fact at all.
   */
  lemma GuardedYetDetected(f: Fact, g: Fact, s: string, p: string)
    requires RecordRoundTrip.WritableFact(f) && RecordRoundTrip.WritableFact(g) && f.id != g.id && Conflict(f, g)
    requires f.subject == s + ":" + p && f.predicate_ != p
    ensures var steps := [Initialize, Assert(f), Assert(g)];
      PossibleRun(NEW, steps) && (forall i :: 0 <= i < |steps| ==> Guarded(steps[i], p))
      && DetectContradictions(Run(NEW, steps).memory.facts, s, p) != []
  {
    TwoAssertions(f, g);
    ConflictSamePair(f, g);
    hide *;
    UncheckedElsewhere(f, g, p);
    DetectedTogether(f, g, s, p);
  }

  lemma UncheckedElsewhere(f: Fact, g: Fact, p: string)
    requires f.predicate_ != p && g.predicate_ != p
    ensures var steps := [Initialize, Assert(f), Assert(g)]; forall i :: 0 <= i < |steps| ==> Guarded(steps[i], p)
  {
  }

  lemma DetectedTogether(f: Fact, g: Fact, s: string, p: string)
    requires f.subject == g.subject == s + ":" + p && RowKey(f) != RowKey(g) && Conflict(f, g)
    ensures DetectContradictions(map[RowKey(f) := f][RowKey(g) := g], s, p) != []
  {
    var facts := map[RowKey(f) := f][RowKey(g) := g];
    hide RowKey, Conflict, DetectContradictions, ConflictPicked;
    PickedTogether(f, g, s, p);
    DetectedExactly(facts, s, p);
  }

  lemma PickedTogether(f: Fact, g: Fact, s: string, p: string)
    requires f.subject == g.subject == s + ":" + p && RowKey(f) != RowKey(g) && Conflict(f, g)
    ensures ConflictPicked(map[RowKey(f) := f][RowKey(g) := g], s, p, RowKey(f), RowKey(g))
  {
    LongerText(f, s, p);
    LongerText(g, s, p);
    hide RowKey, PrefixOf, PairPrefix, Conflict;
    assert WithPairText(map[RowKey(f) := f][RowKey(g) := g], PairPrefix(s, p)) == {};
  }

  lemma ConflictSamePair(f: Fact, g: Fact)
    requires Conflict(f, g)
    ensures f.subject == g.subject && f.predicate_ == g.predicate_
  {
  }

  lemma LongerText(f: Fact, s: string, p: string)
    requires f.subject == s + ":" + p
    ensures PairPrefix(s, p) <= PrefixOf(f) && PairPrefix(s, p) != PrefixOf(f)
  {
    assert PrefixOf(f) == PairPrefix(s, p) + f.predicate_ + ":";
  }
}
