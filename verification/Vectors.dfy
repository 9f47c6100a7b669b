/**
 The vector index (crates/core/src/vector.rs) and its agreement with the stored embeddings
 (crates/core/src/temporal_graph.rs:551-558, 1066-1093).

 Cosine similarity is an abstract score; a query whose norm is zero is a flag.
 */
module Vectors {
  import opened Prelude
  import opened Json
  import opened LogState
  import opened Compaction
  import FactId

  type Embedding = seq<Float>

  datatype Entry = Entry(id: FactId.Id, embedding: Embedding)

  // ---- The index as a value ----------------------------------------------

  /** What the index holds: embeddings by id, and the dimension set by the first. */
  datatype Vectors = Vectors(table: map<FactId.Id, Embedding>, dim: Option<nat>)

  const NONE := Vectors(map[], None)

  /** An empty embedding or one of another dimension is refused. */
  predicate Accepts(v: Vectors, e: Embedding)
  {
    e != [] && (v.dim.Some? ==> |e| == v.dim.value)
  }

  function Inserted(v: Vectors, id: FactId.Id, e: Embedding): Vectors
  {
    if Accepts(v, e) then Vectors(v.table[id := e], Some(|e|)) else v
  }

  ghost predicate UniqueIds(entries: seq<Entry>)
  {
    forall i, j :: 0 <= i < j < |entries| ==> entries[i].id != entries[j].id
  }

  predicate Uniform(entries: seq<Entry>, dim: Option<nat>)
  {
    forall i :: 0 <= i < |entries| ==> |entries[i].embedding| > 0 && dim == Some(|entries[i].embedding|)
  }

  /** The embeddings by id. */
  function TableOf(entries: seq<Entry>): map<FactId.Id, Embedding>
  {
    if entries == [] then map[]
    else TableOf(entries[..|entries| - 1])[entries[|entries| - 1].id := entries[|entries| - 1].embedding]
  }

  lemma {:induction false} TableLookup(entries: seq<Entry>)
    requires UniqueIds(entries)
    ensures forall id: FactId.Id :: id in TableOf(entries) <==> exists i :: 0 <= i < |entries| && entries[i].id == id
    ensures forall i :: 0 <= i < |entries| ==> entries[i].id in TableOf(entries) && TableOf(entries)[entries[i].id] == entries[i].embedding
  {
    if entries != [] {
      var n := |entries| - 1;
      var init := entries[..n];
      assert forall i :: 0 <= i < n ==> init[i] == entries[i];
      TableLookup(init);
      forall id: FactId.Id ensures id in TableOf(entries) <==> exists i :: 0 <= i < |entries| && entries[i].id == id {
        if id in TableOf(init) {
          var i :| 0 <= i < n && init[i].id == id;
          assert entries[i].id == id;
        }
        if id == entries[n].id { assert entries[n].id == id; }
      }
    }
  }

  /** Entries with unique ids that agree with a table on every id have that table. */
  lemma TableIs(entries: seq<Entry>, t: map<FactId.Id, Embedding>)
    requires UniqueIds(entries)
    requires forall i :: 0 <= i < |entries| ==> entries[i].id in t && t[entries[i].id] == entries[i].embedding
    requires forall id: FactId.Id :: id in t ==> exists i :: 0 <= i < |entries| && entries[i].id == id
    ensures TableOf(entries) == t
  {
    TableLookup(entries);
    var got := TableOf(entries);
    hide TableOf;
    forall id: FactId.Id | id in got ensures id in t && t[id] == got[id] {
      var i :| 0 <= i < |entries| && entries[i].id == id;
    }
    assert got.Keys == t.Keys;
  }

  // ---- Ranking -----------------------------------------------------------

  datatype Scored = Scored(id: FactId.Id, score: real)

  /** A stable insertion: after every row that scores at least as much. */
  function Place(rows: seq<Scored>, row: Scored): seq<Scored>
  {
    if rows == [] then [row]
    else if rows[0].score >= row.score then [rows[0]] + Place(rows[1..], row)
    else [row] + rows
  }

  /** A stable sort by descending score. */
  function Sorted(rows: seq<Scored>): seq<Scored>
  {
    if rows == [] then [] else Place(Sorted(rows[..|rows| - 1]), rows[|rows| - 1])
  }

  ghost predicate Descending(rows: seq<Scored>)
  {
    forall i, j :: 0 <= i < j < |rows| ==> rows[i].score >= rows[j].score
  }

  ghost predicate DistinctRows(rows: seq<Scored>)
  {
    forall i, j :: 0 <= i < j < |rows| ==> rows[i].id != rows[j].id
  }

  lemma {:induction false} PlaceMembers(rows: seq<Scored>, row: Scored)
    ensures |Place(rows, row)| == |rows| + 1
    ensures forall x :: x in Place(rows, row) <==> x in rows || x == row
  {
    if rows != [] {
      PlaceMembers(rows[1..], row);
      assert rows == [rows[0]] + rows[1..];
    }
  }

  lemma {:induction false} PlaceOrdered(rows: seq<Scored>, row: Scored)
    requires Descending(rows) && DistinctRows(rows) && forall i :: 0 <= i < |rows| ==> rows[i].id != row.id
    ensures Descending(Place(rows, row)) && DistinctRows(Place(rows, row))
  {
    if rows != [] && rows[0].score >= row.score {
      var rest := rows[1..];
      assert forall i :: 0 <= i < |rest| ==> rest[i] == rows[i + 1];
      PlaceOrdered(rest, row);
      PlaceMembers(rest, row);
      var placed := Place(rest, row);
      forall i | 0 <= i < |placed| ensures rows[0].score >= placed[i].score && rows[0].id != placed[i].id {
        assert placed[i] in rest || placed[i] == row;
      }
      assert Place(rows, row) == [rows[0]] + placed;
    }
  }

  lemma {:induction false} SortedMembers(rows: seq<Scored>)
    ensures |Sorted(rows)| == |rows|
    ensures forall x :: x in Sorted(rows) <==> x in rows
  {
    if rows != [] {
      var init, last := rows[..|rows| - 1], rows[|rows| - 1];
      SortedMembers(init);
      PlaceMembers(Sorted(init), last);
      assert rows == init + [last];
    }
  }

  lemma {:induction false} SortedOrdered(rows: seq<Scored>)
    requires DistinctRows(rows)
    ensures Descending(Sorted(rows)) && DistinctRows(Sorted(rows))
  {
    if rows != [] {
      var init, last := rows[..|rows| - 1], rows[|rows| - 1];
      assert forall i :: 0 <= i < |init| ==> init[i] == rows[i];
      SortedOrdered(init);
      SortedMembers(init);
      var sorted := Sorted(init);
      forall i | 0 <= i < |sorted| ensures sorted[i].id != last.id {
        assert sorted[i] in init;
      }
      PlaceOrdered(sorted, last);
    }
  }

  /** The rows with a score, in their order. */
  function OfScore(rows: seq<Scored>, score: real): (kept: seq<Scored>)
    ensures |kept| <= |rows|
  {
    if rows == [] then [] else (if rows[0].score == score then [rows[0]] else []) + OfScore(rows[1..], score)
  }

  lemma {:induction false} NoneOfScore(rows: seq<Scored>, score: real)
    requires forall i :: 0 <= i < |rows| ==> rows[i].score != score
    ensures OfScore(rows, score) == []
  {
    if rows != [] { NoneOfScore(rows[1..], score); }
  }

  lemma {:induction false} OfScoreSnoc(rows: seq<Scored>, row: Scored, score: real)
    ensures OfScore(rows + [row], score) == OfScore(rows, score) + (if row.score == score then [row] else [])
  {
    if rows == [] {
      assert [row][1..] == [] && [] + [row] == [row];
    } else {
      assert (rows + [row])[1..] == rows[1..] + [row];
      OfScoreSnoc(rows[1..], row, score);
      Associative(if rows[0].score == score then [rows[0]] else [], OfScore(rows[1..], score), if row.score == score then [row] else []);
    }
  }

  lemma {:induction false} PlaceStable(rows: seq<Scored>, row: Scored, score: real)
    requires Descending(rows)
    ensures OfScore(Place(rows, row), score) == OfScore(rows, score) + (if row.score == score then [row] else [])
  {
    var last := if row.score == score then [row] else [];
    if rows == [] {
      assert [row][1..] == [];
    } else if rows[0].score >= row.score {
      var placed := Place(rows[1..], row);
      assert ([rows[0]] + placed)[1..] == placed;
      PlaceStable(rows[1..], row, score);
      Associative(if rows[0].score == score then [rows[0]] else [], OfScore(rows[1..], score), last);
    } else {
      assert ([row] + rows)[1..] == rows;
      if row.score == score { NoneOfScore(rows, score); }
    }
  }

  /** Sorting keeps the rows of each score, in the order in which they stood. */
  lemma {:induction false} SortedStable(rows: seq<Scored>, score: real)
    requires DistinctRows(rows)
    ensures OfScore(Sorted(rows), score) == OfScore(rows, score)
  {
    if rows != [] {
      var init, last := rows[..|rows| - 1], rows[|rows| - 1];
      assert forall i :: 0 <= i < |init| ==> init[i] == rows[i];
      SortedStable(init, score);
      SortedOrdered(init);
      PlaceStable(Sorted(init), last, score);
      OfScoreSnoc(init, last, score);
      assert rows == init + [last];
    }
  }

  function Truncated(rows: seq<Scored>, k: nat): seq<Scored>
  {
    if |rows| <= k then rows else rows[..k]
  }

  // ---- Search ------------------------------------------------------------

  /** Allowed entries with their scores, in entry order. */
  function Eligible(entries: seq<Entry>, score: Embedding -> real, allowed: set<FactId.Id>): seq<Scored>
  {
    if entries == [] then []
    else
      var e := entries[|entries| - 1];
      Eligible(entries[..|entries| - 1], score, allowed) + (if e.id in allowed then [Scored(e.id, score(e.embedding))] else [])
  }

  predicate Fits(table: map<FactId.Id, Embedding>, score: Embedding -> real, allowed: set<FactId.Id>, row: Scored)
  {
    row.id in allowed && row.id in table && row.score == score(table[row.id])
  }

  lemma {:induction false} EligibleRows(entries: seq<Entry>, score: Embedding -> real, allowed: set<FactId.Id>)
    requires UniqueIds(entries)
    ensures forall row :: row in Eligible(entries, score, allowed) <==> Fits(TableOf(entries), score, allowed, row)
  {
    if entries != [] {
      var n := |entries| - 1;
      var init, e := entries[..n], entries[n];
      assert forall i :: 0 <= i < n ==> init[i] == entries[i];
      EligibleRows(init, score, allowed);
      TableLookup(init);
      assert e.id !in TableOf(init);
    }
  }

  lemma {:induction false} EligibleDistinct(entries: seq<Entry>, score: Embedding -> real, allowed: set<FactId.Id>)
    requires UniqueIds(entries)
    ensures DistinctRows(Eligible(entries, score, allowed))
  {
    if entries != [] {
      var n := |entries| - 1;
      var init, e := entries[..n], entries[n];
      assert forall i :: 0 <= i < n ==> init[i] == entries[i];
      EligibleDistinct(init, score, allowed);
      EligibleRows(init, score, allowed);
      TableLookup(init);
      var before := Eligible(init, score, allowed);
      forall i | 0 <= i < |before| ensures before[i].id != e.id {
        assert before[i] in before;
      }
    }
  }

  function Candidates(table: map<FactId.Id, Embedding>, allowed: set<FactId.Id>): set<FactId.Id>
  {
    set id | id in table && id in allowed
  }

  lemma {:induction false} CountDistinct(rows: seq<Scored>, ids: set<FactId.Id>)
    requires DistinctRows(rows) && (forall row :: row in rows ==> row.id in ids)
    requires forall id :: id in ids ==> exists row :: row in rows && row.id == id
    ensures |rows| == |ids|
    decreases |rows|
  {
    if rows == [] {
      assert ids == {};
    } else {
      var init, last := rows[..|rows| - 1], rows[|rows| - 1];
      assert rows == init + [last];
      forall row | row in init ensures row.id in ids - {last.id} {
        var i :| 0 <= i < |init| && init[i] == row;
        assert rows[i] == row;
      }
      forall id | id in ids - {last.id} ensures exists row :: row in init && row.id == id {
        var row :| row in rows && row.id == id;
        assert row in init;
      }
      CountDistinct(init, ids - {last.id});
    }
  }

  function Least(a: nat, b: nat): nat { if a < b then a else b }

  /**
   What a search should return: descending scores, no entry twice, each row an allowed entry with
   its score, as many as there are up to `k`, and nothing left out that scores above what was kept.
   */
  ghost predicate TopOf(table: map<FactId.Id, Embedding>, score: Embedding -> real, allowed: set<FactId.Id>, k: nat, rows: seq<Scored>)
  {
    Descending(rows) && DistinctRows(rows) && |rows| == Least(k, |Candidates(table, allowed)|)
    && (forall row :: row in rows ==> Fits(table, score, allowed, row))
    && (forall other, row :: Fits(table, score, allowed, other) && row in rows && other !in rows ==> other.score <= row.score)
  }

  lemma RankingIsTop(entries: seq<Entry>, score: Embedding -> real, allowed: set<FactId.Id>, k: nat)
    requires UniqueIds(entries)
    ensures TopOf(TableOf(entries), score, allowed, k, Truncated(Sorted(Eligible(entries, score, allowed)), k))
  {
    var table, all := TableOf(entries), Eligible(entries, score, allowed);
    EligibleRows(entries, score, allowed);
    EligibleDistinct(entries, score, allowed);
    SortedMembers(all);
    SortedOrdered(all);
    EligibleCount(entries, score, allowed);
    hide TableOf, Eligible, Sorted, Fits;
    KeepsTop(Sorted(all), k);
  }

  lemma EligibleCount(entries: seq<Entry>, score: Embedding -> real, allowed: set<FactId.Id>)
    requires UniqueIds(entries)
    ensures |Eligible(entries, score, allowed)| == |Candidates(TableOf(entries), allowed)|
  {
    var table, all := TableOf(entries), Eligible(entries, score, allowed);
    EligibleRows(entries, score, allowed);
    EligibleDistinct(entries, score, allowed);
    hide TableOf, Eligible;
    forall id | id in Candidates(table, allowed) ensures exists row :: row in all && row.id == id {
      assert Fits(table, score, allowed, Scored(id, score(table[id])));
    }
    CountDistinct(all, Candidates(table, allowed));
  }

  lemma KeepsTop(rows: seq<Scored>, k: nat)
    requires Descending(rows) && DistinctRows(rows)
    ensures var kept := Truncated(rows, k);
      Descending(kept) && DistinctRows(kept) && |kept| == Least(k, |rows|) && (forall row :: row in kept ==> row in rows)
      && (forall other, row :: other in rows && row in kept && other !in kept ==> other.score <= row.score)
  {
    var kept := Truncated(rows, k);
    forall other, row | other in rows && row in kept && other !in kept ensures other.score <= row.score {
      var i :| 0 <= i < |kept| && kept[i] == row;
      var j :| 0 <= j < |rows| && rows[j] == other;
      assert j >= |kept|;
    }
  }

  // ---- The index as the program keeps it ---------------------------------

  datatype VectorError = InvalidEmbedding

  class VectorIndex {
    var entries: seq<Entry>
    var dim: Option<nat>

    ghost predicate Valid()
      reads this
    {
      UniqueIds(entries) && Uniform(entries, dim)
    }

    ghost function Contents(): Vectors
      reads this
    {
      Vectors(TableOf(entries), dim)
    }

    constructor ()
      ensures Valid() && Contents() == NONE
    {
      entries, dim := [], None;
    }

    /** Where an id stands, or the number of entries. */
    method Position(id: FactId.Id) returns (at: nat)
      ensures at <= |entries| && (at < |entries| ==> entries[at].id == id)
      ensures forall i :: 0 <= i < at ==> entries[i].id != id
    {
      at := 0;
      while at < |entries| && entries[at].id != id
        invariant at <= |entries| && forall i :: 0 <= i < at ==> entries[i].id != id
      {
        at := at + 1;
      }
    }

    method Insert(id: FactId.Id, embedding: Embedding) returns (result: Option<VectorError>)
      requires Valid()
      modifies this
      ensures Valid() && Contents() == Inserted(old(Contents()), id, embedding)
      ensures result.None? <==> Accepts(old(Contents()), embedding)
    {
      if embedding == [] {
        return Some(InvalidEmbedding);
      }
      match dim {
        case None => dim := Some(|embedding|);
        case Some(d) =>
          if |embedding| != d {
            return Some(InvalidEmbedding);
          }
      }
      var at := Position(id);
      ghost var before := entries;
      if at < |entries| {
        ReplacedTable(entries, at, embedding);
        entries := entries[at := Entry(id, embedding)];
      } else {
        assert (entries + [Entry(id, embedding)])[..|entries|] == entries;
        entries := entries + [Entry(id, embedding)];
      }
      result := None;
    }

    /** The last entry takes the place of the removed one. */
    method Remove(id: FactId.Id)
      requires Valid()
      modifies `entries
      ensures Valid() && TableOf(entries) == TableOf(old(entries)) - {id}
    {
      var at := Position(id);
      if at < |entries| {
        SwapRemoved(entries, at);
        entries := entries[at := entries[|entries| - 1]][..|entries| - 1];
      } else {
        TableLookup(entries);
        assert TableOf(entries) - {id} == TableOf(entries);
      }
    }

    method Search(score: Embedding -> real, zeroQuery: bool, k: nat, allowed: set<FactId.Id>) returns (rows: seq<Scored>)
      requires Valid()
      ensures !zeroQuery ==> TopOf(TableOf(entries), score, allowed, k, rows)
      ensures zeroQuery ==> rows == []
    {
      RankingIsTop(entries, score, allowed, k);
      if k == 0 || allowed == {} || entries == [] {
        SortedMembers(Eligible(entries, score, allowed));
        NothingEligible(entries, score, allowed, k);
        return [];
      }
      if zeroQuery {
        return [];
      }
      rows := [];
      for i := 0 to |entries|
        invariant rows == Eligible(entries[..i], score, allowed)
      {
        assert entries[..i + 1][..i] == entries[..i];
        if entries[i].id in allowed {
          rows := rows + [Scored(entries[i].id, score(entries[i].embedding))];
        }
      }
      assert entries[..|entries|] == entries;
      rows := Truncated(Sorted(rows), k);
    }
  }

  lemma {:induction false} NothingEligible(entries: seq<Entry>, score: Embedding -> real, allowed: set<FactId.Id>, k: nat)
    requires k == 0 || allowed == {} || entries == []
    ensures Truncated(Sorted(Eligible(entries, score, allowed)), k) == []
    decreases |entries|
  {
    if k > 0 && entries != [] {
      NothingEligible(entries[..|entries| - 1], score, allowed, k);
      SortedMembers(Eligible(entries[..|entries| - 1], score, allowed));
      SortedMembers(Eligible(entries, score, allowed));
    }
  }

  lemma ReplacedTable(entries: seq<Entry>, at: nat, embedding: Embedding)
    requires UniqueIds(entries) && at < |entries|
    ensures var after := entries[at := Entry(entries[at].id, embedding)];
      UniqueIds(after) && TableOf(after) == TableOf(entries)[entries[at].id := embedding]
  {
    var id := entries[at].id;
    var after := entries[at := Entry(id, embedding)];
    var t := TableOf(entries)[id := embedding];
    TableLookup(entries);
    hide TableOf;
    assert forall i :: 0 <= i < |after| ==> after[i].id == entries[i].id;
    forall x: FactId.Id | x in t ensures exists i :: 0 <= i < |after| && after[i].id == x {
      if x == id {
        assert after[at].id == x;
      } else {
        var i :| 0 <= i < |entries| && entries[i].id == x;
        assert after[i].id == x;
      }
    }
    TableIs(after, t);
  }

  lemma SwapRemoved(entries: seq<Entry>, at: nat)
    requires UniqueIds(entries) && at < |entries|
    ensures var after := entries[at := entries[|entries| - 1]][..|entries| - 1];
      UniqueIds(after) && TableOf(after) == TableOf(entries) - {entries[at].id}
      && (forall i :: 0 <= i < |after| ==> after[i] in entries)
  {
    var id, n := entries[at].id, |entries| - 1;
    var after := entries[at := entries[n]][..n];
    var t := TableOf(entries) - {id};
    TableLookup(entries);
    hide TableOf;
    assert forall i :: 0 <= i < n ==> after[i] == entries[if i == at then n else i];
    forall x: FactId.Id | x in t ensures exists i :: 0 <= i < |after| && after[i].id == x {
      var i :| 0 <= i < |entries| && entries[i].id == x;
      assert after[if i == n then at else i].id == x;
    }
    TableIs(after, t);
  }
}
