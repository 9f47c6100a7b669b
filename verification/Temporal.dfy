/**
 Invalidation and correction in time (crates/core/src/temporal_graph.rs:293-302, 791-835).

 Invalidating at an instant leaves what was true before it, and nothing after; a chain of
 corrections partitions time among its facts.
 */
module Temporal {
  import opened Prelude
  import opened Json
  import opened Facts
  import opened Records
  import opened LogState
  import opened Queries
  import opened Coherence
  import opened Compaction
  import opened Database
  import RecordRoundTrip
  import LogFile
  import FactId
  import Utf8
  import opened Rfc3339

  /** The keys of the facts of a pair that were valid at an instant. */
  function AnswerKeys(facts: FactTable, s: string, p: string, t: Timestamp): set<string>
  {
    set k | k in facts && facts[k].subject == s && facts[k].predicate_ == p && WasValidAt(facts[k], t)
  }

  // ---- Invalidation ------------------------------------------------------

  /** What an invalidation does to the stored facts. */
  lemma InvalidatedFacts(db: Db, id: FactId.Id, at: Timestamp)
    requires Coherent(db.memory) && FactById(db.memory, id).Some?
    ensures var row := FactById(db.memory, id).value;
      Holds(db.memory.facts, row) && row.fact.id == id
      && InvalidateFact(db, id, at).memory.facts == db.memory.facts[row.key := Ended(row.fact, at)]
  {
    FoundById(db.memory, id);
    hide RowKeyed, UpsertChains, FactId.Text;
  }

  /**
   What ending a fact leaves: one record more, the fact with both ends at the instant and else as
   it was, and every other row.
   */
  predicate EndedAt(before: Db, after: Db, id: FactId.Id, at: Timestamp)
  {
    FactById(before.memory, id).Some?
    && var row := FactById(before.memory, id).value; var f := row.fact;
       var ended := Fact(id, f.subject, f.predicate_, f.object_, f.validFrom, Some(at), f.recordedAt, Some(at), f.confidence, f.source);
       after.log == before.log + [ReplaceFact(row.key, ended)] && after.memory.facts == before.memory.facts[row.key := ended]
       && FactById(after.memory, id) == Some(Row(row.key, ended))
  }

  lemma InvalidationStores(db: Db, id: FactId.Id, at: Timestamp)
    requires Coherent(db.memory) && FactById(db.memory, id).Some?
    ensures EndedAt(db, InvalidateFact(db, id, at), id, at)
  {
    InvalidatedFacts(db, id, at);
    InvalidateKeepsIds(db, id, at);
    hide Coherent, FactId.Text, Apply;
  }

  /** An invalidated fact was valid exactly from its beginning to the invalidation. */
  lemma InvalidatedInterval(db: Db, id: FactId.Id, at: Timestamp, s: string, p: string, t: Timestamp)
    requires Coherent(db.memory) && FactById(db.memory, id).Some?
    ensures var row := FactById(db.memory, id).value; var after := InvalidateFact(db, id, at).memory.facts;
      var f := row.fact;
      row.key in AnswerKeys(after, s, p, t) <==> f.subject == s && f.predicate_ == p && f.validFrom <= t < at
    ensures var row := FactById(db.memory, id).value; var after := InvalidateFact(db, id, at).memory.facts;
      AnswerKeys(after, s, p, t) - {row.key} == AnswerKeys(db.memory.facts, s, p, t) - {row.key}
  {
    InvalidatedFacts(db, id, at);
    hide InvalidateFact, FactById, Coherent;
  }

  /** Invalidating a current fact changes no answer before the instant, and after it removes only that fact. */
  lemma InvalidationKeepsThePast(db: Db, id: FactId.Id, at: Timestamp, s: string, p: string, t: Timestamp)
    requires Coherent(db.memory) && FactById(db.memory, id).Some?
    requires IsCurrentlyValid(FactById(db.memory, id).value.fact)
    ensures var row := FactById(db.memory, id).value; var after := InvalidateFact(db, id, at).memory.facts;
      AnswerKeys(after, s, p, t)
      == if t < at then AnswerKeys(db.memory.facts, s, p, t) else AnswerKeys(db.memory.facts, s, p, t) - {row.key}
  {
    InvalidatedFacts(db, id, at);
    hide InvalidateFact, FactById, Coherent;
  }

  /** Up to when a fact is valid, if that has an end. */
  function Until(f: Fact): Option<Timestamp>
  {
    if f.validTo.None? then f.expiredAt
    else if f.expiredAt.None? then f.validTo
    else if f.validTo.value < f.expiredAt.value then f.validTo else f.expiredAt
  }

  /**
   Invalidating a fact that already ended may change the past: answers before the instant stay
   the same exactly when the fact ran at least to it, or began no earlier than it.
   */
  lemma ReinvalidationIsExact(db: Db, id: FactId.Id, at: Timestamp)
    requires Coherent(db.memory) && FactById(db.memory, id).Some?
    ensures
      var f := FactById(db.memory, id).value.fact; var after := InvalidateFact(db, id, at).memory.facts;
      (forall t: Timestamp :: t < at ==>
         AnswerKeys(after, f.subject, f.predicate_, t) == AnswerKeys(db.memory.facts, f.subject, f.predicate_, t))
      <==> Until(f).None? || Until(f).value >= at || f.validFrom >= at
  {
    var row := FactById(db.memory, id).value;
    var f := row.fact;
    var after := InvalidateFact(db, id, at).memory.facts;
    InvalidatedFacts(db, id, at);
    hide InvalidateFact, FactById, Coherent;
    if Until(f).Some? && Until(f).value < at && f.validFrom < at {
      var t: Timestamp := if f.validFrom < Until(f).value then Until(f).value else f.validFrom;
      assert row.key in AnswerKeys(after, f.subject, f.predicate_, t);
      assert row.key !in AnswerKeys(db.memory.facts, f.subject, f.predicate_, t);
    } else {
      forall t: Timestamp | t < at
        ensures AnswerKeys(after, f.subject, f.predicate_, t) == AnswerKeys(db.memory.facts, f.subject, f.predicate_, t) {
      }
    }
  }

  // ---- Correction --------------------------------------------------------

  const ONE := Finite(NumberToken(false, "1", "", ""))

  /** A new value for a fact from an instant on: the id, the value, the instant, the time of writing. */
  datatype Correction = Correction(id: FactId.Id, value: Value, at: Timestamp, now: Timestamp)

  function Replacement(old_: Fact, c: Correction): Fact
  {
    Fact(c.id, old_.subject, old_.predicate_, c.value, c.at, None, c.now, None, ONE, None)
  }

  /**
   `correct_fact`: end the old fact, then assert the replacement.  These are two steps; whatever
   comes between them finds the store as the first one leaves it.
   */
  function CorrectFact(db: Db, id: FactId.Id, c: Correction): Db
  {
    match FactById(db.memory, id)
    case None => db
    case Some(row) => WriteFact(InvalidateFact(db, id, c.at), Replacement(row.fact, c))
  }

  /** What a pair has held: its facts as they were asserted, and when the last one ended if it has. */
  datatype History = History(facts: seq<Fact>, cut: Option<Timestamp>)

  function Last(h: History): Fact
    requires h.facts != []
  {
    h.facts[|h.facts| - 1]
  }

  /** Current facts of one pair, each beginning after the one before. */
  predicate Successive(h: History, s: string, p: string)
  {
    h.facts != []
    && (forall i :: 0 <= i < |h.facts| ==>
      h.facts[i].subject == s && h.facts[i].predicate_ == p && IsCurrentlyValid(h.facts[i]))
    && (forall i, j :: 0 <= i < j < |h.facts| ==> h.facts[i].validFrom < h.facts[j].validFrom)
    && (h.cut.Some? ==> Last(h).validFrom < h.cut.value)
  }

  /** When the i-th fact ended: when the next began, the last where the history was cut. */
  function EndAt(h: History, i: nat): Option<Timestamp>
    requires i < |h.facts|
  {
    if i + 1 < |h.facts| then Some(h.facts[i + 1].validFrom) else h.cut
  }

  /** How the i-th fact stands stored. */
  function StoredAs(h: History, i: nat): Fact
    requires i < |h.facts|
  {
    if EndAt(h, i).Some? then Ended(h.facts[i], EndAt(h, i).value) else h.facts[i]
  }

  /** The facts of the pair are those of the history, each under its own key. */
  ghost predicate HeldAs(facts: FactTable, s: string, p: string, h: History)
  {
    (forall i, j :: 0 <= i < j < |h.facts| ==> RowKey(h.facts[i]) != RowKey(h.facts[j]))
    && (forall i :: 0 <= i < |h.facts| ==> RowKey(h.facts[i]) in facts && facts[RowKey(h.facts[i])] == StoredAs(h, i))
    && (forall k :: k in facts && facts[k].subject == s && facts[k].predicate_ == p ==>
         exists i :: 0 <= i < |h.facts| && k == RowKey(h.facts[i]))
  }

  ghost predicate Corrected(facts: FactTable, s: string, p: string, h: History)
  {
    Successive(h, s, p) && HeldAs(facts, s, p, h)
  }

  /** The last fact that had begun at `t`. */
  function Holder(facts: seq<Fact>, t: Timestamp): (i: nat)
    requires facts != [] && facts[0].validFrom <= t
    ensures i < |facts| && facts[i].validFrom <= t
  {
    if facts[|facts| - 1].validFrom <= t then |facts| - 1 else Holder(facts[..|facts| - 1], t)
  }

  lemma {:induction false} HolderIsLast(facts: seq<Fact>, t: Timestamp)
    requires facts != [] && facts[0].validFrom <= t
    requires forall i, j :: 0 <= i < j < |facts| ==> facts[i].validFrom < facts[j].validFrom
    ensures forall j :: Holder(facts, t) < j < |facts| ==> facts[j].validFrom > t
  {
    var n := |facts|;
    if facts[n - 1].validFrom > t {
      HolderIsLast(facts[..n - 1], t);
      assert forall j :: 0 <= j < n - 1 ==> facts[..n - 1][j] == facts[j];
    }
  }

  /** The fact in force at `t`: the last that had begun, none before the first or from the cut on. */
  function InForce(h: History, t: Timestamp): (i: Option<nat>)
    requires h.facts != []
    ensures i.Some? ==> i.value < |h.facts|
  {
    if t < h.facts[0].validFrom || (h.cut.Some? && h.cut.value <= t) then None else Some(Holder(h.facts, t))
  }

  /** Only the fact in force was valid. */
  lemma HolderIsValid(h: History, s: string, p: string, i: nat, t: Timestamp)
    requires Successive(h, s, p) && i < |h.facts|
    ensures WasValidAt(StoredAs(h, i), t) <==> InForce(h, t) == Some(i)
  {
    var n := |h.facts|;
    if h.facts[0].validFrom <= t {
      HolderIsLast(h.facts, t);
      var j := Holder(h.facts, t);
      assert h.facts[i].validFrom <= t <==> i <= j;
      assert i + 1 < n ==> (t < h.facts[i + 1].validFrom <==> j <= i);
      assert i + 1 < n ==> h.facts[i + 1].validFrom <= Last(h).validFrom;
    } else {
      assert i > 0 ==> h.facts[0].validFrom < h.facts[i].validFrom;
    }
  }

  /** At each instant exactly the fact in force answers, if there is one. */
  lemma CorrectionsPartitionTime(facts: FactTable, s: string, p: string, h: History, t: Timestamp)
    requires Corrected(facts, s, p, h)
    ensures AnswerKeys(facts, s, p, t) == if InForce(h, t).Some? then {RowKey(h.facts[InForce(h, t).value])} else {}
  {
    hide RowKey, WasValidAt, InForce, StoredAs;
    forall i | 0 <= i < |h.facts|
      ensures RowKey(h.facts[i]) in AnswerKeys(facts, s, p, t) <==> InForce(h, t) == Some(i) {
      HolderIsValid(h, s, p, i, t);
      StoredPair(h, i);
    }
  }

  lemma StoredPair(h: History, i: nat)
    requires i < |h.facts|
    ensures StoredAs(h, i).subject == h.facts[i].subject && StoredAs(h, i).predicate_ == h.facts[i].predicate_
    ensures IsCurrentlyValid(h.facts[i]) ==> (IsCurrentlyValid(StoredAs(h, i)) <==> i + 1 == |h.facts| && h.cut.None?)
  {
  }

  /** And the last is the one current fact, unless the history was cut. */
  lemma OnlyLastIsCurrent(facts: FactTable, s: string, p: string, h: History)
    requires Corrected(facts, s, p, h)
    ensures CurrentPairKeys(facts, s, p) == if h.cut.None? then {RowKey(Last(h))} else {}
  {
    hide RowKey, StoredAs, IsCurrentlyValid;
    forall i | 0 <= i < |h.facts|
      ensures IsCurrentlyValid(facts[RowKey(h.facts[i])]) <==> i + 1 == |h.facts| && h.cut.None?
      ensures facts[RowKey(h.facts[i])].subject == s && facts[RowKey(h.facts[i])].predicate_ == p {
      StoredPair(h, i);
    }
  }

  // ---- How histories grow ------------------------------------------------

  lemma StoredIdKnown(m: Memory, f: Fact)
    requires Coherent(m) && RowKey(f) in m.facts
    ensures FactId.Text(f.id) in m.keyById
  {
    RowKeyParts(m.facts[RowKey(f)], f);
    hide RowKey, FactId.Text;
    assert FactId.Text(m.facts[RowKey(f)].id) in m.keyById;
  }

  lemma NewKeyIsFree(m: Memory, f: Fact)
    requires Coherent(m) && FactId.Text(f.id) !in m.keyById
    ensures RowKey(f) !in m.facts
  {
    hide RowKey, FactId.Text, Coherent;
    if RowKey(f) in m.facts { StoredIdKnown(m, f); }
  }

  predicate AllElsewhere(facts: FactTable, s: string, p: string)
  {
    forall k :: k in facts ==> !(facts[k].subject == s && facts[k].predicate_ == p)
  }

  function FirstHistory(f: Fact): History
  {
    History([f], None)
  }

  /** A first fact of a pair is a history by itself. */
  lemma FirstAssertion(facts: FactTable, f: Fact)
    requires IsCurrentlyValid(f) && AllElsewhere(facts, f.subject, f.predicate_)
    ensures Corrected(facts[RowKey(f) := f], f.subject, f.predicate_, FirstHistory(f))
  {
    hide RowKey;
    assert [f][0] == f;
  }

  /** Ending the last fact cuts the history there. */
  lemma HistoryCut(facts: FactTable, s: string, p: string, h: History, at: Timestamp)
    requires Corrected(facts, s, p, h) && Last(h).validFrom < at
    ensures Corrected(facts[RowKey(Last(h)) := Ended(facts[RowKey(Last(h))], at)], s, p, h.(cut := Some(at)))
  {
    hide RowKey;
    var after := facts[RowKey(Last(h)) := Ended(facts[RowKey(Last(h))], at)];
    var cut := h.(cut := Some(at));
    forall i | 0 <= i < |h.facts| ensures RowKey(h.facts[i]) in after && after[RowKey(h.facts[i])] == StoredAs(cut, i) {
      assert facts[RowKey(h.facts[i])] == StoredAs(h, i);
      assert i + 1 < |h.facts| ==> RowKey(h.facts[i]) != RowKey(Last(h));
    }
  }

  /** A history cut at an instant goes on with a fact that begins there. */
  lemma HistoryGrows(facts: FactTable, s: string, p: string, h: History, f: Fact)
    requires Corrected(facts, s, p, h) && RowKey(f) !in facts
    requires f.subject == s && f.predicate_ == p && IsCurrentlyValid(f) && h.cut == Some(f.validFrom)
    ensures Corrected(facts[RowKey(f) := f], s, p, History(h.facts + [f], None))
  {
    HistoryHeld(facts, s, p, h, f);
    hide HeldAs, RowKey, StoredAs, Ended, IsCurrentlyValid;
    SuccessiveGrows(h, s, p, f);
  }

  lemma SuccessiveGrows(h: History, s: string, p: string, f: Fact)
    requires Successive(h, s, p) && h.cut == Some(f.validFrom)
    requires f.subject == s && f.predicate_ == p && IsCurrentlyValid(f)
    ensures Successive(History(h.facts + [f], None), s, p)
  {
    hide IsCurrentlyValid;
    assert forall i :: 0 <= i < |h.facts| ==> h.facts[i].validFrom <= Last(h).validFrom;
  }

  lemma HistoryHeld(facts: FactTable, s: string, p: string, h: History, f: Fact)
    requires h.facts != [] && HeldAs(facts, s, p, h) && RowKey(f) !in facts && h.cut == Some(f.validFrom)
    ensures HeldAs(facts[RowKey(f) := f], s, p, History(h.facts + [f], None))
  {
    var longer := History(h.facts + [f], None);
    var after := facts[RowKey(f) := f];
    forall i | 0 <= i < |longer.facts|
      ensures RowKey(longer.facts[i]) in after && after[RowKey(longer.facts[i])] == StoredAs(longer, i) {
      GrownStored(facts, s, p, h, f, i);
    }
    forall k | k in after && after[k].subject == s && after[k].predicate_ == p
      ensures exists i :: 0 <= i < |longer.facts| && k == RowKey(longer.facts[i]) {
      GrownOnly(facts, s, p, h, f, k);
    }
    GrownDistinct(facts, s, p, h, f);
    hide RowKey, StoredAs;
  }

  lemma GrownStored(facts: FactTable, s: string, p: string, h: History, f: Fact, i: nat)
    requires h.facts != [] && HeldAs(facts, s, p, h) && RowKey(f) !in facts && h.cut == Some(f.validFrom)
    requires i <= |h.facts|
    ensures var longer := History(h.facts + [f], None); var after := facts[RowKey(f) := f];
      RowKey(longer.facts[i]) in after && after[RowKey(longer.facts[i])] == StoredAs(longer, i)
  {
    hide RowKey;
    if i < |h.facts| {
      assert RowKey(h.facts[i]) in facts && facts[RowKey(h.facts[i])] == StoredAs(h, i);
    }
  }

  lemma GrownOnly(facts: FactTable, s: string, p: string, h: History, f: Fact, k: string)
    requires HeldAs(facts, s, p, h)
    requires k == RowKey(f) || (k in facts && facts[k].subject == s && facts[k].predicate_ == p)
    ensures var longer := h.facts + [f]; exists i :: 0 <= i < |longer| && k == RowKey(longer[i])
  {
    hide RowKey, StoredAs;
    var n, longer := |h.facts|, h.facts + [f];
    if k == RowKey(f) {
      assert k == RowKey(longer[n]);
    } else {
      var i :| 0 <= i < n && k == RowKey(h.facts[i]);
      assert k == RowKey(longer[i]);
    }
  }

  lemma GrownDistinct(facts: FactTable, s: string, p: string, h: History, f: Fact)
    requires HeldAs(facts, s, p, h) && RowKey(f) !in facts
    ensures var longer := h.facts + [f]; forall i, j :: 0 <= i < j < |longer| ==> RowKey(longer[i]) != RowKey(longer[j])
  {
    hide RowKey, StoredAs;
    var longer := h.facts + [f];
    assert forall i :: 0 <= i < |h.facts| ==> longer[i] == h.facts[i] && RowKey(h.facts[i]) in facts;
  }

  lemma FoundLast(m: Memory, s: string, p: string, h: History)
    requires Coherent(m) && Corrected(m.facts, s, p, h)
    ensures RowKey(Last(h)) in m.facts
    ensures FactById(m, Last(h).id) == Some(Row(RowKey(Last(h)), m.facts[RowKey(Last(h))]))
    ensures m.facts[RowKey(Last(h))].subject == s && m.facts[RowKey(Last(h))].predicate_ == p
  {
    var n := |h.facts| - 1;
    assert m.facts[RowKey(h.facts[n])] == StoredAs(h, n);
    hide RowKey, RowKeyed, FactId.Text;
  }

  /** The first step of a correction ends the last fact and leaves the pair without a current one. */
  lemma CorrectionBegins(db: Db, s: string, p: string, h: History, at: Timestamp)
    requires Coherent(db.memory) && Corrected(db.memory.facts, s, p, h) && Last(h).validFrom < at
    ensures Corrected(InvalidateFact(db, Last(h).id, at).memory.facts, s, p, h.(cut := Some(at)))
  {
    FoundLast(db.memory, s, p, h);
    InvalidatedFacts(db, Last(h).id, at);
    hide Coherent, RowKey, InvalidateFact, FactById, Corrected;
    HistoryCut(db.memory.facts, s, p, h, at);
  }

  /** The second goes on with the replacement from where the first ended the history. */
  lemma CorrectionEnds(db: Db, s: string, p: string, h: History, c: Correction)
    requires Coherent(db.memory) && Corrected(db.memory.facts, s, p, h) && h.cut == Some(c.at)
    requires FactId.Text(c.id) !in db.memory.keyById
    ensures var f := Replacement(Last(h), c); Corrected(WriteFact(db, f).memory.facts, s, p, History(h.facts + [f], None))
  {
    var f := Replacement(Last(h), c);
    NewKeyIsFree(db.memory, f);
    WrittenFacts(db, f);
    hide Coherent, RowKey, FactId.Text, WriteFact, HeldAs;
    HistoryGrows(db.memory.facts, s, p, h, f);
  }

  /**
   The store at the three points of a correction, of a current last fact or of one an earlier
   correction left ended: the history before, the history cut at the instant, the history with
   the replacement.
   */
  lemma CorrectionExtends(db: Db, s: string, p: string, h: History, c: Correction)
    requires Coherent(db.memory) && Corrected(db.memory.facts, s, p, h)
    requires FactId.Text(c.id) !in db.memory.keyById && Last(h).validFrom < c.at
    ensures var between := InvalidateFact(db, Last(h).id, c.at); var f := Replacement(Last(h), c);
      CorrectFact(db, Last(h).id, c) == WriteFact(between, f)
      && Corrected(between.memory.facts, s, p, h.(cut := Some(c.at)))
      && Corrected(CorrectFact(db, Last(h).id, c).memory.facts, s, p, History(h.facts + [f], None))
  {
    FoundLast(db.memory, s, p, h);
    CorrectionBegins(db, s, p, h, c.at);
    InvalidateKeepsIds(db, Last(h).id, c.at);
    InvalidateKeepsRows(db, Last(h).id, c.at);
    hide Coherent, Corrected, InvalidateFact, FactId.Text, WriteFact, RowKey, FactById;
    var f := Replacement(Last(h), c);
    WrittenFacts(InvalidateFact(db, Last(h).id, c.at), f);
    NewKeyIsFree(db.memory, f);
    CorrectedSuccessive(db.memory.facts, s, p, h);
    HistoryGrows(InvalidateFact(db, Last(h).id, c.at).memory.facts, s, p, h.(cut := Some(c.at)), f);
  }

  /** Point-in-time queries return the row exactly from its beginning on, and it is current. */
  ghost predicate AnswersSince(m: Memory, row: Row)
  {
    (forall t: Timestamp :: row in FactsAt(m, row.fact.subject, row.fact.predicate_, t) <==> t >= row.fact.validFrom)
    && row in CurrentFacts(m.facts, row.fact.subject, row.fact.predicate_)
  }

  /** The given value for the same pair, from the instant on, as it was written, of confidence one and without a source. */
  predicate Replaces(f: Fact, old_: Fact, c: Correction)
  {
    f.id == c.id && f.subject == old_.subject && f.predicate_ == old_.predicate_ && f.object_ == c.value
    && f.validFrom == c.at && f.validTo.None? && f.recordedAt == c.now && f.expiredAt.None?
    && f.confidence == Finite(NumberToken(false, "1", "", "")) && f.source.None?
  }

  /**
   What a correction leaves, whatever the fact: the old fact with both ends at the instant, under
   the new identifier a fact that replaces it, and every other row.
   */
  ghost predicate CorrectedTo(before: Db, after: Db, id: FactId.Id, c: Correction)
  {
    FactById(before.memory, id).Some? && FactById(after.memory, c.id).Some?
    && var old_ := FactById(before.memory, id).value; var row := FactById(after.memory, c.id).value;
       Replaces(row.fact, old_.fact, c) && AnswersSince(after.memory, row)
       && FactById(after.memory, id) == Some(Row(old_.key, old_.fact.(validTo := Some(c.at), expiredAt := Some(c.at))))
       && row.key !in before.memory.facts && after.memory.facts.Keys == before.memory.facts.Keys + {row.key}
       && forall k :: k in before.memory.facts && k != old_.key ==> after.memory.facts[k] == before.memory.facts[k]
  }

  lemma CorrectionStores(db: Db, id: FactId.Id, c: Correction)
    requires Coherent(db.memory) && Chained(db.memory.facts, db.memory.chains)
    requires FactById(db.memory, id).Some? && FactId.Text(c.id) !in db.memory.keyById
    ensures CorrectedTo(db, CorrectFact(db, id, c), id, c)
  {
    hide *;
    var row := FactById(db.memory, id).value;
    var f := Replacement(row.fact, c);
    ReplacementReplaces(row.fact, c);
    CorrectedRows(db, id, c);
    StaysChained(db, id, c.at, f);
    StoredAnswers(CorrectFact(db, id, c).memory, f);
    CorrectionShows(db, CorrectFact(db, id, c), id, c, row, f);
  }

  lemma ReplacementReplaces(old_: Fact, c: Correction)
    ensures Replaces(Replacement(old_, c), old_, c) && IsCurrentlyValid(Replacement(old_, c))
    ensures Replacement(old_, c).subject == old_.subject && Replacement(old_, c).predicate_ == old_.predicate_
  {
  }

  lemma CorrectionShows(before: Db, after: Db, id: FactId.Id, c: Correction, row: Row, f: Fact)
    requires FactById(before.memory, id) == Some(row) && Replaces(f, row.fact, c)
    requires row.key in before.memory.facts && RowKey(f) !in before.memory.facts
    requires after.memory.facts == before.memory.facts[row.key := Ended(row.fact, c.at)][RowKey(f) := f]
    requires FactById(after.memory, c.id) == Some(Row(RowKey(f), f))
    requires FactById(after.memory, id) == Some(Row(row.key, Ended(row.fact, c.at)))
    requires AnswersSince(after.memory, Row(RowKey(f), f))
    ensures CorrectedTo(before, after, id, c)
  {
    hide FactById, RowKey, AnswersSince, Replaces;
  }

  lemma CorrectedRows(db: Db, id: FactId.Id, c: Correction)
    requires Coherent(db.memory) && FactById(db.memory, id).Some? && FactId.Text(c.id) !in db.memory.keyById
    ensures var row := FactById(db.memory, id).value; var f := Replacement(row.fact, c); var after := CorrectFact(db, id, c).memory;
      after == WriteFact(InvalidateFact(db, id, c.at), f).memory
      && row.key in db.memory.facts && RowKey(f) !in db.memory.facts
      && after.facts == db.memory.facts[row.key := Ended(row.fact, c.at)][RowKey(f) := f]
      && FactById(after, c.id) == Some(Row(RowKey(f), f)) && FactById(after, id) == Some(Row(row.key, Ended(row.fact, c.at)))
  {
    var row := FactById(db.memory, id).value;
    var f := Replacement(row.fact, c);
    var between := InvalidateFact(db, id, c.at);
    InvalidateKeepsIds(db, id, c.at);
    InvalidatedFacts(db, id, c.at);
    NewKeyIsFree(db.memory, f);
    WrittenFacts(between, f);
    WrittenIds(between, f);
    hide Coherent, InvalidateFact, WriteFact, RowKey, FactId.Text;
  }


  lemma WrittenIds(db: Db, f: Fact)
    ensures WriteFact(db, f).memory.keyById == db.memory.keyById[FactId.Text(f.id) := RowKey(f)]
  {
    hide RowKey, FactId.Text, UpsertChains;
  }

  lemma StaysChained(db: Db, id: FactId.Id, at: Timestamp, f: Fact)
    requires Chained(db.memory.facts, db.memory.chains)
    ensures var m := WriteFact(InvalidateFact(db, id, at), f).memory; Chained(m.facts, m.chains)
  {
    hide Chained, Apply;
    if FactById(db.memory, id).Some? {
      var row := FactById(db.memory, id).value;
      ApplyChained(db.memory, ReplaceFact(row.key, Ended(row.fact, at)));
    }
    ApplyChained(InvalidateFact(db, id, at).memory, UpsertFact(RowKey(f), f));
  }

  /** A current stored fact answers exactly from its beginning on, and is among the current ones. */
  lemma StoredAnswers(m: Memory, f: Fact)
    requires Chained(m.facts, m.chains) && RowKey(f) in m.facts && m.facts[RowKey(f)] == f && IsCurrentlyValid(f)
    ensures AnswersSince(m, Row(RowKey(f), f))
  {
    hide Chained, RowKey, FactsAt, CurrentFacts, IsCurrentlyValid;
    StoredIsCurrent(m.facts, f);
    forall t: Timestamp ensures Row(RowKey(f), f) in FactsAt(m, f.subject, f.predicate_, t) <==> t >= f.validFrom {
      StoredAnswersAt(m, f, t);
    }
  }

  lemma StoredAnswersAt(m: Memory, f: Fact, t: Timestamp)
    requires Chained(m.facts, m.chains) && RowKey(f) in m.facts && m.facts[RowKey(f)] == f && IsCurrentlyValid(f)
    ensures Row(RowKey(f), f) in FactsAt(m, f.subject, f.predicate_, t) <==> t >= f.validFrom
  {
    hide Chained, RowKey, FactsAt, PairPrefix, Descends;
    FactsAtIsNaive(m, f.subject, f.predicate_, t);
    assert FiledAnswer(m.facts, f.subject, f.predicate_, t, Row(RowKey(f), f)) <==> t >= f.validFrom;
  }

  lemma StoredIsCurrent(facts: FactTable, f: Fact)
    requires RowKey(f) in facts && facts[RowKey(f)] == f && IsCurrentlyValid(f)
    ensures Row(RowKey(f), f) in CurrentFacts(facts, f.subject, f.predicate_)
  {
    hide RowKey, CurrentFacts, Scan, PairPrefix, Below, IsCurrentlyValid;
    CurrentFactsAreCurrent(facts, f.subject, f.predicate_);
    ScanIsExact(facts, set k | k in facts && PrefixOf(facts[k]) == PairPrefix(f.subject, f.predicate_) && IsCurrentlyValid(facts[k]));
  }

  lemma CorrectedSuccessive(facts: FactTable, s: string, p: string, h: History)
    requires Corrected(facts, s, p, h)
    ensures h.facts != [] && Last(h).subject == s && Last(h).predicate_ == p
  {
  }

  lemma InvalidateKeepsRows(db: Db, id: FactId.Id, at: Timestamp)
    requires Coherent(db.memory)
    ensures InvalidateFact(db, id, at).memory.facts.Keys == db.memory.facts.Keys
  {
    if FactById(db.memory, id).Some? {
      InvalidatedFacts(db, id, at);
      hide InvalidateFact, FactById, Coherent;
    }
  }

  lemma InvalidateKeepsIds(db: Db, id: FactId.Id, at: Timestamp)
    requires Coherent(db.memory)
    ensures var after := InvalidateFact(db, id, at).memory;
      after.keyById == db.memory.keyById && after.headerPresent == db.memory.headerPresent
      && after.schemaVersion == db.memory.schemaVersion
  {
    FoundById(db.memory, id);
    if FactById(db.memory, id).Some? {
      var row := FactById(db.memory, id).value;
      hide RowKeyed, RowKey, FactId.Text, UpsertChains, EmbeddingsMatch;
      assert db.memory.keyById[FactId.Text(row.fact.id)] == row.key;
      assert db.memory.keyById[FactId.Text(row.fact.id) := row.key] == db.memory.keyById;
    }
  }

  lemma WrittenFacts(db: Db, f: Fact)
    ensures WriteFact(db, f).memory.facts == db.memory.facts[RowKey(f) := f]
  {
    hide RowKey, FactId.Text, UpsertChains;
  }

  /**
   Two callers that correct the same fact at once, each ending it before either writes its
   replacement: from the later instant on both replacements answer.
   */
  lemma CorrectionsRace(db: Db, s: string, p: string, h: History, c: Correction, d: Correction, t: Timestamp)
    requires Coherent(db.memory) && Corrected(db.memory.facts, s, p, h)
    requires FactId.Text(c.id) !in db.memory.keyById && FactId.Text(d.id) !in db.memory.keyById && c.id != d.id
    requires c.at <= t && d.at <= t
    ensures
      var first := InvalidateFact(db, Last(h).id, c.at);
      var second := InvalidateFact(first, Last(h).id, d.at);
      var f, g := Replacement(Last(h), c), Replacement(Last(h), d);
      var after := WriteFact(WriteFact(second, f), g).memory.facts;
      RowKey(f) != RowKey(g) && {RowKey(f), RowKey(g)} <= AnswerKeys(after, s, p, t)
  {
    LastOfPair(db.memory.facts, s, p, h);
    hide *;
    var second := InvalidateFact(InvalidateFact(db, Last(h).id, c.at), Last(h).id, d.at);
    var f, g := Replacement(Last(h), c), Replacement(Last(h), d);
    RaceFacts(Last(h), c, d, t);
    WrittenFacts(second, f);
    WrittenFacts(WriteFact(second, f), g);
    BothAnswer(second.memory.facts, f, g, t);
  }

  lemma LastOfPair(facts: FactTable, s: string, p: string, h: History)
    requires Corrected(facts, s, p, h)
    ensures h.facts != [] && Last(h).subject == s && Last(h).predicate_ == p
  {
    hide HeldAs;
  }

  lemma RaceFacts(old_: Fact, c: Correction, d: Correction, t: Timestamp)
    requires c.id != d.id && c.at <= t && d.at <= t
    ensures var f, g := Replacement(old_, c), Replacement(old_, d);
      f.subject == g.subject == old_.subject && f.predicate_ == g.predicate_ == old_.predicate_
      && WasValidAt(f, t) && WasValidAt(g, t) && RowKey(f) != RowKey(g)
  {
    var f, g := Replacement(old_, c), Replacement(old_, d);
    hide RowKey;
    if RowKey(f) == RowKey(g) { RowKeyParts(f, g); }
  }

  lemma BothAnswer(facts: FactTable, f: Fact, g: Fact, t: Timestamp)
    requires f.subject == g.subject && f.predicate_ == g.predicate_ && RowKey(f) != RowKey(g)
    requires WasValidAt(f, t) && WasValidAt(g, t)
    ensures {RowKey(f), RowKey(g)} <= AnswerKeys(facts[RowKey(f) := f][RowKey(g) := g], f.subject, f.predicate_, t)
  {
    hide RowKey, WasValidAt;
  }

  // ---- Other steps in between --------------------------------------------

  /** The facts of the pair are the same in both tables. */
  ghost predicate PairUnchanged(a: FactTable, b: FactTable, s: string, p: string)
  {
    (forall k :: k in a && a[k].subject == s && a[k].predicate_ == p ==> k in b && b[k] == a[k])
    && (forall k :: k in b && b[k].subject == s && b[k].predicate_ == p ==> k in a && a[k] == b[k])
  }

  lemma UnchangedHistory(a: FactTable, b: FactTable, s: string, p: string, h: History)
    requires PairUnchanged(a, b, s, p) && Corrected(a, s, p, h)
    ensures Corrected(b, s, p, h)
  {
    hide RowKey;
    forall i | 0 <= i < |h.facts|
      ensures RowKey(h.facts[i]) in b && b[RowKey(h.facts[i])] == StoredAs(h, i) {
      StoredPair(h, i);
      assert a[RowKey(h.facts[i])] == StoredAs(h, i);
    }
  }

  predicate OfPair(f: Fact, s: string, p: string)
  {
    f.subject == s && f.predicate_ == p
  }

  /** A step that writes no fact of the pair, and loses nothing. */
  predicate Elsewhere(db: Db, step: Step, s: string, p: string)
  {
    match step
    case Assert(f) => !OfPair(f, s, p)
    case AssertIdempotent(_, f) => !OfPair(f, s, p)
    case AssertEmbedded(f, _) => !OfPair(f, s, p)
    case AssertChecked(f, _) => !OfPair(f, s, p)
    case Invalidate(id, _) => FactById(db.memory, id).Some? ==> !OfPair(FactById(db.memory, id).value.fact, s, p)
    case Crash(_) => false
    case _ => true
  }

  lemma RowElsewhere(facts: FactTable, key: string, f: Fact, s: string, p: string)
    requires !OfPair(f, s, p) && (key in facts ==> !OfPair(facts[key], s, p))
    ensures PairUnchanged(facts, facts[key := f], s, p)
  {
  }

  lemma NewRowElsewhere(m: Memory, r: Record, f: Fact, s: string, p: string)
    requires Coherent(m) && FactId.Text(f.id) !in m.keyById && !OfPair(f, s, p)
    requires r == UpsertFact(RowKey(f), f)
      || (r.UpsertFactAndIdempotency? && r.key == RowKey(f) && r.fact == f)
      || (r.UpsertFactWithEmbedding? && r.key == RowKey(f) && r.fact == f)
    ensures PairUnchanged(m.facts, Apply(m, r).facts, s, p)
  {
    NewKeyIsFree(m, f);
    hide Coherent, RowKey, FactId.Text, UpsertChains;
    RowElsewhere(m.facts, RowKey(f), f, s, p);
  }

  lemma InvalidateElsewhere(db: Db, id: FactId.Id, at: Timestamp, s: string, p: string)
    requires Coherent(db.memory) && Elsewhere(db, Invalidate(id, at), s, p)
    ensures PairUnchanged(db.memory.facts, InvalidateFact(db, id, at).memory.facts, s, p)
  {
    if FactById(db.memory, id).Some? {
      InvalidatedFacts(db, id, at);
      var row := FactById(db.memory, id).value;
      hide InvalidateFact, FactById, Coherent, RowKey;
      RowElsewhere(db.memory.facts, row.key, Ended(row.fact, at), s, p);
    }
  }

  lemma InitializeKeepsFacts(db: Db)
    ensures InitializeSchema(db).memory.facts == db.memory.facts
  {
  }

  lemma EntryKeepsFacts(db: Db, kind: EntryKind, name: string, encoded: string)
    ensures Commit(db, Entry(kind, name, encoded)).memory.facts == db.memory.facts
  {
  }

  lemma ReopenKeepsFacts(db: Db)
    requires Good(db)
    ensures Opened(db, db.log).memory.facts == db.memory.facts
  {
    hide Good, Replay, LogFile.AllStorable;
    ReplayedTables(db);
  }

  lemma SameFactsElsewhere(db: Db, step: Step)
    requires Good(db) && (step.Initialize? || step.SetEntry? || step.Compact? || step.Reopen?)
    ensures Next(db, step).memory.facts == db.memory.facts
  {
    hide Good, Opened, CompactionRecords, InitializeSchema, Commit;
    match step
    case Initialize => InitializeKeepsFacts(db);
    case SetEntry(kind, name, encoded) => EntryKeepsFacts(db, kind, name, encoded);
    case Compact =>
    case Reopen => ReopenKeepsFacts(db);
  }

  lemma SamePair(facts: FactTable, s: string, p: string)
    ensures PairUnchanged(facts, facts, s, p)
  {
  }

  lemma AssertElsewhere(db: Db, f: Fact, s: string, p: string)
    requires Coherent(db.memory) && NewFact(db.memory, f) && !OfPair(f, s, p)
    ensures PairUnchanged(db.memory.facts, WriteFact(db, f).memory.facts, s, p)
  {
    hide Coherent, Apply, RowKey, FactId.Text, PairUnchanged, OfPair;
    NewRowElsewhere(db.memory, UpsertFact(RowKey(f), f), f, s, p);
  }

  lemma IdempotentElsewhere(db: Db, k: string, f: Fact, s: string, p: string)
    requires Coherent(db.memory) && NewFact(db.memory, f) && !OfPair(f, s, p)
    ensures PairUnchanged(db.memory.facts, WriteIdempotent(db, k, f).memory.facts, s, p)
  {
    hide Coherent, Apply, RowKey, FactId.Text, PairUnchanged, OfPair;
    SamePair(db.memory.facts, s, p);
    NewRowElsewhere(db.memory, UpsertFactAndIdempotency(RowKey(f), f, k), f, s, p);
  }

  lemma EmbeddedElsewhere(db: Db, f: Fact, embedding: seq<Float>, s: string, p: string)
    requires Coherent(db.memory) && NewFact(db.memory, f) && !OfPair(f, s, p)
    ensures PairUnchanged(db.memory.facts, WriteEmbedded(db, f, embedding).memory.facts, s, p)
  {
    hide Coherent, Apply, RowKey, FactId.Text, PairUnchanged, OfPair;
    SamePair(db.memory.facts, s, p);
    NewRowElsewhere(db.memory, UpsertFactWithEmbedding(RowKey(f), f, embedding), f, s, p);
  }

  lemma CheckedElsewhere(db: Db, f: Fact, reject: bool, s: string, p: string)
    requires Coherent(db.memory) && NewFact(db.memory, f) && !OfPair(f, s, p)
    ensures PairUnchanged(db.memory.facts, WriteChecked(db, f, reject).memory.facts, s, p)
  {
    hide Coherent, WriteFact, NewFact, PairUnchanged, OfPair, ContradictionsOf;
    SamePair(db.memory.facts, s, p);
    AssertElsewhere(db, f, s, p);
  }

  lemma ElsewhereUnchanged(db: Db, step: Step, s: string, p: string)
    requires Good(db) && Possible(db, step) && Elsewhere(db, step, s, p)
    ensures PairUnchanged(db.memory.facts, Next(db, step).memory.facts, s, p)
  {
    GoodCoherent(db);
    hide Good, Coherent, PairUnchanged, NewFact, InvalidateFact, FactById, WriteFact, WriteIdempotent, WriteEmbedded,
         WriteChecked, OfPair;
    if step.Initialize? || step.SetEntry? || step.Compact? || step.Reopen? {
      hide Next;
      SameFactsElsewhere(db, step);
      SamePair(db.memory.facts, s, p);
    } else {
      match step
      case Assert(f) => AssertElsewhere(db, f, s, p);
      case AssertIdempotent(k, f) => IdempotentElsewhere(db, k, f, s, p);
      case AssertEmbedded(f, e) => EmbeddedElsewhere(db, f, e, s, p);
      case AssertChecked(f, reject) => CheckedElsewhere(db, f, reject, s, p);
      case Invalidate(id, at) => InvalidateElsewhere(db, id, at, s, p);
    }
  }

  lemma GoodCoherent(db: Db)
    requires Good(db)
    ensures Coherent(db.memory)
  {
    hide SoundLog, Coherent, WritableMemory, SameUpToTies;
  }

  // ---- Runs of corrections -----------------------------------------------

  /** A correction is two events; it is left unfinished when the second never comes. */
  datatype Event = Begin(at: Timestamp) | Finish(c: Correction) | Meanwhile(step: Step)

  function NextHistory(h: History, e: Event): (g: History)
    requires h.facts != []
    ensures g.facts != [] && g.facts[0] == h.facts[0]
  {
    match e
    case Begin(at) => h.(cut := Some(at))
    case Finish(c) => History(h.facts + [Replacement(Last(h), c)], None)
    case Meanwhile(_) => h
  }

  ghost function NextDb(db: Db, h: History, e: Event): Db
    requires h.facts != []
  {
    match e
    case Begin(at) => InvalidateFact(db, Last(h).id, at)
    case Finish(c) => WriteFact(db, Replacement(Last(h), c))
    case Meanwhile(step) => Next(db, step)
  }

  ghost predicate PossibleEvent(db: Db, h: History, e: Event, s: string, p: string)
    requires h.facts != []
  {
    match e
    case Begin(at) => Ready(db.memory) && Last(h).validFrom < at
    case Finish(c) =>
      Ready(db.memory) && h.cut == Some(c.at) && FactId.Text(c.id) !in db.memory.keyById
      && RecordRoundTrip.WritableValue(c.value)
    case Meanwhile(step) => Possible(db, step) && Elsewhere(db, step, s, p)
  }

  function FinalHistory(h: History, events: seq<Event>): (g: History)
    requires h.facts != []
    ensures g.facts != [] && g.facts[0] == h.facts[0]
    decreases |events|
  {
    if events == [] then h else FinalHistory(NextHistory(h, events[0]), events[1..])
  }

  ghost function FinalDb(db: Db, h: History, events: seq<Event>): Db
    requires h.facts != []
    decreases |events|
  {
    if events == [] then db else FinalDb(NextDb(db, h, events[0]), NextHistory(h, events[0]), events[1..])
  }

  ghost predicate PossibleEvents(db: Db, h: History, events: seq<Event>, s: string, p: string)
    requires h.facts != []
    decreases |events|
  {
    events == []
    || (PossibleEvent(db, h, events[0], s, p)
        && PossibleEvents(NextDb(db, h, events[0]), NextHistory(h, events[0]), events[1..], s, p))
  }

  lemma FinishGood(db: Db, s: string, p: string, h: History, c: Correction)
    requires h.facts != []
    requires Good(db) && Corrected(db.memory.facts, s, p, h) && PossibleEvent(db, h, Finish(c), s, p)
    ensures Good(WriteFact(db, Replacement(Last(h), c)))
  {
    var f := Replacement(Last(h), c);
    assert RecordRoundTrip.WritableFact(f) by { LastWritable(db, s, p, h, c); }
    hide Good, Corrected, FactId.Text, RecordRoundTrip.WritableFact, WriteFact;
    WriteFactGood(db, f);
  }

  lemma LastWritable(db: Db, s: string, p: string, h: History, c: Correction)
    requires WritableMemory(db.memory) && Corrected(db.memory.facts, s, p, h) && RecordRoundTrip.WritableValue(c.value)
    ensures RecordRoundTrip.WritableFact(Replacement(Last(h), c))
  {
    var n := |h.facts| - 1;
    StoredPair(h, n);
    assert RowKey(h.facts[n]) in db.memory.facts && db.memory.facts[RowKey(h.facts[n])] == StoredAs(h, n);
    hide RowKey, Utf8.Valid, StoredAs;
  }

  lemma NextEvent(db: Db, s: string, p: string, h: History, e: Event)
    requires h.facts != []
    requires Good(db) && Corrected(db.memory.facts, s, p, h) && PossibleEvent(db, h, e, s, p)
    ensures Good(NextDb(db, h, e)) && Corrected(NextDb(db, h, e).memory.facts, s, p, NextHistory(h, e))
  {
    assert Coherent(db.memory);
    hide Good, Corrected, Coherent, Next, Possible, FactId.Text, Elsewhere, Replacement, WriteFact, InvalidateFact;
    match e
    case Begin(at) =>
      InvalidateGood(db, Last(h).id, at);
      CorrectionBegins(db, s, p, h, at);
    case Finish(c) =>
      FinishGood(db, s, p, h, c);
      CorrectionEnds(db, s, p, h, c);
    case Meanwhile(step) =>
      NextGood(db, step);
      ElsewhereUnchanged(db, step, s, p);
      UnchangedHistory(db.memory.facts, Next(db, step).memory.facts, s, p, h);
  }

  lemma {:induction false} EventsKeepHistory(db: Db, s: string, p: string, h: History, events: seq<Event>)
    requires h.facts != []
    requires Good(db) && Corrected(db.memory.facts, s, p, h) && PossibleEvents(db, h, events, s, p)
    ensures Good(FinalDb(db, h, events))
    ensures Corrected(FinalDb(db, h, events).memory.facts, s, p, FinalHistory(h, events))
    decreases |events|
  {
    hide Good, Corrected, NextDb, NextHistory, PossibleEvent;
    if events != [] {
      NextEvent(db, s, p, h, events[0]);
      EventsKeepHistory(NextDb(db, h, events[0]), s, p, NextHistory(h, events[0]), events[1..]);
    }
  }

  // ---- What queries answer -----------------------------------------------

  lemma SoleRow(rows: seq<Row>, row: Row)
    requires Descends(rows) && forall r :: r in rows <==> r == row
    ensures rows == [row]
  {
    assert row in rows;
    assert forall i :: 0 <= i < |rows| ==> rows[i] in rows;
    assert !(|rows| > 1 && rows[0].key == rows[1].key);
  }

  lemma AnswersAreKeys(facts: FactTable, s: string, p: string, t: Timestamp, row: Row)
    ensures Answers(facts, s, p, t, row)
      <==> row.key in AnswerKeys(facts, s, p, t) && row.key in facts && facts[row.key] == row.fact
  {
    hide WasValidAt;
  }

  lemma HeldAt(facts: FactTable, s: string, p: string, h: History, i: nat)
    requires Corrected(facts, s, p, h) && i < |h.facts|
    ensures RowKey(h.facts[i]) in facts && facts[RowKey(h.facts[i])] == StoredAs(h, i)
  {
    hide RowKey, StoredAs;
  }

  /** What `facts_at` should return on a history: the one fact in force, if any. */
  function RowsInForce(h: History, t: Timestamp): seq<Row>
    requires h.facts != []
  {
    var i := InForce(h, t);
    if i.Some? then [Row(RowKey(h.facts[i.value]), StoredAs(h, i.value))] else []
  }

  function RowsCurrent(h: History): seq<Row>
    requires h.facts != []
  {
    if h.cut.None? then [Row(RowKey(Last(h)), Last(h))] else []
  }

  lemma RowsInForceAnswer(facts: FactTable, s: string, p: string, h: History, t: Timestamp, row: Row)
    requires Corrected(facts, s, p, h)
    ensures row in RowsInForce(h, t) <==> Answers(facts, s, p, t, row)
  {
    CorrectedSuccessive(facts, s, p, h);
    hide RowKey, Answers, AnswerKeys, WasValidAt, StoredAs, Corrected, InForce;
    AnswersAreKeys(facts, s, p, t, row);
    CorrectionsPartitionTime(facts, s, p, h, t);
    if InForce(h, t).Some? { HeldAt(facts, s, p, h, InForce(h, t).value); }
  }

  /** `facts_at` returns the fact in force, exactly unless a fact of a pair with the same text was valid too. */
  lemma HistoryAnswers(m: Memory, s: string, p: string, h: History, t: Timestamp)
    requires Chained(m.facts, m.chains) && Corrected(m.facts, s, p, h)
    ensures FactsAt(m, s, p, t) == RowsInForce(h, t) <==> !MixedAt(m.facts, s, p, t)
  {
    var rows := FactsAt(m, s, p, t);
    FactsAtIsNaive(m, s, p, t);
    FactsAtAreOwn(m, s, p, t);
    forall row ensures row in RowsInForce(h, t) <==> Answers(m.facts, s, p, t, row) {
      RowsInForceAnswer(m.facts, s, p, h, t, row);
    }
    hide RowKey, Chained, Answers, FactsAt, Descends, StoredAs, Corrected, InForce, MixedAt, FiledAnswer;
    if !MixedAt(m.facts, s, p, t) {
      if InForce(h, t).Some? {
        SoleRow(rows, RowsInForce(h, t)[0]);
      } else {
        SomeMember(rows);
      }
    }
  }

  lemma {:induction false} SingleListing(k: string)
    ensures Listing({k}) == [k]
  {
    var ks := Listing({k});
    assert |ks| == 1 && ks[0] in ks;
  }

  lemma ScanOfCurrent(facts: FactTable, s: string, p: string, h: History)
    requires Corrected(facts, s, p, h)
    ensures Scan(facts, CurrentPairKeys(facts, s, p)) == RowsCurrent(h)
  {
    var n := |h.facts| - 1;
    OnlyLastIsCurrent(facts, s, p, h);
    HeldAt(facts, s, p, h, n);
    if h.cut.None? {
      SingleListing(RowKey(Last(h)));
      RowsComplete(facts, [RowKey(Last(h))]);
    } else {
      NothingListed();
    }
    hide RowKey, HeldAs, Successive;
  }

  /** And `current_facts` the last, if it was not ended, exactly unless such a fact is current too. */
  lemma HistoryCurrent(facts: FactTable, s: string, p: string, h: History)
    requires Corrected(facts, s, p, h)
    ensures CurrentFacts(facts, s, p) == RowsCurrent(h) <==> !MixedNow(facts, s, p)
  {
    ScanOfCurrent(facts, s, p, h);
    CurrentFactsAreOwn(facts, s, p);
    hide Scan, CurrentPairKeys, Corrected, RowsCurrent, Mixed;
  }

  /**
   Correction chains partition time.  Assert a first fact of a pair, then correct the latest at
   later instants, in any interleaving of the two steps of each correction with other steps that
   leave the pair alone, some corrections never finished: then at every instant `facts_at`
   returns the last fact that had begun, nothing before the first or from an unfinished
   correction on, and `current_facts` the last, or nothing while a correction is unfinished.
   It does so exactly unless a fact of another pair with the same text is valid too.
   */
  lemma CorrectionChain(db: Db, f: Fact, events: seq<Event>, t: Timestamp)
    requires Good(db) && Ready(db.memory) && NewFact(db.memory, f) && IsCurrentlyValid(f)
    requires AllElsewhere(db.memory.facts, f.subject, f.predicate_)
    requires PossibleEvents(WriteFact(db, f), FirstHistory(f), events, f.subject, f.predicate_)
    ensures
      var m := FinalDb(WriteFact(db, f), FirstHistory(f), events).memory; var h := FinalHistory(FirstHistory(f), events);
      FactsAt(m, f.subject, f.predicate_, t) == RowsInForce(h, t) <==> !MixedAt(m.facts, f.subject, f.predicate_, t)
    ensures
      var m := FinalDb(WriteFact(db, f), FirstHistory(f), events).memory; var h := FinalHistory(FirstHistory(f), events);
      CurrentFacts(m.facts, f.subject, f.predicate_) == RowsCurrent(h) <==> !MixedNow(m.facts, f.subject, f.predicate_)
  {
    var start := WriteFact(db, f);
    WriteFactGood(db, f);
    WrittenFacts(db, f);
    FirstAssertion(db.memory.facts, f);
    hide WriteFact, Good, Corrected, RowKey, PossibleEvents, FinalDb, FinalHistory, NewFact, FactsAt, CurrentFacts,
         StoredAs, RowsInForce, RowsCurrent, MixedAt, MixedNow;
    EventsKeepHistory(start, f.subject, f.predicate_, FirstHistory(f), events);
    var final, h := FinalDb(start, FirstHistory(f), events), FinalHistory(FirstHistory(f), events);
    GoodChained(final);
    HistoryAnswers(final.memory, f.subject, f.predicate_, h, t);
    HistoryCurrent(final.memory.facts, f.subject, f.predicate_, h);
  }

  lemma GoodChained(db: Db)
    requires Good(db)
    ensures Chained(db.memory.facts, db.memory.chains)
  {
    hide SoundLog, Coherent, WritableMemory, Chained, Modulo;
  }
}
