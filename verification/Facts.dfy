/**
 Facts (crates/core/src/temporal_graph.rs): a subject-predicate-object triple on two time
 axes, with the key of its row and the text its indexes are kept under.
 */
module Facts {
  import opened Prelude
  import opened Json
  import FactId
  import opened Rfc3339

  datatype Value = Text(s: string) | Number(f: Float) | Boolean(b: bool) | Entity(s: string)

  datatype Fact = Fact(
    id: FactId.Id,
    subject: string,
    predicate_: string,
    object_: Value,
    validFrom: Timestamp,
    validTo: Option<Timestamp>,
    recordedAt: Timestamp,
    expiredAt: Option<Timestamp>,
    confidence: Float,
    source: Option<string>)

  predicate IsCurrentlyValid(f: Fact)
  {
    f.validTo.None? && f.expiredAt.None?
  }

  /** `t` is open or lies after `at`. */
  predicate OpenAt(t: Option<Timestamp>, at: Timestamp)
  {
    t.None? || t.value > at
  }

  predicate WasValidAt(f: Fact, at: Timestamp)
  {
    f.validFrom <= at && OpenAt(f.validTo, at) && OpenAt(f.expiredAt, at)
  }

  /** The text `subject:predicate:` under which indexes keep a fact. */
  function PairPrefix(subject: string, predicate_: string): string
  {
    subject + ":" + predicate_ + ":"
  }

  function PrefixOf(f: Fact): string
  {
    PairPrefix(f.subject, f.predicate_)
  }

  function RowKey(f: Fact): string
  {
    PrefixOf(f) + FactId.Text(f.id)
  }
}
