/**
 The records of the append log and their line of JSON (crates/core/src/storage_append_log.rs
 and the codecs of crates/core/src/temporal_graph.rs): an object with one field, named after
 the kind of record.

 A record is storable when every float in it is finite and every instant lies in or after the
 year 0.  Reading a line undoes writing it exactly for the storable records.
 */
module Records {
  import opened Prelude
  import opened Decimals
  import opened Json
  import opened Facts
  import FactId
  import opened Rfc3339

  const MAGIC := "kronroe-append-log-v1"
  const SCHEMA_VERSION := 2

  datatype Record =
    | Header(magic: string)
    | SchemaVersion(version: nat)
    | PredicateEntry(name: string, encoded: string)
    | VolatilityEntry(name: string, encoded: string)
    | SourceWeightEntry(name: string, encoded: string)
    | UpsertFact(key: string, fact: Fact)
    | UpsertFactAndIdempotency(key: string, fact: Fact, idempotencyKey: string)
    | UpsertFactWithEmbedding(key: string, fact: Fact, embedding: seq<Float>)
    | ReplaceFact(key: string, fact: Fact)

  // ---- Writing -----------------------------------------------------------

  function ValueDoc(v: Value): Doc
  {
    match v
    case Text(s) => DObj([Member("type", DStr("Text")), Member("value", DStr(s))])
    case Number(f) => DObj([Member("type", DStr("Number")), Member("value", DNum(f))])
    case Boolean(b) => DObj([Member("type", DStr("Boolean")), Member("value", DBool(b))])
    case Entity(s) => DObj([Member("type", DStr("Entity")), Member("value", DStr(s))])
  }

  function TimeDoc(t: Option<Timestamp>): Doc
  {
    if t.None? then DNull else DStr(Format(t.value))
  }

  function FactMembers(f: Fact): seq<Member>
  {
    [Member("id", DStr(FactId.Text(f.id))),
     Member("subject", DStr(f.subject)),
     Member("predicate", DStr(f.predicate_)),
     Member("object", ValueDoc(f.object_)),
     Member("valid_from", DStr(Format(f.validFrom))),
     Member("valid_to", TimeDoc(f.validTo)),
     Member("recorded_at", DStr(Format(f.recordedAt))),
     Member("expired_at", TimeDoc(f.expiredAt)),
     Member("confidence", DNum(f.confidence)),
     Member("source", if f.source.None? then DNull else DStr(f.source.value))]
  }

  function FactDoc(f: Fact): Doc
  {
    DObj(FactMembers(f))
  }

  function NatNumber(n: nat): NumberToken
  {
    NumberToken(false, Decimal(n), "", "")
  }

  function FloatDocs(fs: seq<Float>): (ds: seq<Doc>)
    ensures |ds| == |fs|
  {
    if fs == [] then [] else [DNum(fs[0])] + FloatDocs(fs[1..])
  }

  function Kind(r: Record): string
  {
    match r
    case Header(_) => "Header"
    case SchemaVersion(_) => "SchemaVersion"
    case PredicateEntry(_, _) => "UpsertPredicateRegistryEntry"
    case VolatilityEntry(_, _) => "UpsertVolatilityRegistryEntry"
    case SourceWeightEntry(_, _) => "UpsertSourceWeightRegistryEntry"
    case UpsertFact(_, _) => "UpsertFact"
    case UpsertFactAndIdempotency(_, _, _) => "UpsertFactAndIdempotency"
    case UpsertFactWithEmbedding(_, _, _) => "UpsertFactWithEmbedding"
    case ReplaceFact(_, _) => "ReplaceFact"
  }

  function RecordMembers(r: Record): seq<Member>
  {
    match r
    case Header(magic) => [Member("magic", DStr(magic))]
    case SchemaVersion(version) => [Member("version", DNum(Finite(NatNumber(version))))]
    case PredicateEntry(name, encoded) => [Member("predicate", DStr(name)), Member("encoded", DStr(encoded))]
    case VolatilityEntry(name, encoded) => [Member("predicate", DStr(name)), Member("encoded", DStr(encoded))]
    case SourceWeightEntry(name, encoded) => [Member("source", DStr(name)), Member("encoded", DStr(encoded))]
    case UpsertFact(key, fact) => [Member("key", DStr(key)), Member("fact", FactDoc(fact))]
    case UpsertFactAndIdempotency(key, fact, idempotencyKey) =>
      [Member("key", DStr(key)), Member("fact", FactDoc(fact)), Member("idempotency_key", DStr(idempotencyKey))]
    case UpsertFactWithEmbedding(key, fact, embedding) =>
      [Member("key", DStr(key)), Member("fact", FactDoc(fact)), Member("embedding", DArr(FloatDocs(embedding)))]
    case ReplaceFact(key, fact) => [Member("key", DStr(key)), Member("fact", FactDoc(fact))]
  }

  function RecordDoc(r: Record): Doc
  {
    DObj([Member(Kind(r), DObj(RecordMembers(r)))])
  }

  /** The line of a record, without its newline. */
  function RecordText(r: Record): string
  {
    Print(RecordDoc(r))
  }

  // ---- Reading -----------------------------------------------------------

  datatype ReadError = NotJson(e: ParseError) | NotARecord | Missing(field: string) | BadField(field: string)

  function Get(j: JsonValue, key: string): Option<JsonValue>
  {
    if j.Obj? && key in j.fields then Some(j.fields[key]) else None
  }

  function GetString(j: JsonValue, key: string): Result<string, ReadError>
  {
    match Get(j, key)
    case Some(Str(s)) => Ok(s)
    case _ => Err(Missing(key))
  }

  function ReadValue(j: JsonValue): Result<Value, ReadError>
  {
    match GetString(j, "type")
    case Err(e) => Err(e)
    case Ok(kind) =>
      match Get(j, "value")
      case None => Err(Missing("value"))
      case Some(v) =>
        if kind == "Text" then (if v.Str? then Ok(Text(v.s)) else Err(Missing("value")))
        else if kind == "Number" then (if v.Num? then Ok(Number(Finite(v.n))) else Err(Missing("value")))
        else if kind == "Boolean" then (if v.Bool? then Ok(Boolean(v.b)) else Err(Missing("value")))
        else if kind == "Entity" then (if v.Str? then Ok(Entity(v.s)) else Err(Missing("value")))
        else Err(BadField("type"))
  }

  function ReadTime(j: JsonValue, key: string): Result<Timestamp, ReadError>
  {
    match GetString(j, key)
    case Err(e) => Err(e)
    case Ok(s) => match Rfc3339.Parse(s) case Ok(t) => Ok(t) case Err(_) => Err(BadField(key))
  }

  /** An instant that may be absent or null. */
  function ReadOptionalTime(j: JsonValue, key: string): Result<Option<Timestamp>, ReadError>
  {
    match Get(j, key)
    case None => Ok(None)
    case Some(Null) => Ok(None)
    case Some(_) => match ReadTime(j, key) case Ok(t) => Ok(Some(t)) case Err(_) => Err(BadField(key))
  }

  function ReadFact(j: JsonValue): Result<Fact, ReadError>
  {
    match (GetString(j, "id"), GetString(j, "subject"), GetString(j, "predicate"), Get(j, "object"))
    case (Ok(idText), Ok(subject), Ok(predicate_), Some(obj)) =>
      (match (FactId.ParseId(idText), ReadValue(obj), ReadTime(j, "valid_from"), ReadOptionalTime(j, "valid_to"),
              ReadTime(j, "recorded_at"), ReadOptionalTime(j, "expired_at"))
       case (Ok(id), Ok(object_), Ok(validFrom), Ok(validTo), Ok(recordedAt), Ok(expiredAt)) =>
         Ok(Fact(id, subject, predicate_, object_, validFrom, validTo, recordedAt, expiredAt,
                 ReadConfidence(j), ReadSource(j)))
       case _ => Err(BadField("fact")))
    case _ => Err(Missing("fact"))
  }

  function ReadConfidence(j: JsonValue): Float
  {
    match Get(j, "confidence")
    case Some(Num(n)) => Finite(n)
    case _ => Finite(NatNumber(1))
  }

  function ReadSource(j: JsonValue): Option<string>
  {
    match Get(j, "source")
    case Some(Str(s)) => Some(s)
    case _ => None
  }

  predicate AllZeros(s: string)
  {
    forall i :: 0 <= i < |s| ==> s[i] == '0'
  }

  /** `as_u64`: a non-negative whole number; tokens with an exponent are not modelled. */
  function AsNat(n: NumberToken): Option<nat>
  {
    if n.exponent != "" || !AllDigits(n.whole) then None
    else if n.fraction != "" && !AllZeros(n.fraction[1..]) then None
    else if n.negative && !AllZeros(n.whole) then None
    else Some(DigitsValue(n.whole))
  }

  function ReadFloats(js: seq<JsonValue>): Option<seq<Float>>
  {
    if js == [] then Some([])
    else match (js[0], ReadFloats(js[1..]))
      case (Num(n), Some(fs)) => Some([Finite(n)] + fs)
      case _ => None
  }

  /** The key and the fact that four kinds of record carry. */
  function ReadRow(j: JsonValue): Result<(string, Fact), ReadError>
  {
    match (GetString(j, "key"), Get(j, "fact"))
    case (Ok(key), Some(f)) => (match ReadFact(f) case Ok(fact) => Ok((key, fact)) case Err(e) => Err(e))
    case _ => Err(Missing("key"))
  }

  function ReadEntry(j: JsonValue, key: string): Result<(string, string), ReadError>
  {
    match (GetString(j, key), GetString(j, "encoded"))
    case (Ok(name), Ok(encoded)) => Ok((name, encoded))
    case _ => Err(Missing(key))
  }

  function ReadHeader(j: JsonValue): Result<Option<Record>, ReadError>
  {
    match GetString(j, "magic") case Ok(m) => Ok(Some(Header(m))) case Err(e) => Err(e)
  }

  function ReadVersion(j: JsonValue): Result<Option<Record>, ReadError>
  {
    match Get(j, "version")
    case Some(Num(n)) =>
      (match AsNat(n) case Some(v) => Ok(Some(SchemaVersion(v))) case None => Err(Missing("version")))
    case _ => Err(Missing("version"))
  }

  function ReadUpsert(j: JsonValue): Result<Option<Record>, ReadError>
  {
    match ReadRow(j) case Ok(r) => Ok(Some(UpsertFact(r.0, r.1))) case Err(e) => Err(e)
  }

  function ReadReplace(j: JsonValue): Result<Option<Record>, ReadError>
  {
    match ReadRow(j) case Ok(r) => Ok(Some(ReplaceFact(r.0, r.1))) case Err(e) => Err(e)
  }

  function ReadIdempotent(j: JsonValue): Result<Option<Record>, ReadError>
  {
    match (ReadRow(j), GetString(j, "idempotency_key"))
    case (Ok(r), Ok(k)) => Ok(Some(UpsertFactAndIdempotency(r.0, r.1, k)))
    case _ => Err(Missing("idempotency_key"))
  }

  function ReadEmbedding(j: JsonValue): Result<Option<Record>, ReadError>
  {
    match (ReadRow(j), Get(j, "embedding"))
    case (Ok(r), Some(Arr(items))) =>
      (match ReadFloats(items)
       case Some(fs) => Ok(Some(UpsertFactWithEmbedding(r.0, r.1, fs)))
       case None => Err(BadField("embedding")))
    case _ => Err(Missing("embedding"))
  }

  function ReadPredicateEntry(j: JsonValue): Result<Option<Record>, ReadError>
  {
    match ReadEntry(j, "predicate") case Ok(e) => Ok(Some(PredicateEntry(e.0, e.1))) case Err(e) => Err(e)
  }

  function ReadVolatilityEntry(j: JsonValue): Result<Option<Record>, ReadError>
  {
    match ReadEntry(j, "predicate") case Ok(e) => Ok(Some(VolatilityEntry(e.0, e.1))) case Err(e) => Err(e)
  }

  function ReadSourceWeightEntry(j: JsonValue): Result<Option<Record>, ReadError>
  {
    match ReadEntry(j, "source") case Ok(e) => Ok(Some(SourceWeightEntry(e.0, e.1))) case Err(e) => Err(e)
  }

  /** The fields of a record by its kind; an unknown kind is skipped. */
  function ReadBody(kind: string, j: JsonValue): Result<Option<Record>, ReadError>
  {
    if kind == "Header" then ReadHeader(j)
    else if kind == "SchemaVersion" then ReadVersion(j)
    else if kind == "UpsertFact" then ReadUpsert(j)
    else if kind == "UpsertFactAndIdempotency" then ReadIdempotent(j)
    else if kind == "ReplaceFact" then ReadReplace(j)
    else if kind == "UpsertFactWithEmbedding" then ReadEmbedding(j)
    else if kind == "UpsertPredicateRegistryEntry" then ReadPredicateEntry(j)
    else if kind == "UpsertVolatilityRegistryEntry" then ReadVolatilityEntry(j)
    else if kind == "UpsertSourceWeightRegistryEntry" then ReadSourceWeightEntry(j)
    else Ok(None)
  }

  lemma SingleKey(m: map<string, JsonValue>)
    requires |m| == 1
    ensures exists k :: k in m && m.Keys == {k}
  {
    var k :| k in m;
    assert |m.Keys - {k}| == 0;
    assert m.Keys == {k};
  }

  /** An object with one field, named after the kind. */
  function ReadRecord(j: JsonValue): Result<Option<Record>, ReadError>
  {
    if j.Obj? && |j.fields| == 1 then
      SingleKey(j.fields);
      var k :| k in j.fields;
      ReadBody(k, j.fields[k])
    else Err(NotARecord)
  }

  function ReadLine(t: string): Result<Option<Record>, ReadError>
  {
    match Json.Parse(t)
    case Err(e) => Err(NotJson(e))
    case Ok(j) => ReadRecord(j)
  }

  /** Reading the line would abort, slicing inside a character. */
  predicate ReadAborts(t: string)
  {
    ReadLine(t) == Err(NotJson(SliceAbort))
  }

  /** Reading the line is an error, and not an abort. */
  predicate Unreadable(t: string)
  {
    ReadLine(t).Err? && !ReadAborts(t)
  }
}
