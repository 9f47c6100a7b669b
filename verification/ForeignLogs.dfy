/**
 Logs that another version wrote (crates/core/src/storage_append_log.rs:283-373, 739-816): older
 ones whose facts lack fields, newer ones with kinds of records that are not known, files of
 another program, and other schema versions.
 */
module ForeignLogs {
  import opened Prelude
  import opened Json
  import opened JsonRoundTrip
  import opened Facts
  import opened Records
  import opened RecordRoundTrip
  import opened LogFile
  import Recovery
  import opened Decimals
  import Contradictions
  import FactId
  import Utf8
  import opened Rfc3339

  // ---- Facts of older versions -------------------------------------------

  /** The fields that every version wrote. */
  predicate FirstFields(j: JsonValue, f: Fact)
  {
    Get(j, "id") == Some(Str(FactId.Text(f.id)))
    && Get(j, "subject") == Some(Str(f.subject)) && Get(j, "predicate") == Some(Str(f.predicate_))
    && Get(j, "object") == Some(Denote(ValueDoc(f.object_)))
    && Get(j, "valid_from") == Some(Str(Format(f.validFrom)))
    && Get(j, "recorded_at") == Some(Str(Format(f.recordedAt)))
  }

  /** The other fields are absent or those of the fact. */
  predicate LaterFields(j: JsonValue, f: Fact)
  {
    (Get(j, "valid_to").None? || Get(j, "valid_to") == Some(Denote(TimeDoc(f.validTo))))
    && (Get(j, "expired_at").None? || Get(j, "expired_at") == Some(Denote(TimeDoc(f.expiredAt))))
    && (Get(j, "confidence").None? || Get(j, "confidence") == Some(Denote(DNum(f.confidence))))
    && (Get(j, "source").None? || Get(j, "source") == Some(Denote(if f.source.None? then DNull else DStr(f.source.value))))
  }

  const CERTAIN := Finite(NumberToken(false, "1", "", ""))

  /** A fact without some of them reads as open, not expired, of confidence one, and without a source. */
  lemma OlderFactReads(j: JsonValue, f: Fact)
    requires WritableFact(f) && FiniteFact(f) && DatedFact(f) && FirstFields(j, f) && LaterFields(j, f)
    ensures var read := ReadFact(j);
      read.Ok? && read.value == f.(
        validTo := if Get(j, "valid_to").None? then None else f.validTo,
        expiredAt := if Get(j, "expired_at").None? then None else f.expiredAt,
        confidence := if Get(j, "confidence").None? then CERTAIN else f.confidence,
        source := if Get(j, "source").None? then None else f.source)
  {
    var g := f.(validTo := if Get(j, "valid_to").None? then None else f.validTo,
                expiredAt := if Get(j, "expired_at").None? then None else f.expiredAt,
                confidence := if Get(j, "confidence").None? then CERTAIN else f.confidence,
                source := if Get(j, "source").None? then None else f.source);
    FactDocSound(f);
    ValueRoundTrip(f.object_);
    FactId.ParseUndoesText(f.id);
    TimeReads(j, "valid_from", f.validFrom);
    TimeReads(j, "recorded_at", f.recordedAt);
    LaterTime(j, "valid_to", f.validTo);
    LaterTime(j, "expired_at", f.expiredAt);
    LaterScalars(j, f);
    ObjectSound(f);
    hide ReadTime, ReadOptionalTime, ReadConfidence, ReadSource, ReadValue, ReadFact, ValueDoc, Format, FactId.Text, FactId.ParseId,
         Get, Denote, WritableFact, LaterFields;
    FactAssembles(g, j);
  }

  lemma ObjectSound(f: Fact)
    requires WritableFact(f) && FiniteFact(f)
    ensures ReadValue(Denote(ValueDoc(f.object_))) == Ok(f.object_)
  {
    ValueRoundTrip(f.object_);
    hide ReadValue, ValueDoc, Denote;
  }

  lemma LaterTime(j: JsonValue, key: string, t: Option<Timestamp>)
    requires FromYearZero(t) && (Get(j, key).None? || Get(j, key) == Some(Denote(TimeDoc(t))))
    ensures ReadOptionalTime(j, key) == Ok(if Get(j, key).None? then None else t)
  {
    hide TimeDoc;
    if Get(j, key).Some? { OptionalTimeReads(j, key, t); }
  }

  lemma LaterScalars(j: JsonValue, f: Fact)
    requires FiniteFact(f) && LaterFields(j, f)
    ensures ReadConfidence(j) == if Get(j, "confidence").None? then CERTAIN else f.confidence
    ensures ReadSource(j) == if Get(j, "source").None? then None else f.source
  {
    hide Get;
    assert Decimals.Decimal(1) == "1";
  }

  // ---- Whole numbers -----------------------------------------------------

  lemma {:induction false} ZeroDigits(s: string)
    requires AllDigits(s)
    ensures DigitsValue(s) == 0 <==> AllZeros(s)
  {
    if s != [] {
      var n := |s| - 1;
      ZeroDigits(s[..n]);
      assert forall i :: 0 <= i < n ==> s[..n][i] == s[i];
    }
  }

  lemma {:induction false} DigitsBelowPower(s: string)
    requires AllDigits(s)
    ensures DigitsValue(s) as real + 1.0 <= Contradictions.PowerOfTen(|s|)
  {
    if s != [] { DigitsBelowPower(s[..|s| - 1]); }
  }

  /** A schema version is read from any token of a whole number that is not negative, and from no other. */
  lemma WholeNumbersRead(n: NumberToken, v: nat)
    requires WellFormedNumber(n)
    ensures AsNat(n) == Some(v) <==> Contradictions.NumberValue(n) == v as real
  {
    var fraction := if n.fraction == "" then "" else n.fraction[1..];
    var x := Contradictions.Magnitude(n);
    ZeroDigits(n.whole);
    ZeroDigits(fraction);
    DigitsBelowPower(fraction);
    Contradictions.PlainNumber(n);
    var f, p := DigitsValue(fraction) as real, Contradictions.PowerOfTen(|fraction|);
    assert x == DigitsValue(n.whole) as real + f / p;
    ProperFraction(f, p);
    if DigitsValue(fraction) > 0 { BetweenWholes(DigitsValue(n.whole), f / p, v); }
    hide Contradictions.NumberValue, Contradictions.Magnitude, Contradictions.PowerOfTen, DigitsValue;
  }

  lemma ProperFraction(f: real, p: real)
    requires 0.0 <= f && f + 1.0 <= p
    ensures 0.0 <= f / p < 1.0 && (f / p == 0.0 <==> f == 0.0)
  {
    var q := f / p;
    assert q * p == f;
    assert (1.0 - q) * p == p - f;
  }

  lemma BetweenWholes(w: nat, q: real, v: nat)
    requires 0.0 < q < 1.0
    ensures w as real + q != v as real && -(w as real + q) != v as real
  {
    assert v <= w || v >= w + 1;
  }

  // ---- Kinds of records that are not known -------------------------------

  const KINDS := {
    "Header", "SchemaVersion", "UpsertFact", "UpsertFactAndIdempotency", "ReplaceFact", "UpsertFactWithEmbedding",
    "UpsertPredicateRegistryEntry", "UpsertVolatilityRegistryEntry", "UpsertSourceWeightRegistryEntry"}

  lemma NewerKindSkipped(kind: string, d: Doc)
    requires kind !in KINDS && Utf8.Valid(kind) && WellFormed(d)
    ensures ReadLine(Print(DObj([Member(kind, d)]))) == Ok(None)
  {
    var doc := DObj([Member(kind, d)]);
    WellFormedIsWritable(d);
    hide Utf8.Valid, Print, Json.Parse, WellFormed, Denote, ReadRecord, Writable;
    OneField(kind, d);
    DocumentParses(doc);
    ReadRecordOf(kind, Denote(d));
  }

  /** Blank, or a record of a kind that is not known. */
  predicate Skipped(line: string)
  {
    '\n' !in line && (Trim(line) == [] || ReadLine(Trim(line)) == Ok(None))
  }

  /** Such lines make no difference. */
  lemma SkippedLines(a: seq<Record>, line: string, b: seq<Record>)
    requires a != [] && BackendLog(a + b) && AllStorable(a + b) && Skipped(line)
    ensures Load(LogText(a) + (line + "\n" + LogText(b))) == Ok(a + b)
  {
    var tail := line + "\n" + LogText(b);
    Parts(a, b);
    hide LoadSegments, RecordText, Skipped, BackendLog;
    LoadLines(a, tail, false, true, []);
    assert [] + a == a;
    LineSkipped(line, LogText(b), a);
    assert LogText(b) + "" == LogText(b);
    LoadLines(b, "", true, true, a);
    LoadNothing(a + b);
    SkippedEnds(LogText(a), line, b);
  }

  lemma SkippedEnds(head: string, line: string, b: seq<Record>)
    ensures EndsWithNewline(head + (line + "\n" + LogText(b)))
  {
    LogEnds(b);
    hide LogText;
    if b == [] {
      assert LogText(b) == "" by { EmptyLog(); }
      assert head + (line + "\n" + "") == head + line + "\n";
    } else {
      assert head + (line + "\n" + LogText(b)) == head + line + "\n" + LogText(b);
      Recovery.EndOfConcat(head + line + "\n", LogText(b));
    }
  }

  lemma EmptyLog()
    ensures LogText([]) == ""
  {
  }

  lemma Parts(a: seq<Record>, b: seq<Record>)
    requires a != [] && BackendLog(a + b) && AllStorable(a + b)
    ensures IsHeader(a[0]) && AllStorable(a) && AllStorable(b)
    ensures forall i :: 0 <= i < |a| ==> WritableRecord(a[i]) && (a[i].SchemaVersion? ==> a[i].version == SCHEMA_VERSION)
    ensures forall i :: 0 <= i < |b| ==> WritableRecord(b[i]) && (b[i].SchemaVersion? ==> b[i].version == SCHEMA_VERSION)
  {
    hide WritableRecord, Storable;
    var all := a + b;
    assert all[0] == a[0];
    assert forall i :: 0 <= i < |a| ==> a[i] == all[i];
    assert forall i :: 0 <= i < |b| ==> b[i] == all[|a| + i];
  }

  lemma LineSkipped(line: string, rest: string, applied: seq<Record>)
    requires Skipped(line)
    ensures LoadSegments(Split(line + "\n" + rest, '\n'), true, true, applied) == LoadSegments(Split(rest, '\n'), true, true, applied)
  {
    SplitCons(line, '\n', rest);
    hide Split, Trim, ReadLine;
    var s := [line] + Split(rest, '\n');
    assert s[0] == line && s[1..] == Split(rest, '\n');
  }

  // ---- Files of others ---------------------------------------------------

  /** A file whose first record is not the header is refused. */
  lemma OtherProgramRefused(rs: seq<Record>)
    requires rs != [] && WritableRecord(rs[0]) && rs[0] != Header("kronroe-append-log-v1")
    ensures Load(LogText(rs)) == Err(BackendMismatch)
  {
    var r, rest := rs[0], LogText(rs[1..]);
    assert !IsHeader(r);
    hide LoadSegments, RecordText, WritableRecord, Storable, IsHeader, Trim, ReadLine;
    LogSplit(r, rest);
    LineReads(r);
    var ends := EndsWithNewline(LogText(rs));
    LogEnds(rs);
    if Storable(r) {
      LoadStep(RecordText(r), Split(rest, '\n'), false, ends, []);
    } else {
      LoadBroken(RecordText(r), Split(rest, '\n'), false, ends, []);
    }
  }

  /** A file of another schema version is refused with the version that it has. */
  lemma OtherVersionRefused(a: seq<Record>, version: nat, b: seq<Record>)
    requires a != [] && BackendLog(a) && AllStorable(a) && version != 2
    ensures Load(LogText(a + ([SchemaVersion(version)] + b))) == Err(SchemaMismatch(version))
  {
    var r, rest := SchemaVersion(version), LogText(b);
    var rs := [r] + b;
    assert rs[1..] == b;
    Recovery.LogConcat(a, rs);
    assert LogText(rs) == RecordText(r) + "\n" + rest;
    hide LoadSegments, RecordText, Trim, ReadLine, LogText;
    LogSplit(r, rest);
    LineReads(r);
    TextNotEmpty(a, rs);
    var ends := EndsWithNewline(LogText(a + rs));
    LoadLines(a, LogText(rs), false, ends, []);
    LoadStep(RecordText(r), Split(rest, '\n'), true, ends, [] + a);
  }

  lemma TextNotEmpty(a: seq<Record>, b: seq<Record>)
    requires a != []
    ensures LogText(a + b) != ""
  {
    hide RecordText;
    assert (a + b)[0] == a[0];
  }
}
