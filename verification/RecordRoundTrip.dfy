/**
 Reading a line undoes writing it, for every kind of record, exactly when the record is
 storable; the line of any other record is an error.
 */
module RecordRoundTrip {
  import opened Prelude
  import opened Decimals
  import opened Json
  import opened JsonRoundTrip
  import opened JsonIllFormed
  import opened Facts
  import opened Records
  import FactId
  import Utf8
  import Calendar
  import opened Rfc3339

  // ---- What can be written, what can be stored ---------------------------

  /** Floats are any float; strings are Rust strings. */
  predicate WritableFloat(f: Float)
  {
    f.Finite? ==> WellFormedNumber(f.n)
  }

  predicate WritableValue(v: Value)
  {
    match v
    case Text(s) => Utf8.Valid(s)
    case Number(f) => WritableFloat(f)
    case Boolean(_) => true
    case Entity(s) => Utf8.Valid(s)
  }

  predicate WritableFact(f: Fact)
  {
    Utf8.Valid(f.subject) && Utf8.Valid(f.predicate_) && WritableValue(f.object_)
    && WritableFloat(f.confidence) && (f.source.Some? ==> Utf8.Valid(f.source.value))
  }

  predicate WritableRecord(r: Record)
  {
    match r
    case Header(magic) => Utf8.Valid(magic)
    case SchemaVersion(_) => true
    case PredicateEntry(name, encoded) => Utf8.Valid(name) && Utf8.Valid(encoded)
    case VolatilityEntry(name, encoded) => Utf8.Valid(name) && Utf8.Valid(encoded)
    case SourceWeightEntry(name, encoded) => Utf8.Valid(name) && Utf8.Valid(encoded)
    case UpsertFact(key, fact) => Utf8.Valid(key) && WritableFact(fact)
    case UpsertFactAndIdempotency(key, fact, k) => Utf8.Valid(key) && WritableFact(fact) && Utf8.Valid(k)
    case UpsertFactWithEmbedding(key, fact, embedding) =>
      Utf8.Valid(key) && WritableFact(fact) && forall i :: 0 <= i < |embedding| ==> WritableFloat(embedding[i])
    case ReplaceFact(key, fact) => Utf8.Valid(key) && WritableFact(fact)
  }

  predicate FiniteFact(f: Fact)
  {
    (f.object_.Number? ==> f.object_.f.Finite?) && f.confidence.Finite?
  }

  /** Every float of the record is finite. */
  predicate FiniteRecord(r: Record)
  {
    match r
    case UpsertFact(_, fact) => FiniteFact(fact)
    case UpsertFactAndIdempotency(_, fact, _) => FiniteFact(fact)
    case UpsertFactWithEmbedding(_, fact, embedding) =>
      FiniteFact(fact) && forall i :: 0 <= i < |embedding| ==> embedding[i].Finite?
    case ReplaceFact(_, fact) => FiniteFact(fact)
    case _ => true
  }

  predicate FromYearZero(t: Option<Timestamp>)
  {
    t.None? || t.value >= YEAR_ZERO
  }

  predicate DatedFact(f: Fact)
  {
    f.validFrom >= YEAR_ZERO && FromYearZero(f.validTo) && f.recordedAt >= YEAR_ZERO && FromYearZero(f.expiredAt)
  }

  /** Every instant of the record lies in or after the year 0. */
  predicate DatedRecord(r: Record)
  {
    match r
    case UpsertFact(_, fact) => DatedFact(fact)
    case UpsertFactAndIdempotency(_, fact, _) => DatedFact(fact)
    case UpsertFactWithEmbedding(_, fact, _) => DatedFact(fact)
    case ReplaceFact(_, fact) => DatedFact(fact)
    case _ => true
  }

  predicate Storable(r: Record)
  {
    FiniteRecord(r) && DatedRecord(r)
  }

  // ---- Objects field by field --------------------------------------------

  predicate DistinctKeys(members: seq<Member>)
  {
    forall i, j :: 0 <= i < j < |members| ==> members[i].key != members[j].key
  }

  lemma {:induction false} DenoteKeeps(members: seq<Member>, fields: map<string, JsonValue>, k: string)
    requires forall i :: 0 <= i < |members| ==> members[i].key != k
    ensures k in DenoteMembers(members, fields) <==> k in fields
    ensures k in fields ==> DenoteMembers(members, fields)[k] == fields[k]
    decreases |members|
  {
    if members != [] {
      DenoteKeeps(members[1..], fields[members[0].key := Denote(members[0].value)], k);
    }
  }

  /** Each field of a printed object is found under its key. */
  lemma {:induction false} DenoteAt(members: seq<Member>, fields: map<string, JsonValue>, i: nat)
    requires DistinctKeys(members) && i < |members|
    ensures var m := DenoteMembers(members, fields);
      members[i].key in m && m[members[i].key] == Denote(members[i].value)
    decreases |members|
  {
    var fields' := fields[members[0].key := Denote(members[0].value)];
    if i == 0 {
      DenoteKeeps(members[1..], fields', members[0].key);
    } else {
      DenoteAt(members[1..], fields', i - 1);
    }
  }

  lemma GetAt(members: seq<Member>, i: nat)
    requires DistinctKeys(members) && i < |members|
    ensures Get(Denote(DObj(members)), members[i].key) == Some(Denote(members[i].value))
  {
    DenoteAt(members, map[], i);
  }

  lemma {:induction false} AllMembers(members: seq<Member>)
    requires forall i :: 0 <= i < |members| ==> Utf8.Valid(members[i].key) && Writable(members[i].value)
    ensures WritableMembers(members)
    ensures WellFormedMembers(members) <==> forall i :: 0 <= i < |members| ==> WellFormed(members[i].value)
    decreases |members|
  {
    if members != [] {
      var rest := members[1..];
      assert forall i :: 1 <= i < |members| ==> members[i] == rest[i - 1];
      AllMembers(rest);
      if WellFormedMembers(members) {
        forall i | 0 <= i < |members| ensures WellFormed(members[i].value) {
          if i > 0 { assert members[i] == rest[i - 1]; }
        }
      }
    }
  }

  // ---- Texts inside a record ---------------------------------------------

  lemma {:induction false} Base32Ascii(v: nat, n: nat)
    ensures Utf8.Ascii(FactId.Base32(v, n))
  {
    if n > 0 { Base32Ascii(v / 32, n - 1); }
  }

  lemma IdTextValid(id: FactId.Id)
    ensures Utf8.Valid(FactId.Text(id))
  {
    Base32Ascii(id, 26);
    Utf8.AsciiValid(FactId.Text(id));
  }

  lemma PaddedAscii(n: nat, width: nat)
    ensures Utf8.Ascii(Padded(n, width))
  {
  }

  lemma FormatValid(t: Timestamp)
    ensures Utf8.Valid(Format(t))
  {
    hide Calendar.CivilFromDays, DateText, Padded, Trimmed, ClockOf, Calendar.ValidDate;
    var d := Calendar.CivilFromDays(DayOfInstant(t));
    YearZero(t);
    Calendar.CalendarBijection(DayOfInstant(t), d);
    Calendar.InstantDaysFit(DayOfInstant(t));
    DateRoundTrip(d);
    var c := ClockOf(MicrosOfDay(t));
    PaddedAscii(c.hour, 2);
    PaddedAscii(c.minute, 2);
    PaddedAscii(c.second, 2);
    PaddedAscii(c.micros, 6);
    assert Utf8.Ascii(DateText(d));
    assert Utf8.Ascii(ClockText(c));
    Utf8.AsciiValid(Format(t));
  }

  // ---- Values ------------------------------------------------------------

  /** An object with two fields. */
  lemma TwoFields(a: string, x: Doc, b: string, y: Doc)
    requires Utf8.Valid(a) && Utf8.Valid(b) && a != b && Writable(x) && Writable(y)
    ensures var t := DObj([Member(a, x), Member(b, y)]);
      Writable(t) && (WellFormed(t) <==> WellFormed(x) && WellFormed(y))
      && Get(Denote(t), a) == Some(Denote(x)) && Get(Denote(t), b) == Some(Denote(y))
  {
    hide Utf8.Valid;
    var members := [Member(a, x), Member(b, y)];
    assert forall i :: 0 <= i < |members| ==> members[i] == (if i == 0 then Member(a, x) else Member(b, y));
    AllMembers(members);
    GetAt(members, 0);
    GetAt(members, 1);
    assert WellFormed(members[0].value) == WellFormed(x) && WellFormed(members[1].value) == WellFormed(y);
    hide Get, DenoteMembers, WellFormedMembers, WritableMembers;
  }

  lemma TypeKeys()
    ensures Utf8.Valid("type") && Utf8.Valid("value") && "type" != "value"
  {
    Utf8.AsciiValid("type");
    Utf8.AsciiValid("value");
    assert |"type"| != |"value"|;
  }

  lemma KindsValid()
    ensures Utf8.Valid("Text") && Utf8.Valid("Number") && Utf8.Valid("Boolean") && Utf8.Valid("Entity")
  {
    hide Utf8.Valid;
    Utf8.AsciiValid("Text");
    Utf8.AsciiValid("Number");
    Utf8.AsciiValid("Boolean");
    Utf8.AsciiValid("Entity");
  }

  lemma KindsDiffer()
    ensures "Text" != "Number" && "Text" != "Boolean" && "Text" != "Entity"
    ensures "Number" != "Boolean" && "Number" != "Entity" && "Boolean" != "Entity"
  {
    assert |"Text"| == 4 && |"Number"| == 6 && |"Boolean"| == 7 && |"Entity"| == 6;
    assert "Number"[0] == 'N' && "Entity"[0] == 'E';
  }

  lemma ValueRoundTrip(v: Value)
    requires WritableValue(v)
    ensures Writable(ValueDoc(v))
    ensures WellFormed(ValueDoc(v)) <==> (v.Number? ==> v.f.Finite?)
    ensures WellFormed(ValueDoc(v)) ==> ReadValue(Denote(ValueDoc(v))) == Ok(v)
  {
    KindsValid();
    KindsDiffer();
    TypeKeys();
    hide Utf8.Valid, Get, DenoteMembers, WellFormedMembers, WritableMembers;
    match v
    case Text(s) => TwoFields("type", DStr("Text"), "value", DStr(s));
    case Number(f) => TwoFields("type", DStr("Number"), "value", DNum(f));
    case Boolean(b) => TwoFields("type", DStr("Boolean"), "value", DBool(b));
    case Entity(s) => TwoFields("type", DStr("Entity"), "value", DStr(s));
  }

  // ---- Facts -------------------------------------------------------------

  lemma FactShape(f: Fact)
    ensures var m := FactMembers(f);
      |m| == 10
      && m[0] == Member("id", DStr(FactId.Text(f.id)))
      && m[1] == Member("subject", DStr(f.subject))
      && m[2] == Member("predicate", DStr(f.predicate_))
      && m[3] == Member("object", ValueDoc(f.object_))
      && m[4] == Member("valid_from", DStr(Format(f.validFrom)))
      && m[5] == Member("valid_to", TimeDoc(f.validTo))
      && m[6] == Member("recorded_at", DStr(Format(f.recordedAt)))
      && m[7] == Member("expired_at", TimeDoc(f.expiredAt))
      && m[8] == Member("confidence", DNum(f.confidence))
      && m[9] == Member("source", if f.source.None? then DNull else DStr(f.source.value))
  {
    hide FactId.Text, Format, ValueDoc, TimeDoc;
  }

  /** Length and first byte tell the field names of a fact apart. */
  lemma FactKeysDiffer(f: Fact)
    ensures DistinctKeys(FactMembers(f))
  {
    var m := FactMembers(f);
    FactShape(f);
    hide FactMembers, FactId.Text, Format, ValueDoc, TimeDoc;
    assert |m[0].key| == 2;
    assert |m[1].key| == 7;
    assert |m[2].key| == 9;
    assert |m[3].key| == 6 && m[3].key[0] == 'o';
    assert |m[4].key| == 10 && m[4].key[0] == 'v';
    assert |m[5].key| == 8;
    assert |m[6].key| == 11;
    assert |m[7].key| == 10 && m[7].key[0] == 'e';
    assert |m[8].key| == 10 && m[8].key[0] == 'c';
    assert |m[9].key| == 6 && m[9].key[0] == 's';
    forall i, j | 0 <= i < j < |m| ensures m[i].key != m[j].key {
      assert |m[i].key| != |m[j].key| || m[i].key[0] != m[j].key[0];
    }
  }

  lemma FactNamesValid()
    ensures Utf8.Valid("id") && Utf8.Valid("subject") && Utf8.Valid("predicate") && Utf8.Valid("object")
    ensures Utf8.Valid("valid_from") && Utf8.Valid("valid_to") && Utf8.Valid("recorded_at") && Utf8.Valid("expired_at")
    ensures Utf8.Valid("confidence") && Utf8.Valid("source")
  {
    hide Utf8.Valid;
    Utf8.AsciiValid("id");
    Utf8.AsciiValid("subject");
    Utf8.AsciiValid("predicate");
    Utf8.AsciiValid("object");
    Utf8.AsciiValid("valid_from");
    Utf8.AsciiValid("valid_to");
    Utf8.AsciiValid("recorded_at");
    Utf8.AsciiValid("expired_at");
    Utf8.AsciiValid("confidence");
    Utf8.AsciiValid("source");
  }

  lemma TimeDocSound(t: Option<Timestamp>)
    ensures WellFormed(TimeDoc(t)) && Writable(TimeDoc(t))
  {
    if t.Some? { FormatValid(t.value); }
  }

  lemma SourceDocSound(source: Option<string>)
    requires source.Some? ==> Utf8.Valid(source.value)
    ensures var d := if source.None? then DNull else DStr(source.value); WellFormed(d) && Writable(d)
  {
  }

  lemma StringDocSound(s: string)
    requires Utf8.Valid(s)
    ensures WellFormed(DStr(s)) && Writable(DStr(s))
  {
  }

  predicate FiniteMember(f: Fact, i: nat)
  {
    (i == 3 && f.object_.Number? ==> f.object_.f.Finite?) && (i == 8 ==> f.confidence.Finite?)
  }

  lemma FactMemberSound(f: Fact, i: nat)
    requires WritableFact(f) && i < 10
    ensures var m := FactMembers(f)[i];
      Utf8.Valid(m.key) && Writable(m.value) && (WellFormed(m.value) <==> FiniteMember(f, i))
  {
    FactShape(f);
    FactNamesValid();
    hide Utf8.Valid, FactMembers, FactId.Text, Format, ValueDoc, TimeDoc;
    if i == 0 { IdTextValid(f.id); StringDocSound(FactId.Text(f.id)); }
    if i == 1 { StringDocSound(f.subject); }
    if i == 2 { StringDocSound(f.predicate_); }
    if i == 3 { ValueRoundTrip(f.object_); }
    if i == 4 { FormatValid(f.validFrom); StringDocSound(Format(f.validFrom)); }
    if i == 5 { TimeDocSound(f.validTo); }
    if i == 6 { FormatValid(f.recordedAt); StringDocSound(Format(f.recordedAt)); }
    if i == 7 { TimeDocSound(f.expiredAt); }
    if i == 9 { SourceDocSound(f.source); }
  }

  lemma FactDocSound(f: Fact)
    requires WritableFact(f)
    ensures Writable(FactDoc(f))
    ensures WellFormed(FactDoc(f)) <==> FiniteFact(f)
  {
    hide WritableFact, FactMembers, WellFormed, Writable, Utf8.Valid;
    var m := FactMembers(f);
    FactShape(f);
    forall i: nat | i < 10 ensures Utf8.Valid(m[i].key) && Writable(m[i].value) && (WellFormed(m[i].value) <==> FiniteMember(f, i)) {
      FactMemberSound(f, i);
    }
    AllMembers(m);
    MembersDoc(m);
    assert FiniteMember(f, 3) && FiniteMember(f, 8) <==> FiniteFact(f);
    assert FiniteFact(f) ==> forall i: nat :: FiniteMember(f, i);
    if WellFormedMembers(m) {
      assert WellFormed(m[3].value) && WellFormed(m[8].value);
    }
    hide WellFormedMembers, WritableMembers, FiniteFact;
  }

  lemma MembersDoc(m: seq<Member>)
    ensures Writable(DObj(m)) <==> WritableMembers(m)
    ensures WellFormed(DObj(m)) <==> WellFormedMembers(m)
  {
  }

  /** Each field of a printed fact. */
  lemma FactFields(f: Fact)
    ensures var j := Denote(FactDoc(f)); var m := FactMembers(f);
      Get(j, "id") == Some(Str(FactId.Text(f.id)))
      && Get(j, "subject") == Some(Str(f.subject))
      && Get(j, "predicate") == Some(Str(f.predicate_))
      && Get(j, "object") == Some(Denote(ValueDoc(f.object_)))
      && Get(j, "valid_from") == Some(Str(Format(f.validFrom)))
      && Get(j, "valid_to") == Some(Denote(TimeDoc(f.validTo)))
      && Get(j, "recorded_at") == Some(Str(Format(f.recordedAt)))
      && Get(j, "expired_at") == Some(Denote(TimeDoc(f.expiredAt)))
      && Get(j, "confidence") == Some(Denote(DNum(f.confidence)))
      && Get(j, "source") == Some(Denote(if f.source.None? then DNull else DStr(f.source.value)))
  {
    var m := FactMembers(f);
    FactShape(f);
    FactKeysDiffer(f);
    hide Get, FactMembers, FactId.Text, Format, ValueDoc, TimeDoc, DenoteMembers;
    GetAt(m, 0);
    GetAt(m, 1);
    GetAt(m, 2);
    GetAt(m, 3);
    GetAt(m, 4);
    GetAt(m, 5);
    GetAt(m, 6);
    GetAt(m, 7);
    GetAt(m, 8);
    GetAt(m, 9);
  }

  lemma TimeReads(j: JsonValue, key: string, t: Timestamp)
    requires Get(j, key) == Some(Str(Format(t)))
    ensures t >= YEAR_ZERO ==> ReadTime(j, key) == Ok(t)
    ensures t < YEAR_ZERO ==> ReadTime(j, key).Err?
  {
    ParseUndoesFormat(t);
  }

  lemma OptionalTimeReads(j: JsonValue, key: string, t: Option<Timestamp>)
    requires Get(j, key) == Some(Denote(TimeDoc(t)))
    ensures FromYearZero(t) ==> ReadOptionalTime(j, key) == Ok(t)
    ensures !FromYearZero(t) ==> ReadOptionalTime(j, key).Err?
  {
    hide Get, Format;
    if t.Some? { TimeReads(j, key, t.value); }
  }

  /** A finite fact is read back exactly when its instants lie from the year 0 on. */
  lemma FactReads(f: Fact)
    requires WritableFact(f) && FiniteFact(f)
    ensures DatedFact(f) ==> ReadFact(Denote(FactDoc(f))) == Ok(f)
    ensures !DatedFact(f) ==> ReadFact(Denote(FactDoc(f))).Err?
  {
    hide Denote;
    var j := Denote(FactDoc(f));
    FactDocSound(f);
    ValueRoundTrip(f.object_);
    FactFields(f);
    ScalarsRead(f, j);
    FactId.ParseUndoesText(f.id);
    TimeReads(j, "valid_from", f.validFrom);
    OptionalTimeReads(j, "valid_to", f.validTo);
    TimeReads(j, "recorded_at", f.recordedAt);
    OptionalTimeReads(j, "expired_at", f.expiredAt);
    hide *;
    FactAssembles(f, j);
  }

  lemma ScalarsRead(f: Fact, j: JsonValue)
    requires f.confidence.Finite?
    requires Get(j, "confidence") == Some(Denote(DNum(f.confidence)))
    requires Get(j, "source") == Some(Denote(if f.source.None? then DNull else DStr(f.source.value)))
    ensures ReadConfidence(j) == f.confidence && ReadSource(j) == f.source
  {
    hide Get;
  }

  lemma FactAssembles(f: Fact, j: JsonValue)
    requires Get(j, "id") == Some(Str(FactId.Text(f.id))) && FactId.ParseId(FactId.Text(f.id)) == Ok(f.id)
    requires Get(j, "subject") == Some(Str(f.subject)) && Get(j, "predicate") == Some(Str(f.predicate_))
    requires Get(j, "object").Some? && ReadValue(Get(j, "object").value) == Ok(f.object_)
    requires f.validFrom >= YEAR_ZERO ==> ReadTime(j, "valid_from") == Ok(f.validFrom)
    requires f.validFrom < YEAR_ZERO ==> ReadTime(j, "valid_from").Err?
    requires FromYearZero(f.validTo) ==> ReadOptionalTime(j, "valid_to") == Ok(f.validTo)
    requires !FromYearZero(f.validTo) ==> ReadOptionalTime(j, "valid_to").Err?
    requires f.recordedAt >= YEAR_ZERO ==> ReadTime(j, "recorded_at") == Ok(f.recordedAt)
    requires f.recordedAt < YEAR_ZERO ==> ReadTime(j, "recorded_at").Err?
    requires FromYearZero(f.expiredAt) ==> ReadOptionalTime(j, "expired_at") == Ok(f.expiredAt)
    requires !FromYearZero(f.expiredAt) ==> ReadOptionalTime(j, "expired_at").Err?
    requires ReadConfidence(j) == f.confidence && ReadSource(j) == f.source
    ensures DatedFact(f) ==> ReadFact(j) == Ok(f)
    ensures !DatedFact(f) ==> ReadFact(j).Err?
  {
    hide Get, FactId.Text, FactId.ParseId, ReadTime, ReadOptionalTime, ReadValue, ReadConfidence, ReadSource;
  }

  // ---- Records -----------------------------------------------------------

  lemma {:induction false} DecimalHead(n: nat)
    ensures Decimal(n)[0] == '0' ==> n == 0 && |Decimal(n)| == 1
  {
    if n >= 10 { DecimalHead(n / 10); }
  }

  lemma VersionReads(n: nat)
    ensures WellFormedNumber(NatNumber(n)) && AsNat(NatNumber(n)) == Some(n)
  {
    DecimalHead(n);
    DecimalValue(n);
  }

  lemma {:induction false} FloatDocsSound(fs: seq<Float>)
    requires forall i :: 0 <= i < |fs| ==> WritableFloat(fs[i])
    ensures WritableItems(FloatDocs(fs))
    ensures WellFormedItems(FloatDocs(fs)) <==> forall i :: 0 <= i < |fs| ==> fs[i].Finite?
    ensures (forall i :: 0 <= i < |fs| ==> fs[i].Finite?) ==> ReadFloats(DenoteItems(FloatDocs(fs))) == Some(fs)
  {
    if fs != [] {
      var rest := fs[1..];
      FloatDocsSound(rest);
      var ds := FloatDocs(fs);
      assert ds[1..] == FloatDocs(rest);
      assert forall i :: 1 <= i < |fs| ==> fs[i] == rest[i - 1];
      if WellFormedItems(ds) {
        assert WellFormed(ds[0]) && ds[0] == DNum(fs[0]);
        assert forall i :: 0 <= i < |rest| ==> rest[i].Finite?;
        forall i | 0 <= i < |fs| ensures fs[i].Finite? {
          if i > 0 { assert fs[i] == rest[i - 1]; }
        }
      }
      if forall i :: 0 <= i < |fs| ==> fs[i].Finite? {
        forall i | 0 <= i < |rest| ensures rest[i].Finite? { assert rest[i] == fs[i + 1]; }
        assert DenoteItems(ds)[0] == Num(fs[0].n);
        assert DenoteItems(ds)[1..] == DenoteItems(FloatDocs(rest));
        assert [fs[0]] + rest == fs;
      }
    }
  }

  lemma ArrayDocSound(fs: seq<Float>)
    requires forall i :: 0 <= i < |fs| ==> WritableFloat(fs[i])
    ensures Writable(DArr(FloatDocs(fs)))
    ensures WellFormed(DArr(FloatDocs(fs))) <==> forall i :: 0 <= i < |fs| ==> fs[i].Finite?
  {
    FloatDocsSound(fs);
    hide FloatDocs, WritableItems, WellFormedItems;
    ItemsDoc(FloatDocs(fs));
  }

  lemma ItemsDoc(ds: seq<Doc>)
    ensures Writable(DArr(ds)) <==> WritableItems(ds)
    ensures WellFormed(DArr(ds)) <==> WellFormedItems(ds)
  {
  }

  lemma OneField(a: string, x: Doc)
    requires Utf8.Valid(a) && Writable(x)
    ensures var t := DObj([Member(a, x)]);
      Writable(t) && (WellFormed(t) <==> WellFormed(x)) && Denote(t) == Obj(map[a := Denote(x)])
      && Get(Denote(t), a) == Some(Denote(x))
  {
    var ms := [Member(a, x)];
    hide Utf8.Valid, WellFormed, Writable, Denote;
    AllMembers(ms);
    MembersDoc(ms);
    assert DenoteMembers(ms, map[]) == DenoteMembers([], map[a := Denote(x)]);
    GetAt(ms, 0);
    DenoteObject(ms);
    assert WellFormed(ms[0].value) == WellFormed(x);
  }

  lemma DenoteObject(ms: seq<Member>)
    ensures Denote(DObj(ms)) == Obj(DenoteMembers(ms, map[]))
  {
  }

  function Three(a: string, x: Doc, b: string, y: Doc, c: string, z: Doc): (ms: seq<Member>)
    ensures |ms| == 3 && ms[0] == Member(a, x) && ms[1] == Member(b, y) && ms[2] == Member(c, z)
  {
    [Member(a, x), Member(b, y), Member(c, z)]
  }

  lemma ThreeFields(a: string, x: Doc, b: string, y: Doc, c: string, z: Doc)
    requires Utf8.Valid(a) && Utf8.Valid(b) && Utf8.Valid(c) && a != b && a != c && b != c
    requires Writable(x) && Writable(y) && Writable(z)
    ensures var t := DObj([Member(a, x), Member(b, y), Member(c, z)]);
      Writable(t) && (WellFormed(t) <==> WellFormed(x) && WellFormed(y) && WellFormed(z))
    ensures var j := Denote(DObj([Member(a, x), Member(b, y), Member(c, z)]));
      Get(j, a) == Some(Denote(x)) && Get(j, b) == Some(Denote(y)) && Get(j, c) == Some(Denote(z))
  {
    hide Utf8.Valid, WellFormed, Writable, Denote, Get, Three;
    var ms := Three(a, x, b, y, c, z);
    assert Three(a, x, b, y, c, z) == [Member(a, x), Member(b, y), Member(c, z)] by { ThreeIs(a, x, b, y, c, z); }
    ThreeSound(ms);
    ThreeGet(ms);
  }

  lemma ThreeIs(a: string, x: Doc, b: string, y: Doc, c: string, z: Doc)
    ensures Three(a, x, b, y, c, z) == [Member(a, x), Member(b, y), Member(c, z)]
  {
  }

  lemma ThreeSound(ms: seq<Member>)
    requires |ms| == 3 && Utf8.Valid(ms[0].key) && Utf8.Valid(ms[1].key) && Utf8.Valid(ms[2].key)
    requires Writable(ms[0].value) && Writable(ms[1].value) && Writable(ms[2].value)
    ensures Writable(DObj(ms))
    ensures WellFormed(DObj(ms)) <==> WellFormed(ms[0].value) && WellFormed(ms[1].value) && WellFormed(ms[2].value)
  {
    hide Utf8.Valid, WellFormed, Writable, WellFormedMembers, WritableMembers;
    MembersDoc(ms);
    AllMembers(ms);
  }

  lemma ThreeGet(ms: seq<Member>)
    requires |ms| == 3 && ms[0].key != ms[1].key && ms[0].key != ms[2].key && ms[1].key != ms[2].key
    ensures Get(Denote(DObj(ms)), ms[0].key) == Some(Denote(ms[0].value))
    ensures Get(Denote(DObj(ms)), ms[1].key) == Some(Denote(ms[1].value))
    ensures Get(Denote(DObj(ms)), ms[2].key) == Some(Denote(ms[2].value))
  {
    hide Denote, Get;
    GetAt(ms, 0);
    GetAt(ms, 1);
    GetAt(ms, 2);
  }

  lemma RecordKeys()
    ensures Utf8.Valid("magic") && Utf8.Valid("version") && Utf8.Valid("predicate") && Utf8.Valid("encoded")
    ensures Utf8.Valid("source") && Utf8.Valid("key") && Utf8.Valid("fact") && Utf8.Valid("idempotency_key")
    ensures Utf8.Valid("embedding")
    ensures "predicate" != "encoded" && "source" != "encoded" && "key" != "fact" && "key" != "idempotency_key"
    ensures "fact" != "idempotency_key" && "key" != "embedding" && "fact" != "embedding"
  {
    hide Utf8.Valid;
    Utf8.AsciiValid("magic");
    Utf8.AsciiValid("version");
    Utf8.AsciiValid("predicate");
    Utf8.AsciiValid("encoded");
    Utf8.AsciiValid("source");
    Utf8.AsciiValid("key");
    Utf8.AsciiValid("fact");
    Utf8.AsciiValid("idempotency_key");
    Utf8.AsciiValid("embedding");
    assert |"key"| == 3 && |"fact"| == 4 && |"embedding"| == 9 && |"idempotency_key"| == 15;
    assert |"predicate"| == 9 && |"encoded"| == 7 && |"source"| == 6;
  }

  /** The kinds of record have names of different lengths. */
  lemma KindNames(r: Record)
    ensures |Kind(r)| == match r
      case Header(_) => 6
      case SchemaVersion(_) => 13
      case PredicateEntry(_, _) => 28
      case VolatilityEntry(_, _) => 29
      case SourceWeightEntry(_, _) => 31
      case UpsertFact(_, _) => 10
      case UpsertFactAndIdempotency(_, _, _) => 24
      case UpsertFactWithEmbedding(_, _, _) => 23
      case ReplaceFact(_, _) => 11
  {
  }

  lemma KindAscii(r: Record)
    ensures Utf8.Ascii(Kind(r)) && Kind(r) != "" && 'A' <= Kind(r)[0] <= 'Z'
  {
    if r.PredicateEntry? || r.VolatilityEntry? || r.SourceWeightEntry? {
      RegistryNamesAscii();
    } else {
      RowNamesAscii();
    }
    hide Utf8.Ascii;
  }

  lemma RegistryNamesAscii()
    ensures Utf8.Ascii("UpsertPredicateRegistryEntry") && Utf8.Ascii("UpsertVolatilityRegistryEntry")
    ensures Utf8.Ascii("UpsertSourceWeightRegistryEntry")
  {
  }

  lemma RowNamesAscii()
    ensures Utf8.Ascii("UpsertFact") && Utf8.Ascii("UpsertFactAndIdempotency") && Utf8.Ascii("UpsertFactWithEmbedding")
    ensures Utf8.Ascii("ReplaceFact") && Utf8.Ascii("Header") && Utf8.Ascii("SchemaVersion")
  {
  }

  /** The fields of a record can be written, and are JSON when its floats are finite. */
  lemma BodySound(r: Record)
    requires WritableRecord(r)
    ensures Writable(DObj(RecordMembers(r)))
    ensures WellFormed(DObj(RecordMembers(r))) <==> FiniteRecord(r)
  {
    RecordKeys();
    hide Utf8.Valid, FactDoc, WellFormedMembers, WritableMembers, Get, Denote, WritableFact, FiniteFact, FloatDocs;
    match r
    case Header(magic) => OneField("magic", DStr(magic));
    case SchemaVersion(version) =>
      VersionReads(version);
      OneField("version", DNum(Finite(NatNumber(version))));
    case PredicateEntry(name, encoded) => TwoFields("predicate", DStr(name), "encoded", DStr(encoded));
    case VolatilityEntry(name, encoded) => TwoFields("predicate", DStr(name), "encoded", DStr(encoded));
    case SourceWeightEntry(name, encoded) => TwoFields("source", DStr(name), "encoded", DStr(encoded));
    case UpsertFact(key, fact) =>
      FactDocSound(fact);
      TwoFields("key", DStr(key), "fact", FactDoc(fact));
    case UpsertFactAndIdempotency(key, fact, k) =>
      FactDocSound(fact);
      ThreeFields("key", DStr(key), "fact", FactDoc(fact), "idempotency_key", DStr(k));
    case UpsertFactWithEmbedding(key, fact, embedding) =>
      FactDocSound(fact);
      ArrayDocSound(embedding);
      ThreeFields("key", DStr(key), "fact", FactDoc(fact), "embedding", DArr(FloatDocs(embedding)));
    case ReplaceFact(key, fact) =>
      FactDocSound(fact);
      TwoFields("key", DStr(key), "fact", FactDoc(fact));
  }

  lemma BodyByKind(r: Record, j: JsonValue)
    ensures ReadBody(Kind(r), j) == match r
      case Header(_) => ReadHeader(j)
      case SchemaVersion(_) => ReadVersion(j)
      case PredicateEntry(_, _) => ReadPredicateEntry(j)
      case VolatilityEntry(_, _) => ReadVolatilityEntry(j)
      case SourceWeightEntry(_, _) => ReadSourceWeightEntry(j)
      case UpsertFact(_, _) => ReadUpsert(j)
      case UpsertFactAndIdempotency(_, _, _) => ReadIdempotent(j)
      case UpsertFactWithEmbedding(_, _, _) => ReadEmbedding(j)
      case ReplaceFact(_, _) => ReadReplace(j)
  {
    KindNames(r);
    assert |"Header"| == 6 && |"SchemaVersion"| == 13 && |"UpsertFact"| == 10 && |"UpsertFactAndIdempotency"| == 24;
    assert |"ReplaceFact"| == 11 && |"UpsertFactWithEmbedding"| == 23 && |"UpsertPredicateRegistryEntry"| == 28;
    assert |"UpsertVolatilityRegistryEntry"| == 29;
    hide ReadHeader, ReadVersion, ReadPredicateEntry, ReadVolatilityEntry, ReadSourceWeightEntry, ReadUpsert,
      ReadIdempotent, ReadEmbedding, ReadReplace;
  }

  /** Row of a fact record: the key and, when its instants allow, the fact. */
  lemma RowReads(j: JsonValue, key: string, fact: Fact)
    requires WritableFact(fact) && FiniteFact(fact)
    requires Get(j, "key") == Some(Str(key)) && Get(j, "fact") == Some(Denote(FactDoc(fact)))
    ensures DatedFact(fact) ==> ReadRow(j) == Ok((key, fact))
    ensures !DatedFact(fact) ==> ReadRow(j).Err?
  {
    hide Get, ReadFact, Denote, FactDoc, WritableFact, FiniteFact, DatedFact;
    FactReads(fact);
  }

  lemma EntryReads(j: JsonValue, field: string, name: string, encoded: string)
    requires Get(j, field) == Some(Str(name)) && Get(j, "encoded") == Some(Str(encoded))
    ensures ReadEntry(j, field) == Ok((name, encoded))
  {
    hide Get;
  }

  lemma BodyReads(r: Record)
    requires WritableRecord(r) && FiniteRecord(r)
    ensures var j := Denote(DObj(RecordMembers(r)));
      (DatedRecord(r) ==> ReadBody(Kind(r), j) == Ok(Some(r))) && (!DatedRecord(r) ==> ReadBody(Kind(r), j).Err?)
  {
    var j := Denote(DObj(RecordMembers(r)));
    BodyByKind(r, j);
    RecordKeys();
    hide Utf8.Valid, FactDoc, WellFormedMembers, WritableMembers, Get, DenoteMembers, WritableFact, FiniteFact, DatedFact,
      ReadBody, ReadRow, ReadEntry, AsNat, FloatDocs, ReadFloats, Kind;
    match r
    case Header(magic) => OneField("magic", DStr(magic));
    case SchemaVersion(version) =>
      VersionReads(version);
      OneField("version", DNum(Finite(NatNumber(version))));
    case PredicateEntry(name, encoded) =>
      TwoFields("predicate", DStr(name), "encoded", DStr(encoded));
      EntryReads(j, "predicate", name, encoded);
    case VolatilityEntry(name, encoded) =>
      TwoFields("predicate", DStr(name), "encoded", DStr(encoded));
      EntryReads(j, "predicate", name, encoded);
    case SourceWeightEntry(name, encoded) =>
      TwoFields("source", DStr(name), "encoded", DStr(encoded));
      EntryReads(j, "source", name, encoded);
    case UpsertFact(key, fact) =>
      FactDocSound(fact);
      TwoFields("key", DStr(key), "fact", FactDoc(fact));
      RowReads(j, key, fact);
    case UpsertFactAndIdempotency(key, fact, k) =>
      FactDocSound(fact);
      ThreeFields("key", DStr(key), "fact", FactDoc(fact), "idempotency_key", DStr(k));
      RowReads(j, key, fact);
    case UpsertFactWithEmbedding(key, fact, embedding) =>
      FactDocSound(fact);
      ArrayDocSound(embedding);
      FloatDocsSound(embedding);
      ThreeFields("key", DStr(key), "fact", FactDoc(fact), "embedding", DArr(FloatDocs(embedding)));
      RowReads(j, key, fact);
    case ReplaceFact(key, fact) =>
      FactDocSound(fact);
      TwoFields("key", DStr(key), "fact", FactDoc(fact));
      RowReads(j, key, fact);
  }

  lemma ReadRecordOf(kind: string, body: JsonValue)
    ensures ReadRecord(Obj(map[kind := body])) == ReadBody(kind, body)
  {
    var m := map[kind := body];
    assert m.Keys == {kind};
    hide ReadBody;
  }

  /** Only the parser aborts. */
  lemma ReadAbortsInJson(t: string)
    ensures ReadAborts(t) <==> Json.Parse(t) == Err(SliceAbort)
  {
    hide Json.Parse;
    if Json.Parse(t).Ok? { RecordErrors(Json.Parse(t).value); }
  }

  lemma RecordErrors(j: JsonValue)
    ensures ReadRecord(j).Err? ==> !ReadRecord(j).error.NotJson?
  {
    hide ReadBody;
    if j.Obj? && |j.fields| == 1 {
      forall k | k in j.fields ensures ReadBody(k, j.fields[k]).Err? ==> !ReadBody(k, j.fields[k]).error.NotJson? {
        BodyErrors(k, j.fields[k]);
      }
    }
  }

  lemma BodyErrors(kind: string, j: JsonValue)
    ensures ReadBody(kind, j).Err? ==> !ReadBody(kind, j).error.NotJson?
  {
    SmallErrors(j);
    RowKindErrors(j);
    hide ReadHeader, ReadVersion, ReadUpsert, ReadReplace, ReadIdempotent, ReadEmbedding, ReadPredicateEntry,
         ReadVolatilityEntry, ReadSourceWeightEntry;
  }

  lemma SmallErrors(j: JsonValue)
    ensures ReadHeader(j).Err? ==> !ReadHeader(j).error.NotJson?
    ensures ReadVersion(j).Err? ==> !ReadVersion(j).error.NotJson?
    ensures ReadPredicateEntry(j).Err? ==> !ReadPredicateEntry(j).error.NotJson?
    ensures ReadVolatilityEntry(j).Err? ==> !ReadVolatilityEntry(j).error.NotJson?
    ensures ReadSourceWeightEntry(j).Err? ==> !ReadSourceWeightEntry(j).error.NotJson?
  {
    hide Get, AsNat;
  }

  lemma RowKindErrors(j: JsonValue)
    ensures ReadUpsert(j).Err? ==> !ReadUpsert(j).error.NotJson?
    ensures ReadReplace(j).Err? ==> !ReadReplace(j).error.NotJson?
    ensures ReadIdempotent(j).Err? ==> !ReadIdempotent(j).error.NotJson?
    ensures ReadEmbedding(j).Err? ==> !ReadEmbedding(j).error.NotJson?
  {
    RowErrors(j);
    hide ReadRow, Get, ReadFloats;
  }

  lemma RowErrors(j: JsonValue)
    ensures ReadRow(j).Err? ==> !ReadRow(j).error.NotJson?
  {
    hide Get, ReadConfidence, ReadSource, ReadValue, ReadTime, ReadOptionalTime;
  }

  /**
   The codec of records: the line of a record reads back as that record exactly when the
   record is storable, and is an error, never an abort, otherwise.
   */
  lemma RecordCodec(r: Record)
    requires WritableRecord(r)
    ensures Storable(r) ==> ReadLine(RecordText(r)) == Ok(Some(r))
    ensures !Storable(r) ==> Unreadable(RecordText(r))
  {
    ReadAbortsInJson(RecordText(r));
    var body := DObj(RecordMembers(r));
    BodySound(r);
    KindAscii(r);
    hide WritableRecord, FiniteRecord, DatedRecord, Denote, Utf8.Valid, RecordMembers, Kind, Print, ReadRecord, WellFormed, Writable, Json.Parse;
    Utf8.AsciiValid(Kind(r));
    OneField(Kind(r), body);
    if FiniteRecord(r) {
      DocumentParses(RecordDoc(r));
      ReadRecordOf(Kind(r), Denote(body));
      BodyReads(r);
    } else {
      DocumentFails(RecordDoc(r));
    }
  }
}
