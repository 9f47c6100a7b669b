/**
 The writers as they run (crates/core/src/json_write.rs, crates/core/src/temporal_graph.rs:131-163,
 316-351, crates/core/src/storage_append_log.rs:79-169): every call appends to a buffer.  What they
 append to it is the printed document of `Json` and `Records`.
 */
module JsonWriter {
  import opened Prelude
  import opened Decimals
  import opened Json
  import opened Facts
  import opened Records
  import FactId
  import Rfc3339

  // ---- Documents piece by piece ------------------------------------------

  /** The first `k` members with commas between them, built from the left. */
  function MembersSoFar(ms: seq<Member>, k: nat): string
    requires k <= |ms|
  {
    if k == 0 then "" else if k == 1 then PrintMember(ms[0]) else MembersSoFar(ms, k - 1) + "," + PrintMember(ms[k - 1])
  }

  lemma {:induction false} SoFarFromFirst(ms: seq<Member>, k: nat)
    requires 0 < k <= |ms|
    ensures MembersSoFar(ms, k) == if k == 1 then PrintMember(ms[0]) else PrintMember(ms[0]) + "," + MembersSoFar(ms[1..], k - 1)
  {
    hide PrintMember;
    if k > 2 {
      SoFarFromFirst(ms, k - 1);
      var first, rest, last := PrintMember(ms[0]) + ",", MembersSoFar(ms[1..], k - 2), PrintMember(ms[k - 1]);
      assert ms[1..][k - 2] == ms[k - 1];
      Associative(first, rest, ",");
      Associative(first, rest + ",", last);
    }
  }

  /** All members so far are the printed members. */
  lemma {:induction false} SoFarIsAll(ms: seq<Member>)
    ensures MembersSoFar(ms, |ms|) == PrintMembers(ms)
  {
    hide PrintMember;
    if |ms| > 0 {
      SoFarFromFirst(ms, |ms|);
      SoFarIsAll(ms[1..]);
    }
  }

  lemma NextMember(start: string, ms: seq<Member>, k: nat)
    requires k < |ms|
    ensures k == 0 ==> start + PrintMember(ms[0]) == start + MembersSoFar(ms, 1)
    ensures k > 0 ==> start + MembersSoFar(ms, k) + "," + PrintMember(ms[k]) == start + MembersSoFar(ms, k + 1)
  {
    hide PrintMember;
    if k > 0 {
      Associative(start, MembersSoFar(ms, k), ",");
      Associative(start, MembersSoFar(ms, k) + ",", PrintMember(ms[k]));
    }
  }

  /** A document is closed after its last member. */
  lemma Closed(before: string, ms: seq<Member>)
    ensures before + "{" + MembersSoFar(ms, |ms|) + "}" == before + Print(DObj(ms))
  {
    SoFarIsAll(ms);
    hide PrintMembers, MembersSoFar;
    Associative(before, "{" + PrintMembers(ms), "}");
    Associative(before, "{", PrintMembers(ms));
  }

  lemma EscapeSnoc(s: string, i: nat)
    requires i < |s|
    ensures Escape(s[..i + 1]) == Escape(s[..i]) + EscapeByte(s[i])
  {
    assert s[..i + 1] == s[..i] + [s[i]];
    EscapeConcat(s[..i], [s[i]]);
    assert [s[i]][1..] == [];
  }

  lemma {:induction false} EscapeConcat(a: string, b: string)
    ensures Escape(a + b) == Escape(a) + Escape(b)
  {
    hide EscapeByte;
    if a == [] {
      assert a + b == b;
    } else {
      assert (a + b)[1..] == a[1..] + b;
      EscapeConcat(a[1..], b);
      Associative(EscapeByte(a[0]), Escape(a[1..]), Escape(b));
    }
  }

  class Writer {
    var buffer: string

    constructor ()
      ensures buffer == ""
    {
      buffer := "";
    }

    method WriteAll(text: string)
      modifies this
      ensures buffer == old(buffer) + text
    {
      buffer := buffer + text;
    }

    /** Quote a string, escaping it byte by byte. */
    method WriteString(s: string)
      modifies this
      ensures buffer == old(buffer) + Quote(s)
    {
      hide Escape;
      WriteAll("\"");
      ghost var start := buffer;
      EscapeNothing();
      assert s[..0] == [];
      for i := 0 to |s|
        invariant buffer == start + Escape(s[..i])
      {
        EscapeSnoc(s, i);
        ghost var before := buffer;
        var c := s[i];
        if c == '"' {
          WriteAll("\\\"");
        } else if c == '\\' {
          WriteAll("\\\\");
        } else if c == '\n' {
          WriteAll("\\n");
        } else if c == '\r' {
          WriteAll("\\r");
        } else if c == '\t' {
          WriteAll("\\t");
        } else if c as int <= 0x1F {
          WriteAll("\\u00" + [HexDigit(c as int / 16), HexDigit(c as int % 16)]);
        } else {
          WriteAll([c]);
        }
        assert buffer == before + EscapeByte(c);
        Associative(start, Escape(s[..i]), EscapeByte(c));
      }
      assert s[..|s|] == s;
      WriteAll("\"");
      Associative(old(buffer), "\"", Escape(s));
      Associative(old(buffer), "\"" + Escape(s), "\"");
    }

    method WriteFloat(f: Float)
      modifies this
      ensures buffer == old(buffer) + FloatText(f)
    {
      WriteAll(FloatText(f));
    }

    method WriteNull()
      modifies this
      ensures buffer == old(buffer) + Print(DNull)
    {
      WriteAll("null");
    }

    method WriteBool(b: bool)
      modifies this
      ensures buffer == old(buffer) + Print(DBool(b))
    {
      WriteAll(if b then "true" else "false");
    }

    /** A key and its colon. */
    method WriteKey(key: string)
      modifies this
      ensures buffer == old(buffer) + (Quote(key) + ":")
    {
      hide Quote;
      WriteString(key);
      WriteAll(":");
      Associative(old(buffer), Quote(key), ":");
    }

    method WriteKvString(key: string, value: string)
      modifies this
      ensures buffer == old(buffer) + PrintMember(Member(key, DStr(value)))
    {
      hide Quote;
      WriteKey(key);
      WriteString(value);
      Associative(old(buffer), Quote(key) + ":", Quote(value));
    }

    method WriteKvFloat(key: string, value: Float)
      modifies this
      ensures buffer == old(buffer) + PrintMember(Member(key, DNum(value)))
    {
      hide Quote;
      WriteKey(key);
      WriteFloat(value);
      Associative(old(buffer), Quote(key) + ":", FloatText(value));
    }

    method WriteKvNat(key: string, value: nat)
      modifies this
      ensures buffer == old(buffer) + PrintMember(Member(key, DNum(Finite(NatNumber(value)))))
    {
      hide Quote, Decimal;
      WriteKey(key);
      WriteAll(Decimal(value));
      assert NumberText(NatNumber(value)) == Decimal(value);
      Associative(old(buffer), Quote(key) + ":", Decimal(value));
    }

    method WriteKvOptionString(key: string, value: Option<string>)
      modifies this
      ensures buffer == old(buffer) + PrintMember(Member(key, if value.None? then DNull else DStr(value.value)))
    {
      hide Quote;
      WriteKey(key);
      match value {
        case Some(s) => WriteString(s);
        case None => WriteNull();
      }
      Associative(old(buffer), Quote(key) + ":", if value.None? then "null" else Quote(value.value));
    }

    /** An instant that may be open, under its key. */
    method WriteKvTime(key: string, t: Option<Rfc3339.Timestamp>)
      modifies this
      ensures buffer == old(buffer) + PrintMember(Member(key, TimeDoc(t)))
    {
      hide Rfc3339.Format;
      WriteKvOptionString(key, if t.None? then None else Some(Rfc3339.Format(t.value)));
    }

    method WriteValue(v: Value)
      modifies this
      ensures buffer == old(buffer) + Print(ValueDoc(v))
    {
      hide Quote, PrintMember, PrintMembers, MembersSoFar, Print;
      ghost var ms := ValueDoc(v).members;
      WriteAll("{");
      ghost var start := buffer;
      NextMember(start, ms, 0);
      NextMember(start, ms, 1);
      match v {
        case Text(s) =>
          WriteKvString("type", "Text");
          WriteAll(",");
          WriteKvString("value", s);
        case Number(f) =>
          WriteKvString("type", "Number");
          WriteAll(",");
          WriteKvFloat("value", f);
        case Boolean(b) =>
          WriteKvString("type", "Boolean");
          WriteAll(",");
          WriteKvBool("value", b);
        case Entity(s) =>
          WriteKvString("type", "Entity");
          WriteAll(",");
          WriteKvString("value", s);
      }
      WriteAll("}");
      Closed(old(buffer), ms);
    }

    method WriteKvBool(key: string, value: bool)
      modifies this
      ensures buffer == old(buffer) + PrintMember(Member(key, DBool(value)))
    {
      hide Quote;
      WriteKey(key);
      WriteBool(value);
      Associative(old(buffer), Quote(key) + ":", Print(DBool(value)));
    }

    method WriteKvValue(key: string, v: Value)
      modifies this
      ensures buffer == old(buffer) + PrintMember(Member(key, ValueDoc(v)))
    {
      hide Quote, Print, ValueDoc;
      WriteKey(key);
      WriteValue(v);
      Associative(old(buffer), Quote(key) + ":", Print(ValueDoc(v)));
    }

    /** The id, the pair and the value. */
    method WriteNames(f: Fact, ghost start: string)
      requires buffer == start + MembersSoFar(FactMembers(f), 0)
      modifies this
      ensures buffer == start + MembersSoFar(FactMembers(f), 4)
    {
      hide PrintMember, MembersSoFar, Print, ValueDoc, TimeDoc, Rfc3339.Format, FactId.Text;
      ghost var ms := FactMembers(f);
      WriteKvString("id", FactId.Text(f.id));
      NothingSoFar(start, ms);
      NextMember(start, ms, 0);
      WriteAll(",");
      WriteKvString("subject", f.subject);
      NextMember(start, ms, 1);
      WriteAll(",");
      WriteKvString("predicate", f.predicate_);
      NextMember(start, ms, 2);
      WriteAll(",");
      WriteKvValue("object", f.object_);
      NextMember(start, ms, 3);
    }

    /** The two time axes. */
    method WriteTimes(f: Fact, ghost start: string)
      requires buffer == start + MembersSoFar(FactMembers(f), 4)
      modifies this
      ensures buffer == start + MembersSoFar(FactMembers(f), 8)
    {
      hide PrintMember, MembersSoFar, Print, ValueDoc, TimeDoc, Rfc3339.Format, FactId.Text;
      ghost var ms := FactMembers(f);
      WriteAll(",");
      WriteKvString("valid_from", Rfc3339.Format(f.validFrom));
      NextMember(start, ms, 4);
      WriteAll(",");
      WriteKvTime("valid_to", f.validTo);
      NextMember(start, ms, 5);
      WriteAll(",");
      WriteKvString("recorded_at", Rfc3339.Format(f.recordedAt));
      NextMember(start, ms, 6);
      WriteAll(",");
      WriteKvTime("expired_at", f.expiredAt);
      NextMember(start, ms, 7);
    }

    /** The confidence and the source. */
    method WriteOrigin(f: Fact, ghost start: string)
      requires buffer == start + MembersSoFar(FactMembers(f), 8)
      modifies this
      ensures buffer == start + MembersSoFar(FactMembers(f), 10)
    {
      hide PrintMember, MembersSoFar, Print, ValueDoc, TimeDoc, Rfc3339.Format, FactId.Text;
      ghost var ms := FactMembers(f);
      WriteAll(",");
      WriteKvFloat("confidence", f.confidence);
      NextMember(start, ms, 8);
      WriteAll(",");
      WriteKvOptionString("source", f.source);
      NextMember(start, ms, 9);
    }

    method WriteFact(f: Fact)
      modifies this
      ensures buffer == old(buffer) + Print(FactDoc(f))
    {
      hide MembersSoFar, Print, FactMembers;
      WriteAll("{");
      ghost var start := buffer;
      NothingSoFar(start, FactMembers(f));
      WriteNames(f, start);
      WriteTimes(f, start);
      WriteOrigin(f, start);
      WriteAll("}");
      FactMembersCount(f);
      Closed(old(buffer), FactMembers(f));
    }

    method WriteKvFact(key: string, f: Fact)
      modifies this
      ensures buffer == old(buffer) + PrintMember(Member(key, FactDoc(f)))
    {
      hide Quote, Print, FactDoc;
      WriteKey(key);
      WriteFact(f);
      Associative(old(buffer), Quote(key) + ":", Print(FactDoc(f)));
    }

    method WriteKvFloats(key: string, fs: seq<Float>)
      modifies this
      ensures buffer == old(buffer) + PrintMember(Member(key, DArr(FloatDocs(fs))))
    {
      hide Quote, PrintItems, FloatText, Print, FloatDocs;
      WriteKey(key);
      WriteAll("[");
      ghost var start := buffer;
      for i := 0 to |fs|
        invariant buffer == start + FloatsSoFar(fs, i)
      {
        if i > 0 {
          WriteAll(",");
        }
        WriteFloat(fs[i]);
        NextFloat(start, fs, i);
      }
      WriteAll("]");
      FloatsClosed(old(buffer), key, fs);
    }

    /** The line of a record: its kind, then its fields. */
    method WriteRecord(r: Record)
      modifies this
      ensures buffer == old(buffer) + RecordText(r)
    {
      hide Quote, PrintMember, PrintMembers, MembersSoFar, Print, FactDoc, FloatDocs, NatNumber, Kind;
      ghost var ms := RecordMembers(r);
      WriteAll("{" + Quote(Kind(r)) + ":{");
      ghost var start := buffer;
      NextMember(start, ms, 0);
      if |ms| > 1 { NextMember(start, ms, 1); }
      if |ms| > 2 { NextMember(start, ms, 2); }
      match r {
        case Header(magic) =>
          WriteKvString("magic", magic);
        case SchemaVersion(version) =>
          WriteKvNat("version", version);
        case PredicateEntry(name, encoded) =>
          WriteKvString("predicate", name);
          WriteAll(",");
          WriteKvString("encoded", encoded);
        case VolatilityEntry(name, encoded) =>
          WriteKvString("predicate", name);
          WriteAll(",");
          WriteKvString("encoded", encoded);
        case SourceWeightEntry(name, encoded) =>
          WriteKvString("source", name);
          WriteAll(",");
          WriteKvString("encoded", encoded);
        case UpsertFact(key, fact) =>
          WriteKvString("key", key);
          WriteAll(",");
          WriteKvFact("fact", fact);
        case UpsertFactAndIdempotency(key, fact, idempotencyKey) =>
          WriteKvString("key", key);
          WriteAll(",");
          WriteKvFact("fact", fact);
          WriteAll(",");
          WriteKvString("idempotency_key", idempotencyKey);
        case UpsertFactWithEmbedding(key, fact, embedding) =>
          WriteKvString("key", key);
          WriteAll(",");
          WriteKvFact("fact", fact);
          WriteAll(",");
          WriteKvFloats("embedding", embedding);
        case ReplaceFact(key, fact) =>
          WriteKvString("key", key);
          WriteAll(",");
          WriteKvFact("fact", fact);
      }
      assert buffer == start + MembersSoFar(ms, |ms|);
      WriteAll("}}");
      RecordClosed(old(buffer), r);
    }
  }

  lemma NothingSoFar(start: string, ms: seq<Member>)
    ensures start == start + MembersSoFar(ms, 0)
  {
  }

  lemma FactMembersCount(f: Fact)
    ensures |FactMembers(f)| == 10
  {
  }

  lemma EscapeNothing()
    ensures Escape("") == ""
  {
  }

  function FloatsSoFar(fs: seq<Float>, k: nat): string
    requires k <= |fs|
  {
    if k == 0 then "" else if k == 1 then FloatText(fs[0]) else FloatsSoFar(fs, k - 1) + "," + FloatText(fs[k - 1])
  }

  lemma NextFloat(start: string, fs: seq<Float>, k: nat)
    requires k < |fs|
    ensures k == 0 ==> start + FloatsSoFar(fs, 0) + FloatText(fs[0]) == start + FloatsSoFar(fs, 1)
    ensures k > 0 ==> start + FloatsSoFar(fs, k) + "," + FloatText(fs[k]) == start + FloatsSoFar(fs, k + 1)
  {
    hide FloatText;
    if k > 0 {
      Associative(start, FloatsSoFar(fs, k), ",");
      Associative(start, FloatsSoFar(fs, k) + ",", FloatText(fs[k]));
    }
  }

  lemma {:induction false} FloatsFromFirst(fs: seq<Float>, k: nat)
    requires 0 < k <= |fs|
    ensures FloatsSoFar(fs, k) == if k == 1 then FloatText(fs[0]) else FloatText(fs[0]) + "," + FloatsSoFar(fs[1..], k - 1)
  {
    hide FloatText;
    if k > 2 {
      FloatsFromFirst(fs, k - 1);
      var first, rest, last := FloatText(fs[0]) + ",", FloatsSoFar(fs[1..], k - 2), FloatText(fs[k - 1]);
      assert fs[1..][k - 2] == fs[k - 1];
      Associative(first, rest, ",");
      Associative(first, rest + ",", last);
    }
  }

  lemma {:induction false} FloatsAreItems(fs: seq<Float>)
    ensures FloatsSoFar(fs, |fs|) == PrintItems(FloatDocs(fs))
  {
    hide FloatText;
    if |fs| > 0 {
      FloatsFromFirst(fs, |fs|);
      FloatsAreItems(fs[1..]);
      assert FloatDocs(fs)[1..] == FloatDocs(fs[1..]);
    }
  }

  lemma FloatsClosed(before: string, key: string, fs: seq<Float>)
    ensures before + (Quote(key) + ":") + "[" + FloatsSoFar(fs, |fs|) + "]" == before + PrintMember(Member(key, DArr(FloatDocs(fs))))
  {
    FloatsAreItems(fs);
    hide Quote, PrintItems, FloatsSoFar, FloatDocs;
    var k, items := Quote(key) + ":", PrintItems(FloatDocs(fs));
    Associative(before + k, "[" + items, "]");
    Associative(before + k, "[", items);
    Associative(before, k, "[" + items + "]");
  }

  lemma RecordClosed(before: string, r: Record)
    ensures var ms := RecordMembers(r);
      before + ("{" + Quote(Kind(r)) + ":{") + MembersSoFar(ms, |ms|) + "}}" == before + RecordText(r)
  {
    var ms := RecordMembers(r);
    SoFarIsAll(ms);
    OuterText(Kind(r), DObj(ms));
    hide RecordMembers, Kind, Quote, PrintMembers, MembersSoFar;
    BracesNest(before, Quote(Kind(r)), PrintMembers(ms));
  }

  lemma OuterText(kind: string, d: Doc)
    ensures Print(DObj([Member(kind, d)])) == "{" + (Quote(kind) + ":" + Print(d)) + "}"
  {
    var m := Member(kind, d);
    assert PrintMembers([m]) == PrintMember(m);
  }

  lemma BracesNest(before: string, k: string, inner: string)
    ensures before + ("{" + k + ":{") + inner + "}}" == before + ("{" + (k + ":" + ("{" + inner + "}")) + "}")
  {
  }
}
