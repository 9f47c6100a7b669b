/**
 The text under which a predicate's cardinality and policy are stored
 (crates/core/src/contradiction.rs:51-125), and the detector that is rebuilt from it on opening
 (crates/core/src/temporal_graph.rs:494-507).
 */
module PredicateRegistry {
  import opened Prelude
  import opened Json
  import opened JsonRoundTrip
  import opened Contradictions
  import Utf8

  function CardinalityText(c: Cardinality): string
  {
    if c.Singleton? then "Singleton" else "MultiValued"
  }

  function PolicyText(p: Policy): string
  {
    match p case Allow => "Allow" case Warn => "Warn" case Reject => "Reject"
  }

  function ReadCardinality(s: string): Option<Cardinality>
  {
    if s == "Singleton" then Some(Singleton) else if s == "MultiValued" then Some(MultiValued) else None
  }

  function ReadPolicy(s: string): Option<Policy>
  {
    if s == "Allow" then Some(Allow) else if s == "Warn" then Some(Warn) else if s == "Reject" then Some(Reject) else None
  }

  function Encode(c: Cardinality, p: Policy): string
  {
    "[\"" + CardinalityText(c) + "\",\"" + PolicyText(p) + "\"]"
  }

  datatype RegistryError = NotJson(e: ParseError) | NotAPair | NotText | UnknownCardinality | UnknownPolicy

  function Decode(encoded: string): Result<(Cardinality, Policy), RegistryError>
  {
    match Json.Parse(encoded)
    case Err(e) => Err(NotJson(e))
    case Ok(j) =>
      if !j.Arr? || |j.items| != 2 then Err(NotAPair)
      else if !j.items[0].Str? || !j.items[1].Str? then Err(NotText)
      else
        match (ReadCardinality(j.items[0].s), ReadPolicy(j.items[1].s))
        case (None, _) => Err(UnknownCardinality)
        case (_, None) => Err(UnknownPolicy)
        case (Some(c), Some(p)) => Ok((c, p))
  }

  predicate Letters(s: string)
  {
    forall i :: 0 <= i < |s| ==> 'A' <= s[i] <= 'z' && s[i] != '\\'
  }

  lemma {:induction false} LettersUnescaped(s: string)
    requires Letters(s)
    ensures Escape(s) == s
  {
    if s != [] {
      LettersUnescaped(s[1..]);
      assert EscapeByte(s[0]) == [s[0]];
      assert [s[0]] + s[1..] == s;
    }
  }

  lemma TextsAreLetters(c: Cardinality, p: Policy)
    ensures Letters(CardinalityText(c)) && Utf8.Ascii(CardinalityText(c))
    ensures Letters(PolicyText(p)) && Utf8.Ascii(PolicyText(p))
  {
  }

  lemma TextsRead(c: Cardinality, p: Policy)
    ensures ReadCardinality(CardinalityText(c)) == Some(c) && ReadPolicy(PolicyText(p)) == Some(p)
  {
    assert "Singleton"[0] != "MultiValued"[0] && "Allow"[0] != "Warn"[0] && "Warn"[0] != "Reject"[0] && "Allow"[0] != "Reject"[0];
  }

  lemma PairPrinted(a: string, b: string)
    requires Letters(a) && Letters(b)
    ensures Print(DArr([DStr(a), DStr(b)])) == "[\"" + a + "\",\"" + b + "\"]"
  {
    LettersUnescaped(a);
    LettersUnescaped(b);
    hide Escape, Letters;
    var items := [DStr(a), DStr(b)];
    assert items[1..] == [DStr(b)];
    assert PrintItems(items) == Print(items[0]) + "," + PrintItems(items[1..]);
    assert PrintItems([DStr(b)]) == Quote(b);
    QuotedPair(a, b);
  }

  lemma QuotedPair(a: string, b: string)
    ensures "[" + ("\"" + a + "\"" + "," + ("\"" + b + "\"")) + "]" == "[\"" + a + "\",\"" + b + "\"]"
  {
  }

  lemma PairDenotes(a: string, b: string)
    requires Utf8.Valid(a) && Utf8.Valid(b)
    ensures WellFormed(DArr([DStr(a), DStr(b)])) && Denote(DArr([DStr(a), DStr(b)])) == Arr([Str(a), Str(b)])
  {
    hide Utf8.Valid;
    var items := [DStr(a), DStr(b)];
    var rest := items[1..];
    assert rest == [DStr(b)] && rest[1..] == [];
    assert WellFormed(DStr(a)) && WellFormed(DStr(b));
    assert WellFormedItems(rest[1..]);
    assert WellFormedItems(rest);
    assert WellFormedItems(items);
    assert Denote(DStr(a)) == Str(a) && Denote(DStr(b)) == Str(b);
    assert DenoteItems(rest[1..]) == [];
    assert DenoteItems(rest) == [Str(b)];
    assert DenoteItems(items) == [Str(a)] + DenoteItems(rest);
  }

  /** A registration reads back as it was stored. */
  lemma RegistryRoundTrip(c: Cardinality, p: Policy)
    ensures Decode(Encode(c, p)) == Ok((c, p))
  {
    var a, b := CardinalityText(c), PolicyText(p);
    TextsAreLetters(c, p);
    TextsRead(c, p);
    hide CardinalityText, PolicyText, ReadCardinality, ReadPolicy, Json.Parse, Print, Denote, Letters, Utf8.Ascii, Utf8.Valid, WellFormed;
    Utf8.AsciiValid(a);
    Utf8.AsciiValid(b);
    PairPrinted(a, b);
    PairDenotes(a, b);
    DocumentParses(DArr([DStr(a), DStr(b)]));
  }

  /** The detector that opening builds: every stored registration, or the first that cannot be read. */
  method LoadDetector(entries: map<string, string>) returns (result: Result<Detector, RegistryError>)
    ensures result.Ok? <==> forall k :: k in entries ==> Decode(entries[k]).Ok?
    ensures result.Ok? ==> fresh(result.value) && Registered(result.value, entries)
  {
    hide Decode;
    var detector := new Detector();
    var rest := entries.Keys;
    while rest != {}
      invariant rest <= entries.Keys && fresh(detector)
      invariant forall k :: k in entries && k !in rest ==> Decode(entries[k]).Ok?
      invariant detector.registry.Keys == entries.Keys - rest && detector.policies.Keys == entries.Keys - rest
      invariant forall k :: k in entries && k !in rest ==>
        Decode(entries[k]) == Ok((detector.registry[k], detector.policies[k]))
      decreases |rest|
    {
      SomeLeast(rest);
      var k :| IsLeast(k, rest);
      match Decode(entries[k]) {
        case Err(e) => return Err(e);
        case Ok(pair) => detector.Register(k, pair.0, pair.1);
      }
      rest := rest - {k};
    }
    result := Ok(detector);
  }

  /** The detector holds exactly what the entries say. */
  ghost predicate Registered(d: Detector, entries: map<string, string>)
    reads d
  {
    d.registry.Keys == entries.Keys && d.policies.Keys == entries.Keys
    && forall k :: k in entries ==> Decode(entries[k]) == Ok((d.registry[k], d.policies[k]))
  }
}
