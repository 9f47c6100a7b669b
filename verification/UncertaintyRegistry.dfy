/**
 The texts under which volatilities and source weights are stored
 (crates/core/src/uncertainty.rs:25-134), and the engine that is rebuilt from them on opening
 (crates/core/src/temporal_graph.rs:508-533).  What is computed from them is not modelled.
 */
module UncertaintyRegistry {
  import opened Prelude
  import opened Json
  import opened JsonRoundTrip
  import Contradictions
  import Decimals
  import PredicateRegistry
  import Records
  import RecordRoundTrip
  import Utf8

  /** How fast facts go stale: a positive half-life in days, or never. */
  datatype Volatility = HalfLife(days: NumberToken) | Stable

  const TWO := NumberToken(false, "2", "", "")
  const ZERO := NumberToken(false, "0", "", "")

  function VolatilityOf(days: NumberToken): Volatility
  {
    if Contradictions.NumberValue(days) > 0.0 then HalfLife(days) else Stable
  }

  /** A weight brought into `[0, 2]`. */
  function WeightOf(n: NumberToken): NumberToken
  {
    if Contradictions.NumberValue(n) < 0.0 then ZERO else if Contradictions.NumberValue(n) > 2.0 then TWO else n
  }

  function Lower(c: char): char
  {
    if 'A' <= c <= 'Z' then c - 'A' + 'a' else c
  }

  function LowerAll(s: string): string
  {
    if s == [] then [] else [Lower(s[0])] + LowerAll(s[1..])
  }

  datatype EntryError = NotJson(e: ParseError) | Missing | BadHalfLife

  function ReadVolatility(encoded: string): Result<Volatility, EntryError>
  {
    match Json.Parse(encoded)
    case Err(e) => Err(NotJson(e))
    case Ok(j) =>
      match Records.Get(j, "half_life_days")
      case None => Err(Missing)
      case Some(Str(s)) => if LowerAll(s) == "inf" || LowerAll(s) == "infinity" then Ok(Stable) else Err(BadHalfLife)
      case Some(Num(n)) => Ok(VolatilityOf(n))
      case Some(Null) => Ok(Stable)
      case Some(_) => Err(BadHalfLife)
  }

  function ReadWeight(encoded: string): Result<NumberToken, EntryError>
  {
    match Json.Parse(encoded)
    case Err(e) => Err(NotJson(e))
    case Ok(j) => match Records.Get(j, "weight") case Some(Num(n)) => Ok(WeightOf(n)) case _ => Err(Missing)
  }

  function VolatilityText(v: Volatility): string
  {
    match v
    case HalfLife(days) => "{\"half_life_days\":" + NumberText(days) + "}"
    case Stable => "{\"half_life_days\":\"inf\"}"
  }

  function WeightText(n: NumberToken): string
  {
    "{\"weight\":" + NumberText(n) + "}"
  }

  // ---- Round trips -------------------------------------------------------

  lemma OneFieldPrinted(name: string, d: Doc)
    requires PredicateRegistry.Letters(name)
    ensures Print(DObj([Member(name, d)])) == "{\"" + name + "\":" + Print(d) + "}"
  {
    PredicateRegistry.LettersUnescaped(name);
    hide Escape, PredicateRegistry.Letters;
    assert PrintMember(Member(name, d)) == Quote(name) + ":" + Print(d);
    assert PrintMembers([Member(name, d)]) == PrintMember(Member(name, d));
  }

  lemma OneFieldParses(name: string, d: Doc)
    requires PredicateRegistry.Letters(name) && Utf8.Ascii(name) && WellFormed(d)
    ensures var parsed := Json.Parse("{\"" + name + "\":" + Print(d) + "}");
      parsed.Ok? && Records.Get(parsed.value, name) == Some(Denote(d))
  {
    OneFieldPrinted(name, d);
    Utf8.AsciiValid(name);
    var members := [Member(name, d)];
    RecordRoundTrip.GetAt(members, 0);
    hide Utf8.Valid, Print, Denote, Json.Parse, WellFormed, PredicateRegistry.Letters, Utf8.Ascii, Records.Get;
    OneFieldWellFormed(name, d);
    DocumentParses(DObj(members));
  }

  lemma OneFieldWellFormed(name: string, d: Doc)
    requires Utf8.Valid(name) && WellFormed(d)
    ensures WellFormed(DObj([Member(name, d)]))
  {
    hide Utf8.Valid;
    var members := [Member(name, d)];
    assert WellFormedMembers(members[1..]);
    assert WellFormedMembers(members);
  }

  lemma NamesPlain()
    ensures PredicateRegistry.Letters("half_life_days") && Utf8.Ascii("half_life_days")
    ensures PredicateRegistry.Letters("weight") && Utf8.Ascii("weight")
    ensures PredicateRegistry.Letters("inf") && Utf8.Ascii("inf")
  {
  }

  lemma NumberFieldParses(name: string, n: NumberToken)
    requires PredicateRegistry.Letters(name) && Utf8.Ascii(name) && WellFormedNumber(n)
    ensures var parsed := Json.Parse("{\"" + name + "\":" + NumberText(n) + "}");
      parsed.Ok? && Records.Get(parsed.value, name) == Some(Num(n))
  {
    assert Print(DNum(Finite(n))) == NumberText(n);
    assert WellFormed(DNum(Finite(n))) && Denote(DNum(Finite(n))) == Num(n);
    hide *;
    OneFieldParses(name, DNum(Finite(n)));
  }

  /** A stored volatility reads back: a positive half-life as its number, and stability by its name. */
  lemma VolatilityRoundTrip(v: Volatility)
    requires v.HalfLife? ==> WellFormedNumber(v.days) && Contradictions.NumberValue(v.days) > 0.0
    ensures ReadVolatility(VolatilityText(v)) == Ok(v)
  {
    hide VolatilityText, ReadVolatility, WellFormedNumber, Contradictions.NumberValue;
    match v
    case HalfLife(days) => HalfLifeReads(days);
    case Stable => StableReads();
  }

  lemma HalfLifeReads(days: NumberToken)
    requires WellFormedNumber(days) && Contradictions.NumberValue(days) > 0.0
    ensures ReadVolatility(VolatilityText(HalfLife(days))) == Ok(HalfLife(days))
  {
    hide Json.Parse, NumberText, WellFormedNumber, Contradictions.NumberValue, PredicateRegistry.Letters, Utf8.Ascii,
         Records.Get, LowerAll;
    NamesPlain();
    NumberFieldParses("half_life_days", days);
    assert VolatilityText(HalfLife(days)) == "{\"" + "half_life_days" + "\":" + NumberText(days) + "}";
  }

  lemma StableReads()
    ensures ReadVolatility(VolatilityText(Stable)) == Ok(Stable)
  {
    hide Json.Parse, Records.Get, VolatilityText;
    StableParses();
    assert LowerAll("inf") == "inf" by { assert "inf"[1..] == "nf" && "nf"[1..] == "f" && "f"[1..] == ""; }
  }

  lemma StableParses()
    ensures var parsed := Json.Parse(VolatilityText(Stable));
      parsed.Ok? && Records.Get(parsed.value, "half_life_days") == Some(Str("inf"))
  {
    hide *;
    NamesPlain();
    InfinityPrinted();
    StableText();
    OneFieldParses("half_life_days", DStr("inf"));
  }

  lemma StableText()
    ensures "{\"" + "half_life_days" + "\":" + "\"inf\"" + "}" == VolatilityText(Stable)
  {
  }

  lemma InfinityPrinted()
    ensures Print(DStr("inf")) == "\"inf\"" && WellFormed(DStr("inf")) && Denote(DStr("inf")) == Str("inf")
  {
    NamesPlain();
    hide Utf8.Valid, Escape, PredicateRegistry.Letters, Utf8.Ascii;
    PredicateRegistry.LettersUnescaped("inf");
    Utf8.AsciiValid("inf");
  }

  /** The same letters, capital or not. */
  predicate Spells(s: string, word: string)
  {
    |s| == |word| && forall i :: 0 <= i < |s| ==> s[i] == word[i] || s[i] as int + 32 == word[i] as int
  }

  predicate SmallLetters(s: string)
  {
    forall i :: 0 <= i < |s| ==> 'a' <= s[i] <= 'z'
  }

  lemma {:induction false} LowerSpells(s: string, word: string)
    requires SmallLetters(word)
    ensures LowerAll(s) == word <==> Spells(s, word)
  {
    if s != [] && word != [] {
      LowerSpells(s[1..], word[1..]);
      assert LowerAll(s)[1..] == LowerAll(s[1..]);
      assert word == [word[0]] + word[1..];
      assert Spells(s, word) <==> Lower(s[0]) == word[0] && Spells(s[1..], word[1..]) by { SpellsCons(s, word); }
    }
  }

  lemma SpellsCons(s: string, word: string)
    requires s != [] && word != [] && SmallLetters(word)
    ensures Spells(s, word) <==> Lower(s[0]) == word[0] && Spells(s[1..], word[1..])
  {
    if Lower(s[0]) == word[0] && Spells(s[1..], word[1..]) {
      forall i | 0 <= i < |s| ensures s[i] == word[i] || s[i] as int + 32 == word[i] as int {
        if i > 0 { assert s[1..][i - 1] == s[i] && word[1..][i - 1] == word[i]; }
      }
    }
  }

  /** A stored word is stability if it spells infinity, in full or short, and an error otherwise. */
  lemma WordReads(s: string)
    requires Utf8.Valid(s)
    ensures ReadVolatility(Print(DObj([Member("half_life_days", DStr(s))])))
      == if Spells(s, "inf") || Spells(s, "infinity") then Ok(Stable) else Err(BadHalfLife)
  {
    NamesPlain();
    LowerSpells(s, "inf");
    LowerSpells(s, "infinity");
    assert WellFormed(DStr(s)) && Denote(DStr(s)) == Str(s);
    hide LowerAll, Spells, Print, Json.Parse, Records.Get, WellFormed, Denote, PredicateRegistry.Letters, Utf8.Ascii;
    OneFieldPrinted("half_life_days", DStr(s));
    OneFieldParses("half_life_days", DStr(s));
  }

  /** And a weight in range. */
  lemma WeightRoundTrip(n: NumberToken)
    requires WellFormedNumber(n) && 0.0 <= Contradictions.NumberValue(n) <= 2.0
    ensures ReadWeight(WeightText(n)) == Ok(n)
  {
    NamesPlain();
    hide Json.Parse, NumberText, WellFormedNumber, Contradictions.NumberValue, PredicateRegistry.Letters, Utf8.Ascii, Records.Get;
    NumberFieldParses("weight", n);
    assert WeightText(n) == "{\"" + "weight" + "\":" + NumberText(n) + "}";
  }

  /** Whatever number was stored: a half-life only when it is positive, a weight the nearest in range. */
  lemma ReadNumbers(n: NumberToken)
    requires WellFormedNumber(n)
    ensures var x := Contradictions.NumberValue(n);
      ReadVolatility("{\"half_life_days\":" + NumberText(n) + "}") == Ok(if x > 0.0 then HalfLife(n) else Stable)
      && var w := ReadWeight("{\"weight\":" + NumberText(n) + "}");
         w.Ok? && Contradictions.NumberValue(w.value) == if x < 0.0 then 0.0 else if x > 2.0 then 2.0 else x
  {
    NamesPlain();
    OneDigits();
    hide Json.Parse, NumberText, WellFormedNumber, Contradictions.NumberValue, PredicateRegistry.Letters, Utf8.Ascii,
         Records.Get, LowerAll;
    NumberFieldParses("half_life_days", n);
    NumberFieldParses("weight", n);
    assert "{\"half_life_days\":" + NumberText(n) + "}" == "{\"" + "half_life_days" + "\":" + NumberText(n) + "}";
    assert "{\"weight\":" + NumberText(n) + "}" == "{\"" + "weight" + "\":" + NumberText(n) + "}";
  }

  lemma OneDigits()
    ensures Contradictions.NumberValue(ZERO) == 0.0 && Contradictions.NumberValue(TWO) == 2.0
  {
    assert "0"[..0] == "" && "2"[..0] == "";
    assert Decimals.DigitsValue("") == 0 && Decimals.DigitsValue("0") == 0 && Decimals.DigitsValue("2") == 2;
    Contradictions.NumberOfDigits(false, "0", "0");
    Contradictions.NumberOfDigits(false, "2", "0");
    hide Contradictions.NumberValue;
  }

  // ---- The engine --------------------------------------------------------

  class Engine {
    var volatilities: map<string, Volatility>
    var weights: map<string, NumberToken>

    constructor ()
      ensures volatilities == map[] && weights == map[]
    {
      volatilities, weights := map[], map[];
    }

    method RegisterVolatility(predicate_: string, v: Volatility)
      modifies this
      ensures volatilities == old(volatilities)[predicate_ := v] && weights == old(weights)
    {
      volatilities := volatilities[predicate_ := v];
    }

    method RegisterWeight(source: string, n: NumberToken)
      modifies this
      ensures weights == old(weights)[source := n] && volatilities == old(volatilities)
    {
      weights := weights[source := n];
    }
  }

  predicate Readable(volatilities: map<string, string>, weights: map<string, string>)
  {
    (forall k :: k in volatilities ==> ReadVolatility(volatilities[k]).Ok?)
    && (forall k :: k in weights ==> ReadWeight(weights[k]).Ok?)
  }

  /** The engine holds exactly what the entries say. */
  ghost predicate Loaded(engine: Engine, volatilities: map<string, string>, weights: map<string, string>)
    reads engine
  {
    engine.volatilities.Keys == volatilities.Keys && engine.weights.Keys == weights.Keys
    && (forall k :: k in volatilities ==> ReadVolatility(volatilities[k]) == Ok(engine.volatilities[k]))
    && (forall k :: k in weights ==> ReadWeight(weights[k]) == Ok(engine.weights[k]))
  }

  method LoadVolatilities(engine: Engine, entries: map<string, string>) returns (failed: Option<EntryError>)
    requires engine.volatilities == map[]
    modifies engine
    ensures failed.None? <==> forall k :: k in entries ==> ReadVolatility(entries[k]).Ok?
    ensures engine.weights == old(engine.weights)
    ensures failed.None? ==> engine.volatilities.Keys == entries.Keys
    ensures failed.None? ==> forall k :: k in entries ==> ReadVolatility(entries[k]) == Ok(engine.volatilities[k])
  {
    hide ReadVolatility;
    var rest := entries.Keys;
    while rest != {}
      invariant rest <= entries.Keys && engine.weights == old(engine.weights)
      invariant engine.volatilities.Keys == entries.Keys - rest
      invariant forall k :: k in entries && k !in rest ==> ReadVolatility(entries[k]) == Ok(engine.volatilities[k])
      decreases |rest|
    {
      SomeLeast(rest);
      var k :| IsLeast(k, rest);
      match ReadVolatility(entries[k]) {
        case Err(e) => return Some(e);
        case Ok(v) => engine.RegisterVolatility(k, v);
      }
      rest := rest - {k};
    }
    failed := None;
  }

  method LoadWeights(engine: Engine, entries: map<string, string>) returns (failed: Option<EntryError>)
    requires engine.weights == map[]
    modifies engine
    ensures failed.None? <==> forall k :: k in entries ==> ReadWeight(entries[k]).Ok?
    ensures engine.volatilities == old(engine.volatilities)
    ensures failed.None? ==> engine.weights.Keys == entries.Keys
    ensures failed.None? ==> forall k :: k in entries ==> ReadWeight(entries[k]) == Ok(engine.weights[k])
  {
    hide ReadWeight;
    var rest := entries.Keys;
    while rest != {}
      invariant rest <= entries.Keys && engine.volatilities == old(engine.volatilities)
      invariant engine.weights.Keys == entries.Keys - rest
      invariant forall k :: k in entries && k !in rest ==> ReadWeight(entries[k]) == Ok(engine.weights[k])
      decreases |rest|
    {
      SomeLeast(rest);
      var k :| IsLeast(k, rest);
      match ReadWeight(entries[k]) {
        case Err(e) => return Some(e);
        case Ok(n) => engine.RegisterWeight(k, n);
      }
      rest := rest - {k};
    }
    failed := None;
  }

  /** The engine that opening builds: every stored entry, or the first that cannot be read. */
  method LoadEngine(volatilities: map<string, string>, weights: map<string, string>)
    returns (result: Result<Engine, EntryError>)
    ensures result.Ok? <==> Readable(volatilities, weights)
    ensures result.Ok? ==> fresh(result.value) && Loaded(result.value, volatilities, weights)
  {
    hide ReadVolatility, ReadWeight;
    var engine := new Engine();
    var failed := LoadVolatilities(engine, volatilities);
    if failed.Some? {
      return Err(failed.value);
    }
    failed := LoadWeights(engine, weights);
    if failed.Some? {
      return Err(failed.value);
    }
    result := Ok(engine);
  }
}
