/**
 The parser of crates/core/src/json_read.rs as it runs: a position that moves over the input.
 Each method does what the function of the same name in `Json` says of the text that remains, so
 it stops, and never moves past the end.
 */
module JsonParser {
  import opened Prelude
  import opened Decimals
  import opened Json
  import Utf8

  /** A result agrees with what parsing the remaining text gives, and leaves what that leaves. */
  predicate Agrees<T(==)>(got: Result<T, ParseError>, want: Parsed<T>, rest: string)
  {
    match want
    case Bad(e) => got == Err(e)
    case Got(v, u) => got == Ok(v) && rest == u
  }

  datatype Next = Comma | Close | Neither

  function NextOf(t: string, close: char): (n: Next)
    ensures !n.Neither? ==> t != []
  {
    if t != [] && t[0] == ',' then Comma else if t != [] && t[0] == close then Close else Neither
  }

  /** A parsed text with something in front. */
  function After(s: string, p: Parsed<string>): Parsed<string>
  {
    match p case Bad(e) => Bad(e) case Got(x, u) => Got(s + x, u)
  }

  lemma AfterTwice(a: string, b: string, p: Parsed<string>)
    ensures After(a, After(b, p)) == After(a + b, p)
  {
    if p.Got? { Associative(a, b, p.value); }
  }

  lemma AfterNothing(p: Parsed<string>)
    ensures After("", p) == p
  {
    if p.Got? { assert "" + p.value == p.value; }
  }

  lemma Tail(input: string, pos: nat)
    requires pos < |input|
    ensures input[pos..][0] == input[pos] && input[pos..][1..] == input[pos + 1..]
  {
  }

  lemma BodyStep(t: string)
    requires t != []
    ensures t[0] == '"' ==> ParseBody(t) == Got("", t[1..])
    ensures t[0] != '"' && t[0] != '\\' ==> ParseBody(t) == After([t[0]], ParseBody(t[1..]))
    ensures t[0] == '\\' ==>
      ParseBody(t) == match ParseEscape(t[1..]) case Bad(e) => Bad(e) case Got(c, u) => After(c, ParseBody(u))
  {
    hide ParseEscape;
  }

  class Parser {
    const input: string
    var pos: nat

    constructor (text: string)
      ensures input == text && pos == 0
    {
      input, pos := text, 0;
    }

    predicate Valid()
      reads this
    {
      pos <= |input|
    }

    function Rest(): string
      requires Valid()
      reads this
    {
      input[pos..]
    }

    predicate NextIs(c: char)
      reads this
    {
      pos < |input| && input[pos] == c
    }

    method Skip()
      requires Valid()
      modifies this
      ensures Valid() && pos >= old(pos) && Rest() == SkipSpace(old(Rest()))
    {
      while pos < |input| && IsSpace(input[pos])
        invariant Valid() && pos >= old(pos) && SkipSpace(Rest()) == SkipSpace(old(Rest()))
      {
        Tail(input, pos);
        pos := pos + 1;
      }
      if pos < |input| { Tail(input, pos); }
    }

    /** Digits from here on, at least one. */
    method ConsumeDigits() returns (ok: bool)
      requires Valid()
      modifies this
      ensures Valid() && pos == old(pos) + DigitRun(old(Rest())) && ok == (DigitRun(old(Rest())) > 0)
    {
      var start := pos;
      while pos < |input| && IsDigit(input[pos])
        invariant Valid() && start <= pos && (pos - start) + DigitRun(Rest()) == DigitRun(old(Rest()))
      {
        Tail(input, pos);
        pos := pos + 1;
      }
      ok := pos > start;
    }

    method ParseUnicodeEscape() returns (r: Result<nat, ParseError>)
      requires Valid()
      modifies this
      ensures Valid() && pos >= old(pos) && Agrees(r, ParseHex4(old(Rest())), Rest())
    {
      var start := pos;
      if pos + 4 > |input| {
        return Err(Syntax);
      }
      if pos + 4 < |input| && Utf8.IsContinuation(input[pos + 4]) {
        return Err(SliceAbort);
      }
      var hex := input[start..start + 4];
      assert hex == Rest()[..4] && Rest()[4..] == input[pos + 4..];
      pos := pos + 4;
      match HexNumber(hex) {
        case None => r := Err(Syntax);
        case Some(n) => r := Ok(n);
      }
    }

    /** What follows `\u`. */
    method ParseCodePoint() returns (r: Result<string, ParseError>)
      requires Valid()
      modifies this
      ensures Valid() && pos >= old(pos) && Agrees(r, ParseUnicode(old(Rest())), Rest())
    {
      hide ParseHex4, Utf8.Encode;
      var cp :- ParseUnicodeEscape();
      if 0xD800 <= cp <= 0xDBFF {
        ghost var u := Rest();
        if !NextIs('\\') {
          return Err(Syntax);
        }
        pos := pos + 1;
        if !NextIs('u') {
          return Err(Syntax);
        }
        pos := pos + 1;
        assert u[0] == '\\' && u[1] == 'u' && u[2..] == Rest();
        var low :- ParseUnicodeEscape();
        if !(0xDC00 <= low <= 0xDFFF) {
          return Err(Syntax);
        }
        return Ok(Utf8.Encode(0x10000 + (cp - 0xD800) * 0x400 + (low - 0xDC00)));
      }
      if !Utf8.IsScalar(cp) {
        return Err(Syntax);
      }
      return Ok(Utf8.Encode(cp));
    }

    /** The escape after a backslash. */
    method ParseEscaped() returns (r: Result<string, ParseError>)
      requires Valid()
      modifies this
      ensures Valid() && pos >= old(pos) && Agrees(r, ParseEscape(old(Rest())), Rest())
    {
      hide ParseUnicode;
      if pos == |input| {
        return Err(Syntax);
      }
      Tail(input, pos);
      var c := input[pos];
      pos := pos + 1;
      if c == '"' {
        return Ok("\"");
      } else if c == '\\' {
        return Ok("\\");
      } else if c == '/' {
        return Ok("/");
      } else if c == 'n' {
        return Ok("\n");
      } else if c == 'r' {
        return Ok("\r");
      } else if c == 't' {
        return Ok("\t");
      } else if c == 'b' {
        return Ok([8 as char]);
      } else if c == 'f' {
        return Ok([12 as char]);
      } else if c == 'u' {
        r := ParseCodePoint();
      } else {
        return Err(Syntax);
      }
    }

    /** Copy up to the next quote, backslash or end at once. */
    method CopyRun(result0: string) returns (result: string)
      requires Valid()
      modifies this
      ensures Valid() && pos >= old(pos) && (pos < |input| ==> input[pos] == '"' || input[pos] == '\\')
      ensures After(result, ParseBody(Rest())) == After(result0, ParseBody(old(Rest())))
    {
      hide ParseBody, After;
      var runStart := pos;
      assert result0 + input[runStart..pos] == result0;
      while pos < |input| && input[pos] != '"' && input[pos] != '\\'
        invariant Valid() && runStart <= pos
        invariant After(result0 + input[runStart..pos], ParseBody(Rest())) == After(result0, ParseBody(old(Rest())))
      {
        Tail(input, pos);
        BodyStep(Rest());
        AfterTwice(result0 + input[runStart..pos], [input[pos]], ParseBody(input[pos + 1..]));
        assert result0 + input[runStart..pos] + [input[pos]] == result0 + input[runStart..pos + 1];
        pos := pos + 1;
      }
      result := if pos > runStart then result0 + input[runStart..pos] else result0;
    }

    method ParseString() returns (r: Result<string, ParseError>)
      requires Valid()
      modifies this
      ensures Valid() && pos >= old(pos) && Agrees(r, Json.ParseString(old(Rest())), Rest())
    {
      hide ParseBody, ParseEscape, After;
      if !NextIs('"') {
        return Err(Syntax);
      }
      Tail(input, pos);
      pos := pos + 1;
      var result := "";
      AfterNothing(ParseBody(Rest()));
      while true
        invariant Valid() && pos > old(pos)
        invariant After(result, ParseBody(Rest())) == Json.ParseString(old(Rest()))
        decreases |input| - pos
      {
        result := CopyRun(result);
        if pos == |input| {
          NoBody();
          return Err(Syntax);
        }
        Tail(input, pos);
        BodyStep(Rest());
        var c := input[pos];
        pos := pos + 1;
        if c == '"' {
          AfterEmpty(result, Rest());
          return Ok(result);
        }
        AfterBad(result);
        var escaped :- ParseEscaped();
        AfterTwice(result, escaped, ParseBody(Rest()));
        result := result + escaped;
      }
    }

    method ParseNumber() returns (r: Result<JsonValue, ParseError>)
      requires Valid()
      modifies this
      ensures Valid() && pos >= old(pos)
      ensures match Json.ParseNumber(old(Rest())) case Bad(e) => r == Err(e) case Got(n, u) => r == Ok(Num(n)) && Rest() == u
    {
      var negative := NextIs('-');
      if negative {
        Tail(input, pos);
        pos := pos + 1;
      }
      var whole :- ScanWhole();
      var fraction :- ScanFraction();
      var exponent :- ScanExponent();
      r := Ok(Num(NumberToken(negative, whole, fraction, exponent)));
    }

    method ScanWhole() returns (r: Result<string, ParseError>)
      requires Valid()
      modifies this
      ensures Valid() && pos >= old(pos) && Agrees(r, ParseWhole(old(Rest())), Rest())
    {
      hide DigitRun, ParseWhole;
      var start := pos;
      WholeCases(Rest());
      if pos < |input| { Tail(input, pos); }
      if NextIs('0') {
        pos := pos + 1;
        assert input[start..pos] == "0";
      } else {
        var ok := ConsumeDigits();
        if !ok {
          return Err(Syntax);
        }
        Advanced(input, start, pos);
      }
      r := Ok(input[start..pos]);
    }

    method ScanFraction() returns (r: Result<string, ParseError>)
      requires Valid()
      modifies this
      ensures Valid() && pos >= old(pos) && Agrees(r, ParseFraction(old(Rest())), Rest())
    {
      hide ParseFraction, DigitRun;
      var start := pos;
      FractionCases(Rest());
      if pos < |input| { Tail(input, pos); }
      if !NextIs('.') {
        return Ok("");
      }
      pos := pos + 1;
      ghost var n := DigitRun(Rest());
      var ok := ConsumeDigits();
      if !ok {
        return Err(Syntax);
      }
      Sliced(input, start, 1, n);
      r := Ok(input[start..pos]);
    }

    method ScanExponent() returns (r: Result<string, ParseError>)
      requires Valid()
      modifies this
      ensures Valid() && pos >= old(pos) && Agrees(r, ParseExponent(old(Rest())), Rest())
    {
      hide ParseExponent, SignedRun;
      var start := pos;
      ExponentCases(Rest());
      if pos < |input| { Tail(input, pos); }
      if !NextIs('e') && !NextIs('E') {
        return Ok("");
      }
      pos := pos + 1;
      ghost var n := SignedRun(Rest());
      var ok := ConsumeSigned();
      if !ok {
        return Err(Syntax);
      }
      Sliced(input, start, 1, n.value);
      r := Ok(input[start..pos]);
    }

    /** An optional sign, then digits. */
    method ConsumeSigned() returns (ok: bool)
      requires Valid()
      modifies this
      ensures Valid() && pos >= old(pos) && ok == SignedRun(old(Rest())).Some?
      ensures ok ==> pos == old(pos) + SignedRun(old(Rest())).value
    {
      hide DigitRun;
      if pos < |input| { Tail(input, pos); }
      if NextIs('+') || NextIs('-') {
        pos := pos + 1;
      } else {
        assert Rest()[0..] == Rest();
      }
      ok := ConsumeDigits();
    }

    method ParseLiteral(word: string, value: JsonValue) returns (r: Result<JsonValue, ParseError>)
      requires Valid() && word != []
      modifies this
      ensures Valid() && pos >= old(pos) && Agrees(r, Json.ParseLiteral(old(Rest()), word, value), Rest())
    {
      if word <= input[pos..] {
        assert input[pos..][|word|..] == input[pos + |word|..];
        pos := pos + |word|;
        return Ok(value);
      }
      return Err(Syntax);
    }

    method ParseValue() returns (r: Result<JsonValue, ParseError>)
      requires Valid()
      modifies this
      ensures Valid() && pos >= old(pos) && Agrees(r, Json.ParseValue(old(Rest())), Rest())
      decreases |input| - pos, 1
    {
      hide Json.ParseString, Json.ParseObject, Json.ParseArray, Json.ParseNumber, Json.ParseLiteral, SkipSpace;
      Skip();
      if pos == |input| {
        return Err(Syntax);
      }
      var c := input[pos];
      if c == '"' {
        var s :- ParseString();
        return Ok(Str(s));
      } else if c == '{' {
        r := ParseObject();
      } else if c == '[' {
        r := ParseArray();
      } else if c == 't' {
        r := ParseLiteral("true", Bool(true));
      } else if c == 'f' {
        r := ParseLiteral("false", Bool(false));
      } else if c == 'n' {
        r := ParseLiteral("null", Null);
      } else if c == '-' || IsDigit(c) {
        r := ParseNumber();
      } else {
        return Err(Syntax);
      }
    }

    /** After an entry of an object or array: a comma or the closing bracket. */
    method AfterEntry(close: char) returns (next: Next)
      requires Valid() && close != ','
      modifies this
      ensures Valid() && pos >= old(pos) && next == NextOf(SkipSpace(old(Rest())), close)
      ensures !next.Neither? ==> pos > old(pos) && Rest() == SkipSpace(old(Rest()))[1..]
    {
      hide SkipSpace;
      Skip();
      if pos < |input| { Tail(input, pos); }
      if NextIs(',') {
        pos := pos + 1;
        return Comma;
      } else if NextIs(close) {
        pos := pos + 1;
        return Close;
      }
      return Neither;
    }

    /** A key, a colon and a value. */
    method ParseField() returns (r: Result<(string, JsonValue), ParseError>)
      requires Valid()
      modifies this
      ensures Valid() && pos >= old(pos) && Agrees(r, FieldOf(old(Rest())), Rest())
      decreases |input| - pos, 2
    {
      hide Json.ParseString, Json.ParseValue, SkipSpace;
      Skip();
      var key :- ParseString();
      Skip();
      if pos < |input| { Tail(input, pos); }
      if !NextIs(':') {
        return Err(Syntax);
      }
      pos := pos + 1;
      var value :- ParseValue();
      r := Ok((key, value));
    }

    method ParseObject() returns (r: Result<JsonValue, ParseError>)
      requires Valid() && NextIs('{')
      modifies this
      ensures Valid() && pos >= old(pos) && Agrees(r, Json.ParseObject(old(Rest())), Rest())
      decreases |input| - pos, 0
    {
      hide Json.ParseObject, ParseMembers, SkipSpace, FieldOf, NextOf;
      ObjectUnfolds(Rest());
      Tail(input, pos);
      pos := pos + 1;
      Skip();
      var fields: map<string, JsonValue> := map[];
      if pos < |input| { Tail(input, pos); }
      if NextIs('}') {
        pos := pos + 1;
        return Ok(Obj(fields));
      }
      while true
        invariant Valid() && pos > old(pos)
        invariant ParseMembers(Rest(), fields) == Json.ParseObject(old(Rest()))
        decreases |input| - pos
      {
        MembersUnfold(Rest(), fields);
        var field :- ParseField();
        fields := fields[field.0 := field.1];
        var next := AfterEntry('}');
        match next {
          case Comma =>
          case Close => return Ok(Obj(fields));
          case Neither => return Err(Syntax);
        }
      }
    }

    method ParseArray() returns (r: Result<JsonValue, ParseError>)
      requires Valid() && NextIs('[')
      modifies this
      ensures Valid() && pos >= old(pos) && Agrees(r, Json.ParseArray(old(Rest())), Rest())
      decreases |input| - pos, 0
    {
      hide Json.ParseValue, Json.ParseArray, ParseItems, SkipSpace, NextOf;
      ArrayUnfolds(Rest());
      Tail(input, pos);
      pos := pos + 1;
      Skip();
      var items: seq<JsonValue> := [];
      if pos < |input| { Tail(input, pos); }
      if NextIs(']') {
        pos := pos + 1;
        return Ok(Arr(items));
      }
      while true
        invariant Valid() && pos > old(pos)
        invariant ParseItems(Rest(), items) == Json.ParseArray(old(Rest()))
        decreases |input| - pos
      {
        ItemsUnfold(Rest(), items);
        var value :- ParseValue();
        items := items + [value];
        var next := AfterEntry(']');
        match next {
          case Comma =>
          case Close => return Ok(Arr(items));
          case Neither => return Err(Syntax);
        }
      }
    }
  }

  lemma ObjectUnfolds(t: string)
    requires t != [] && t[0] == '{'
    ensures var u := SkipSpace(t[1..]);
      Json.ParseObject(t) == if u != [] && u[0] == '}' then Got(Obj(map[]), u[1..]) else ParseMembers(u, map[])
  {
    hide ParseMembers, SkipSpace;
  }

  lemma ArrayUnfolds(t: string)
    requires t != [] && t[0] == '['
    ensures var u := SkipSpace(t[1..]);
      Json.ParseArray(t) == if u != [] && u[0] == ']' then Got(Arr([]), u[1..]) else ParseItems(u, [])
  {
    hide ParseItems, SkipSpace;
  }

  /** What stands after a value inside brackets: a comma, the closing bracket, or neither. */
  lemma ItemsUnfold(t: string, items: seq<JsonValue>)
    ensures Json.ParseValue(t).Bad? ==> ParseItems(t, items) == Bad(Json.ParseValue(t).error)
    ensures Json.ParseValue(t).Got? ==>
      var x := SkipSpace(Json.ParseValue(t).rest); var longer := items + [Json.ParseValue(t).value];
      ParseItems(t, items)
      == match NextOf(x, ']')
         case Comma => ParseItems(x[1..], longer)
         case Close => Got(Arr(longer), x[1..])
         case Neither => Bad(Syntax)
  {
    hide Json.ParseValue, SkipSpace;
  }

  function FieldOf(t: string): (r: Parsed<(string, JsonValue)>)
    ensures r.Got? ==> |r.rest| < |t|
  {
    match Json.ParseString(SkipSpace(t))
    case Bad(e) => Bad(e)
    case Got(key, u) =>
      var v := SkipSpace(u);
      if v == [] || v[0] != ':' then Bad(Syntax)
      else match Json.ParseValue(v[1..])
        case Bad(e) => Bad(e)
        case Got(value, w) => Got((key, value), w)
  }

  /** A field and what stands after it. */
  lemma MembersUnfold(t: string, fields: map<string, JsonValue>)
    ensures FieldOf(t).Bad? ==> ParseMembers(t, fields) == Bad(FieldOf(t).error)
    ensures FieldOf(t).Got? ==>
      var x := SkipSpace(FieldOf(t).rest); var longer := fields[FieldOf(t).value.0 := FieldOf(t).value.1];
      ParseMembers(t, fields)
      == match NextOf(x, '}')
         case Comma => ParseMembers(x[1..], longer)
         case Close => Got(Obj(longer), x[1..])
         case Neither => Bad(Syntax)
  {
    hide Json.ParseValue, Json.ParseString, SkipSpace;
  }

  lemma WholeCases(t: string)
    ensures t != [] && t[0] == '0' ==> ParseWhole(t) == Got("0", t[1..])
    ensures t == [] || t[0] != '0' ==>
      ParseWhole(t) == if DigitRun(t) == 0 then Bad(Syntax) else Got(t[..DigitRun(t)], t[DigitRun(t)..])
  {
    hide DigitRun;
  }

  /** How far an optional sign and the digits after it reach, if there are digits. */
  function SignedRun(t: string): (n: Option<nat>)
    ensures n.Some? ==> n.value <= |t|
  {
    var k := if t != [] && (t[0] == '+' || t[0] == '-') then 1 else 0;
    if DigitRun(t[k..]) == 0 then None else Some(k + DigitRun(t[k..]))
  }

  lemma ExponentCases(t: string)
    ensures t == [] || (t[0] != 'e' && t[0] != 'E') ==> ParseExponent(t) == Got("", t)
    ensures t != [] && (t[0] == 'e' || t[0] == 'E') ==>
      ParseExponent(t) == match SignedRun(t[1..]) case None => Bad(Syntax) case Some(n) => Got(t[..1 + n], t[1 + n..])
  {
    hide DigitRun;
    if t != [] {
      assert |t| < 2 || t[1..][1..] == t[2..];
      assert t[1..][0..] == t[1..];
    }
  }

  lemma NoBody()
    ensures ParseBody("") == Bad(Syntax) && forall s :: After(s, Bad(Syntax)) == Bad(Syntax)
  {
  }

  lemma AfterEmpty(s: string, u: string)
    ensures After(s, Got("", u)) == Got(s, u)
  {
    assert s + "" == s;
  }

  lemma AfterBad(s: string)
    ensures forall e :: After(s, Bad(e)) == Bad(e)
  {
  }

  lemma Advanced(input: string, start: nat, pos: nat)
    requires start <= pos <= |input|
    ensures input[start..][..pos - start] == input[start..pos] && input[start..][pos - start..] == input[pos..]
  {
  }

  lemma Sliced(input: string, start: nat, k: nat, n: nat)
    requires start + k + n <= |input|
    ensures var t := input[start..];
      t[k..] == input[start + k..] && t[..k + n] == input[start..start + k + n] && t[k + n..] == input[start + k + n..]
  {
  }

  lemma FractionCases(t: string)
    ensures t == [] || t[0] != '.' ==> ParseFraction(t) == Got("", t)
    ensures t != [] && t[0] == '.' ==>
      var n := DigitRun(t[1..]); ParseFraction(t) == if n == 0 then Bad(Syntax) else Got(t[..1 + n], t[1 + n..])
  {
    hide DigitRun;
  }

  /** `JsonValue::parse`. */
  method ParseJson(text: string) returns (r: Result<JsonValue, ParseError>)
    ensures r == Json.Parse(text)
  {
    hide Json.ParseValue, SkipSpace, Utf8.Valid;
    if !Utf8.Valid(text) {
      return Err(NotUtf8);
    }
    var parser := new Parser(text);
    assert parser.Rest() == text;
    var value :- parser.ParseValue();
    parser.Skip();
    if parser.pos < |text| {
      return Err(TrailingData);
    }
    return Ok(value);
  }
}
