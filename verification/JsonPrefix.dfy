/**
 The parser decides on the bytes it has consumed: what it accepts it accepts in every longer
 text, leaving the extension over.  So no proper prefix of a document that is an object parses.
 */
module JsonPrefix {
  import opened Prelude
  import opened Decimals
  import opened Json
  import opened JsonRoundTrip
  import Utf8

  lemma {:induction false} ExtendSpace(t: string, x: string)
    requires SkipSpace(t) != []
    ensures SkipSpace(t + x) == SkipSpace(t) + x
  {
    if IsSpace(t[0]) {
      assert (t + x)[1..] == t[1..] + x;
      ExtendSpace(t[1..], x);
    }
  }

  lemma ExtendHex4(t: string, x: string)
    requires ParseHex4(t).Got? && ParseHex4(t).rest != []
    ensures ParseHex4(t + x) == Got(ParseHex4(t).value, ParseHex4(t).rest + x)
  {
    assert (t + x)[..4] == t[..4] && (t + x)[4..] == t[4..] + x;
  }

  lemma ExtendUnicode(t: string, x: string)
    requires ParseUnicode(t).Got? && ParseUnicode(t).rest != []
    ensures ParseUnicode(t + x) == Got(ParseUnicode(t).value, ParseUnicode(t).rest + x)
  {
    hide ParseHex4, Utf8.Encode;
    var u := ParseHex4(t).rest;
    if 0xD800 <= ParseHex4(t).value <= 0xDBFF {
      ExtendHex4(t, x);
      ExtendHex4(u[2..], x);
      assert (u + x)[2..] == u[2..] + x;
    } else {
      ExtendHex4(t, x);
    }
  }

  lemma ExtendEscape(t: string, x: string)
    requires ParseEscape(t).Got? && ParseEscape(t).rest != []
    ensures ParseEscape(t + x) == Got(ParseEscape(t).value, ParseEscape(t).rest + x)
  {
    assert (t + x)[1..] == t[1..] + x;
    if t[0] == 'u' { ExtendUnicode(t[1..], x); }
  }

  lemma {:induction false} ExtendBody(t: string, x: string)
    requires ParseBody(t).Got?
    ensures ParseBody(t + x) == Got(ParseBody(t).value, ParseBody(t).rest + x)
    decreases |t|
  {
    assert (t + x)[1..] == t[1..] + x;
    if t[0] == '\\' {
      ExtendEscape(t[1..], x);
      ExtendBody(ParseEscape(t[1..]).rest, x);
    } else if t[0] != '"' {
      ExtendBody(t[1..], x);
    }
  }

  lemma ExtendString(t: string, x: string)
    requires ParseString(t).Got?
    ensures ParseString(t + x) == Got(ParseString(t).value, ParseString(t).rest + x)
  {
    assert (t + x)[1..] == t[1..] + x;
    ExtendBody(t[1..], x);
  }

  lemma {:induction false} ExtendDigitRun(t: string, x: string)
    requires DigitRun(t) < |t|
    ensures DigitRun(t + x) == DigitRun(t)
  {
    if IsDigit(t[0]) {
      assert (t + x)[1..] == t[1..] + x;
      ExtendDigitRun(t[1..], x);
    }
  }

  lemma Slices(t: string, x: string, n: nat)
    requires n <= |t|
    ensures (t + x)[..n] == t[..n] && (t + x)[n..] == t[n..] + x
  {
  }

  lemma ExtendWhole(t: string, x: string)
    requires ParseWhole(t).Got? && ParseWhole(t).rest != []
    ensures ParseWhole(t + x) == Got(ParseWhole(t).value, ParseWhole(t).rest + x)
  {
    if t[0] == '0' {
      Slices(t, x, 1);
    } else {
      ExtendDigitRun(t, x);
      Slices(t, x, DigitRun(t));
    }
  }

  lemma ExtendFraction(t: string, x: string)
    requires ParseFraction(t).Got? && ParseFraction(t).rest != []
    ensures ParseFraction(t + x) == Got(ParseFraction(t).value, ParseFraction(t).rest + x)
  {
    if t[0] == '.' {
      Slices(t, x, 1);
      ExtendDigitRun(t[1..], x);
      Slices(t, x, 1 + DigitRun(t[1..]));
    }
  }

  lemma ExtendExponent(t: string, x: string)
    requires ParseExponent(t).Got? && ParseExponent(t).rest != []
    ensures ParseExponent(t + x) == Got(ParseExponent(t).value, ParseExponent(t).rest + x)
  {
    if t[0] in "eE" {
      var k := if |t| > 1 && t[1] in "+-" then 2 else 1;
      Slices(t, x, k);
      ExtendDigitRun(t[k..], x);
      Slices(t, x, k + DigitRun(t[k..]));
    }
  }

  lemma ExtendNumber(t: string, x: string)
    requires ParseNumber(t).Got? && ParseNumber(t).rest != []
    ensures ParseNumber(t + x) == Got(ParseNumber(t).value, ParseNumber(t).rest + x)
  {
    hide ParseWhole, ParseFraction, ParseExponent;
    Slices(t, x, 1);
    var u := if t[0] == '-' then t[1..] else t;
    ExtendWhole(u, x);
    var v := ParseWhole(u).rest;
    ExtendFraction(v, x);
    ExtendExponent(ParseFraction(v).rest, x);
  }

  predicate StartsNumber(t: string)
  {
    t != [] && (t[0] == '-' || IsDigit(t[0]))
  }

  lemma {:induction false} ExtendValue(t: string, x: string)
    requires ParseValue(t).Got?
    requires ParseValue(t).rest != [] || !StartsNumber(SkipSpace(t))
    ensures ParseValue(t + x) == Got(ParseValue(t).value, ParseValue(t).rest + x)
    decreases |t|, 3
  {
    var u := SkipSpace(t);
    ExtendSpace(t, x);
    assert (u + x)[0] == u[0];
    hide SkipSpace, ParseNumber, ParseString, ParseArray, ParseObject;
    if u[0] == '"' {
      ExtendString(u, x);
    } else if u[0] == '{' {
      ExtendObject(u, x);
    } else if u[0] == '[' {
      ExtendArray(u, x);
    } else if StartsNumber(u) {
      ExtendNumber(u, x);
    } else if u[0] == 't' {
      Slices(u, x, 4);
    } else if u[0] == 'f' {
      Slices(u, x, 5);
    } else {
      Slices(u, x, 4);
    }
  }

  lemma {:induction false} ExtendObject(t: string, x: string)
    requires t != [] && t[0] == '{' && ParseObject(t).Got?
    ensures ParseObject(t + x) == Got(ParseObject(t).value, ParseObject(t).rest + x)
    decreases |t|, 2
  {
    hide ParseMembers;
    Slices(t, x, 1);
    var u := SkipSpace(t[1..]);
    NoMembers();
    ExtendSpace(t[1..], x);
    Slices(u, x, 1);
    if u[0] != '}' { ExtendMembers(u, map[], x); }
  }

  lemma NoMembers()
    ensures ParseMembers("", map[]).Bad? && ParseItems("", []).Bad?
  {
  }

  lemma {:induction false} ExtendMembers(t: string, fields: map<string, JsonValue>, x: string)
    requires ParseMembers(t, fields).Got?
    ensures ParseMembers(t + x, fields) == Got(ParseMembers(t, fields).value, ParseMembers(t, fields).rest + x)
    decreases |t|, 1
  {
    hide ParseString, ParseValue, SkipSpace;
    var s := SkipSpace(t);
    assert s != [] by { EmptyString(); }
    ExtendSpace(t, x);
    ExtendString(s, x);
    var u := ParseString(s).rest;
    var v := SkipSpace(u);
    ExtendSpace(u, x);
    Slices(v, x, 1);
    var w := ParseValue(v[1..]).rest;
    var y := SkipSpace(w);
    assert w != [] by { EmptySpace(); }
    ExtendValue(v[1..], x);
    ExtendSpace(w, x);
    Slices(y, x, 1);
    if y[0] == ',' { ExtendMembers(y[1..], fields[ParseString(s).value := ParseValue(v[1..]).value], x); }
  }

  lemma EmptyString()
    ensures ParseString("").Bad?
  {
  }

  lemma EmptySpace()
    ensures SkipSpace("") == ""
  {
  }

  lemma {:induction false} ExtendArray(t: string, x: string)
    requires t != [] && t[0] == '[' && ParseArray(t).Got?
    ensures ParseArray(t + x) == Got(ParseArray(t).value, ParseArray(t).rest + x)
    decreases |t|, 2
  {
    hide ParseItems;
    Slices(t, x, 1);
    var u := SkipSpace(t[1..]);
    NoMembers();
    ExtendSpace(t[1..], x);
    Slices(u, x, 1);
    if u[0] != ']' { ExtendItems(u, [], x); }
  }

  lemma {:induction false} ExtendItems(t: string, items: seq<JsonValue>, x: string)
    requires ParseItems(t, items).Got?
    ensures ParseItems(t + x, items) == Got(ParseItems(t, items).value, ParseItems(t, items).rest + x)
    decreases |t|, 4
  {
    hide ParseValue, SkipSpace;
    var w := ParseValue(t).rest;
    var y := SkipSpace(w);
    assert w != [] by { EmptySpace(); }
    ExtendValue(t, x);
    ExtendSpace(w, x);
    Slices(y, x, 1);
    if y[0] == ',' { ExtendItems(y[1..], items + [ParseValue(t).value], x); }
  }

  // ---- Aborts ------------------------------------------------------------

  /** The slice that follows `\u` ends inside a character. */
  predicate Aborts<T(==)>(r: Parsed<T>)
  {
    r == Bad(SliceAbort)
  }

  lemma AbortUnicode(t: string, x: string)
    requires Aborts(ParseUnicode(t))
    ensures Aborts(ParseUnicode(t + x))
  {
    if Aborts(ParseHex4(t)) {
      assert (t + x)[4] == t[4];
    } else {
      hide Utf8.Encode;
      var u := ParseHex4(t).rest;
      ExtendHex4(t, x);
      assert (u + x)[2..] == u[2..] + x && (u[2..] + x)[4] == u[2..][4];
    }
  }

  lemma {:induction false} AbortBody(t: string, x: string)
    requires Aborts(ParseBody(t))
    ensures Aborts(ParseBody(t + x))
    decreases |t|
  {
    hide ParseUnicode;
    assert (t + x)[1..] == t[1..] + x;
    if t[0] != '\\' {
      AbortBody(t[1..], x);
    } else if ParseEscape(t[1..]).Got? {
      ExtendEscape(t[1..], x);
      AbortBody(ParseEscape(t[1..]).rest, x);
    } else {
      assert (t[1..] + x)[1..] == t[1..][1..] + x;
      AbortUnicode(t[1..][1..], x);
    }
  }

  lemma AbortString(t: string, x: string)
    requires Aborts(ParseString(t))
    ensures Aborts(ParseString(t + x))
  {
    assert (t + x)[1..] == t[1..] + x;
    hide ParseBody;
    AbortBody(t[1..], x);
  }

  /** An abort happens in every longer text. */
  lemma {:induction false} AbortValue(t: string, x: string)
    requires Aborts(ParseValue(t))
    ensures Aborts(ParseValue(t + x))
    decreases |t|, 3
  {
    hide SkipSpace, ParseNumber, ParseString, ParseArray, ParseObject, ParseLiteral;
    var u := SkipSpace(t);
    AbortingValues(t);
    ExtendSpace(t, x);
    assert (u + x)[0] == u[0];
    if u[0] == '"' {
      AbortString(u, x);
    } else if u[0] == '{' {
      AbortObject(u, x);
    } else {
      AbortArray(u, x);
    }
  }

  /** Only strings, objects and arrays abort. */
  lemma AbortingValues(t: string)
    requires Aborts(ParseValue(t))
    ensures var u := SkipSpace(t); u != [] && (u[0] == '"' || u[0] == '{' || u[0] == '[')
  {
    NumbersDoNotAbort(SkipSpace(t));
    hide SkipSpace, ParseNumber, ParseString, ParseArray, ParseObject;
  }

  lemma NumbersDoNotAbort(t: string)
    ensures !Aborts(ParseNumber(t))
  {
    hide DigitRun;
  }

  lemma {:induction false} AbortObject(t: string, x: string)
    requires t != [] && t[0] == '{' && Aborts(ParseObject(t))
    ensures Aborts(ParseObject(t + x))
    decreases |t|, 2
  {
    Slices(t, x, 1);
    var u := SkipSpace(t[1..]);
    NothingToAbort();
    hide ParseMembers;
    ExtendSpace(t[1..], x);
    Slices(u, x, 1);
    AbortMembers(u, map[], x);
  }

  lemma NothingToAbort()
    ensures !Aborts(ParseMembers("", map[])) && !Aborts(ParseItems("", [])) && !Aborts(ParseString("")) && !Aborts(ParseValue(""))
  {
  }

  lemma {:induction false} AbortMembers(t: string, fields: map<string, JsonValue>, x: string)
    requires Aborts(ParseMembers(t, fields))
    ensures Aborts(ParseMembers(t + x, fields))
    decreases |t|, 1
  {
    NothingToAbort();
    hide ParseString, ParseValue, SkipSpace;
    var s := SkipSpace(t);
    ExtendSpace(t, x);
    var k := ParseString(s);
    if k.Bad? {
      AbortString(s, x);
    } else {
      ExtendString(s, x);
      var v := SkipSpace(k.rest);
      ExtendSpace(k.rest, x);
      Slices(v, x, 1);
      var r := ParseValue(v[1..]);
      if r.Bad? {
        AbortValue(v[1..], x);
      } else {
        var y := SkipSpace(r.rest);
        assert r.rest != [] by { EmptySpace(); }
        ExtendValue(v[1..], x);
        ExtendSpace(r.rest, x);
        Slices(y, x, 1);
        AbortMembers(y[1..], fields[k.value := r.value], x);
      }
    }
  }

  lemma {:induction false} AbortArray(t: string, x: string)
    requires t != [] && t[0] == '[' && Aborts(ParseArray(t))
    ensures Aborts(ParseArray(t + x))
    decreases |t|, 2
  {
    Slices(t, x, 1);
    var u := SkipSpace(t[1..]);
    NothingToAbort();
    hide ParseItems;
    ExtendSpace(t[1..], x);
    Slices(u, x, 1);
    AbortItems(u, [], x);
  }

  lemma {:induction false} AbortItems(t: string, items: seq<JsonValue>, x: string)
    requires Aborts(ParseItems(t, items))
    ensures Aborts(ParseItems(t + x, items))
    decreases |t|, 4
  {
    hide ParseValue, SkipSpace;
    var r := ParseValue(t);
    if r.Bad? {
      AbortValue(t, x);
    } else {
      var y := SkipSpace(r.rest);
      assert r.rest != [] by { EmptySpace(); }
      ExtendValue(t, x);
      ExtendSpace(r.rest, x);
      Slices(y, x, 1);
      AbortItems(y[1..], items + [r.value], x);
    }
  }

  // ---- Documents ---------------------------------------------------------

  lemma {:induction false} SpaceOnly(t: string, x: string)
    requires SkipSpace(t) == [] && SkipSpace(t + x) == []
    ensures SkipSpace(x) == []
  {
    if t == [] {
      assert t + x == x;
    } else {
      assert (t + x)[1..] == t[1..] + x;
      SpaceOnly(t[1..], x);
    }
  }

  /** A document that is an object can only be extended by white space. */
  lemma ObjectIsMaximal(p: string, x: string)
    requires p != [] && p[0] == '{' && Parse(p).Ok? && Parse(p + x).Ok?
    ensures SkipSpace(x) == []
  {
    hide ParseValue;
    NoSpaceAhead(p);
    ExtendValue(p, x);
    SpaceOnly(ParseValue(p).rest, x);
  }

  /** No proper prefix of a document that is an object and ends in its brace is a document, or aborts. */
  lemma NoPrefixParses(t: string, k: nat)
    requires Parse(t).Ok? && t[0] == '{' && !IsSpace(t[|t| - 1])
    requires k < |t|
    ensures Parse(t[..k]).Err? && Parse(t[..k]) != Err(SliceAbort)
  {
    var p, x := t[..k], t[k..];
    assert p + x == t;
    if Aborts(ParseValue(p)) { AbortValue(p, x); }
    assert x[|x| - 1] == t[|t| - 1];
    EmptyDocument();
    if Parse(p).Ok? {
      assert p[0] == '{';
      ObjectIsMaximal(p, x);
      SpaceSuffix(x);
      assert false;
    }
  }

  lemma EmptyDocument()
    ensures Parse("").Err?
  {
  }

  lemma {:induction false} SpaceSuffix(x: string)
    requires SkipSpace(x) == []
    ensures forall i :: 0 <= i < |x| ==> IsSpace(x[i])
  {
    if x != [] { SpaceSuffix(x[1..]); }
  }
}
