/**
 What becomes of a document that breaks off in the middle and is followed on the same line
 by another document: it never parses.  The proof compares, function by function, the parser
 on the broken text with the parser on the text as it should have gone on.
 */
module JsonSplice {
  import opened Prelude
  import opened Decimals
  import opened Json
  import opened JsonRoundTrip
  import opened JsonPrefix
  import opened JsonIllFormed
  import Utf8

  /**
   A record line: an object whose first field name starts with ASCII letters, whether it parses or
   holds a number without a JSON form.
   */
  predicate Opener(l: string)
  {
    |l| >= 5 && l[0] == '{' && l[1] == '"' && 'A' <= l[2] <= 'Z'
    && !Utf8.IsContinuation(l[3]) && !Utf8.IsContinuation(l[4])
    && (Fails(ParseValue(l)) || (ParseValue(l).Got? && ParseValue(l).rest == []))
  }

  predicate EndsWith(r: string, x: string)
  {
    |r| >= |x| && r[|r| - |x|..] == x
  }

  function Cut(r: string, x: string): string
    requires |r| >= |x|
  {
    r[..|r| - |x|]
  }

  /**
   `a` is a parse of a text that goes on with `x`, `b` the parse of the text that goes on
   with `l` instead: the same when `a` stops before `x`; otherwise `b` fails or leaves one
   of the texts in `stuck`.
   */
  predicate Spliced<T(==)>(a: Parsed<T>, b: Parsed<T>, x: string, l: string, stuck: set<string>)
  {
    a.Got? ==>
      if |a.rest| >= |x| then EndsWith(a.rest, x) && b == Got(a.value, Cut(a.rest, x) + l)
      else Fails(b) || (b.Got? && b.rest in stuck)
  }

  /** Two stages of a parser: splicing the first and then the second splices the whole. */
  lemma Stages<T, U>(a: Parsed<T>, b: Parsed<T>, c: Parsed<U>, d: Parsed<U>, x: string, l: string,
                     stuck: set<string>, stuck': set<string>)
    requires Spliced(a, b, x, l, stuck)
    requires a.Bad? ==> c.Bad?
    requires a.Got? && c.Got? ==> |c.rest| <= |a.rest|
    requires a.Got? && |a.rest| >= |x| ==> Spliced(c, d, x, l, stuck')
    requires Fails(b) || (b.Got? && b.rest in stuck) ==> Fails(d) || (d.Got? && d.rest in stuck')
    ensures Spliced(c, d, x, l, stuck')
  {
  }

  lemma CutOf(r': string, x: string)
    ensures EndsWith(r' + x, x) && Cut(r' + x, x) == r'
  {
  }

  lemma Tail(g: string, x: string)
    requires g != []
    ensures (g + x)[0] == g[0] && (g + x)[1..] == g[1..] + x
  {
  }

  /** Skipping space either stops inside `g` or passes all of it. */
  lemma {:induction false} SpaceSplit(g: string, x: string)
    ensures SkipSpace(g) != [] ==> SkipSpace(g + x) == SkipSpace(g) + x
    ensures SkipSpace(g) == [] ==> SkipSpace(g + x) == SkipSpace(x)
  {
    if SkipSpace(g) != [] {
      ExtendSpace(g, x);
    } else if g == [] {
      assert g + x == x;
    } else {
      Tail(g, x);
      SpaceSplit(g[1..], x);
    }
  }

  // ---- Strings -----------------------------------------------------------

  lemma SpliceHex4(g: string, x: string, l: string)
    requires Opener(l) && ParseHex4(g + x).Got?
    ensures |g| >= 4 ==> ParseHex4(g + l) == Got(ParseHex4(g + x).value, g[4..] + l) && ParseHex4(g + x).rest == g[4..] + x
    ensures |g| < 4 ==> Fails(ParseHex4(g + l))
  {
    if |g| >= 4 {
      assert (g + x)[..4] == g[..4] == (g + l)[..4];
      assert (g + x)[4..] == g[4..] + x && (g + l)[4..] == g[4..] + l;
    } else if |g + l| >= 4 {
      assert (g + l)[|g|] == '{';
      assert (g + l)[..4][|g|] == '{';
    }
  }

  lemma SpliceUnicode(g: string, x: string, l: string)
    requires Opener(l)
    ensures Spliced(ParseUnicode(g + x), ParseUnicode(g + l), x, l, {})
  {
    hide ParseHex4;
    var a := ParseHex4(g + x);
    if ParseUnicode(g + x).Got? {
      SpliceHex4(g, x, l);
      if |g| >= 4 {
        var u := g[4..];
        if 0xD800 <= a.value <= 0xDBFF {
          SplicePair(u, x, l);
        } else {
          CutOf(u, x);
        }
      }
    }
  }

  /** The second half of a surrogate pair, after the first. */
  lemma SplicePair(u: string, x: string, l: string)
    requires Opener(l) && |u + x| >= 2 && (u + x)[0] == '\\' && (u + x)[1] == 'u' && ParseHex4((u + x)[2..]).Got?
    ensures |u| < 2 ==> |u + l| >= 2 && !((u + l)[0] == '\\' && (u + l)[1] == 'u')
    ensures |u| >= 2 ==> (u + l)[0] == '\\' && (u + l)[1] == 'u'
    ensures |u| >= 2 ==> Spliced(ParseHex4((u + x)[2..]), ParseHex4((u + l)[2..]), x, l, {})
  {
    if |u| >= 2 {
      assert (u + x)[2..] == u[2..] + x && (u + l)[2..] == u[2..] + l;
      SpliceHex4(u[2..], x, l);
      if |u| >= 6 { CutOf(u[2..][4..], x); }
    } else {
      assert (u + l)[|u|] == '{';
    }
  }

  lemma SpliceEscape(g: string, x: string, l: string)
    requires Opener(l)
    ensures Spliced(ParseEscape(g + x), ParseEscape(g + l), x, l, {})
  {
    hide ParseUnicode;
    if g == [] {
      assert g + x == x && g + l == l;
    } else {
      Tail(g, x);
      Tail(g, l);
      if g[0] == 'u' {
        SpliceUnicode(g[1..], x, l);
      } else {
        CutOf(g[1..], x);
      }
    }
  }

  lemma {:induction false} SpliceBody(g: string, x: string, l: string)
    requires Opener(l)
    ensures Spliced(ParseBody(g + x), ParseBody(g + l), x, l, {l[2..]})
    decreases |g|
  {
    hide Opener, ParseEscape;
    if g == [] {
      assert g + x == x && g + l == l;
      BodyOfOpener(l);
    } else {
      Tail(g, x);
      Tail(g, l);
      if g[0] == '"' {
        CutOf(g[1..], x);
      } else if g[0] == '\\' {
        var a := ParseEscape(g[1..] + x);
        SpliceEscape(g[1..], x, l);
        if a.Got? && |a.rest| >= |x| {
          var u := Cut(a.rest, x);
          assert a.rest == u + x;
          SpliceBody(u, x, l);
        }
        hide Cut;
      } else {
        SpliceBody(g[1..], x, l);
      }
    }
  }

  lemma BodyOfOpener(l: string)
    requires Opener(l)
    ensures ParseBody(l) == Got("{", l[2..])
  {
    assert l[1..][0] == '"' && l[1..][1..] == l[2..];
    assert ParseBody(l[1..]) == Got("", l[2..]);
    assert [l[0]] + "" == "{";
  }

  lemma SpliceString(g: string, x: string, l: string)
    requires Opener(l) && g != []
    ensures Spliced(ParseString(g + x), ParseString(g + l), x, l, {l[2..]})
  {
    Tail(g, x);
    Tail(g, l);
    SpliceBody(g[1..], x, l);
  }

  // ---- Numbers -----------------------------------------------------------

  lemma {:induction false} SpliceDigitRun(g: string, x: string, l: string)
    requires Opener(l)
    ensures DigitRun(g + l) == if DigitRun(g + x) <= |g| then DigitRun(g + x) else |g|
  {
    if g == [] {
      assert g + x == x && g + l == l;
    } else {
      Tail(g, x);
      Tail(g, l);
      if IsDigit(g[0]) { SpliceDigitRun(g[1..], x, l); }
    }
  }

  /** Cutting `g + x` after `n` bytes. */
  lemma SliceSplit(g: string, x: string, l: string, n: nat)
    requires n <= |g|
    ensures (g + x)[..n] == g[..n] == (g + l)[..n]
    ensures (g + x)[n..] == g[n..] + x && (g + l)[n..] == g[n..] + l
    ensures EndsWith((g + x)[n..], x) && Cut((g + x)[n..], x) == g[n..]
  {
  }

  /** A run of digits that starts at `k`, as the three parts of a number read it. */
  function Run(t: string, k: nat, n: nat): Parsed<string>
    requires k + n <= |t|
  {
    if n == 0 then Bad(Syntax) else Got(t[..k + n], t[k + n..])
  }

  lemma SpliceRun(g: string, x: string, l: string, k: nat)
    requires Opener(l) && k <= |g|
    ensures (g + x)[k..] == g[k..] + x && (g + l)[k..] == g[k..] + l
    ensures Spliced(Run(g + x, k, DigitRun(g[k..] + x)), Run(g + l, k, DigitRun(g[k..] + l)), x, l, {l})
  {
    SpliceDigitRun(g[k..], x, l);
    SliceSplit(g, x, l, k);
    hide DigitRun, Opener;
    RunSplit(g, x, l, k, DigitRun(g[k..] + x), DigitRun(g[k..] + l));
  }

  lemma RunSplit(g: string, x: string, l: string, k: nat, a: nat, b: nat)
    requires k <= |g| && k + a <= |g + x| && b == if k + a <= |g| then a else |g| - k
    ensures Spliced(Run(g + x, k, a), Run(g + l, k, b), x, l, {l})
  {
    if k + a <= |g| {
      SliceSplit(g, x, l, k + a);
    } else {
      assert |(g + x)[k + a..]| < |x|;
      assert (g + l)[|g|..] == l;
    }
  }

  lemma SpliceWhole(g: string, x: string, l: string)
    requires Opener(l)
    ensures Spliced(ParseWhole(g + x), ParseWhole(g + l), x, l, {l})
  {
    if g == [] {
      assert g + x == x && g + l == l;
      assert DigitRun(l) == 0;
    } else if g[0] == '0' {
      SliceSplit(g, x, l, 1);
    } else {
      SpliceRun(g, x, l, 0);
      assert g[0..] + x == g + x && g[0..] + l == g + l;
      Tail(g, x);
      Tail(g, l);
      hide DigitRun, Spliced;
    }
  }

  lemma SpliceFraction(g: string, x: string, l: string)
    requires Opener(l)
    ensures Spliced(ParseFraction(g + x), ParseFraction(g + l), x, l, {l})
  {
    if g == [] {
      assert g + x == x && g + l == l;
      hide DigitRun;
      assert ParseFraction(l) == Got("", l);
      NothingParsed(ParseFraction(x), x, l);
      hide ParseFraction, Spliced;
    } else if g[0] != '.' {
      CutOf(g, x);
    } else {
      Tail(g, x);
      Tail(g, l);
      FractionByPoint(g + x);
      FractionByPoint(g + l);
      SpliceRun(g, x, l, 1);
      hide DigitRun, Spliced, ParseFraction;
    }
  }

  lemma FractionByPoint(t: string)
    requires t != [] && t[0] == '.'
    ensures ParseFraction(t) == Run(t, 1, DigitRun(t[1..]))
  {
  }

  lemma NothingParsed(a: Parsed<string>, x: string, l: string)
    requires a.Got? && |a.rest| >= |x| ==> a == Got("", x)
    ensures Spliced(a, Got("", l), x, l, {l})
  {
    CutOf("", x);
    assert "" + x == x && "" + l == l;
  }

  /** A number that breaks off after its exponent mark. */
  lemma SpliceExponentMark(g: string, l: string)
    requires Opener(l) && |g| == 1 && g[0] in "eE"
    ensures Fails(ParseExponent(g + l))
  {
    var t := g + l;
    assert t[0] == g[0] && t[1] == '{' && t[1..] == l;
    assert DigitRun(l) == 0;
  }

  lemma ExponentConsumes(t: string)
    requires t != [] && t[0] in "eE" && ParseExponent(t).Got?
    ensures |ParseExponent(t).rest| + 1 < |t|
  {
  }

  /** The exponent parser by the length of its mark and sign. */
  lemma ExponentByMark(t: string, k: nat)
    requires |t| >= 2 && t[0] in "eE" && k == (if t[1] in "+-" then 2 else 1)
    ensures ParseExponent(t) == Run(t, k, DigitRun(t[k..]))
  {
  }

  lemma SpliceExponent(g: string, x: string, l: string)
    requires Opener(l)
    ensures Spliced(ParseExponent(g + x), ParseExponent(g + l), x, l, {l})
  {
    if g == [] {
      assert g + x == x && g + l == l;
      hide DigitRun;
      assert ParseExponent(l) == Got("", l);
      NothingParsed(ParseExponent(x), x, l);
      hide ParseExponent, Spliced;
    } else if g[0] !in "eE" {
      CutOf(g, x);
    } else if |g| == 1 {
      SpliceExponentMark(g, l);
      if ParseExponent(g + x).Got? { ExponentConsumes(g + x); }
      hide ParseExponent;
    } else {
      var k := if g[1] in "+-" then 2 else 1;
      ExponentByMark(g + x, k);
      ExponentByMark(g + l, k);
      SpliceRun(g, x, l, k);
      hide ParseExponent, DigitRun, Spliced;
    }
  }

  /** Fraction and exponent of a number. */
  function ParseSuffix(t: string): (r: Parsed<(string, string)>)
    ensures r.Got? ==> |r.rest| <= |t|
  {
    match ParseFraction(t)
    case Bad(e) => Bad(e)
    case Got(f, u) =>
      match ParseExponent(u)
      case Bad(e) => Bad(e)
      case Got(x, v) => Got((f, x), v)
  }

  function ParseMagnitude(t: string, negative: bool): (r: Parsed<NumberToken>)
    ensures r.Got? ==> |r.rest| < |t|
  {
    match ParseWhole(t)
    case Bad(e) => Bad(e)
    case Got(w, u) =>
      match ParseSuffix(u)
      case Bad(e) => Bad(e)
      case Got(p, v) => Got(NumberToken(negative, w, p.0, p.1), v)
  }

  lemma NumberByMagnitude(t: string)
    requires t != []
    ensures ParseNumber(t) == ParseMagnitude(if t[0] == '-' then t[1..] else t, t[0] == '-')
  {
  }

  lemma SpliceSuffix(g: string, x: string, l: string)
    requires Opener(l)
    ensures Spliced(ParseSuffix(g + x), ParseSuffix(g + l), x, l, {l})
    ensures ParseSuffix(l) == Got(("", ""), l)
  {
    assert ParseFraction(l) == Got("", l) && ParseExponent(l) == Got("", l);
    hide ParseFraction, ParseExponent;
    SpliceFraction(g, x, l);
    var a, b := ParseFraction(g + x), ParseFraction(g + l);
    if a.Got? && |a.rest| >= |x| {
      var w := Cut(a.rest, x);
      assert a.rest == w + x;
      SpliceExponent(w, x, l);
    }
    hide Spliced;
    Stages(a, b, ParseSuffix(g + x), ParseSuffix(g + l), x, l, {l}, {l});
  }

  lemma SpliceMagnitude(u: string, x: string, l: string, negative: bool)
    requires Opener(l)
    ensures Spliced(ParseMagnitude(u + x, negative), ParseMagnitude(u + l, negative), x, l, {l})
  {
    SpliceSuffix("", x, l);
    SpliceWhole(u, x, l);
    hide ParseWhole, ParseSuffix;
    var a, b := ParseWhole(u + x), ParseWhole(u + l);
    if a.Got? && |a.rest| >= |x| {
      var v := Cut(a.rest, x);
      assert a.rest == v + x;
      SpliceSuffix(v, x, l);
    }
    hide Spliced;
    Stages(a, b, ParseMagnitude(u + x, negative), ParseMagnitude(u + l, negative), x, l, {l}, {l});
  }

  lemma SpliceNumber(g: string, x: string, l: string)
    requires Opener(l) && g != []
    ensures Spliced(ParseNumber(g + x), ParseNumber(g + l), x, l, {l})
  {
    NumberByMagnitude(g + x);
    NumberByMagnitude(g + l);
    Tail(g, x);
    Tail(g, l);
    hide ParseNumber, ParseMagnitude, Spliced;
    SpliceMagnitude(if g[0] == '-' then g[1..] else g, x, l, g[0] == '-');
  }

  // ---- Values ------------------------------------------------------------

  /** What a value may leave when it breaks off: never a separator or a closing bracket. */
  function DeadEnds(l: string): set<string>
    requires Opener(l)
  {
    {l, l[2..], ""}
  }

  lemma DeadEnd(s: string, l: string)
    requires Opener(l) && s in DeadEnds(l)
    ensures SkipSpace(s) == s && (s == "" || s[0] !in ":,}]")
  {
  }

  lemma SpaceInSplice(g: string, x: string, l: string)
    requires Opener(l)
    ensures SkipSpace(g) == [] ==> SkipSpace(g + l) == l
    ensures SkipSpace(g) != [] ==> SkipSpace(g + x) == SkipSpace(g) + x && SkipSpace(g + l) == SkipSpace(g) + l
    ensures l[0] == '{' && l != []
  {
    SpaceSplit(g, x);
    SpaceSplit(g, l);
  }

  lemma LiteralSplit(g: string, x: string, l: string, word: string, value: JsonValue)
    requires Opener(l) && g != [] && word in {"true", "false", "null"}
    ensures Spliced(ParseLiteral(g + x, word, value), ParseLiteral(g + l, word, value), x, l, {})
  {
    var n := |word|;
    if word <= g + x {
      if n <= |g| {
        SliceSplit(g, x, l, n);
        assert (g + l)[..n] == word;
      } else {
        assert (g + l)[|g|] == '{';
        assert forall i :: 0 <= i < n ==> word[i] != '{';
      }
    }
  }

  /** The value parser by the first byte, when it is not a digit or a quote. */
  lemma WordByHead(t: string)
    requires t != []
    ensures t[0] == 't' ==> ParseValue(t) == ParseLiteral(t, "true", Bool(true))
    ensures t[0] == 'f' ==> ParseValue(t) == ParseLiteral(t, "false", Bool(false))
    ensures t[0] == 'n' ==> ParseValue(t) == ParseLiteral(t, "null", Null)
    ensures !IsSpace(t[0]) && t[0] !in "\"{[tfn" && !StartsNumber(t) ==> Fails(ParseValue(t))
  {
    hide ParseLiteral;
    if !IsSpace(t[0]) { NoSpaceAhead(t); }
  }

  lemma ValueBad(t: string)
    requires t != []
    ensures t[0] == '"' && Fails(ParseString(t)) ==> Fails(ParseValue(t))
    ensures t[0] == '"' && ParseString(t).Bad? ==> ParseValue(t).Bad?
    ensures StartsNumber(t) && Fails(ParseNumber(t)) ==> Fails(ParseValue(t))
    ensures StartsNumber(t) && ParseNumber(t).Bad? ==> ParseValue(t).Bad?
  {
    hide ParseString, ParseNumber;
    if !IsSpace(t[0]) { NoSpaceAhead(t); }
  }

  lemma ValueSkipsSpace(t: string)
    ensures SkipSpace(t) != [] ==> ParseValue(t) == ParseValue(SkipSpace(t))
    ensures SkipSpace(t) == [] ==> Fails(ParseValue(t))
  {
    var u := SkipSpace(t);
    if u != [] { NoSpaceAhead(u); }
    hide SkipSpace, ParseString, ParseObject, ParseArray, ParseNumber;
  }

  lemma {:induction false} SpliceValue(g: string, x: string, l: string)
    requires Opener(l)
    ensures Spliced(ParseValue(g + x), ParseValue(g + l), x, l, DeadEnds(l))
    decreases |g|, 3
  {
    ValueSkipsSpace(g + x);
    ValueSkipsSpace(g + l);
    SpaceInSplice(g, x, l);
    var u := SkipSpace(g);
    if u == [] {
      SpaceSplit(g, x);
      if SkipSpace(x) != [] && ParseValue(SkipSpace(x)).Got? {
        assert |ParseValue(SkipSpace(x)).rest| < |SkipSpace(x)| <= |x|;
      }
    } else {
      hide SkipSpace;
      SpliceValueAt(u, x, l);
    }
  }

  lemma {:induction false} SpliceValueAt(u: string, x: string, l: string)
    requires Opener(l) && u != [] && !IsSpace(u[0])
    ensures Spliced(ParseValue(u + x), ParseValue(u + l), x, l, DeadEnds(l))
    decreases |u|, 2
  {
    Tail(u, x);
    Tail(u, l);
    var a, b := u + x, u + l;
    ValueByHead(a);
    ValueByHead(b);
    WordByHead(a);
    WordByHead(b);
    ValueBad(a);
    ValueBad(b);
    hide ParseValue, ParseString, ParseObject, ParseArray, ParseNumber, ParseLiteral;
    if u[0] == '"' {
      SpliceString(u, x, l);
    } else if u[0] == '{' {
      SpliceObject(u, x, l);
    } else if u[0] == '[' {
      SpliceArray(u, x, l);
    } else if u[0] == 't' {
      LiteralSplit(u, x, l, "true", Bool(true));
    } else if u[0] == 'f' {
      LiteralSplit(u, x, l, "false", Bool(false));
    } else if u[0] == 'n' {
      LiteralSplit(u, x, l, "null", Null);
    } else if StartsNumber(u) {
      SpliceNumber(u, x, l);
    }
  }

  // ---- Objects and arrays, by continuation -------------------------------

  /** What follows a field name: colon, value, and the rest of the object. */
  function AfterKey(t: string, key: string, fields: map<string, JsonValue>): (r: Parsed<JsonValue>)
    ensures r.Got? ==> |r.rest| < |t|
  {
    var v := SkipSpace(t);
    if v == [] || v[0] != ':' then Bad(Syntax) else FieldValue(v[1..], key, fields)
  }

  function FieldValue(t: string, key: string, fields: map<string, JsonValue>): (r: Parsed<JsonValue>)
    ensures r.Got? ==> |r.rest| < |t|
  {
    match ParseValue(t)
    case Bad(e) => Bad(e)
    case Got(value, w) => AfterField(w, fields[key := value])
  }

  /** What follows a field: a comma and more fields, or the closing brace. */
  function AfterField(t: string, fields: map<string, JsonValue>): (r: Parsed<JsonValue>)
    ensures r.Got? ==> |r.rest| < |t|
  {
    if SkipSpace(t) == [] then Bad(Syntax) else FieldEnd(SkipSpace(t), fields)
  }

  function FieldEnd(y: string, fields: map<string, JsonValue>): (r: Parsed<JsonValue>)
    requires y != []
    ensures r.Got? ==> |r.rest| < |y|
  {
    if y[0] == ',' then ParseMembers(y[1..], fields)
    else if y[0] == '}' then Got(Obj(fields), y[1..])
    else Bad(Syntax)
  }

  function AfterElement(t: string, items: seq<JsonValue>): (r: Parsed<JsonValue>)
    ensures r.Got? ==> |r.rest| < |t|
  {
    if SkipSpace(t) == [] then Bad(Syntax) else ElementEnd(SkipSpace(t), items)
  }

  function ElementEnd(y: string, items: seq<JsonValue>): (r: Parsed<JsonValue>)
    requires y != []
    ensures r.Got? ==> |r.rest| < |y|
  {
    if y[0] == ',' then ParseItems(y[1..], items)
    else if y[0] == ']' then Got(Arr(items), y[1..])
    else Bad(Syntax)
  }

  lemma MembersByKey(t: string, fields: map<string, JsonValue>)
    ensures var k := ParseString(SkipSpace(t));
      ParseMembers(t, fields) == if k.Bad? then Bad(k.error) else AfterKey(k.rest, k.value, fields)
  {
    hide ParseString, SkipSpace, ParseValue;
  }

  lemma ItemsByElement(t: string, items: seq<JsonValue>)
    ensures var v := ParseValue(t);
      ParseItems(t, items) == if v.Bad? then Bad(v.error) else AfterElement(v.rest, items + [v.value])
  {
    hide SkipSpace, ParseValue;
  }

  lemma DeadContinuations(s: string, l: string, key: string, fields: map<string, JsonValue>, items: seq<JsonValue>)
    requires Opener(l) && s in DeadEnds(l)
    ensures Fails(AfterKey(s, key, fields)) && Fails(AfterField(s, fields)) && Fails(AfterElement(s, items))
  {
    DeadEnd(s, l);
    hide SkipSpace;
  }

  lemma OpenerStuck(l: string, fields: map<string, JsonValue>, items: seq<JsonValue>)
    requires Opener(l)
    ensures Fails(ParseMembers(l, fields)) && Fails(ParseItems(l, items))
  {
    NoSpaceAhead(l);
    MembersByKey(l, fields);
    ItemsByElement(l, items);
    hide ParseMembers, ParseItems, ParseValue;
    if ParseValue(l).Got? { DeadContinuations("", l, "", fields, items + [ParseValue(l).value]); }
  }

  lemma {:induction false} SpliceFieldEnd(y: string, x: string, l: string, fields: map<string, JsonValue>)
    requires Opener(l) && y != []
    ensures Spliced(FieldEnd(y + x, fields), FieldEnd(y + l, fields), x, l, {})
    decreases |y|, 0
  {
    hide ParseMembers;
    Tail(y, x);
    Tail(y, l);
    if y[0] == ',' { SpliceMembers(y[1..], x, l, fields); } else { CutOf(y[1..], x); }
  }

  lemma {:induction false} SpliceAfterField(g: string, x: string, l: string, fields: map<string, JsonValue>)
    requires Opener(l)
    ensures Spliced(AfterField(g + x, fields), AfterField(g + l, fields), x, l, {})
    decreases |g|, 1
  {
    SpaceInSplice(g, x, l);
    SpaceSplit(g, x);
    var y := SkipSpace(g);
    if y == [] {
      hide SkipSpace, FieldEnd;
      assert Fails(FieldEnd(l, fields)) by { OpenerEnds(l, fields, []); }
    } else {
      hide SkipSpace, FieldEnd, Spliced;
      SpliceFieldEnd(y, x, l, fields);
    }
  }

  lemma OpenerEnds(l: string, fields: map<string, JsonValue>, items: seq<JsonValue>)
    requires Opener(l)
    ensures Fails(FieldEnd(l, fields)) && Fails(ElementEnd(l, items))
  {
  }

  lemma {:induction false} SpliceFieldValue(g: string, x: string, l: string, key: string, fields: map<string, JsonValue>)
    requires Opener(l)
    ensures Spliced(FieldValue(g + x, key, fields), FieldValue(g + l, key, fields), x, l, {})
    decreases |g|, 4
  {
    hide ParseValue, AfterField, DeadEnds;
    SpliceValue(g, x, l);
    var a, b := ParseValue(g + x), ParseValue(g + l);
    if a.Got? && |a.rest| >= |x| {
      var w := Cut(a.rest, x);
      assert a.rest == w + x;
      SpliceAfterField(w, x, l, fields[key := a.value]);
    }
    if b.Got? && b.rest in DeadEnds(l) {
      DeadContinuations(b.rest, l, key, fields[key := b.value], []);
    }
    hide Spliced;
    Stages(a, b, FieldValue(g + x, key, fields), FieldValue(g + l, key, fields), x, l, DeadEnds(l), {});
  }

  lemma {:induction false} SpliceAfterKey(g: string, x: string, l: string, key: string, fields: map<string, JsonValue>)
    requires Opener(l)
    ensures Spliced(AfterKey(g + x, key, fields), AfterKey(g + l, key, fields), x, l, {})
    decreases |g|, 1
  {
    SpaceInSplice(g, x, l);
    SpaceSplit(g, x);
    hide SkipSpace, FieldValue;
    var v := SkipSpace(g);
    if v != [] {
      Tail(v, x);
      Tail(v, l);
      if v[0] == ':' {
        SpliceFieldValue(v[1..], x, l, key, fields);
        assert AfterKey(g + x, key, fields) == FieldValue(v[1..] + x, key, fields);
        assert AfterKey(g + l, key, fields) == FieldValue(v[1..] + l, key, fields);
        hide AfterKey, Spliced;
      }
    }
  }

  lemma {:induction false} SpliceMembers(g: string, x: string, l: string, fields: map<string, JsonValue>)
    requires Opener(l)
    ensures Spliced(ParseMembers(g + x, fields), ParseMembers(g + l, fields), x, l, {})
    decreases |g|, 0
  {
    MembersByKey(g + x, fields);
    MembersByKey(g + l, fields);
    SpaceInSplice(g, x, l);
    SpaceSplit(g, x);
    OpenerString(l);
    hide SkipSpace, ParseMembers, ParseString, AfterKey;
    var u := SkipSpace(g);
    if u != [] {
      SpliceString(u, x, l);
      var a, b := ParseString(u + x), ParseString(u + l);
      if a.Got? && |a.rest| >= |x| {
        var w := Cut(a.rest, x);
        assert a.rest == w + x;
        SpliceAfterKey(w, x, l, a.value, fields);
      }
      if b.Got? && b.rest == l[2..] { DeadContinuations(l[2..], l, b.value, fields, []); }
      hide Spliced;
      Stages(a, b, ParseMembers(g + x, fields), ParseMembers(g + l, fields), x, l, {l[2..]}, {});
    }
  }

  lemma OpenerString(l: string)
    requires Opener(l)
    ensures Fails(ParseString(l))
  {
  }

  lemma {:induction false} SpliceElementEnd(y: string, x: string, l: string, items: seq<JsonValue>)
    requires Opener(l) && y != []
    ensures Spliced(ElementEnd(y + x, items), ElementEnd(y + l, items), x, l, {})
    decreases |y|, 0
  {
    hide ParseItems;
    Tail(y, x);
    Tail(y, l);
    if y[0] == ',' { SpliceItems(y[1..], x, l, items); } else { CutOf(y[1..], x); }
  }

  lemma {:induction false} SpliceAfterElement(g: string, x: string, l: string, items: seq<JsonValue>)
    requires Opener(l)
    ensures Spliced(AfterElement(g + x, items), AfterElement(g + l, items), x, l, {})
    decreases |g|, 4
  {
    SpaceInSplice(g, x, l);
    SpaceSplit(g, x);
    var y := SkipSpace(g);
    if y == [] {
      hide SkipSpace, ElementEnd;
      assert Fails(ElementEnd(l, items)) by { OpenerEnds(l, map[], items); }
    } else {
      hide SkipSpace, ElementEnd, Spliced;
      SpliceElementEnd(y, x, l, items);
    }
  }

  lemma {:induction false} SpliceItems(g: string, x: string, l: string, items: seq<JsonValue>)
    requires Opener(l)
    ensures Spliced(ParseItems(g + x, items), ParseItems(g + l, items), x, l, {})
    decreases |g|, 5
  {
    ItemsByElement(g + x, items);
    ItemsByElement(g + l, items);
    hide ParseItems, ParseValue, AfterElement, DeadEnds;
    SpliceValue(g, x, l);
    var a, b := ParseValue(g + x), ParseValue(g + l);
    if a.Got? && |a.rest| >= |x| {
      var w := Cut(a.rest, x);
      assert a.rest == w + x;
      SpliceAfterElement(w, x, l, items + [a.value]);
    }
    if b.Got? && b.rest in DeadEnds(l) { DeadContinuations(b.rest, l, "", map[], items + [b.value]); }
    hide Spliced;
    Stages(a, b, ParseItems(g + x, items), ParseItems(g + l, items), x, l, DeadEnds(l), {});
  }

  /** A broken object stays broken. */
  lemma {:induction false} SpliceObject(g: string, x: string, l: string)
    requires Opener(l) && g != [] && g[0] == '{'
    ensures Spliced(ParseObject(g + x), ParseObject(g + l), x, l, {})
    decreases |g|, 1
  {
    Tail(g, x);
    Tail(g, l);
    SpaceInSplice(g[1..], x, l);
    SpaceSplit(g[1..], x);
    OpenerStuck(l, map[], []);
    hide ParseMembers, SkipSpace;
    var u := SkipSpace(g[1..]);
    if u != [] {
      Tail(u, x);
      Tail(u, l);
      if u[0] == '}' { CutOf(u[1..], x); } else { SpliceMembers(u, x, l, map[]); }
    }
  }

  lemma {:induction false} SpliceArray(g: string, x: string, l: string)
    requires Opener(l) && g != [] && g[0] == '['
    ensures Spliced(ParseArray(g + x), ParseArray(g + l), x, l, {})
    decreases |g|, 1
  {
    Tail(g, x);
    Tail(g, l);
    SpaceInSplice(g[1..], x, l);
    SpaceSplit(g[1..], x);
    OpenerStuck(l, map[], []);
    hide ParseItems, SkipSpace;
    var u := SkipSpace(g[1..]);
    if u != [] {
      Tail(u, x);
      Tail(u, l);
      if u[0] == ']' { CutOf(u[1..], x); } else { SpliceItems(u, x, l, []); }
    }
  }

  // ---- Lines -------------------------------------------------------------

  /**
   A broken line never parses once another record is written straight after it: neither a
   proper prefix of a document nor the whole document, which then has trailing data.  Nor does
   reading it abort.
   */
  lemma BrokenLineRejected(f: string, x: string, l: string)
    requires f != [] && f[0] == '{' && Parse(f + x).Ok?
    requires x == [] || !IsSpace(x[|x| - 1])
    requires Opener(l)
    ensures Parse(f + l).Err? && Parse(f + l) != Err(SliceAbort)
  {
    hide ParseValue, ParseObject;
    Tail(f, x);
    Tail(f, l);
    NoSpaceAhead(f + x);
    NoSpaceAhead(f + l);
    if x == [] {
      assert f + x == f;
      NoSpaceAhead(f);
      ExtendValue(f, l);
      SpaceThenOpener(ParseValue(f).rest, l);
    } else {
      ValueByHead(f + x);
      ValueByHead(f + l);
      SpliceObject(f, x, l);
      var r := ParseObject(f + x).rest;
      SpaceSuffix(r);
      if EndsWith(r, x) {
        LastOf(r, x);
        assert false;
      }
    }
  }

  lemma LastOf(r: string, x: string)
    requires EndsWith(r, x) && x != []
    ensures r[|r| - 1] == x[|x| - 1]
  {
  }

  lemma SpaceThenOpener(r: string, l: string)
    requires Opener(l)
    ensures SkipSpace(r + l) != []
  {
    SpaceSplit(r, l);
    NoSpaceAhead(l);
  }
}
