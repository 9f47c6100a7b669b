/**
 The texts that `JsonValue::parse` (crates/core/src/json_read.rs) accepts, whoever wrote them: any
 white space between tokens, any escapes in strings, any number token (RFC 8259 sections 2 to 7).

 In two points the parser takes more than that standard: a string may hold raw control characters,
 and `\u` may be followed by `+` and three digits.
 */
module JsonTexts {
  import opened Prelude
  import opened Decimals
  import opened Json
  import opened JsonRoundTrip
  import Utf8

  // ---- Strings -----------------------------------------------------------

  type Nibble = d: nat | d < 16
  type Letter = k: nat | k < 8

  datatype Digit = Digit(value: Nibble, upper: bool)

  /** What stands after `\u`. */
  datatype Hex = Hex(plus: bool, digits: seq<Digit>)

  /** How a part of a string is written: a byte as it is, an escape by letter, one or two code units. */
  datatype Piece =
    | Raw(c: char)
    | Short(k: Letter)
    | Unit(h: Hex)
    | Pair(cp: int, high: Hex, low: Hex)

  const LETTERS := "\"\\/nrtbf"
  const CHARACTERS := "\"\\/\n\r\t" + [8 as char, 12 as char]

  function DigitsText(ds: seq<Digit>): (s: string)
    ensures |s| == |ds|
  {
    if ds == [] then ""
    else [if ds[0].upper then "0123456789ABCDEF"[ds[0].value] else "0123456789abcdef"[ds[0].value]] + DigitsText(ds[1..])
  }

  function HexText(h: Hex): string
  {
    (if h.plus then "+" else "") + DigitsText(h.digits)
  }

  function HexValueOf(ds: seq<Digit>): nat
  {
    if ds == [] then 0 else HexValueOf(ds[..|ds| - 1]) * 16 + ds[|ds| - 1].value
  }

  predicate ProperHex(h: Hex, n: int)
  {
    |h.digits| == (if h.plus then 3 else 4) && HexValueOf(h.digits) == n
  }

  predicate ProperPiece(p: Piece)
  {
    match p
    case Raw(c) => c != '"' && c != '\\'
    case Short(_) => true
    case Unit(h) => ProperHex(h, HexValueOf(h.digits)) && Utf8.IsScalar(HexValueOf(h.digits))
    case Pair(cp, high, low) =>
      0x10000 <= cp <= 0x10FFFF
      && ProperHex(high, 0xD800 + (cp - 0x10000) / 0x400) && ProperHex(low, 0xDC00 + (cp - 0x10000) % 0x400)
  }

  function PieceText(p: Piece): (s: string)
    ensures s != ""
  {
    match p
    case Raw(c) => [c]
    case Short(k) => "\\" + [LETTERS[k]]
    case Unit(h) => "\\u" + HexText(h)
    case Pair(_, high, low) => "\\u" + HexText(high) + "\\u" + HexText(low)
  }

  function PieceMeaning(p: Piece): string
    requires ProperPiece(p)
  {
    match p
    case Raw(c) => [c]
    case Short(k) => [CHARACTERS[k]]
    case Unit(h) => Utf8.Encode(HexValueOf(h.digits))
    case Pair(cp, _, _) => Utf8.Encode(cp)
  }

  predicate ProperPieces(ps: seq<Piece>)
  {
    forall i :: 0 <= i < |ps| ==> ProperPiece(ps[i])
  }

  /** The pieces, the closing quote, and what follows. */
  function Spelled(ps: seq<Piece>, rest: string): (s: string)
    ensures s != ""
  {
    if ps == [] then "\"" + rest else PieceText(ps[0]) + Spelled(ps[1..], rest)
  }

  function Meant(ps: seq<Piece>): string
    requires ProperPieces(ps)
  {
    if ps == [] then "" else PieceMeaning(ps[0]) + Meant(ps[1..])
  }

  lemma ValueSnoc(ds: seq<Digit>, d: Digit)
    ensures HexValueOf(ds + [d]) == HexValueOf(ds) * 16 + d.value
  {
    assert (ds + [d])[..|ds|] == ds;
  }

  lemma ThreeDigitValue(b: Digit, c: Digit, d: Digit)
    ensures HexValueOf([b, c, d]) == b.value * 0x100 + c.value * 0x10 + d.value
  {
    ValueSnoc([], b);
    ValueSnoc([b], c);
    ValueSnoc([b, c], d);
    assert [] + [b] == [b] && [b] + [c] == [b, c] && [b, c] + [d] == [b, c, d];
  }

  lemma FourDigitValue(a: Digit, b: Digit, c: Digit, d: Digit)
    ensures HexValueOf([a, b, c, d]) == a.value * 0x1000 + b.value * 0x100 + c.value * 0x10 + d.value
  {
    ThreeDigitValue(a, b, c);
    ValueSnoc([a, b, c], d);
    assert [a, b, c] + [d] == [a, b, c, d];
  }

  lemma {:induction false} DigitAt(ds: seq<Digit>, i: nat)
    requires i < |ds|
    ensures HexValue(DigitsText(ds)[i]) == Some(ds[i].value) && DigitsText(ds)[i] != '+' && DigitsText(ds)[i] as int < 0x80
  {
    if i > 0 { DigitAt(ds[1..], i - 1); }
  }

  lemma HexReads(h: Hex, n: nat)
    requires ProperHex(h, n)
    ensures |HexText(h)| == 4 && HexNumber(HexText(h)) == Some(n) && HexText(h)[3] as int < 0x80
  {
    if h.plus { PlusReads(h.digits); } else { DigitsRead(h.digits); }
    hide HexNumber, HexValueOf, DigitsText;
    if !h.plus { assert "" + DigitsText(h.digits) == DigitsText(h.digits); }
  }

  lemma NumberOfFour(t: string, a: nat, b: nat, c: nat, d: nat)
    requires |t| == 4 && t[0] != '+'
    requires HexValue(t[0]) == Some(a) && HexValue(t[1]) == Some(b) && HexValue(t[2]) == Some(c) && HexValue(t[3]) == Some(d)
    ensures HexNumber(t) == Some(a * 0x1000 + b * 0x100 + c * 0x10 + d)
  {
    hide HexValue;
  }

  lemma NumberAfterPlus(t: string, b: nat, c: nat, d: nat)
    requires |t| == 4 && t[0] == '+'
    requires HexValue(t[1]) == Some(b) && HexValue(t[2]) == Some(c) && HexValue(t[3]) == Some(d)
    ensures HexNumber(t) == Some(b * 0x100 + c * 0x10 + d)
  {
    hide HexValue;
  }

  lemma DigitsRead(ds: seq<Digit>)
    requires |ds| == 4
    ensures HexNumber(DigitsText(ds)) == Some(HexValueOf(ds)) && DigitsText(ds)[3] as int < 0x80
  {
    hide *;
    DigitAt(ds, 0);
    DigitAt(ds, 1);
    DigitAt(ds, 2);
    DigitAt(ds, 3);
    assert ds == [ds[0], ds[1], ds[2], ds[3]];
    FourDigitValue(ds[0], ds[1], ds[2], ds[3]);
    NumberOfFour(DigitsText(ds), ds[0].value, ds[1].value, ds[2].value, ds[3].value);
  }

  lemma PlusReads(ds: seq<Digit>)
    requires |ds| == 3
    ensures HexNumber("+" + DigitsText(ds)) == Some(HexValueOf(ds)) && ("+" + DigitsText(ds))[3] as int < 0x80
  {
    hide *;
    DigitAt(ds, 0);
    DigitAt(ds, 1);
    DigitAt(ds, 2);
    assert ds == [ds[0], ds[1], ds[2]];
    ThreeDigitValue(ds[0], ds[1], ds[2]);
    NumberAfterPlus("+" + DigitsText(ds), ds[0].value, ds[1].value, ds[2].value);
  }

  lemma HexParses(h: Hex, n: nat, rest: string)
    requires ProperHex(h, n) && NoStray(HexText(h) + rest)
    ensures ParseHex4(HexText(h) + rest) == Got(n, rest)
  {
    HexReads(h, n);
    hide HexText, HexNumber, HexValueOf;
    var t := HexText(h) + rest;
    assert t[..4] == HexText(h) && t[4..] == rest;
    assert t[3] == HexText(h)[3];
  }

  lemma NoStrayAfter(a: string, b: string)
    requires NoStray(a + b)
    ensures NoStray(b)
  {
    var t := a + b;
    forall i | 0 <= i < |b| - 1 && b[i] as int < 0x80 ensures !Utf8.IsContinuation(b[i + 1]) {
      assert t[|a| + i] == b[i] && t[|a| + i + 1] == b[i + 1];
    }
  }

  lemma PieceParses(p: Piece, rest: string)
    requires ProperPiece(p) && !p.Raw? && NoStray(PieceText(p) + rest)
    ensures PieceText(p)[0] == '\\' && ParseEscape((PieceText(p) + rest)[1..]) == Got(PieceMeaning(p), rest)
  {
    match p
    case Short(k) =>
      assert (PieceText(p) + rest)[1..] == [LETTERS[k]] + rest && ([LETTERS[k]] + rest)[1..] == rest;
      ShortParses(k, rest);
    case Unit(h) =>
      UnitText(h, rest);
      hide PieceText, ProperHex, HexText, HexValueOf, ParseEscape, NoStray;
      UnitParses(h, HexValueOf(h.digits), rest);
    case Pair(cp, high, low) =>
      FourParts(HexText(high), HexText(low), rest);
      hide ProperHex, HexText, ParseEscape, NoStray;
      PairParses(cp, high, low, rest);
  }

  lemma UnitText(h: Hex, rest: string)
    ensures PieceText(Unit(h)) + rest == "\\u" + (HexText(h) + rest) && PieceText(Unit(h))[0] == '\\'
  {
    hide HexText;
    Grouped("\\u", HexText(h), rest);
  }

  lemma ShortParses(k: Letter, rest: string)
    ensures ParseEscape([LETTERS[k]] + rest) == Got([CHARACTERS[k]], rest)
  {
    assert ([LETTERS[k]] + rest)[1..] == rest;
  }

  lemma UnitParses(h: Hex, n: nat, rest: string)
    requires ProperHex(h, n) && Utf8.IsScalar(n) && NoStray("\\u" + (HexText(h) + rest))
    ensures ParseEscape(("\\u" + (HexText(h) + rest))[1..]) == Got(Utf8.Encode(n), rest)
  {
    var u := HexText(h) + rest;
    NoStrayAfter("\\u", u);
    HexParses(h, n, rest);
    hide HexText, ParseHex4, ProperHex, NoStray, Utf8.Encode, ParseEscape;
    EscapeOfUnicode(u);
  }

  lemma PairParses(cp: int, high: Hex, low: Hex, rest: string)
    requires ProperPiece(Pair(cp, high, low)) && NoStray("\\u" + (HexText(high) + ("\\u" + (HexText(low) + rest))))
    ensures ParseEscape(("\\u" + (HexText(high) + ("\\u" + (HexText(low) + rest))))[1..]) == Got(Utf8.Encode(cp), rest)
  {
    hide *;
    var v := HexText(low) + rest;
    var w := "\\u" + v;
    var u := HexText(high) + w;
    NoStrayAfter("\\u", u);
    NoStrayAfter(HexText(high), w);
    NoStrayAfter("\\u", v);
    PairUnits(cp, high, low);
    HexParses(high, 0xD800 + (cp - 0x10000) / 0x400, w);
    HexParses(low, 0xDC00 + (cp - 0x10000) % 0x400, rest);
    UnicodeOfPair(u, cp, w, v, rest);
    EscapeOfUnicode(u);
  }

  lemma PairUnits(cp: int, high: Hex, low: Hex)
    requires ProperPiece(Pair(cp, high, low))
    ensures 0x10000 <= cp <= 0x10FFFF
    ensures ProperHex(high, 0xD800 + (cp - 0x10000) / 0x400) && ProperHex(low, 0xDC00 + (cp - 0x10000) % 0x400)
  {
  }

  lemma UnicodeOfPair(u: string, cp: int, w: string, v: string, rest: string)
    requires 0x10000 <= cp <= 0x10FFFF && w == "\\u" + v
    requires ParseHex4(u) == Got(0xD800 + (cp - 0x10000) / 0x400, w) && ParseHex4(v) == Got(0xDC00 + (cp - 0x10000) % 0x400, rest)
    ensures ParseUnicode(u) == Got(Utf8.Encode(cp), rest)
  {
    hide ParseHex4, Utf8.Encode;
    assert w[0] == '\\' && w[1] == 'u' && w[2..] == v;
  }

  lemma EscapeOfUnicode(u: string)
    ensures ParseEscape(("\\u" + u)[1..]) == ParseUnicode(u)
  {
    hide ParseUnicode;
    var t := "\\u" + u;
    assert t[1..] == "u" + u && t[1..][1..] == u;
  }

  lemma {:induction false} BodySpelled(ps: seq<Piece>, rest: string)
    requires ProperPieces(ps) && NoStray(Spelled(ps, rest))
    ensures ParseBody(Spelled(ps, rest)) == Got(Meant(ps), rest)
  {
    var t := Spelled(ps, rest);
    if ps == [] {
      assert t[1..] == rest;
    } else {
      var u := Spelled(ps[1..], rest);
      assert t == PieceText(ps[0]) + u;
      NoStrayAfter(PieceText(ps[0]), u);
      BodySpelled(ps[1..], rest);
      hide NoStray, Spelled, ParseEscape;
      if ps[0].Raw? {
        assert t[1..] == u;
        assert ProperPiece(ps[0]) && t[0] != '"' && t[0] != '\\';
      } else {
        PieceParses(ps[0], u);
      }
    }
  }

  // ---- Which strings are accepted ----------------------------------------

  lemma HexDigitWritten(c: char) returns (d: Digit)
    requires HexValue(c).Some?
    ensures DigitsText([d]) == [c] && d.value == HexValue(c).value
  {
    d := Digit(HexValue(c).value, 'A' <= c <= 'F');
    assert [d][1..] == [];
  }

  lemma HexWritten(t: string) returns (h: Hex)
    requires ParseHex4(t).Got?
    ensures ProperHex(h, ParseHex4(t).value) && t == HexText(h) + ParseHex4(t).rest
  {
    var b := HexDigitWritten(t[1]);
    var c := HexDigitWritten(t[2]);
    var d := HexDigitWritten(t[3]);
    hide HexValue, DigitsText, HexValueOf;
    assert t == t[..4] + t[4..];
    if t[0] == '+' {
      h := Hex(true, [b, c, d]);
      ThreeDigitValue(b, c, d);
      TextOfThree(b, c, d);
    } else {
      var a := HexDigitWritten(t[0]);
      h := Hex(false, [a, b, c, d]);
      FourDigitValue(a, b, c, d);
      TextOfFour(a, b, c, d);
    }
    assert HexText(h) == t[..4];
  }

  lemma TextOfThree(b: Digit, c: Digit, d: Digit)
    ensures DigitsText([b, c, d]) == DigitsText([b]) + DigitsText([c]) + DigitsText([d])
  {
    assert [b, c, d][1..] == [c, d] && [c, d][1..] == [d] && [b][1..] == [] && [c][1..] == [] && [d][1..] == [];
  }

  lemma TextOfFour(a: Digit, b: Digit, c: Digit, d: Digit)
    ensures DigitsText([a, b, c, d]) == DigitsText([a]) + DigitsText([b]) + DigitsText([c]) + DigitsText([d])
  {
    TextOfThree(b, c, d);
    assert [a, b, c, d][1..] == [b, c, d] && [a][1..] == [];
  }

  lemma UnicodeWritten(t: string) returns (p: Piece)
    requires ParseUnicode(t).Got?
    ensures ProperPiece(p) && PieceMeaning(p) == ParseUnicode(t).value && "\\u" + t == PieceText(p) + ParseUnicode(t).rest
  {
    UnicodeUnits(t);
    hide *;
    var h := HexWritten(t);
    if 0xD800 <= ParseHex4(t).value <= 0xDBFF {
      p := PairWritten(t, h);
    } else {
      p := UnitWritten(h, ParseHex4(t).value, ParseHex4(t).rest);
    }
  }

  lemma UnicodeUnits(t: string)
    requires ParseUnicode(t).Got?
    ensures ParseHex4(t).Got?
    ensures var n := ParseHex4(t).value;
      n < 0xD800 || n > 0xDBFF ==> Utf8.IsScalar(n) && ParseUnicode(t) == Got(Utf8.Encode(n), ParseHex4(t).rest)
  {
    hide ParseHex4, Utf8.Encode;
  }

  lemma OpenedEscape(u: string)
    requires |u| >= 2 && u[0] == '\\' && u[1] == 'u'
    ensures u == "\\u" + u[2..]
  {
  }

  lemma UnitWritten(h: Hex, n: nat, rest: string) returns (p: Piece)
    requires ProperHex(h, n) && Utf8.IsScalar(n)
    ensures ProperPiece(p) && PieceMeaning(p) == Utf8.Encode(n) && "\\u" + (HexText(h) + rest) == PieceText(p) + rest
  {
    p := Unit(h);
    hide HexText, Utf8.Encode;
    Grouped("\\u", HexText(h), rest);
  }

  lemma Grouped(a: string, b: string, c: string)
    ensures a + (b + c) == a + b + c
  {
  }

  /** What an accepted pair of code units gives. */
  lemma PairMeaning(t: string, u: string)
    requires ParseUnicode(t).Got? && ParseHex4(t).rest == u && 0xD800 <= ParseHex4(t).value <= 0xDBFF
    ensures |u| >= 2 && u[0] == '\\' && u[1] == 'u' && ParseHex4(u[2..]).Got?
    ensures var n, m := ParseHex4(t).value, ParseHex4(u[2..]).value;
      0xDC00 <= m <= 0xDFFF && ParseUnicode(t) == Got(Utf8.Encode(0x10000 + (n - 0xD800) * 0x400 + (m - 0xDC00)), ParseHex4(u[2..]).rest)
  {
    hide ParseHex4, Utf8.Encode;
  }

  lemma PairWritten(t: string, high: Hex) returns (p: Piece)
    requires ParseUnicode(t).Got? && ParseHex4(t).Got? && 0xD800 <= ParseHex4(t).value <= 0xDBFF
    requires ProperHex(high, ParseHex4(t).value) && t == HexText(high) + ParseHex4(t).rest
    ensures ProperPiece(p) && PieceMeaning(p) == ParseUnicode(t).value && "\\u" + t == PieceText(p) + ParseUnicode(t).rest
  {
    hide *;
    var u := ParseHex4(t).rest;
    PairMeaning(t, u);
    var low := HexWritten(u[2..]);
    p := PairOf(high, ParseHex4(t).value, low, ParseHex4(u[2..]).value);
    PairText(t, high, u, low, ParseHex4(u[2..]).rest);
  }

  lemma PairOf(high: Hex, n: nat, low: Hex, m: nat) returns (p: Piece)
    requires ProperHex(high, n) && ProperHex(low, m) && 0xD800 <= n <= 0xDBFF && 0xDC00 <= m <= 0xDFFF
    ensures ProperPiece(p) && PieceText(p) == "\\u" + HexText(high) + "\\u" + HexText(low)
    ensures PieceMeaning(p) == Utf8.Encode(0x10000 + (n - 0xD800) * 0x400 + (m - 0xDC00))
  {
    Surrogates(n, m);
    p := Pair(0x10000 + (n - 0xD800) * 0x400 + (m - 0xDC00), high, low);
    hide ProperHex, Utf8.Encode, HexText;
  }

  lemma PairText(t: string, high: Hex, u: string, low: Hex, rest: string)
    requires t == HexText(high) + u && |u| >= 2 && u[0] == '\\' && u[1] == 'u' && u[2..] == HexText(low) + rest
    ensures "\\u" + t == "\\u" + HexText(high) + "\\u" + HexText(low) + rest
  {
    hide HexText;
    OpenedEscape(u);
    FourParts(HexText(high), HexText(low), rest);
  }

  lemma Surrogates(high: int, low: int)
    requires 0xD800 <= high <= 0xDBFF && 0xDC00 <= low <= 0xDFFF
    ensures var cp := 0x10000 + (high - 0xD800) * 0x400 + (low - 0xDC00);
      0x10000 <= cp <= 0x10FFFF && high == 0xD800 + (cp - 0x10000) / 0x400 && low == 0xDC00 + (cp - 0x10000) % 0x400
  {
  }

  lemma FourParts(a: string, b: string, rest: string)
    ensures "\\u" + (a + ("\\u" + (b + rest))) == "\\u" + a + "\\u" + b + rest
  {
  }

  lemma LetterWritten(t: string) returns (k: Letter)
    requires ParseEscape(t).Got? && t[0] != 'u'
    ensures LETTERS[k] == t[0] && ParseEscape(t) == Got([CHARACTERS[k]], t[1..])
  {
    k := if t[0] == '"' then 0 else if t[0] == '\\' then 1 else if t[0] == '/' then 2 else if t[0] == 'n' then 3
      else if t[0] == 'r' then 4 else if t[0] == 't' then 5 else if t[0] == 'b' then 6 else 7;
  }

  lemma EscapedUnicode(t: string)
    requires ParseEscape(t).Got? && t[0] == 'u'
    ensures ParseEscape(t) == ParseUnicode(t[1..]) && "\\" + t == "\\u" + t[1..]
  {
    hide ParseUnicode;
  }

  lemma EscapeWritten(t: string) returns (p: Piece)
    requires ParseEscape(t).Got?
    ensures ProperPiece(p) && PieceMeaning(p) == ParseEscape(t).value && "\\" + t == PieceText(p) + ParseEscape(t).rest
  {
    if t[0] == 'u' {
      EscapedUnicode(t);
      hide *;
      p := UnicodeWritten(t[1..]);
    } else {
      var k := LetterWritten(t);
      hide ParseEscape;
      p := Short(k);
      assert t == [LETTERS[k]] + t[1..];
    }
  }

  /** The pieces that an accepted string is written in. */
  lemma {:induction false} BodyWritten(t: string) returns (ps: seq<Piece>)
    requires ParseBody(t).Got?
    ensures ProperPieces(ps) && Meant(ps) == ParseBody(t).value && t == Spelled(ps, ParseBody(t).rest)
    decreases |t|
  {
    if t[0] == '"' {
      ps := [];
      assert t == "\"" + t[1..];
    } else if t[0] == '\\' {
      var p := EscapeWritten(t[1..]);
      var rest := BodyWritten(ParseEscape(t[1..]).rest);
      ps := PiecesCons(p, rest, ParseBody(t).rest);
      assert t == "\\" + t[1..];
    } else {
      var rest := BodyWritten(t[1..]);
      ps := PiecesCons(Raw(t[0]), rest, ParseBody(t).rest);
      assert t == [t[0]] + t[1..];
    }
  }

  lemma PiecesCons(p: Piece, ps: seq<Piece>, rest: string) returns (all: seq<Piece>)
    requires ProperPiece(p) && ProperPieces(ps)
    ensures ProperPieces(all) && Meant(all) == PieceMeaning(p) + Meant(ps) && Spelled(all, rest) == PieceText(p) + Spelled(ps, rest)
  {
    all := [p] + ps;
    assert all[1..] == ps;
  }

  // ---- Numbers -----------------------------------------------------------

  /** The digits of an exponent, after its mark and its sign. */
  function ExponentDigits(x: string): string
    requires x != ""
  {
    if |x| > 1 && x[1] in "+-" then x[2..] else x[1..]
  }

  predicate JsonNumber(n: NumberToken)
  {
    WellFormedNumber(n.(exponent := ""))
    && (n.exponent != "" ==> n.exponent[0] in "eE" && ExponentDigits(n.exponent) != "" && AllDigits(ExponentDigits(n.exponent)))
  }

  lemma ExponentParses(x: string, rest: string)
    requires x != "" ==> x[0] in "eE" && ExponentDigits(x) != "" && AllDigits(ExponentDigits(x))
    requires EndsNumber(rest)
    ensures ParseExponent(x + rest) == Got(x, rest)
  {
    if x == "" {
      assert x + rest == rest;
    } else {
      var ds := ExponentDigits(x);
      var t, k := x + rest, |x| - |ds|;
      DigitRunOf(ds, rest);
      assert t[k..] == ds + rest && t[..|x|] == x && t[|x|..] == rest;
      assert |x| > 1 && t[1] == x[1];
      assert k == 2 <==> t[1] in "+-";
    }
  }

  lemma FractionThen(f: string, rest: string)
    requires f != "" ==> |f| > 1 && f[0] == '.' && AllDigits(f[1..])
    requires rest == [] || (!IsDigit(rest[0]) && rest[0] != '.')
    ensures ParseFraction(f + rest) == Got(f, rest)
  {
    if f == "" {
      assert f + rest == rest;
    } else {
      DigitRunOf(f[1..], rest);
      assert (f + rest)[1..] == f[1..] + rest;
      assert (f + rest)[..|f|] == f && (f + rest)[|f|..] == rest;
    }
  }

  lemma TokenParses(n: NumberToken, rest: string)
    requires JsonNumber(n) && EndsNumber(rest)
    ensures ParseNumber(NumberText(n) + rest) == Got(n, rest)
  {
    var v := n.exponent + rest;
    var u := n.fraction + v;
    TokenUnsigned(n, rest);
    WholeParses(n.whole, u);
    FractionThen(n.fraction, v);
    ExponentParses(n.exponent, rest);
    hide NumberText, ParseWhole, ParseFraction, ParseExponent, JsonNumber;
  }

  lemma TokenUnsigned(n: NumberToken, rest: string)
    requires JsonNumber(n)
    ensures var t := NumberText(n) + rest;
      (if t != [] && t[0] == '-' then t[1..] else t) == n.whole + (n.fraction + (n.exponent + rest))
      && (n.negative <==> t != [] && t[0] == '-')
  {
    var w := n.whole + (n.fraction + (n.exponent + rest));
    assert IsDigit(n.whole[0]) && w[0] == n.whole[0];
    assert NumberText(n) + rest == (if n.negative then "-" else "") + w;
    if n.negative { assert (NumberText(n) + rest)[1..] == w; }
  }

  lemma DigitsOfRun(t: string)
    ensures AllDigits(t[..DigitRun(t)])
  {
  }

  /** An accepted number is a number token. */
  lemma TokenWritten(t: string)
    requires ParseNumber(t).Got?
    ensures var r := ParseNumber(t); JsonNumber(r.value) && t == NumberText(r.value) + r.rest
  {
    var s := if t != [] && t[0] == '-' then t[1..] else t;
    var u := ParseWhole(s).rest;
    var v := ParseFraction(u).rest;
    WholeWritten(s);
    FractionWritten(u);
    ExponentWritten(v);
    NumberParts(t);
    var n, z := ParseNumber(t).value, ParseNumber(t).rest;
    hide ParseWhole, ParseFraction, ParseExponent, ParseNumber, NumberText, IsDigit, AllDigits, ExponentDigits;
    TextOfToken(t, n, z);
  }

  lemma NumberParts(t: string)
    requires ParseNumber(t).Got?
    ensures var n := ParseNumber(t).value; var s := if t != [] && t[0] == '-' then t[1..] else t;
      ParseWhole(s).Got? && ParseWhole(s).value == n.whole && ParseFraction(ParseWhole(s).rest).Got?
    ensures var n := ParseNumber(t).value; var u := ParseWhole(if t != [] && t[0] == '-' then t[1..] else t).rest;
      ParseFraction(u).value == n.fraction && ParseExponent(ParseFraction(u).rest) == Got(n.exponent, ParseNumber(t).rest)
    ensures ParseNumber(t).value.negative <==> t != [] && t[0] == '-'
  {
    hide ParseWhole, ParseFraction, ParseExponent;
  }

  lemma TextOfToken(t: string, n: NumberToken, rest: string)
    requires n.negative <==> t != [] && t[0] == '-'
    requires (if n.negative then t[1..] else t) == n.whole + (n.fraction + (n.exponent + rest))
    ensures t == NumberText(n) + rest
  {
    FivePieces(if n.negative then "-" else "", n.whole, n.fraction, n.exponent, rest);
    var s := n.whole + (n.fraction + (n.exponent + rest));
    if n.negative { assert t == "-" + t[1..]; } else { assert "" + s == s; }
  }

  lemma FivePieces(a: string, b: string, c: string, d: string, e: string)
    ensures a + b + c + d + e == a + (b + (c + (d + e)))
  {
  }

  lemma WholeWritten(t: string)
    requires ParseWhole(t).Got?
    ensures var w := ParseWhole(t).value;
      w != "" && AllDigits(w) && (w[0] == '0' ==> |w| == 1) && t == w + ParseWhole(t).rest
  {
    DigitsOfRun(t);
  }

  lemma FractionWritten(t: string)
    requires ParseFraction(t).Got?
    ensures var f := ParseFraction(t).value;
      (f != "" ==> |f| > 1 && f[0] == '.' && AllDigits(f[1..])) && t == f + ParseFraction(t).rest
  {
    if t != [] && t[0] == '.' {
      DigitsOfRun(t[1..]);
      var n := DigitRun(t[1..]);
      assert t[..1 + n][1..] == t[1..][..n];
    }
  }

  lemma ExponentWritten(t: string)
    requires ParseExponent(t).Got?
    ensures var x := ParseExponent(t).value;
      (x != "" ==> x[0] in "eE" && ExponentDigits(x) != "" && AllDigits(ExponentDigits(x))) && t == x + ParseExponent(t).rest
  {
    if t != [] && t[0] in "eE" {
      var k := if |t| > 1 && t[1] in "+-" then 2 else 1;
      DigitsOfRun(t[k..]);
      var n := DigitRun(t[k..]);
      var x := t[..k + n];
      assert x[k..] == t[k..][..n];
      assert x[1] == t[1];
    }
  }

  // ---- Texts -------------------------------------------------------------

  /** A value as it is written, with its white space. */
  datatype Written =
    | WNull
    | WBool(b: bool)
    | WNum(n: NumberToken)
    | WStr(pieces: seq<Piece>)
    | WArr(gap: string, items: seq<Item>)
    | WObj(gap: string, fields: seq<Field>)

  datatype Item = Item(before: string, value: Written, after: string)

  datatype Field = Field(before: string, key: seq<Piece>, afterKey: string, value: Item)

  predicate AllSpace(s: string)
  {
    forall i :: 0 <= i < |s| ==> s[i] in " \t\n\r"
  }

  predicate Proper(x: Written)
    decreases x, 1
  {
    match x
    case WNull => true
    case WBool(_) => true
    case WNum(n) => JsonNumber(n)
    case WStr(ps) => ProperPieces(ps)
    case WArr(gap, items) => AllSpace(gap) && ProperItems(items)
    case WObj(gap, fields) => AllSpace(gap) && ProperFields(fields)
  }

  predicate ProperItem(x: Item)
    decreases x, 2
  {
    AllSpace(x.before) && Proper(x.value) && AllSpace(x.after)
  }

  predicate ProperItems(items: seq<Item>)
    decreases items, 0
  {
    items == [] || (ProperItem(items[0]) && ProperItems(items[1..]))
  }

  predicate ProperFields(fields: seq<Field>)
    decreases fields, 0
  {
    fields == []
    || (AllSpace(fields[0].before) && ProperPieces(fields[0].key) && AllSpace(fields[0].afterKey)
        && ProperItem(fields[0].value) && ProperFields(fields[1..]))
  }

  /** The text of a value, and what follows. */
  function Text(x: Written, rest: string): string
    decreases x, 1
  {
    match x
    case WNull => "null" + rest
    case WBool(b) => (if b then "true" else "false") + rest
    case WNum(n) => NumberText(n) + rest
    case WStr(ps) => "\"" + Spelled(ps, rest)
    case WArr(gap, items) => "[" + (gap + ItemsText(items, "]" + rest))
    case WObj(gap, fields) => "{" + (gap + FieldsText(fields, "}" + rest))
  }

  function ItemText(x: Item, rest: string): string
    decreases x, 2
  {
    x.before + Text(x.value, x.after + rest)
  }

  function ItemsText(items: seq<Item>, rest: string): string
    decreases items, 0
  {
    if items == [] then rest
    else if |items| == 1 then ItemText(items[0], rest)
    else ItemText(items[0], "," + ItemsText(items[1..], rest))
  }

  function FieldText(x: Field, rest: string): string
    decreases x, 3
  {
    x.before + ("\"" + Spelled(x.key, x.afterKey + (":" + ItemText(x.value, rest))))
  }

  function FieldsText(fields: seq<Field>, rest: string): string
    decreases fields, 0
  {
    if fields == [] then rest
    else if |fields| == 1 then FieldText(fields[0], rest)
    else FieldText(fields[0], "," + FieldsText(fields[1..], rest))
  }

  /** The value that is written: of fields with one name the last. */
  function Meaning(x: Written): JsonValue
    requires Proper(x)
    decreases x, 1
  {
    match x
    case WNull => Null
    case WBool(b) => Bool(b)
    case WNum(n) => Num(n)
    case WStr(ps) => Str(Meant(ps))
    case WArr(_, items) => Arr(ItemsMeaning(items))
    case WObj(_, fields) => Obj(FieldsMeaning(fields))
  }

  function ItemMeaning(x: Item): JsonValue
    requires ProperItem(x)
    decreases x, 2
  {
    Meaning(x.value)
  }

  function ItemsMeaning(items: seq<Item>): seq<JsonValue>
    requires ProperItems(items)
    decreases items, 0
  {
    if items == [] then [] else [ItemMeaning(items[0])] + ItemsMeaning(items[1..])
  }

  function FieldsMeaning(fields: seq<Field>): map<string, JsonValue>
    requires ProperFields(fields)
    decreases fields, 0
  {
    if fields == [] then map[] else map[Meant(fields[0].key) := ItemMeaning(fields[0].value)] + FieldsMeaning(fields[1..])
  }

  // ---- Written texts are accepted ----------------------------------------

  lemma {:induction false} GapSkipped(gap: string, t: string)
    requires AllSpace(gap)
    ensures SkipSpace(gap + t) == SkipSpace(t)
  {
    if gap == "" {
      assert gap + t == t;
    } else {
      assert (gap + t)[1..] == gap[1..] + t;
      GapSkipped(gap[1..], t);
    }
  }

  lemma SkipTwice(t: string)
    ensures SkipSpace(SkipSpace(t)) == SkipSpace(t)
  {
  }

  /** White space before a value makes no difference. */
  lemma ValueAfterGap(gap: string, t: string)
    requires AllSpace(gap)
    ensures ParseValue(gap + t) == ParseValue(t)
  {
    GapSkipped(gap, t);
    hide SkipSpace, ParseString, ParseObject, ParseArray, ParseNumber, ParseLiteral;
  }

  lemma ValueSkipped(t: string)
    ensures ParseValue(SkipSpace(t)) == ParseValue(t)
  {
    SkipTwice(t);
    hide SkipSpace, ParseString, ParseObject, ParseArray, ParseNumber, ParseLiteral;
  }

  lemma TextHead(x: Written, rest: string)
    requires Proper(x)
    ensures Text(x, rest) != "" && !IsSpace(Text(x, rest)[0]) && Text(x, rest)[0] !in ",:}]"
  {
    if x.WNum? { TokenHead(x.n, rest); }
  }

  lemma TokenHead(n: NumberToken, rest: string)
    requires JsonNumber(n)
    ensures var t := NumberText(n) + rest; t != "" && (t[0] == '-' || IsDigit(t[0]))
  {
    assert IsDigit(n.whole[0]);
    assert NumberText(n)[0] == if n.negative then '-' else n.whole[0];
  }

  /** What a gap and a bracket or comma may follow. */
  lemma GapEndsNumber(gap: string, t: string)
    requires AllSpace(gap) && (t == [] || t[0] in ",]}")
    ensures EndsNumber(gap + t)
  {
    if gap != "" { assert (gap + t)[0] == gap[0] && IsSpace(gap[0]); } else { assert gap + t == t; }
  }

  lemma {:induction false} TextParses(x: Written, rest: string)
    requires Proper(x) && EndsNumber(rest) && NoStray(Text(x, rest))
    ensures ParseValue(Text(x, rest)) == Got(Meaning(x), rest)
    decreases x, 1
  {
    var t := Text(x, rest);
    match x
    case WNull => PlainWord("null", Null, rest);
    case WBool(b) => PlainWord(if b then "true" else "false", Bool(b), rest);
    case WNum(n) =>
      TokenParses(n, rest);
      TokenHead(n, rest);
      hide ParseValue, ParseNumber, NumberText, SkipSpace;
      ValueByHead(t);
    case WStr(ps) =>
      StringSpelled(ps, rest);
      hide ParseValue, ParseString, Spelled, SkipSpace;
      ValueByHead(t);
    case WArr(gap, items) =>
      NoStrayAfter("[", gap + ItemsText(items, "]" + rest));
      ArrayText(gap, items, rest);
      hide ParseValue, ParseArray, ItemsText, SkipSpace;
      ValueByHead(t);
    case WObj(gap, fields) =>
      NoStrayAfter("{", gap + FieldsText(fields, "}" + rest));
      ObjectText(gap, fields, rest);
      hide ParseValue, ParseObject, FieldsText, SkipSpace;
      ValueByHead(t);
  }

  lemma PlainWord(word: string, value: JsonValue, rest: string)
    requires (word == "null" && value == Null) || (word == "true" && value == Bool(true)) || (word == "false" && value == Bool(false))
    ensures ParseValue(word + rest) == Got(value, rest)
  {
    WordParses(word, value, rest);
    assert (word + rest)[0] == word[0];
    NoSpaceAhead(word + rest);
    hide ParseLiteral, SkipSpace;
  }

  lemma StringSpelled(ps: seq<Piece>, rest: string)
    requires ProperPieces(ps) && NoStray("\"" + Spelled(ps, rest))
    ensures ParseString("\"" + Spelled(ps, rest)) == Got(Meant(ps), rest)
  {
    var u := Spelled(ps, rest);
    NoStrayAfter("\"", u);
    BodySpelled(ps, rest);
    hide ParseBody, Spelled;
    assert ("\"" + u)[1..] == u;
  }

  lemma {:induction false} ArrayText(gap: string, items: seq<Item>, rest: string)
    requires AllSpace(gap) && ProperItems(items) && NoStray(gap + ItemsText(items, "]" + rest))
    ensures ParseArray("[" + (gap + ItemsText(items, "]" + rest))) == Got(Arr(ItemsMeaning(items)), rest)
    decreases items, 3
  {
    var v := ItemsText(items, "]" + rest);
    var u := gap + v;
    assert ("[" + u)[1..] == u;
    NoStrayAfter(gap, v);
    GapSkipped(gap, v);
    if items == [] {
      NoSpaceAhead(v);
      assert v[1..] == rest;
    } else {
      ItemsHead(items, "]" + rest);
      ItemsParsed(items, [], rest);
      assert [] + ItemsMeaning(items) == ItemsMeaning(items);
      hide SkipSpace, ParseItems, ItemsText, ItemsMeaning;
      ItemsSkipped(v);
    }
  }

  lemma ItemsSkipped(t: string)
    ensures ParseItems(SkipSpace(t), []) == ParseItems(t, [])
  {
    ValueSkipped(t);
    hide ParseValue, SkipSpace;
  }

  lemma ItemsHead(items: seq<Item>, rest: string)
    requires items != [] && ProperItems(items)
    ensures SkipSpace(ItemsText(items, rest)) != "" && SkipSpace(ItemsText(items, rest))[0] != ']'
  {
    var more := if |items| == 1 then rest else "," + ItemsText(items[1..], rest);
    assert ItemsText(items, rest) == ItemText(items[0], more);
    hide ItemsText;
    ItemHead(items[0], more);
  }

  lemma ItemHead(x: Item, rest: string)
    requires ProperItem(x)
    ensures SkipSpace(ItemText(x, rest)) == Text(x.value, x.after + rest)
    ensures Text(x.value, x.after + rest) != "" && Text(x.value, x.after + rest)[0] !in ",:}]"
  {
    var t := Text(x.value, x.after + rest);
    TextHead(x.value, x.after + rest);
    hide Text;
    GapSkipped(x.before, t);
    NoSpaceAhead(t);
  }

  /** One value with the white space around it. */
  lemma {:induction false} ItemParses(x: Item, rest: string)
    requires ProperItem(x) && rest != [] && rest[0] in ",]}" && NoStray(ItemText(x, rest))
    ensures ParseValue(ItemText(x, rest)) == Got(ItemMeaning(x), x.after + rest)
    ensures SkipSpace(x.after + rest) == rest
    decreases x, 2
  {
    var t := Text(x.value, x.after + rest);
    NoStrayAfter(x.before, t);
    GapEndsNumber(x.after, rest);
    TextParses(x.value, x.after + rest);
    hide Text, ParseValue;
    ValueAfterGap(x.before, t);
    GapSkipped(x.after, rest);
    NoSpaceAhead(rest);
  }

  lemma {:induction false} ItemsParsed(items: seq<Item>, before: seq<JsonValue>, rest: string)
    requires items != [] && ProperItems(items) && NoStray(ItemsText(items, "]" + rest))
    ensures ParseItems(ItemsText(items, "]" + rest), before) == Got(Arr(before + ItemsMeaning(items)), rest)
    decreases items, 0
  {
    var tail := ItemsText(items[1..], "]" + rest);
    var more := if |items| == 1 then "]" + rest else "," + tail;
    var x := items[0];
    assert ItemsText(items, "]" + rest) == ItemText(x, more);
    ItemsMeaningCons(items, before);
    assert more[1..] == if |items| == 1 then rest else tail;
    hide ItemsText, ItemsMeaning, ItemMeaning;
    ItemParses(x, more);
    if |items| > 1 {
      NoStrayOfItem(x, more);
      NoStrayAfter(",", tail);
      ItemsParsed(items[1..], before + [ItemMeaning(x)], rest);
    }
    hide ItemText, SkipSpace, NoStray, ParseValue;
  }

  lemma ItemsMeaningCons(items: seq<Item>, before: seq<JsonValue>)
    requires items != [] && ProperItems(items)
    ensures before + ItemsMeaning(items) == before + [ItemMeaning(items[0])] + ItemsMeaning(items[1..])
    ensures |items| == 1 ==> before + ItemsMeaning(items) == before + [ItemMeaning(items[0])]
  {
    var h, t := [ItemMeaning(items[0])], ItemsMeaning(items[1..]);
    assert ItemsMeaning(items) == h + t;
    hide ItemsMeaning, ItemMeaning;
    Associative(before, h, t);
    if |items| == 1 { assert t == []; }
  }

  lemma {:induction false} NoStrayOfText(x: Written, rest: string)
    requires NoStray(Text(x, rest))
    ensures NoStray(rest)
    decreases x, 1
  {
    match x
    case WNull => NoStrayAfter("null", rest);
    case WBool(b) => NoStrayAfter(if b then "true" else "false", rest);
    case WNum(n) => NoStrayAfter(NumberText(n), rest);
    case WStr(ps) =>
      NoStrayAfter("\"", Spelled(ps, rest));
      NoStrayOfSpelled(ps, rest);
    case WArr(gap, items) =>
      NoStrayAfter("[", gap + ItemsText(items, "]" + rest));
      NoStrayAfter(gap, ItemsText(items, "]" + rest));
      NoStrayOfItems(items, "]" + rest);
      NoStrayAfter("]", rest);
    case WObj(gap, fields) =>
      NoStrayAfter("{", gap + FieldsText(fields, "}" + rest));
      NoStrayAfter(gap, FieldsText(fields, "}" + rest));
      NoStrayOfFields(fields, "}" + rest);
      NoStrayAfter("}", rest);
  }

  lemma {:induction false} NoStrayOfSpelled(ps: seq<Piece>, rest: string)
    requires NoStray(Spelled(ps, rest))
    ensures NoStray(rest)
  {
    if ps == [] {
      NoStrayAfter("\"", rest);
    } else {
      NoStrayAfter(PieceText(ps[0]), Spelled(ps[1..], rest));
      NoStrayOfSpelled(ps[1..], rest);
    }
  }

  lemma {:induction false} NoStrayOfItem(x: Item, rest: string)
    requires NoStray(ItemText(x, rest))
    ensures NoStray(rest)
    decreases x, 2
  {
    NoStrayAfter(x.before, Text(x.value, x.after + rest));
    NoStrayOfText(x.value, x.after + rest);
    NoStrayAfter(x.after, rest);
  }

  lemma {:induction false} NoStrayOfItems(items: seq<Item>, rest: string)
    requires NoStray(ItemsText(items, rest))
    ensures NoStray(rest)
    decreases items, 0
  {
    if items != [] {
      var more := if |items| == 1 then rest else "," + ItemsText(items[1..], rest);
      NoStrayOfItem(items[0], more);
      if |items| > 1 {
        NoStrayAfter(",", ItemsText(items[1..], rest));
        NoStrayOfItems(items[1..], rest);
      }
    }
  }

  lemma {:induction false} NoStrayOfField(x: Field, rest: string)
    requires NoStray(FieldText(x, rest))
    ensures NoStray("\"" + Spelled(x.key, x.afterKey + (":" + ItemText(x.value, rest))))
    ensures NoStray(ItemText(x.value, rest)) && NoStray(rest)
    decreases x, 3
  {
    var w := ":" + ItemText(x.value, rest);
    NoStrayAfter(x.before, "\"" + Spelled(x.key, x.afterKey + w));
    NoStrayAfter("\"", Spelled(x.key, x.afterKey + w));
    NoStrayOfSpelled(x.key, x.afterKey + w);
    NoStrayAfter(x.afterKey, w);
    NoStrayAfter(":", ItemText(x.value, rest));
    NoStrayOfItem(x.value, rest);
  }

  lemma {:induction false} NoStrayOfFields(fields: seq<Field>, rest: string)
    requires NoStray(FieldsText(fields, rest))
    ensures NoStray(rest)
    decreases fields, 0
  {
    if fields != [] {
      NoStrayOfField(fields[0], if |fields| == 1 then rest else "," + FieldsText(fields[1..], rest));
      if |fields| > 1 {
        NoStrayAfter(",", FieldsText(fields[1..], rest));
        NoStrayOfFields(fields[1..], rest);
      }
    }
  }

  lemma {:induction false} ObjectText(gap: string, fields: seq<Field>, rest: string)
    requires AllSpace(gap) && ProperFields(fields) && NoStray(gap + FieldsText(fields, "}" + rest))
    ensures ParseObject("{" + (gap + FieldsText(fields, "}" + rest))) == Got(Obj(FieldsMeaning(fields)), rest)
    decreases fields, 3
  {
    var v := FieldsText(fields, "}" + rest);
    var u := gap + v;
    assert ("{" + u)[1..] == u;
    NoStrayAfter(gap, v);
    GapSkipped(gap, v);
    if fields == [] {
      NoSpaceAhead(v);
      assert v[1..] == rest;
    } else {
      FieldsHead(fields, "}" + rest);
      FieldsParsed(fields, map[], rest);
      assert map[] + FieldsMeaning(fields) == FieldsMeaning(fields);
      hide SkipSpace, ParseMembers, FieldsText, FieldsMeaning;
      MembersSkipped(v);
    }
  }

  lemma MembersSkipped(t: string)
    ensures ParseMembers(SkipSpace(t), map[]) == ParseMembers(t, map[])
  {
    SkipTwice(t);
    hide ParseValue, SkipSpace, ParseString;
  }

  lemma FieldsHead(fields: seq<Field>, rest: string)
    requires fields != [] && ProperFields(fields)
    ensures SkipSpace(FieldsText(fields, rest)) != "" && SkipSpace(FieldsText(fields, rest))[0] == '"'
  {
    var x, more := fields[0], if |fields| == 1 then rest else "," + FieldsText(fields[1..], rest);
    assert FieldsText(fields, rest) == FieldText(x, more);
    var t := "\"" + Spelled(x.key, x.afterKey + (":" + ItemText(x.value, more)));
    hide FieldsText, Spelled, ItemText;
    GapSkipped(x.before, t);
    NoSpaceAhead(t);
  }

  /** One field: its name, the colon, and its value. */
  lemma {:induction false} FieldParses(x: Field, rest: string)
    requires AllSpace(x.before) && ProperPieces(x.key) && AllSpace(x.afterKey) && ProperItem(x.value)
    requires rest != [] && rest[0] in ",]}" && NoStray(FieldText(x, rest))
    ensures var v := x.afterKey + (":" + ItemText(x.value, rest));
      ParseString(SkipSpace(FieldText(x, rest))) == Got(Meant(x.key), v)
      && SkipSpace(v) == ":" + ItemText(x.value, rest)
    ensures ParseValue(ItemText(x.value, rest)) == Got(ItemMeaning(x.value), x.value.after + rest)
    ensures SkipSpace(x.value.after + rest) == rest
    decreases x, 3
  {
    NoStrayOfField(x, rest);
    ItemParses(x.value, rest);
    hide ItemText, ParseValue, ItemMeaning;
    var w := ":" + ItemText(x.value, rest);
    var t := "\"" + Spelled(x.key, x.afterKey + w);
    StringSpelled(x.key, x.afterKey + w);
    hide Spelled, ParseString;
    GapSkipped(x.before, t);
    NoSpaceAhead(t);
    GapSkipped(x.afterKey, w);
    NoSpaceAhead(w);
  }

  lemma {:induction false} FieldsParsed(fields: seq<Field>, before: map<string, JsonValue>, rest: string)
    requires fields != [] && ProperFields(fields) && NoStray(FieldsText(fields, "}" + rest))
    ensures ParseMembers(FieldsText(fields, "}" + rest), before) == Got(Obj(before + FieldsMeaning(fields)), rest)
    decreases fields, 0
  {
    var tail := FieldsText(fields[1..], "}" + rest);
    var more := if |fields| == 1 then "}" + rest else "," + tail;
    var x := fields[0];
    FieldsUnfold(fields, rest);
    FieldsMeaningCons(fields, before);
    assert more[1..] == if |fields| == 1 then rest else tail;
    hide *;
    FieldParses(x, more);
    if |fields| > 1 {
      NoStrayOfField(x, more);
      NoStrayAfter(",", tail);
      FieldsParsed(fields[1..], before[Meant(x.key) := ItemMeaning(x.value)], rest);
    }
    MembersStep(x, more, before);
  }

  lemma FieldsUnfold(fields: seq<Field>, rest: string)
    requires fields != [] && ProperFields(fields)
    ensures var x := fields[0];
      AllSpace(x.before) && ProperPieces(x.key) && AllSpace(x.afterKey) && ProperItem(x.value) && ProperFields(fields[1..])
    ensures FieldsText(fields, "}" + rest)
      == FieldText(fields[0], if |fields| == 1 then "}" + rest else "," + FieldsText(fields[1..], "}" + rest))
  {
  }

  lemma MembersStep(x: Field, more: string, before: map<string, JsonValue>)
    requires ProperPieces(x.key) && ProperItem(x.value) && more != [] && more[0] in ",}"
    requires var v := x.afterKey + (":" + ItemText(x.value, more));
      ParseString(SkipSpace(FieldText(x, more))) == Got(Meant(x.key), v) && SkipSpace(v) == ":" + ItemText(x.value, more)
    requires ParseValue(ItemText(x.value, more)) == Got(ItemMeaning(x.value), x.value.after + more)
    requires SkipSpace(x.value.after + more) == more
    ensures var all := before[Meant(x.key) := ItemMeaning(x.value)];
      ParseMembers(FieldText(x, more), before) == if more[0] == ',' then ParseMembers(more[1..], all) else Got(Obj(all), more[1..])
  {
    hide ParseString, ParseValue, SkipSpace, FieldText, ItemText, Meant, ItemMeaning, ProperPieces, ProperItem;
    var w := ":" + ItemText(x.value, more);
    assert w[1..] == ItemText(x.value, more);
  }

  lemma FieldsMeaningCons(fields: seq<Field>, before: map<string, JsonValue>)
    requires fields != [] && ProperFields(fields)
    ensures before + FieldsMeaning(fields)
      == before[Meant(fields[0].key) := ItemMeaning(fields[0].value)] + FieldsMeaning(fields[1..])
    ensures |fields| == 1 ==> before + FieldsMeaning(fields) == before[Meant(fields[0].key) := ItemMeaning(fields[0].value)]
  {
    var k, v, rest := Meant(fields[0].key), ItemMeaning(fields[0].value), FieldsMeaning(fields[1..]);
    assert FieldsMeaning(fields) == map[k := v] + rest;
    if |fields| == 1 { assert fields[1..] == []; }
    MapCons(before, k, v, rest);
    hide *;
  }

  lemma MapCons(before: map<string, JsonValue>, k: string, v: JsonValue, rest: map<string, JsonValue>)
    ensures before + (map[k := v] + rest) == before[k := v] + rest
    ensures rest == map[] ==> before + (map[k := v] + rest) == before[k := v]
  {
  }

  // ---- Accepted texts are written so -------------------------------------

  /** How much of a text is white space. */
  lemma {:induction false} GapWritten(t: string) returns (gap: string)
    ensures AllSpace(gap) && t == gap + SkipSpace(t)
  {
    if t != [] && IsSpace(t[0]) {
      gap := GapWritten(t[1..]);
      gap := [t[0]] + gap;
      assert t == [t[0]] + t[1..];
    } else {
      gap := "";
      assert t == "" + t;
    }
  }

  /** An accepted value as it is written, after its white space. */
  lemma {:induction false} ValueWritten(t: string) returns (gap: string, x: Written)
    requires ParseValue(t).Got?
    ensures AllSpace(gap) && Proper(x) && Meaning(x) == ParseValue(t).value && t == gap + Text(x, ParseValue(t).rest)
    decreases |t|, 3
  {
    hide *;
    var u := SkipSpace(t);
    gap := GapWritten(t);
    ValueHeads(t, u);
    if u[0] == '{' {
      x := ObjectWritten(u);
    } else if u[0] == '[' {
      x := ArrayWritten(u);
    } else if u[0] == 't' || u[0] == 'f' || u[0] == 'n' {
      x := WordsWritten(t, u);
    } else {
      x := TokensWritten(t, u);
    }
  }

  lemma WordsWritten(t: string, u: string) returns (x: Written)
    requires u == SkipSpace(t) && ParseValue(t).Got? && u != [] && u[0] in "tfn"
    ensures Proper(x) && Meaning(x) == ParseValue(t).value && u == Text(x, ParseValue(t).rest)
  {
    ValueHeads(t, u);
    hide SkipSpace, ParseValue, ParseLiteral;
    if u[0] == 'n' {
      WordWritten(u, "null", Null);
      x := WNull;
    } else {
      WordWritten(u, if u[0] == 't' then "true" else "false", Bool(u[0] == 't'));
      x := WBool(u[0] == 't');
    }
  }

  lemma TokensWritten(t: string, u: string) returns (x: Written)
    requires u == SkipSpace(t) && ParseValue(t).Got? && u != [] && u[0] !in "{[tfn"
    ensures Proper(x) && Meaning(x) == ParseValue(t).value && u == Text(x, ParseValue(t).rest)
  {
    ValueHeads(t, u);
    hide SkipSpace, ParseValue, ParseString, ParseNumber, Spelled, Meant, ProperPieces, JsonNumber, NumberText;
    if u[0] == '"' {
      var ps := StringWritten(u);
      x := WStr(ps);
    } else {
      TokenWritten(u);
      x := WNum(ParseNumber(u).value);
    }
  }

  lemma ValueHeads(t: string, u: string)
    requires u == SkipSpace(t) && ParseValue(t).Got?
    ensures u != [] && (u[0] in "\"{[tfn-" || IsDigit(u[0]))
    ensures u[0] == '"' ==> ParseString(u).Got? && ParseValue(t) == Got(Str(ParseString(u).value), ParseString(u).rest)
    ensures u[0] == '{' ==> ParseValue(t) == ParseObject(u)
    ensures u[0] == '[' ==> ParseValue(t) == ParseArray(u)
    ensures u[0] == 't' ==> ParseValue(t) == ParseLiteral(u, "true", Bool(true))
    ensures u[0] == 'f' ==> ParseValue(t) == ParseLiteral(u, "false", Bool(false))
    ensures u[0] == 'n' ==> ParseValue(t) == ParseLiteral(u, "null", Null)
    ensures u[0] == '-' || IsDigit(u[0]) ==>
      ParseNumber(u).Got? && ParseValue(t) == Got(Num(ParseNumber(u).value), ParseNumber(u).rest)
  {
    hide SkipSpace, ParseString, ParseObject, ParseArray, ParseNumber, ParseLiteral;
  }

  lemma WordWritten(t: string, word: string, value: JsonValue)
    requires word != [] && ParseLiteral(t, word, value).Got?
    ensures ParseLiteral(t, word, value).value == value && t == word + ParseLiteral(t, word, value).rest
  {
  }

  lemma StringWritten(t: string) returns (ps: seq<Piece>)
    requires ParseString(t).Got?
    ensures ProperPieces(ps) && Meant(ps) == ParseString(t).value && t == "\"" + Spelled(ps, ParseString(t).rest)
  {
    hide ParseBody;
    assert t == "\"" + t[1..];
    ps := BodyWritten(t[1..]);
  }

  lemma {:induction false} ArrayWritten(t: string) returns (x: Written)
    requires t != [] && t[0] == '[' && ParseArray(t).Got?
    ensures Proper(x) && Meaning(x) == ParseArray(t).value && t == Text(x, ParseArray(t).rest)
    decreases |t|, 2
  {
    var u := SkipSpace(t[1..]);
    var rest := ParseArray(t).rest;
    var gap := GapWritten(t[1..]);
    assert t == "[" + t[1..];
    hide SkipSpace, ParseItems;
    if u != [] && u[0] == ']' {
      x := WArr(gap, []);
      assert u == "]" + rest;
    } else {
      var items := ItemsWritten(u, []);
      assert [] + ItemsMeaning(items) == ItemsMeaning(items);
      x := WArr(gap, items);
    }
  }

  /** One value, the white space around it, and what follows. */
  lemma {:induction false} ItemWritten(t: string) returns (x: Item)
    requires ParseValue(t).Got?
    ensures ProperItem(x) && ItemMeaning(x) == ParseValue(t).value && t == ItemText(x, SkipSpace(ParseValue(t).rest))
    decreases |t|, 4
  {
    var gap, v := ValueWritten(t);
    var after := GapWritten(ParseValue(t).rest);
    hide Text, Proper, Meaning, SkipSpace, ParseValue;
    x := Item(gap, v, after);
  }

  lemma {:induction false} ItemsWritten(t: string, before: seq<JsonValue>) returns (items: seq<Item>)
    requires ParseItems(t, before).Got?
    ensures items != [] && ProperItems(items) && ParseItems(t, before).value == Arr(before + ItemsMeaning(items))
    ensures t == ItemsText(items, "]" + ParseItems(t, before).rest)
    decreases |t|, 5
  {
    ItemsStep(t, before);
    var value, u := ParseValue(t).value, SkipSpace(ParseValue(t).rest);
    var rest := ParseItems(t, before).rest;
    var x := ItemWritten(t);
    assert u == [u[0]] + u[1..];
    hide ParseItems, ParseValue, ItemText, ProperItem, ItemMeaning, SkipSpace;
    var more: seq<Item> := [];
    if u[0] == ',' {
      more := ItemsWritten(u[1..], before + [value]);
    }
    items := ItemsCons(x, more, rest, before);
  }

  lemma ItemsStep(t: string, before: seq<JsonValue>)
    requires ParseItems(t, before).Got?
    ensures ParseValue(t).Got?
    ensures var u := SkipSpace(ParseValue(t).rest); var all := before + [ParseValue(t).value];
      u != [] && |u| < |t| && u[0] in ",]"
      && (u[0] == ']' ==> ParseItems(t, before) == Got(Arr(all), u[1..]))
      && (u[0] == ',' ==> ParseItems(t, before) == ParseItems(u[1..], all))
  {
    hide ParseValue, SkipSpace;
  }

  lemma ItemsCons(x: Item, more: seq<Item>, rest: string, before: seq<JsonValue>) returns (items: seq<Item>)
    requires ProperItem(x) && ProperItems(more)
    ensures items != [] && ProperItems(items) && before + ItemsMeaning(items) == before + [ItemMeaning(x)] + ItemsMeaning(more)
    ensures more == [] ==> ItemsText(items, "]" + rest) == ItemText(x, "]" + rest) && ItemsMeaning(more) == []
    ensures more != [] ==> ItemsText(items, "]" + rest) == ItemText(x, "," + ItemsText(more, "]" + rest))
  {
    items := [x] + more;
    assert items[1..] == more;
    hide ItemText, ItemMeaning, ProperItem;
    assert ProperItems(items) && ItemsMeaning(items) == [ItemMeaning(x)] + ItemsMeaning(more);
    Associative(before, [ItemMeaning(x)], ItemsMeaning(more));
  }

  lemma {:induction false} ObjectWritten(t: string) returns (x: Written)
    requires t != [] && t[0] == '{' && ParseObject(t).Got?
    ensures Proper(x) && Meaning(x) == ParseObject(t).value && t == Text(x, ParseObject(t).rest)
    decreases |t|, 2
  {
    var u := SkipSpace(t[1..]);
    var rest := ParseObject(t).rest;
    var gap := GapWritten(t[1..]);
    assert t == "{" + t[1..];
    var fields: seq<Field> := [];
    if u != [] && u[0] == '}' {
      hide SkipSpace, ParseMembers;
      assert u == "}" + rest;
    } else {
      hide SkipSpace, ParseMembers;
      fields := FieldsWritten(u, map[]);
      hide FieldsText, FieldsMeaning, ProperFields;
      FromEmpty(FieldsMeaning(fields));
    }
    x := WObj(gap, fields);
    hide FieldsText, FieldsMeaning, ProperFields;
  }

  lemma FromEmpty(m: map<string, JsonValue>)
    ensures map[] + m == m
  {
  }

  lemma {:induction false} FieldsWritten(t: string, before: map<string, JsonValue>) returns (fields: seq<Field>)
    requires ParseMembers(t, before).Got?
    ensures fields != [] && ProperFields(fields) && ParseMembers(t, before).value == Obj(before + FieldsMeaning(fields))
    ensures t == FieldsText(fields, "}" + ParseMembers(t, before).rest)
    decreases |t|, 1
  {
    hide *;
    FieldsStep(t, before);
    var u := SkipSpace(ParseValue(SkipSpace(ParseString(SkipSpace(t)).rest)[1..]).rest);
    var rest := ParseMembers(t, before).rest;
    var x := FieldWritten(t);
    HeadAndTail(u);
    var more: seq<Field> := [];
    if u[0] == ',' {
      more := FieldsWritten(u[1..], before[Meant(x.key) := ItemMeaning(x.value)]);
    } else {
      NoFields();
    }
    fields := FieldsCons(x, more, rest, before);
  }

  lemma NoFields()
    ensures ProperFields([])
  {
  }

  lemma HeadAndTail(u: string)
    requires u != []
    ensures u == [u[0]] + u[1..]
  {
  }

  lemma FieldsStep(t: string, before: map<string, JsonValue>)
    requires ParseMembers(t, before).Got?
    ensures ParseString(SkipSpace(t)).Got?
    ensures var v := SkipSpace(ParseString(SkipSpace(t)).rest);
      v != [] && v[0] == ':' && |v| < |t| && ParseValue(v[1..]).Got?
    ensures var v := SkipSpace(ParseString(SkipSpace(t)).rest); var u := SkipSpace(ParseValue(v[1..]).rest);
      var all := before[ParseString(SkipSpace(t)).value := ParseValue(v[1..]).value];
      u != [] && |u| < |t| && u[0] in ",}"
      && (u[0] == '}' ==> ParseMembers(t, before) == Got(Obj(all), u[1..]))
      && (u[0] == ',' ==> ParseMembers(t, before) == ParseMembers(u[1..], all))
  {
    hide ParseValue, SkipSpace, ParseString;
  }

  /** One field, up to what follows it. */
  lemma {:induction false} FieldWritten(t: string) returns (x: Field)
    requires ParseString(SkipSpace(t)).Got?
    requires var v := SkipSpace(ParseString(SkipSpace(t)).rest); v != [] && v[0] == ':' && |v| < |t| && ParseValue(v[1..]).Got?
    ensures AllSpace(x.before) && ProperPieces(x.key) && AllSpace(x.afterKey) && ProperItem(x.value)
    ensures var v := SkipSpace(ParseString(SkipSpace(t)).rest);
      Meant(x.key) == ParseString(SkipSpace(t)).value && ItemMeaning(x.value) == ParseValue(v[1..]).value
      && t == FieldText(x, SkipSpace(ParseValue(v[1..]).rest))
    decreases |t|, 0
  {
    hide *;
    var s := SkipSpace(t);
    var v := SkipSpace(ParseString(s).rest);
    var before := GapWritten(t);
    var key := StringWritten(s);
    var afterKey := GapWritten(ParseString(s).rest);
    StringShorter(s);
    var value := ItemWritten(v[1..]);
    x := Field(before, key, afterKey, value);
    HeadAndTail(v);
    TextOfField(x, SkipSpace(ParseValue(v[1..]).rest));
  }

  lemma TextOfField(x: Field, rest: string)
    ensures FieldText(x, rest) == x.before + ("\"" + Spelled(x.key, x.afterKey + (":" + ItemText(x.value, rest))))
  {
  }

  lemma StringShorter(s: string)
    ensures ParseString(s).Got? ==> |ParseString(s).rest| < |s|
  {
  }

  lemma FieldsCons(x: Field, more: seq<Field>, rest: string, before: map<string, JsonValue>) returns (fields: seq<Field>)
    requires AllSpace(x.before) && ProperPieces(x.key) && AllSpace(x.afterKey) && ProperItem(x.value) && ProperFields(more)
    ensures fields != [] && ProperFields(fields)
    ensures before + FieldsMeaning(fields) == before[Meant(x.key) := ItemMeaning(x.value)] + FieldsMeaning(more)
    ensures more == [] ==> FieldsText(fields, "}" + rest) == FieldText(x, "}" + rest) && FieldsMeaning(more) == map[]
    ensures more != [] ==> FieldsText(fields, "}" + rest) == FieldText(x, "," + FieldsText(more, "}" + rest))
  {
    fields := [x] + more;
    assert fields[1..] == more;
    hide FieldText, ItemMeaning, ProperItem, Meant, ProperPieces;
    FieldsMeaningCons(fields, before);
  }

  // ---- What is accepted --------------------------------------------------

  /** The text is a written value, with white space around it. */
  ghost predicate WrittenAs(t: string, before: string, x: Written, after: string, v: JsonValue)
  {
    AllSpace(before) && Proper(x) && AllSpace(after) && Meaning(x) == v && t == before + Text(x, after)
  }

  /** The parser accepts exactly the texts of written values, as what they mean. */
  lemma AcceptsExactly(t: string, v: JsonValue)
    ensures Json.Parse(t) == Ok(v) <==> Utf8.Valid(t) && exists before, x, after :: WrittenAs(t, before, x, after, v)
  {
    hide Text, Meaning, Proper;
    if Json.Parse(t) == Ok(v) {
      var before, x := ValueWritten(t);
      var after := GapWritten(ParseValue(t).rest);
      hide ParseValue, SkipSpace;
      assert after + "" == after;
      assert WrittenAs(t, before, x, after, v);
    }
    if before, x, after :| Utf8.Valid(t) && WrittenAs(t, before, x, after, v) {
      WrittenParses(t, before, x, after, v);
    }
  }

  lemma WrittenParses(t: string, before: string, x: Written, after: string, v: JsonValue)
    requires Utf8.Valid(t) && WrittenAs(t, before, x, after, v)
    ensures Json.Parse(t) == Ok(v)
  {
    hide Text, Meaning, Proper;
    ValidNoStray(t);
    NoStrayAfter(before, Text(x, after));
    GapEndsNumber(after, "");
    assert after + "" == after;
    TextParses(x, after);
    ValueAfterGap(before, Text(x, after));
    GapSkipped(after, "");
    hide ParseValue;
  }
}
