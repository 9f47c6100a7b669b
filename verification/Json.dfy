/**
 The JSON of the log: the value tree, the compact printer of crates/core/src/json_write.rs
 and the recursive-descent parser of crates/core/src/json_read.rs (RFC 8259 sections 5 to 7).

 The parser is specified on the text that remains: each function returns a value and what
 is left after it.  `JsonParser` is the parser as the program runs it, over a position.
 */
module Json {
  import opened Prelude
  import opened Decimals
  import Utf8

  /** A number as its token: sign, integer digits, fraction with its point, exponent with its mark. */
  datatype NumberToken = NumberToken(negative: bool, whole: string, fraction: string, exponent: string)

  /** A floating-point number: a finite one as its token, or one with no JSON form. */
  datatype Float = Finite(n: NumberToken) | NaN | Infinite(negative: bool)

  datatype JsonValue =
    | Null
    | Bool(b: bool)
    | Num(n: NumberToken)
    | Str(s: string)
    | Arr(items: seq<JsonValue>)
    | Obj(fields: map<string, JsonValue>)

  // ---- Printer -----------------------------------------------------------

  /** What is printed: a tree whose objects keep their fields in the order written. */
  datatype Doc =
    | DNull
    | DBool(b: bool)
    | DNum(f: Float)
    | DStr(s: string)
    | DArr(items: seq<Doc>)
    | DObj(members: seq<Member>)

  datatype Member = Member(key: string, value: Doc)

  function HexDigit(d: nat): char
    requires d < 16
  {
    if d < 10 then '0' + d as char else 'a' + (d - 10) as char
  }

  function EscapeByte(c: char): string
  {
    if c == '"' then "\\\""
    else if c == '\\' then "\\\\"
    else if c == '\n' then "\\n"
    else if c == '\r' then "\\r"
    else if c == '\t' then "\\t"
    else if c as int < 0x20 then "\\u00" + [HexDigit(c as int / 16), HexDigit(c as int % 16)]
    else [c]
  }

  function Escape(s: string): string
  {
    if s == [] then [] else EscapeByte(s[0]) + Escape(s[1..])
  }

  function Quote(s: string): string
  {
    "\"" + Escape(s) + "\""
  }

  function NumberText(n: NumberToken): string
  {
    (if n.negative then "-" else "") + n.whole + n.fraction + n.exponent
  }

  function FloatText(f: Float): string
  {
    match f
    case Finite(n) => NumberText(n)
    case NaN => "NaN"
    case Infinite(negative) => if negative then "-inf" else "inf"
  }

  function Print(d: Doc): string
    decreases d, 1
  {
    match d
    case DNull => "null"
    case DBool(b) => if b then "true" else "false"
    case DNum(f) => FloatText(f)
    case DStr(s) => Quote(s)
    case DArr(items) => "[" + PrintItems(items) + "]"
    case DObj(members) => "{" + PrintMembers(members) + "}"
  }

  function PrintItems(items: seq<Doc>): string
    decreases items, 0
  {
    if items == [] then ""
    else if |items| == 1 then Print(items[0])
    else Print(items[0]) + "," + PrintItems(items[1..])
  }

  function PrintMember(m: Member): string
    decreases m, 2
  {
    Quote(m.key) + ":" + Print(m.value)
  }

  function PrintMembers(members: seq<Member>): string
    decreases members, 0
  {
    if members == [] then ""
    else if |members| == 1 then PrintMember(members[0])
    else PrintMember(members[0]) + "," + PrintMembers(members[1..])
  }

  /** The value a printed tree denotes: later fields of an object replace earlier ones. */
  function Denote(d: Doc): JsonValue
    decreases d, 1
  {
    match d
    case DNull => Null
    case DBool(b) => Bool(b)
    case DNum(f) => if f.Finite? then Num(f.n) else Null
    case DStr(s) => Str(s)
    case DArr(items) => Arr(DenoteItems(items))
    case DObj(members) => Obj(DenoteMembers(members, map[]))
  }

  function DenoteItems(items: seq<Doc>): (js: seq<JsonValue>)
    ensures |js| == |items|
    decreases items, 0
  {
    if items == [] then [] else [Denote(items[0])] + DenoteItems(items[1..])
  }

  function DenoteMembers(members: seq<Member>, fields: map<string, JsonValue>): map<string, JsonValue>
    decreases members, 0
  {
    if members == [] then fields
    else DenoteMembers(members[1..], fields[members[0].key := Denote(members[0].value)])
  }

  // ---- Parser ------------------------------------------------------------

  /** `SliceAbort` is the abort of slicing a string inside a multi-byte character. */
  datatype ParseError = Syntax | SliceAbort | NotUtf8 | TrailingData

  datatype Parsed<+T> = Got(value: T, rest: string) | Bad(error: ParseError)

  predicate IsSpace(c: char)
  {
    c == ' ' || c == '\t' || c == '\n' || c == '\r'
  }

  function SkipSpace(t: string): (u: string)
    ensures |u| <= |t| && (u == [] || !IsSpace(u[0]))
  {
    if t != [] && IsSpace(t[0]) then SkipSpace(t[1..]) else t
  }

  function HexValue(c: char): Option<nat>
  {
    if '0' <= c <= '9' then Some((c - '0') as nat)
    else if 'a' <= c <= 'f' then Some((c - 'a') as nat + 10)
    else if 'A' <= c <= 'F' then Some((c - 'A') as nat + 10)
    else None
  }

  /** `u32::from_str_radix(hex, 16)` on four bytes: it also takes a leading `+`. */
  function HexNumber(hex: string): Option<nat>
    requires |hex| == 4
  {
    if hex[0] == '+' then
      match (HexValue(hex[1]), HexValue(hex[2]), HexValue(hex[3]))
      case (Some(b), Some(c), Some(d)) => Some(b * 0x100 + c * 0x10 + d)
      case _ => None
    else
      match (HexValue(hex[0]), HexValue(hex[1]), HexValue(hex[2]), HexValue(hex[3]))
      case (Some(a), Some(b), Some(c), Some(d)) => Some(a * 0x1000 + b * 0x100 + c * 0x10 + d)
      case _ => None
  }

  /** The four hexadecimal digits after `\u`. */
  function ParseHex4(t: string): (r: Parsed<nat>)
    ensures r.Got? ==> |r.rest| + 4 == |t| && r.rest == t[4..]
  {
    if |t| < 4 then Bad(Syntax)
    else if |t| > 4 && Utf8.IsContinuation(t[4]) then Bad(SliceAbort)
    else match HexNumber(t[..4])
      case None => Bad(Syntax)
      case Some(n) => Got(n, t[4..])
  }

  /** What follows `\u`: one code unit, or the two of a surrogate pair. */
  function ParseUnicode(t: string): (r: Parsed<string>)
    ensures r.Got? ==> |r.rest| < |t|
  {
    match ParseHex4(t)
    case Bad(e) => Bad(e)
    case Got(cp, u) =>
      if 0xD800 <= cp <= 0xDBFF then
        if |u| < 2 || u[0] != '\\' || u[1] != 'u' then Bad(Syntax)
        else match ParseHex4(u[2..])
          case Bad(e) => Bad(e)
          case Got(low, v) =>
            if 0xDC00 <= low <= 0xDFFF
            then Got(Utf8.Encode(0x10000 + (cp - 0xD800) * 0x400 + (low - 0xDC00)), v)
            else Bad(Syntax)
      else if Utf8.IsScalar(cp) then Got(Utf8.Encode(cp), u)
      else Bad(Syntax)
  }

  /** One escape, after its backslash. */
  function ParseEscape(t: string): (r: Parsed<string>)
    ensures r.Got? ==> |r.rest| < |t|
  {
    if t == [] then Bad(Syntax)
    else if t[0] == '"' then Got("\"", t[1..])
    else if t[0] == '\\' then Got("\\", t[1..])
    else if t[0] == '/' then Got("/", t[1..])
    else if t[0] == 'n' then Got("\n", t[1..])
    else if t[0] == 'r' then Got("\r", t[1..])
    else if t[0] == 't' then Got("\t", t[1..])
    else if t[0] == 'b' then Got([8 as char], t[1..])
    else if t[0] == 'f' then Got([12 as char], t[1..])
    else if t[0] == 'u' then ParseUnicode(t[1..])
    else Bad(Syntax)
  }

  /** The body of a string, after its opening quote. */
  function ParseBody(t: string): (r: Parsed<string>)
    ensures r.Got? ==> |r.rest| < |t|
    decreases |t|
  {
    if t == [] then Bad(Syntax)
    else if t[0] == '"' then Got("", t[1..])
    else if t[0] == '\\' then
      match ParseEscape(t[1..])
      case Bad(e) => Bad(e)
      case Got(c, u) =>
        (match ParseBody(u)
         case Bad(e) => Bad(e)
         case Got(s, v) => Got(c + s, v))
    else
      match ParseBody(t[1..])
      case Bad(e) => Bad(e)
      case Got(s, v) => Got([t[0]] + s, v)
  }

  function ParseString(t: string): (r: Parsed<string>)
    ensures r.Got? ==> |r.rest| < |t|
  {
    if t == [] || t[0] != '"' then Bad(Syntax) else ParseBody(t[1..])
  }

  /** Number of digits at the head of `t`. */
  function DigitRun(t: string): (n: nat)
    ensures n <= |t| && (forall i :: 0 <= i < n ==> IsDigit(t[i])) && (n < |t| ==> !IsDigit(t[n]))
  {
    if t != [] && IsDigit(t[0]) then 1 + DigitRun(t[1..]) else 0
  }

  function ParseWhole(t: string): (r: Parsed<string>)
    ensures r.Got? ==> |r.rest| < |t|
  {
    if t != [] && t[0] == '0' then Got("0", t[1..])
    else if DigitRun(t) == 0 then Bad(Syntax)
    else Got(t[..DigitRun(t)], t[DigitRun(t)..])
  }

  function ParseFraction(t: string): (r: Parsed<string>)
    ensures r.Got? ==> |r.rest| <= |t|
  {
    if t == [] || t[0] != '.' then Got("", t)
    else
      var n := DigitRun(t[1..]);
      if n == 0 then Bad(Syntax) else Got(t[..1 + n], t[1 + n..])
  }

  function ParseExponent(t: string): (r: Parsed<string>)
    ensures r.Got? ==> |r.rest| <= |t|
  {
    if t == [] || t[0] !in "eE" then Got("", t)
    else
      var k := if |t| > 1 && t[1] in "+-" then 2 else 1;
      var n := DigitRun(t[k..]);
      if n == 0 then Bad(Syntax) else Got(t[..k + n], t[k + n..])
  }

  function ParseNumber(t: string): (r: Parsed<NumberToken>)
    ensures r.Got? ==> |r.rest| < |t|
  {
    var negative := t != [] && t[0] == '-';
    match ParseWhole(if negative then t[1..] else t)
    case Bad(e) => Bad(e)
    case Got(w, u) =>
      match ParseFraction(u)
      case Bad(e) => Bad(e)
      case Got(f, v) =>
        match ParseExponent(v)
        case Bad(e) => Bad(e)
        case Got(x, z) => Got(NumberToken(negative, w, f, x), z)
  }

  function ParseLiteral(t: string, word: string, value: JsonValue): (r: Parsed<JsonValue>)
    requires word != []
    ensures r.Got? ==> |r.rest| < |t|
  {
    if word <= t then Got(value, t[|word|..]) else Bad(Syntax)
  }

  function ParseValue(t: string): (r: Parsed<JsonValue>)
    ensures r.Got? ==> |r.rest| < |t|
    decreases |t|, 3
  {
    var u := SkipSpace(t);
    if u == [] then Bad(Syntax)
    else if u[0] == '"' then
      match ParseString(u)
      case Bad(e) => Bad(e)
      case Got(s, v) => Got(Str(s), v)
    else if u[0] == '{' then ParseObject(u)
    else if u[0] == '[' then ParseArray(u)
    else if u[0] == 't' then ParseLiteral(u, "true", Bool(true))
    else if u[0] == 'f' then ParseLiteral(u, "false", Bool(false))
    else if u[0] == 'n' then ParseLiteral(u, "null", Null)
    else if u[0] == '-' || IsDigit(u[0]) then
      match ParseNumber(u)
      case Bad(e) => Bad(e)
      case Got(n, v) => Got(Num(n), v)
    else Bad(Syntax)
  }

  function ParseObject(t: string): (r: Parsed<JsonValue>)
    requires t != [] && t[0] == '{'
    ensures r.Got? ==> |r.rest| < |t|
    decreases |t|, 2
  {
    var u := SkipSpace(t[1..]);
    if u != [] && u[0] == '}' then Got(Obj(map[]), u[1..]) else ParseMembers(u, map[])
  }

  /** The fields of an object from some point on, up to and including its closing brace. */
  function ParseMembers(t: string, fields: map<string, JsonValue>): (r: Parsed<JsonValue>)
    ensures r.Got? ==> |r.rest| < |t|
    decreases |t|, 1
  {
    match ParseString(SkipSpace(t))
    case Bad(e) => Bad(e)
    case Got(key, u) =>
      var v := SkipSpace(u);
      if v == [] || v[0] != ':' then Bad(Syntax)
      else match ParseValue(v[1..])
        case Bad(e) => Bad(e)
        case Got(value, w) =>
          var fields' := fields[key := value];
          var x := SkipSpace(w);
          if x == [] then Bad(Syntax)
          else if x[0] == ',' then ParseMembers(x[1..], fields')
          else if x[0] == '}' then Got(Obj(fields'), x[1..])
          else Bad(Syntax)
  }

  function ParseArray(t: string): (r: Parsed<JsonValue>)
    requires t != [] && t[0] == '['
    ensures r.Got? ==> |r.rest| < |t|
    decreases |t|, 2
  {
    var u := SkipSpace(t[1..]);
    if u != [] && u[0] == ']' then Got(Arr([]), u[1..]) else ParseItems(u, [])
  }

  function ParseItems(t: string, items: seq<JsonValue>): (r: Parsed<JsonValue>)
    ensures r.Got? ==> |r.rest| < |t|
    decreases |t|, 4
  {
    match ParseValue(t)
    case Bad(e) => Bad(e)
    case Got(value, w) =>
      var items' := items + [value];
      var x := SkipSpace(w);
      if x == [] then Bad(Syntax)
      else if x[0] == ',' then ParseItems(x[1..], items')
      else if x[0] == ']' then Got(Arr(items'), x[1..])
      else Bad(Syntax)
  }

  /** `JsonValue::parse`: one value, then only white space. */
  function Parse(t: string): Result<JsonValue, ParseError>
  {
    if !Utf8.Valid(t) then Err(NotUtf8)
    else match ParseValue(t)
      case Bad(e) => Err(e)
      case Got(v, rest) => if SkipSpace(rest) == [] then Ok(v) else Err(TrailingData)
  }
}
