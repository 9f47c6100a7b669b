/**
 Parsing undoes printing, for every tree with well-formed numbers and UTF-8 strings, in any
 context that cannot extend a number; printed text is UTF-8 and has no raw newline.
 */
module JsonRoundTrip {
  import opened Prelude
  import opened Decimals
  import opened Json
  import Utf8

  // ---- Well-formed trees -------------------------------------------------

  predicate WellFormedNumber(n: NumberToken)
  {
    n.whole != "" && AllDigits(n.whole) && (n.whole[0] == '0' ==> |n.whole| == 1)
    && (n.fraction != "" ==> |n.fraction| > 1 && n.fraction[0] == '.' && AllDigits(n.fraction[1..]))
    && n.exponent == ""
  }

  ghost predicate WellFormed(d: Doc)
    decreases d, 1
  {
    match d
    case DNull => true
    case DBool(_) => true
    case DNum(f) => f.Finite? && WellFormedNumber(f.n)
    case DStr(s) => Utf8.Valid(s)
    case DArr(items) => WellFormedItems(items)
    case DObj(members) => WellFormedMembers(members)
  }

  ghost predicate WellFormedItems(items: seq<Doc>)
    decreases items, 0
  {
    items == [] || (WellFormed(items[0]) && WellFormedItems(items[1..]))
  }

  ghost predicate WellFormedMembers(members: seq<Member>)
    decreases members, 0
  {
    members == [] ||
    (Utf8.Valid(members[0].key) && WellFormed(members[0].value) && WellFormedMembers(members[1..]))
  }

  // ---- Strings -----------------------------------------------------------

  /** No continuation byte directly follows an ASCII byte. */
  predicate NoStray(s: string)
  {
    forall i :: 0 <= i < |s| - 1 && s[i] as int < 0x80 ==> !Utf8.IsContinuation(s[i + 1])
  }

  lemma {:induction false} ValidNoStray(s: string)
    requires Utf8.Valid(s)
    ensures NoStray(s) && (s != [] ==> !Utf8.IsContinuation(s[0]))
    decreases |s|
  {
    if s != [] {
      var n := Utf8.HeadLength(s);
      var u := s[n..];
      ValidNoStray(u);
      assert forall i :: 1 <= i < n ==> s[i] as int >= 0x80;
      assert forall i :: n <= i < |s| ==> s[i] == u[i - n];
    }
  }

  lemma HexRoundTrip(c: char)
    requires c as int < 0x20
    ensures HexNumber("00" + [HexDigit(c as int / 16), HexDigit(c as int % 16)]) == Some(c as nat)
  {
    var h := c as int % 16;
    assert HexValue(HexDigit(h)) == Some(h);
    assert HexValue(HexDigit(c as int / 16)) == Some(c as int / 16);
  }

  lemma EscapeByteParses(c: char, rest: string)
    requires rest != [] && (c as int < 0x80 ==> !Utf8.IsContinuation(rest[0]))
    ensures var t := EscapeByte(c) + rest;
      if t[0] == '\\' then ParseEscape(t[1..]) == Got([c], rest) else t == [c] + rest && c != '"'
  {
    var t := EscapeByte(c) + rest;
    if c as int < 0x20 && c !in "\n\r\t" {
      var hex := "00" + [HexDigit(c as int / 16), HexDigit(c as int % 16)];
      HexRoundTrip(c);
      assert t == ['\\', 'u'] + hex + rest;
      var u := t[2..];
      assert t[1..][1..] == u;
      assert u == hex + rest && u[..4] == hex && u[4..] == rest;
      assert ParseHex4(u) == Got(c as nat, rest);
    } else if c == '"' || c == '\\' || c in "\n\r\t" {
      assert t[1..][1..] == rest;
    }
  }

  /** `parse_string` undoes `write_string`. */
  lemma {:induction false} BodyParses(s: string, rest: string)
    requires NoStray(s)
    ensures ParseBody(Escape(s) + "\"" + rest) == Got(s, rest)
  {
    if s == [] {
      assert (Escape(s) + "\"" + rest)[1..] == rest;
    } else {
      var tail := Escape(s[1..]) + "\"" + rest;
      var t := Escape(s) + "\"" + rest;
      assert t == EscapeByte(s[0]) + tail;
      assert NoStray(s[1..]);
      BodyParses(s[1..], rest);
      EscapeHead(s[1..]);
      EscapeByteParses(s[0], tail);
      assert [s[0]] + s[1..] == s;
      if t[0] != '\\' { assert t[1..] == tail; }
    }
  }

  lemma EscapeHead(s: string)
    ensures s != [] ==> Escape(s) != [] && (Utf8.IsContinuation(Escape(s)[0]) ==> Escape(s)[0] == s[0])
  {
  }

  lemma StringParses(s: string, rest: string)
    requires Utf8.Valid(s)
    ensures ParseString(Quote(s) + rest) == Got(s, rest)
  {
    hide ParseBody, Escape;
    ValidNoStray(s);
    BodyParses(s, rest);
    var t := Quote(s) + rest;
    assert t[0] == '"';
    assert t[1..] == Escape(s) + "\"" + rest;
  }

  // ---- Numbers -----------------------------------------------------------

  /** `rest` cannot continue a number token. */
  predicate EndsNumber(rest: string)
  {
    rest == [] || (!IsDigit(rest[0]) && rest[0] !in ".eE")
  }

  lemma {:induction false} DigitRunOf(ds: string, rest: string)
    requires AllDigits(ds) && (rest == [] || !IsDigit(rest[0]))
    ensures DigitRun(ds + rest) == |ds|
  {
    if ds == [] {
      assert ds + rest == rest;
    } else {
      assert (ds + rest)[1..] == ds[1..] + rest;
      DigitRunOf(ds[1..], rest);
    }
  }

  lemma WholeParses(w: string, rest: string)
    requires w != "" && AllDigits(w) && (w[0] == '0' ==> |w| == 1)
    requires rest == [] || !IsDigit(rest[0])
    ensures ParseWhole(w + rest) == Got(w, rest)
  {
    DigitRunOf(w, rest);
    var t := w + rest;
    assert t[0] == w[0];
    assert t[..|w|] == w && t[|w|..] == rest;
    if w[0] == '0' { assert w == "0"; }
  }

  lemma FractionParses(f: string, rest: string)
    requires f != "" ==> |f| > 1 && f[0] == '.' && AllDigits(f[1..])
    requires EndsNumber(rest)
    ensures ParseFraction(f + rest) == Got(f, rest)
  {
    if f == "" {
      assert f + rest == rest;
    } else {
      DigitRunOf(f[1..], rest);
      assert (f + rest)[1..] == f[1..] + rest;
      assert (f + rest)[..|f|] == f && (f + rest)[|f|..] == rest;
    }
  }

  lemma NumberParses(n: NumberToken, rest: string)
    requires WellFormedNumber(n) && EndsNumber(rest)
    ensures ParseNumber(NumberText(n) + rest) == Got(n, rest)
  {
    NumberUnsigned(n, rest);
    var u := n.fraction + rest;
    hide NumberText, DigitRun, ParseWhole, ParseFraction;
    WholeParses(n.whole, u);
    FractionParses(n.fraction, rest);
  }

  lemma NumberUnsigned(n: NumberToken, rest: string)
    requires WellFormedNumber(n)
    ensures var t := NumberText(n) + rest;
      (if t != [] && t[0] == '-' then t[1..] else t) == n.whole + (n.fraction + rest)
      && (n.negative <==> t != [] && t[0] == '-')
  {
    var w, f := n.whole, n.fraction;
    assert IsDigit(w[0]);
    assert NumberText(n) == (if n.negative then "-" else "") + w + f + "";
    if n.negative {
      assert NumberText(n) + rest == "-" + (w + (f + rest));
    } else {
      assert NumberText(n) + rest == w + (f + rest);
    }
  }

  // ---- Trees -------------------------------------------------------------

  lemma NoSpaceAhead(t: string)
    requires t != [] && !IsSpace(t[0])
    ensures SkipSpace(t) == t
  {
  }

  lemma PrintHead(d: Doc)
    requires WellFormed(d)
    ensures Print(d) != "" && !IsSpace(Print(d)[0]) && Print(d)[0] !in ",:}]"
    ensures d.DObj? <==> Print(d)[0] == '{'
  {
    if d.DNum? {
      var p := NumberText(d.f.n);
      assert p[0] == '-' || p[0] == d.f.n.whole[0];
    }
  }

  lemma WordParses(word: string, value: JsonValue, rest: string)
    requires word != []
    ensures ParseLiteral(word + rest, word, value) == Got(value, rest)
  {
    assert (word + rest)[|word|..] == rest;
  }

  lemma WordsParse(d: Doc, rest: string)
    requires d.DNull? || d.DBool?
    ensures ParseValue(Print(d) + rest) == Got(Denote(d), rest)
  {
    var t := Print(d) + rest;
    assert t[0] == Print(d)[0];
    NoSpaceAhead(t);
    match d
    case DNull => WordParses("null", Null, rest);
    case DBool(b) => if b { WordParses("true", Bool(true), rest); } else { WordParses("false", Bool(false), rest); }
  }

  /** The value parser by the first byte of the text. */
  lemma ValueByHead(t: string)
    requires t != [] && !IsSpace(t[0])
    ensures t[0] == '[' ==> ParseValue(t) == ParseArray(t)
    ensures t[0] == '{' ==> ParseValue(t) == ParseObject(t)
    ensures t[0] == '"' && ParseString(t).Got? ==> ParseValue(t) == Got(Str(ParseString(t).value), ParseString(t).rest)
    ensures (t[0] == '-' || IsDigit(t[0])) && ParseNumber(t).Got?
      ==> ParseValue(t) == Got(Num(ParseNumber(t).value), ParseNumber(t).rest)
  {
    hide ParseArray, ParseObject, ParseString, ParseNumber;
    NoSpaceAhead(t);
  }

  /** Parsing undoes printing. */
  lemma {:induction false} PrintedParses(d: Doc, rest: string)
    requires WellFormed(d) && EndsNumber(rest)
    ensures ParseValue(Print(d) + rest) == Got(Denote(d), rest)
    decreases d, 1
  {
    var t := Print(d) + rest;
    match d
    case DNull => WordsParse(d, rest);
    case DBool(b) => WordsParse(d, rest);
    case DNum(f) =>
      NumberParses(f.n, rest);
      NumberHead(f.n);
      hide ParseValue, ParseNumber, NumberText, SkipSpace;
      ValueByHead(t);
    case DStr(s) =>
      StringParses(s, rest);
      QuoteHead(s);
      hide ParseValue, ParseString, Quote, SkipSpace;
      ValueByHead(t);
    case DArr(items) =>
      hide ParseValue, ParseArray, PrintItems, SkipSpace;
      ArrayParses(items, rest);
      ValueByHead(t);
    case DObj(members) =>
      hide ParseValue, ParseObject, PrintMembers, SkipSpace;
      ObjectParses(members, rest);
      ValueByHead(t);
  }

  lemma NumberHead(n: NumberToken)
    requires WellFormedNumber(n)
    ensures NumberText(n) != "" && (NumberText(n)[0] == '-' || IsDigit(NumberText(n)[0]))
  {
  }

  lemma QuoteHead(s: string)
    ensures Quote(s) != "" && Quote(s)[0] == '"'
  {
  }

  lemma {:induction false} ArrayParses(items: seq<Doc>, rest: string)
    requires WellFormedItems(items)
    ensures ParseArray("[" + PrintItems(items) + "]" + rest) == Got(Arr(DenoteItems(items)), rest)
    decreases items, 2
  {
    var t := "[" + PrintItems(items) + "]" + rest;
    var u := PrintItems(items) + "]" + rest;
    assert t[0] == '[' && t[1..] == u;
    if items == [] {
      assert u == "]" + rest;
      assert u[0] == ']' && u[1..] == rest;
      hide PrintItems;
      NoSpaceAhead(u);
    } else {
      PrintHead(items[0]);
      assert u[0] == Print(items[0])[0];
      hide PrintItems, Print;
      NoSpaceAhead(u);
      ItemsParse(items, [], rest);
      assert [] + DenoteItems(items) == DenoteItems(items);
    }
  }

  /** What follows the first item of an array. */
  function AfterItem(items: seq<Doc>, rest: string): (s: string)
    requires items != []
    ensures EndsNumber(s) && s != [] && !IsSpace(s[0])
  {
    if |items| == 1 then "]" + rest else "," + (PrintItems(items[1..]) + "]" + rest)
  }

  lemma ItemsText(items: seq<Doc>, rest: string)
    requires items != []
    ensures PrintItems(items) + "]" + rest == Print(items[0]) + AfterItem(items, rest)
  {
    if |items| == 1 {
      assert PrintItems(items) == Print(items[0]);
      hide PrintItems, Print;
      assert Print(items[0]) + "]" + rest == Print(items[0]) + ("]" + rest);
    } else {
      assert PrintItems(items) == Print(items[0]) + "," + PrintItems(items[1..]);
      hide PrintItems, Print;
      Regroup(Print(items[0]), PrintItems(items[1..]), "]", rest);
    }
  }

  lemma AfterItemTail(items: seq<Doc>, rest: string)
    requires items != []
    ensures AfterItem(items, rest)[0] == if |items| == 1 then ']' else ','
    ensures AfterItem(items, rest)[1..] == if |items| == 1 then rest else PrintItems(items[1..]) + "]" + rest
  {
    hide PrintItems, Print;
  }

  lemma Regroup(p: string, q: string, close: string, rest: string)
    ensures p + "," + q + close + rest == p + ("," + (q + close + rest))
  {
  }

  lemma {:induction false} ItemsParse(items: seq<Doc>, before: seq<JsonValue>, rest: string)
    requires items != [] && WellFormedItems(items)
    ensures ParseItems(PrintItems(items) + "]" + rest, before) == Got(Arr(before + DenoteItems(items)), rest)
    decreases items, 1
  {
    ItemsText(items, rest);
    AfterItemTail(items, rest);
    DenoteItemsCons(items, before);
    hide AfterItem, ParseValue, PrintItems, Print, SkipSpace, DenoteItems, Denote;
    var after := AfterItem(items, rest);
    PrintedParses(items[0], after);
    NoSpaceAhead(after);
    if |items| > 1 { ItemsParse(items[1..], before + [Denote(items[0])], rest); }
  }

  lemma DenoteItemsCons(items: seq<Doc>, before: seq<JsonValue>)
    requires items != []
    ensures before + DenoteItems(items) == before + [Denote(items[0])] + DenoteItems(items[1..])
    ensures |items| == 1 ==> before + DenoteItems(items) == before + [Denote(items[0])]
  {
    var h, t := [Denote(items[0])], DenoteItems(items[1..]);
    assert DenoteItems(items) == h + t;
    hide DenoteItems, Denote;
    Associative(before, h, t);
    if |items| == 1 { assert t == []; }
  }

  lemma {:induction false} ObjectParses(members: seq<Member>, rest: string)
    requires WellFormedMembers(members)
    ensures ParseObject("{" + PrintMembers(members) + "}" + rest) == Got(Obj(DenoteMembers(members, map[])), rest)
    decreases members, 2
  {
    var t := "{" + PrintMembers(members) + "}" + rest;
    var u := PrintMembers(members) + "}" + rest;
    assert t[0] == '{' && t[1..] == u;
    if members == [] {
      assert u == "}" + rest;
      assert u[0] == '}' && u[1..] == rest;
      NoSpaceAhead(u);
    } else {
      MembersText(members, rest);
      assert u[0] == '"';
      NoSpaceAhead(u);
      MembersParse(members, map[], rest);
    }
  }

  /** What follows the first field of an object. */
  function AfterMember(members: seq<Member>, rest: string): (s: string)
    requires members != []
    ensures EndsNumber(s) && s != [] && !IsSpace(s[0])
    ensures s[0] == if |members| == 1 then '}' else ','
  {
    if |members| == 1 then "}" + rest else "," + (PrintMembers(members[1..]) + "}" + rest)
  }

  lemma MembersText(members: seq<Member>, rest: string)
    requires members != []
    ensures PrintMembers(members) + "}" + rest
      == Quote(members[0].key) + (":" + (Print(members[0].value) + AfterMember(members, rest)))
  {
    var m := members[0];
    assert PrintMember(m) == Quote(m.key) + ":" + Print(m.value);
    if |members| == 1 {
      assert PrintMembers(members) == PrintMember(m);
      hide PrintMembers, Print, Quote, PrintMember;
      FieldText(Quote(m.key), Print(m.value), "}" + rest);
      assert PrintMembers(members) + "}" + rest == PrintMember(m) + ("}" + rest);
    } else {
      assert PrintMembers(members) == PrintMember(m) + "," + PrintMembers(members[1..]);
      hide PrintMembers, Print, Quote, PrintMember;
      Regroup(PrintMember(m), PrintMembers(members[1..]), "}", rest);
      FieldText(Quote(m.key), Print(m.value), "," + (PrintMembers(members[1..]) + "}" + rest));
    }
  }

  lemma FieldText(k: string, p: string, after: string)
    ensures k + ":" + p + after == k + (":" + (p + after))
  {
  }

  lemma AfterMemberTail(members: seq<Member>, rest: string)
    requires members != []
    ensures AfterMember(members, rest)[1..] == if |members| == 1 then rest else PrintMembers(members[1..]) + "}" + rest
  {
    hide PrintMembers, Print;
  }

  lemma {:induction false} MembersParse(members: seq<Member>, fields: map<string, JsonValue>, rest: string)
    requires members != [] && WellFormedMembers(members)
    ensures ParseMembers(PrintMembers(members) + "}" + rest, fields) == Got(Obj(DenoteMembers(members, fields)), rest)
    decreases members, 1
  {
    MembersText(members, rest);
    AfterMemberTail(members, rest);
    var m := members[0];
    assert Quote(m.key)[0] == '"';
    hide AfterMember, ParseValue, PrintMembers, Print, ParseString, Quote, SkipSpace, Denote;
    var after := AfterMember(members, rest);
    var v := ":" + (Print(m.value) + after);
    var t := Quote(m.key) + v;
    assert t[0] == '"';
    NoSpaceAhead(t);
    StringParses(m.key, v);
    NoSpaceAhead(v);
    assert v[1..] == Print(m.value) + after;
    PrintedParses(m.value, after);
    NoSpaceAhead(after);
    if |members| > 1 {
      MembersParse(members[1..], fields[m.key := Denote(m.value)], rest);
    }
  }

  // ---- Trees with numbers that have no JSON form -------------------------

  /** A tree the program can print: any float, and strings that are Rust strings. */
  ghost predicate Writable(d: Doc)
    decreases d, 1
  {
    match d
    case DNull => true
    case DBool(_) => true
    case DNum(f) => f.Finite? ==> WellFormedNumber(f.n)
    case DStr(s) => Utf8.Valid(s)
    case DArr(items) => WritableItems(items)
    case DObj(members) => WritableMembers(members)
  }

  ghost predicate WritableItems(items: seq<Doc>)
    decreases items, 0
  {
    items == [] || (Writable(items[0]) && WritableItems(items[1..]))
  }

  ghost predicate WritableMembers(members: seq<Member>)
    decreases members, 0
  {
    members == [] ||
    (Utf8.Valid(members[0].key) && Writable(members[0].value) && WritableMembers(members[1..]))
  }

  lemma FirstByte(d: Doc, rest: string)
    requires Writable(d)
    ensures Print(d) != "" && (Print(d) + rest)[0] == Print(d)[0] && !IsSpace(Print(d)[0]) && Print(d)[0] !in ",:}]"
  {
    if d.DNum? && d.f.Finite? { NumberHead(d.f.n); }
  }

  // ---- Printed lines -----------------------------------------------------

  /** Text that can stand on one line of the log. */
  predicate Line(s: string)
  {
    Utf8.Valid(s) && '\n' !in s
  }

  lemma LineConcat(a: string, b: string)
    requires Line(a) && Line(b)
    ensures Line(a + b)
  {
    Utf8.ConcatValid(a, b);
  }

  lemma AsciiLine(a: string)
    requires Utf8.Ascii(a) && '\n' !in a
    ensures Line(a)
  {
    Utf8.AsciiValid(a);
  }

  lemma {:induction false} EscapeMultiByte(a: string, b: string)
    requires forall i :: 0 <= i < |a| ==> a[i] as int >= 0x80
    ensures Escape(a + b) == a + Escape(b)
  {
    hide Escape;
    if a == [] {
      assert a + b == b && a + Escape(b) == Escape(b);
    } else {
      EscapeMultiByte(a[1..], b);
      EscapeHigh(a[0], a[1..] + b);
      HeadFirst(a, b);
      HeadFirst(a, Escape(b));
    }
  }

  lemma HeadFirst(a: string, b: string)
    requires a != []
    ensures [a[0]] + (a[1..] + b) == a + b
  {
  }

  lemma EscapeHigh(c: char, s: string)
    requires c as int >= 0x80
    ensures Escape([c] + s) == [c] + Escape(s)
  {
    assert ([c] + s)[1..] == s;
  }

  lemma {:induction false} EscapeLine(s: string)
    requires Utf8.Valid(s)
    ensures Line(Escape(s))
    decreases |s|
  {
    if s == [] {
      AsciiLine("");
    } else {
      var n := Utf8.HeadLength(s);
      EscapeLine(s[n..]);
      if n == 1 {
        EscapeByteLine(s[0]);
        LineConcat(EscapeByte(s[0]), Escape(s[1..]));
      } else {
        MultiByteHead(s);
        EscapeMultiByte(s[..n], s[n..]);
        assert s[..n] + s[n..] == s;
        LineConcat(s[..n], Escape(s[n..]));
      }
    }
  }

  lemma EscapeByteLine(c: char)
    requires c as int < 0x80
    ensures Line(EscapeByte(c))
  {
    AsciiLine(EscapeByte(c));
  }

  lemma MultiByteHead(s: string)
    requires Utf8.HeadLength(s) > 1
    ensures var n := Utf8.HeadLength(s); Line(s[..n]) && forall i :: 0 <= i < n ==> s[i] as int >= 0x80
  {
    var n := Utf8.HeadLength(s);
    var h := s[..n];
    assert forall i :: 0 <= i < n ==> h[i] == s[i];
    assert Utf8.HeadLength(h) == n;
    assert h[n..] == [];
  }

  lemma QuoteLine(s: string)
    requires Utf8.Valid(s)
    ensures Line(Quote(s))
  {
    EscapeLine(s);
    AsciiLine("\"");
    LineConcat("\"", Escape(s));
    LineConcat("\"" + Escape(s), "\"");
  }

  lemma {:induction false} PrintedLine(d: Doc)
    requires Writable(d)
    ensures Line(Print(d))
    decreases d, 1
  {
    match d
    case DNull => AsciiLine("null");
    case DBool(b) => AsciiLine("true"); AsciiLine("false");
    case DNum(f) => NumberLine(f);
    case DStr(s) => QuoteLine(s);
    case DArr(items) =>
      ItemsLine(items);
      BracketLine("[", PrintItems(items), "]");
    case DObj(members) =>
      MembersLine(members);
      BracketLine("{", PrintMembers(members), "}");
  }

  lemma NumberLine(f: Float)
    requires f.Finite? ==> WellFormedNumber(f.n)
    ensures Line(FloatText(f))
  {
    AsciiLine(FloatText(f));
  }

  lemma BracketLine(open: string, s: string, close: string)
    requires open in {"[", "{"} && close in {"]", "}"} && Line(s)
    ensures Line(open + s + close)
  {
    AsciiLine(open);
    AsciiLine(close);
    LineConcat(open, s);
    LineConcat(open + s, close);
  }

  lemma {:induction false} ItemsLine(items: seq<Doc>)
    requires WritableItems(items)
    ensures Line(PrintItems(items))
    decreases items, 0
  {
    if items == [] {
      AsciiLine("");
    } else {
      PrintedLine(items[0]);
      if |items| > 1 {
        ItemsLine(items[1..]);
        AsciiLine(",");
        LineConcat(Print(items[0]), ",");
        LineConcat(Print(items[0]) + ",", PrintItems(items[1..]));
      }
    }
  }

  lemma {:induction false} MembersLine(members: seq<Member>)
    requires WritableMembers(members)
    ensures Line(PrintMembers(members))
    decreases members, 0
  {
    if members == [] {
      AsciiLine("");
    } else {
      var m := members[0];
      QuoteLine(m.key);
      PrintedLine(m.value);
      AsciiLine(":");
      LineConcat(Quote(m.key), ":");
      LineConcat(Quote(m.key) + ":", Print(m.value));
      if |members| > 1 {
        MembersLine(members[1..]);
        AsciiLine(",");
        LineConcat(PrintMember(m), ",");
        LineConcat(PrintMember(m) + ",", PrintMembers(members[1..]));
      }
    }
  }

  lemma {:induction false} WellFormedIsWritable(d: Doc)
    requires WellFormed(d)
    ensures Writable(d)
    decreases d, 1
  {
    match d
    case DArr(items) => WellFormedItemsAreWritable(items);
    case DObj(members) => WellFormedMembersAreWritable(members);
    case _ =>
  }

  lemma {:induction false} WellFormedItemsAreWritable(items: seq<Doc>)
    requires WellFormedItems(items)
    ensures WritableItems(items)
    decreases items, 0
  {
    if items != [] {
      WellFormedIsWritable(items[0]);
      WellFormedItemsAreWritable(items[1..]);
    }
  }

  lemma {:induction false} WellFormedMembersAreWritable(members: seq<Member>)
    requires WellFormedMembers(members)
    ensures WritableMembers(members)
    decreases members, 0
  {
    if members != [] {
      WellFormedIsWritable(members[0].value);
      WellFormedMembersAreWritable(members[1..]);
    }
  }

  /** A printed object, parsed as a whole. */
  lemma DocumentParses(d: Doc)
    requires WellFormed(d)
    ensures Parse(Print(d)) == Ok(Denote(d))
  {
    WellFormedIsWritable(d);
    PrintedLine(d);
    assert Print(d) + "" == Print(d);
    PrintedParses(d, "");
  }
}
