/**
 Printed documents with a number that has no JSON form (`NaN`, `inf`, `-inf`; crates/core/src/
 json_write.rs:27-49).  The parser fails at the first such number, whatever follows it, and up to
 there the text is that of a document that does parse.
 */
module JsonIllFormed {
  import opened Prelude
  import opened Decimals
  import opened Json
  import opened JsonRoundTrip

  /** The parse fails, and not by slicing inside a character. */
  predicate Fails<T>(r: Parsed<T>)
  {
    r.Bad? && r.error != SliceAbort
  }

  /** The text of an ill-formed document up to its first number without a JSON form. */
  ghost function Before(d: Doc): string
    requires Writable(d) && !WellFormed(d)
    decreases d, 1
  {
    match d
    case DNum(_) => ""
    case DArr(items) => "[" + BeforeItems(items)
    case DObj(members) => "{" + BeforeMembers(members)
  }

  ghost function BeforeItems(items: seq<Doc>): string
    requires WritableItems(items) && !WellFormedItems(items)
    decreases items, 0
  {
    if !WellFormed(items[0]) then Before(items[0]) else Print(items[0]) + ("," + BeforeItems(items[1..]))
  }

  ghost function BeforeMembers(members: seq<Member>): string
    requires WritableMembers(members) && !WellFormedMembers(members)
    decreases members, 0
  {
    var m := members[0];
    Quote(m.key) + (":" + (if !WellFormed(m.value) then Before(m.value)
                           else Print(m.value) + ("," + BeforeMembers(members[1..]))))
  }

  /** What no value starts with: the head of such a number, or its sign before something that is no digit. */
  predicate BadHead(y: string)
  {
    y != "" && (y[0] == 'N' || y[0] == 'i' || (y[0] == '-' && (|y| == 1 || !IsDigit(y[1]))))
  }

  lemma BadHeadFails(y: string)
    requires BadHead(y)
    ensures Fails(ParseValue(y)) && SkipSpace(y) == y && y[0] !in ",:}]"
  {
    NoSpaceAhead(y);
    if y[0] == '-' { assert ParseWhole(y[1..]) == Bad(Syntax); }
  }

  // ---- Failure -----------------------------------------------------------

  /** Where the first bad number stands the parse fails, whatever stands there instead of a value. */
  lemma {:induction false} FailsFrom(d: Doc, y: string)
    requires Writable(d) && !WellFormed(d) && BadHead(y)
    ensures Fails(ParseValue(Before(d) + y))
    ensures Before(d) + y != "" && !IsSpace((Before(d) + y)[0]) && (Before(d) + y)[0] !in ",:}]"
    decreases d, 1
  {
    BadHeadFails(y);
    var t := Before(d) + y;
    match d
    case DNum(f) => assert t == y;
    case DArr(items) =>
      var u := BeforeItems(items) + y;
      assert t[0] == '[' && t[1..] == u;
      ItemsFailFrom(items, [], y);
      hide ParseValue, BeforeItems, SkipSpace;
      NoSpaceAhead(u);
      ValueByHead(t);
    case DObj(members) =>
      var u := BeforeMembers(members) + y;
      assert t[0] == '{' && t[1..] == u;
      MembersFailFrom(members, map[], y);
      hide ParseValue, BeforeMembers, SkipSpace, Quote;
      NoSpaceAhead(u);
      ValueByHead(t);
  }

  lemma {:induction false} ItemsFailFrom(items: seq<Doc>, before: seq<JsonValue>, y: string)
    requires WritableItems(items) && !WellFormedItems(items) && BadHead(y)
    ensures Fails(ParseItems(BeforeItems(items) + y, before))
    ensures var u := BeforeItems(items) + y; u != "" && !IsSpace(u[0]) && u[0] !in ",:}]"
    decreases items, 0
  {
    if !WellFormed(items[0]) {
      FailsFrom(items[0], y);
      hide ParseValue, Before, SkipSpace;
    } else {
      var after := "," + (BeforeItems(items[1..]) + y);
      FirstByte(items[0], after);
      assert BeforeItems(items) + y == Print(items[0]) + after by { AfterComma(Print(items[0]), BeforeItems(items[1..]), y); }
      PrintedParses(items[0], after);
      ItemsFailFrom(items[1..], before + [Denote(items[0])], y);
      hide ParseValue, BeforeItems, Print, SkipSpace, Denote;
      NoSpaceAhead(after);
      assert after[1..] == BeforeItems(items[1..]) + y;
    }
  }

  lemma AfterComma(p: string, q: string, y: string)
    ensures p + ("," + q) + y == p + ("," + (q + y))
  {
  }

  lemma {:induction false} MembersFailFrom(members: seq<Member>, fields: map<string, JsonValue>, y: string)
    requires WritableMembers(members) && !WellFormedMembers(members) && BadHead(y)
    ensures Fails(ParseMembers(BeforeMembers(members) + y, fields))
    ensures var u := BeforeMembers(members) + y; u != "" && u[0] == '"'
    decreases members, 0
  {
    var m := members[0];
    var bad := !WellFormed(m.value);
    var value := (if bad then Before(m.value) else Print(m.value) + ("," + BeforeMembers(members[1..]))) + y;
    var v := ":" + value;
    assert BeforeMembers(members) + y == Quote(m.key) + v by { FieldTail(members, y); }
    QuoteHead(m.key);
    StringParses(m.key, v);
    NoSpaceAhead(Quote(m.key) + v);
    NoSpaceAhead(v);
    assert v[1..] == value;
    if bad {
      FailsFrom(m.value, y);
      hide ParseValue, ParseString, Before, BeforeMembers, Quote, SkipSpace, Print;
    } else {
      var after := "," + (BeforeMembers(members[1..]) + y);
      assert value == Print(m.value) + after by { AfterComma(Print(m.value), BeforeMembers(members[1..]), y); }
      PrintedParses(m.value, after);
      MembersFailFrom(members[1..], fields[m.key := Denote(m.value)], y);
      hide ParseValue, ParseString, BeforeMembers, Quote, SkipSpace, Print, Denote;
      NoSpaceAhead(after);
      assert after[1..] == BeforeMembers(members[1..]) + y;
    }
  }

  lemma FieldTail(members: seq<Member>, y: string)
    requires WritableMembers(members) && !WellFormedMembers(members)
    ensures var m := members[0];
      BeforeMembers(members) + y == Quote(m.key) + (":" +
        ((if !WellFormed(m.value) then Before(m.value) else Print(m.value) + ("," + BeforeMembers(members[1..]))) + y))
  {
    hide Quote, Before, Print;
  }

  // ---- The text around the first bad number ------------------------------

  /** From its first bad number on, a printed document starts like one. */
  lemma {:induction false} PrintSplits(d: Doc) returns (y: string)
    requires Writable(d) && !WellFormed(d)
    ensures Print(d) == Before(d) + y && |y| > 1 && (y[0] == 'N' || y[0] == 'i' || (y[0] == '-' && y[1] == 'i'))
    decreases d, 1
  {
    match d
    case DNum(f) => y := FloatText(f);
    case DArr(items) =>
      var z := ItemsSplit(items);
      hide PrintItems, BeforeItems;
      y := z + "]";
      assert "[" + (BeforeItems(items) + z) + "]" == "[" + BeforeItems(items) + (z + "]");
    case DObj(members) =>
      var z := MembersSplit(members);
      hide PrintMembers, BeforeMembers;
      y := z + "}";
      assert "{" + (BeforeMembers(members) + z) + "}" == "{" + BeforeMembers(members) + (z + "}");
  }

  lemma {:induction false} ItemsSplit(items: seq<Doc>) returns (y: string)
    requires WritableItems(items) && !WellFormedItems(items)
    ensures PrintItems(items) == BeforeItems(items) + y
    ensures |y| > 1 && (y[0] == 'N' || y[0] == 'i' || (y[0] == '-' && y[1] == 'i'))
    decreases items, 0
  {
    if WellFormed(items[0]) {
      y := ItemsSplit(items[1..]);
      AfterComma(Print(items[0]), BeforeItems(items[1..]), y);
      assert PrintItems(items) == Print(items[0]) + "," + PrintItems(items[1..]);
      hide Print, PrintItems, BeforeItems;
    } else {
      var z := PrintSplits(items[0]);
      var more := if |items| == 1 then "" else "," + PrintItems(items[1..]);
      assert PrintItems(items) == Print(items[0]) + more;
      hide Print, Before, PrintItems;
      y := z + more;
      Associative(Before(items[0]), z, more);
    }
  }

  lemma {:induction false} MembersSplit(members: seq<Member>) returns (y: string)
    requires WritableMembers(members) && !WellFormedMembers(members)
    ensures PrintMembers(members) == BeforeMembers(members) + y
    ensures |y| > 1 && (y[0] == 'N' || y[0] == 'i' || (y[0] == '-' && y[1] == 'i'))
    decreases members, 0
  {
    var m := members[0];
    var more := if |members| == 1 then "" else "," + PrintMembers(members[1..]);
    assert PrintMembers(members) == Quote(m.key) + (":" + (Print(m.value) + more)) by { FieldPrinted(members); }
    if WellFormed(m.value) {
      y := MembersSplit(members[1..]);
      FieldTail(members, y);
      AfterComma(Print(m.value), BeforeMembers(members[1..]), y);
      hide Print, PrintMembers, BeforeMembers, Quote;
    } else {
      var z := PrintSplits(m.value);
      y := z + more;
      FieldTail(members, y);
      hide Print, PrintMembers, BeforeMembers, Quote, Before;
      Associative(Before(m.value), z, more);
    }
  }

  lemma FieldPrinted(members: seq<Member>)
    requires members != []
    ensures PrintMembers(members) == Quote(members[0].key) + (":" +
      (Print(members[0].value) + (if |members| == 1 then "" else "," + PrintMembers(members[1..]))))
  {
    var m := members[0];
    var more := if |members| == 1 then "" else "," + PrintMembers(members[1..]);
    assert PrintMember(m) == Quote(m.key) + ":" + Print(m.value);
    FirstMember(members);
    hide *;
    Ungroup(Quote(m.key), Print(m.value), more);
  }

  lemma FirstMember(members: seq<Member>)
    requires members != []
    ensures PrintMembers(members)
      == PrintMember(members[0]) + (if |members| == 1 then "" else "," + PrintMembers(members[1..]))
  {
    hide PrintMember;
    assert PrintMember(members[0]) + "" == PrintMember(members[0]);
    if |members| > 1 { Associative(PrintMember(members[0]), ",", PrintMembers(members[1..])); }
  }

  lemma Ungroup(k: string, p: string, more: string)
    ensures k + ":" + p + more == k + (":" + (p + more))
  {
  }

  /** A document with a number that has no JSON form prints text that never parses. */
  lemma IllFormedFails(d: Doc, rest: string)
    requires Writable(d) && !WellFormed(d)
    ensures Fails(ParseValue(Print(d) + rest))
  {
    var y := PrintSplits(d);
    hide Print, Before, ParseValue;
    Associative(Before(d), y, rest);
    FailsFrom(d, y + rest);
  }

  lemma DocumentFails(d: Doc)
    requires Writable(d) && !WellFormed(d)
    ensures Parse(Print(d)).Err? && Parse(Print(d)) != Err(SliceAbort)
  {
    assert Print(d) + "" == Print(d);
    IllFormedFails(d, "");
    hide ParseValue, Print;
  }

  // ---- Repair ------------------------------------------------------------

  const ZERO := NumberToken(false, "0", "", "")

  /** The document with a zero for every number without a JSON form. */
  function Repaired(d: Doc): Doc
    decreases d, 1
  {
    match d
    case DNum(f) => DNum(if f.Finite? then f else Finite(ZERO))
    case DArr(items) => DArr(RepairedItems(items))
    case DObj(members) => DObj(RepairedMembers(members))
    case _ => d
  }

  function RepairedItems(items: seq<Doc>): (rs: seq<Doc>)
    ensures |rs| == |items|
    decreases items, 0
  {
    if items == [] then [] else [Repaired(items[0])] + RepairedItems(items[1..])
  }

  function RepairedMembers(members: seq<Member>): (rs: seq<Member>)
    ensures |rs| == |members|
    decreases members, 0
  {
    if members == [] then []
    else [Member(members[0].key, Repaired(members[0].value))] + RepairedMembers(members[1..])
  }

  lemma {:induction false} RepairedWellFormed(d: Doc)
    requires Writable(d)
    ensures WellFormed(Repaired(d)) && (WellFormed(d) ==> Repaired(d) == d)
    decreases d, 1
  {
    match d
    case DArr(items) => RepairedItemsWellFormed(items);
    case DObj(members) => RepairedMembersWellFormed(members);
    case _ =>
  }

  lemma {:induction false} RepairedItemsWellFormed(items: seq<Doc>)
    requires WritableItems(items)
    ensures WellFormedItems(RepairedItems(items)) && (WellFormedItems(items) ==> RepairedItems(items) == items)
    decreases items, 0
  {
    if items != [] {
      RepairedWellFormed(items[0]);
      RepairedItemsWellFormed(items[1..]);
      assert RepairedItems(items)[1..] == RepairedItems(items[1..]);
    }
  }

  lemma {:induction false} RepairedMembersWellFormed(members: seq<Member>)
    requires WritableMembers(members)
    ensures WellFormedMembers(RepairedMembers(members)) && (WellFormedMembers(members) ==> RepairedMembers(members) == members)
    decreases members, 0
  {
    if members != [] {
      RepairedWellFormed(members[0].value);
      RepairedMembersWellFormed(members[1..]);
      assert RepairedMembers(members)[1..] == RepairedMembers(members[1..]);
    }
  }

  /** Up to the first bad number nothing is repaired. */
  lemma {:induction false} RepairedBegins(d: Doc)
    requires Writable(d) && !WellFormed(d)
    ensures Before(d) <= Print(Repaired(d))
    decreases d, 1
  {
    match d
    case DNum(_) =>
    case DArr(items) =>
      RepairedItemsBegin(items);
      hide PrintItems, BeforeItems;
      PrefixInside("[", BeforeItems(items), PrintItems(RepairedItems(items)), "]");
    case DObj(members) =>
      RepairedMembersBegin(members);
      hide PrintMembers, BeforeMembers;
      PrefixInside("{", BeforeMembers(members), PrintMembers(RepairedMembers(members)), "}");
  }

  lemma PrefixInside(a: string, b: string, c: string, z: string)
    requires b <= c
    ensures a + b <= a + c + z && a + b <= a + (c + z)
  {
    assert c == b + c[|b|..];
  }

  lemma {:induction false} RepairedItemsBegin(items: seq<Doc>)
    requires WritableItems(items) && !WellFormedItems(items)
    ensures BeforeItems(items) <= PrintItems(RepairedItems(items))
    decreases items, 0
  {
    var rs := RepairedItems(items);
    assert rs[0] == Repaired(items[0]) && rs[1..] == RepairedItems(items[1..]);
    var more := if |rs| == 1 then "" else "," + PrintItems(rs[1..]);
    assert PrintItems(rs) == Print(rs[0]) + more;
    if WellFormed(items[0]) {
      RepairedWellFormed(items[0]);
      RepairedItemsBegin(items[1..]);
      hide Print, PrintItems, RepairedItems, Repaired;
      assert more == "," + PrintItems(rs[1..]);
      PrefixInside(",", BeforeItems(items[1..]), PrintItems(rs[1..]), "");
      PrefixInside(Print(items[0]), "," + BeforeItems(items[1..]), more, "");
    } else {
      RepairedBegins(items[0]);
      hide Print, PrintItems, RepairedItems, Repaired, Before;
      PrefixInside("", Before(items[0]), Print(rs[0]), more);
    }
  }

  lemma {:induction false} RepairedMembersBegin(members: seq<Member>)
    requires WritableMembers(members) && !WellFormedMembers(members)
    ensures BeforeMembers(members) <= PrintMembers(RepairedMembers(members))
    decreases members, 0
  {
    var rs := RepairedMembers(members);
    var m := members[0];
    assert rs[0] == Member(m.key, Repaired(m.value)) && rs[1..] == RepairedMembers(members[1..]);
    FieldPrinted(rs);
    var more := if |rs| == 1 then "" else "," + PrintMembers(rs[1..]);
    FieldTail(members, "");
    var value := if !WellFormed(m.value) then Before(m.value) else Print(m.value) + ("," + BeforeMembers(members[1..]));
    assert value <= Print(rs[0].value) + more by {
      if WellFormed(m.value) {
        RepairedWellFormed(m.value);
        RepairedMembersBegin(members[1..]);
        hide Print, PrintMembers, RepairedMembers, Repaired, BeforeMembers;
        PrefixInside(",", BeforeMembers(members[1..]), PrintMembers(rs[1..]), "");
        PrefixInside(Print(m.value), "," + BeforeMembers(members[1..]), more, "");
      } else {
        RepairedBegins(m.value);
        hide Print, PrintMembers, RepairedMembers, Repaired, Before;
        PrefixInside("", Before(m.value), Print(rs[0].value), more);
      }
    }
    hide Print, PrintMembers, RepairedMembers, Repaired, Before, BeforeMembers, Quote;
    PrefixInside(":", value, Print(rs[0].value) + more, "");
    PrefixInside(Quote(m.key), ":" + value, ":" + (Print(rs[0].value) + more), "");
  }
}
