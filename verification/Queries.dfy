/**
 The reads of the append-log backend (crates/core/src/storage_append_log.rs:962-1062) against
 naive scans of the fact table: what a filter over every stored row would return.
 */
module Queries {
  import opened Prelude
  import opened Facts
  import opened LogState
  import FactId
  import opened Rfc3339

  datatype Row = Row(key: string, fact: Fact)

  /** The rows of the keys that have one, in the order of the keys. */
  function RowsOf(facts: FactTable, ks: seq<string>): seq<Row>
  {
    if ks == [] then []
    else (if ks[0] in facts then [Row(ks[0], facts[ks[0]])] else []) + RowsOf(facts, ks[1..])
  }

  /** The naive scan: the chosen rows in byte order of their keys. */
  ghost function Scan(facts: FactTable, chosen: set<string>): seq<Row>
  {
    RowsOf(facts, Listing(chosen))
  }

  lemma {:induction false} RowsComplete(facts: FactTable, ks: seq<string>)
    requires InTable(facts, ks)
    ensures |RowsOf(facts, ks)| == |ks|
    ensures forall i :: 0 <= i < |ks| ==> RowsOf(facts, ks)[i] == Row(ks[i], facts[ks[i]])
  {
    if ks != [] {
      assert forall i :: 0 <= i < |ks[1..]| ==> ks[1..][i] == ks[i + 1];
      RowsComplete(facts, ks[1..]);
    }
  }

  /** A scan returns each chosen row once, and rows of other keys never. */
  lemma ScanIsExact(facts: FactTable, chosen: set<string>)
    requires forall k :: k in chosen ==> k in facts
    ensures var rows := Scan(facts, chosen);
      |rows| == |chosen|
      && (forall i :: 0 <= i < |rows| ==> rows[i].key in chosen && rows[i].fact == facts[rows[i].key])
      && (forall k :: k in chosen ==> Row(k, facts[k]) in rows)
      && (forall i, j :: 0 <= i < j < |rows| ==> Below(rows[i].key, rows[j].key))
  {
    hide Below;
    var ks := Listing(chosen);
    assert forall i :: 0 <= i < |ks| ==> ks[i] in chosen;
    RowsComplete(facts, ks);
    var rows := Scan(facts, chosen);
    forall k | k in chosen ensures Row(k, facts[k]) in rows {
      var i :| 0 <= i < |ks| && ks[i] == k;
      assert rows[i] == Row(k, facts[k]);
    }
  }

  // ---- Rows by prefix ----------------------------------------------------

  /** Stored keys that start with a text. */
  function Starting(facts: FactTable, prefix: string): set<string>
  {
    set k | k in facts && prefix <= k
  }

  /** `scan_facts`: the rows filed under the prefix if there are any, else those starting with it. */
  ghost function ScanFacts(facts: FactTable, prefix: string): seq<Row>
  {
    var filed := KeysOf(facts, All, prefix);
    Scan(facts, if filed != {} then filed else Starting(facts, prefix))
  }

  /** The row keys are those the backend makes. */
  predicate RowKeyed(facts: FactTable)
  {
    forall k :: k in facts ==> k == RowKey(facts[k])
  }

  predicate ColonFree(s: string)
  {
    ':' !in s
  }

  predicate PairsColonFree(facts: FactTable)
  {
    forall k :: k in facts ==> ColonFree(facts[k].subject) && ColonFree(facts[k].predicate_)
  }

  // ---- Reading pairs out of keys -----------------------------------------

  lemma {:induction false} SymbolsColonFree(n: nat, width: nat)
    ensures ColonFree(FactId.Base32(n, width))
  {
    if width > 0 { SymbolsColonFree(n / 32, width - 1); }
  }

  lemma IdColonFree(id: FactId.Id)
    ensures ColonFree(FactId.Text(id))
  {
    SymbolsColonFree(id, FactId.BODY_LEN);
  }

  lemma ColonInside(a: string, x: string, b: string, y: string)
    requires a + ":" + x == b + ":" + y && |b| < |a|
    ensures ':' in y && ':' in a
  {
    var t := a + ":" + x;
    assert t[|a|] == y[|a| - |b| - 1] && t[|b|] == a[|b|];
    assert t[|a|] == ':' && t[|b|] == ':';
  }

  /** The last colon of a text is unique. */
  lemma LastColon(a: string, x: string, b: string, y: string)
    requires ColonFree(x) && ColonFree(y) && a + ":" + x == b + ":" + y
    ensures a == b && x == y
  {
    if |b| < |a| { ColonInside(a, x, b, y); }
    if |a| < |b| { ColonInside(b, y, a, x); }
    var t := a + ":" + x;
    assert t[..|a|] == a && t[..|b|] == b && t[|a| + 1..] == x && t[|b| + 1..] == y;
  }

  /** So is the first. */
  lemma FirstColon(a: string, x: string, b: string, y: string)
    requires ColonFree(a) && ColonFree(b) && a + ":" + x <= b + ":" + y
    ensures a == b && x <= y
  {
    var s, t := a + ":" + x, b + ":" + y;
    var z := t[|s|..];
    assert t == s + z;
    assert a + ":" + (x + z) == b + ":" + y;
    if |b| < |a| { ColonInside(a, x + z, b, y); }
    if |a| < |b| { ColonInside(b, y, a, x + z); }
    assert t[..|a|] == a && t[..|b|] == b && t[|a| + 1..] == x + z && t[|b| + 1..] == y;
  }

  // ---- Pairs with one text -----------------------------------------------

  /** The second pair is the first with the colon between the names read further right. */
  predicate ColonMoved(s: string, p: string, s': string, p': string)
  {
    s + ":" <= s' && p == s'[|s| + 1..] + ":" + p'
  }

  lemma ShorterSubject(s: string, p: string, s': string, p': string)
    requires |s| < |s'|
    ensures PairPrefix(s, p) == PairPrefix(s', p') <==> ColonMoved(s, p, s', p')
  {
    var a, b := PairPrefix(s, p), PairPrefix(s', p');
    if a == b {
      assert a[..|s| + 1] == s + ":" && b[..|s| + 1] == s'[..|s| + 1];
      assert a[|s| + 1..] == p + ":" && b[|s| + 1..] == s'[|s| + 1..] + ":" + p' + ":";
      assert (p + ":")[..|p|] == p;
    }
    if ColonMoved(s, p, s', p') {
      assert s' == s + ":" + s'[|s| + 1..];
      assert s + ":" + (s'[|s| + 1..] + ":" + p') == s + ":" + s'[|s| + 1..] + ":" + p';
    }
  }

  /** Two pairs are filed under one text exactly when they are equal or differ by where the colon is read. */
  lemma PairTexts(s: string, p: string, s': string, p': string)
    ensures PairPrefix(s, p) == PairPrefix(s', p')
      <==> (s == s' && p == p') || ColonMoved(s, p, s', p') || ColonMoved(s', p', s, p)
  {
    if |s| < |s'| {
      ShorterSubject(s, p, s', p');
    } else if |s'| < |s| {
      ShorterSubject(s', p', s, p);
    } else if PairPrefix(s, p) == PairPrefix(s', p') {
      var a, b := PairPrefix(s, p), PairPrefix(s', p');
      assert a[..|s|] == s && b[..|s|] == s' && a[|s| + 1..|a| - 1] == p && b[|s| + 1..|b| - 1] == p';
    }
  }

  lemma MovedHasColon(s: string, p: string, s': string, p': string)
    ensures ColonMoved(s, p, s', p') ==> ':' in s' && ':' in p
  {
    if ColonMoved(s, p, s', p') {
      assert s'[|s|] == ':' && p[|s'| - |s| - 1] == ':';
    }
  }

  /** Distinct pairs have distinct texts when predicates have no colon. */
  lemma PairInjective(s: string, p: string, s': string, p': string)
    requires ColonFree(p) && ColonFree(p') && PairPrefix(s, p) == PairPrefix(s', p')
    ensures s == s' && p == p'
  {
    PairTexts(s, p, s', p');
    MovedHasColon(s, p, s', p');
    MovedHasColon(s', p', s, p);
  }

  /** Two such pairs: both are `a:b:c:`. */
  lemma PairsCollide()
    ensures PairPrefix("a", "b:c") == PairPrefix("a:b", "c")
  {
  }

  /** The fact's pair is another one with the text of this pair. */
  predicate Mixed(f: Fact, s: string, p: string)
  {
    ColonMoved(s, p, f.subject, f.predicate_) || ColonMoved(f.subject, f.predicate_, s, p)
  }

  lemma FiledUnder(f: Fact, s: string, p: string)
    ensures PrefixOf(f) == PairPrefix(s, p) <==> (f.subject == s && f.predicate_ == p) || Mixed(f, s, p)
    ensures !(f.subject == s && f.predicate_ == p && Mixed(f, s, p))
  {
    PairTexts(f.subject, f.predicate_, s, p);
  }

  lemma RowKeyParts(f: Fact, g: Fact)
    requires RowKey(f) == RowKey(g)
    ensures PrefixOf(f) == PrefixOf(g) && f.id == g.id
  {
    IdColonFree(f.id);
    IdColonFree(g.id);
    var a, b := f.subject + ":" + f.predicate_, g.subject + ":" + g.predicate_;
    assert RowKey(f) == a + ":" + FactId.Text(f.id) && RowKey(g) == b + ":" + FactId.Text(g.id);
    hide FactId.Text;
    LastColon(a, FactId.Text(f.id), b, FactId.Text(g.id));
    FactId.ParseUndoesText(f.id);
    FactId.ParseUndoesText(g.id);
  }

  lemma EndsInside(prefix: string, own: string, id: string)
    requires prefix <= own + id && |own| < |prefix|
    ensures prefix[|prefix| - 1] in id
  {
    assert prefix[|prefix| - 1] == (own + id)[|prefix| - 1] == id[|prefix| - 1 - |own|];
  }

  /** A key starts with a text that ends in a colon exactly when its fact's pair text does. */
  lemma StartsWithin(prefix: string, f: Fact)
    requires prefix != [] && prefix[|prefix| - 1] == ':'
    ensures prefix <= RowKey(f) <==> prefix <= PrefixOf(f)
  {
    var own, id := PrefixOf(f), FactId.Text(f.id);
    IdColonFree(f.id);
    hide FactId.Text, PrefixOf;
    assert RowKey(f) == own + id;
    if prefix <= own + id && |prefix| > |own| { EndsInside(prefix, own, id); }
    if prefix <= own + id && |prefix| <= |own| {
      assert (own + id)[..|own|] == own;
      assert prefix == own[..|prefix|];
    }
    if prefix <= own { assert own <= own + id; }
  }

  lemma ColonFreePair(s: string, p: string, f: Fact)
    requires ColonFree(s) && ColonFree(p) && ColonFree(f.subject) && ColonFree(f.predicate_)
    ensures PairPrefix(s, p) <= PrefixOf(f) <==> f.subject == s && f.predicate_ == p
  {
    if PairPrefix(s, p) <= PrefixOf(f) {
      assert PairPrefix(s, p) == s + ":" + (p + ":" + "");
      assert PrefixOf(f) == f.subject + ":" + (f.predicate_ + ":" + "");
      FirstColon(s, p + ":" + "", f.subject, f.predicate_ + ":" + "");
      FirstColon(p, "", f.predicate_, "");
    }
  }

  // ---- scan_facts --------------------------------------------------------

  lemma ScanInjective(facts: FactTable, a: set<string>, b: set<string>)
    requires forall k :: k in a || k in b ==> k in facts
    requires Scan(facts, a) == Scan(facts, b)
    ensures a == b
  {
    ScanIsExact(facts, a);
    ScanIsExact(facts, b);
    hide Scan;
    forall k ensures k in a <==> k in b {
      if k in a { assert Row(k, facts[k]) in Scan(facts, b); }
      if k in b { assert Row(k, facts[k]) in Scan(facts, a); }
    }
  }

  /**
   The two paths of `scan_facts` would return the same rows exactly when no stored fact has a
   pair text that the queried one properly begins.
   */
  lemma ScanPathsAgree(facts: FactTable, s: string, p: string)
    requires RowKeyed(facts)
    ensures Scan(facts, KeysOf(facts, All, PairPrefix(s, p))) == Scan(facts, Starting(facts, PairPrefix(s, p)))
      <==> !exists k :: k in facts && PairPrefix(s, p) < PrefixOf(facts[k])
  {
    var prefix := PairPrefix(s, p);
    var filed, starting := KeysOf(facts, All, prefix), Starting(facts, prefix);
    forall k | k in facts ensures k in starting <==> prefix <= PrefixOf(facts[k]) {
      StartsWithin(prefix, facts[k]);
    }
    hide PairPrefix, PrefixOf, RowKey, Scan;
    if filed == starting {
      assert forall k :: k in facts && prefix <= PrefixOf(facts[k]) ==> k in filed;
    } else {
      assert forall k :: k in filed ==> k in starting;
      var k :| k in starting && k !in filed;
      assert prefix < PrefixOf(facts[k]);
      if Scan(facts, filed) == Scan(facts, starting) { ScanInjective(facts, filed, starting); }
    }
  }

  function PairKeys(facts: FactTable, s: string, p: string): set<string>
  {
    set k | k in facts && facts[k].subject == s && facts[k].predicate_ == p
  }

  function WithPairText(facts: FactTable, text: string): set<string>
  {
    set k | k in facts && PrefixOf(facts[k]) == text
  }

  function WithTextFrom(facts: FactTable, text: string): set<string>
  {
    set k | k in facts && text <= PrefixOf(facts[k])
  }

  /** The keys a scan of a text ending in a colon picks: those with that pair text, else those it begins. */
  function ScannedKeys(facts: FactTable, text: string): set<string>
  {
    var filed := WithPairText(facts, text);
    if filed != {} then filed else WithTextFrom(facts, text)
  }

  lemma ScanPicks(facts: FactTable, text: string)
    requires RowKeyed(facts) && text != [] && text[|text| - 1] == ':'
    ensures ScanFacts(facts, text) == Scan(facts, ScannedKeys(facts, text))
    ensures forall k :: k in ScannedKeys(facts, text) ==> k in facts
  {
    forall k | k in facts ensures k in Starting(facts, text) <==> text <= PrefixOf(facts[k]) {
      StartsWithin(text, facts[k]);
    }
    hide PrefixOf, RowKey, Scan;
    assert Starting(facts, text) == WithTextFrom(facts, text);
    assert KeysOf(facts, All, text) == WithPairText(facts, text);
  }

  /** What keeps `scan_facts` from the facts of the pair alone: a pair with its text, or, with none of its own, one it begins. */
  predicate ScanMixes(facts: FactTable, s: string, p: string)
  {
    (exists k :: k in facts && Mixed(facts[k], s, p))
    || (PairKeys(facts, s, p) == {} && exists k :: k in facts && PairPrefix(s, p) < PrefixOf(facts[k]))
  }

  /** `scan_facts` returns exactly the facts of the pair, for all names, unless pairs are mixed. */
  lemma ScanPair(facts: FactTable, s: string, p: string)
    requires RowKeyed(facts)
    ensures ScanFacts(facts, PairPrefix(s, p)) == Scan(facts, PairKeys(facts, s, p)) <==> !ScanMixes(facts, s, p)
  {
    var text := PairPrefix(s, p);
    ScanPicks(facts, text);
    forall k | k in facts ensures k in WithPairText(facts, text) <==> k in PairKeys(facts, s, p) || Mixed(facts[k], s, p)
      ensures !(k in PairKeys(facts, s, p) && Mixed(facts[k], s, p)) {
      FiledUnder(facts[k], s, p);
    }
    hide PairPrefix, PrefixOf, RowKey, Scan, Mixed;
    var picked, own := ScannedKeys(facts, text), PairKeys(facts, s, p);
    assert picked == own <==> !ScanMixes(facts, s, p) by { PickedOwn(facts, s, p); }
    if picked != own && Scan(facts, picked) == Scan(facts, own) { ScanInjective(facts, picked, own); }
  }

  lemma PickedOwn(facts: FactTable, s: string, p: string)
    requires forall k :: k in facts ==> (k in WithPairText(facts, PairPrefix(s, p)) <==> k in PairKeys(facts, s, p) || Mixed(facts[k], s, p))
    requires forall k :: k in facts ==> !(k in PairKeys(facts, s, p) && Mixed(facts[k], s, p))
    ensures ScannedKeys(facts, PairPrefix(s, p)) == PairKeys(facts, s, p) <==> !ScanMixes(facts, s, p)
  {
    hide PrefixOf, PairPrefix, Mixed;
    var text := PairPrefix(s, p);
    var filed, own := WithPairText(facts, text), PairKeys(facts, s, p);
    if k :| k in facts && Mixed(facts[k], s, p) {
      assert k in filed && k !in own;
    } else {
      assert filed == own;
      if own == {} {
        if k :| k in facts && text < PrefixOf(facts[k]) { assert k in WithTextFrom(facts, text); }
        forall k | k in WithTextFrom(facts, text) && !(text < PrefixOf(facts[k])) ensures k in filed {}
      }
    }
  }

  /** Names without colons are never mixed. */
  lemma ColonFreeUnmixed(facts: FactTable, s: string, p: string)
    requires PairsColonFree(facts) && ColonFree(s) && ColonFree(p)
    ensures !ScanMixes(facts, s, p)
  {
    forall k | k in facts ensures !Mixed(facts[k], s, p) && !(PairPrefix(s, p) < PrefixOf(facts[k])) {
      MovedHasColon(s, p, facts[k].subject, facts[k].predicate_);
      MovedHasColon(facts[k].subject, facts[k].predicate_, s, p);
      ColonFreePair(s, p, facts[k]);
    }
    hide PairPrefix, PrefixOf, Mixed;
  }

  /** A colon in a stored subject makes another pair's scan return its fact. */
  lemma ColonMixesPairs(f: Fact, a: string, b: string)
    requires f.subject == a + ":" + b
    ensures ScanFacts(map[RowKey(f) := f], PairPrefix(a, b)) == [Row(RowKey(f), f)]
  {
    var facts := map[RowKey(f) := f];
    var prefix := PairPrefix(a, b);
    assert |PrefixOf(f)| > |prefix|;
    StartsWithin(prefix, f);
    assert PrefixOf(f) == prefix + f.predicate_ + ":";
    hide PairPrefix, PrefixOf;
    assert KeysOf(facts, All, prefix) == {};
    assert Starting(facts, prefix) == {RowKey(f)};
    var ks := Listing({RowKey(f)});
    assert |ks| == 1 && ks[0] in ks;
    assert ks == [RowKey(f)];
    RowsComplete(facts, ks);
  }

  function SubjectKeys(facts: FactTable, s: string): set<string>
  {
    set k | k in facts && facts[k].subject == s
  }

  /** Which pair texts begin with `s:`, by their names. */
  lemma TextBegins(s: string, own: string, p: string)
    ensures s + ":" <= PairPrefix(own, p)
      <==> own == s || s + ":" <= own || (own + ":" <= s && s[|own| + 1..] + ":" <= p + ":")
  {
    var t := PairPrefix(own, p);
    assert t == own + ":" + (p + ":");
    assert t[..|own|] == own && t[..|own| + 1] == own + ":" && t[|own| + 1..] == p + ":";
    if |s| < |own| {
      assert t[..|s| + 1] == own[..|s| + 1];
    } else if |s| > |own| {
      var z := s[|own| + 1..];
      if s + ":" <= t {
        assert s == t[..|s|];
        assert s[..|own| + 1] == t[..|own| + 1];
      }
      if own + ":" <= s {
        assert s + ":" == own + ":" + (z + ":");
        assert |s| + 1 <= |t| ==> t[..|s| + 1] == own + ":" + (p + ":")[..|z| + 1];
      }
    } else {
      assert s + ":" <= t ==> s == t[..|s|];
    }
  }

  /** The fact is of another subject, but its pair text begins with `s:`. */
  predicate MixedSubject(f: Fact, s: string)
  {
    f.subject != s
    && (s + ":" <= f.subject || (f.subject + ":" <= s && s[|f.subject| + 1..] + ":" <= f.predicate_ + ":"))
  }

  /** `all_facts_about` returns exactly the facts of the subject, for all names, unless subjects are mixed. */
  lemma ScanSubject(facts: FactTable, s: string)
    requires RowKeyed(facts)
    ensures ScanFacts(facts, s + ":") == Scan(facts, SubjectKeys(facts, s))
      <==> !exists k :: k in facts && MixedSubject(facts[k], s)
  {
    ScanPicks(facts, s + ":");
    forall k | k in facts ensures s + ":" <= PrefixOf(facts[k]) <==> facts[k].subject == s || MixedSubject(facts[k], s)
      ensures PrefixOf(facts[k]) == s + ":" ==> facts[k].subject != s {
      TextBegins(s, facts[k].subject, facts[k].predicate_);
    }
    hide PairPrefix, PrefixOf, RowKeyed, Scan, MixedSubject, ScanFacts, ScannedKeys, SubjectKeys;
    PickedSubject(facts, s);
    if Scan(facts, ScannedKeys(facts, s + ":")) == Scan(facts, SubjectKeys(facts, s)) {
      ScanInjective(facts, ScannedKeys(facts, s + ":"), SubjectKeys(facts, s));
    }
  }

  lemma PickedSubject(facts: FactTable, s: string)
    requires forall k :: k in facts ==> (s + ":" <= PrefixOf(facts[k]) <==> facts[k].subject == s || MixedSubject(facts[k], s))
    requires forall k :: k in facts && PrefixOf(facts[k]) == s + ":" ==> facts[k].subject != s
    ensures ScannedKeys(facts, s + ":") == SubjectKeys(facts, s) <==> !exists k :: k in facts && MixedSubject(facts[k], s)
    ensures forall k :: k in SubjectKeys(facts, s) ==> k in facts
  {
    hide PrefixOf, MixedSubject;
    var picked, own, filed := ScannedKeys(facts, s + ":"), SubjectKeys(facts, s), WithPairText(facts, s + ":");
    if filed != {} {
      var l :| l in filed;
      assert l in picked && l !in own;
      assert MixedSubject(facts[l], s);
    } else if k :| k in facts && MixedSubject(facts[k], s) {
      assert facts[k].subject != s by { hide *; MixedElsewhere(facts[k], s); }
      assert k in picked && k !in own;
    }
  }

  lemma MixedElsewhere(f: Fact, s: string)
    ensures MixedSubject(f, s) ==> f.subject != s
  {
  }

  // ---- current_facts -----------------------------------------------------

  ghost function CurrentFacts(facts: FactTable, s: string, p: string): seq<Row>
  {
    Scan(facts, KeysOf(facts, Current, PairPrefix(s, p)))
  }

  function CurrentPairKeys(facts: FactTable, s: string, p: string): set<string>
  {
    set k | k in facts && facts[k].subject == s && facts[k].predicate_ == p && IsCurrentlyValid(facts[k])
  }

  /** `current_facts` is the filter of all rows by pair text and by being currently valid. */
  lemma CurrentFactsAreCurrent(facts: FactTable, s: string, p: string)
    ensures CurrentFacts(facts, s, p)
      == Scan(facts, set k | k in facts && PrefixOf(facts[k]) == PairPrefix(s, p) && IsCurrentlyValid(facts[k]))
  {
    hide Scan, PrefixOf, PairPrefix;
    assert KeysOf(facts, Current, PairPrefix(s, p))
      == set k | k in facts && PrefixOf(facts[k]) == PairPrefix(s, p) && IsCurrentlyValid(facts[k]);
  }

  /** A current fact of another pair, filed under the same text. */
  predicate MixedNow(facts: FactTable, s: string, p: string)
  {
    exists k :: k in facts && Mixed(facts[k], s, p) && IsCurrentlyValid(facts[k])
  }

  /** It is the filter by subject and predicate exactly when no pair with the same text has a current fact. */
  lemma CurrentFactsAreOwn(facts: FactTable, s: string, p: string)
    ensures CurrentFacts(facts, s, p) == Scan(facts, CurrentPairKeys(facts, s, p)) <==> !MixedNow(facts, s, p)
  {
    var filed, own := KeysOf(facts, Current, PairPrefix(s, p)), CurrentPairKeys(facts, s, p);
    forall k | k in facts && IsCurrentlyValid(facts[k])
      ensures k in filed <==> k in own || Mixed(facts[k], s, p)
      ensures !(k in own && Mixed(facts[k], s, p)) {
      FiledUnder(facts[k], s, p);
    }
    hide PrefixOf, PairPrefix, Scan, Mixed;
    if k :| k in facts && Mixed(facts[k], s, p) && IsCurrentlyValid(facts[k]) {
      assert k in filed && k !in own;
      if Scan(facts, filed) == Scan(facts, own) { ScanInjective(facts, filed, own); }
    } else {
      assert filed == own;
    }
  }

  // ---- facts_at ----------------------------------------------------------

  /** The rows of a chain valid at an instant, from the last to begin to the first. */
  function ValidDown(facts: FactTable, c: seq<string>, at: Timestamp): seq<Row>
  {
    if c == [] then []
    else
      var k := c[|c| - 1];
      (if k in facts && WasValidAt(facts[k], at) then [Row(k, facts[k])] else []) + ValidDown(facts, c[..|c| - 1], at)
  }

  /** Facts that have not begun contribute nothing. */
  lemma {:induction false} ValidDownBegun(facts: FactTable, c: seq<string>, n: nat, at: Timestamp)
    requires n <= |c| && forall i :: n <= i < |c| ==> c[i] !in facts || facts[c[i]].validFrom > at
    ensures ValidDown(facts, c, at) == ValidDown(facts, c[..n], at)
  {
    if n < |c| {
      var d := c[..|c| - 1];
      ValidDownBegun(facts, d, n, at);
      assert d[..n] == c[..n];
    } else {
      assert c[..n] == c;
    }
  }

  predicate RowValid(facts: FactTable, c: seq<string>, at: Timestamp, row: Row)
  {
    row.key in c && row.key in facts && facts[row.key] == row.fact && WasValidAt(row.fact, at)
  }

  /** From the last to begin to the first, no row twice. */
  predicate Descends(rows: seq<Row>)
  {
    forall i, j :: 0 <= i < j < |rows| ==> rows[i].key != rows[j].key && rows[i].fact.validFrom >= rows[j].fact.validFrom
  }

  lemma {:induction false} ValidDownRows(facts: FactTable, c: seq<string>, at: Timestamp)
    ensures forall row :: row in ValidDown(facts, c, at) <==> RowValid(facts, c, at, row)
  {
    hide WasValidAt;
    if c != [] {
      var d, k := c[..|c| - 1], c[|c| - 1];
      ValidDownRows(facts, d, at);
      assert forall x :: x in c <==> x in d || x == k by { assert c == d + [k]; }
    }
  }

  lemma {:induction false} ValidDownDescends(facts: FactTable, c: seq<string>, at: Timestamp)
    requires InTable(facts, c) && ByBeginning(facts, c) && NoDuplicates(c)
    ensures Descends(ValidDown(facts, c, at))
  {
    hide WasValidAt;
    if c != [] {
      var d, k := c[..|c| - 1], c[|c| - 1];
      ValidDownDescends(facts, d, at);
      ValidDownRows(facts, d, at);
      var rest := ValidDown(facts, d, at);
      hide ByBeginning, NoDuplicates;
      forall j | 0 <= j < |rest| ensures rest[j].key != k && rest[j].fact.validFrom <= facts[k].validFrom {
        assert RowValid(facts, d, at, rest[j]);
        EarlierInChain(facts, c, rest[j].key);
      }
    }
  }

  lemma EarlierInChain(facts: FactTable, c: seq<string>, k: string)
    requires c != [] && InTable(facts, c) && ByBeginning(facts, c) && NoDuplicates(c) && k in c[..|c| - 1]
    ensures k != c[|c| - 1] && facts[k].validFrom <= facts[c[|c| - 1]].validFrom
  {
    var i :| 0 <= i < |c| - 1 && c[i] == k;
  }

  ghost function FactsAt(m: Memory, s: string, p: string, at: Timestamp): seq<Row>
  {
    ValidDown(m.facts, ChainAt(m.chains, PairPrefix(s, p)), at)
  }

  /** A stored fact under the text of the pair that was valid at the instant. */
  predicate FiledAnswer(facts: FactTable, s: string, p: string, at: Timestamp, row: Row)
  {
    row.key in facts && facts[row.key] == row.fact
    && PrefixOf(row.fact) == PairPrefix(s, p) && WasValidAt(row.fact, at)
  }

  /** A row a point-in-time query should return: a stored fact of the pair that was valid then. */
  predicate Answers(facts: FactTable, s: string, p: string, at: Timestamp, row: Row)
  {
    row.key in facts && facts[row.key] == row.fact
    && row.fact.subject == s && row.fact.predicate_ == p && WasValidAt(row.fact, at)
  }

  /**
   `facts_at` returns each fact filed under the pair's text that was valid at the instant, once,
   from the last to begin to the first, and nothing else.
   */
  lemma FactsAtIsNaive(m: Memory, s: string, p: string, at: Timestamp)
    requires Chained(m.facts, m.chains)
    ensures forall row :: row in FactsAt(m, s, p, at) <==> FiledAnswer(m.facts, s, p, at, row)
    ensures Descends(FactsAt(m, s, p, at))
  {
    var c := ChainAt(m.chains, PairPrefix(s, p));
    assert ChainFor(m.facts, PairPrefix(s, p), c);
    ValidDownRows(m.facts, c, at);
    ValidDownDescends(m.facts, c, at);
    hide ValidDown, PairPrefix, PrefixOf, WasValidAt, Chained, ByBeginning, NoDuplicates, Descends;
    assert forall k :: k in m.facts ==> (k in c <==> PrefixOf(m.facts[k]) == PairPrefix(s, p));
  }

  /** A fact of another pair, filed under the same text, that was valid at the instant. */
  predicate MixedAt(facts: FactTable, s: string, p: string, at: Timestamp)
  {
    exists k :: k in facts && Mixed(facts[k], s, p) && WasValidAt(facts[k], at)
  }

  /** These are the facts of the pair exactly when no fact of a pair with the same text was valid then. */
  lemma FactsAtAreOwn(m: Memory, s: string, p: string, at: Timestamp)
    requires Chained(m.facts, m.chains)
    ensures (forall row :: row in FactsAt(m, s, p, at) <==> Answers(m.facts, s, p, at, row)) <==> !MixedAt(m.facts, s, p, at)
  {
    FactsAtIsNaive(m, s, p, at);
    forall k | k in m.facts
      ensures FiledAnswer(m.facts, s, p, at, Row(k, m.facts[k]))
        <==> Answers(m.facts, s, p, at, Row(k, m.facts[k])) || (Mixed(m.facts[k], s, p) && WasValidAt(m.facts[k], at))
      ensures !(Answers(m.facts, s, p, at, Row(k, m.facts[k])) && Mixed(m.facts[k], s, p)) {
      FiledUnder(m.facts[k], s, p);
    }
    hide FactsAt, PairPrefix, PrefixOf, WasValidAt, Chained, Mixed, Descends;
    if !MixedAt(m.facts, s, p, at) {
      forall row ensures FiledAnswer(m.facts, s, p, at, row) <==> Answers(m.facts, s, p, at, row) {
        if row.key in m.facts && m.facts[row.key] == row.fact { assert row == Row(row.key, m.facts[row.key]); }
      }
    } else {
      var k :| k in m.facts && Mixed(m.facts[k], s, p) && WasValidAt(m.facts[k], at);
      assert FiledAnswer(m.facts, s, p, at, Row(k, m.facts[k])) && !Answers(m.facts, s, p, at, Row(k, m.facts[k]));
    }
  }
}
