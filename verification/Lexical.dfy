/**
 Full-text search (crates/core/src/lexical.rs:36-161): an inverted index scored by BM25.

 Scores are real numbers, and the natural logarithm is any function that is positive above one.
 Documents come as their tokens.  The order in which hash maps are walked is arbitrary.
 */
module Lexical {
  import opened Prelude
  import opened EditDistance
  import FactId

  datatype Document = Document(id: FactId.Id, tokens: seq<string>)

  const K1 := 1.2
  const B := 0.75

  // ---- What the index should hold ----------------------------------------

  /** How often a term occurs. */
  function Count(tokens: seq<string>, t: string): nat
  {
    if tokens == [] then 0
    else Count(tokens[..|tokens| - 1], t) + (if tokens[|tokens| - 1] == t then 1 else 0)
  }

  datatype Posting = Posting(doc: nat, tf: nat)

  /** The documents with a term and how often each has it, in document order. */
  function PostingsOf(docs: seq<Document>, t: string): (ps: seq<Posting>)
    ensures |ps| <= |docs|
  {
    if docs == [] then []
    else
      var n := |docs| - 1;
      PostingsOf(docs[..n], t) + (if Count(docs[n].tokens, t) > 0 then [Posting(n, Count(docs[n].tokens, t))] else [])
  }

  function TotalLength(docs: seq<Document>): nat
  {
    if docs == [] then 0 else TotalLength(docs[..|docs| - 1]) + |docs[|docs| - 1].tokens|
  }

  function AverageLength(docs: seq<Document>): real
  {
    if docs == [] then 1.0 else TotalLength(docs) as real / |docs| as real
  }

  lemma {:induction false} CountPositive(tokens: seq<string>, t: string)
    ensures Count(tokens, t) > 0 <==> t in tokens
  {
    if tokens != [] {
      CountPositive(tokens[..|tokens| - 1], t);
      assert tokens == tokens[..|tokens| - 1] + [tokens[|tokens| - 1]];
    }
  }

  /** The postings of a term name exactly the documents that have it, each once, with its count. */
  lemma {:induction false} PostingsExact(docs: seq<Document>, t: string)
    ensures forall p :: p in PostingsOf(docs, t) <==> p.doc < |docs| && p.tf == Count(docs[p.doc].tokens, t) > 0
    ensures forall i, j :: 0 <= i < j < |PostingsOf(docs, t)| ==> PostingsOf(docs, t)[i].doc < PostingsOf(docs, t)[j].doc
  {
    if docs != [] {
      var n := |docs| - 1;
      var init := docs[..n];
      PostingsExact(init, t);
      assert forall i :: 0 <= i < n ==> init[i] == docs[i];
      var before := PostingsOf(init, t);
      assert forall i :: 0 <= i < |before| ==> before[i] in before;
    }
  }

  // ---- Scores ------------------------------------------------------------

  ghost predicate LogLike(ln: real -> real)
  {
    forall x :: x > 1.0 ==> ln(x) > 0.0
  }

  function Larger(a: real, b: real): real { if a < b then b else a }

  function Idf(ln: real -> real, total: nat, df: nat): real
  {
    ln(1.0 + (total as real - df as real + 0.5) / (df as real + 0.5))
  }

  function Norm(tf: nat, length: nat, average: real): real
    requires average >= 1.0
  {
    tf as real + K1 * (1.0 - B + B * (length as real / average))
  }

  lemma NormPositive(tf: nat, length: nat, average: real)
    requires average >= 1.0
    ensures Norm(tf, length, average) > 0.0
  {
    assert length as real / average >= 0.0;
  }

  /** What a posting adds to the score of its document. */
  function PostingScore(ln: real -> real, total: nat, df: nat, tf: nat, length: nat, average: real): real
    requires average >= 1.0
  {
    NormPositive(tf, length, average);
    Idf(ln, total, df) * (tf as real * (K1 + 1.0) / Norm(tf, length, average))
  }

  lemma PostingScorePositive(ln: real -> real, total: nat, df: nat, tf: nat, length: nat, average: real)
    requires LogLike(ln) && average >= 1.0 && df <= total && tf > 0
    ensures PostingScore(ln, total, df, tf, length, average) > 0.0
  {
    NormPositive(tf, length, average);
    IdfPositive(ln, total, df);
    ProductPositive(Idf(ln, total, df), tf as real * (K1 + 1.0), Norm(tf, length, average));
  }

  lemma IdfPositive(ln: real -> real, total: nat, df: nat)
    requires LogLike(ln) && df <= total
    ensures Idf(ln, total, df) > 0.0
  {
    assert (total as real - df as real + 0.5) / (df as real + 0.5) > 0.0;
  }

  lemma ProductPositive(a: real, b: real, c: real)
    requires a > 0.0 && b > 0.0 && c > 0.0
    ensures a * (b / c) > 0.0
  {
    assert b / c > 0.0;
  }

  /** The score of a document for one term: nothing when it lacks the term. */
  function TermScore(ln: real -> real, docs: seq<Document>, i: nat, t: string): real
    requires i < |docs|
  {
    var tf := Count(docs[i].tokens, t);
    if tf == 0 then 0.0
    else PostingScore(ln, |docs|, |PostingsOf(docs, t)|, tf, |docs[i].tokens|, Larger(AverageLength(docs), 1.0))
  }

  /** The score for a query is the sum over its terms, repeated ones counted again. */
  function Score(ln: real -> real, docs: seq<Document>, i: nat, terms: seq<string>): real
    requires i < |docs|
  {
    if terms == [] then 0.0
    else Score(ln, docs, i, terms[..|terms| - 1]) + TermScore(ln, docs, i, terms[|terms| - 1])
  }

  /** The document has a query term. */
  predicate Matches(docs: seq<Document>, i: nat, terms: seq<string>)
    requires i < |docs|
  {
    exists k :: 0 <= k < |terms| && terms[k] in docs[i].tokens
  }

  lemma TermScoreSign(ln: real -> real, docs: seq<Document>, i: nat, t: string)
    requires LogLike(ln) && i < |docs|
    ensures t in docs[i].tokens ==> TermScore(ln, docs, i, t) > 0.0
    ensures t !in docs[i].tokens ==> TermScore(ln, docs, i, t) == 0.0
  {
    var tf := Count(docs[i].tokens, t);
    CountPositive(docs[i].tokens, t);
    if tf > 0 {
      PostingScorePositive(ln, |docs|, |PostingsOf(docs, t)|, tf, |docs[i].tokens|, Larger(AverageLength(docs), 1.0));
    }
  }

  /** The documents that score are exactly those with a query term. */
  lemma {:induction false} ScoreSign(ln: real -> real, docs: seq<Document>, i: nat, terms: seq<string>)
    requires LogLike(ln) && i < |docs|
    ensures Score(ln, docs, i, terms) >= 0.0
    ensures Score(ln, docs, i, terms) > 0.0 <==> Matches(docs, i, terms)
  {
    hide TermScore;
    if terms != [] {
      var init, last := terms[..|terms| - 1], terms[|terms| - 1];
      ScoreSign(ln, docs, i, init);
      TermScoreSign(ln, docs, i, last);
      MatchesSnoc(docs, i, init, last);
      assert terms == init + [last];
    }
  }

  lemma MatchesSnoc(docs: seq<Document>, i: nat, init: seq<string>, last: string)
    requires i < |docs|
    ensures Matches(docs, i, init + [last]) <==> Matches(docs, i, init) || last in docs[i].tokens
  {
    var all := init + [last];
    if Matches(docs, i, init) {
      var k :| 0 <= k < |init| && init[k] in docs[i].tokens;
      assert all[k] in docs[i].tokens;
    }
    if last in docs[i].tokens { assert all[|init|] in docs[i].tokens; }
  }

  // ---- Rankings ----------------------------------------------------------

  datatype Hit = Hit(id: FactId.Id, score: real)

  /** Higher scores first, then smaller ids. */
  predicate Before(a: Hit, b: Hit)
  {
    a.score > b.score || (a.score == b.score && a.id < b.id)
  }

  ghost predicate Ranked(rows: seq<Hit>)
  {
    forall i, j :: 0 <= i < j < |rows| ==> Before(rows[i], rows[j])
  }

  /** `rows` is the ranking of a set of hits. */
  ghost predicate Ranks(rows: seq<Hit>, hits: set<Hit>)
  {
    Ranked(rows) && forall h :: h in rows <==> h in hits
  }

  lemma {:induction false} RankingUnique(a: seq<Hit>, b: seq<Hit>, hits: set<Hit>)
    requires Ranks(a, hits) && Ranks(b, hits)
    ensures a == b
    decreases |a|
  {
    if a == [] {
      SomeMember(b);
    } else {
      assert a[0] in hits;
      assert b != [];
      FirstIsBest(a, hits, b[0]);
      FirstIsBest(b, hits, a[0]);
      TailRanks(a, hits);
      TailRanks(b, hits);
      RankingUnique(a[1..], b[1..], hits - {a[0]});
      assert a == [a[0]] + a[1..] && b == [b[0]] + b[1..];
    }
  }

  lemma FirstIsBest(a: seq<Hit>, hits: set<Hit>, h: Hit)
    requires Ranks(a, hits) && a != []
    ensures h in hits ==> h == a[0] || Before(a[0], h)
  {
    if h in hits {
      assert h in a;
      var i :| 0 <= i < |a| && a[i] == h;
    }
  }

  lemma TailRanks(a: seq<Hit>, hits: set<Hit>)
    requires Ranks(a, hits) && a != []
    ensures Ranks(a[1..], hits - {a[0]})
  {
    forall h ensures h in a[1..] <==> h in hits - {a[0]} {
      if h in a[1..] {
        var i :| 1 <= i < |a| && a[i] == h;
        assert Before(a[0], a[i]);
        assert a[i] in hits;
      }
      if h in hits && h != a[0] { assert h in a; }
    }
  }

  /** Put a hit in its place. */
  function Place(rows: seq<Hit>, h: Hit): seq<Hit>
  {
    if rows == [] then [h]
    else if Before(rows[0], h) then [rows[0]] + Place(rows[1..], h)
    else [h] + rows
  }

  lemma {:induction false} PlaceMembers(rows: seq<Hit>, h: Hit)
    ensures forall x :: x in Place(rows, h) <==> x in rows || x == h
  {
    if rows != [] {
      PlaceMembers(rows[1..], h);
      assert rows == [rows[0]] + rows[1..];
    }
  }

  lemma {:induction false} PlaceRanked(rows: seq<Hit>, h: Hit)
    requires Ranked(rows) && forall i :: 0 <= i < |rows| ==> rows[i].id != h.id
    ensures Ranked(Place(rows, h))
  {
    if rows == [] {
    } else if Before(rows[0], h) {
      var rest := rows[1..];
      assert forall i :: 0 <= i < |rest| ==> rest[i] == rows[i + 1];
      PlaceRanked(rest, h);
      PlaceMembers(rest, h);
      var placed := Place(rest, h);
      forall i | 0 <= i < |placed| ensures Before(rows[0], placed[i]) {
        assert placed[i] in rest || placed[i] == h;
      }
    } else {
      assert Before(h, rows[0]);
    }
  }

  lemma PlaceRanks(rows: seq<Hit>, hits: set<Hit>, h: Hit)
    requires Ranks(rows, hits) && forall x :: x in hits ==> x.id != h.id
    ensures Ranks(Place(rows, h), hits + {h})
  {
    PlaceMembers(rows, h);
    forall i | 0 <= i < |rows| ensures rows[i].id != h.id { assert rows[i] in hits; }
    PlaceRanked(rows, h);
  }

  predicate OneHitPerId(hits: set<Hit>)
  {
    forall a, b :: a in hits && b in hits && a.id == b.id ==> a == b
  }

  lemma {:induction false} RankingExists(hits: set<Hit>)
    requires OneHitPerId(hits)
    ensures exists rows :: Ranks(rows, hits)
  {
    if hits == {} {
      assert Ranks([], hits);
    } else {
      var h :| h in hits;
      RankingExists(hits - {h});
      var rows :| Ranks(rows, hits - {h});
      PlaceRanks(rows, hits - {h}, h);
      assert hits - {h} + {h} == hits;
    }
  }

  /** The one ranking of a set of hits with distinct ids. */
  ghost function Ranking(hits: set<Hit>): (rows: seq<Hit>)
    requires OneHitPerId(hits)
    ensures Ranks(rows, hits)
  {
    RankingExists(hits);
    var rows :| Ranks(rows, hits);
    rows
  }

  function Truncated(rows: seq<Hit>, limit: nat): seq<Hit>
  {
    if |rows| <= limit then rows else rows[..limit]
  }

  // ---- What a search should return ---------------------------------------

  predicate DistinctIds(docs: seq<Document>)
  {
    forall i, j :: 0 <= i < j < |docs| ==> docs[i].id != docs[j].id
  }

  /** A document and its score. */
  function HitOf(ln: real -> real, docs: seq<Document>, i: nat, terms: seq<string>): Hit
    requires i < |docs|
  {
    Hit(docs[i].id, Score(ln, docs, i, terms))
  }

  /** The documents with a query term, with their scores. */
  function HitsOf(ln: real -> real, docs: seq<Document>, terms: seq<string>): set<Hit>
  {
    set i | 0 <= i < |docs| && Matches(docs, i, terms) :: HitOf(ln, docs, i, terms)
  }

  lemma HitsDistinct(ln: real -> real, docs: seq<Document>, terms: seq<string>)
    requires DistinctIds(docs)
    ensures OneHitPerId(HitsOf(ln, docs, terms))
  {
    hide Matches, Score;
  }

  ghost function TopMatches(ln: real -> real, docs: seq<Document>, terms: seq<string>, limit: nat): seq<Hit>
    requires DistinctIds(docs)
  {
    HitsDistinct(ln, docs, terms);
    Truncated(Ranking(HitsOf(ln, docs, terms)), limit)
  }

  /** The terms of the documents. */
  function Terms(docs: seq<Document>): set<string>
  {
    set i, k | 0 <= i < |docs| && 0 <= k < |docs[i].tokens| :: docs[i].tokens[k]
  }

  /** The listed terms near a query term that are not yet among those found. */
  ghost function NearAmong(q: string, vocabulary: seq<string>, found: seq<string>): seq<string>
  {
    if vocabulary == [] then found
    else
      var sofar := NearAmong(q, vocabulary[..|vocabulary| - 1], found);
      var v := vocabulary[|vocabulary| - 1];
      if Near(q, v) && v !in sofar then sofar + [v] else sofar
  }

  /** The terms near some query term, each once. */
  ghost function FuzzyTerms(queryTerms: seq<string>, vocabulary: seq<string>): seq<string>
  {
    if queryTerms == [] then []
    else NearAmong(queryTerms[|queryTerms| - 1], vocabulary, FuzzyTerms(queryTerms[..|queryTerms| - 1], vocabulary))
  }

  /** A search: the exact ranking, or when nothing has a query term the ranking of the near terms. */
  ghost function Answer(ln: real -> real, docs: seq<Document>, queryTerms: seq<string>, limit: nat): seq<Hit>
    requires DistinctIds(docs)
  {
    if limit == 0 || queryTerms == [] then []
    else if exists i :: 0 <= i < |docs| && Matches(docs, i, queryTerms) then TopMatches(ln, docs, queryTerms, limit)
    else TopMatches(ln, docs, FuzzyTerms(queryTerms, Listing(Terms(docs))), limit)
  }

  // ---- Properties of searches --------------------------------------------

  lemma {:induction false} NearAmongMembers(q: string, vocabulary: seq<string>, found: seq<string>)
    ensures forall v :: v in NearAmong(q, vocabulary, found) <==> v in found || (v in vocabulary && Near(q, v))
    ensures Distinct(found) ==> Distinct(NearAmong(q, vocabulary, found))
  {
    hide Near;
    if vocabulary != [] {
      var init, last := vocabulary[..|vocabulary| - 1], vocabulary[|vocabulary| - 1];
      NearAmongMembers(q, init, found);
      assert vocabulary == init + [last];
    }
  }

  predicate Distinct(ts: seq<string>)
  {
    forall i, j :: 0 <= i < j < |ts| ==> ts[i] != ts[j]
  }

  ghost predicate NearSome(queryTerms: seq<string>, v: string)
  {
    exists k :: 0 <= k < |queryTerms| && Near(queryTerms[k], v)
  }

  /** The fuzzy terms are the listed terms one edit away from some query term, each once. */
  lemma {:induction false} FuzzyTermsExact(queryTerms: seq<string>, vocabulary: seq<string>)
    ensures forall v :: v in FuzzyTerms(queryTerms, vocabulary) <==> v in vocabulary && NearSome(queryTerms, v)
    ensures Distinct(FuzzyTerms(queryTerms, vocabulary))
  {
    hide Near;
    if queryTerms != [] {
      var init, last := queryTerms[..|queryTerms| - 1], queryTerms[|queryTerms| - 1];
      FuzzyTermsExact(init, vocabulary);
      NearAmongMembers(last, vocabulary, FuzzyTerms(init, vocabulary));
      forall v ensures v in FuzzyTerms(queryTerms, vocabulary)
        <==> v in vocabulary && NearSome(queryTerms, v) {
        if v in FuzzyTerms(init, vocabulary) {
          var k :| 0 <= k < |init| && Near(init[k], v);
          assert Near(queryTerms[k], v);
        }
        if Near(last, v) { assert Near(queryTerms[|queryTerms| - 1], v); }
        if k :| 0 <= k < |queryTerms| && Near(queryTerms[k], v) {
          assert k < |init| ==> init[k] == queryTerms[k];
        }
      }
    }
  }

  /** A search for fewer rows returns the beginning of a search for more. */
  lemma SearchIsPrefix(ln: real -> real, docs: seq<Document>, queryTerms: seq<string>, n: nat, m: nat)
    requires DistinctIds(docs) && 0 < n <= m
    ensures Answer(ln, docs, queryTerms, n) == Truncated(Answer(ln, docs, queryTerms, m), n)
  {
    hide Matches, Score, FuzzyTerms, DistinctIds;
  }

  lemma {:induction false} RankedCount(rows: seq<Hit>, hits: set<Hit>)
    requires Ranks(rows, hits)
    ensures |rows| == |hits|
    decreases |rows|
  {
    if rows == [] {
      assert hits == {};
    } else {
      TailRanks(rows, hits);
      assert rows[0] in hits;
      RankedCount(rows[1..], hits - {rows[0]});
    }
  }

  /**
   What a term search returns: ranked by score and then by id, each row a document with a query
   term and its score, as many as there are up to the limit, and nothing left out that comes
   before what was kept.
   */
  lemma SearchTermsExact(ln: real -> real, docs: seq<Document>, terms: seq<string>, limit: nat)
    requires DistinctIds(docs)
    ensures var rows := TopMatches(ln, docs, terms, limit); var hits := HitsOf(ln, docs, terms);
      Ranked(rows) && (forall h :: h in rows ==> h in hits)
      && |rows| == (if |hits| < limit then |hits| else limit)
      && (forall h, row :: h in hits && h !in rows && row in rows ==> Before(row, h))
  {
    HitsDistinct(ln, docs, terms);
    var hits := HitsOf(ln, docs, terms);
    var all := Ranking(hits);
    RankedCount(all, hits);
    hide HitsOf, Before, Ranking;
    var rows := Truncated(all, limit);
    forall h, row | h in hits && h !in rows && row in rows ensures Before(row, h) {
      var i :| 0 <= i < |rows| && rows[i] == row;
      assert h in all;
      var j :| 0 <= j < |all| && all[j] == h;
      assert j >= |rows|;
    }
    forall h | h in rows ensures h in hits {
      var i :| 0 <= i < |rows| && rows[i] == h;
      assert all[i] == h;
    }
  }

  /** The rows of a search are documents, each at most once. */
  lemma AnswerRows(ln: real -> real, docs: seq<Document>, queryTerms: seq<string>, limit: nat)
    requires DistinctIds(docs)
    ensures var rows := Answer(ln, docs, queryTerms, limit);
      (forall j :: 0 <= j < |rows| ==> rows[j].id in DocumentIds(docs))
      && (forall j, k :: 0 <= j < k < |rows| ==> rows[j].id != rows[k].id)
  {
    var rows := Answer(ln, docs, queryTerms, limit);
    if rows != [] {
      var fuzzy := FuzzyTerms(queryTerms, Listing(Terms(docs)));
      var terms := if exists i :: 0 <= i < |docs| && Matches(docs, i, queryTerms) then queryTerms else fuzzy;
      SearchTermsExact(ln, docs, terms, limit);
      HitsDistinct(ln, docs, terms);
      hide DistinctIds, TopMatches, Matches, Score, FuzzyTerms, Listing, Terms;
      assert rows == TopMatches(ln, docs, terms, limit);
      hide Answer;
      forall j | 0 <= j < |rows| ensures rows[j] in HitsOf(ln, docs, terms) && rows[j].id in DocumentIds(docs) {
        assert rows[j] in rows;
      }
      forall j, k | 0 <= j < k < |rows| ensures rows[j].id != rows[k].id {
        assert Before(rows[j], rows[k]);
      }
    }
  }

  function DocumentIds(docs: seq<Document>): set<FactId.Id>
  {
    set i | 0 <= i < |docs| :: docs[i].id
  }

  /** The document has a token that the fuzzy search takes for a query term. */
  ghost predicate MatchesNearly(docs: seq<Document>, i: nat, queryTerms: seq<string>)
    requires i < |docs|
  {
    exists k :: 0 <= k < |docs[i].tokens| && NearSome(queryTerms, docs[i].tokens[k])
  }

  ghost predicate Found(rows: seq<Hit>, id: FactId.Id)
  {
    exists x :: 0 <= x < |rows| && rows[x].id == id
  }

  ghost predicate SomeMatch(docs: seq<Document>, queryTerms: seq<string>)
  {
    exists i :: 0 <= i < |docs| && Matches(docs, i, queryTerms)
  }

  lemma FuzzyMatches(docs: seq<Document>, i: nat, queryTerms: seq<string>)
    requires i < |docs|
    ensures Matches(docs, i, FuzzyTerms(queryTerms, Listing(Terms(docs)))) <==> MatchesNearly(docs, i, queryTerms)
  {
    var vocabulary := Listing(Terms(docs));
    FuzzyTermsExact(queryTerms, vocabulary);
    hide FuzzyTerms, NearSome, Listing;
    var fuzzy, tokens := FuzzyTerms(queryTerms, vocabulary), docs[i].tokens;
    if k :| 0 <= k < |fuzzy| && fuzzy[k] in tokens {
      assert fuzzy[k] in fuzzy;
      var m :| 0 <= m < |tokens| && tokens[m] == fuzzy[k];
    }
    if m :| 0 <= m < |tokens| && NearSome(queryTerms, tokens[m]) {
      assert tokens[m] in Terms(docs);
      assert tokens[m] in fuzzy;
      var k :| 0 <= k < |fuzzy| && fuzzy[k] == tokens[m];
      assert fuzzy[k] in tokens;
    }
  }

  lemma TopFinds(ln: real -> real, docs: seq<Document>, terms: seq<string>, limit: nat, i: nat)
    requires DistinctIds(docs) && i < |docs|
    ensures var rows := TopMatches(ln, docs, terms, limit);
      (Found(rows, docs[i].id) ==> Matches(docs, i, terms)) && (Matches(docs, i, terms) && |rows| < limit ==> Found(rows, docs[i].id))
  {
    SearchTermsExact(ln, docs, terms, limit);
    HitsDistinct(ln, docs, terms);
    var rows := TopMatches(ln, docs, terms, limit);
    if Found(rows, docs[i].id) {
      var x :| 0 <= x < |rows| && rows[x].id == docs[i].id;
      hide TopMatches, Score, Matches;
      assert rows[x] in rows;
      var j :| 0 <= j < |docs| && Matches(docs, j, terms) && rows[x] == HitOf(ln, docs, j, terms);
      assert i == j;
    }
    if Matches(docs, i, terms) && |rows| < limit {
      hide Score, Matches;
      RankedCount(Ranking(HitsOf(ln, docs, terms)), HitsOf(ln, docs, terms));
      assert rows == Ranking(HitsOf(ln, docs, terms));
      assert HitOf(ln, docs, i, terms) in HitsOf(ln, docs, terms);
      assert HitOf(ln, docs, i, terms) in rows;
      var x :| 0 <= x < |rows| && rows[x] == HitOf(ln, docs, i, terms);
    }
  }

  /**
   Which documents a search finds: those with a query term if there are any, else those with a
   term one edit away from one; all of them when they are fewer than the limit.
   */
  lemma AnswerFinds(ln: real -> real, docs: seq<Document>, queryTerms: seq<string>, limit: nat, i: nat)
    requires DistinctIds(docs) && i < |docs| && limit > 0 && queryTerms != []
    ensures var rows := Answer(ln, docs, queryTerms, limit);
      var wanted := if SomeMatch(docs, queryTerms) then Matches(docs, i, queryTerms) else MatchesNearly(docs, i, queryTerms);
      (Found(rows, docs[i].id) ==> wanted) && (wanted && |rows| < limit ==> Found(rows, docs[i].id))
  {
    FuzzyMatches(docs, i, queryTerms);
    var fuzzy := FuzzyTerms(queryTerms, Listing(Terms(docs)));
    hide DistinctIds, TopMatches, Matches, FuzzyTerms, Listing, Terms, Found, MatchesNearly;
    if SomeMatch(docs, queryTerms) {
      TopFinds(ln, docs, queryTerms, limit, i);
    } else {
      TopFinds(ln, docs, fuzzy, limit, i);
    }
  }

  // ---- What is counted ---------------------------------------------------

  /** Where a term stands in a document. */
  function Places(tokens: seq<string>, t: string): set<nat>
  {
    set k: nat | k < |tokens| && tokens[k] == t
  }

  lemma {:induction false} CountIsPlaces(tokens: seq<string>, t: string)
    ensures Count(tokens, t) == |Places(tokens, t)|
  {
    if tokens == [] {
      assert Places(tokens, t) == {};
    } else {
      var n := |tokens| - 1;
      CountIsPlaces(tokens[..n], t);
      var before := Places(tokens[..n], t);
      forall k: nat ensures k in Places(tokens, t) <==> k in before || (k == n && tokens[n] == t) {
        if k < n { assert tokens[..n][k] == tokens[k]; }
      }
      assert Places(tokens, t) == before + (if tokens[n] == t then {n} else {});
    }
  }

  /** All tokens, one document after the other. */
  function AllTokens(docs: seq<Document>): seq<string>
  {
    if docs == [] then [] else docs[0].tokens + AllTokens(docs[1..])
  }

  /** The average length is that of the documents' tokens, and one when there is no document. */
  lemma AverageIsMean(docs: seq<Document>)
    ensures docs != [] ==> AverageLength(docs) * |docs| as real == |AllTokens(docs)| as real
    ensures docs == [] ==> AverageLength(docs) == 1.0
  {
    TotalIsAll(docs);
    hide TotalLength, AllTokens;
    if docs != [] { Quotient(TotalLength(docs) as real, |docs| as real); }
  }

  lemma Quotient(x: real, y: real)
    requires y > 0.0
    ensures x / y * y == x
  {
  }

  lemma {:induction false} TotalIsAll(docs: seq<Document>)
    ensures TotalLength(docs) == |AllTokens(docs)|
  {
    if docs != [] {
      var n := |docs| - 1;
      TotalIsAll(docs[..n]);
      assert docs == docs[..n] + [docs[n]];
      TokensConcat(docs[..n], [docs[n]]);
      assert [docs[n]][1..] == [];
    }
  }

  lemma {:induction false} TokensConcat(a: seq<Document>, b: seq<Document>)
    ensures |AllTokens(a + b)| == |AllTokens(a)| + |AllTokens(b)|
  {
    if a == [] {
      assert a + b == b;
    } else {
      assert (a + b)[1..] == a[1..] + b;
      TokensConcat(a[1..], b);
    }
  }

  /** The score for two queries together is the sum of their scores, whatever terms they share. */
  lemma {:induction false} ScoresAdd(ln: real -> real, docs: seq<Document>, i: nat, a: seq<string>, b: seq<string>)
    requires i < |docs|
    ensures Score(ln, docs, i, a + b) == Score(ln, docs, i, a) + Score(ln, docs, i, b)
    decreases |b|
  {
    hide TermScore;
    if b == [] {
      assert a + b == a;
    } else {
      var n := |b| - 1;
      ScoresAdd(ln, docs, i, a, b[..n]);
      assert (a + b)[..|a + b| - 1] == a + b[..n];
    }
  }

  // ---- What ranks higher -------------------------------------------------

  /** A logarithm is also strictly increasing above one. */
  ghost predicate Rising(ln: real -> real)
  {
    forall x, y :: 1.0 < x < y ==> ln(x) < ln(y)
  }

  /** In which documents a term occurs. */
  function Having(docs: seq<Document>, t: string): set<nat>
  {
    set i: nat | i < |docs| && t in docs[i].tokens
  }

  lemma {:induction false} PostingsCount(docs: seq<Document>, t: string)
    ensures |PostingsOf(docs, t)| == |Having(docs, t)|
  {
    if docs == [] {
      assert Having(docs, t) == {};
    } else {
      var n := |docs| - 1;
      PostingsCount(docs[..n], t);
      CountPositive(docs[n].tokens, t);
      HavingSnoc(docs, t);
      hide Count, Having;
    }
  }

  lemma HavingSnoc(docs: seq<Document>, t: string)
    requires docs != []
    ensures var n := |docs| - 1; |Having(docs, t)| == |Having(docs[..n], t)| + (if t in docs[n].tokens then 1 else 0)
  {
    var n := |docs| - 1;
    var before := Having(docs[..n], t);
    forall i: nat ensures i in Having(docs, t) <==> i in before || (i == n && t in docs[n].tokens) {
      if i < n { assert docs[..n][i] == docs[i]; }
    }
    assert Having(docs, t) == before + (if t in docs[n].tokens then {n} else {});
  }

  /** The length part of a posting's weight, against documents of average length. */
  function LengthWeight(docs: seq<Document>, i: nat): real
    requires i < |docs|
  {
    1.2 * (0.25 + 0.75 * (|docs[i].tokens| as real / (if AverageLength(docs) < 1.0 then 1.0 else AverageLength(docs))))
  }

  lemma LengthWeightPositive(docs: seq<Document>, i: nat)
    requires i < |docs|
    ensures LengthWeight(docs, i) > 0.0
  {
    hide AverageLength;
    assert |docs[i].tokens| as real / (if AverageLength(docs) < 1.0 then 1.0 else AverageLength(docs)) >= 0.0;
  }

  lemma SameWeight(docs: seq<Document>, i: nat, j: nat)
    requires i < |docs| && j < |docs| && |docs[i].tokens| == |docs[j].tokens|
    ensures LengthWeight(docs, i) == LengthWeight(docs, j)
  {
  }

  /** How much rarer a term is makes its weight. */
  function Rarity(docs: seq<Document>, t: string): (x: real)
    ensures x > 1.0
  {
    HavingWithin(docs, t);
    var df := |Having(docs, t)| as real;
    assert (|docs| as real - df + 0.5) / (df + 0.5) > 0.0;
    1.0 + (|docs| as real - df + 0.5) / (df + 0.5)
  }

  lemma HavingWithin(docs: seq<Document>, t: string)
    ensures |Having(docs, t)| <= |docs|
  {
    PostingsCount(docs, t);
    hide PostingsOf, Having;
  }

  /** `x` is `k n / (n + w)`. */
  predicate Share(x: real, k: real, n: real, w: real)
  {
    x * (n + w) == k * n
  }

  /** BM25 with `k1 = 1.2` and `b = 0.75`, for one term. */
  lemma OneTermScore(ln: real -> real, docs: seq<Document>, i: nat, t: string)
    requires i < |docs| && t in docs[i].tokens
    ensures Count(docs[i].tokens, t) as real > 0.0 && LengthWeight(docs, i) > 0.0
    ensures Share(Score(ln, docs, i, [t]), ln(Rarity(docs, t)) * 2.2, Count(docs[i].tokens, t) as real, LengthWeight(docs, i))
  {
    CountPositive(docs[i].tokens, t);
    hide *;
    LengthWeightPositive(docs, i);
    OneTerm(ln, docs, i, t);
    TermWeight(ln, docs, i, t);
    WeightedShares(ln(Rarity(docs, t)), Count(docs[i].tokens, t) as real, LengthWeight(docs, i));
  }

  function Weighted(k: real, n: real, w: real): real
    requires n + w > 0.0
  {
    k * (n * 2.2 / (n + w))
  }

  lemma WeightedShares(k: real, n: real, w: real)
    requires n + w > 0.0
    ensures Share(Weighted(k, n, w), k * 2.2, n, w)
  {
    Cancel(k, n * 2.2, n + w);
    Regrouped(k, n);
  }

  lemma TermWeight(ln: real -> real, docs: seq<Document>, i: nat, t: string)
    requires i < |docs| && Count(docs[i].tokens, t) > 0
    ensures var n := Count(docs[i].tokens, t) as real;
      n + LengthWeight(docs, i) > 0.0 && TermScore(ln, docs, i, t) == Weighted(ln(Rarity(docs, t)), n, LengthWeight(docs, i))
  {
    LengthWeightPositive(docs, i);
    PostingsCount(docs, t);
    hide Count, PostingsOf, Having, AverageLength;
    assert Idf(ln, |docs|, |PostingsOf(docs, t)|) == ln(Rarity(docs, t));
    assert Norm(Count(docs[i].tokens, t), |docs[i].tokens|, Larger(AverageLength(docs), 1.0))
      == Count(docs[i].tokens, t) as real + LengthWeight(docs, i);
    hide Idf, Norm, Rarity, LengthWeight;
  }

  lemma OneTerm(ln: real -> real, docs: seq<Document>, i: nat, t: string)
    requires i < |docs|
    ensures Score(ln, docs, i, [t]) == TermScore(ln, docs, i, t)
  {
    hide TermScore;
    assert [t][..0] == [];
    assert Score(ln, docs, i, []) == 0.0;
  }

  lemma Cancel(a: real, b: real, c: real)
    requires c > 0.0
    ensures a * (b / c) * c == a * b
  {
    var q := b / c;
    assert q * c == b;
    assert a * q * c == a * (q * c);
  }

  lemma Regrouped(k: real, n: real)
    ensures k * (n * 2.2) == k * 2.2 * n
  {
  }

  lemma Scale(k: real, x: real, y: real)
    requires k > 0.0
    ensures x > y <==> k * x > k * y
  {
  }

  /** A larger share scores more. */
  lemma ShareCompares(k: real, x: real, m: real, v: real, y: real, n: real, w: real)
    requires k > 0.0 && m > 0.0 && n > 0.0 && v > 0.0 && w > 0.0
    requires Share(x, k, m, v) && Share(y, k, n, w) && m * w > n * v
    ensures x > y
  {
    var a, b := m + v, n + w;
    assert m * b > n * a;
    Scale(k, m * b, n * a);
    Swapped(x, a, b, k, m);
    Swapped(y, b, a, k, n);
    Positive(a, b);
    Scale(a * b, x, y);
  }

  lemma MoreShares(k: real, x: real, m: real, y: real, n: real, w: real)
    requires k > 0.0 && m > n > 0.0 && w > 0.0 && Share(x, k, m, w) && Share(y, k, n, w)
    ensures x > y
  {
    Scale(w, m, n);
    Positive(m, w);
    Positive(n, w);
    ShareCompares(k, x, m, w, y, n, w);
  }

  lemma LighterShares(k: real, x: real, v: real, y: real, w: real, n: real)
    requires k > 0.0 && n > 0.0 && 0.0 < v < w && Share(x, k, n, v) && Share(y, k, n, w)
    ensures x > y
  {
    Scale(n, w, v);
    ShareCompares(k, x, n, v, y, n, w);
  }

  lemma RarerShares(k: real, x: real, l: real, y: real, n: real, w: real)
    requires k > l && n > 0.0 && w > 0.0 && Share(x, k, n, w) && Share(y, l, n, w)
    ensures x > y
  {
    Scale(n, k, l);
    assert n * k == k * n && n * l == l * n;
    OrderOfQuotients(x, k * n, y, l * n, n + w);
  }

  lemma OrderOfQuotients(x: real, p: real, y: real, q: real, a: real)
    requires a > 0.0 && x * a == p && y * a == q && p > q
    ensures x > y
  {
    Scale(a, x, y);
  }

  /** From `x a = k m`: the same times `b`. */
  lemma Swapped(x: real, a: real, b: real, k: real, m: real)
    requires x * a == k * m
    ensures a * b * x == k * (m * b) && b * a * x == k * (m * b)
  {
    assert a * b * x == x * a * b;
    assert k * (m * b) == k * m * b;
  }

  lemma Positive(a: real, b: real)
    requires a > 0.0 && b > 0.0
    ensures a * b > 0.0 && a * b == b * a
  {
  }

  /** Among documents of one length, the one with more occurrences of the term scores higher. */
  lemma MoreScoresHigher(ln: real -> real, docs: seq<Document>, i: nat, j: nat, t: string)
    requires LogLike(ln) && i < |docs| && j < |docs| && |docs[i].tokens| == |docs[j].tokens|
    requires Count(docs[i].tokens, t) > Count(docs[j].tokens, t) > 0
    ensures Score(ln, docs, i, [t]) > Score(ln, docs, j, [t])
  {
    assert ln(Rarity(docs, t)) > 0.0;
    hide *;
    CountPositive(docs[i].tokens, t);
    CountPositive(docs[j].tokens, t);
    SameWeight(docs, i, j);
    OneTermScore(ln, docs, i, t);
    OneTermScore(ln, docs, j, t);
    MoreShares(ln(Rarity(docs, t)) * 2.2, Score(ln, docs, i, [t]), Count(docs[i].tokens, t) as real,
               Score(ln, docs, j, [t]), Count(docs[j].tokens, t) as real, LengthWeight(docs, i));
  }

  /** With equal counts the shorter document scores higher. */
  lemma ShorterScoresHigher(ln: real -> real, docs: seq<Document>, i: nat, j: nat, t: string)
    requires LogLike(ln) && i < |docs| && j < |docs| && |docs[i].tokens| < |docs[j].tokens|
    requires Count(docs[i].tokens, t) == Count(docs[j].tokens, t) > 0
    ensures Score(ln, docs, i, [t]) > Score(ln, docs, j, [t])
  {
    assert ln(Rarity(docs, t)) > 0.0;
    hide *;
    CountPositive(docs[i].tokens, t);
    CountPositive(docs[j].tokens, t);
    OneTermScore(ln, docs, i, t);
    OneTermScore(ln, docs, j, t);
    LighterIsShorter(docs, i, j);
    LighterShares(ln(Rarity(docs, t)) * 2.2, Score(ln, docs, i, [t]), LengthWeight(docs, i),
                  Score(ln, docs, j, [t]), LengthWeight(docs, j), Count(docs[i].tokens, t) as real);
  }

  lemma LighterIsShorter(docs: seq<Document>, i: nat, j: nat)
    requires i < |docs| && j < |docs| && |docs[i].tokens| < |docs[j].tokens|
    ensures LengthWeight(docs, i) < LengthWeight(docs, j)
  {
    var average := if AverageLength(docs) < 1.0 then 1.0 else AverageLength(docs);
    hide AverageLength;
    Divided(|docs[i].tokens| as real, |docs[j].tokens| as real, average);
  }

  lemma Divided(x: real, y: real, z: real)
    requires x < y && z > 0.0
    ensures x / z < y / z
  {
    assert z * (x / z) == x && z * (y / z) == y;
    Scale(z, y / z, x / z);
  }

  /** With equal counts in documents of one length the document with the rarer term scores higher. */
  lemma RarerScoresHigher(ln: real -> real, docs: seq<Document>, i: nat, j: nat, s: string, t: string)
    requires Rising(ln) && i < |docs| && j < |docs| && |docs[i].tokens| == |docs[j].tokens|
    requires Count(docs[i].tokens, s) == Count(docs[j].tokens, t) > 0 && |Having(docs, s)| < |Having(docs, t)|
    ensures Score(ln, docs, i, [s]) > Score(ln, docs, j, [t])
  {
    hide *;
    CountPositive(docs[i].tokens, s);
    CountPositive(docs[j].tokens, t);
    SameWeight(docs, i, j);
    RarerWeighs(ln, docs, s, t);
    OneTermScore(ln, docs, i, s);
    OneTermScore(ln, docs, j, t);
    RarerShares(ln(Rarity(docs, s)) * 2.2, Score(ln, docs, i, [s]), ln(Rarity(docs, t)) * 2.2, Score(ln, docs, j, [t]),
                Count(docs[i].tokens, s) as real, LengthWeight(docs, i));
  }

  lemma RarerWeighs(ln: real -> real, docs: seq<Document>, s: string, t: string)
    requires Rising(ln) && |Having(docs, s)| < |Having(docs, t)|
    ensures ln(Rarity(docs, s)) > ln(Rarity(docs, t))
  {
    hide Having, Rarity;
    RarerIsRarer(docs, s, t);
  }

  lemma RarerIsRarer(docs: seq<Document>, s: string, t: string)
    requires |Having(docs, s)| < |Having(docs, t)|
    ensures Rarity(docs, s) > Rarity(docs, t)
  {
    HavingWithin(docs, t);
    var total, a, b := |docs| as real, |Having(docs, s)| as real, |Having(docs, t)| as real;
    hide Having;
    Divided(total - b + 0.5, total - a + 0.5, a + 0.5);
    Smaller(total - b + 0.5, a + 0.5, b + 0.5);
  }

  lemma Smaller(x: real, y: real, z: real)
    requires x > 0.0 && 0.0 < y < z
    ensures x / z < x / y
  {
    var q := x / z;
    assert z * q == x && q > 0.0 && y * (x / y) == x;
    Scale(q, z, y);
    Scale(y, x / y, q);
  }

  /** Where the one document is found the other is, before it. */
  ghost predicate ComesFirst(rows: seq<Hit>, a: FactId.Id, b: FactId.Id)
  {
    forall y :: 0 <= y < |rows| && rows[y].id == b ==> Found(rows[..y], a)
  }

  /** The document that scores higher comes first. */
  lemma HigherComesFirst(ln: real -> real, docs: seq<Document>, terms: seq<string>, limit: nat, i: nat, j: nat)
    requires LogLike(ln) && DistinctIds(docs) && limit > 0 && i < |docs| && j < |docs|
    requires Score(ln, docs, i, terms) > Score(ln, docs, j, terms)
    ensures ComesFirst(Answer(ln, docs, terms, limit), docs[i].id, docs[j].id)
  {
    ScoreSign(ln, docs, i, terms);
    ScoreSign(ln, docs, j, terms);
    AnswerIsTop(ln, docs, terms, limit, i);
    SearchTermsExact(ln, docs, terms, limit);
    hide Answer, TopMatches, Score, Matches, DistinctIds, LogLike, Found, ComesFirst;
    var rows, h := TopMatches(ln, docs, terms, limit), HitOf(ln, docs, i, terms);
    assert h in HitsOf(ln, docs, terms);
    RankedFirst(ln, docs, terms, rows, h, j);
  }

  /** Of documents that score the same, the one of the smaller id comes first. */
  lemma EqualByIdFirst(ln: real -> real, docs: seq<Document>, terms: seq<string>, limit: nat, i: nat, j: nat)
    requires LogLike(ln) && DistinctIds(docs) && limit > 0 && i < |docs| && j < |docs|
    requires Score(ln, docs, i, terms) == Score(ln, docs, j, terms) > 0.0 && docs[i].id < docs[j].id
    ensures ComesFirst(Answer(ln, docs, terms, limit), docs[i].id, docs[j].id)
  {
    ScoreSign(ln, docs, i, terms);
    AnswerIsTop(ln, docs, terms, limit, i);
    SearchTermsExact(ln, docs, terms, limit);
    hide Answer, TopMatches, Score, Matches, DistinctIds, LogLike, Found, ComesFirst;
    var rows, h := TopMatches(ln, docs, terms, limit), HitOf(ln, docs, i, terms);
    assert h in HitsOf(ln, docs, terms);
    RankedFirst(ln, docs, terms, rows, h, j);
  }

  lemma AnswerIsTop(ln: real -> real, docs: seq<Document>, terms: seq<string>, limit: nat, i: nat)
    requires DistinctIds(docs) && limit > 0 && i < |docs| && Matches(docs, i, terms)
    ensures Answer(ln, docs, terms, limit) == TopMatches(ln, docs, terms, limit)
  {
    assert terms != [];
    hide TopMatches, DistinctIds;
  }

  lemma RankedFirst(ln: real -> real, docs: seq<Document>, terms: seq<string>, rows: seq<Hit>, h: Hit, j: nat)
    requires DistinctIds(docs) && j < |docs| && Ranked(rows) && h in HitsOf(ln, docs, terms)
    requires forall x :: x in rows ==> x in HitsOf(ln, docs, terms)
    requires forall x, row :: x in HitsOf(ln, docs, terms) && x !in rows && row in rows ==> Before(row, x)
    requires h.score > Score(ln, docs, j, terms) || (h.score == Score(ln, docs, j, terms) && h.id < docs[j].id)
    ensures ComesFirst(rows, h.id, docs[j].id)
  {
    forall y | 0 <= y < |rows| && rows[y].id == docs[j].id ensures Found(rows[..y], h.id) {
      RowOfDocument(ln, docs, terms, rows[y], j);
      hide HitsOf, Score;
      assert rows[y] in rows && !Before(rows[y], h);
      var x :| 0 <= x < |rows| && rows[x] == h;
      assert x < y;
      assert rows[..y][x].id == h.id;
    }
  }

  lemma RowOfDocument(ln: real -> real, docs: seq<Document>, terms: seq<string>, row: Hit, j: nat)
    requires DistinctIds(docs) && j < |docs| && row in HitsOf(ln, docs, terms) && row.id == docs[j].id
    ensures row.score == Score(ln, docs, j, terms)
  {
    hide Score, Matches;
    var i :| 0 <= i < |docs| && Matches(docs, i, terms) && row == HitOf(ln, docs, i, terms);
    assert i == j;
  }

  /** For one term, among documents of one length, more occurrences come first. */
  lemma MoreOccurrencesFirst(ln: real -> real, docs: seq<Document>, t: string, limit: nat, i: nat, j: nat)
    requires LogLike(ln) && DistinctIds(docs) && limit > 0 && i < |docs| && j < |docs|
    requires |docs[i].tokens| == |docs[j].tokens| && Count(docs[i].tokens, t) > Count(docs[j].tokens, t)
    ensures ComesFirst(Answer(ln, docs, [t], limit), docs[i].id, docs[j].id)
  {
    hide Answer, Score, LogLike, DistinctIds, ComesFirst;
    if Count(docs[j].tokens, t) > 0 { MoreScoresHigher(ln, docs, i, j, t); } else { SomeScoresHigher(ln, docs, i, j, t); }
    HigherComesFirst(ln, docs, [t], limit, i, j);
  }

  lemma SomeScoresHigher(ln: real -> real, docs: seq<Document>, i: nat, j: nat, t: string)
    requires LogLike(ln) && i < |docs| && j < |docs| && Count(docs[i].tokens, t) > 0 && Count(docs[j].tokens, t) == 0
    ensures Score(ln, docs, i, [t]) > Score(ln, docs, j, [t])
  {
    CountPositive(docs[i].tokens, t);
    CountPositive(docs[j].tokens, t);
    hide Count, Score, TermScore, LogLike;
    OneTerm(ln, docs, i, t);
    OneTerm(ln, docs, j, t);
    TermScoreSign(ln, docs, i, t);
    TermScoreSign(ln, docs, j, t);
  }

  /** With as many occurrences in as many tokens, the smaller id comes first. */
  lemma EvenByIdFirst(ln: real -> real, docs: seq<Document>, t: string, limit: nat, i: nat, j: nat)
    requires LogLike(ln) && DistinctIds(docs) && limit > 0 && i < |docs| && j < |docs|
    requires |docs[i].tokens| == |docs[j].tokens| && Count(docs[i].tokens, t) == Count(docs[j].tokens, t) > 0
    requires docs[i].id < docs[j].id
    ensures ComesFirst(Answer(ln, docs, [t], limit), docs[i].id, docs[j].id)
  {
    hide Answer, LogLike, DistinctIds, ComesFirst, Count, Score, TermScore;
    CountPositive(docs[i].tokens, t);
    OneTerm(ln, docs, i, t);
    OneTerm(ln, docs, j, t);
    TermScoreSign(ln, docs, i, t);
    SameTermScore(ln, docs, i, j, t);
    EqualByIdFirst(ln, docs, [t], limit, i, j);
  }

  lemma SameTermScore(ln: real -> real, docs: seq<Document>, i: nat, j: nat, t: string)
    requires i < |docs| && j < |docs| && |docs[i].tokens| == |docs[j].tokens| && Count(docs[i].tokens, t) == Count(docs[j].tokens, t)
    ensures TermScore(ln, docs, i, t) == TermScore(ln, docs, j, t)
  {
  }

  /** With as many occurrences, the shorter document comes first. */
  lemma ShorterFirst(ln: real -> real, docs: seq<Document>, t: string, limit: nat, i: nat, j: nat)
    requires LogLike(ln) && DistinctIds(docs) && limit > 0 && i < |docs| && j < |docs|
    requires |docs[i].tokens| < |docs[j].tokens| && Count(docs[i].tokens, t) == Count(docs[j].tokens, t) > 0
    ensures ComesFirst(Answer(ln, docs, [t], limit), docs[i].id, docs[j].id)
  {
    hide *;
    ShorterScoresHigher(ln, docs, i, j, t);
    HigherComesFirst(ln, docs, [t], limit, i, j);
  }

  /** Of two terms with as many occurrences in documents of one length, the rarer one's document comes first. */
  lemma RarerFirst(ln: real -> real, docs: seq<Document>, s: string, t: string, limit: nat, i: nat, j: nat)
    requires LogLike(ln) && Rising(ln) && DistinctIds(docs) && limit > 0 && i < |docs| && j < |docs|
    requires |docs[i].tokens| == |docs[j].tokens| && Count(docs[i].tokens, s) == Count(docs[j].tokens, t) > 0
    requires t !in docs[i].tokens && s !in docs[j].tokens && |Having(docs, s)| < |Having(docs, t)|
    ensures ComesFirst(Answer(ln, docs, [s, t], limit), docs[i].id, docs[j].id)
  {
    hide *;
    RarerScoresHigher(ln, docs, i, j, s, t);
    TwoTerms(ln, docs, i, s, t);
    TwoTerms(ln, docs, j, s, t);
    HigherComesFirst(ln, docs, [s, t], limit, i, j);
  }

  lemma TwoTerms(ln: real -> real, docs: seq<Document>, i: nat, s: string, t: string)
    requires LogLike(ln) && i < |docs|
    ensures t !in docs[i].tokens ==> Score(ln, docs, i, [s, t]) == Score(ln, docs, i, [s])
    ensures s !in docs[i].tokens ==> Score(ln, docs, i, [s, t]) == Score(ln, docs, i, [t])
  {
    hide TermScore, LogLike;
    OneTerm(ln, docs, i, s);
    OneTerm(ln, docs, i, t);
    TermScoreSign(ln, docs, i, s);
    TermScoreSign(ln, docs, i, t);
    assert [s, t][..1] == [s];
  }

  // ---- The index as the program builds it --------------------------------

  datatype IndexedDocument = IndexedDocument(id: FactId.Id, length: nat)

  lemma CountSnoc(tokens: seq<string>, i: nat, t: string)
    requires i < |tokens|
    ensures Count(tokens[..i + 1], t) == Count(tokens[..i], t) + (if tokens[i] == t then 1 else 0)
  {
    assert tokens[..i + 1][..i] == tokens[..i];
  }

  lemma PostingsSnoc(docs: seq<Document>, i: nat, t: string)
    requires i < |docs|
    ensures var tf := Count(docs[i].tokens, t);
      PostingsOf(docs[..i + 1], t) == PostingsOf(docs[..i], t) + (if tf > 0 then [Posting(i, tf)] else [])
  {
    assert docs[..i + 1][..i] == docs[..i];
  }

  lemma TotalSnoc(docs: seq<Document>, i: nat)
    requires i < |docs|
    ensures TotalLength(docs[..i + 1]) == TotalLength(docs[..i]) + |docs[i].tokens|
  {
    assert docs[..i + 1][..i] == docs[..i];
  }

  /** A table has the postings of some documents: an entry for each term that has any. */
  ghost predicate HoldsPostings(postings: map<string, seq<Posting>>, docs: seq<Document>)
  {
    (forall t :: t in postings ==> postings[t] != [] && postings[t] == PostingsOf(docs, t))
    && (forall t :: t !in postings ==> PostingsOf(docs, t) == [])
  }

  ghost predicate HoldsFrequencies(docFreqs: map<string, nat>, postings: map<string, seq<Posting>>)
  {
    docFreqs.Keys == postings.Keys && forall t :: t in docFreqs ==> docFreqs[t] == |postings[t]|
  }

  /** How often each token of a document occurs. */
  method TermFrequencies(tokens: seq<string>) returns (freqs: map<string, nat>)
    ensures forall t :: t in freqs <==> Count(tokens, t) > 0
    ensures forall t :: t in freqs ==> freqs[t] == Count(tokens, t)
  {
    hide Count;
    freqs := map[];
    assert tokens[..0] == [];
    NothingCounted();
    for i := 0 to |tokens|
      invariant forall t :: t in freqs <==> Count(tokens[..i], t) > 0
      invariant forall t :: t in freqs ==> freqs[t] == Count(tokens[..i], t)
    {
      forall t ensures Count(tokens[..i + 1], t) == Count(tokens[..i], t) + (if tokens[i] == t then 1 else 0) {
        CountSnoc(tokens, i, t);
      }
      var token := tokens[i];
      freqs := freqs[token := (if token in freqs then freqs[token] else 0) + 1];
    }
    assert tokens[..|tokens|] == tokens;
  }

  lemma NothingCounted()
    ensures forall t :: Count([], t) == 0
  {
  }

  /** While one document is entered: the terms of `todo` are still to do. */
  ghost predicate PartlyEntered(postings: map<string, seq<Posting>>, docs: seq<Document>, i: nat, todo: set<string>)
    requires i < |docs|
  {
    (forall t :: t in postings ==> postings[t] != [])
    && (forall t :: ListedAt(postings, t) == if t in todo then PostingsOf(docs[..i], t) else PostingsOf(docs[..i + 1], t))
  }

  function ListedAt(postings: map<string, seq<Posting>>, t: string): seq<Posting>
  {
    if t in postings then postings[t] else []
  }

  /** Enter a document under each of its terms, in whatever order its map is walked. */
  method EnterDocument(ghost docs: seq<Document>, i: nat, freqs: map<string, nat>,
                       postings0: map<string, seq<Posting>>, docFreqs0: map<string, nat>)
    returns (postings: map<string, seq<Posting>>, docFreqs: map<string, nat>)
    requires i < |docs| && HoldsPostings(postings0, docs[..i]) && HoldsFrequencies(docFreqs0, postings0)
    requires forall t :: t in freqs <==> Count(docs[i].tokens, t) > 0
    requires forall t :: t in freqs ==> freqs[t] == Count(docs[i].tokens, t)
    ensures HoldsPostings(postings, docs[..i + 1]) && HoldsFrequencies(docFreqs, postings)
  {
    hide PostingsOf, Count, HoldsPostings, PartlyEntered;
    postings, docFreqs := postings0, docFreqs0;
    var todo := freqs.Keys;
    EnterStarts(docs, i, freqs, postings);
    while todo != {}
      invariant todo <= freqs.Keys
      invariant PartlyEntered(postings, docs, i, todo)
      invariant HoldsFrequencies(docFreqs, postings)
      decreases |todo|
    {
      var t :| t in todo;
      EnterStep(docs, i, postings, todo, t);
      todo := todo - {t};
      postings := postings[t := ListedAt(postings, t) + [Posting(i, freqs[t])]];
      docFreqs := docFreqs[t := (if t in docFreqs then docFreqs[t] else 0) + 1];
    }
    EnterEnds(docs, i, postings);
  }

  lemma EnterStarts(docs: seq<Document>, i: nat, freqs: map<string, nat>, postings: map<string, seq<Posting>>)
    requires i < |docs| && HoldsPostings(postings, docs[..i])
    requires forall t :: t in freqs <==> Count(docs[i].tokens, t) > 0
    ensures PartlyEntered(postings, docs, i, freqs.Keys)
  {
    hide PostingsOf, Count;
    forall t ensures ListedAt(postings, t)
      == if t in freqs.Keys then PostingsOf(docs[..i], t) else PostingsOf(docs[..i + 1], t) {
      PostingsSnoc(docs, i, t);
    }
  }

  lemma EnterStep(docs: seq<Document>, i: nat, postings: map<string, seq<Posting>>, todo: set<string>, t: string)
    requires i < |docs| && PartlyEntered(postings, docs, i, todo) && t in todo && Count(docs[i].tokens, t) > 0
    ensures var after := postings[t := ListedAt(postings, t) + [Posting(i, Count(docs[i].tokens, t))]];
      PartlyEntered(after, docs, i, todo - {t})
  {
    hide PostingsOf, Count;
    PostingsSnoc(docs, i, t);
  }

  lemma EnterEnds(docs: seq<Document>, i: nat, postings: map<string, seq<Posting>>)
    requires i < |docs| && PartlyEntered(postings, docs, i, {})
    ensures HoldsPostings(postings, docs[..i + 1])
  {
    hide PostingsOf;
    forall t | t in postings ensures postings[t] == PostingsOf(docs[..i + 1], t) {
      assert ListedAt(postings, t) == PostingsOf(docs[..i + 1], t);
    }
    forall t | t !in postings ensures PostingsOf(docs[..i + 1], t) == [] {
      assert ListedAt(postings, t) == PostingsOf(docs[..i + 1], t);
    }
  }

  class LexicalIndex {
    var documents: seq<IndexedDocument>
    var postings: map<string, seq<Posting>>
    var docFreqs: map<string, nat>
    var vocabulary: seq<string>
    var averageLength: real

    /** The index is that of the documents. */
    ghost predicate Indexes(docs: seq<Document>)
      reads this
    {
      |documents| == |docs|
      && (forall i :: 0 <= i < |docs| ==> documents[i] == IndexedDocument(docs[i].id, |docs[i].tokens|))
      && HoldsPostings(postings, docs) && HoldsFrequencies(docFreqs, postings)
      && vocabulary == Listing(Terms(docs)) && averageLength == AverageLength(docs)
    }

    constructor ()
    {
      documents, postings, docFreqs, vocabulary, averageLength := [], map[], map[], [], 1.0;
    }

    method Build(docs: seq<Document>)
      modifies this
      ensures Indexes(docs)
    {
      hide PostingsOf, Count, HoldsPostings, HoldsFrequencies, TotalLength, Terms, Listing, Lists;
      documents, postings, docFreqs := [], map[], map[];
      var total := 0;
      NothingIndexed();
      assert docs[..0] == [];
      for i := 0 to |docs|
        invariant |documents| == i
        invariant forall j :: 0 <= j < i ==> documents[j] == IndexedDocument(docs[j].id, |docs[j].tokens|)
        invariant HoldsPostings(postings, docs[..i]) && HoldsFrequencies(docFreqs, postings)
        invariant total == TotalLength(docs[..i])
      {
        var tokens := docs[i].tokens;
        var freqs := TermFrequencies(tokens);
        postings, docFreqs := EnterDocument(docs, |documents|, freqs, postings, docFreqs);
        TotalSnoc(docs, i);
        total := total + |tokens|;
        documents := documents + [IndexedDocument(docs[i].id, |tokens|)];
      }
      assert docs[..|docs|] == docs;
      TermsIndexed(docs, postings, docFreqs);
      vocabulary := InOrder(docFreqs.Keys);
      averageLength := if documents == [] then 1.0 else total as real / |documents| as real;
    }

    /** Add one query term to the scores of the documents that have it. */
    method AddTerm(ln: real -> real, ghost docs: seq<Document>, ghost terms: seq<string>, t: string, scores0: map<nat, real>)
      returns (scores: map<nat, real>)
      requires Indexes(docs) && ScoresAre(scores0, ln, docs, terms)
      ensures ScoresAre(scores, ln, docs, terms + [t])
    {
      hide PostingsOf, Count, HoldsPostings, HoldsFrequencies, Terms, Listing, ScoresAre, PartlyScored, TermScore, PostingScore;
      scores := scores0;
      LookUp(docs, postings, docFreqs, t);
      ScoringStarts(scores, ln, docs, terms, t);
      if t in postings {
        var df := docFreqs[t];
        var ps := postings[t];
        for j := 0 to |ps|
          invariant PartlyScored(scores, ln, docs, terms, t, j)
        {
          var p := ps[j];
          ScoringStep(scores, ln, docs, terms, t, j);
          var score := PostingScore(ln, |documents|, df, p.tf, documents[p.doc].length, Larger(averageLength, 1.0));
          scores := scores[p.doc := (if p.doc in scores then scores[p.doc] else 0.0) + score];
        }
      }
      ScoringEnds(scores, ln, docs, terms, t);
    }

    method SearchTerms(ln: real -> real, ghost docs: seq<Document>, terms: seq<string>, limit: nat) returns (rows: seq<Hit>)
      requires Indexes(docs) && LogLike(ln) && DistinctIds(docs)
      ensures rows == TopMatches(ln, docs, terms, limit)
    {
      hide ScoresAre, HoldsPostings, HoldsFrequencies, Terms, Listing, DistinctIds, LogLike;
      var scores: map<nat, real> := map[];
      NothingScored(ln, docs);
      assert terms[..0] == [];
      for k := 0 to |terms|
        invariant ScoresAre(scores, ln, docs, terms[..k])
      {
        scores := AddTerm(ln, docs, terms[..k], terms[k], scores);
        assert terms[..k + 1] == terms[..k] + [terms[k]];
      }
      assert terms[..|terms|] == terms;
      rows := RankHits(ln, docs, terms, scores);
      HitsDistinct(ln, docs, terms);
      RankingUnique(rows, Ranking(HitsOf(ln, docs, terms)), HitsOf(ln, docs, terms));
      rows := Truncated(rows, limit);
    }

    /** Collect the positive scores in any order and sort them. */
    method RankHits(ln: real -> real, ghost docs: seq<Document>, ghost terms: seq<string>, scores: map<nat, real>)
      returns (rows: seq<Hit>)
      requires Indexes(docs) && LogLike(ln) && DistinctIds(docs) && ScoresAre(scores, ln, docs, terms)
      ensures Ranks(rows, HitsOf(ln, docs, terms))
    {
      hide ScoresAre, HoldsPostings, HoldsFrequencies, Terms, Listing, DistinctIds, LogLike, Ranks, HitsIn, HitsOf, Place;
      AllPositive(scores, ln, docs, terms);
      var rest := scores.Keys;
      rows := [];
      HitsFrom(scores, ln, docs, terms, {});
      assert scores.Keys - rest == {};
      while rest != {}
        invariant rest <= scores.Keys
        invariant Ranks(rows, HitsIn(scores, docs, scores.Keys - rest))
        decreases |rest|
      {
        var i :| i in rest;
        AnotherHit(scores, docs, scores.Keys - rest, i, rows);
        assert scores.Keys - (rest - {i}) == scores.Keys - rest + {i};
        rest := rest - {i};
        if scores[i] > 0.0 {
          rows := Place(rows, Hit(documents[i].id, scores[i]));
        }
      }
      assert scores.Keys - {} == scores.Keys;
      HitsFrom(scores, ln, docs, terms, scores.Keys);
    }

    /** The vocabulary terms one edit from a query term, each once, remembered by a set. */
    method FindFuzzyTerms(queryTerms: seq<string>) returns (found: seq<string>)
      ensures found == FuzzyTerms(queryTerms, vocabulary)
    {
      hide Near;
      found := [];
      var seen: set<string> := {};
      for i := 0 to |queryTerms|
        invariant found == FuzzyTerms(queryTerms[..i], vocabulary)
        invariant forall t :: t in seen <==> t in found
      {
        assert queryTerms[..i + 1][..i] == queryTerms[..i];
        for j := 0 to |vocabulary|
          invariant found == NearAmong(queryTerms[i], vocabulary[..j], FuzzyTerms(queryTerms[..i], vocabulary))
          invariant forall t :: t in seen <==> t in found
        {
          assert vocabulary[..j + 1][..j] == vocabulary[..j];
          var near := IsEditDistanceLeOne(queryTerms[i], vocabulary[j]);
          if near && vocabulary[j] !in seen {
            seen := seen + {vocabulary[j]};
            found := found + [vocabulary[j]];
          }
        }
        assert vocabulary[..|vocabulary|] == vocabulary;
      }
      assert queryTerms[..|queryTerms|] == queryTerms;
    }

    /** Fuzzy terms are only tried when the exact terms match nothing. */
    method Search(ln: real -> real, ghost docs: seq<Document>, queryTerms: seq<string>, limit: nat) returns (rows: seq<Hit>)
      requires Indexes(docs) && LogLike(ln) && DistinctIds(docs)
      ensures rows == Answer(ln, docs, queryTerms, limit)
    {
      hide HoldsPostings, HoldsFrequencies, Terms, Listing, DistinctIds, LogLike, FuzzyTerms, TopMatches, Matches;
      if limit == 0 || queryTerms == [] {
        return [];
      }
      MatchesNothing(ln, docs, queryTerms, limit);
      var exact := SearchTerms(ln, docs, queryTerms, limit);
      if exact != [] {
        return exact;
      }
      var fuzzy := FindFuzzyTerms(queryTerms);
      if fuzzy == [] {
        NoTermsNoMatch(ln, docs, limit);
        return [];
      }
      rows := SearchTerms(ln, docs, fuzzy, limit);
    }
  }

  /** Nothing is found exactly when no document has a query term. */
  lemma MatchesNothing(ln: real -> real, docs: seq<Document>, terms: seq<string>, limit: nat)
    requires DistinctIds(docs) && limit > 0
    ensures TopMatches(ln, docs, terms, limit) == [] <==> !exists i :: 0 <= i < |docs| && Matches(docs, i, terms)
  {
    SearchTermsExact(ln, docs, terms, limit);
    hide TopMatches, Matches, Score;
    if i :| 0 <= i < |docs| && Matches(docs, i, terms) {
      assert HitOf(ln, docs, i, terms) in HitsOf(ln, docs, terms);
    } else {
      assert HitsOf(ln, docs, terms) == {};
    }
  }

  lemma NoTermsNoMatch(ln: real -> real, docs: seq<Document>, limit: nat)
    requires DistinctIds(docs)
    ensures TopMatches(ln, docs, [], limit) == []
  {
    SearchTermsExact(ln, docs, [], limit);
    assert HitsOf(ln, docs, []) == {};
    hide TopMatches;
  }

  // ---- Scoring steps -----------------------------------------------------

  /** The scores are those of the documents with a query term. */
  ghost predicate ScoresAre(scores: map<nat, real>, ln: real -> real, docs: seq<Document>, terms: seq<string>)
  {
    (forall i: nat :: i in scores <==> i < |docs| && Matches(docs, i, terms))
    && (forall i: nat :: i in scores && i < |docs| ==> scores[i] == Score(ln, docs, i, terms))
  }

  /** Document `i` is among the first `j` postings. */
  ghost predicate Reached(ps: seq<Posting>, j: nat, i: nat)
  {
    exists n :: 0 <= n < j && n < |ps| && ps[n].doc == i
  }

  ghost predicate PartlyScored(scores: map<nat, real>, ln: real -> real, docs: seq<Document>, terms: seq<string>, t: string, j: nat)
  {
    var ps := PostingsOf(docs, t);
    (forall i: nat :: i in scores <==> i < |docs| && (Matches(docs, i, terms) || Reached(ps, j, i)))
    && (forall i: nat :: i in scores && i < |docs| ==>
         scores[i] == Score(ln, docs, i, terms) + (if Reached(ps, j, i) then TermScore(ln, docs, i, t) else 0.0))
  }

  lemma LookUp(docs: seq<Document>, postings: map<string, seq<Posting>>, docFreqs: map<string, nat>, t: string)
    requires HoldsPostings(postings, docs) && HoldsFrequencies(docFreqs, postings)
    ensures t !in postings ==> PostingsOf(docs, t) == []
    ensures t in postings ==> postings[t] == PostingsOf(docs, t) && t in docFreqs && docFreqs[t] == |PostingsOf(docs, t)|
  {
    hide PostingsOf;
  }

  lemma NothingScored(ln: real -> real, docs: seq<Document>)
    ensures ScoresAre(map[], ln, docs, [])
  {
  }

  /** A document without a score has the score nothing. */
  lemma {:induction false} NoMatchNoScore(ln: real -> real, docs: seq<Document>, i: nat, terms: seq<string>)
    requires i < |docs| && !Matches(docs, i, terms)
    ensures Score(ln, docs, i, terms) == 0.0
  {
    hide PostingScore;
    if terms != [] {
      var init, last := terms[..|terms| - 1], terms[|terms| - 1];
      assert terms == init + [last];
      MatchesSnoc(docs, i, init, last);
      NoMatchNoScore(ln, docs, i, init);
      CountPositive(docs[i].tokens, last);
    }
  }

  lemma ScoringStarts(scores: map<nat, real>, ln: real -> real, docs: seq<Document>, terms: seq<string>, t: string)
    requires ScoresAre(scores, ln, docs, terms)
    ensures PartlyScored(scores, ln, docs, terms, t, 0)
  {
    hide Score, TermScore, Matches, PostingsOf;
  }

  lemma PostingAt(ln: real -> real, docs: seq<Document>, t: string, j: nat)
    requires j < |PostingsOf(docs, t)|
    ensures var p := PostingsOf(docs, t)[j];
      p.doc < |docs| && p.tf > 0 && !Reached(PostingsOf(docs, t), j, p.doc)
      && TermScore(ln, docs, p.doc, t)
         == PostingScore(ln, |docs|, |PostingsOf(docs, t)|, p.tf, |docs[p.doc].tokens|, Larger(AverageLength(docs), 1.0))
  {
    PostingsExact(docs, t);
    hide PostingsOf, Count, PostingScore;
    assert PostingsOf(docs, t)[j] in PostingsOf(docs, t);
  }

  lemma ReachedNext(ps: seq<Posting>, j: nat, i: nat)
    requires j < |ps|
    ensures Reached(ps, j + 1, i) <==> Reached(ps, j, i) || i == ps[j].doc
  {
    if i == ps[j].doc { assert ps[j].doc == i; }
  }

  lemma ScoringStep(scores: map<nat, real>, ln: real -> real, docs: seq<Document>, terms: seq<string>, t: string, j: nat)
    requires j < |PostingsOf(docs, t)| && PartlyScored(scores, ln, docs, terms, t, j)
    ensures var p := PostingsOf(docs, t)[j];
      p.doc < |docs|
      && PartlyScored(
           scores[p.doc := (if p.doc in scores then scores[p.doc] else 0.0)
             + PostingScore(ln, |docs|, |PostingsOf(docs, t)|, p.tf, |docs[p.doc].tokens|, Larger(AverageLength(docs), 1.0))],
           ln, docs, terms, t, j + 1)
  {
    hide *;
    ScoringFacts(scores, ln, docs, terms, t, j);
    AddedScore(scores, ln, docs, terms, t, j, TermScore(ln, docs, PostingsOf(docs, t)[j].doc, t));
  }

  lemma ScoringFacts(scores: map<nat, real>, ln: real -> real, docs: seq<Document>, terms: seq<string>, t: string, j: nat)
    requires j < |PostingsOf(docs, t)| && PartlyScored(scores, ln, docs, terms, t, j)
    ensures forall i: nat ::
      Reached(PostingsOf(docs, t), j + 1, i) <==> Reached(PostingsOf(docs, t), j, i) || i == PostingsOf(docs, t)[j].doc
    ensures var p := PostingsOf(docs, t)[j];
      p.doc < |docs| && p.tf > 0 && !Reached(PostingsOf(docs, t), j, p.doc)
      && TermScore(ln, docs, p.doc, t)
         == PostingScore(ln, |docs|, |PostingsOf(docs, t)|, p.tf, |docs[p.doc].tokens|, Larger(AverageLength(docs), 1.0))
      && (p.doc !in scores ==> Score(ln, docs, p.doc, terms) == 0.0)
  {
    var p := PostingsOf(docs, t)[j];
    PostingAt(ln, docs, t, j);
    hide PostingsOf, TermScore, PostingScore, Score, Matches, Reached, AverageLength;
    if p.doc !in scores { NoMatchNoScore(ln, docs, p.doc, terms); }
    forall i: nat ensures Reached(PostingsOf(docs, t), j + 1, i) <==> Reached(PostingsOf(docs, t), j, i) || i == p.doc {
      ReachedNext(PostingsOf(docs, t), j, i);
    }
  }

  lemma AddedScore(scores: map<nat, real>, ln: real -> real, docs: seq<Document>, terms: seq<string>, t: string, j: nat, score: real)
    requires j < |PostingsOf(docs, t)| && PartlyScored(scores, ln, docs, terms, t, j)
    requires forall i: nat ::
      Reached(PostingsOf(docs, t), j + 1, i) <==> Reached(PostingsOf(docs, t), j, i) || i == PostingsOf(docs, t)[j].doc
    requires var d := PostingsOf(docs, t)[j].doc;
      d < |docs| && !Reached(PostingsOf(docs, t), j, d) && score == TermScore(ln, docs, d, t)
      && (d !in scores ==> Score(ln, docs, d, terms) == 0.0)
    ensures var d := PostingsOf(docs, t)[j].doc;
      PartlyScored(scores[d := (if d in scores then scores[d] else 0.0) + score], ln, docs, terms, t, j + 1)
  {
    hide PostingsOf, TermScore, Score, Matches, Reached;
  }

  lemma ReachedAll(docs: seq<Document>, t: string, i: nat)
    requires i < |docs|
    ensures Reached(PostingsOf(docs, t), |PostingsOf(docs, t)|, i) <==> t in docs[i].tokens
  {
    var ps := PostingsOf(docs, t);
    PostingsExact(docs, t);
    CountPositive(docs[i].tokens, t);
    hide PostingsOf, Count;
    if Reached(ps, |ps|, i) {
      var n :| 0 <= n < |ps| && ps[n].doc == i;
      assert ps[n] in ps;
    }
    if t in docs[i].tokens {
      assert Posting(i, Count(docs[i].tokens, t)) in ps;
      var n :| 0 <= n < |ps| && ps[n] == Posting(i, Count(docs[i].tokens, t));
      assert ps[n].doc == i;
    }
  }

  lemma ScoringEnds(scores: map<nat, real>, ln: real -> real, docs: seq<Document>, terms: seq<string>, t: string)
    requires PartlyScored(scores, ln, docs, terms, t, |PostingsOf(docs, t)|)
    ensures ScoresAre(scores, ln, docs, terms + [t])
  {
    var all := terms + [t];
    var ps := PostingsOf(docs, t);
    assert all[..|all| - 1] == terms;
    forall i: nat | i < |docs|
      ensures Matches(docs, i, all) <==> Matches(docs, i, terms) || Reached(ps, |ps|, i)
      ensures Score(ln, docs, i, all) == Score(ln, docs, i, terms) + (if Reached(ps, |ps|, i) then TermScore(ln, docs, i, t) else 0.0) {
      ReachedAll(docs, t, i);
      MatchesSnoc(docs, i, terms, t);
      CountPositive(docs[i].tokens, t);
    }
    hide PostingsOf, TermScore, Score, Matches, Reached;
  }

  lemma AllPositive(scores: map<nat, real>, ln: real -> real, docs: seq<Document>, terms: seq<string>)
    requires LogLike(ln) && ScoresAre(scores, ln, docs, terms)
    ensures forall i: nat :: i in scores ==> i < |docs| && scores[i] > 0.0
  {
    forall i: nat | i in scores ensures i < |docs| && scores[i] > 0.0 { ScoreSign(ln, docs, i, terms); }
  }

  // ---- Collecting hits ---------------------------------------------------

  /** The hits of some documents by their scores. */
  function HitsIn(scores: map<nat, real>, docs: seq<Document>, chosen: set<nat>): set<Hit>
    requires forall i: nat :: i in chosen ==> i in scores && i < |docs|
  {
    set i: nat | i in chosen :: Hit(docs[i].id, scores[i])
  }

  lemma HitsFrom(scores: map<nat, real>, ln: real -> real, docs: seq<Document>, terms: seq<string>, chosen: set<nat>)
    requires ScoresAre(scores, ln, docs, terms) && chosen <= scores.Keys
    ensures forall i: nat :: i in chosen ==> i in scores && i < |docs|
    ensures chosen == {} ==> HitsIn(scores, docs, chosen) == {} && Ranks([], HitsIn(scores, docs, chosen))
    ensures chosen == scores.Keys ==> HitsIn(scores, docs, chosen) == HitsOf(ln, docs, terms)
  {
    hide Score, Matches;
    assert forall i: nat :: i in chosen ==> i in scores.Keys;
    if chosen == scores.Keys {
      forall h ensures h in HitsIn(scores, docs, chosen) <==> h in HitsOf(ln, docs, terms) {
        if h in HitsIn(scores, docs, chosen) {
          var i: nat :| i in chosen && h == Hit(docs[i].id, scores[i]);
          assert h == HitOf(ln, docs, i, terms);
        }
        if h in HitsOf(ln, docs, terms) {
          var i :| 0 <= i < |docs| && Matches(docs, i, terms) && h == HitOf(ln, docs, i, terms);
          assert i in scores;
        }
      }
    }
  }

  lemma AnotherHit(scores: map<nat, real>, docs: seq<Document>, done: set<nat>, i: nat, rows: seq<Hit>)
    requires DistinctIds(docs) && (forall k: nat :: k in done ==> k in scores && k < |docs|)
    requires i in scores && i < |docs| && i !in done && Ranks(rows, HitsIn(scores, docs, done))
    ensures Ranks(Place(rows, Hit(docs[i].id, scores[i])), HitsIn(scores, docs, done + {i}))
  {
    var h := Hit(docs[i].id, scores[i]);
    var hits := HitsIn(scores, docs, done);
    forall x | x in hits ensures x.id != h.id {
      var k: nat :| k in done && x == Hit(docs[k].id, scores[k]);
      assert k != i;
    }
    assert HitsIn(scores, docs, done + {i}) == hits + {h};
    hide Ranks;
    PlaceRanks(rows, hits, h);
  }

  lemma NothingIndexed()
    ensures HoldsPostings(map[], []) && HoldsFrequencies(map[], map[]) && TotalLength([]) == 0
  {
  }

  lemma TermsIndexed(docs: seq<Document>, postings: map<string, seq<Posting>>, docFreqs: map<string, nat>)
    requires HoldsPostings(postings, docs) && HoldsFrequencies(docFreqs, postings)
    ensures docFreqs.Keys == Terms(docs)
  {
    forall t ensures t in docFreqs <==> t in Terms(docs) {
      PostingsExact(docs, t);
      hide PostingsOf, Count;
      if t in docFreqs {
        var p := PostingsOf(docs, t)[0];
        assert p in PostingsOf(docs, t);
        CountPositive(docs[p.doc].tokens, t);
        var k :| 0 <= k < |docs[p.doc].tokens| && docs[p.doc].tokens[k] == t;
      }
      if t in Terms(docs) {
        var i, k :| 0 <= i < |docs| && 0 <= k < |docs[i].tokens| && docs[i].tokens[k] == t;
        CountPositive(docs[i].tokens, t);
        assert Posting(i, Count(docs[i].tokens, t)) in PostingsOf(docs, t);
      }
    }
  }
}
