/**
 Contradictions between facts of a singleton predicate (crates/core/src/contradiction.rs and
 the nested loops of crates/core/src/temporal_graph.rs:897-926).
 */
module Contradictions {
  import opened Prelude
  import opened Decimals
  import opened Json
  import opened Facts
  import opened Rfc3339

  // ---- Values ------------------------------------------------------------

  function PowerOfTen(n: nat): (p: real)
    ensures p >= 1.0
  {
    if n == 0 then 1.0 else PowerOfTen(n - 1) * 10.0
  }

  function Whole(s: string): nat
  {
    if AllDigits(s) then DigitsValue(s) else 0
  }

  function Magnitude(n: NumberToken): real
  {
    var fraction := if n.fraction == "" then "" else n.fraction[1..];
    Whole(n.whole) as real + Whole(fraction) as real / PowerOfTen(|fraction|)
  }

  function Scaled(magnitude: real, exponent: string): real
  {
    if |exponent| < 2 then magnitude
    else if exponent[1] == '-' then magnitude / PowerOfTen(Whole(exponent[2..]))
    else if exponent[1] == '+' then magnitude * PowerOfTen(Whole(exponent[2..]))
    else magnitude * PowerOfTen(Whole(exponent[1..]))
  }

  /** The number a token denotes, before rounding. */
  function NumberValue(n: NumberToken): real
  {
    if n.negative then -Scaled(Magnitude(n), n.exponent) else Scaled(Magnitude(n), n.exponent)
  }

  /** The spacing of doubles at one. */
  const EPSILON := 1.0 / 4503599627370496.0

  function Distance(x: real, y: real): real
  {
    if x < y then y - x else x - y
  }

  /** Whether `(x - y).abs() > EPSILON`: never when the difference is not a number. */
  predicate NumbersDiffer(x: Float, y: Float)
  {
    match (x, y)
    case (Finite(a), Finite(b)) => Distance(NumberValue(a), NumberValue(b)) > EPSILON
    case (Infinite(a), Infinite(b)) => a != b
    case (Infinite(_), Finite(_)) => true
    case (Finite(_), Infinite(_)) => true
    case _ => false
  }

  predicate ValuesConflict(a: Value, b: Value)
  {
    match (a, b)
    case (Text(x), Text(y)) => x != y
    case (Number(x), Number(y)) => NumbersDiffer(x, y)
    case (Boolean(x), Boolean(y)) => x != y
    case (Entity(x), Entity(y)) => x != y
    case _ => true
  }

  /** Digits after `a`: `p` is their power of ten, `b` their number. */
  function Joined(a: real, p: real, b: real): real
  {
    a * p + b
  }

  lemma {:induction false} DigitsConcat(a: string, b: string)
    requires AllDigits(a) && AllDigits(b)
    ensures AllDigits(a + b)
    ensures DigitsValue(a + b) as real == Joined(DigitsValue(a) as real, PowerOfTen(|b|), DigitsValue(b) as real)
  {
    if b == [] {
      assert a + b == a;
      assert PowerOfTen(0) == 1.0 && DigitsValue(b) == 0;
      hide DigitsValue;
    } else {
      var init := b[..|b| - 1];
      DigitsConcat(a, init);
      LastDigit(b);
      LastDigit(a + b);
      assert (a + b)[..|a + b| - 1] == a + init && (a + b)[|a + b| - 1] == b[|b| - 1];
      assert PowerOfTen(|b|) == PowerOfTen(|init|) * 10.0;
      Shifted(DigitsValue(a) as real, PowerOfTen(|init|), DigitsValue(init) as real, (b[|b| - 1] - '0') as int as real);
      hide *;
    }
  }

  lemma LastDigit(s: string)
    requires AllDigits(s) && s != []
    ensures DigitsValue(s) as real == DigitsValue(s[..|s| - 1]) as real * 10.0 + (s[|s| - 1] - '0') as int as real
  {
  }

  lemma Shifted(a: real, p: real, b: real, d: real)
    ensures Joined(a, p, b) * 10.0 + d == Joined(a, p * 10.0, b * 10.0 + d)
  {
    assert a * p * 10.0 == a * (p * 10.0);
  }

  /** A token without an exponent denotes its digits read as one number, with the point put back. */
  lemma NumberOfDigits(negative: bool, whole: string, digits: string)
    requires AllDigits(whole) && AllDigits(digits) && digits != ""
    ensures AllDigits(whole + digits)
    ensures var x := NumberValue(NumberToken(negative, whole, "." + digits, ""));
      (if negative then -x else x) * PowerOfTen(|digits|) == DigitsValue(whole + digits) as real
    ensures var n := NumberValue(NumberToken(negative, whole, "", "")); (if negative then -n else n) == DigitsValue(whole) as real
  {
    hide *;
    DigitsConcat(whole, digits);
    FractionMagnitude(negative, whole, digits);
    WholeMagnitude(negative, whole);
    PlainNumber(NumberToken(negative, whole, "." + digits, ""));
    PlainNumber(NumberToken(negative, whole, "", ""));
    PointBack(DigitsValue(whole) as real, DigitsValue(digits) as real, PowerOfTen(|digits|));
  }

  lemma PlainNumber(n: NumberToken)
    requires n.exponent == ""
    ensures NumberValue(n) == if n.negative then -Magnitude(n) else Magnitude(n)
  {
    hide Magnitude;
  }

  lemma FractionMagnitude(negative: bool, whole: string, digits: string)
    requires AllDigits(whole) && AllDigits(digits) && digits != ""
    ensures Magnitude(NumberToken(negative, whole, "." + digits, ""))
      == DigitsValue(whole) as real + DigitsValue(digits) as real / PowerOfTen(|digits|)
  {
    assert ("." + digits)[1..] == digits;
    hide DigitsValue, PowerOfTen;
  }

  lemma WholeMagnitude(negative: bool, whole: string)
    requires AllDigits(whole)
    ensures Magnitude(NumberToken(negative, whole, "", "")) == DigitsValue(whole) as real
  {
    assert PowerOfTen(0) == 1.0 && DigitsValue("") == 0;
    hide DigitsValue, PowerOfTen;
  }

  lemma PointBack(w: real, f: real, p: real)
    requires p >= 1.0
    ensures (w + f / p) * p == Joined(w, p, f)
  {
    var q := f / p;
    assert q * p == f;
  }

  /** An exponent multiplies by a power of ten, or divides by one when it is negative. */
  lemma NumberScaled(n: NumberToken, mark: char, digits: string)
    requires n.exponent == "" && digits != "" && AllDigits(digits)
    ensures var p := PowerOfTen(DigitsValue(digits));
      NumberValue(n.(exponent := [mark] + digits)) == NumberValue(n) * p
      && NumberValue(n.(exponent := [mark] + "+" + digits)) == NumberValue(n) * p
      && NumberValue(n.(exponent := [mark] + "-" + digits)) == NumberValue(n) / p
  {
    hide *;
    PlainNumber(n);
    NumberByMagnitude(n, [mark] + digits);
    NumberByMagnitude(n, [mark] + "+" + digits);
    NumberByMagnitude(n, [mark] + "-" + digits);
    ScaledBy(Magnitude(n), mark, digits);
    Negated(Magnitude(n), PowerOfTen(DigitsValue(digits)));
  }

  lemma NumberByMagnitude(n: NumberToken, exponent: string)
    ensures var x := Scaled(Magnitude(n), exponent); NumberValue(n.(exponent := exponent)) == if n.negative then -x else x
  {
    assert Magnitude(n.(exponent := exponent)) == Magnitude(n);
    hide Magnitude, Scaled;
  }

  lemma ScaledBy(m: real, mark: char, digits: string)
    requires digits != "" && AllDigits(digits)
    ensures var p := PowerOfTen(DigitsValue(digits));
      Scaled(m, [mark] + digits) == m * p && Scaled(m, [mark] + "+" + digits) == m * p
      && Scaled(m, [mark] + "-" + digits) == m / p
  {
    assert ([mark] + digits)[1..] == digits && IsDigit(digits[0]);
    assert ([mark] + "+" + digits)[2..] == digits && ([mark] + "-" + digits)[2..] == digits;
    hide PowerOfTen, DigitsValue;
  }

  lemma Negated(m: real, p: real)
    requires p >= 1.0
    ensures (-m) * p == -(m * p) && (-m) / p == -(m / p)
  {
    assert (m / p) * p == m;
    assert (-(m / p)) * p == -m;
  }

  /** Values conflict exactly when they differ; two finite numbers when they are more than 2^-52 apart. */
  lemma ConflictIsDifference(a: Value, b: Value)
    ensures !(a.Number? && b.Number?) ==> (ValuesConflict(a, b) <==> a != b)
    ensures a.Number? && b.Number? && a.f.Finite? && b.f.Finite? ==>
      var d := NumberValue(a.f.n) - NumberValue(b.f.n);
      (ValuesConflict(a, b) <==> d * 4503599627370496.0 > 1.0 || d * 4503599627370496.0 < -1.0)
    ensures a.Number? && b.Number? && !(a.f.Finite? && b.f.Finite?) ==>
      (ValuesConflict(a, b) <==> !a.f.NaN? && !b.f.NaN? && a.f != b.f)
  {
    hide NumberValue;
  }

  // ---- Overlap in valid time ---------------------------------------------

  /** The end of valid time, an open end standing at the last instant. */
  function EndOf(f: Fact): Timestamp
  {
    if f.validTo.None? then I64_MAX else f.validTo.value
  }

  function Later(a: Timestamp, b: Timestamp): Timestamp { if a < b then b else a }
  function Earlier(a: Timestamp, b: Timestamp): Timestamp { if b < a then b else a }

  datatype Window = Window(start: Timestamp, end: Option<Timestamp>)

  function Overlap(a: Fact, b: Fact): Option<Window>
  {
    if a.expiredAt.Some? || b.expiredAt.Some? then None
    else if a.validFrom < EndOf(b) && b.validFrom < EndOf(a) then
      var end := Earlier(EndOf(a), EndOf(b));
      Some(Window(Later(a.validFrom, b.validFrom), if end == I64_MAX then None else Some(end)))
    else None
  }

  /** Both facts were valid at some instant. */
  ghost predicate ShareInstant(a: Fact, b: Fact)
  {
    exists t: Timestamp :: WasValidAt(a, t) && WasValidAt(b, t)
  }

  /** The valid time of the fact is not empty. */
  predicate Proper(f: Fact)
  {
    f.validTo.None? || f.validFrom < f.validTo.value
  }

  /** Both facts are open and one of them begins at the last instant of all. */
  predicate OpenAtTheLast(a: Fact, b: Fact)
  {
    a.validTo.None? && b.validTo.None? && (a.validFrom == I64_MAX || b.validFrom == I64_MAX)
  }

  /**
   Facts that overlap share an instant exactly when neither interval is empty.  Facts that do not
   overlap, though unexpired, share one exactly when both are open and one begins at the last
   instant: the end that stands for an open one is excluded like any other.
   */
  lemma OverlapMeansSharing(a: Fact, b: Fact)
    requires a.expiredAt.None? && b.expiredAt.None?
    ensures Overlap(a, b).Some? ==> (ShareInstant(a, b) <==> Proper(a) && Proper(b))
    ensures Overlap(a, b).None? ==> (ShareInstant(a, b) <==> OpenAtTheLast(a, b))
  {
    var t := Later(a.validFrom, b.validFrom);
    if ShareInstant(a, b) {
      var u: Timestamp :| WasValidAt(a, u) && WasValidAt(b, u);
    }
    if (Overlap(a, b).Some? && Proper(a) && Proper(b)) || OpenAtTheLast(a, b) {
      assert WasValidAt(a, t) && WasValidAt(b, t);
    }
  }

  /** So two open facts that begin at the last instant are never found to conflict, though both hold then. */
  lemma LastInstantUnseen(a: Fact, b: Fact)
    requires a.expiredAt.None? && b.expiredAt.None? && a.validTo.None? && b.validTo.None?
    requires a.validFrom == I64_MAX && b.validFrom == I64_MAX
    ensures WasValidAt(a, I64_MAX) && WasValidAt(b, I64_MAX) && !Conflict(a, b)
  {
    hide ValuesConflict;
  }

  /**
   The window holds exactly the shared instants, but that it takes in the last instant of all
   when a fact ends there.
   */
  lemma WindowIsIntersection(a: Fact, b: Fact, t: Timestamp)
    requires Overlap(a, b).Some?
    ensures var w := Overlap(a, b).value;
      (w.start <= t && OpenAt(w.end, t) <==> WasValidAt(a, t) && WasValidAt(b, t))
      <==> !(t == EndOf(a) == EndOf(b) == I64_MAX && (a.validTo.Some? || b.validTo.Some?))
  {
  }

  // ---- Severity ----------------------------------------------------------

  datatype Severity = Low | Medium | High

  /** Subtraction of instants saturates. */
  function SpanDays(end: Timestamp, start: Timestamp): int
  {
    var d := end - start;
    var micros := if d > I64_MAX then I64_MAX else if d < I64_MIN then I64_MIN else d;
    if micros >= 0 then micros / MICROS_PER_DAY else -(-micros / MICROS_PER_DAY)
  }

  predicate Contains(a: Fact, b: Fact)
  {
    a.validFrom <= b.validFrom && EndOf(a) >= EndOf(b)
  }

  function SeverityOf(a: Fact, b: Fact, w: Window): Severity
  {
    if Contains(a, b) || Contains(b, a) then High
    else if (if w.end.Some? then SpanDays(w.end.value, w.start) else 365) > 30 then Medium
    else Low
  }

  /**
   The levels: high when one valid time contains the other, else medium when the overlap lasts at
   least 31 days, and low when it is shorter.
   */
  lemma SeverityLevels(a: Fact, b: Fact)
    requires Overlap(a, b).Some?
    ensures var w := Overlap(a, b).value; var severity := SeverityOf(a, b, w);
      var contained := (a.validFrom <= b.validFrom && EndOf(b) <= EndOf(a)) || (b.validFrom <= a.validFrom && EndOf(a) <= EndOf(b));
      (severity == High <==> contained)
      && (!contained ==> w.end.Some?)
      && (severity == Medium <==> !contained && w.end.value - w.start >= 31 * 86_400_000_000)
      && (severity == Low <==> !contained && w.end.value - w.start < 31 * 86_400_000_000)
  {
  }

  // ---- Pairs -------------------------------------------------------------

  datatype Contradiction = Contradiction(
    existing: Fact,
    conflicting: Fact,
    window: Window,
    severity: Severity)

  function DetectPairwise(a: Fact, b: Fact): Option<Contradiction>
  {
    if a.subject != b.subject || a.predicate_ != b.predicate_ then None
    else if !ValuesConflict(a.object_, b.object_) then None
    else
      match Overlap(a, b)
      case None => None
      case Some(w) => Some(Contradiction(a, b, w, SeverityOf(a, b, w)))
  }

  predicate Conflict(a: Fact, b: Fact)
  {
    DetectPairwise(a, b).Some?
  }

  /** Detection does not depend on the order of the pair, but for which fact is named first. */
  lemma DetectSymmetric(a: Fact, b: Fact)
    ensures Conflict(a, b) <==> Conflict(b, a)
    ensures Conflict(a, b) ==>
      DetectPairwise(b, a) == Some(DetectPairwise(a, b).value.(existing := b, conflicting := a))
  {
    hide NumberValue;
  }

  /**
   Which facts conflict: two of one pair with conflicting values, neither expired, that were both
   valid at some instant.
   */
  lemma ConflictMeans(a: Fact, b: Fact)
    requires Proper(a) && Proper(b) && !OpenAtTheLast(a, b)
    ensures Conflict(a, b) <==>
      a.subject == b.subject && a.predicate_ == b.predicate_ && ValuesConflict(a.object_, b.object_)
      && a.expiredAt.None? && b.expiredAt.None? && ShareInstant(a, b)
    ensures Conflict(a, b) ==> var c := DetectPairwise(a, b).value;
      c.existing == a && c.conflicting == b && c.window == Overlap(a, b).value && c.severity == SeverityOf(a, b, c.window)
  {
    if a.expiredAt.None? && b.expiredAt.None? { OverlapMeansSharing(a, b); }
    hide ValuesConflict, ShareInstant, SeverityOf;
  }

  // ---- Many facts --------------------------------------------------------

  /** What a fact contradicts among the others, in their order. */
  function Against(f: Fact, others: seq<Fact>): seq<Contradiction>
  {
    if others == [] then []
    else
      (match DetectPairwise(others[0], f) case Some(c) => [c] case None => []) + Against(f, others[1..])
  }

  /** What a fact contradicts among those after it. */
  function Ahead(f: Fact, others: seq<Fact>): seq<Contradiction>
  {
    if others == [] then []
    else
      (match DetectPairwise(f, others[0]) case Some(c) => [c] case None => []) + Ahead(f, others[1..])
  }

  /** Every pair, earlier fact first. */
  function AllPairs(facts: seq<Fact>): seq<Contradiction>
  {
    if facts == [] then [] else Ahead(facts[0], facts[1..]) + AllPairs(facts[1..])
  }

  lemma {:induction false} AheadEmpty(f: Fact, others: seq<Fact>)
    ensures Ahead(f, others) == [] <==> forall j :: 0 <= j < |others| ==> !Conflict(f, others[j])
  {
    hide DetectPairwise;
    if others != [] {
      AheadEmpty(f, others[1..]);
      assert forall j :: 0 < j < |others| ==> others[j] == others[1..][j - 1];
    }
  }

  lemma {:induction false} AgainstEmpty(f: Fact, others: seq<Fact>)
    ensures Against(f, others) == [] <==> forall j :: 0 <= j < |others| ==> !Conflict(others[j], f)
  {
    hide DetectPairwise;
    if others != [] {
      AgainstEmpty(f, others[1..]);
      assert forall j :: 0 < j < |others| ==> others[j] == others[1..][j - 1];
    }
  }

  /** The loops find nothing exactly when no two facts conflict. */
  lemma {:induction false} AllPairsEmpty(facts: seq<Fact>)
    ensures AllPairs(facts) == [] <==> forall i, j :: 0 <= i < j < |facts| ==> !Conflict(facts[i], facts[j])
  {
    hide Conflict;
    if facts != [] {
      var rest := facts[1..];
      AheadEmpty(facts[0], rest);
      AllPairsEmpty(rest);
      assert forall j :: 0 < j < |facts| ==> facts[j] == rest[j - 1];
      if AllPairs(rest) == [] && Ahead(facts[0], rest) == [] {
        forall i, j | 0 <= i < j < |facts| ensures !Conflict(facts[i], facts[j]) {
          if i > 0 { assert !Conflict(rest[i - 1], rest[j - 1]); } else { assert !Conflict(facts[0], rest[j - 1]); }
        }
      } else if Ahead(facts[0], rest) != [] {
        var j :| 0 <= j < |rest| && Conflict(facts[0], rest[j]);
        assert Conflict(facts[0], facts[j + 1]);
      } else {
        var i, j :| 0 <= i < j < |rest| && Conflict(rest[i], rest[j]);
        assert Conflict(facts[i + 1], facts[j + 1]);
      }
    }
  }

  predicate Rising(js: seq<nat>)
  {
    forall k, l :: 0 <= k < l < |js| ==> js[k] < js[l]
  }

  /** `js` are the places of those that the fact contradicts, in their order. */
  predicate ListsAgainst(f: Fact, others: seq<Fact>, js: seq<nat>, found: seq<Contradiction>)
  {
    Rising(js) && |js| == |found|
    && (forall k :: 0 <= k < |js| ==> js[k] < |others| && DetectPairwise(others[js[k]], f) == Some(found[k]))
    && (forall j :: 0 <= j < |others| && Conflict(others[j], f) ==> j in js)
  }

  lemma {:induction false} AgainstSnoc(f: Fact, others: seq<Fact>, last: Fact)
    ensures Against(f, others + [last])
      == Against(f, others) + (match DetectPairwise(last, f) case Some(c) => [c] case None => [])
  {
    hide DetectPairwise;
    if others == [] {
      assert [last][1..] == [] && [] + [last] == [last];
    } else {
      assert (others + [last])[1..] == others[1..] + [last];
      AgainstSnoc(f, others[1..], last);
      Associative(match DetectPairwise(others[0], f) case Some(c) => [c] case None => [], Against(f, others[1..]),
                  match DetectPairwise(last, f) case Some(c) => [c] case None => []);
    }
  }

  /** What is found against a fact: one contradiction with each that conflicts, in their order. */
  lemma {:induction false} AgainstExact(f: Fact, others: seq<Fact>) returns (js: seq<nat>)
    ensures ListsAgainst(f, others, js, Against(f, others))
  {
    hide DetectPairwise;
    if others == [] {
      js := [];
    } else {
      var n, last := |others| - 1, others[|others| - 1];
      js := AgainstExact(f, others[..n]);
      AgainstSnoc(f, others[..n], last);
      assert others == others[..n] + [last];
      hide Against;
      if Conflict(last, f) { js := js + [n]; }
    }
  }

  /** The pairs in order: by the first fact, then by the second. */
  predicate InPairOrder(ps: seq<(nat, nat)>)
  {
    forall k, l :: 0 <= k < l < |ps| ==> ps[k].0 < ps[l].0 || (ps[k].0 == ps[l].0 && ps[k].1 < ps[l].1)
  }

  /** `ps` are the conflicting pairs, in order. */
  predicate ListsPairs(facts: seq<Fact>, ps: seq<(nat, nat)>, found: seq<Contradiction>)
  {
    InPairOrder(ps) && |ps| == |found|
    && (forall k :: 0 <= k < |ps| ==> ps[k].0 < ps[k].1 < |facts| && DetectPairwise(facts[ps[k].0], facts[ps[k].1]) == Some(found[k]))
    && (forall i, j :: 0 <= i < j < |facts| && Conflict(facts[i], facts[j]) ==> (i, j) in ps)
  }

  lemma {:induction false} AheadSnoc(f: Fact, others: seq<Fact>, last: Fact)
    ensures Ahead(f, others + [last])
      == Ahead(f, others) + (match DetectPairwise(f, last) case Some(c) => [c] case None => [])
  {
    hide DetectPairwise;
    if others == [] {
      assert [last][1..] == [] && [] + [last] == [last];
    } else {
      assert (others + [last])[1..] == others[1..] + [last];
      AheadSnoc(f, others[1..], last);
      Associative(match DetectPairwise(f, others[0]) case Some(c) => [c] case None => [], Ahead(f, others[1..]),
                  match DetectPairwise(f, last) case Some(c) => [c] case None => []);
    }
  }

  /** `js` are the places of those that contradict the fact, in their order. */
  predicate ListsAhead(f: Fact, others: seq<Fact>, js: seq<nat>, found: seq<Contradiction>)
  {
    Rising(js) && |js| == |found|
    && (forall k :: 0 <= k < |js| ==> js[k] < |others| && DetectPairwise(f, others[js[k]]) == Some(found[k]))
    && (forall j :: 0 <= j < |others| && Conflict(f, others[j]) ==> j in js)
  }

  lemma {:induction false} AheadExact(f: Fact, others: seq<Fact>) returns (js: seq<nat>)
    ensures ListsAhead(f, others, js, Ahead(f, others))
  {
    hide DetectPairwise;
    if others == [] {
      js := [];
    } else {
      var n, last := |others| - 1, others[|others| - 1];
      js := AheadExact(f, others[..n]);
      AheadSnoc(f, others[..n], last);
      assert others == others[..n] + [last];
      hide Ahead;
      if Conflict(f, last) { js := js + [n]; }
    }
  }

  /** What is found among facts: one contradiction for each conflicting pair, in order. */
  lemma {:induction false} AllPairsExact(facts: seq<Fact>) returns (ps: seq<(nat, nat)>)
    ensures ListsPairs(facts, ps, AllPairs(facts))
  {
    if facts == [] {
      ps := [];
    } else {
      var rest := AllPairsExact(facts[1..]);
      var js := AheadExact(facts[0], facts[1..]);
      ps := HeadPairs(js) + MovedPairs(rest);
      var first, others := Ahead(facts[0], facts[1..]), AllPairs(facts[1..]);
      assert AllPairs(facts) == first + others;
      hide AllPairs, Ahead, Conflict, DetectPairwise;
      JoinedEntries(facts, js, first, rest, others);
      JoinedAll(facts, js, first, rest, others);
    }
  }

  /** Pairs of the first fact with those after it. */
  function HeadPairs(js: seq<nat>): (ps: seq<(nat, nat)>)
    ensures |ps| == |js| && forall k :: 0 <= k < |js| ==> ps[k] == (0, js[k] + 1)
  {
    if js == [] then [] else [(0, js[0] + 1)] + HeadPairs(js[1..])
  }

  /** Pairs of the facts after the first. */
  function MovedPairs(rest: seq<(nat, nat)>): (ps: seq<(nat, nat)>)
    ensures |ps| == |rest| && forall k :: 0 <= k < |rest| ==> ps[k] == (rest[k].0 + 1, rest[k].1 + 1)
  {
    if rest == [] then [] else [(rest[0].0 + 1, rest[0].1 + 1)] + MovedPairs(rest[1..])
  }

  lemma JoinedEntries(facts: seq<Fact>, js: seq<nat>, first: seq<Contradiction>, rest: seq<(nat, nat)>, others: seq<Contradiction>)
    requires facts != [] && ListsAhead(facts[0], facts[1..], js, first) && ListsPairs(facts[1..], rest, others)
    ensures var ps := HeadPairs(js) + MovedPairs(rest); var found := first + others;
      InPairOrder(ps) && |ps| == |found|
      && forall k :: 0 <= k < |ps| ==> ps[k].0 < ps[k].1 < |facts| && DetectPairwise(facts[ps[k].0], facts[ps[k].1]) == Some(found[k])
  {
    hide DetectPairwise, Conflict, HeadPairs, MovedPairs;
    var ps, found := HeadPairs(js) + MovedPairs(rest), first + others;
    forall k | 0 <= k < |ps|
      ensures ps[k].0 < ps[k].1 < |facts| && DetectPairwise(facts[ps[k].0], facts[ps[k].1]) == Some(found[k]) {
      if k < |js| {
        assert facts[1..][js[k]] == facts[js[k] + 1];
      } else {
        var p := rest[k - |js|];
        assert facts[1..][p.0] == facts[p.0 + 1] && facts[1..][p.1] == facts[p.1 + 1];
      }
    }
  }

  lemma JoinedAll(facts: seq<Fact>, js: seq<nat>, first: seq<Contradiction>, rest: seq<(nat, nat)>, others: seq<Contradiction>)
    requires facts != [] && ListsAhead(facts[0], facts[1..], js, first) && ListsPairs(facts[1..], rest, others)
    ensures forall i, j :: 0 <= i < j < |facts| && Conflict(facts[i], facts[j]) ==> (i, j) in HeadPairs(js) + MovedPairs(rest)
  {
    hide *;
    var ps := HeadPairs(js) + MovedPairs(rest);
    forall i, j | 0 <= i < j < |facts| && Conflict(facts[i], facts[j]) ensures (i, j) in ps {
      if i == 0 { HeadJoined(facts, js, first, j); } else { MovedJoined(facts, rest, others, i, j); }
    }
  }

  lemma HeadJoined(facts: seq<Fact>, js: seq<nat>, first: seq<Contradiction>, j: nat)
    requires facts != [] && ListsAhead(facts[0], facts[1..], js, first)
    requires 0 < j < |facts| && Conflict(facts[0], facts[j])
    ensures (0, j) in HeadPairs(js)
  {
    hide DetectPairwise, Conflict, HeadPairs;
    assert facts[j] == facts[1..][j - 1];
    var k :| 0 <= k < |js| && js[k] == j - 1;
    assert HeadPairs(js)[k] == (0, j);
  }

  lemma MovedJoined(facts: seq<Fact>, rest: seq<(nat, nat)>, others: seq<Contradiction>, i: nat, j: nat)
    requires facts != [] && ListsPairs(facts[1..], rest, others)
    requires 0 < i < j < |facts| && Conflict(facts[i], facts[j])
    ensures (i, j) in MovedPairs(rest)
  {
    hide *;
    var tail := facts[1..];
    assert facts[i] == tail[i - 1] && facts[j] == tail[j - 1];
    PairListed(tail, rest, others, i - 1, j - 1);
    var k :| 0 <= k < |rest| && rest[k] == (i - 1, j - 1);
    assert MovedPairs(rest)[k] == (i, j);
  }

  lemma PairListed(facts: seq<Fact>, ps: seq<(nat, nat)>, found: seq<Contradiction>, i: nat, j: nat)
    requires ListsPairs(facts, ps, found) && i < j < |facts| && Conflict(facts[i], facts[j])
    ensures (i, j) in ps
  {
    hide DetectPairwise, Conflict;
  }

  /** The nested loops of `detect_contradictions`. */
  method DetectAmong(facts: seq<Fact>) returns (found: seq<Contradiction>)
    ensures found == AllPairs(facts)
  {
    hide DetectPairwise;
    found := [];
    for i := 0 to |facts|
      invariant found + AllPairs(facts[i..]) == AllPairs(facts)
    {
      ghost var before := found;
      for j := i + 1 to |facts|
        invariant found + Ahead(facts[i], facts[j..]) == before + Ahead(facts[i], facts[i + 1..])
      {
        assert facts[j..][0] == facts[j] && facts[j..][1..] == facts[j + 1..];
        var c := DetectPairwise(facts[i], facts[j]);
        if c.Some? {
          found := found + [c.value];
        }
      }
      assert found + [] == found;
      assert facts[i..][0] == facts[i] && facts[i..][1..] == facts[i + 1..];
      Associative(before, Ahead(facts[i], facts[i + 1..]), AllPairs(facts[i + 1..]));
    }
  }

  // ---- The registry ------------------------------------------------------

  datatype Cardinality = Singleton | MultiValued
  datatype Policy = Allow | Warn | Reject

  class Detector {
    var registry: map<string, Cardinality>
    var policies: map<string, Policy>

    constructor ()
      ensures registry == map[] && policies == map[]
    {
      registry, policies := map[], map[];
    }

    method Register(predicate_: string, cardinality: Cardinality, policy: Policy)
      modifies this
      ensures registry == old(registry)[predicate_ := cardinality]
      ensures policies == old(policies)[predicate_ := policy]
    {
      registry := registry[predicate_ := cardinality];
      policies := policies[predicate_ := policy];
    }

    predicate IsSingleton(predicate_: string)
      reads this
    {
      predicate_ in registry && registry[predicate_] == Singleton
    }

    /** A predicate that was never registered is no singleton, and allows everything. */
    function PolicyFor(predicate_: string): (policy: Policy)
      reads this
      ensures predicate_ !in policies ==> policy.Allow?
    {
      if predicate_ in policies then policies[predicate_] else Allow
    }
  }
}
