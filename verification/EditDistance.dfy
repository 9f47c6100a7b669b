/**
 The typo test of fuzzy search (crates/core/src/lexical.rs:194-252), on sequences of characters.

 Two words are near when they are equal or one edit apart: a substitution, a transposition of
 neighbours, an insertion or a deletion.  The program decides this with a list of mismatches and a
 greedy walk that may skip once.
 */
module EditDistance {

  /** The words have one length and agree but at `i`. */
  ghost predicate Substituted(a: string, b: string, i: nat)
  {
    i < |a| == |b| && a[i] != b[i] && forall k :: 0 <= k < |a| && k != i ==> a[k] == b[k]
  }

  /** The words agree but for two neighbours, which are swapped. */
  ghost predicate Transposed(a: string, b: string, i: nat)
  {
    i + 1 < |a| == |b| && a[i] == b[i + 1] && a[i + 1] == b[i]
    && forall k :: 0 <= k < |a| && k != i && k != i + 1 ==> a[k] == b[k]
  }

  /** `b` is `a` with one more character at `i`. */
  ghost predicate Inserted(a: string, b: string, i: nat)
  {
    i <= |a| && |b| == |a| + 1
    && (forall k :: 0 <= k < i ==> a[k] == b[k]) && (forall k :: i <= k < |a| ==> a[k] == b[k + 1])
  }

  ghost predicate OneEdit(a: string, b: string)
  {
    (exists i :: Substituted(a, b, i)) || (exists i :: Transposed(a, b, i))
    || (exists i :: Inserted(a, b, i)) || (exists i :: Inserted(b, a, i))
  }

  ghost predicate Near(a: string, b: string)
  {
    a == b || OneEdit(a, b)
  }

  lemma SubstitutedBack(a: string, b: string)
    requires exists i :: Substituted(a, b, i)
    ensures exists i :: Substituted(b, a, i)
  {
    var i :| Substituted(a, b, i);
    assert Substituted(b, a, i);
  }

  lemma TransposedBack(a: string, b: string)
    requires exists i :: Transposed(a, b, i)
    ensures exists i :: Transposed(b, a, i)
  {
    var i :| Transposed(a, b, i);
    assert Transposed(b, a, i);
  }

  /** Being near does not depend on the order of the words. */
  lemma NearSymmetric(a: string, b: string)
    ensures Near(a, b) <==> Near(b, a)
  {
    hide Substituted, Transposed, Inserted;
    if exists i :: Substituted(a, b, i) { SubstitutedBack(a, b); }
    if exists i :: Substituted(b, a, i) { SubstitutedBack(b, a); }
    if exists i :: Transposed(a, b, i) { TransposedBack(a, b); }
    if exists i :: Transposed(b, a, i) { TransposedBack(b, a); }
  }

  // ---- Words of one length -----------------------------------------------

  /** `ms` are the positions before `n` where the words differ, in order. */
  ghost predicate ListsMismatches(a: string, b: string, n: nat, ms: seq<nat>)
    requires |a| == |b| && n <= |a|
  {
    (forall k :: 0 <= k < |ms| ==> ms[k] < n && a[ms[k]] != b[ms[k]])
    && (forall i :: 0 <= i < n && a[i] != b[i] ==> i in ms)
    && (forall j, k :: 0 <= j < k < |ms| ==> ms[j] < ms[k])
  }

  /** What the program makes of the mismatches. */
  predicate AcceptsMismatches(a: string, b: string, ms: seq<nat>)
    requires forall k :: 0 <= k < |ms| ==> ms[k] < |a| && ms[k] < |b|
  {
    |ms| == 1 || (|ms| == 2 && ms[1] == ms[0] + 1 && a[ms[0]] == b[ms[1]] && a[ms[1]] == b[ms[0]])
  }

  lemma OneMismatch(a: string, b: string, ms: seq<nat>)
    requires |a| == |b| && ListsMismatches(a, b, |a|, ms) && |ms| == 1
    ensures Substituted(a, b, ms[0])
  {
    assert forall i :: i in ms ==> i == ms[0];
  }

  lemma LastMismatch(a: string, b: string, n: nat, ms: seq<nat>)
    requires |a| == |b| && 0 < n <= |a| && ListsMismatches(a, b, n, ms) && a[n - 1] != b[n - 1]
    ensures ms != [] && ms[|ms| - 1] == n - 1 && ListsMismatches(a, b, n - 1, ms[..|ms| - 1])
  {
    assert n - 1 in ms;
    var k :| 0 <= k < |ms| && ms[k] == n - 1;
    assert ms[k] <= ms[|ms| - 1];
    var init := ms[..|ms| - 1];
    forall i | 0 <= i < n - 1 && a[i] != b[i] ensures i in init {
      var l :| 0 <= l < |ms| && ms[l] == i;
      assert init[l] == i;
    }
    forall j | 0 <= j < |init| ensures init[j] < n - 1 {
      assert ms[j] < ms[|ms| - 1];
    }
  }

  /** The list of mismatches is unique. */
  lemma {:induction false} MismatchesUnique(a: string, b: string, n: nat, ms: seq<nat>, ns: seq<nat>)
    requires |a| == |b| && n <= |a| && ListsMismatches(a, b, n, ms) && ListsMismatches(a, b, n, ns)
    ensures ms == ns
  {
    if n == 0 {
    } else if a[n - 1] != b[n - 1] {
      LastMismatch(a, b, n, ms);
      LastMismatch(a, b, n, ns);
      hide ListsMismatches;
      MismatchesUnique(a, b, n - 1, ms[..|ms| - 1], ns[..|ns| - 1]);
      assert ms == ms[..|ms| - 1] + [n - 1] && ns == ns[..|ns| - 1] + [n - 1];
    } else {
      MismatchesUnique(a, b, n - 1, ms, ns);
    }
  }

  lemma SubstitutedMismatches(a: string, b: string, ms: seq<nat>, i: nat)
    requires |a| == |b| && ListsMismatches(a, b, |a|, ms) && Substituted(a, b, i)
    ensures |ms| == 1
  {
    MismatchesUnique(a, b, |a|, ms, [i]);
  }

  lemma TwoMismatches(a: string, b: string, ms: seq<nat>)
    requires |a| == |b| && ListsMismatches(a, b, |a|, ms) && |ms| == 2
    requires ms[1] == ms[0] + 1 && a[ms[0]] == b[ms[1]] && a[ms[1]] == b[ms[0]]
    ensures Transposed(a, b, ms[0])
  {
    assert forall i :: i in ms ==> i == ms[0] || i == ms[1];
  }

  lemma TransposedMismatches(a: string, b: string, ms: seq<nat>, i: nat)
    requires |a| == |b| && ListsMismatches(a, b, |a|, ms) && Transposed(a, b, i) && a != b
    ensures ms == [i, i + 1]
  {
    assert a[i] != b[i] && a[i + 1] != b[i + 1];
    MismatchesUnique(a, b, |a|, ms, [i, i + 1]);
  }

  lemma SameLength(a: string, b: string, ms: seq<nat>)
    requires |a| == |b| && a != b && ListsMismatches(a, b, |a|, ms)
    ensures AcceptsMismatches(a, b, ms) <==> Near(a, b)
  {
    if AcceptsMismatches(a, b, ms) {
      if |ms| == 1 { OneMismatch(a, b, ms); } else { TwoMismatches(a, b, ms); }
    }
    if i :| Substituted(a, b, i) {
      SubstitutedMismatches(a, b, ms, i);
    } else if i :| Transposed(a, b, i) {
      TransposedMismatches(a, b, ms, i);
    }
  }

  lemma NoMismatches(a: string, b: string)
    requires |a| == |b|
    ensures ListsMismatches(a, b, 0, [])
  {
  }

  method Mismatches(a: string, b: string) returns (ms: seq<nat>)
    requires |a| == |b|
    ensures ListsMismatches(a, b, |a|, ms)
  {
    hide ListsMismatches;
    ms := [];
    NoMismatches(a, b);
    for i := 0 to |a|
      invariant ListsMismatches(a, b, i, ms)
    {
      MismatchStep(a, b, i, ms);
      if a[i] != b[i] {
        ms := ms + [i];
      }
    }
  }

  // ---- Words whose lengths differ by one ---------------------------------

  /** Where the walk stands: still together, or one ahead since a skip at `q`. */
  ghost predicate Walked(a: string, b: string, i: nat, j: nat, skipped: bool, q: nat)
  {
    i <= |a| && j <= |b| && |b| == |a| + 1
    && (if skipped
        then j == i + 1 && q <= i && q < |a| && a[q] != b[q]
             && (forall k :: 0 <= k < q ==> a[k] == b[k]) && (forall k :: q <= k < i ==> a[k] == b[k + 1])
        else i == j && forall k :: 0 <= k < i ==> a[k] == b[k])
  }

  /** A second mismatch rules every insertion out. */
  lemma SecondMismatch(a: string, b: string, i: nat, q: nat, p: nat)
    requires i < |a| && Walked(a, b, i, i + 1, true, q) && a[i] != b[i + 1]
    ensures !Inserted(a, b, p)
  {
  }

  lemma WalkEnds(a: string, b: string, i: nat, j: nat, skipped: bool, q: nat)
    requires Walked(a, b, i, j, skipped, q) && (i == |a| || j == |b|)
    ensures exists p :: Inserted(a, b, p)
  {
    assert Inserted(a, b, if skipped then q else |a|);
  }

  method WalkWithSkip(shorter: string, longer: string) returns (ok: bool)
    requires |longer| == |shorter| + 1
    ensures ok <==> exists p :: Inserted(shorter, longer, p)
  {
    hide Inserted;
    var i, j, skipped := 0, 0, false;
    ghost var q: nat := 0;
    while i < |shorter| && j < |longer|
      invariant Walked(shorter, longer, i, j, skipped, q)
      decreases |longer| - j
    {
      if shorter[i] == longer[j] {
        i := i + 1;
        j := j + 1;
        continue;
      }
      if skipped {
        forall p: nat ensures !Inserted(shorter, longer, p) { SecondMismatch(shorter, longer, i, q, p); }
        return false;
      }
      skipped := true;
      q := i;
      j := j + 1;
    }
    WalkEnds(shorter, longer, i, j, skipped, q);
    return true;
  }

  /**
   `is_edit_distance_le_one` is true exactly for words that are equal, or one substitution, one
   adjacent transposition, one insertion or one deletion apart.
   */
  method IsEditDistanceLeOne(left: string, right: string) returns (ok: bool)
    ensures ok <==> Near(left, right)
  {
    hide OneEdit;
    if left == right {
      return true;
    }
    if |left| > |right| + 1 || |right| > |left| + 1 {
      LengthsDiffer(left, right);
      return false;
    }
    if |left| == |right| {
      var mismatches := Mismatches(left, right);
      SameLength(left, right, mismatches);
      return AcceptsMismatches(left, right, mismatches);
    }
    OnlyInsertion(left, right);
    if |left| < |right| {
      ok := WalkWithSkip(left, right);
    } else {
      ok := WalkWithSkip(right, left);
    }
  }

  lemma LengthsDiffer(a: string, b: string)
    requires |a| > |b| + 1 || |b| > |a| + 1
    ensures !Near(a, b)
  {
  }

  lemma OnlyInsertion(a: string, b: string)
    requires |a| != |b|
    ensures Near(a, b) <==> (exists i :: Inserted(a, b, i)) || (exists i :: Inserted(b, a, i))
    ensures |a| < |b| ==> !exists i :: Inserted(b, a, i)
    ensures |b| < |a| ==> !exists i :: Inserted(a, b, i)
  {
  }

  lemma MismatchStep(a: string, b: string, i: nat, ms: seq<nat>)
    requires |a| == |b| && i < |a| && ListsMismatches(a, b, i, ms)
    ensures ListsMismatches(a, b, i + 1, if a[i] != b[i] then ms + [i] else ms)
  {
    var longer := ms + [i];
    assert i in longer && forall j :: j in ms ==> j in longer;
  }
}
