/**
 Vocabulary shared by the whole model: optional values and results, splitting of
 text, and the byte-wise order in which ordered maps and sets iterate.

 Text is a sequence of bytes.  A byte is written as the `char` with that code, so
 that literals read as they do in the program; `Utf8.Valid` says which texts are
 Rust strings.
 */
module Prelude {

  datatype Option<+T> = None | Some(value: T)

  datatype Result<+T, +E> = Ok(value: T) | Err(error: E) {
    predicate IsFailure()
    {
      Err?
    }

    function PropagateFailure<U>(): Result<U, E>
      requires Err?
    {
      Err(error)
    }

    function Extract(): T
      requires Ok?
    {
      value
    }
  }

  lemma Associative<T>(a: seq<T>, b: seq<T>, c: seq<T>)
    ensures a + (b + c) == a + b + c
  {
  }

  const U64_LIMIT := 0x1_0000_0000_0000_0000

  // ---- Splitting ---------------------------------------------------------

  /** The pieces of `s` between occurrences of `sep`; always at least one piece. */
  function Split(s: string, sep: char): (parts: seq<string>)
    ensures |parts| >= 1
  {
    if s == [] then [[]]
    else
      var rest := Split(s[1..], sep);
      if s[0] == sep then [[]] + rest
      else [[s[0]] + rest[0]] + rest[1..]
  }

  /** A part free of the separator followed by the separator splits off whole. */
  lemma {:induction false} SplitCons(a: string, sep: char, rest: string)
    requires sep !in a
    ensures Split(a + [sep] + rest, sep) == [a] + Split(rest, sep)
  {
    var s := a + [sep] + rest;
    if a == [] {
      assert s[1..] == rest;
    } else {
      assert s[1..] == a[1..] + [sep] + rest;
      SplitCons(a[1..], sep, rest);
      assert s[0] == a[0];
      assert [a[0]] + a[1..] == a;
    }
  }

  lemma {:induction false} SplitNone(a: string, sep: char)
    requires sep !in a
    ensures Split(a, sep) == [a]
  {
    if a != [] {
      SplitNone(a[1..], sep);
      assert [a[0]] + a[1..] == a;
    }
  }

  // ---- Byte order --------------------------------------------------------

  /** `a` comes strictly before `b` byte by byte, the order of Rust strings. */
  predicate Below(a: string, b: string)
  {
    b != [] && (a == [] || a[0] < b[0] || (a[0] == b[0] && Below(a[1..], b[1..])))
  }

  lemma {:induction false} BelowIrreflexive(a: string)
    ensures !Below(a, a)
  {
    if a != [] { BelowIrreflexive(a[1..]); }
  }

  lemma {:induction false} BelowTransitive(a: string, b: string, c: string)
    requires Below(a, b) && Below(b, c)
    ensures Below(a, c)
  {
    if a != [] && a[0] == b[0] == c[0] { BelowTransitive(a[1..], b[1..], c[1..]); }
  }

  lemma {:induction false} BelowTotal(a: string, b: string)
    ensures a == b || Below(a, b) || Below(b, a)
  {
    if a != [] && b != [] && a[0] == b[0] {
      BelowTotal(a[1..], b[1..]);
      assert a == [a[0]] + a[1..] && b == [b[0]] + b[1..];
    }
  }

  /** On texts of one length the last byte decides only when the rest is equal. */
  lemma {:induction false} BelowSnoc(a: string, x: char, b: string, y: char)
    requires |a| == |b|
    ensures Below(a + [x], b + [y]) <==> Below(a, b) || (a == b && x < y)
    ensures a + [x] == b + [y] <==> a == b && x == y
  {
    var a', b' := a + [x], b + [y];
    assert a'[..|a|] == a && b'[..|a|] == b && a'[|a|] == x && b'[|a|] == y;
    if a == [] {
      assert a'[1..] == [] && b'[1..] == [];
    } else {
      BelowSnoc(a[1..], x, b[1..], y);
      assert a'[1..] == a[1..] + [x] && b'[1..] == b[1..] + [y];
      assert a == [a[0]] + a[1..] && b == [b[0]] + b[1..];
    }
  }

  ghost predicate Ascending(ks: seq<string>)
  {
    forall i, j :: 0 <= i < j < |ks| ==> Below(ks[i], ks[j])
  }

  /** `ks` lists the set `s` in byte order: how a BTreeSet iterates. */
  ghost predicate Lists(ks: seq<string>, s: set<string>)
  {
    Ascending(ks) && (forall k :: k in ks <==> k in s)
  }

  predicate IsLeast(m: string, s: set<string>)
  {
    m in s && forall x :: x in s ==> x == m || Below(m, x)
  }

  lemma {:induction false} LeastExists(s: set<string>) returns (m: string)
    requires s != {}
    ensures IsLeast(m, s)
  {
    hide Below;
    m :| m in s;
    var rest := s - {m};
    assert forall x :: x in s && x != m ==> x in rest;
    if rest != {} {
      var n := LeastExists(rest);
      BelowTotal(m, n);
      if Below(m, n) {
        forall x | x in s && x != m ensures Below(m, x) {
          if x != n { BelowTransitive(m, n, x); }
        }
      } else {
        forall x | x in s && x != n ensures Below(n, x) {
          if x != m { assert x in rest; }
        }
        m := n;
      }
    }
  }

  lemma SomeLeast(s: set<string>)
    requires s != {}
    ensures exists m :: IsLeast(m, s)
  {
    var _ := LeastExists(s);
  }

  ghost function Least(s: set<string>): (m: string)
    requires s != {}
    ensures IsLeast(m, s)
  {
    SomeLeast(s);
    var m :| IsLeast(m, s);
    m
  }

  /** The set in byte order. */
  ghost function Listing(s: set<string>): (ks: seq<string>)
    ensures Lists(ks, s) && |ks| == |s|
    decreases |s|
  {
    if s == {} then []
    else
      var m := Least(s);
      var rest := Listing(s - {m});
      assert forall k :: k in rest ==> Below(m, k);
      [m] + rest
  }

  lemma SomeMember<T>(b: seq<T>)
    ensures b != [] ==> exists x :: x in b
  {
    if b != [] { assert b[0] in b; }
  }

  lemma {:induction false} ListingUnique(a: seq<string>, b: seq<string>, s: set<string>)
    requires Lists(a, s) && Lists(b, s)
    ensures a == b
    decreases |a|
  {
    if a == [] {
      SomeMember(b);
    } else {
      assert a[0] in s;
      assert b != [];
      if a[0] != b[0] {
        assert b[0] in s;
        var i :| 0 <= i < |a| && a[i] == b[0];
        var j :| 0 <= j < |b| && b[j] == a[0];
        assert Below(a[0], b[0]) && Below(b[0], a[0]);
        BelowTransitive(a[0], b[0], a[0]);
        BelowIrreflexive(a[0]);
        assert false;
      }
      TailLists(a, s);
      TailLists(b, s);
      ListingUnique(a[1..], b[1..], s - {a[0]});
      assert a == [a[0]] + a[1..] && b == [b[0]] + b[1..];
    }
  }

  lemma TailLists(a: seq<string>, s: set<string>)
    requires Lists(a, s) && a != []
    ensures Lists(a[1..], s - {a[0]})
  {
    BelowIrreflexive(a[0]);
    forall k ensures k in a[1..] <==> k in s - {a[0]} {
      if k in a[1..] {
        var i :| 1 <= i < |a| && a[i] == k;
        assert Below(a[0], k);
        assert a[i] in s;
      }
      if k in s && k != a[0] {
        assert k in a;
      }
    }
  }

  lemma LeastIsUnique(a: string, b: string, s: set<string>)
    requires IsLeast(a, s) && IsLeast(b, s)
    ensures a == b
  {
    hide Below;
    if a != b {
      BelowTransitive(a, b, a);
      BelowIrreflexive(a);
    }
  }

  lemma NothingListed()
    ensures Listing({}) == []
  {
  }

  lemma ListingStep(rest: set<string>, k: string)
    requires IsLeast(k, rest)
    ensures k in rest && Listing(rest) == [k] + Listing(rest - {k})
  {
    hide Below, Lists;
    LeastIsUnique(k, Least(rest), rest);
  }

  /** A set as its ordered iteration gives it. */
  method InOrder(keys: set<string>) returns (ks: seq<string>)
    ensures ks == Listing(keys)
  {
    hide IsLeast, Listing, Lists;
    var rest := keys;
    ks := [];
    while rest != {}
      invariant ks + Listing(rest) == Listing(keys)
      decreases |rest|
    {
      SomeLeast(rest);
      var k :| IsLeast(k, rest);
      ListingStep(rest, k);
      ks := ks + [k];
      rest := rest - {k};
    }
    assert Listing({}) == [] by { NothingListed(); }
  }
}
