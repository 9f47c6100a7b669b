/**
 Paged recall with a confidence threshold, text path (crates/agent-memory/src/agent_memory.rs:
 1125-1143, 1318-1443): windows of the ranking are fetched, doubling or jumping to the budget,
 until enough confident rows are found.

 A search for `n` rows returns the first `n` of one ranking, from which rows that are not currently
 valid are dropped.  The facts are taken not to change between the fetches of one call.
 */
module Recall {
  import opened Prelude
  import FactId
  import Lexical

  datatype Hit = Hit(id: FactId.Id, current: bool, confidence: real)

  predicate DistinctIds(hits: seq<Hit>)
  {
    forall i, j :: 0 <= i < j < |hits| ==> hits[i].id != hits[j].id
  }

  function Min(a: nat, b: nat): nat { if a < b then a else b }

  function Currents(hits: seq<Hit>): (rows: seq<Hit>)
    ensures |rows| <= |hits|
  {
    if hits == [] then [] else (if hits[0].current then [hits[0]] else []) + Currents(hits[1..])
  }

  function Confident(hits: seq<Hit>, least: real): (rows: seq<Hit>)
    ensures |rows| <= |hits|
  {
    if hits == [] then [] else (if hits[0].confidence >= least then [hits[0]] else []) + Confident(hits[1..], least)
  }

  /** One fetch: the first `n` rows of the ranking, without those no longer valid. */
  function Window(ranked: seq<Hit>, n: nat): (rows: seq<Hit>)
    ensures |rows| <= n
  {
    Currents(ranked[..Min(n, |ranked|)])
  }

  /** What the paging is meant to compute: the first confident rows within the budget. */
  function OneShot(ranked: seq<Hit>, limit: nat, budget: nat, least: real): seq<Hit>
  {
    var all := Confident(Window(ranked, budget), least);
    all[..Min(limit, |all|)]
  }

  // ---- The paging --------------------------------------------------------

  /** The next window; after two windows without a confident row, the whole budget. */
  function NextFetch(n: nat, idle: nat, budget: nat): nat
  {
    if idle >= 2 then budget else Min(n * 2, budget)
  }

  /** Whether the window was the last: enough rows, nothing new, the budget, or a short fetch. */
  predicate Stops(ranked: seq<Hit>, before: nat, n: nat, limit: nat, budget: nat, least: real)
  {
    var rows := Window(ranked, n);
    |Confident(rows, least)| >= limit || |rows| == |Window(ranked, before)| || n >= budget || |rows| < n
  }

  /** The idle count after a window: one more when it held no confident row the last did not. */
  function IdleAfter(ranked: seq<Hit>, before: nat, n: nat, idle: nat, least: real): nat
  {
    if |Confident(Window(ranked, n), least)| == |Confident(Window(ranked, before), least)| then idle + 1 else 0
  }

  /** The last window fetched, from window `n` on, when `before` was the one before it. */
  function LastWindow(ranked: seq<Hit>, before: nat, n: nat, idle: nat, limit: nat, budget: nat, least: real): (w: nat)
    requires 0 < n <= budget
    ensures n <= w <= budget
    decreases budget - n
  {
    if Stops(ranked, before, n, limit, budget, least) then n
    else
      var i := IdleAfter(ranked, before, n, idle, least);
      LastWindow(ranked, n, NextFetch(n, i, budget), i, limit, budget, least)
  }

  function Paged(ranked: seq<Hit>, limit: nat, budget: nat, least: real): seq<Hit>
    requires limit > 0 && budget > 0
  {
    OneShot(ranked, limit, LastWindow(ranked, 0, Min(limit, budget), 0, limit, budget, least), least)
  }

  // ---- Windows -----------------------------------------------------------

  lemma {:induction false} CurrentsConcat(a: seq<Hit>, b: seq<Hit>)
    ensures Currents(a + b) == Currents(a) + Currents(b)
  {
    if a == [] {
      assert a + b == b;
    } else {
      assert (a + b)[1..] == a[1..] + b;
      CurrentsConcat(a[1..], b);
      Associative(if a[0].current then [a[0]] else [], Currents(a[1..]), Currents(b));
    }
  }

  lemma {:induction false} ConfidentConcat(a: seq<Hit>, b: seq<Hit>, least: real)
    ensures Confident(a + b, least) == Confident(a, least) + Confident(b, least)
  {
    if a == [] {
      assert a + b == b;
    } else {
      assert (a + b)[1..] == a[1..] + b;
      ConfidentConcat(a[1..], b, least);
      Associative(if a[0].confidence >= least then [a[0]] else [], Confident(a[1..], least), Confident(b, least));
    }
  }

  /** The rows a longer window adds. */
  function Added(ranked: seq<Hit>, m: nat, n: nat): seq<Hit>
    requires m <= n
  {
    Currents(ranked[Min(m, |ranked|)..Min(n, |ranked|)])
  }

  /** A longer window begins with the shorter one. */
  lemma WindowGrows(ranked: seq<Hit>, m: nat, n: nat, least: real)
    requires m <= n
    ensures Window(ranked, n) == Window(ranked, m) + Added(ranked, m, n)
    ensures Confident(Window(ranked, n), least) == Confident(Window(ranked, m), least) + Confident(Added(ranked, m, n), least)
  {
    var i, j := Min(m, |ranked|), Min(n, |ranked|);
    assert ranked[..j] == ranked[..i] + ranked[i..j];
    CurrentsConcat(ranked[..i], ranked[i..j]);
    ConfidentConcat(Window(ranked, m), Added(ranked, m, n), least);
  }

  lemma WindowBegins(ranked: seq<Hit>, m: nat, n: nat)
    requires m <= n
    ensures |Window(ranked, m)| <= |Window(ranked, n)| && Window(ranked, n)[..|Window(ranked, m)|] == Window(ranked, m)
  {
    WindowGrows(ranked, m, n, 0.0);
    hide Window, Added, Confident;
  }

  // ---- What the one-shot search returns ----------------------------------

  predicate Chosen(h: Hit, least: real)
  {
    h.current && h.confidence >= least
  }

  predicate Rising(ps: seq<nat>)
  {
    forall j, k :: 0 <= j < k < |ps| ==> ps[j] < ps[k]
  }

  /** `rows` stand at the places `ps` of the ranking, and those are all the chosen places. */
  predicate PicksAll(hits: seq<Hit>, least: real, ps: seq<nat>, rows: seq<Hit>)
  {
    Rising(ps) && |ps| == |rows|
    && (forall k :: 0 <= k < |ps| ==> ps[k] < |hits| && rows[k] == hits[ps[k]])
    && (forall i :: 0 <= i < |hits| ==> (i in ps <==> Chosen(hits[i], least)))
  }

  lemma {:induction false} AllPicked(hits: seq<Hit>, least: real) returns (ps: seq<nat>)
    ensures PicksAll(hits, least, ps, Confident(Currents(hits), least))
  {
    if hits == [] {
      ps := [];
    } else {
      var n, last := |hits| - 1, hits[|hits| - 1];
      ps := AllPicked(hits[..n], least);
      assert hits == hits[..n] + [last];
      CurrentsConcat(hits[..n], [last]);
      ConfidentConcat(Currents(hits[..n]), Currents([last]), least);
      LastChosen(last, least);
      hide Currents, Confident;
      if Chosen(last, least) { ps := ps + [n]; }
    }
  }

  lemma LastChosen(h: Hit, least: real)
    ensures Confident(Currents([h]), least) == if Chosen(h, least) then [h] else []
  {
    assert [h][1..] == [];
    if h.current { assert Currents([h]) == [h]; }
  }

  /**
   The one-shot search returns the hits within the budget that are current and confident enough,
   in rank order, the first `limit` of them and none skipped.
   */
  lemma OneShotPicks(ranked: seq<Hit>, limit: nat, budget: nat, least: real) returns (ps: seq<nat>)
    ensures var rows := OneShot(ranked, limit, budget, least);
      Rising(ps) && |ps| == |rows| <= limit
      && (forall k :: 0 <= k < |ps| ==> ps[k] < |ranked| && ps[k] < budget && rows[k] == ranked[ps[k]])
      && (forall k :: 0 <= k < |ps| ==> rows[k].current && rows[k].confidence >= least)
    ensures forall i :: 0 <= i < |ranked| && i < budget && ranked[i].current && ranked[i].confidence >= least && i !in ps ==>
      |ps| == limit && forall k :: 0 <= k < |ps| ==> ps[k] < i
  {
    var head := ranked[..Min(budget, |ranked|)];
    assert forall i :: 0 <= i < |head| ==> head[i] == ranked[i];
    var all := AllPicked(head, least);
    hide Currents, Confident;
    ps := all[..Min(limit, |all|)];
    forall k | 0 <= k < |ps| ensures ranked[ps[k]].current && ranked[ps[k]].confidence >= least { assert ps[k] == all[k] && all[k] in all; }
    forall i | 0 <= i < |head| && Chosen(head[i], least) && i !in ps
      ensures |ps| == limit && forall k :: 0 <= k < |ps| ==> ps[k] < i {
      assert i in all;
      var j :| 0 <= j < |all| && all[j] == i;
      assert j >= |ps|;
    }
  }

  // ---- Where the paging stops --------------------------------------------

  /** The windows fetched up to the budget when nothing stops the paging earlier. */
  function Schedule(ranked: seq<Hit>, before: nat, n: nat, idle: nat, budget: nat, least: real): (windows: seq<nat>)
    requires 0 < n <= budget
    ensures windows != [] && windows[0] == n && windows[|windows| - 1] == budget && forall w :: w in windows ==> w <= budget
    decreases budget - n
  {
    if n >= budget then [n]
    else
      var i := IdleAfter(ranked, before, n, idle, least);
      [n] + Schedule(ranked, n, NextFetch(n, i, budget), i, budget, least)
  }

  function Windows(ranked: seq<Hit>, limit: nat, budget: nat, least: real): (windows: seq<nat>)
    requires limit > 0 && budget > 0
    ensures windows != [] && windows[|windows| - 1] == budget && forall w :: w in windows ==> w <= budget
  {
    Schedule(ranked, 0, Min(limit, budget), 0, budget, least)
  }

  predicate Increasing(windows: seq<nat>)
  {
    forall j, k :: 0 <= j < k < |windows| ==> windows[j] < windows[k]
  }

  /** Whether window `k` adds no confident row to the one before it. */
  predicate AddsNothing(ranked: seq<Hit>, before: nat, windows: seq<nat>, k: nat, least: real)
    requires k < |windows|
  {
    |Confident(Window(ranked, windows[k]), least)|
    == |Confident(Window(ranked, if k == 0 then before else windows[k - 1]), least)|
  }

  /** Two windows in a row that add nothing, `idle` of them having passed at the start. */
  predicate TwiceNothing(ranked: seq<Hit>, before: nat, windows: seq<nat>, k: nat, idle: nat, least: real)
    requires k < |windows|
  {
    AddsNothing(ranked, before, windows, k, least)
    && (if k == 0 then idle >= 1 else AddsNothing(ranked, before, windows, k - 1, least))
  }

  /** Each window is twice the one before, within the budget, or the whole budget after two that add nothing. */
  predicate Doubling(ranked: seq<Hit>, before: nat, windows: seq<nat>, idle: nat, budget: nat, least: real)
  {
    forall k :: 0 <= k < |windows| - 1 ==> windows[k + 1] == Following(ranked, before, windows, k, idle, budget, least)
  }

  function Following(ranked: seq<Hit>, before: nat, windows: seq<nat>, k: nat, idle: nat, budget: nat, least: real): nat
    requires k < |windows|
  {
    if TwiceNothing(ranked, before, windows, k, idle, least) then budget else Min(windows[k] * 2, budget)
  }

  lemma {:induction false} ScheduleSteps(ranked: seq<Hit>, before: nat, n: nat, idle: nat, budget: nat, least: real)
    requires 0 < n <= budget && (idle < 2 || n == budget)
    ensures var windows := Schedule(ranked, before, n, idle, budget, least);
      Increasing(windows) && Doubling(ranked, before, windows, idle, budget, least)
    decreases budget - n
  {
    hide Window, Confident;
    if n < budget {
      var i := IdleAfter(ranked, before, n, idle, least);
      var next := NextFetch(n, i, budget);
      ScheduleSteps(ranked, n, next, i, budget, least);
      var rest := Schedule(ranked, n, next, i, budget, least);
      var windows := Schedule(ranked, before, n, idle, budget, least);
      assert windows == [n] + rest;
      assert forall k :: 0 < k < |windows| ==> windows[k] == rest[k - 1];
      forall k | 0 <= k < |windows| - 1
        ensures windows[k + 1] == Following(ranked, before, windows, k, idle, budget, least) {
        if k > 0 {
          assert AddsNothing(ranked, before, windows, k, least) <==> AddsNothing(ranked, n, rest, k - 1, least);
          assert rest[k] == Following(ranked, n, rest, k - 1, i, budget, least);
        }
      }
    }
  }

  /**
   The schedule of windows: the limit first, then twice as much each time, and the whole budget
   after two windows in a row that add no confident current row; it ends at the budget.
   */
  lemma WindowsDouble(ranked: seq<Hit>, limit: nat, budget: nat, least: real)
    requires limit > 0 && budget > 0
    ensures var windows := Windows(ranked, limit, budget, least);
      Increasing(windows) && windows[0] == Min(limit, budget) && windows[|windows| - 1] == budget
      && Doubling(ranked, 0, windows, 0, budget, least)
  {
    ScheduleSteps(ranked, 0, Min(limit, budget), 0, budget, least);
  }

  /** A hit among the first `n` that is no longer valid. */
  predicate CoversStale(ranked: seq<Hit>, n: nat)
  {
    exists i :: 0 <= i < Min(n, |ranked|) && !ranked[i].current
  }

  predicate Enough(ranked: seq<Hit>, n: nat, limit: nat, least: real)
  {
    |Confident(Window(ranked, n), least)| >= limit
  }

  /** A window that ends the paging: enough rows, a hit no longer valid, the budget, or the whole ranking. */
  predicate Ends(ranked: seq<Hit>, n: nat, limit: nat, budget: nat, least: real)
  {
    Enough(ranked, n, limit, least) || CoversStale(ranked, n) || n >= budget || n > |ranked|
  }

  /** The first window that ends the paging. */
  function FirstEnding(ranked: seq<Hit>, windows: seq<nat>, limit: nat, budget: nat, least: real): (w: nat)
    requires windows != []
    ensures w in windows
  {
    if |windows| == 1 || Ends(ranked, windows[0], limit, budget, least) then windows[0]
    else FirstEnding(ranked, windows[1..], limit, budget, least)
  }

  lemma {:induction false} StaleShortens(hits: seq<Hit>)
    ensures |Currents(hits)| == |hits| <==> forall i :: 0 <= i < |hits| ==> hits[i].current
  {
    if hits != [] {
      StaleShortens(hits[1..]);
      assert forall i :: 0 <= i < |hits[1..]| ==> hits[1..][i] == hits[i + 1];
    }
  }

  /** What the loop tests comes down to the ranking. */
  lemma StopsAtEnds(ranked: seq<Hit>, before: nat, n: nat, limit: nat, budget: nat, least: real)
    requires before < n <= budget
    ensures Stops(ranked, before, n, limit, budget, least) <==> Ends(ranked, n, limit, budget, least)
  {
    var head := ranked[..Min(n, |ranked|)];
    assert forall i :: 0 <= i < |head| ==> head[i] == ranked[i];
    StaleShortens(head);
    hide Confident, Currents;
  }

  /** The paging stops at the first scheduled window that ends it. */
  lemma {:induction false} LastIsFirstEnding(ranked: seq<Hit>, before: nat, n: nat, idle: nat, limit: nat, budget: nat, least: real)
    requires before < n <= budget
    ensures LastWindow(ranked, before, n, idle, limit, budget, least)
      == FirstEnding(ranked, Schedule(ranked, before, n, idle, budget, least), limit, budget, least)
    decreases budget - n
  {
    StopsAtEnds(ranked, before, n, limit, budget, least);
    var i := IdleAfter(ranked, before, n, idle, least);
    hide Stops, Enough, CoversStale, IdleAfter;
    var windows := Schedule(ranked, before, n, idle, budget, least);
    if n < budget && !Ends(ranked, n, limit, budget, least) {
      LastIsFirstEnding(ranked, n, NextFetch(n, i, budget), i, limit, budget, least);
      assert windows[1..] == Schedule(ranked, n, NextFetch(n, i, budget), i, budget, least);
    }
  }

  /** Paging is the one-shot search of the first scheduled window that ends it. */
  lemma PagingStops(ranked: seq<Hit>, limit: nat, budget: nat, least: real)
    requires limit > 0 && budget > 0
    ensures Paged(ranked, limit, budget, least)
      == OneShot(ranked, limit, FirstEnding(ranked, Windows(ranked, limit, budget, least), limit, budget, least), least)
  {
    hide OneShot, LastWindow, Schedule;
    LastIsFirstEnding(ranked, 0, Min(limit, budget), 0, limit, budget, least);
  }

  /** Where the first hit stands that is no longer valid; the length of the ranking if there is none. */
  function FirstStale(ranked: seq<Hit>): (i: nat)
    ensures i <= |ranked| && (forall j :: 0 <= j < i ==> ranked[j].current) && (i < |ranked| ==> !ranked[i].current)
  {
    if ranked == [] || !ranked[0].current then 0 else 1 + FirstStale(ranked[1..])
  }

  /** The first window that covers place `i`. */
  function FirstCovering(windows: seq<nat>, i: nat): (w: nat)
    requires windows != [] && windows[|windows| - 1] > i
    ensures w in windows && w > i
  {
    if windows[0] > i then windows[0] else FirstCovering(windows[1..], i)
  }

  /**
   A stale hit cuts the answer short: the first window that covers one holds too few confident
   current rows, and beyond it within the budget there are more.
   */
  predicate CutShort(ranked: seq<Hit>, limit: nat, budget: nat, least: real)
    requires limit > 0 && budget > 0
  {
    var i := FirstStale(ranked);
    i < Min(budget, |ranked|)
    && var w := FirstCovering(Windows(ranked, limit, budget, least), i);
       !Enough(ranked, w, limit, least) && Confident(Added(ranked, w, budget), least) != []
  }

  /** A shorter window gives the whole answer exactly when it has enough or misses nothing. */
  lemma WindowSuffices(ranked: seq<Hit>, limit: nat, w: nat, budget: nat, least: real)
    requires limit > 0 && w <= budget
    ensures OneShot(ranked, limit, w, least) == OneShot(ranked, limit, budget, least)
      <==> Enough(ranked, w, limit, least) || Confident(Added(ranked, w, budget), least) == []
  {
    WindowGrows(ranked, w, budget, least);
    hide Window, Confident, Added;
    Truncating(Confident(Window(ranked, w), least), Confident(Added(ranked, w, budget), least), limit);
  }

  lemma Truncating(found: seq<Hit>, more: seq<Hit>, limit: nat)
    requires limit > 0
    ensures var all := found + more;
      found[..Min(limit, |found|)] == all[..Min(limit, |all|)] <==> |found| >= limit || more == []
  {
    var all := found + more;
    if |found| >= limit { assert all[..limit] == found[..limit]; }
    if more == [] { assert all == found; }
  }

  lemma EnoughStays(ranked: seq<Hit>, m: nat, n: nat, limit: nat, least: real)
    requires m <= n && Enough(ranked, m, limit, least)
    ensures Enough(ranked, n, limit, least)
  {
    WindowGrows(ranked, m, n, least);
    hide Window, Confident, Added;
  }

  /** The paging stops where the first stale hit is covered, or earlier with enough. */
  lemma {:induction false} EndsByStale(ranked: seq<Hit>, windows: seq<nat>, limit: nat, budget: nat, least: real)
    requires windows != [] && Increasing(windows) && windows[|windows| - 1] == budget
    requires FirstStale(ranked) < Min(budget, |ranked|)
    ensures var w := FirstEnding(ranked, windows, limit, budget, least); var c := FirstCovering(windows, FirstStale(ranked));
      w <= c <= budget && (w == c || Enough(ranked, w, limit, least))
    decreases |windows|
  {
    var i, n := FirstStale(ranked), windows[0];
    hide Enough;
    assert n <= budget;
    if n > i {
      assert CoversStale(ranked, n);
    } else if !Ends(ranked, n, limit, budget, least) {
      assert |windows| > 1;
      var rest := windows[1..];
      assert forall k :: 0 <= k < |rest| ==> rest[k] == windows[k + 1];
      EndsByStale(ranked, rest, limit, budget, least);
    } else {
      assert |windows| > 1;
      assert !CoversStale(ranked, n);
      assert FirstCovering(windows, i) in windows;
      FirstCoveringBelow(windows, i, budget);
    }
  }

  lemma FirstCoveringBelow(windows: seq<nat>, i: nat, budget: nat)
    requires windows != [] && Increasing(windows) && windows[|windows| - 1] == budget > i
    ensures FirstCovering(windows, i) <= budget
  {
    var w := FirstCovering(windows, i);
    var k :| 0 <= k < |windows| && windows[k] == w;
    if k < |windows| - 1 { assert windows[k] < windows[|windows| - 1]; }
  }

  /** Without a stale hit the paging stops only where nothing is missed. */
  lemma EndsComplete(ranked: seq<Hit>, windows: seq<nat>, limit: nat, budget: nat, least: real)
    requires windows != [] && windows[|windows| - 1] == budget && Increasing(windows)
    requires FirstStale(ranked) >= Min(budget, |ranked|)
    ensures var w := FirstEnding(ranked, windows, limit, budget, least);
      w <= budget && (Enough(ranked, w, limit, least) || Confident(Added(ranked, w, budget), least) == [])
  {
    hide Enough;
    var w := FirstEnding(ranked, windows, limit, budget, least);
    FirstEndingEnds(ranked, windows, limit, budget, least);
    var k :| 0 <= k < |windows| && windows[k] == w;
    assert k < |windows| - 1 ==> windows[k] < windows[|windows| - 1];
    if !Enough(ranked, w, limit, least) {
      assert Min(w, |ranked|) == Min(budget, |ranked|);
    }
  }

  lemma {:induction false} FirstEndingEnds(ranked: seq<Hit>, windows: seq<nat>, limit: nat, budget: nat, least: real)
    requires windows != [] && windows[|windows| - 1] == budget
    ensures Ends(ranked, FirstEnding(ranked, windows, limit, budget, least), limit, budget, least)
    decreases |windows|
  {
    hide Enough, CoversStale;
    if |windows| > 1 && !Ends(ranked, windows[0], limit, budget, least) {
      FirstEndingEnds(ranked, windows[1..], limit, budget, least);
    }
  }

  /** Paging equals its one-shot meaning exactly when no stale hit cuts it short. */
  lemma PagingIsExact(ranked: seq<Hit>, limit: nat, budget: nat, least: real)
    requires limit > 0 && budget > 0
    ensures Paged(ranked, limit, budget, least) == OneShot(ranked, limit, budget, least)
      <==> !CutShort(ranked, limit, budget, least)
  {
    PagingStops(ranked, limit, budget, least);
    EndingSuffices(ranked, limit, budget, least);
    hide *;
  }

  lemma EndingSuffices(ranked: seq<Hit>, limit: nat, budget: nat, least: real)
    requires limit > 0 && budget > 0
    ensures var w := FirstEnding(ranked, Windows(ranked, limit, budget, least), limit, budget, least);
      OneShot(ranked, limit, w, least) == OneShot(ranked, limit, budget, least) <==> !CutShort(ranked, limit, budget, least)
  {
    var windows := Windows(ranked, limit, budget, least);
    var w := FirstEnding(ranked, windows, limit, budget, least);
    WindowsDouble(ranked, limit, budget, least);
    hide OneShot, Windows, Added, Confident, Enough, FirstEnding, FirstCovering, Window, Increasing, Doubling;
    if FirstStale(ranked) < Min(budget, |ranked|) {
      var c := FirstCovering(windows, FirstStale(ranked));
      EndsByStale(ranked, windows, limit, budget, least);
      hide Ends, CoversStale;
      WindowSuffices(ranked, limit, w, budget, least);
      if w != c { EnoughStays(ranked, w, c, limit, least); }
    } else {
      EndsComplete(ranked, windows, limit, budget, least);
      WindowSuffices(ranked, limit, w, budget, least);
    }
  }

  /**
   In particular when every hit within the budget is currently valid: the first `limit` confident
   rows of the first `budget` ranked rows, in rank order.
   */
  lemma PagingIsOneShot(ranked: seq<Hit>, limit: nat, budget: nat, least: real)
    requires limit > 0 && budget > 0
    requires forall i :: 0 <= i < Min(budget, |ranked|) ==> ranked[i].current
    ensures Paged(ranked, limit, budget, least) == OneShot(ranked, limit, budget, least)
  {
    PagingIsExact(ranked, limit, budget, least);
  }

  /**
   A stale best hit makes a search for one row return none, which is right only when no row
   within the budget is current and confident.
   */
  lemma StaleHitHidesTheRest(ranked: seq<Hit>, budget: nat, least: real)
    requires ranked != [] && budget > 0 && !ranked[0].current
    ensures Paged(ranked, 1, budget, least) == []
    ensures OneShot(ranked, 1, budget, least) == [] <==> Confident(Window(ranked, budget), least) == []
  {
    assert ranked[..1] == [ranked[0]] && ranked[..1][1..] == [];
    assert Window(ranked, 1) == [];
  }

  /** A ranking on which it is wrong. */
  lemma StaleHitHidesOne(a: Hit, b: Hit, least: real)
    requires !a.current && b.current && b.confidence >= least
    ensures Paged([a, b], 1, 2, least) == [] && OneShot([a, b], 1, 2, least) == [b]
    ensures CutShort([a, b], 1, 2, least)
  {
    StaleHitHidesTheRest([a, b], 2, least);
    PagingIsExact([a, b], 1, 2, least);
    hide CutShort, Paged;
    assert [a, b][..2] == [a, b] && [a, b][1..] == [b] && [b][1..] == [];
    assert Currents([b]) == [b];
    assert Confident([b], least) == [b];
  }

  // ---- The loop ----------------------------------------------------------

  datatype RecallError = NoBudget

  function IdsOf(hits: seq<Hit>): set<FactId.Id>
  {
    set h | h in hits :: h.id
  }

  lemma {:induction false} CurrentsDistinct(hits: seq<Hit>)
    requires DistinctIds(hits)
    ensures DistinctIds(Currents(hits)) && forall h :: h in Currents(hits) ==> h in hits
  {
    if hits != [] {
      var rest := hits[1..];
      assert forall i :: 0 <= i < |rest| ==> rest[i] == hits[i + 1];
      CurrentsDistinct(rest);
      var kept := Currents(rest);
      forall i | 0 <= i < |kept| ensures kept[i].id != hits[0].id {
        assert kept[i] in rest;
        var j :| 0 <= j < |rest| && rest[j] == kept[i];
      }
    }
  }

  // ---- The search behind the windows -------------------------------------

  /** What the store knows of a fact that a search returns. */
  datatype Known = Known(current: bool, confidence: real)

  /** The documents are of stored facts, each once. */
  predicate DocumentsOf(docs: seq<Lexical.Document>, facts: map<FactId.Id, Known>)
  {
    Lexical.DistinctIds(docs) && forall i :: 0 <= i < |docs| ==> docs[i].id in facts
  }

  /** Rows of a search with their facts; `search_scored` skips a row without one. */
  function WithFacts(rows: seq<Lexical.Hit>, facts: map<FactId.Id, Known>): (hits: seq<Hit>)
    ensures |hits| <= |rows|
  {
    if rows == [] then []
    else
      var last := rows[|rows| - 1];
      WithFacts(rows[..|rows| - 1], facts)
      + (if last.id in facts then [Hit(last.id, facts[last.id].current, facts[last.id].confidence)] else [])
  }

  /** The ranking within the budget. */
  ghost function RankedHits(ln: real -> real, docs: seq<Lexical.Document>, terms: seq<string>, facts: map<FactId.Id, Known>,
      budget: nat): seq<Hit>
    requires Lexical.DistinctIds(docs)
  {
    WithFacts(Lexical.Answer(ln, docs, terms, budget), facts)
  }

  lemma {:induction false} WithFactsAt(rows: seq<Lexical.Hit>, facts: map<FactId.Id, Known>)
    requires forall j :: 0 <= j < |rows| ==> rows[j].id in facts
    ensures |WithFacts(rows, facts)| == |rows|
    ensures forall j :: 0 <= j < |rows| ==>
      WithFacts(rows, facts)[j] == Hit(rows[j].id, facts[rows[j].id].current, facts[rows[j].id].confidence)
  {
    if rows != [] { WithFactsAt(rows[..|rows| - 1], facts); }
  }

  lemma {:induction false} WithFactsOfFirst(rows: seq<Lexical.Hit>, facts: map<FactId.Id, Known>, n: nat)
    requires n <= |rows| && forall j :: 0 <= j < |rows| ==> rows[j].id in facts
    ensures |WithFacts(rows, facts)| == |rows| && WithFacts(rows[..n], facts) == WithFacts(rows, facts)[..n]
  {
    WithFactsAt(rows, facts);
    if n < |rows| {
      var init := rows[..|rows| - 1];
      WithFactsOfFirst(init, facts, n);
      assert init[..n] == rows[..n];
    } else {
      assert rows[..n] == rows;
    }
  }

  /** A search for `n` rows is the window of `n` rows of the one ranking. */
  lemma FetchIsWindow(ln: real -> real, docs: seq<Lexical.Document>, terms: seq<string>, facts: map<FactId.Id, Known>,
      n: nat, budget: nat)
    requires DocumentsOf(docs, facts) && 0 < n <= budget
    ensures Currents(WithFacts(Lexical.Answer(ln, docs, terms, n), facts))
      == Window(RankedHits(ln, docs, terms, facts, budget), n)
    ensures DistinctIds(RankedHits(ln, docs, terms, facts, budget))
  {
    var all := Lexical.Answer(ln, docs, terms, budget);
    Lexical.SearchIsPrefix(ln, docs, terms, n, budget);
    Lexical.AnswerRows(ln, docs, terms, budget);
    hide Lexical.Answer, Currents;
    forall j | 0 <= j < |all| ensures all[j].id in facts {
      assert all[j].id in Lexical.DocumentIds(docs);
    }
    WithFactsAt(all, facts);
    WithFactsOfFirst(all, facts, Min(n, |all|));
    hide WithFacts;
    assert all[..|all|] == all;
  }

  lemma WindowDistinct(ranked: seq<Hit>, n: nat)
    requires DistinctIds(ranked)
    ensures DistinctIds(Window(ranked, n))
  {
    CurrentsDistinct(ranked[..Min(n, |ranked|)]);
  }

  lemma ConfidentStep(rows: seq<Hit>, i: nat, least: real)
    requires i < |rows|
    ensures Confident(rows[..i + 1], least)
      == Confident(rows[..i], least) + (if rows[i].confidence >= least then [rows[i]] else [])
    ensures Confident(rows, least) == Confident(rows[..i + 1], least) + Confident(rows[i + 1..], least)
  {
    assert rows[..i + 1] == rows[..i] + [rows[i]];
    ConfidentConcat(rows[..i], [rows[i]], least);
    assert rows == rows[..i + 1] + rows[i + 1..];
    ConfidentConcat(rows[..i + 1], rows[i + 1..], least);
  }

  /** When the rows before `n`, or all before row `i` if there are more, were seen: what row `i` does. */
  lemma SeenBefore(rows: seq<Hit>, n: nat, i: nat, seen: set<FactId.Id>)
    requires DistinctIds(rows) && n <= |rows| && i < |rows|
    requires seen == IdsOf(rows[..if i < n then n else i])
    ensures rows[i].id in seen <==> i < n
    ensures i >= n ==> seen + {rows[i].id} == IdsOf(rows[..i + 1])
  {
    var m := if i < n then n else i;
    assert forall j :: 0 <= j < m ==> rows[..m][j] == rows[j];
    if i < n {
      assert rows[..n][i] in rows[..n];
    } else {
      assert rows[..i + 1] == rows[..i] + [rows[i]];
      assert forall h :: h in rows[..i + 1] <==> h in rows[..i] || h == rows[i];
      forall h | h in rows[..i] ensures h.id != rows[i].id {
        var j :| 0 <= j < i && rows[..i][j] == h;
        assert rows[j] == h;
      }
    }
  }

  lemma NothingSeen(ranked: seq<Hit>, least: real)
    ensures Window(ranked, 0) == [] && Confident([], least) == [] && IdsOf([]) == {}
  {
  }

  lemma PagedIsLast(ranked: seq<Hit>, limit: nat, budget: nat, least: real)
    requires limit > 0 && budget > 0
    ensures Paged(ranked, limit, budget, least)
      == OneShot(ranked, limit, LastWindow(ranked, 0, Min(limit, budget), 0, limit, budget, least), least)
  {
  }

  /** One turn of the loop that found too little: whether it was the last, and else what comes next. */
  lemma LastWindowStep(ranked: seq<Hit>, before: nat, n: nat, idle: nat, limit: nat, budget: nat, least: real,
      newlySeen: nat, newlyConfident: nat)
    requires 0 < n <= budget && |Confident(Window(ranked, n), least)| < limit
    requires |Window(ranked, n)| == |Window(ranked, before)| + newlySeen
    requires |Confident(Window(ranked, n), least)| == |Confident(Window(ranked, before), least)| + newlyConfident
    ensures var i := if newlyConfident == 0 then idle + 1 else 0;
      LastWindow(ranked, before, n, idle, limit, budget, least)
      == if newlySeen == 0 || n >= budget || |Window(ranked, n)| < n then n
         else LastWindow(ranked, n, NextFetch(n, i, budget), i, limit, budget, least)
  {
    hide Window, Confident;
  }

  lemma LastWindowFull(ranked: seq<Hit>, before: nat, n: nat, idle: nat, limit: nat, budget: nat, least: real)
    requires 0 < n <= budget && |Confident(Window(ranked, n), least)| >= limit
    ensures LastWindow(ranked, before, n, idle, limit, budget, least) == n
  {
    hide Window, Confident;
  }

  /** An empty window is the last, and nothing was found before it. */
  lemma LastWindowEmpty(ranked: seq<Hit>, before: nat, n: nat, idle: nat, limit: nat, budget: nat, least: real)
    requires before < n <= budget && Window(ranked, n) == [] && limit > 0
    ensures LastWindow(ranked, before, n, idle, limit, budget, least) == n
    ensures Confident(Window(ranked, before), least) == [] && OneShot(ranked, limit, n, least) == []
  {
    WindowBegins(ranked, before, n);
    hide Window;
    assert Window(ranked, before) == [];
  }

  /** What is found so far is the answer when a window stops the paging. */
  lemma FoundIsAnswer(ranked: seq<Hit>, n: nat, limit: nat, least: real, filtered: seq<Hit>)
    requires filtered == Confident(Window(ranked, n), least) && |filtered| < limit
    ensures OneShot(ranked, limit, n, least) == filtered
  {
    hide Confident, Window;
    assert filtered[..|filtered|] == filtered;
  }

  lemma EnoughFound(ranked: seq<Hit>, n: nat, limit: nat, least: real, filtered: seq<Hit>)
    requires |filtered| == limit && filtered <= Confident(Window(ranked, n), least)
    ensures OneShot(ranked, limit, n, least) == filtered && |Confident(Window(ranked, n), least)| >= limit
  {
    hide Confident, Window;
  }

  /**
   The pass over one window, of which the first `n` rows were seen in the window before: new
   confident rows are kept until there are enough.
   */
  method Sift(scored: seq<Hit>, ghost n: nat, limit: nat, least: real, seen0: set<FactId.Id>, filtered0: seq<Hit>)
    returns (seen: set<FactId.Id>, filtered: seq<Hit>, newlySeen: nat, newlyConfident: nat, full: bool)
    requires DistinctIds(scored) && n <= |scored| && seen0 == IdsOf(scored[..n])
    requires filtered0 == Confident(scored[..n], least) && |filtered0| < limit
    ensures full ==> |filtered| == limit && filtered <= Confident(scored, least)
    ensures !full ==> filtered == Confident(scored, least) && |filtered| < limit && seen == IdsOf(scored)
    ensures !full ==> newlySeen == |scored| - n && newlyConfident == |filtered| - |filtered0|
  {
    hide Confident, IdsOf, DistinctIds;
    seen, filtered, newlySeen, newlyConfident, full := seen0, filtered0, 0, 0, false;
    for i := 0 to |scored|
      invariant seen == IdsOf(scored[..if i < n then n else i])
      invariant filtered == Confident(scored[..if i < n then n else i], least) && |filtered| < limit
      invariant newlySeen == if i < n then 0 else i - n
      invariant newlyConfident == |filtered| - |filtered0|
    {
      SeenBefore(scored, n, i, seen);
      if scored[i].id in seen {
        continue;
      }
      ConfidentStep(scored, i, least);
      seen := seen + {scored[i].id};
      newlySeen := newlySeen + 1;
      if scored[i].confidence >= least {
        filtered := filtered + [scored[i]];
        newlyConfident := newlyConfident + 1;
        if |filtered| >= limit {
          full := true;
          return;
        }
      }
    }
    assert scored[..|scored|] == scored;
  }

  /** One fetch: a search for `n` rows over an index of all documents, without facts no longer valid. */
  method Fetch(ln: real -> real, docs: seq<Lexical.Document>, terms: seq<string>, facts: map<FactId.Id, Known>, n: nat)
    returns (scored: seq<Hit>)
    requires DocumentsOf(docs, facts) && Lexical.LogLike(ln)
    ensures scored == Currents(WithFacts(Lexical.Answer(ln, docs, terms, n), facts))
  {
    hide Lexical.LogLike, Lexical.Answer;
    var index := new Lexical.LexicalIndex();
    index.Build(docs);
    var rows := index.Search(ln, docs, terms, n);
    scored := [];
    for i := 0 to |rows|
      invariant scored == Currents(WithFacts(rows[..i], facts))
    {
      FetchStep(rows, facts, i);
      if rows[i].id in facts {
        var known := facts[rows[i].id];
        if !known.current {
          continue;
        }
        scored := scored + [Hit(rows[i].id, true, known.confidence)];
      }
    }
    assert rows[..|rows|] == rows;
  }

  lemma FetchStep(rows: seq<Lexical.Hit>, facts: map<FactId.Id, Known>, i: nat)
    requires i < |rows|
    ensures Currents(WithFacts(rows[..i + 1], facts)) == Currents(WithFacts(rows[..i], facts))
      + (if rows[i].id in facts && facts[rows[i].id].current
         then [Hit(rows[i].id, true, facts[rows[i].id].confidence)] else [])
  {
    var id := rows[i].id;
    assert rows[..i + 1][..i] == rows[..i];
    var more := if id in facts then [Hit(id, facts[id].current, facts[id].confidence)] else [];
    CurrentsConcat(WithFacts(rows[..i], facts), more);
    if id in facts { assert more[1..] == []; }
  }

  /** The pass over a window that was fetched after window `before`. */
  method SiftWindow(scored: seq<Hit>, ghost ranked: seq<Hit>, ghost before: nat, ghost n: nat, limit: nat, least: real,
      seen0: set<FactId.Id>, filtered0: seq<Hit>)
    returns (seen: set<FactId.Id>, filtered: seq<Hit>, newlySeen: nat, newlyConfident: nat, full: bool)
    requires DistinctIds(ranked) && before <= n && scored == Window(ranked, n)
    requires seen0 == IdsOf(Window(ranked, before))
    requires filtered0 == Confident(Window(ranked, before), least) && |filtered0| < limit
    ensures full ==> OneShot(ranked, limit, n, least) == filtered && |Confident(Window(ranked, n), least)| >= limit
    ensures !full ==> filtered == Confident(Window(ranked, n), least) && |filtered| < limit
    ensures !full ==> OneShot(ranked, limit, n, least) == filtered && seen == IdsOf(Window(ranked, n))
    ensures !full ==> |Window(ranked, n)| == |Window(ranked, before)| + newlySeen
    ensures !full ==> |filtered| == |Confident(Window(ranked, before), least)| + newlyConfident
  {
    WindowBegins(ranked, before, n);
    WindowDistinct(ranked, n);
    hide Window, Confident, IdsOf, OneShot, DistinctIds;
    seen, filtered, newlySeen, newlyConfident, full := Sift(scored, |Window(ranked, before)|, limit, least, seen0, filtered0);
    if full {
      EnoughFound(ranked, n, limit, least, filtered);
    } else {
      FoundIsAnswer(ranked, n, limit, least, filtered);
    }
  }

  /**
   The loop of `recall_scored_with_options` on the text path.  Its set of seen ids keeps rows of
   earlier windows from being counted again.
   */
  method RecallConfident(ln: real -> real, docs: seq<Lexical.Document>, terms: seq<string>, facts: map<FactId.Id, Known>,
      limit: nat, budget: nat, least: real) returns (result: Result<seq<Hit>, RecallError>)
    requires DocumentsOf(docs, facts) && Lexical.LogLike(ln)
    ensures limit == 0 ==> result == Ok([])
    ensures limit > 0 && budget == 0 ==> result == Err(NoBudget)
    ensures limit > 0 && budget > 0 ==>
      result == Ok(Paged(RankedHits(ln, docs, terms, facts, budget), limit, budget, least))
  {
    if limit == 0 {
      return Ok([]);
    }
    if budget == 0 {
      return Err(NoBudget);
    }
    hide LastWindow, Window, Confident, IdsOf, OneShot, DistinctIds, Currents, DocumentsOf, Lexical.LogLike;
    hide Lexical.Answer, Lexical.DistinctIds, RankedHits, WithFacts, Stops, IdleAfter, Paged;
    ghost var ranked := RankedHits(ln, docs, terms, facts, budget);
    PagedIsLast(ranked, limit, budget, least);
    var filtered: seq<Hit> := [];
    var seen: set<FactId.Id> := {};
    var fetchLimit: nat := Min(if limit > 1 then limit else 1, budget);
    var idle: nat := 0;
    ghost var before: nat := 0;
    NothingSeen(ranked, least);
    while true
      invariant before < fetchLimit <= budget
      invariant filtered == Confident(Window(ranked, before), least) && |filtered| < limit
      invariant seen == IdsOf(Window(ranked, before))
      invariant Paged(ranked, limit, budget, least)
        == OneShot(ranked, limit, LastWindow(ranked, before, fetchLimit, idle, limit, budget, least), least)
      decreases budget - fetchLimit
    {
      var scored := Fetch(ln, docs, terms, facts, fetchLimit);
      FetchIsWindow(ln, docs, terms, facts, fetchLimit, budget);
      if scored == [] {
        LastWindowEmpty(ranked, before, fetchLimit, idle, limit, budget, least);
        return Ok(filtered);
      }
      var newlySeen, newlyConfident, full;
      seen, filtered, newlySeen, newlyConfident, full :=
        SiftWindow(scored, ranked, before, fetchLimit, limit, least, seen, filtered);
      if full {
        LastWindowFull(ranked, before, fetchLimit, idle, limit, budget, least);
        return Ok(filtered);
      }
      LastWindowStep(ranked, before, fetchLimit, idle, limit, budget, least, newlySeen, newlyConfident);
      if newlySeen == 0 || fetchLimit >= budget || |scored| < fetchLimit {
        return Ok(filtered);
      }
      before := fetchLimit;
      if newlyConfident == 0 {
        idle := idle + 1;
        if idle >= 2 {
          fetchLimit := budget;
          continue;
        }
      } else {
        idle := 0;
      }
      fetchLimit := Min(fetchLimit * 2, budget);
    }
  }
}
