/**
 Splitting text into tokens (crates/core/src/lexical.rs:174-192): lower-cased runs of alphanumeric
 characters.  The classifier and the lower-casing are any functions; a lower-cased character is
 never empty.
 */
module Tokens {

  /** The runs between separators, empty ones included. */
  function Runs(alphanumeric: char -> bool, text: string): (runs: seq<string>)
    ensures |runs| >= 1
  {
    if text == [] then [[]]
    else
      var runs := Runs(alphanumeric, text[..|text| - 1]);
      var c := text[|text| - 1];
      if alphanumeric(c) then runs[..|runs| - 1] + [runs[|runs| - 1] + [c]] else runs + [[]]
  }

  function Lowered(lower: char -> string, run: string): string
  {
    if run == [] then [] else Lowered(lower, run[..|run| - 1]) + lower(run[|run| - 1])
  }

  /** The lower-cased runs that are not empty. */
  function TokensOf(lower: char -> string, runs: seq<string>): seq<string>
  {
    if runs == [] then []
    else
      var last := runs[|runs| - 1];
      TokensOf(lower, runs[..|runs| - 1]) + (if last != [] then [Lowered(lower, last)] else [])
  }

  ghost predicate NeverEmpty(lower: char -> string)
  {
    forall c :: lower(c) != []
  }

  function Concat(runs: seq<string>): string
  {
    if runs == [] then [] else Concat(runs[..|runs| - 1]) + runs[|runs| - 1]
  }

  /** The characters of a text with a property, in order. */
  function Kept(chosen: char -> bool, text: string): string
  {
    if text == [] then []
    else Kept(chosen, text[..|text| - 1]) + (if chosen(text[|text| - 1]) then [text[|text| - 1]] else [])
  }

  /** Runs with one separator between each and the next. */
  function Interleaved(runs: seq<string>, separators: string): string
    requires |runs| == |separators| + 1
  {
    var n := |separators|;
    if n == 0 then runs[0] else Interleaved(runs[..n], separators[..n - 1]) + [separators[n - 1]] + runs[n]
  }

  function Other(chosen: char -> bool): char -> bool
  {
    c => !chosen(c)
  }

  predicate All(chosen: char -> bool, text: string)
  {
    forall c :: c in text ==> chosen(c)
  }

  predicate AllRuns(chosen: char -> bool, runs: seq<string>)
  {
    forall k :: 0 <= k < |runs| ==> All(chosen, runs[k])
  }

  lemma LastJoined(runs: seq<string>, separators: string, run: string, c: char)
    requires |runs| == |separators| + 1
    ensures Interleaved(runs + [run], separators + [c]) == Interleaved(runs, separators) + [c] + run
    ensures runs[..|runs| - 1] + [runs[|runs| - 1]] == runs
  {
    assert (runs + [run])[..|runs|] == runs && (separators + [c])[..|separators|] == separators;
  }

  lemma LastExtended(runs: seq<string>, separators: string, c: char)
    requires |runs| == |separators| + 1
    ensures var n := |runs| - 1;
      Interleaved(runs[..n] + [runs[n] + [c]], separators) == Interleaved(runs, separators) + [c]
      && Concat(runs[..n] + [runs[n] + [c]]) == Concat(runs) + [c]
  {
    var n := |runs| - 1;
    var longer := runs[..n] + [runs[n] + [c]];
    assert longer[..n] == runs[..n];
  }

  /** Whether runs and separators are how a text divides. */
  predicate Divides(alphanumeric: char -> bool, text: string, runs: seq<string>, separators: string)
  {
    |runs| == |separators| + 1 && Interleaved(runs, separators) == text
    && AllRuns(alphanumeric, runs) && All(Other(alphanumeric), separators)
  }

  lemma DividesOn(alphanumeric: char -> bool, text: string, runs: seq<string>, separators: string, c: char)
    requires Divides(alphanumeric, text, runs, separators)
    ensures alphanumeric(c) ==>
      Divides(alphanumeric, text + [c], runs[..|runs| - 1] + [runs[|runs| - 1] + [c]], separators)
    ensures !alphanumeric(c) ==> Divides(alphanumeric, text + [c], runs + [[]], separators + [c])
  {
    if alphanumeric(c) {
      LastExtended(runs, separators, c);
    } else {
      LastJoined(runs, separators, [], c);
    }
  }

  /**
   The runs are alphanumeric and the separators between them are not, and put together they are
   the text: nothing is dropped but separators, nothing is moved, and no run could be longer.
   */
  lemma {:induction false} RunsAlphanumeric(alphanumeric: char -> bool, text: string)
    ensures Divides(alphanumeric, text, Runs(alphanumeric, text), Kept(Other(alphanumeric), text))
    ensures Concat(Runs(alphanumeric, text)) == Kept(alphanumeric, text)
  {
    if text != [] {
      var init, last := text[..|text| - 1], text[|text| - 1];
      assert text == init + [last];
      RunsAlphanumeric(alphanumeric, init);
      var runs := Runs(alphanumeric, init);
      var separators := Kept(Other(alphanumeric), init);
      DividesOn(alphanumeric, init, runs, separators, last);
      hide All, AllRuns, Interleaved;
      if alphanumeric(last) {
        assert Kept(Other(alphanumeric), text) == separators;
        LastExtended(runs, separators, last);
      } else {
        assert (runs + [[]])[..|runs|] == runs;
      }
    }
  }

  /** A text divides in no other way. */
  lemma {:induction false} RunsUnique(alphanumeric: char -> bool, text: string, runs: seq<string>, separators: string)
    requires Divides(alphanumeric, text, runs, separators)
    ensures Runs(alphanumeric, text) == runs
    decreases |separators|, |runs[|runs| - 1]|
  {
    var n := |separators|;
    var last := runs[n];
    assert runs == runs[..n] + [last];
    if last != [] {
      var c := last[|last| - 1];
      var shorter := runs[..n] + [last[..|last| - 1]];
      assert last == last[..|last| - 1] + [c];
      assert c in runs[n];
      assert forall x :: x in shorter[n] ==> x in runs[n];
      LastExtended(shorter, separators, c);
      RunsUnique(alphanumeric, Interleaved(shorter, separators), shorter, separators);
      assert shorter[..n] + [shorter[n] + [c]] == runs;
      assert text[..|text| - 1] == Interleaved(shorter, separators);
    } else if n > 0 {
      RunsUnique(alphanumeric, Interleaved(runs[..n], separators[..n - 1]), runs[..n], separators[..n - 1]);
      assert separators[n - 1] in separators;
      assert text == Interleaved(runs[..n], separators[..n - 1]) + [separators[n - 1]];
      assert text[..|text| - 1] == Interleaved(runs[..n], separators[..n - 1]);
    }
  }

  lemma {:induction false} LoweredEmpty(lower: char -> string, run: string)
    requires NeverEmpty(lower)
    ensures Lowered(lower, run) == [] <==> run == []
  {
  }

  lemma {:induction false} LoweredConcat(lower: char -> string, a: string, b: string)
    ensures Lowered(lower, a + b) == Lowered(lower, a) + Lowered(lower, b)
  {
    if b == [] {
      assert a + b == a;
    } else {
      assert (a + b)[..|a + b| - 1] == a + b[..|b| - 1];
      LoweredConcat(lower, a, b[..|b| - 1]);
    }
  }

  lemma {:induction false} TokensJoined(lower: char -> string, runs: seq<string>)
    requires NeverEmpty(lower)
    ensures Concat(TokensOf(lower, runs)) == Lowered(lower, Concat(runs))
    ensures forall k :: 0 <= k < |TokensOf(lower, runs)| ==> TokensOf(lower, runs)[k] != []
  {
    hide NeverEmpty;
    if runs != [] {
      var init, last := runs[..|runs| - 1], runs[|runs| - 1];
      TokensJoined(lower, init);
      LoweredConcat(lower, Concat(init), last);
      LoweredEmpty(lower, last);
      var tokens := TokensOf(lower, init);
      if last == [] {
        assert TokensOf(lower, runs) == tokens && Concat(runs) == Concat(init);
      } else {
        assert (tokens + [Lowered(lower, last)])[..|tokens|] == tokens;
      }
    }
  }

  /**
   The tokens of a text are never empty, and put together they are its alphanumeric characters in
   order, each lower-cased.
   */
  lemma TokensSpell(alphanumeric: char -> bool, lower: char -> string, text: string)
    requires NeverEmpty(lower)
    ensures var tokens := TokensOf(lower, Runs(alphanumeric, text));
      Concat(tokens) == Lowered(lower, Kept(alphanumeric, text)) && forall k :: 0 <= k < |tokens| ==> tokens[k] != []
    ensures forall c :: Lowered(lower, [c]) == lower(c)
  {
    RunsAlphanumeric(alphanumeric, text);
    TokensJoined(lower, Runs(alphanumeric, text));
    forall c ensures Lowered(lower, [c]) == lower(c) { assert [c][..0] == []; }
  }

  lemma StepRuns(alphanumeric: char -> bool, text: string, i: nat)
    requires i < |text|
    ensures var runs := Runs(alphanumeric, text[..i]); var n := |runs| - 1;
      Runs(alphanumeric, text[..i + 1])
      == if alphanumeric(text[i]) then runs[..n] + [runs[n] + [text[i]]] else runs + [[]]
  {
    assert text[..i + 1][..i] == text[..i];
  }

  lemma TokensSnoc(lower: char -> string, runs: seq<string>, last: string)
    ensures TokensOf(lower, runs + [last]) == TokensOf(lower, runs) + (if last != [] then [Lowered(lower, last)] else [])
  {
    assert (runs + [last])[..|runs|] == runs;
  }

  /** The tokens are the lower-cased non-empty runs, in order. */
  method Tokenize(alphanumeric: char -> bool, lower: char -> string, text: string) returns (tokens: seq<string>)
    requires NeverEmpty(lower)
    ensures tokens == TokensOf(lower, Runs(alphanumeric, text))
  {
    hide Runs, TokensOf, NeverEmpty;
    tokens := [];
    var current := "";
    ghost var runs, run: string := [], "";
    assert text[..0] == [];
    Beginning(alphanumeric, lower);
    for i := 0 to |text|
      invariant Runs(alphanumeric, text[..i]) == runs + [run]
      invariant tokens == TokensOf(lower, runs) && current == Lowered(lower, run)
    {
      StepRuns(alphanumeric, text, i);
      LoweredEmpty(lower, run);
      if alphanumeric(text[i]) {
        assert (runs + [run])[..|runs|] == runs;
        assert (run + [text[i]])[..|run|] == run;
        current := current + lower(text[i]);
        run := run + [text[i]];
      } else {
        TokensSnoc(lower, runs, run);
        if current != [] {
          tokens := tokens + [current];
          current := "";
        }
        runs, run := runs + [run], [];
      }
    }
    assert text[..|text|] == text;
    LoweredEmpty(lower, run);
    TokensSnoc(lower, runs, run);
    if current != [] {
      tokens := tokens + [current];
    }
  }

  lemma Beginning(alphanumeric: char -> bool, lower: char -> string)
    ensures Runs(alphanumeric, []) == [[]] && TokensOf(lower, []) == [] && Lowered(lower, []) == []
  {
  }
}
