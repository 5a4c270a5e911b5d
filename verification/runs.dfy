/** Runs of consecutive turns, read from a sequence of records. A run from
    turn t is a list of entries where every entry but the last records a turn
    that did not end the game, and the last one ended it exactly when the run
    was won. The per-turn facts are parameters, so the index arithmetic is
    proved once here for any game. */
module Runs {
  /** `xs` records turns t, t + 1, ...: each entry satisfies `Lost` at its own
      turn, except the last, which satisfies `Won` instead when `won` holds. A
      won run is never empty. */
  predicate RunFrom<T>(Lost: (nat, T) -> bool, Won: (nat, T) -> bool, t: nat, xs: seq<T>, won: bool)
    decreases |xs|
  {
    if |xs| == 0 then !won
    else if |xs| == 1 then (if won then Won(t, xs[0]) else Lost(t, xs[0]))
    else Lost(t, xs[0]) && RunFrom(Lost, Won, t + 1, xs[1..], won)
  }

  /** Entry k of a run records turn t + k, and it did not end the game unless
      it is the last entry of a won run. */
  lemma {:induction false} RunFromLost<T>(Lost: (nat, T) -> bool, Won: (nat, T) -> bool, t: nat, xs: seq<T>, won: bool)
    requires RunFrom(Lost, Won, t, xs, won)
    ensures forall k :: 0 <= k < |xs| && !(won && k == |xs| - 1) ==> Lost(t + k, xs[k])
    decreases |xs|
  {
    if |xs| > 1 {
      var tail := xs[1..];
      RunFromLost(Lost, Won, t + 1, tail, won);
      forall k | 1 <= k < |xs| && !(won && k == |xs| - 1)
        ensures Lost(t + k, xs[k])
      {
        assert xs[k] == tail[k - 1];
        assert t + k == (t + 1) + (k - 1);
      }
    }
  }

  /** A won run ends with the entry that won, made on turn t + |xs| - 1. */
  lemma {:induction false} RunFromWon<T>(Lost: (nat, T) -> bool, Won: (nat, T) -> bool, t: nat, xs: seq<T>, won: bool)
    requires RunFrom(Lost, Won, t, xs, won)
    ensures won ==> |xs| > 0 && Won(t + |xs| - 1, xs[|xs| - 1])
    decreases |xs|
  {
    if |xs| > 1 {
      var tail := xs[1..];
      RunFromWon(Lost, Won, t + 1, tail, won);
      assert t + |xs| - 1 == (t + 1) + |tail| - 1;
      assert xs[|xs| - 1] == tail[|tail| - 1];
    }
  }

  /** A run of one entry. */
  lemma RunFromSingle<T>(Lost: (nat, T) -> bool, Won: (nat, T) -> bool, t: nat, x: T, won: bool)
    requires if won then Won(t, x) else Lost(t, x)
    ensures RunFrom(Lost, Won, t, [x], won)
  {
  }

  /** A losing entry followed by a run from the next turn is a run. */
  lemma RunFromCons<T>(Lost: (nat, T) -> bool, Won: (nat, T) -> bool, t: nat, x: T, xs: seq<T>, won: bool)
    requires Lost(t, x) && RunFrom(Lost, Won, t + 1, xs, won)
    ensures RunFrom(Lost, Won, t, [x] + xs, won)
  {
    assert ([x] + xs)[0] == x && ([x] + xs)[1..] == xs;
  }

  /** A sequence that starts with `pre + [x]` starts with `pre`. */
  lemma PrefixBeforeLast<T>(h: seq<T>, pre: seq<T>, x: T)
    requires |pre| + 1 <= |h| && h[..|pre| + 1] == pre + [x]
    ensures h[..|pre|] == pre
  {
    assert h[..|pre|] == h[..|pre| + 1][..|pre|];
  }

  /** A sequence that starts with `pre + [x]` continues, after `pre`, with `x`. */
  lemma SuffixAfterLast<T>(h: seq<T>, pre: seq<T>, x: T)
    requires |pre| + 1 <= |h| && h[..|pre| + 1] == pre + [x]
    ensures h[|pre|..] == [x] + h[|pre| + 1..]
  {
    assert h[|pre|] == (pre + [x])[|pre|];
  }

  /** Putting the same entry in front keeps one sequence a prefix of another. */
  lemma ConsPrefix<T>(x: T, a: seq<T>, b: seq<T>)
    requires a <= b
    ensures [x] + a <= [x] + b
  {
    assert ([x] + b)[..|a| + 1] == [x] + b[..|a|];
  }
}
