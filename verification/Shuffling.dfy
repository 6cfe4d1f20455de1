/** The Fisher-Yates shuffle that lays the mines: which arrangements it gives, and that each
    arrangement comes from exactly one sequence of random draws. */
module Shuffling {

  function Swap<T>(s: seq<T>, i: nat, j: nat): (r: seq<T>)
    requires i < |s| && j < |s|
    ensures |r| == |s|
  {
    s[i := s[j]][j := s[i]]
  }

  /** One draw for each index from `|draws| - 1` down to 1, at most the index itself. */
  predicate DrawsOk(draws: seq<nat>) {
    forall k :: 0 <= k < |draws| ==> draws[k] <= k
  }

  /** The steps of the shuffle from index `i` down to 1. */
  function ShuffleFrom<T>(s: seq<T>, draws: seq<nat>, i: nat): (r: seq<T>)
    requires |draws| == |s| && i < |s| && DrawsOk(draws)
    ensures |r| == |s|
    decreases i
  {
    if i == 0 then s else ShuffleFrom(Swap(s, i, draws[i]), draws, i - 1)
  }

  ghost predicate Distinct<T>(s: seq<T>) {
    forall j, k :: 0 <= j < k < |s| ==> s[j] != s[k]
  }

  lemma SwapKeeps<T>(s: seq<T>, i: nat, j: nat)
    requires i < |s| && j < |s|
    ensures multiset(Swap(s, i, j)) == multiset(s)
    ensures Distinct(s) ==> Distinct(Swap(s, i, j))
  {
  }

  /** Steps below `i` leave what is above alone. */
  lemma {:induction false} ShuffleKeepsAbove<T>(s: seq<T>, draws: seq<nat>, i: nat, k: nat)
    requires |draws| == |s| && i < k < |s| && DrawsOk(draws)
    ensures ShuffleFrom(s, draws, i)[k] == s[k]
    decreases i
  {
    if i > 0 {
      ShuffleKeepsAbove(Swap(s, i, draws[i]), draws, i - 1, k);
    }
  }

  /** The shuffle only rearranges. */
  lemma {:induction false} ShufflePermutes<T>(s: seq<T>, draws: seq<nat>, i: nat)
    requires |draws| == |s| && i < |s| && DrawsOk(draws)
    ensures multiset(ShuffleFrom(s, draws, i)) == multiset(s)
    ensures Distinct(s) ==> Distinct(ShuffleFrom(s, draws, i))
    decreases i
  {
    if i > 0 {
      SwapKeeps(s, i, draws[i]);
      ShufflePermutes(Swap(s, i, draws[i]), draws, i - 1);
    }
  }

  /** Draws above `i` do not matter to the steps from `i` down. */
  lemma {:induction false} DrawsAboveUnused<T>(s: seq<T>, a: seq<nat>, b: seq<nat>, i: nat)
    requires |a| == |b| == |s| && i < |s| && DrawsOk(a) && DrawsOk(b)
    requires forall k :: 0 <= k <= i ==> a[k] == b[k]
    ensures ShuffleFrom(s, a, i) == ShuffleFrom(s, b, i)
    decreases i
  {
    if i > 0 {
      DrawsAboveUnused(Swap(s, i, a[i]), a, b, i - 1);
    }
  }

  /** Any rearrangement that agrees with `s` above `i` is reached by some draws. */
  lemma {:induction false} SomeDrawsFrom<T>(s: seq<T>, t: seq<T>, i: nat) returns (draws: seq<nat>)
    requires i < |s| && Distinct(t) && multiset(s) == multiset(t)
    requires |s| == |t| && forall k :: i < k < |s| ==> s[k] == t[k]
    ensures |draws| == |s| && DrawsOk(draws) && ShuffleFrom(s, draws, i) == t
    decreases i
  {
    hide ShuffleFrom;
    hide Swap;
    if i == 0 {
      draws := seq(|s|, _ => 0);
      OnlyFirstLeft(s, t);
      ShuffleOnce(s, draws, i);
    } else {
      var p := PlaceOf(s, t, i);
      SwapKeeps(s, i, p);
      SwapPlaces(s, i, p);
      var rest := SomeDrawsFrom(Swap(s, i, p), t, i - 1);
      draws := rest[i := p];
      DrawsAboveUnused(Swap(s, i, p), draws, rest, i - 1);
      ShuffleOnce(s, draws, i);
    }
  }

  lemma ShuffleOnce<T>(s: seq<T>, draws: seq<nat>, i: nat)
    requires |draws| == |s| && i < |s| && DrawsOk(draws)
    ensures ShuffleFrom(s, draws, i) == if i == 0 then s else ShuffleFrom(Swap(s, i, draws[i]), draws, i - 1)
  {
  }

  lemma SwapPlaces<T>(s: seq<T>, i: nat, j: nat)
    requires j <= i < |s|
    ensures Swap(s, i, j)[i] == s[j] && forall k :: i < k < |s| ==> Swap(s, i, j)[k] == s[k]
  {
  }

  /** Where in `s` the element is that `t` has at `i`: not above, where the two agree. */
  lemma PlaceOf<T>(s: seq<T>, t: seq<T>, i: nat) returns (p: nat)
    requires i < |s| == |t| && Distinct(t) && multiset(s) == multiset(t)
    requires forall k :: i < k < |s| ==> s[k] == t[k]
    ensures p <= i && s[p] == t[i]
  {
    assert t[i] in multiset(t);
    assert t[i] in multiset(s);
    p :| p < |s| && s[p] == t[i];
  }

  lemma OnlyFirstLeft<T>(s: seq<T>, t: seq<T>)
    requires 0 < |s| == |t| && multiset(s) == multiset(t)
    requires forall k :: 0 < k < |s| ==> s[k] == t[k]
    ensures s == t
  {
    assert s == [s[0]] + s[1..] && t == [t[0]] + t[1..];
    assert s[1..] == t[1..];
    assert multiset(s) - multiset(s[1..]) == multiset{s[0]};
    assert multiset(t) - multiset(t[1..]) == multiset{t[0]};
    assert s[0] in multiset{s[0]};
  }

  /** Every rearrangement comes out of some draws. */
  lemma EveryArrangement<T>(s: seq<T>, t: seq<T>)
    requires s != [] && Distinct(t) && multiset(s) == multiset(t) && |s| == |t|
    ensures exists draws: seq<nat> ::
      |draws| == |s| && DrawsOk(draws) && ShuffleFrom(s, draws, |s| - 1) == t
  {
    var draws := SomeDrawsFrom(s, t, |s| - 1);
  }

  /** Different draws give different arrangements, so equally likely draws give equally likely arrangements. */
  lemma {:induction false} DrawsAreDetermined<T>(s: seq<T>, a: seq<nat>, b: seq<nat>, i: nat)
    requires |a| == |b| == |s| && i < |s| && DrawsOk(a) && DrawsOk(b) && Distinct(s)
    requires ShuffleFrom(s, a, i) == ShuffleFrom(s, b, i)
    ensures forall k :: 0 < k <= i ==> a[k] == b[k]
    decreases i
  {
    if i > 0 {
      ShuffleKeepsAbove(Swap(s, i, a[i]), a, i - 1, i);
      ShuffleKeepsAbove(Swap(s, i, b[i]), b, i - 1, i);
      assert s[a[i]] == s[b[i]];
      SwapKeeps(s, i, a[i]);
      DrawsAreDetermined(Swap(s, i, a[i]), a, b, i - 1);
    }
  }
}
