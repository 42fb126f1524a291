/**
 * `random.shuffle(x)` on a list, as CPython performs it: for `i` from
 * `len(x) - 1` down to 1, draw `j = randbelow(i + 1)` and swap `x[i]` with
 * `x[j]`. The random draws are a parameter: `picks[k]` is the draw made at
 * step `k`, i.e. for position `len(x) - 1 - k`.
 */
module Shuffle {

  /** The draws `randbelow` can make for a list of length `n`. */
  predicate ValidPicks(n: nat, picks: seq<nat>) {
    && |picks| == (if n == 0 then 0 else n - 1)
    && forall k :: 0 <= k < |picks| ==> picks[k] <= n - 1 - k
  }

  /** `s` with the elements at `i` and `j` exchanged. */
  function Swap<T>(s: seq<T>, i: nat, j: nat): (r: seq<T>)
    requires i < |s| && j < |s|
    ensures |r| == |s| && r[i] == s[j] && r[j] == s[i]
    ensures forall k :: 0 <= k < |s| && k != i && k != j ==> r[k] == s[k]
  {
    s[i := s[j]][j := s[i]]
  }

  lemma SwapPermutes<T>(s: seq<T>, i: nat, j: nat)
    requires i < |s| && j < |s|
    ensures multiset(Swap(s, i, j)) == multiset(s)
  {
    var t := s[i := s[j]];
    assert multiset(t) == multiset(s) - multiset{s[i]} + multiset{s[j]};
    assert t[j] == (if i == j then s[j] else s[j]);
  }

  /** The list once the steps `k` onwards have been applied to `s`; each step is a swap. */
  function ShuffleFrom<T>(s: seq<T>, picks: seq<nat>, k: nat): (r: seq<T>)
    requires ValidPicks(|s|, picks) && k <= |picks|
    ensures |r| == |s|
    decreases |picks| - k
  {
    if k == |picks| then s else ShuffleFrom(Swap(s, |s| - 1 - k, picks[k]), picks, k + 1)
  }

  /** Every step is a swap, so the shuffle only reorders: the result is a permutation. */
  lemma {:induction false} ShuffleFromPermutes<T>(s: seq<T>, picks: seq<nat>, k: nat)
    requires ValidPicks(|s|, picks) && k <= |picks|
    ensures multiset(ShuffleFrom(s, picks, k)) == multiset(s)
    decreases |picks| - k
  {
    if k < |picks| {
      var next := Swap(s, |s| - 1 - k, picks[k]);
      SwapPermutes(s, |s| - 1 - k, picks[k]);
      ShuffleFromPermutes(next, picks, k + 1);
    }
  }

  /** The list after the whole shuffle. */
  function Shuffled<T>(s: seq<T>, picks: seq<nat>): (r: seq<T>)
    requires ValidPicks(|s|, picks)
    ensures |r| == |s| && multiset(r) == multiset(s)
  {
    ShuffleFromPermutes(s, picks, 0);
    ShuffleFrom(s, picks, 0)
  }

  /**
   * For three elements, the draws `[t, 1]` move the last element to position
   * `t` and keep the relative order of the other two: the shuffle can put the
   * element that starts last at any position.
   */
  lemma LastCanLandAnywhere<T>(s: seq<T>, t: nat)
    requires |s| == 3 && t < 3
    ensures ValidPicks(3, [t, 1])
    ensures Shuffled(s, [t, 1]) == if t == 0 then [s[2], s[1], s[0]]
                                   else if t == 1 then [s[0], s[2], s[1]]
                                   else s
  {
    var once := Swap(s, 2, t);
    assert ShuffleFrom(s, [t, 1], 0) == ShuffleFrom(once, [t, 1], 1);
    assert ShuffleFrom(once, [t, 1], 1) == ShuffleFrom(Swap(once, 1, 1), [t, 1], 2);
  }

  /** `random.shuffle(a)`: reorders `a` in place by the Fisher-Yates swaps the draws select. */
  method ShuffleInPlace<T>(a: array<T>, picks: seq<nat>)
    requires ValidPicks(a.Length, picks)
    modifies a
    ensures a[..] == Shuffled(old(a[..]), picks)
    ensures multiset(a[..]) == multiset(old(a[..]))
  {
    var k := 0;
    while k < |picks|
      invariant 0 <= k <= |picks|
      invariant ShuffleFrom(a[..], picks, k) == Shuffled(old(a[..]), picks)
    {
      var i := a.Length - 1 - k;
      var j := picks[k];
      a[i], a[j] := a[j], a[i];
      k := k + 1;
    }
  }
}
