/** The Durstenfeld form of the Fisher–Yates shuffle run by `useShuffle` (categorize.jsx:8-24).
    `Math.floor(Math.random() * (i + 1))` is replaced by a caller-supplied choice sequence:
    `draws[i]` is the index `j` picked while the loop counter is `i`. */
module Shuffler {

  /** The draws a run on `n` items may use: one per loop counter, each within `[0, i]`.
      `draws[0]` is never consulted (the loop stops at `i == 1`) and is pinned to 0. */
  predicate ValidDraws(draws: seq<nat>, n: nat) {
    |draws| == n && forall i :: 0 <= i < n ==> draws[i] <= i
  }

  /** `[array[i], array[j]] = [array[j], array[i]]` on a value. */
  function Swap<T>(s: seq<T>, i: nat, j: nat): (r: seq<T>)
    requires i < |s| && j < |s|
    ensures |r| == |s| && r[i] == s[j] && r[j] == s[i]
    ensures forall k :: 0 <= k < |s| && k != i && k != j ==> r[k] == s[k]
  {
    s[i := s[j]][j := s[i]]
  }

  /** A swap neither loses nor duplicates an element. */
  lemma SwapPermutes<T>(s: seq<T>, i: nat, j: nat)
    requires i < |s| && j < |s|
    ensures multiset(Swap(s, i, j)) == multiset(s)
  {
  }

  /** The remaining iterations of the loop, from counter `i` down to 1. */
  function ShuffleDown<T>(s: seq<T>, i: nat, draws: seq<nat>): (r: seq<T>)
    requires i < |s| && ValidDraws(draws, |s|)
    ensures |r| == |s|
    decreases i
  {
    if i == 0 then s else ShuffleDown(Swap(s, i, draws[i]), i - 1, draws)
  }

  /** The iterations only rearrange: the multiset of items is preserved. */
  lemma {:induction false} ShuffleDownPermutes<T>(s: seq<T>, i: nat, draws: seq<nat>)
    requires i < |s| && ValidDraws(draws, |s|)
    ensures multiset(ShuffleDown(s, i, draws)) == multiset(s)
    decreases i
  {
    if i > 0 {
      SwapPermutes(s, i, draws[i]);
      ShuffleDownPermutes(Swap(s, i, draws[i]), i - 1, draws);
    }
  }

  /** Positions above the loop counter are final: no later iteration touches them. */
  lemma {:induction false} SuffixIsFinal<T>(s: seq<T>, i: nat, draws: seq<nat>)
    requires i < |s| && ValidDraws(draws, |s|)
    ensures ShuffleDown(s, i, draws)[i + 1..] == s[i + 1..]
    decreases i
  {
    if i > 0 {
      var s' := Swap(s, i, draws[i]);
      SuffixIsFinal(s', i - 1, draws);
      assert s'[i + 1..] == s[i + 1..];
      assert ShuffleDown(s, i, draws)[i..] == s'[i..];
      assert s'[i + 1..] == s'[i..][1..];
      assert ShuffleDown(s, i, draws)[i + 1..] == ShuffleDown(s, i, draws)[i..][1..];
    }
  }

  /** The order the whole loop produces from `s`. */
  function Shuffled<T>(s: seq<T>, draws: seq<nat>): (r: seq<T>)
    requires ValidDraws(draws, |s|)
    ensures |r| == |s|
    ensures |s| <= 1 ==> r == s
  {
    if |s| == 0 then s else ShuffleDown(s, |s| - 1, draws)
  }

  /** The shuffle returns exactly the input's items, each as often as in the input. */
  lemma ShuffledIsPermutation<T>(s: seq<T>, draws: seq<nat>)
    requires ValidDraws(draws, |s|)
    ensures multiset(Shuffled(s, draws)) == multiset(s)
  {
    if |s| > 0 {
      ShuffleDownPermutes(s, |s| - 1, draws);
    }
  }

  /** `useShuffle`'s effect: copy the items (`[...items]`), then swap from the last index down
      to 1. The input array is only read; the result is a new array holding a permutation. */
  method Shuffle<T>(items: array<T>, draws: seq<nat>) returns (shuffled: array<T>)
    requires ValidDraws(draws, items.Length)
    ensures fresh(shuffled)
    ensures items[..] == old(items[..])
    ensures shuffled[..] == Shuffled(items[..], draws)
    ensures multiset(shuffled[..]) == multiset(items[..])
  {
    var n := items.Length;
    shuffled := new T[n](k requires 0 <= k < n reads items => items[k]);
    ghost var original := items[..];
    assert shuffled[..] == original;
    ghost var target := Shuffled(original, draws);
    ShuffledIsPermutation(original, draws);
    var i := n - 1;
    while i > 0
      invariant -1 <= i < n && (n > 0 ==> 0 <= i)
      invariant 0 <= i ==> ShuffleDown(shuffled[..], i, draws) == target
      invariant 0 <= i ==> shuffled[i + 1..] == target[i + 1..]
    {
      var j := draws[i];
      ghost var before := shuffled[..];
      var t := shuffled[i];
      shuffled[i] := shuffled[j];
      shuffled[j] := t;
      ghost var after := shuffled[..];
      assert after == Swap(before, i, j);
      assert ShuffleDown(after, i - 1, draws) == target;
      SuffixIsFinal(after, i - 1, draws);
      i := i - 1;
    }
    assert n == 0 ==> shuffled[..] == [] == target;
  }

  /** Every arrangement of the items is the outcome of some admissible draws: the loop can
      reach all `n!` orders (their equal likelihood is a property of `Math.random`). */
  lemma {:induction false} EveryPermutationReachable<T>(s: seq<T>, t: seq<T>) returns (draws: seq<nat>)
    requires multiset(s) == multiset(t)
    ensures ValidDraws(draws, |s|) && Shuffled(s, draws) == t
  {
    assert |s| == |t| by {
      assert |multiset(s)| == |multiset(t)|;
    }
    draws := seq(|s|, k => 0);
    assert ValidDraws(draws, |s|);
    if |s| == 0 {
      assert t == [];
    } else {
      var i := |s| - 1;
      assert s[..i + 1] == s && t[..i + 1] == t;
      assert s[i + 1..] == [] && t[i + 1..] == [];
      draws := ReachDown(s, t, i, draws);
    }
  }

  /** Choosing draws for counters `i` down to 1 that turn `s` into `t`, when the two already
      agree above `i` and hold the same elements up to `i`. */
  lemma {:induction false} ReachDown<T>(s: seq<T>, t: seq<T>, i: nat, draws: seq<nat>) returns (d: seq<nat>)
    requires i < |s| == |t| && ValidDraws(draws, |s|)
    requires multiset(s[..i + 1]) == multiset(t[..i + 1]) && s[i + 1..] == t[i + 1..]
    ensures ValidDraws(d, |s|) && d[i + 1..] == draws[i + 1..]
    ensures ShuffleDown(s, i, d) == t
    decreases i
  {
    if i == 0 {
      SameSingleton(s, t);
      d := draws;
    } else {
      var j := PickSource(s, t, i);
      var s' := Swap(s, i, j);
      SwapPlacesOne(s, t, i, j);
      var draws' := draws[i := j];
      d := ReachDown(s', t, i - 1, draws');
      SuffixHead(d, draws', i);
      assert draws'[i + 1..] == draws[i + 1..];
      assert ShuffleDown(s, i, d) == ShuffleDown(s', i - 1, d);
    }
  }

  /** With one slot left unsettled and the same element in it, the two orders coincide. */
  lemma SameSingleton<T>(s: seq<T>, t: seq<T>)
    requires 0 < |s| == |t|
    requires multiset(s[..1]) == multiset(t[..1]) && s[1..] == t[1..]
    ensures s == t
  {
    assert s[..1] == [s[0]] && t[..1] == [t[0]];
    assert s[0] in multiset{t[0]};
    assert s == s[..1] + s[1..] && t == t[..1] + t[1..];
  }

  /** An index at or below `i` whose element belongs at position `i` of `t`. */
  lemma PickSource<T>(s: seq<T>, t: seq<T>, i: nat) returns (j: nat)
    requires i < |s| == |t|
    requires multiset(s[..i + 1]) == multiset(t[..i + 1])
    ensures j <= i && s[j] == t[i]
  {
    assert t[..i + 1] == t[..i] + [t[i]];
    assert t[i] in multiset(s[..i + 1]);
    var k :| 0 <= k < |s[..i + 1]| && s[..i + 1][k] == t[i];
    j := k;
  }

  /** Swapping that element into position `i` settles position `i`. */
  lemma SwapPlacesOne<T>(s: seq<T>, t: seq<T>, i: nat, j: nat)
    requires j <= i < |s| == |t|
    requires s[j] == t[i]
    requires multiset(s[..i + 1]) == multiset(t[..i + 1]) && s[i + 1..] == t[i + 1..]
    ensures multiset(Swap(s, i, j)[..i]) == multiset(t[..i])
    ensures Swap(s, i, j)[i..] == t[i..]
  {
    SwapKeepsPrefixItems(s, t, i, j);
    var s' := Swap(s, i, j);
    assert s'[i..] == [t[i]] + s'[i + 1..];
    assert t[i..] == [t[i]] + t[i + 1..];
  }

  lemma SwapKeepsPrefixItems<T>(s: seq<T>, t: seq<T>, i: nat, j: nat)
    requires j <= i < |s| == |t|
    requires s[j] == t[i]
    requires multiset(s[..i + 1]) == multiset(t[..i + 1])
    ensures multiset(Swap(s, i, j)[..i]) == multiset(t[..i])
  {
    var s' := Swap(s, i, j);
    assert s'[..i + 1] == Swap(s[..i + 1], i, j);
    SwapPermutes(s[..i + 1], i, j);
    assert s'[..i + 1] == s'[..i] + [t[i]];
    assert t[..i + 1] == t[..i] + [t[i]];
    MultisetCancel(s'[..i], t[..i], t[i]);
  }

  lemma SuffixHead<T>(a: seq<T>, b: seq<T>, i: nat)
    requires i < |a| == |b| && a[i..] == b[i..]
    ensures a[i] == b[i] && a[i + 1..] == b[i + 1..]
  {
    assert a[i] == a[i..][0] && b[i] == b[i..][0];
    assert a[i + 1..] == a[i..][1..] && b[i + 1..] == b[i..][1..];
  }

  lemma MultisetCancel<T>(a: seq<T>, b: seq<T>, x: T)
    requires multiset(a) + multiset{x} == multiset(b) + multiset{x}
    ensures multiset(a) == multiset(b)
  {
    assert multiset(a) == multiset(a) + multiset{x} - multiset{x};
  }
}
