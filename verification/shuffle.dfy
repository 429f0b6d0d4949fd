/** The Fisher–Yates shuffle of the grouping panel (`shuffleArray`).

    The source walks `i` from the last index down to 1 and swaps position `i`
    with a position `j` drawn as `Math.floor(Math.random() * (i + 1))`. Here the
    draws are an explicit input: `js[k]` is the `j` drawn on the k-th turn of
    the loop, that is for `i = n - 1 - k`. */
module Shuffle {
  import Seqs

  /** How many draws a shuffle of `n` elements makes: one per `i` in `n-1 .. 1`. */
  function DrawCount(n: nat): nat
  {
    if n == 0 then 0 else n - 1
  }

  /** `js` is a possible outcome of the random calls: one draw per loop turn,
      each within `[0, i]` for the `i` of its turn. */
  predicate ValidDraws(n: nat, js: seq<nat>)
  {
    |js| == DrawCount(n) && forall k :: 0 <= k < |js| ==> js[k] <= n - 1 - k
  }

  /** `[a[i], a[j]] = [a[j], a[i]]`. */
  function Swap<T>(s: seq<T>, i: nat, j: nat): (r: seq<T>)
    requires i < |s| && j < |s|
    ensures |r| == |s| && r[i] == s[j] && r[j] == s[i]
    ensures forall k :: 0 <= k < |s| && k != i && k != j ==> r[k] == s[k]
  {
    s[i := s[j]][j := s[i]]
  }

  /** Reference definition of the shuffle: the first turn fixes the last
      position, which no later turn touches, and the rest of the loop shuffles
      the prefix in front of it. */
  function FisherYates<T>(s: seq<T>, js: seq<nat>): (r: seq<T>)
    requires ValidDraws(|s|, js)
    ensures |r| == |s|
    ensures |s| >= 2 ==> r[|s| - 1] == s[js[0]]
    decreases |s|
  {
    if |s| <= 1 then s
    else
      var i := |s| - 1;
      var t := Swap(s, i, js[0]);
      FisherYates(t[..i], js[1..]) + [t[i]]
  }

  /** The shuffle is a permutation: it keeps every element with its multiplicity. */
  lemma {:induction false} FisherYatesPermutes<T>(s: seq<T>, js: seq<nat>)
    requires ValidDraws(|s|, js)
    ensures multiset(FisherYates(s, js)) == multiset(s)
    decreases |s|
  {
    if |s| >= 2 {
      var i := |s| - 1;
      var t := Swap(s, i, js[0]);
      FisherYatesPermutes(t[..i], js[1..]);
      SwapPermutes(s, i, js[0]);
      assert t == t[..i] + [t[i]];
    }
  }

  /** `shuffleArray`: shuffles a copy of `a`. Sequences are values, so the
      caller's roster cannot be changed by the swaps. */
  method ShuffleArray<T>(a: seq<T>, js: seq<nat>) returns (r: seq<T>)
    requires ValidDraws(|a|, js)
    ensures r == FisherYates(a, js)
    ensures |r| == |a| && multiset(r) == multiset(a)
  {
    r := a;
    var i := |a| - 1;
    LoopStarts(a, js);
    while i > 0
      invariant LoopState(a, js, r, i)
      decreases i
    {
      var k := |a| - 1 - i;
      LoopTurnAt(a, js, r, i);
      r := Swap(r, i, js[k]);
      i := i - 1;
    }
    LoopEnds(a, js, r, i);
    FisherYatesPermutes(a, js);
  }

  /** Loop invariant of `shuffleArray`: positions past `i` are final, and
      shuffling `r[..i + 1]` with the draws still to come finishes the job. */
  ghost predicate LoopState<T>(a: seq<T>, js: seq<nat>, r: seq<T>, i: int)
  {
    && ValidDraws(|a|, js)
    && (if |a| == 0 then i == -1 else 0 <= i < |a|)
    && |r| == |a|
    && ValidDraws(i + 1, js[|a| - 1 - i..])
    && FisherYates(r[..i + 1], js[|a| - 1 - i..]) + r[i + 1..] == FisherYates(a, js)
  }

  /** Before the first turn nothing is final. */
  lemma LoopStarts<T>(a: seq<T>, js: seq<nat>)
    requires ValidDraws(|a|, js)
    ensures LoopState(a, js, a, |a| - 1)
  {
    assert a[..|a|] == a && a[|a|..] == [] && js[0..] == js;
  }

  /** After the last turn the whole of `r` is final. */
  lemma LoopEnds<T>(a: seq<T>, js: seq<nat>, r: seq<T>, i: int)
    requires LoopState(a, js, r, i) && i <= 0
    ensures r == FisherYates(a, js)
  {
    assert r[..i + 1] + r[i + 1..] == r;
  }

  /** The turn at position `i` keeps the invariant. */
  lemma LoopTurnAt<T>(a: seq<T>, js: seq<nat>, r: seq<T>, i: int)
    requires LoopState(a, js, r, i) && i > 0
    ensures i < |r| && |a| - 1 - i < |js| && js[|a| - 1 - i] <= i
    ensures LoopState(a, js, Swap(r, i, js[|a| - 1 - i]), i - 1)
  {
    var k := |a| - 1 - i;
    assert js[k..][0] == js[k];
    assert js[k..][1..] == js[k + 1..];
    LoopTurn(r, i, js[k..]);
  }

  /** One turn of the loop of `shuffleArray` at position `i`: swapping in place
      and leaving position `i` alone from then on computes the same shuffle. */
  lemma LoopTurn<T>(r: seq<T>, i: nat, ds: seq<nat>)
    requires 0 < i < |r| && ValidDraws(i + 1, ds)
    ensures ValidDraws(i, ds[1..])
    ensures var t := Swap(r, i, ds[0]);
            FisherYates(t[..i], ds[1..]) + t[i..] == FisherYates(r[..i + 1], ds) + r[i + 1..]
  {
    var t := Swap(r, i, ds[0]);
    var u := Swap(r[..i + 1], i, ds[0]);
    assert u == t[..i + 1];
    assert u[..i] == t[..i];
    assert t[i..] == [t[i]] + r[i + 1..];
  }

  /** One turn of the loop: the first draw fixes the last position. */
  lemma FisherYatesStep<T>(s: seq<T>, js: seq<nat>)
    requires |s| >= 2 && ValidDraws(|s|, js)
    ensures ValidDraws(|s| - 1, js[1..])
    ensures FisherYates(s, js)
         == FisherYates(Swap(s, |s| - 1, js[0])[..|s| - 1], js[1..]) + [s[js[0]]]
  {
  }

  /** Prepending a first draw `j` to draws for the prefix gives draws for `s`
      whose shuffle ends in `s[j]`. */
  lemma ConsDraws<T>(s: seq<T>, j: nat, rest: seq<nat>) returns (js: seq<nat>)
    requires |s| >= 2 && j < |s| && ValidDraws(|s| - 1, rest)
    ensures js == [j] + rest
    ensures ValidDraws(|s|, js)
    ensures FisherYates(s, js) == FisherYates(Swap(s, |s| - 1, j)[..|s| - 1], rest) + [s[j]]
  {
    js := [j] + rest;
    assert js[0] == j && js[1..] == rest;
    FisherYatesStep(s, js);
  }

  /** Every ordering of `s` is produced by some draw sequence: the shuffle can
      reach each permutation. */
  lemma {:induction false} ShuffleReachesEveryPermutation<T>(s: seq<T>, r: seq<T>)
      returns (js: seq<nat>)
    requires multiset(r) == multiset(s)
    ensures ValidDraws(|s|, js) && FisherYates(s, js) == r
    decreases |s|
  {
    SameLength(s, r);
    if |s| <= 1 {
      js := [];
      ShortPermutation(s, r);
    } else {
      var i := |s| - 1;
      var j, front := PickLast(s, r);
      var rest := ShuffleReachesEveryPermutation(front, r[..i]);
      js := ConsDraws(s, j, rest);
      Seqs.SplitLast(r);
    }
  }

  /** A sequence of at most one element is its only permutation. */
  lemma ShortPermutation<T>(s: seq<T>, r: seq<T>)
    requires |s| <= 1 && |r| == |s| && multiset(r) == multiset(s)
    ensures r == s
  {
    if |s| == 1 {
      assert r[0] in multiset(s);
    }
  }

  /** Permutations of each other have the same length. */
  lemma SameLength<T>(s: seq<T>, r: seq<T>)
    requires multiset(r) == multiset(s)
    ensures |r| == |s|
  {
    assert |multiset(r)| == |r| && |multiset(s)| == |s|;
  }

  /** The first turn can bring the last element of any permutation `r` of `s`
      to the end; what stays in front is then a permutation of the rest of `r`. */
  lemma PickLast<T>(s: seq<T>, r: seq<T>) returns (j: nat, front: seq<T>)
    requires |s| >= 2 && |r| == |s| && multiset(r) == multiset(s)
    ensures j < |s| && s[j] == r[|s| - 1]
    ensures front == Swap(s, |s| - 1, j)[..|s| - 1]
    ensures multiset(r[..|s| - 1]) == multiset(front)
  {
    var i := |s| - 1;
    var x := r[i];
    assert x in multiset(s) by { assert x in multiset(r); }
    j :| 0 <= j < |s| && s[j] == x;
    var t := Swap(s, i, j);
    front := t[..i];
    SwapPermutes(s, i, j);
    MultisetCancelLast(t, r);
  }

  /** On a sequence of distinct elements, different draw sequences give
      different orderings. Together with `ShuffleReachesEveryPermutation` this
      makes the draws and the orderings correspond one to one, so a uniform
      random source yields every ordering with the same probability. */
  lemma {:induction false} ShuffleInjective<T>(s: seq<T>, js1: seq<nat>, js2: seq<nat>)
    requires forall a, b :: 0 <= a < b < |s| ==> s[a] != s[b]
    requires ValidDraws(|s|, js1) && ValidDraws(|s|, js2)
    requires FisherYates(s, js1) == FisherYates(s, js2)
    ensures js1 == js2
    decreases |s|
  {
    if |s| >= 2 {
      var i := |s| - 1;
      FisherYatesStep(s, js1);
      FisherYatesStep(s, js2);
      var r := FisherYates(s, js1);
      assert s[js1[0]] == r[i] == s[js2[0]];
      assert js1[0] == js2[0];
      var front := Swap(s, i, js1[0])[..i];
      assert FisherYates(front, js1[1..]) == r[..i] == FisherYates(front, js2[1..]);
      forall a, b | 0 <= a < b < i
        ensures front[a] != front[b]
      {
        SwapKeepsDistinct(s, i, js1[0], a, b);
      }
      ShuffleInjective(front, js1[1..], js2[1..]);
      assert js1 == [js1[0]] + js1[1..] && js2 == [js2[0]] + js2[1..];
    }
  }

  /** A swap keeps every element with its multiplicity. */
  lemma SwapPermutes<T>(s: seq<T>, i: nat, j: nat)
    requires i < |s| && j < |s|
    ensures multiset(Swap(s, i, j)) == multiset(s)
  {
  }

  /** Two permutations of each other that end in the same element are
      permutations of each other without it. */
  lemma MultisetCancelLast<T>(a: seq<T>, b: seq<T>)
    requires |a| == |b| > 0 && multiset(a) == multiset(b) && a[|a| - 1] == b[|b| - 1]
    ensures multiset(a[..|a| - 1]) == multiset(b[..|b| - 1])
  {
    var n := |a| - 1;
    assert a == a[..n] + [a[n]];
    assert b == b[..n] + [b[n]];
    var ma := multiset(a[..n]);
    var mb := multiset(b[..n]);
    assert multiset(a) == ma + multiset{a[n]};
    assert multiset(b) == mb + multiset{a[n]};
    forall y
      ensures ma[y] == mb[y]
    {
      assert multiset(a)[y] == ma[y] + multiset{a[n]}[y];
      assert multiset(b)[y] == mb[y] + multiset{a[n]}[y];
    }
  }

  /** A swap moves elements but does not create duplicates. */
  lemma SwapKeepsDistinct<T>(s: seq<T>, i: nat, j: nat, a: nat, b: nat)
    requires forall x, y :: 0 <= x < y < |s| ==> s[x] != s[y]
    requires i < |s| && j < |s| && a < b < |s|
    ensures Swap(s, i, j)[a] != Swap(s, i, j)[b]
  {
    var t := Swap(s, i, j);
    var src := (x: nat) => if x == i then j else if x == j then i else x;
    assert t[a] == s[src(a)] && t[b] == s[src(b)];
    assert src(a) != src(b);
    if src(a) < src(b) {
    } else {
    }
  }
}
