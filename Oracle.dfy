/**
 * The pseudo-random source and the Fisher-Yates shuffle shared by both programs
 * (`shuffle` in src/cycleSort.c and the loop inside `gerarAleatorio` in src/shellSort.c).
 *
 * `rand()` is an infinite stream of non-negative draws: the `k`-th call returns
 * `rand(k)`.  Every operation that draws takes the cursor of its first draw and
 * returns the cursor after its last one, so each property below holds for every
 * stream.
 */
module Oracle {

  type RandomStream = nat -> nat

  /** The index chosen at step `i` of the shuffle, from draw `r`: it always lies in `[0, i]`. */
  function Pick(r: nat, i: nat): (j: nat)
    ensures j <= i
  {
    r % (i + 1)
  }

  /** Exchanging two cells. */
  function Swap(s: seq<int>, i: nat, j: nat): (r: seq<int>)
    requires i < |s| && j < |s|
    ensures |r| == |s|
  {
    s[i := s[j]][j := s[i]]
  }

  /** A swap moves only the two cells it names and loses no value. */
  lemma SwapFacts(s: seq<int>, i: nat, j: nat)
    requires i < |s| && j < |s|
    ensures Swap(s, i, j)[i] == s[j] && Swap(s, i, j)[j] == s[i]
    ensures forall p :: 0 <= p < |s| && p != i && p != j ==> Swap(s, i, j)[p] == s[p]
    ensures multiset(Swap(s, i, j)) == multiset(s)
  {
    var t := s[i := s[j]];
    assert multiset(t) == multiset(s) - multiset{s[i]} + multiset{s[j]};
  }

  /** The shuffle from step `i` down to step 1, the draw for step `i` being `rand(k)`. */
  function FisherYatesFrom(s: seq<int>, rand: RandomStream, k: nat, i: nat): (r: seq<int>)
    requires i < |s|
    ensures |r| == |s|
    decreases i
  {
    if i == 0 then s
    else FisherYatesFrom(Swap(s, i, Pick(rand(k), i)), rand, k + 1, i - 1)
  }

  /** Steps `i` down to 1 rearrange the elements and never touch a position above `i`. */
  lemma {:induction false} FisherYatesFromFacts(s: seq<int>, rand: RandomStream, k: nat, i: nat)
    requires i < |s|
    ensures multiset(FisherYatesFrom(s, rand, k, i)) == multiset(s)
    ensures forall p :: i < p < |s| ==> FisherYatesFrom(s, rand, k, i)[p] == s[p]
    decreases i
  {
    if i > 0 {
      var j := Pick(rand(k), i);
      SwapFacts(s, i, j);
      FisherYatesFromFacts(Swap(s, i, j), rand, k + 1, i - 1);
    }
  }

  /** The whole shuffle of `s` (steps `|s| - 1` down to 1), first draw `rand(k)`. */
  function FisherYates(s: seq<int>, rand: RandomStream, k: nat): seq<int> {
    if |s| == 0 then s else FisherYatesFrom(s, rand, k, |s| - 1)
  }

  /** Number of draws the shuffle of `n` elements takes: one per step. */
  function Draws(n: nat): nat {
    if n == 0 then 0 else n - 1
  }

  /** The shuffle is a permutation, and sequences of at most one element come back unchanged. */
  lemma FisherYatesPermutation(s: seq<int>, rand: RandomStream, k: nat)
    ensures |FisherYates(s, rand, k)| == |s|
    ensures multiset(FisherYates(s, rand, k)) == multiset(s)
    ensures |s| <= 1 ==> FisherYates(s, rand, k) == s
  {
    if |s| > 0 {
      FisherYatesFromFacts(s, rand, k, |s| - 1);
    }
  }

  /** After step `i`, position `i` keeps the value drawn into it: later steps never touch it. */
  lemma FisherYatesStep(s: seq<int>, rand: RandomStream, k: nat, i: nat)
    requires 0 < i < |s|
    ensures FisherYatesFrom(s, rand, k, i)[i] == s[Pick(rand(k), i)]
  {
    var j := Pick(rand(k), i);
    assert FisherYatesFrom(s, rand, k, i) == FisherYatesFrom(Swap(s, i, j), rand, k + 1, i - 1);
    SwapFacts(s, i, j);
    FisherYatesFromFacts(Swap(s, i, j), rand, k + 1, i - 1);
  }

  /**
   * The in-place Fisher-Yates loop from `v[n - 1]` down to `v[1]`: `shuffle` in
   * src/cycleSort.c (lines 53-61) and the loop inside `gerarAleatorio` in
   * src/shellSort.c (lines 76-82) are the same loop.  What it promises (a
   * permutation; nothing changes for `n <= 1`) is `FisherYatesPermutation`.
   */
  method Shuffle(v: array<int>, rand: RandomStream, k: nat) returns (next: nat)
    modifies v
    ensures v[..] == FisherYates(old(v[..]), rand, k)
    ensures next == k + Draws(v.Length)
  {
    ghost var target := FisherYates(v[..], rand, k);
    next := k;
    var i: int := v.Length - 1;
    while i > 0
      invariant -1 <= i < v.Length && (v.Length > 0 ==> i >= 0)
      invariant i >= 0 ==> FisherYatesFrom(v[..], rand, next, i) == target
      invariant next + i == k + v.Length - 1
    {
      ghost var before := v[..];
      var j := Pick(rand(next), i);
      var temp := v[i];
      v[i] := v[j];
      v[j] := temp;
      assert v[..] == Swap(before, i, j);
      next := next + 1;
      i := i - 1;
    }
  }
}
