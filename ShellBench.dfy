/**
 * The input side of src/shellSort.c: the interval check, the three generators,
 * the copy helper and the copy-then-sort repetition loop of `main`.  The constants
 * `INICIO_INTERVALO`, `FIM_INTERVALO` and `TAM_VETOR` are the parameters `lo`,
 * `hi` and the array length `n`.
 */
module ShellBench {
  import opened Sorting
  import opened Oracle
  import ShellSort

  /** Lines 16-23: the interval `[lo, hi]` holds exactly as many values as the array has cells. */
  function IntervalValid(lo: int, hi: int, n: nat): bool {
    hi - lo + 1 == n
  }

  /** What gerarCrescente stores in the first `n` cells: `lo, lo + 1, ...`. */
  function Ascending(n: nat, lo: int): (s: seq<int>)
    ensures |s| == n
  {
    if n == 0 then [] else Ascending(n - 1, lo) + [lo + n - 1]
  }

  /** What gerarDecrescente stores in the first `n` cells: `hi, hi - 1, ...`. */
  function Descending(n: nat, hi: int): (s: seq<int>)
    ensures |s| == n
  {
    if n == 0 then [] else Descending(n - 1, hi) + [hi - (n - 1)]
  }

  /** Cell `i` of the ascending vector holds `lo + i`, of the descending one `hi - i`. */
  lemma {:induction false} GeneratedAt(n: nat, lo: int, hi: int)
    ensures forall i :: 0 <= i < n ==> Ascending(n, lo)[i] == lo + i && Descending(n, hi)[i] == hi - i
  {
    if n > 0 {
      GeneratedAt(n - 1, lo, hi);
      assert forall i :: 0 <= i < n - 1 ==> Ascending(n, lo)[i] == Ascending(n - 1, lo)[i];
      assert forall i :: 0 <= i < n - 1 ==> Descending(n, hi)[i] == Descending(n - 1, hi)[i];
    }
  }

  /** `a` read backwards is `b`. */
  predicate Reversed(a: seq<int>, b: seq<int>) {
    |a| == |b| && forall i :: 0 <= i < |a| ==> a[i] == b[|a| - 1 - i]
  }

  /**
   * For a non-empty array the interval check passes exactly when the descending
   * vector is the ascending one reversed; then both take every value of `[lo, hi]`
   * and nothing else.
   */
  lemma IntervalCoverage(lo: int, hi: int, n: nat)
    ensures n >= 1 ==> (IntervalValid(lo, hi, n) <==> Reversed(Descending(n, hi), Ascending(n, lo)))
    ensures IntervalValid(lo, hi, n) ==>
              forall i :: 0 <= i < n ==> lo <= Ascending(n, lo)[i] <= hi && lo <= Descending(n, hi)[i] <= hi
    ensures IntervalValid(lo, hi, n) ==>
              forall x :: lo <= x <= hi ==> x in Ascending(n, lo) && x in Descending(n, hi)
  {
    var asc, desc := Ascending(n, lo), Descending(n, hi);
    GeneratedAt(n, lo, hi);
    if IntervalValid(lo, hi, n) {
      forall i | 0 <= i < n ensures desc[i] == asc[n - 1 - i] {
        assert desc[i] == hi - i && asc[n - 1 - i] == lo + (n - 1 - i);
      }
      forall i | 0 <= i < n ensures lo <= asc[i] <= hi && lo <= desc[i] <= hi {
        assert asc[i] == lo + i && desc[i] == hi - i;
      }
      forall x | lo <= x <= hi ensures x in asc && x in desc {
        assert asc[x - lo] == x;
        assert desc[hi - x] == x;
      }
    } else if n >= 1 {
      assert desc[0] == hi && asc[n - 1 - 0] == lo + (n - 1);
    }
  }

  /** Lines 50-58: gerarCrescente. */
  method GenerateAscending(v: array<int>, lo: int)
    modifies v
    ensures v[..] == Ascending(v.Length, lo)
  {
    var value := lo;
    var i := 0;
    while i < v.Length
      invariant 0 <= i <= v.Length && value == lo + i
      invariant v[..i] == Ascending(i, lo)
    {
      v[i] := value;
      assert v[..i + 1] == v[..i] + [value];
      value := value + 1;
      i := i + 1;
    }
  }

  /** Lines 60-67: gerarDecrescente. */
  method GenerateDescending(v: array<int>, hi: int)
    modifies v
    ensures v[..] == Descending(v.Length, hi)
  {
    var value := hi;
    var i := 0;
    while i < v.Length
      invariant 0 <= i <= v.Length && value == hi - i
      invariant v[..i] == Descending(i, hi)
    {
      v[i] := value;
      assert v[..i + 1] == v[..i] + [value];
      value := value - 1;
      i := i + 1;
    }
  }

  /**
   * Lines 69-83: gerarAleatorio fills the ascending vector and shuffles it in place
   * (its Fisher-Yates loop is `Oracle.Shuffle`).
   */
  method GenerateRandom(v: array<int>, lo: int, rand: RandomStream, k: nat) returns (next: nat)
    modifies v
    ensures v[..] == FisherYates(Ascending(v.Length, lo), rand, k)
    ensures next == k + Draws(v.Length)
  {
    GenerateAscending(v, lo);
    next := Shuffle(v, rand, k);
  }

  /**
   * The random vector rearranges the ascending one, so its values are distinct, lie
   * in `[lo, lo + n)` (which is `[lo, hi]` when the interval check passes) and each
   * value of that range occurs.
   */
  lemma RandomVectorFacts(n: nat, lo: int, rand: RandomStream, k: nat)
    ensures |FisherYates(Ascending(n, lo), rand, k)| == n
    ensures multiset(FisherYates(Ascending(n, lo), rand, k)) == multiset(Ascending(n, lo))
    ensures Distinct(FisherYates(Ascending(n, lo), rand, k))
    ensures forall i :: 0 <= i < n ==> lo <= FisherYates(Ascending(n, lo), rand, k)[i] < lo + n
    ensures forall x :: lo <= x < lo + n ==> x in FisherYates(Ascending(n, lo), rand, k)
  {
    var asc := Ascending(n, lo);
    var shuffled := FisherYates(asc, rand, k);
    GeneratedAt(n, lo, lo);
    FisherYatesPermutation(asc, rand, k);
    DistinctPermutation(asc, shuffled);
    BoundsPermutation(asc, shuffled, lo, lo + n);
    forall x | lo <= x < lo + n ensures x in shuffled {
      assert asc[x - lo] == x;
      assert x in multiset(asc);
      assert x in multiset(shuffled);
    }
  }

  /** Lines 26-30: copiarVetor copies every cell and leaves the source alone. */
  method CopyVector(source: array<int>, target: array<int>)
    requires source.Length == target.Length
    modifies target
    ensures target[..] == old(source[..])
    ensures source[..] == old(source[..])
  {
    var i := 0;
    while i < source.Length
      invariant 0 <= i <= source.Length
      invariant source[..] == old(source[..])
      invariant forall p :: 0 <= p < i ==> target[p] == source[p]
    {
      target[i] := source[i];
      i := i + 1;
    }
  }

  /**
   * Lines 270-278 without the clock: every repetition sorts a fresh copy of the
   * original, so the original never changes, the last copy ends sorted, and every
   * repetition records the same counters, those of `ShellSort.ShellSortModel`.
   */
  method RunShellTrials(original: array<int>, test: array<int>, comparisons: array<int>, swaps: array<int>)
    requires original.Length == test.Length && comparisons.Length == swaps.Length
    requires original != test && comparisons != swaps
    requires comparisons != original && comparisons != test && swaps != original && swaps != test
    modifies test, comparisons, swaps
    ensures original[..] == old(original[..])
    ensures forall r :: 0 <= r < comparisons.Length ==>
              comparisons[r] == ShellSort.ShellSortModel(old(original[..])).comparisons &&
              swaps[r] == ShellSort.ShellSortModel(old(original[..])).swaps
    ensures comparisons.Length > 0 ==> test[..] == ShellSort.ShellSortModel(old(original[..])).a
  {
    ghost var expected := ShellSort.ShellSortModel(original[..]);
    var r := 0;
    while r < comparisons.Length
      invariant 0 <= r <= comparisons.Length
      invariant original[..] == old(original[..])
      invariant forall q :: 0 <= q < r ==> comparisons[q] == expected.comparisons && swaps[q] == expected.swaps
      invariant r > 0 ==> test[..] == expected.a
    {
      CopyVector(original, test);
      var c, s := ShellSort.ShellSort(test);
      comparisons[r], swaps[r] := c, s;
      r := r + 1;
    }
  }
}
