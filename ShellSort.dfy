/**
 * `shellSort` of src/shellSort.c: a gap-h insertion sort over Knuth's increments
 * 1, 4, 13, 40, ..., counting every executed shift test as a comparison and every
 * element shift as a swap.
 *
 * The functions `Sift`, `Pass` and `Shell` follow the three loops of the C code
 * step by step, carrying both counters; the method `ShellSort` is proved equal to
 * them, and the properties the algorithm promises are lemmas about them.
 */
module ShellSort {
  import opened Sorting
  import opened Oracle

  // ------------------------------------------------------------------
  // The gap sequence
  // ------------------------------------------------------------------

  function Pow3(k: nat): (p: nat)
    ensures p >= 1
  {
    if k == 0 then 1 else 3 * Pow3(k - 1)
  }

  lemma {:induction false} Pow3Monotone(a: nat, b: nat)
    requires a <= b
    ensures Pow3(a) <= Pow3(b)
    decreases b
  {
    if a < b {
      Pow3Monotone(a, b - 1);
    }
  }

  lemma {:induction false} Pow3Odd(k: nat)
    ensures Pow3(k) % 2 == 1
  {
    if k > 0 {
      Pow3Odd(k - 1);
      var q := Pow3(k - 1) / 2;
      assert Pow3(k - 1) == 2 * q + 1;
      assert Pow3(k) == 2 * (3 * q + 1) + 1;
    }
  }

  /**
   * The smallest `k >= from` with `3 m^2 < 3^(2k+2)`; starting from a `from` that
   * satisfies `3^(2 from) <= 3 m^2`, that is the `k` with
   * `3^(2k) <= 3 m^2 < 3^(2k+2)`.
   */
  function RoundedLog3From(m: nat, from: nat): (k: nat)
    requires m >= 1 && Pow3(2 * from) <= 3 * m * m
    ensures Pow3(2 * k) <= 3 * m * m < Pow3(2 * k + 2)
    decreases 3 * m * m - Pow3(2 * from)
  {
    if 3 * m * m < Pow3(2 * from + 2) then from
    else
      assert Pow3(2 * from + 2) == 9 * Pow3(2 * from);
      RoundedLog3From(m, from + 1)
  }

  /**
   * Lines 128-129: `floor(log3(m) + 0.5)`, computed exactly.  The rounded value is
   * `k` exactly when `k - 1/2 <= log3(m) < k + 1/2`, that is when
   * `3^(2k-1) <= m^2 < 3^(2k+1)`, which multiplied by 3 is the window below.
   */
  function RoundedLog3(m: nat): (k: nat)
    requires m >= 1
    ensures Pow3(2 * k) <= 3 * m * m < Pow3(2 * k + 2)
  {
    RoundedLog3From(m, 0)
  }

  /** Only one `k` fits the window, so `RoundedLog3` is the rounded logarithm and nothing else. */
  lemma RoundedLog3Unique(m: nat, k: nat)
    requires m >= 1 && Pow3(2 * k) <= 3 * m * m < Pow3(2 * k + 2)
    ensures k == RoundedLog3(m)
  {
    var r := RoundedLog3(m);
    if k < r {
      Pow3Monotone(2 * k + 2, 2 * r);
    } else if r < k {
      Pow3Monotone(2 * r + 2, 2 * k);
    }
  }

  /** Knuth's increment `(3^m - 1) / 2`: 0, 1, 4, 13, 40, ... */
  function KnuthGap(m: nat): nat {
    (Pow3(m) - 1) / 2
  }

  /** Line 150 walks Knuth's sequence down: `(h - 1) / 3` of the `m`-th gap is the `(m-1)`-th, and `h == 3 h' + 1`. */
  lemma KnuthStep(m: nat)
    requires m >= 1
    ensures KnuthGap(m) == 3 * KnuthGap(m - 1) + 1
    ensures (KnuthGap(m) - 1) / 3 == KnuthGap(m - 1)
    ensures KnuthGap(m) >= 1
  {
    Pow3Odd(m - 1);
    var q := Pow3(m - 1) / 2;
    assert Pow3(m - 1) == 2 * q + 1;
    assert Pow3(m) == 6 * q + 3;
    assert KnuthGap(m) == 3 * q + 1;
    assert KnuthGap(m - 1) == q;
  }

  /** Lines 128-130: the first gap for `n` elements. */
  function InitialGap(n: nat): nat {
    KnuthGap(RoundedLog3(n + 1))
  }

  /** For every non-empty array the exponent is at least 1, so the first gap is at least 1. */
  lemma InitialGapPositive(n: nat)
    ensures n >= 1 <==> RoundedLog3(n + 1) >= 1
    ensures n >= 1 <==> InitialGap(n) >= 1
  {
    var k := RoundedLog3(n + 1);
    assert Pow3(2) == 9;
    assert n >= 1 ==> 3 * (n + 1) * (n + 1) >= 12;
    assert n == 0 ==> 3 * (n + 1) * (n + 1) == 3;
    Pow3Monotone(if k >= 1 then 2 else 0, 2 * k);
    if k >= 1 {
      KnuthStep(k);
    }
  }

  /** The gaps the outer loop visits from `h` on, until `h` drops to 0. */
  function GapSequence(h: nat): seq<nat>
    decreases h
  {
    if h == 0 then [] else [h] + GapSequence((h - 1) / 3)
  }

  /** From the `m`-th Knuth increment the gaps are exactly the increments `m, m - 1, ..., 1`, ending with 1. */
  lemma {:induction false} KnuthGapSequence(m: nat)
    ensures |GapSequence(KnuthGap(m))| == m
    ensures forall i :: 0 <= i < m ==> GapSequence(KnuthGap(m))[i] == KnuthGap(m - i)
    ensures m >= 1 ==> GapSequence(KnuthGap(m))[m - 1] == 1
  {
    if m == 0 {
      assert KnuthGap(0) == 0;
    } else {
      KnuthStep(m);
      KnuthGapSequence(m - 1);
      var gaps := GapSequence(KnuthGap(m));
      var rest := GapSequence(KnuthGap(m - 1));
      assert gaps == [KnuthGap(m)] + rest;
      forall i | 0 < i < m ensures gaps[i] == KnuthGap(m - i) {
        assert gaps[i] == rest[i - 1];
        assert m - 1 - (i - 1) == m - i;
      }
      assert KnuthGap(1) == 1;
    }
  }

  /** Number of cells each pass starts, one per `i` in `[h, n)`, summed over the gaps from `h` on. */
  function SortedCost(n: nat, h: nat): nat
    decreases h
  {
    if h == 0 then 0 else (if h < n then n - h else 0) + SortedCost(n, (h - 1) / 3)
  }

  /** Ten elements: the exponent is 2, the gaps are 4 then 1, and a sorted input costs 6 + 9 comparisons. */
  lemma TenElements()
    ensures RoundedLog3(11) == 2
    ensures GapSequence(InitialGap(10)) == [4, 1]
    ensures SortedCost(10, InitialGap(10)) == 15
  {
    assert Pow3(4) == 81 && Pow3(6) == 729;
    RoundedLog3Unique(11, 2);
    assert InitialGap(10) == 4;
    assert GapSequence(0) == [];
    assert GapSequence(1) == [1];
  }

  // ------------------------------------------------------------------
  // The algorithm as functions over the array contents
  // ------------------------------------------------------------------

  /** The array contents and both counters when a loop finishes. */
  datatype Run = Run(a: seq<int>, comparisons: int, swaps: int)

  /**
   * Lines 138-148: the shift loop for the element `aux` taken from index `i`, now at
   * hole `j`.  While `j >= h` each test costs a comparison; a larger `s[j - h]`
   * moves up one gap and costs a swap; finally `aux` is written into the hole.
   */
  function Sift(s: seq<int>, h: nat, j: nat, aux: int, comparisons: int, swaps: int): (r: Run)
    requires h >= 1 && j < |s|
    ensures |r.a| == |s|
    decreases j
  {
    if j >= h then
      if s[j - h] > aux then Sift(s[j := s[j - h]], h, j - h, aux, comparisons + 1, swaps + 1)
      else Run(s[j := aux], comparisons + 1, swaps)
    else Run(s[j := aux], comparisons, swaps)
  }

  /** Lines 133-149: one pass with gap `h`, from index `i` to the end. */
  function Pass(s: seq<int>, h: nat, i: nat, comparisons: int, swaps: int): Run
    requires h >= 1 && i >= h
    decreases |s| - i
  {
    if i >= |s| then Run(s, comparisons, swaps)
    else
      var r := Sift(s, h, i, s[i], comparisons, swaps);
      Pass(r.a, h, i + 1, r.comparisons, r.swaps)
  }

  /** Lines 132-151: the passes with gap `h`, then `(h - 1) / 3`, ... while the gap is at least 1. */
  function Shell(s: seq<int>, h: nat, comparisons: int, swaps: int): Run
    decreases h
  {
    if h >= 1 then
      var r := Pass(s, h, h, comparisons, swaps);
      Shell(r.a, (h - 1) / 3, r.comparisons, r.swaps)
    else Run(s, comparisons, swaps)
  }

  /** Lines 119-152: both counters start at 0 and the first gap is `InitialGap(n)`. */
  function ShellSortModel(s: seq<int>): Run {
    Shell(s, InitialGap(|s|), 0, 0)
  }

  // ------------------------------------------------------------------
  // Permutation
  // ------------------------------------------------------------------

  /** The shift loop rearranges the array with `aux` put back into the hole; it writes nothing above `j`. */
  lemma {:induction false} SiftPermutation(s: seq<int>, h: nat, j: nat, aux: int, comparisons: int, swaps: int)
    requires h >= 1 && j < |s|
    ensures |Sift(s, h, j, aux, comparisons, swaps).a| == |s|
    ensures multiset(Sift(s, h, j, aux, comparisons, swaps).a) == multiset(s[j := aux])
    decreases j
  {
    if j >= h && s[j - h] > aux {
      var t := s[j := s[j - h]];
      SiftPermutation(t, h, j - h, aux, comparisons + 1, swaps + 1);
      assert t[j - h := aux] == Swap(s[j := aux], j, j - h);
      SwapFacts(s[j := aux], j, j - h);
    }
  }

  /** The shift loop writes nothing above the index it started from. */
  lemma {:induction false} SiftFrame(s: seq<int>, h: nat, j: nat, aux: int, comparisons: int, swaps: int)
    requires h >= 1 && j < |s|
    ensures forall p :: j < p < |s| ==> Sift(s, h, j, aux, comparisons, swaps).a[p] == s[p]
    decreases j
  {
    if j >= h && s[j - h] > aux {
      SiftFrame(s[j := s[j - h]], h, j - h, aux, comparisons + 1, swaps + 1);
    }
  }

  lemma {:induction false} PassPermutation(s: seq<int>, h: nat, i: nat, comparisons: int, swaps: int)
    requires h >= 1 && i >= h
    ensures |Pass(s, h, i, comparisons, swaps).a| == |s|
    ensures multiset(Pass(s, h, i, comparisons, swaps).a) == multiset(s)
    decreases |s| - i
  {
    if i < |s| {
      var r := Sift(s, h, i, s[i], comparisons, swaps);
      SiftPermutation(s, h, i, s[i], comparisons, swaps);
      assert s[i := s[i]] == s;
      PassPermutation(r.a, h, i + 1, r.comparisons, r.swaps);
    }
  }

  lemma {:induction false} ShellPermutation(s: seq<int>, h: nat, comparisons: int, swaps: int)
    ensures |Shell(s, h, comparisons, swaps).a| == |s|
    ensures multiset(Shell(s, h, comparisons, swaps).a) == multiset(s)
    decreases h
  {
    if h >= 1 {
      var r := Pass(s, h, h, comparisons, swaps);
      PassPermutation(s, h, h, comparisons, swaps);
      ShellPermutation(r.a, (h - 1) / 3, r.comparisons, r.swaps);
    }
  }

  // ------------------------------------------------------------------
  // Order
  // ------------------------------------------------------------------

  /**
   * The state inside the shift loop for the element taken from index `i`, with the
   * hole at `j`: every gap pair up to `i` not touching the hole is in order, `aux` is
   * smaller than the element one gap above the hole, and the pair bridging the hole
   * is in order.
   */
  predicate HoleSorted(s: seq<int>, h: nat, i: nat, j: nat, aux: int)
    requires h >= 1 && j <= i < |s|
  {
    (forall k :: h <= k <= i && k != j && k - h != j ==> s[k - h] <= s[k]) &&
    (j + h <= i ==> aux < s[j + h]) &&
    (j >= h && j + h <= i ==> s[j - h] <= s[j + h])
  }

  /** The shift loop leaves every gap pair up to `i` in order. */
  lemma {:induction false} SiftOrder(s: seq<int>, h: nat, i: nat, j: nat, aux: int, comparisons: int, swaps: int)
    requires h >= 1 && j <= i < |s| && HoleSorted(s, h, i, j, aux)
    ensures |Sift(s, h, j, aux, comparisons, swaps).a| == |s|
    ensures forall k :: h <= k <= i ==> Sift(s, h, j, aux, comparisons, swaps).a[k - h] <= Sift(s, h, j, aux, comparisons, swaps).a[k]
    decreases j
  {
    if j >= h && s[j - h] > aux {
      var t := s[j := s[j - h]];
      assert HoleSorted(t, h, i, j - h, aux) by {
        forall k | h <= k <= i && k != j - h && k - h != j - h
          ensures t[k - h] <= t[k]
        {
          if k - h == j {
            assert t[k - h] == s[j - h] && t[k] == s[j + h];
          } else if k != j {
            assert t[k - h] == s[k - h] && t[k] == s[k];
          }
        }
        if j - h >= h && j <= i {
          assert t[j - 2 * h] == s[j - 2 * h] && t[j] == s[j - h];
          assert s[(j - h) - h] <= s[j - h];
        }
      }
      SiftOrder(t, h, i, j - h, aux, comparisons + 1, swaps + 1);
    } else {
      var r := s[j := aux];
      forall k | h <= k <= i ensures r[k - h] <= r[k] {
        if k != j && k - h != j {
          assert r[k - h] == s[k - h] && r[k] == s[k];
        }
      }
    }
  }

  /** A pass from `i` on keeps the gap pairs below `i` in order and orders all the others. */
  lemma {:induction false} PassOrder(s: seq<int>, h: nat, i: nat, comparisons: int, swaps: int)
    requires h >= 1 && i >= h
    requires forall k :: h <= k < i && k < |s| ==> s[k - h] <= s[k]
    ensures HSorted(Pass(s, h, i, comparisons, swaps).a, h)
    decreases |s| - i
  {
    if i < |s| {
      SiftOrder(s, h, i, i, s[i], comparisons, swaps);
      var r := Sift(s, h, i, s[i], comparisons, swaps);
      PassOrder(r.a, h, i + 1, r.comparisons, r.swaps);
    }
  }

  /** Lines 132-149: after the pass with gap `h` the array is h-sorted. */
  lemma PassHSorted(s: seq<int>, h: nat, comparisons: int, swaps: int)
    requires h >= 1
    ensures HSorted(Pass(s, h, h, comparisons, swaps).a, h)
  {
    PassOrder(s, h, h, comparisons, swaps);
  }

  /** Starting from a Knuth increment the last pass has gap 1, so the result is sorted. */
  lemma {:induction false} ShellSorted(s: seq<int>, m: nat, comparisons: int, swaps: int)
    requires m >= 1
    ensures Sorted(Shell(s, KnuthGap(m), comparisons, swaps).a)
    decreases m
  {
    KnuthStep(m);
    var r := Pass(s, KnuthGap(m), KnuthGap(m), comparisons, swaps);
    if m == 1 {
      assert KnuthGap(1) == 1;
      PassHSorted(s, 1, comparisons, swaps);
      OneSortedIsSorted(r.a);
    } else {
      ShellSorted(r.a, m - 1, r.comparisons, r.swaps);
    }
  }

  // ------------------------------------------------------------------
  // Counters
  // ------------------------------------------------------------------

  /** Each shift follows its own test; besides those, the loop tests at most once more, and at least once when `j >= h`. */
  lemma {:induction false} SiftCounts(s: seq<int>, h: nat, j: nat, aux: int, comparisons: int, swaps: int)
    requires h >= 1 && j < |s|
    ensures var r := Sift(s, h, j, aux, comparisons, swaps);
            swaps <= r.swaps && r.swaps - swaps <= r.comparisons - comparisons <= r.swaps - swaps + 1 &&
            (j >= h ==> r.comparisons > comparisons) &&
            (j < h ==> r.comparisons == comparisons)
    decreases j
  {
    if j >= h && s[j - h] > aux {
      SiftCounts(s[j := s[j - h]], h, j - h, aux, comparisons + 1, swaps + 1);
    }
  }

  lemma {:induction false} PassCounts(s: seq<int>, h: nat, i: nat, comparisons: int, swaps: int)
    requires h >= 1 && i >= h
    ensures var r := Pass(s, h, i, comparisons, swaps);
            var starts := if i < |s| then |s| - i else 0;
            swaps <= r.swaps && r.swaps - swaps <= r.comparisons - comparisons &&
            comparisons + starts <= r.comparisons <= comparisons + starts + (r.swaps - swaps)
    decreases |s| - i
  {
    if i < |s| {
      var r := Sift(s, h, i, s[i], comparisons, swaps);
      SiftCounts(s, h, i, s[i], comparisons, swaps);
      PassCounts(r.a, h, i + 1, r.comparisons, r.swaps);
    }
  }

  lemma {:induction false} ShellCounts(s: seq<int>, h: nat, comparisons: int, swaps: int)
    ensures var r := Shell(s, h, comparisons, swaps);
            swaps <= r.swaps && r.swaps - swaps <= r.comparisons - comparisons &&
            comparisons + SortedCost(|s|, h) <= r.comparisons <= comparisons + SortedCost(|s|, h) + (r.swaps - swaps)
    decreases h
  {
    if h >= 1 {
      var r := Pass(s, h, h, comparisons, swaps);
      PassCounts(s, h, h, comparisons, swaps);
      PassPermutation(s, h, h, comparisons, swaps);
      ShellCounts(r.a, (h - 1) / 3, r.comparisons, r.swaps);
    }
  }

  // ------------------------------------------------------------------
  // Already sorted input
  // ------------------------------------------------------------------

  lemma {:induction false} PassOnSorted(s: seq<int>, h: nat, i: nat, comparisons: int, swaps: int)
    requires h >= 1 && i >= h && Sorted(s)
    ensures Pass(s, h, i, comparisons, swaps) == Run(s, comparisons + (if i < |s| then |s| - i else 0), swaps)
    decreases |s| - i
  {
    if i < |s| {
      assert s[i - h] <= s[i];
      assert s[i := s[i]] == s;
      assert Sift(s, h, i, s[i], comparisons, swaps) == Run(s, comparisons + 1, swaps);
      PassOnSorted(s, h, i + 1, comparisons + 1, swaps);
    }
  }

  lemma {:induction false} ShellOnSorted(s: seq<int>, h: nat, comparisons: int, swaps: int)
    requires Sorted(s)
    ensures Shell(s, h, comparisons, swaps) == Run(s, comparisons + SortedCost(|s|, h), swaps)
    decreases h
  {
    if h >= 1 {
      PassOnSorted(s, h, h, comparisons, swaps);
      ShellOnSorted(s, (h - 1) / 3, comparisons + (if h < |s| then |s| - h else 0), swaps);
    }
  }

  // ------------------------------------------------------------------
  // What shellSort promises
  // ------------------------------------------------------------------

  /** Lines 119-152: the result is sorted and a rearrangement of the input. */
  lemma ShellSortCorrect(s: seq<int>)
    ensures |ShellSortModel(s).a| == |s|
    ensures Sorted(ShellSortModel(s).a)
    ensures multiset(ShellSortModel(s).a) == multiset(s)
  {
    ShellPermutation(s, InitialGap(|s|), 0, 0);
    InitialGapPositive(|s|);
    if |s| >= 1 {
      ShellSorted(s, RoundedLog3(|s| + 1), 0, 0);
    }
  }

  /**
   * Lines 138-146: every shift costs one swap and follows one comparison, so
   * `swaps <= comparisons`; every index a pass starts costs at least one comparison,
   * and it costs at most one beyond its shifts.
   */
  lemma ShellSortCounts(s: seq<int>)
    ensures 0 <= ShellSortModel(s).swaps <= ShellSortModel(s).comparisons
    ensures SortedCost(|s|, InitialGap(|s|)) <= ShellSortModel(s).comparisons
    ensures ShellSortModel(s).comparisons <= SortedCost(|s|, InitialGap(|s|)) + ShellSortModel(s).swaps
  {
    var h := InitialGap(|s|);
    ShellCounts(s, h, 0, 0);
  }

  /** Lines 133-149: a sorted input comes back unchanged, with no swap, one comparison per started index. */
  lemma ShellSortOnSorted(s: seq<int>)
    requires Sorted(s)
    ensures ShellSortModel(s) == Run(s, SortedCost(|s|, InitialGap(|s|)), 0)
  {
    ShellOnSorted(s, InitialGap(|s|), 0, 0);
  }

  /** The counters of a sorted input are the sum of `n - h` over the gaps below `n`. */
  lemma {:induction false} SortedCostSum(n: nat, h: nat)
    ensures SortedCost(n, h) == GapCost(n, GapSequence(h))
    decreases h
  {
    if h >= 1 {
      SortedCostSum(n, (h - 1) / 3);
      assert GapSequence(h) == [h] + GapSequence((h - 1) / 3);
    }
  }

  function GapCost(n: nat, gaps: seq<nat>): nat {
    if gaps == [] then 0 else (if gaps[0] < n then n - gaps[0] else 0) + GapCost(n, gaps[1..])
  }

  // ------------------------------------------------------------------
  // The method
  // ------------------------------------------------------------------

  /**
   * Lines 119-152, with the floating-point exponent computed exactly.  The final
   * array and both counters are those of `ShellSortModel`; `ShellSortCorrect`,
   * `ShellSortCounts` and `ShellSortOnSorted` state what that means.
   */
  method ShellSort(v: array<int>) returns (comparisons: int, swaps: int)
    modifies v
    ensures Run(v[..], comparisons, swaps) == ShellSortModel(old(v[..]))
  {
    comparisons := 0;
    swaps := 0;
    var n := v.Length;
    var k := RoundedLog3(n + 1);
    var h: nat := (Pow3(k) - 1) / 2;
    ghost var target := ShellSortModel(v[..]);
    while h >= 1
      invariant Shell(v[..], h, comparisons, swaps) == target
      decreases h
    {
      ghost var passed := Pass(v[..], h, h, comparisons, swaps);
      var i := h;
      while i < n
        invariant h <= i
        invariant Pass(v[..], h, i, comparisons, swaps) == passed
        decreases n - i
      {
        var aux := v[i];
        var j: nat := i;
        var continuar := true;
        ghost var sifted := Sift(v[..], h, i, aux, comparisons, swaps);
        while j >= h && continuar
          invariant j <= i < n
          invariant continuar ==> Sift(v[..], h, j, aux, comparisons, swaps) == sifted
          invariant !continuar ==> Run(v[..][j := aux], comparisons, swaps) == sifted
          decreases j + (if continuar then 1 else 0)
        {
          comparisons := comparisons + 1;
          if v[j - h] > aux {
            ghost var before := v[..];
            v[j] := v[j - h];
            assert v[..] == before[j := before[j - h]];
            swaps := swaps + 1;
            j := j - h;
          } else {
            continuar := false;
          }
        }
        ghost var before := v[..];
        v[j] := aux;
        assert v[..] == before[j := aux];
        i := i + 1;
      }
      h := (h - 1) / 3;
    }
  }
}
