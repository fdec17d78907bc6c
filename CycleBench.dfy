/**
 * The input generator `gerarVetor` of src/cycleSort.c (whose shuffle is
 * `Oracle.Shuffle`) and the repetition loop of `executarExperimento`, with the
 * array size `TAM_VETOR` as the array's length `n` and the value bound `TAM_MAX`
 * as the parameter `maxV`.
 */
module CycleBench {
  import opened Sorting
  import opened Oracle
  import opened CycleSort

  /** The running value of a drift and the cursor of the next draw. */
  datatype Cursor = Cursor(value: int, next: nat)

  /**
   * Lines 74-80: one step of the ascending drift.  The running value grows by
   * `1 + rand() % (maxV / n)`; if that passes `maxV` it restarts just below `maxV`
   * with a second draw.
   */
  function DriftUp(c: Cursor, n: nat, maxV: nat, rand: RandomStream): Cursor
    requires 1 <= n <= maxV && maxV >= 10
  {
    var up := c.value + (1 + rand(c.next) % (maxV / n));
    if up > maxV then Cursor(maxV - rand(c.next + 1) % (maxV / 10), c.next + 2) else Cursor(up, c.next + 1)
  }

  /** Lines 91-97: one step of the descending drift, restarting near 0 when it goes negative. */
  function DriftDown(c: Cursor, n: nat, maxV: nat, rand: RandomStream): Cursor
    requires 1 <= n <= maxV && maxV >= 10
  {
    var down := c.value - (1 + rand(c.next) % (maxV / n));
    if down < 0 then Cursor(rand(c.next + 1) % (maxV / 10), c.next + 2) else Cursor(down, c.next + 1)
  }

  function DriftStep(ascending: bool, c: Cursor, n: nat, maxV: nat, rand: RandomStream): Cursor
    requires 1 <= n <= maxV && maxV >= 10
  {
    if ascending then DriftUp(c, n, maxV, rand) else DriftDown(c, n, maxV, rand)
  }

  /** The drift after `i` iterations of the fill loop, each storing the value and then stepping. */
  function DriftAfter(ascending: bool, start: Cursor, i: nat, n: nat, maxV: nat, rand: RandomStream): Cursor
    requires maxV >= 10 && i <= n <= maxV
  {
    if i == 0 then start else DriftStep(ascending, DriftAfter(ascending, start, i - 1, n, maxV, rand), n, maxV, rand)
  }

  /** Type 1 (line 69): the drift starts in `[0, maxV / 10)` with the first draw. */
  function AscendingStart(maxV: nat, rand: RandomStream, k: nat): Cursor
    requires maxV >= 10
  {
    Cursor(rand(k) % (maxV / 10), k + 1)
  }

  /** Type 2 (line 86): the drift starts in `(maxV - maxV / 10, maxV]` with the first draw. */
  function DescendingStart(maxV: nat, rand: RandomStream, k: nat): Cursor
    requires maxV >= 10
  {
    Cursor(maxV - rand(k) % (maxV / 10), k + 1)
  }

  predicate HoldsDrift(ascending: bool, start: Cursor, vs: seq<int>, n: nat, maxV: nat, rand: RandomStream)
    requires maxV >= 10 && n <= maxV && |vs| <= n
  {
    forall p :: 0 <= p < |vs| ==> vs[p] == DriftAfter(ascending, start, p, n, maxV, rand).value
  }

  /** Storing the next value of the drift extends what a prefix holds. */
  lemma HoldsDriftExtend(ascending: bool, start: Cursor, vs: seq<int>, x: int, n: nat, maxV: nat, rand: RandomStream)
    requires maxV >= 10 && n <= maxV && |vs| < n
    requires HoldsDrift(ascending, start, vs, n, maxV, rand)
    requires x == DriftAfter(ascending, start, |vs|, n, maxV, rand).value
    ensures HoldsDrift(ascending, start, vs + [x], n, maxV, rand)
  {
  }

  /** Type 3, lines 102-104: `v[i]` is draw `k + i` reduced modulo `maxV`. */
  function UniformFill(n: nat, maxV: nat, rand: RandomStream, k: nat): (r: seq<int>)
    requires n > 0 ==> maxV >= 1
    ensures |r| == n
  {
    seq(n, i requires 0 <= i < n => rand(k + i) % maxV)
  }

  /** Every drift step from a value in `[0, maxV]` stays there. */
  lemma DriftStepInRange(ascending: bool, c: Cursor, n: nat, maxV: nat, rand: RandomStream)
    requires 1 <= n <= maxV && maxV >= 10 && 0 <= c.value <= maxV
    ensures 0 <= DriftStep(ascending, c, n, maxV, rand).value <= maxV
  {
    assert maxV / 10 >= 1;
    assert 0 <= rand(c.next + 1) % (maxV / 10) < maxV / 10;
  }

  /** A drift that starts inside `[0, maxV]` never leaves it. */
  lemma {:induction false} DriftInRange(ascending: bool, start: Cursor, i: nat, n: nat, maxV: nat, rand: RandomStream)
    requires maxV >= 10 && i <= n <= maxV && 0 <= start.value <= maxV
    ensures 0 <= DriftAfter(ascending, start, i, n, maxV, rand).value <= maxV
  {
    if i > 0 {
      DriftInRange(ascending, start, i - 1, n, maxV, rand);
      DriftStepInRange(ascending, DriftAfter(ascending, start, i - 1, n, maxV, rand), n, maxV, rand);
    }
  }

  /**
   * Between consecutive stored values the drift moves by a step in `[1, maxV / n]`
   * in its direction, except right after a restart, which lands in
   * `(maxV - maxV / 10, maxV]` (ascending) or `[0, maxV / 10)` (descending).
   */
  predicate DriftPair(ascending: bool, a: int, b: int, n: nat, maxV: nat)
    requires n >= 1
  {
    if ascending then (1 <= b - a <= maxV / n) || (maxV - maxV / 10 < b <= maxV)
    else (1 <= a - b <= maxV / n) || (0 <= b < maxV / 10)
  }

  /** One drift step moves as `DriftPair` says. */
  lemma DriftStepShape(ascending: bool, c: Cursor, n: nat, maxV: nat, rand: RandomStream)
    requires 1 <= n <= maxV && maxV >= 10
    ensures DriftPair(ascending, c.value, DriftStep(ascending, c, n, maxV, rand).value, n, maxV)
  {
    var d := maxV / n;
    assert maxV / n >= 1;
    assert 0 <= rand(c.next) % d < d;
    assert maxV / 10 >= 1;
    assert 0 <= rand(c.next + 1) % (maxV / 10) < maxV / 10;
  }

  /** Types 1 and 2: every stored value lies in `[0, maxV]`, and consecutive ones are related by `DriftPair`. */
  lemma DriftVectorFacts(ascending: bool, n: nat, maxV: nat, rand: RandomStream, k: nat, p: nat)
    requires maxV >= 10 && n <= maxV && p < n
    ensures var start := if ascending then AscendingStart(maxV, rand, k) else DescendingStart(maxV, rand, k);
            0 <= DriftAfter(ascending, start, p, n, maxV, rand).value <= maxV &&
            (p + 1 < n ==> DriftPair(ascending, DriftAfter(ascending, start, p, n, maxV, rand).value,
                                     DriftAfter(ascending, start, p + 1, n, maxV, rand).value, n, maxV))
  {
    var start := if ascending then AscendingStart(maxV, rand, k) else DescendingStart(maxV, rand, k);
    assert maxV / 10 >= 1;
    assert 0 <= rand(k) % (maxV / 10) < maxV / 10;
    DriftInRange(ascending, start, p, n, maxV, rand);
    DriftStepShape(ascending, DriftAfter(ascending, start, p, n, maxV, rand), n, maxV, rand);
  }

  /** The first stored value of type 1 is in `[0, maxV / 10)`, of type 2 in `(maxV - maxV / 10, maxV]`. */
  lemma DriftStartRange(maxV: nat, rand: RandomStream, k: nat)
    requires maxV >= 10
    ensures 0 <= AscendingStart(maxV, rand, k).value < maxV / 10
    ensures maxV - maxV / 10 < DescendingStart(maxV, rand, k).value <= maxV
  {
    assert maxV / 10 >= 1;
    assert 0 <= rand(k) % (maxV / 10) < maxV / 10;
  }

  /** Type 2 reaches `maxV` itself: a first draw divisible by `maxV / 10` starts the drift there. */
  lemma DescendingReachesMax(maxV: nat, rand: RandomStream, k: nat)
    requires maxV >= 10 && rand(k) % (maxV / 10) == 0
    ensures DescendingStart(maxV, rand, k).value == maxV
  {
  }

  /**
   * When every draw gives the same step `d` and the values stay within `maxV`, the
   * ascending drift is the arithmetic progression `value, value + d, ...`.
   */
  lemma {:induction false} DriftUpProgression(start: Cursor, i: nat, n: nat, maxV: nat, rand: RandomStream, d: int)
    requires maxV >= 10 && 1 <= n <= maxV && i <= n
    requires forall j: nat :: start.next <= j ==> 1 + rand(j) % (maxV / n) == d
    requires start.value + i * d <= maxV
    ensures DriftAfter(true, start, i, n, maxV, rand) == Cursor(start.value + i * d, start.next + i)
  {
    if i > 0 {
      assert start.value + (i - 1) * d + d == start.value + i * d;
      assert maxV / n >= 1;
      assert d == 1 + rand(start.next) % (maxV / n) >= 1;
      DriftUpProgression(start, i - 1, n, maxV, rand, d);
    }
  }

  /**
   * Type 1 reaches `maxV`: with 11 elements bounded by 110, a first draw of 10 and every
   * later draw 9 give the progression 10, 20, ..., 110.
   */
  lemma AscendingReachesMax()
    ensures var rand: RandomStream := k => if k == 0 then 10 else 9;
            forall p :: 0 <= p <= 10 ==> DriftAfter(true, AscendingStart(110, rand, 0), p, 11, 110, rand).value == 10 * (p + 1)
  {
    var rand: RandomStream := k => if k == 0 then 10 else 9;
    assert forall j: nat :: 1 <= j ==> rand(j) == 9;
    assert 110 / 11 == 10 && 9 % 10 == 9 && 10 % (110 / 10) == 10;
    forall p | 0 <= p <= 10
      ensures DriftAfter(true, AscendingStart(110, rand, 0), p, 11, 110, rand).value == 10 * (p + 1)
    {
      DriftUpProgression(AscendingStart(110, rand, 0), p, 11, 110, rand, 10);
    }
  }

  /** Lines 69-81: type 1 fills `v` with the ascending drift. */
  method FillAscending(v: array<int>, maxV: nat, rand: RandomStream, k: nat) returns (next: nat)
    requires maxV >= 10 && v.Length <= maxV
    modifies v
    ensures HoldsDrift(true, AscendingStart(maxV, rand, k), v[..], v.Length, maxV, rand)
    ensures next == DriftAfter(true, AscendingStart(maxV, rand, k), v.Length, v.Length, maxV, rand).next
  {
    var n := v.Length;
    ghost var start := AscendingStart(maxV, rand, k);
    var value := rand(k) % (maxV / 10);
    next := k + 1;
    var i := 0;
    while i < n
      invariant 0 <= i <= n
      invariant Cursor(value, next) == DriftAfter(true, start, i, n, maxV, rand)
      invariant HoldsDrift(true, start, v[..i], n, maxV, rand)
    {
      assert maxV / n >= 1;
      ghost var before := Cursor(value, next);
      v[i] := value;
      var increment := 1 + rand(next) % (maxV / n);
      value := value + increment;
      next := next + 1;
      if value > maxV {
        value := maxV - rand(next) % (maxV / 10);
        next := next + 1;
      }
      assert Cursor(value, next) == DriftStep(true, before, n, maxV, rand);
      assert v[..i + 1] == v[..i] + [before.value];
      HoldsDriftExtend(true, start, v[..i], before.value, n, maxV, rand);
      i := i + 1;
    }
  }

  /** Lines 86-98: type 2 fills `v` with the descending drift. */
  method FillDescending(v: array<int>, maxV: nat, rand: RandomStream, k: nat) returns (next: nat)
    requires maxV >= 10 && v.Length <= maxV
    modifies v
    ensures HoldsDrift(false, DescendingStart(maxV, rand, k), v[..], v.Length, maxV, rand)
    ensures next == DriftAfter(false, DescendingStart(maxV, rand, k), v.Length, v.Length, maxV, rand).next
  {
    var n := v.Length;
    ghost var start := DescendingStart(maxV, rand, k);
    var value := maxV - rand(k) % (maxV / 10);
    next := k + 1;
    var i := 0;
    while i < n
      invariant 0 <= i <= n
      invariant Cursor(value, next) == DriftAfter(false, start, i, n, maxV, rand)
      invariant HoldsDrift(false, start, v[..i], n, maxV, rand)
    {
      assert maxV / n >= 1;
      ghost var before := Cursor(value, next);
      v[i] := value;
      var decrement := 1 + rand(next) % (maxV / n);
      value := value - decrement;
      next := next + 1;
      if value < 0 {
        value := rand(next) % (maxV / 10);
        next := next + 1;
      }
      assert Cursor(value, next) == DriftStep(false, before, n, maxV, rand);
      assert v[..i + 1] == v[..i] + [before.value];
      HoldsDriftExtend(false, start, v[..i], before.value, n, maxV, rand);
      i := i + 1;
    }
  }

  /** Lines 102-104: type 3 first fills `v` with draws reduced modulo `maxV`. */
  method FillUniform(v: array<int>, maxV: nat, rand: RandomStream, k: nat) returns (next: nat)
    requires v.Length > 0 ==> maxV >= 1
    modifies v
    ensures v[..] == UniformFill(v.Length, maxV, rand, k)
    ensures next == k + v.Length
  {
    var i := 0;
    while i < v.Length
      invariant 0 <= i <= v.Length
      invariant forall p :: 0 <= p < i ==> v[p] == rand(k + p) % maxV
    {
      v[i] := rand(k + i) % maxV;
      i := i + 1;
    }
    next := k + v.Length;
  }

  /**
   * gerarVetor (lines 64-109): type 1 ascending drift, type 2 descending drift,
   * type 3 uniform fill followed by a shuffle; any other type leaves `v` alone.
   * The `%` operands must be positive, which is what the requires clauses ask.
   */
  method GenerateVector(v: array<int>, kind: int, maxV: nat, rand: RandomStream, k: nat) returns (next: nat)
    requires (kind == 1 || kind == 2) ==> maxV >= 10 && v.Length <= maxV
    requires kind == 3 && v.Length > 0 ==> maxV >= 1
    modifies v
    ensures kind == 1 ==> HoldsDrift(true, AscendingStart(maxV, rand, k), v[..], v.Length, maxV, rand)
    ensures kind == 1 ==> next == DriftAfter(true, AscendingStart(maxV, rand, k), v.Length, v.Length, maxV, rand).next
    ensures kind == 2 ==> HoldsDrift(false, DescendingStart(maxV, rand, k), v[..], v.Length, maxV, rand)
    ensures kind == 2 ==> next == DriftAfter(false, DescendingStart(maxV, rand, k), v.Length, v.Length, maxV, rand).next
    ensures kind == 3 ==> v[..] == FisherYates(UniformFill(v.Length, maxV, rand, k), rand, k + v.Length)
    ensures kind == 3 ==> next == k + v.Length + Draws(v.Length)
    ensures kind != 1 && kind != 2 && kind != 3 ==> v[..] == old(v[..]) && next == k
  {
    if kind == 1 {
      next := FillAscending(v, maxV, rand, k);
    } else if kind == 2 {
      next := FillDescending(v, maxV, rand, k);
    } else if kind == 3 {
      next := FillUniform(v, maxV, rand, k);
      next := Shuffle(v, rand, next);
    } else {
      next := k;
    }
  }

  /** Type 3 gives values in `[0, maxV)`, a rearrangement of the values filled before the shuffle. */
  lemma UniformVectorFacts(n: nat, maxV: nat, rand: RandomStream, k: nat)
    requires n > 0 ==> maxV >= 1
    ensures var filled := UniformFill(n, maxV, rand, k);
            var shuffled := FisherYates(filled, rand, k + n);
            |shuffled| == n && multiset(shuffled) == multiset(filled) &&
            forall i :: 0 <= i < n ==> 0 <= shuffled[i] < maxV
  {
    var filled := UniformFill(n, maxV, rand, k);
    var shuffled := FisherYates(filled, rand, k + n);
    FisherYatesPermutation(filled, rand, k + n);
    BoundsPermutation(filled, shuffled, 0, maxV);
  }

  /**
   * executarExperimento (lines 307-332) without the printing and the clock: each
   * repetition generates a fresh vector, sorts it and records both counters.
   */
  method RunCycleExperiment(kind: int, n: nat, maxV: nat, rand: RandomStream, k: nat,
                            comparisons: array<int>, swaps: array<int>) returns (next: nat)
    requires (kind == 1 || kind == 2) ==> maxV >= 10 && n <= maxV
    requires kind == 3 && n > 0 ==> maxV >= 1
    requires comparisons.Length == swaps.Length && comparisons != swaps
    modifies comparisons, swaps
    ensures forall r :: 0 <= r < comparisons.Length ==>
              2 * comparisons[r] >= n * (n - 1) && 0 <= swaps[r] <= n && swaps[r] <= comparisons[r]
  {
    var vector := new int[n];
    next := k;
    var r := 0;
    while r < comparisons.Length
      invariant 0 <= r <= comparisons.Length
      invariant forall q :: 0 <= q < r ==>
                  2 * comparisons[q] >= n * (n - 1) && 0 <= swaps[q] <= n && swaps[q] <= comparisons[q]
    {
      next := GenerateVector(vector, kind, maxV, rand, next);
      var c, s := CycleSort.CycleSort(vector);
      comparisons[r], swaps[r] := c, s;
      r := r + 1;
    }
  }
}
