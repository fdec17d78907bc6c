/**
 * Cycle sort with exact comparison and write counters (src/cycleSort.c, cycleSort).
 *
 * For a cycle start `c` the segment `v[c..]` is fixed as a multiset while the
 * cycle runs.  Once that segment is sorted, the copies of a value `x` occupy the
 * block of positions starting at `c + CountLess(seg, x)`; this is the "slot"
 * of `x`.  Each write of the algorithm puts a value into its own slot at a
 * position that held a value outside its slot, so the set of misplaced positions
 * shrinks by exactly one per write.  That gives both the termination argument
 * of the cycle-closing loop and the exact number of writes.
 */
module CycleSort {
  import opened Sorting

  /**
   * Position `p` belongs to the slot of `x` when `seg` is laid out sorted from index
   * `base`: past every smaller element and before every larger one (the elements
   * smaller than `x + 1` are those no larger than `x`).
   */
  predicate InSlot(seg: seq<int>, base: int, x: int, p: int) {
    base + CountLess(seg, x) <= p < base + CountLess(seg, x + 1)
  }

  /** `s[c]` is no larger than anything after it. */
  predicate MinAt(s: seq<int>, c: nat) {
    forall j :: c < j < |s| ==> s[c] <= s[j]
  }

  /** Every element before `c` is no larger than any element after it: the settled prefix. */
  predicate SettledPrefix(s: seq<int>, c: int) {
    forall i, j :: 0 <= i < j < |s| && i < c ==> s[i] <= s[j]
  }

  /** Positions from `c` on whose value lies outside its slot for the segment `seg`. */
  ghost function Misplaced(s: seq<int>, c: nat, seg: seq<int>): set<nat> {
    set p: nat | c <= p < |s| && !InSlot(seg, c, s[p], p)
  }

  /** Comparisons made by the first scans of cycle starts `0 .. c - 1` on `n` elements. */
  function ScanCost(n: nat, c: nat): nat
    requires c <= n
  {
    if c == 0 then 0 else ScanCost(n, c - 1) + (n - c)
  }

  lemma {:induction false} ScanCostClosedForm(n: nat, c: nat)
    requires c <= n
    ensures 2 * ScanCost(n, c) == c * (2 * n - c - 1)
  {
    if c > 0 {
      ScanCostClosedForm(n, c - 1);
    }
  }

  /** All `n - 1` cycle starts together pay for `n(n-1)/2` comparisons. */
  lemma FullScanCost(n: nat)
    requires n > 0
    ensures 2 * ScanCost(n, n - 1) == n * (n - 1)
  {
    ScanCostClosedForm(n, n - 1);
  }

  /** Slots of different values never overlap. */
  lemma SlotsDisjoint(seg: seq<int>, base: int, x: int, y: int, p: int)
    requires InSlot(seg, base, x, p) && x != y
    ensures !InSlot(seg, base, y, p)
  {
    CountLessNext(seg, x);
    CountLessNext(seg, y);
    if x < y {
      CountLessMonotone(seg, x, y);
    } else {
      CountLessMonotone(seg, y, x);
    }
  }

  /** Writing a value into its own slot over a misplaced value settles exactly that position. */
  lemma MisplacedWrite(s: seq<int>, c: nat, seg: seq<int>, p: nat, x: int)
    requires c <= p < |s|
    requires !InSlot(seg, c, s[p], p) && InSlot(seg, c, x, p)
    ensures Misplaced(s[p := x], c, seg) == Misplaced(s, c, seg) - {p}
    ensures |Misplaced(s[p := x], c, seg)| == |Misplaced(s, c, seg)| - 1
  {
    assert Misplaced(s[p := x], c, seg) == Misplaced(s, c, seg) - {p};
    assert p in Misplaced(s, c, seg);
  }

  /**
   * Once `s[c]` is a minimum of the segment, slots for the segment from `c` and for
   * the segment from `c + 1` agree on every position after `c`, and `c` itself is settled.
   */
  lemma MisplacedShift(s: seq<int>, c: nat, seg: seq<int>)
    requires c < |s| && multiset(s[c..]) == multiset(seg)
    requires MinAt(s, c)
    ensures Misplaced(s, c, seg) == Misplaced(s, c + 1, s[c + 1..])
  {
    var m := s[c];
    var rest := s[c + 1..];
    assert s[c..] == [m] + rest;
    CountLessZero(rest, m);
    forall x | m <= x
      ensures CountLess(seg, x) == (if m < x then 1 else 0) + CountLess(rest, x)
      ensures multiset(seg)[x] == (if m == x then 1 else 0) + multiset(rest)[x]
    {
      CountLessPermutation(seg, [m] + rest, x);
      CountLessAppend([m], rest, x);
      assert [m][..0] == [];
    }
    assert InSlot(seg, c, m, c);
    forall p: nat | c < p < |s|
      ensures InSlot(seg, c, s[p], p) <==> InSlot(rest, c + 1, s[p], p)
    {
      assert s[p] == rest[p - c - 1];
    }
  }

  /** A one-element segment is always settled. */
  lemma MisplacedLast(s: seq<int>)
    requires |s| > 0
    ensures Misplaced(s, |s| - 1, s[|s| - 1..]) == {}
  {
    var c := |s| - 1;
    assert s[c..] == [s[c]];
    assert CountLess([s[c]], s[c]) == 0 by {
      assert [s[c]][..0] == [];
    }
    assert InSlot(s[c..], c, s[c], c);
  }

  lemma {:induction false} AllBelow(s: seq<int>, y: int)
    requires forall k :: 0 <= k < |s| ==> s[k] < y
    ensures CountLess(s, y) == |s|
    decreases |s|
  {
    if s != [] {
      AllBelow(s[..|s| - 1], y);
    }
  }

  /** In a sorted sequence every element sits in its own slot. */
  lemma SortedInSlot(s: seq<int>, p: nat)
    requires Sorted(s) && p < |s|
    ensures InSlot(s, 0, s[p], p)
  {
    var x := s[p];
    assert s == s[..p] + s[p..];
    CountLessAppend(s[..p], s[p..], x);
    CountLessZero(s[p..], x);
    CountLessPlusCopies(s[..p], x);
    assert s == s[..p + 1] + s[p + 1..];
    CountLessAppend(s[..p + 1], s[p + 1..], x + 1);
    AllBelow(s[..p + 1], x + 1);
  }

  /** No position of a sequence is misplaced exactly when the sequence is sorted. */
  lemma NoMisplacedIffSorted(s: seq<int>)
    ensures Misplaced(s, 0, s) == {} <==> Sorted(s)
  {
    if Sorted(s) {
      forall p: nat | p < |s| ensures InSlot(s, 0, s[p], p) {
        SortedInSlot(s, p);
      }
      assert Misplaced(s, 0, s) == {};
    } else {
      var p, q :| 0 <= p < q < |s| && s[p] > s[q];
      if InSlot(s, 0, s[q], q) {
        SlotsDisjoint(s, 0, s[q], s[p], q);
        CountLessMonotone(s, s[q], s[p]);
        CountLessNext(s, s[q]);
        CountLessNext(s, s[p]);
        assert p in Misplaced(s, 0, s);
      } else {
        assert q in Misplaced(s, 0, s);
      }
    }
  }

  /** Two sorted arrangements of the same elements are equal. */
  lemma SortedPermutationUnique(a: seq<int>, b: seq<int>)
    requires Sorted(a) && Sorted(b) && multiset(a) == multiset(b)
    ensures a == b
  {
    assert |a| == |multiset(a)| == |b|;
    forall p | 0 <= p < |a| ensures a[p] == b[p] {
      SortedInSlot(a, p);
      SortedInSlot(b, p);
      CountLessPermutation(a, b, b[p]);
      CountLessPermutation(a, b, b[p] + 1);
      if a[p] != b[p] {
        SlotsDisjoint(a, 0, a[p], b[p], p);
      }
    }
  }

  /** The positions `0 .. n - 1`. */
  function Positions(n: nat): (r: set<nat>)
    ensures forall p: nat :: p in r <==> p < n
    ensures |r| == n
  {
    if n == 0 then {}
    else
      var r := Positions(n - 1);
      assert n - 1 !in r;
      r + {n - 1}
  }

  lemma {:induction false} SubsetSize(a: set<nat>, b: set<nat>)
    requires a <= b
    ensures |a| <= |b|
    decreases |b|
  {
    if a != {} {
      var x :| x in a;
      SubsetSize(a - {x}, b - {x});
    }
  }

  /** At most every position is misplaced. */
  lemma MisplacedBound(s: seq<int>)
    ensures |Misplaced(s, 0, s)| <= |s|
  {
    SubsetSize(Misplaced(s, 0, s), Positions(|s|));
  }

  /** A lower bound of a segment stays a lower bound of any rearrangement of it. */
  lemma LowerBoundPermutation(s: seq<int>, t: seq<int>, x: int)
    requires multiset(s) == multiset(t)
    requires forall k :: 0 <= k < |s| ==> x <= s[k]
    ensures forall k :: 0 <= k < |t| ==> x <= t[k]
  {
    CountLessZero(s, x);
    CountLessPermutation(s, t, x);
    CountLessZero(t, x);
  }

  /**
   * After cycle start `c` has placed a minimum of the rest at `c`, the ordered
   * prefix grows by one position and the whole sequence is still a permutation.
   */
  lemma PrefixStep(prev: seq<int>, cur: seq<int>, c: nat)
    requires c < |prev| == |cur|
    requires cur[..c] == prev[..c] && multiset(cur[c..]) == multiset(prev[c..])
    requires MinAt(cur, c)
    ensures SettledPrefix(prev, c) ==> SettledPrefix(cur, c + 1)
    ensures multiset(cur) == multiset(prev)
  {
    assert prev == prev[..c] + prev[c..] && cur == cur[..c] + cur[c..];
    if SettledPrefix(prev, c) {
      forall i | 0 <= i < c ensures forall k :: 0 <= k < |cur[c..]| ==> cur[i] <= cur[c..][k] {
        assert forall k :: 0 <= k < |prev[c..]| ==> prev[i] <= prev[c..][k];
        LowerBoundPermutation(prev[c..], cur[c..], cur[i]);
      }
      forall i, j | 0 <= i < j < |cur| && i < c + 1 ensures cur[i] <= cur[j] {
        if i < c && c <= j {
          assert cur[j] == cur[c..][j - c];
        }
      }
    }
  }

  /** The scan of lines 121-126 (and 142-147): `pos` ends at `c` plus the number of smaller elements after `c`. */
  method CountSmaller(v: array<int>, c: nat, item: int) returns (pos: nat, comparisons: nat)
    requires c < v.Length
    ensures pos == c + CountLess(v[c + 1..], item)
    ensures comparisons == v.Length - 1 - c
  {
    pos, comparisons := c, 0;
    for j := c + 1 to v.Length
      invariant pos == c + CountLess(v[c + 1..j], item)
      invariant comparisons == j - c - 1
    {
      comparisons := comparisons + 1;
      assert v[c + 1..j + 1][..j - c - 1] == v[c + 1..j];
      if v[j] < item {
        pos := pos + 1;
      }
    }
    assert v[c + 1..v.Length] == v[c + 1..];
  }

  /**
   * Lines 129-132: from the first position of the slot of `item`, skip the positions
   * that already hold a copy of `item`.  The loop tests no bound; it stops inside the
   * slot of `item` because one copy of `item` is in hand rather than in `v[c + 1..]`.
   */
  method SkipCopies(v: array<int>, c: nat, item: int, start: nat, ghost seg: seq<int>)
    returns (pos: nat, comparisons: nat)
    requires c < start < v.Length && |seg| == v.Length - c
    requires multiset(v[c + 1..]) + multiset{item} == multiset(seg)
    requires start == c + CountLess(seg, item)
    ensures start <= pos < v.Length && InSlot(seg, c, item, pos) && v[pos] != item
    ensures forall k :: start <= k < pos ==> v[k] == item
    ensures comparisons == pos - start
  {
    CountLessPlusCopies(seg, item);
    CountLessNext(seg, item);
    pos, comparisons := start, 0;
    while item == v[pos]
      invariant start <= pos < start + multiset(seg)[item]
      invariant forall k :: start <= k < pos ==> v[k] == item
      invariant comparisons == pos - start
      decreases v.Length - pos
    {
      pos := pos + 1;
      comparisons := comparisons + 1;
      RunMultiplicity(v[c + 1..], start - c - 1, pos - c - 1, item);
    }
  }

  /**
   * Lines 149-152: the same skip inside the cycle-closing loop, this time guarded by
   * `pos < n`.  When the slot of `item` starts at `c` itself, `v[c]` still holds the
   * value the cycle started from, which differs from `item`, so nothing is skipped.
   */
  method SkipCopiesBounded(v: array<int>, c: nat, item: int, start: nat, ghost seg: seq<int>)
    returns (pos: nat, comparisons: nat)
    requires c <= start < v.Length && |seg| == v.Length - c
    requires multiset(v[c + 1..]) + multiset{item} == multiset(seg)
    requires start == c + CountLess(seg, item)
    requires start == c ==> v[c] != item
    ensures start <= pos < v.Length && InSlot(seg, c, item, pos) && v[pos] != item
    ensures forall k :: start <= k < pos ==> v[k] == item
    ensures start == c ==> pos == c
    ensures comparisons == pos - start
  {
    CountLessPlusCopies(seg, item);
    CountLessNext(seg, item);
    pos, comparisons := start, 0;
    while pos < v.Length && item == v[pos]
      invariant start <= pos < start + multiset(seg)[item]
      invariant start == c ==> pos == c
      invariant forall k :: start <= k < pos ==> v[k] == item
      invariant comparisons == pos - start
      decreases v.Length - pos
    {
      pos := pos + 1;
      comparisons := comparisons + 1;
      RunMultiplicity(v[c + 1..], start - c - 1, pos - c - 1, item);
    }
  }

  /** The value taken out of position `p > c` is the one now in hand. */
  lemma HandOff(s: seq<int>, c: nat, p: nat, x: int)
    requires c < p < |s|
    ensures multiset(s[p := x][c + 1..]) + multiset{s[p]} == multiset(s[c + 1..]) + multiset{x}
  {
    assert s[p := x][c + 1..] == s[c + 1..][p - c - 1 := x];
  }

  /** The rescan of lines 142-147 finds the first position of the slot of `item`. */
  lemma RescanFindsSlot(rest: seq<int>, item: int, seg: seq<int>)
    requires multiset(rest) + multiset{item} == multiset(seg)
    ensures CountLess(rest, item) == CountLess(seg, item)
  {
    CountLessPermutation(rest + [item], seg, item);
    CountLessAppend(rest, [item], item);
    assert [item][..0] == [];
  }

  /**
   * One iteration of the cycle-closing loop (lines 140-157): rescan for the slot of
   * `item`, skip the copies already there, and exchange `item` with the value found.
   * Exactly one misplaced position becomes settled.
   */
  method CycleStep(v: array<int>, c: nat, item: int, ghost seg: seq<int>, ghost first: int)
    returns (pos: nat, displaced: int, comparisons: nat)
    requires c + 1 < v.Length && |seg| == v.Length - c
    requires v[c] == first && CountLess(seg, first) > 0
    requires multiset(v[c + 1..]) + multiset{item} == multiset(seg)
    modifies v
    ensures c <= pos < v.Length && displaced == old(v[pos])
    ensures InSlot(seg, c, item, pos) && displaced != item
    ensures forall k :: c + CountLess(seg, item) <= k < pos ==> old(v[k]) == item
    ensures v[..] == old(v[..])[pos := item]
    ensures |Misplaced(v[..], c, seg)| == |Misplaced(old(v[..]), c, seg)| - 1
    ensures pos != c ==> v[c] == first && multiset(v[c + 1..]) + multiset{displaced} == multiset(seg)
    ensures pos == c ==> multiset(v[c..]) == multiset(seg)
    ensures pos == c ==> MinAt(v[..], c)
    ensures comparisons >= v.Length - 1 - c
  {
    var scanned, skipped;
    pos, scanned := CountSmaller(v, c, item);
    RescanFindsSlot(v[c + 1..], item, seg);
    CountLessPlusCopies(seg, item);
    pos, skipped := SkipCopiesBounded(v, c, item, pos, seg);
    comparisons := scanned + skipped;
    SlotsDisjoint(seg, c, item, v[pos], pos);
    MisplacedWrite(v[..], c, seg, pos, item);
    if pos == c {
      CountLessZero(v[c + 1..], item);
    } else {
      HandOff(v[..], c, pos, item);
    }
    displaced := v[pos];
    v[pos] := item;
    if pos == c {
      assert v[c..] == [v[c]] + v[c + 1..];
    }
  }

  /** A product with a positive factor is at least the other factor; kept apart so the nonlinear step stays out of PlaceCycle. */
  lemma ScaleAtLeast(a: nat, b: nat)
    requires b >= 1
    ensures a * b >= a
    ensures a >= 1 ==> a * b >= b
  {
  }

  /**
   * Lines 129-137: the first write of a cycle.  The value taken from `c` goes past
   * its copies into its slot, and the value found there becomes the one in hand.
   */
  method StartCycle(v: array<int>, c: nat, start: nat) returns (pos: nat, displaced: int, comparisons: nat)
    requires c + 1 < v.Length && start != c
    requires start == c + CountLess(v[c + 1..], v[c])
    modifies v
    ensures c < pos < v.Length && displaced == old(v[pos])
    ensures InSlot(old(v[c..]), c, old(v[c]), pos) && displaced != old(v[c])
    ensures forall k :: start <= k < pos ==> old(v[k]) == old(v[c])
    ensures v[..] == old(v[..])[pos := old(v[c])]
    ensures comparisons == pos - start
    ensures CountLess(old(v[c..]), old(v[c])) > 0
    ensures multiset(v[c + 1..]) + multiset{displaced} == multiset(old(v[c..]))
    ensures |Misplaced(v[..], c, old(v[c..]))| == |Misplaced(old(v[..]), c, old(v[c..]))| - 1
  {
    ghost var seg := v[c..];
    var item := v[c];
    assert seg == [item] + v[c + 1..];
    assert multiset(seg) == multiset(v[c + 1..]) + multiset{item};
    CountLessPlusCopies(v[c + 1..], item);
    RescanFindsSlot(v[c + 1..], item, seg);
    assert !InSlot(seg, c, v[c], c);
    pos, comparisons := SkipCopies(v, c, item, start, seg);
    SlotsDisjoint(seg, c, item, v[pos], pos);
    MisplacedWrite(v[..], c, seg, pos, item);
    HandOff(v[..], c, pos, item);
    displaced := v[pos];
    v[pos] := item;
  }

  /**
   * Lines 139-158: follow the cycle until a value lands back on `c`.  Each round
   * costs a full rescan and settles one misplaced position, so the loop ends.
   */
  method CloseCycle(v: array<int>, c: nat, pos0: nat, item0: int, ghost seg: seq<int>)
    returns (comparisons: nat, swaps: nat)
    requires c < pos0 < v.Length && |seg| == v.Length - c
    requires CountLess(seg, v[c]) > 0
    requires multiset(v[c + 1..]) + multiset{item0} == multiset(seg)
    modifies v
    ensures v[..c] == old(v[..c])
    ensures multiset(v[c..]) == multiset(seg)
    ensures MinAt(v[..], c)
    ensures swaps + |Misplaced(v[..], c, seg)| == |Misplaced(old(v[..]), c, seg)|
    ensures swaps >= 1 && comparisons >= swaps * (v.Length - 1 - c)
  {
    var n := v.Length;
    ghost var first := v[c];
    ghost var scan := n - 1 - c;
    ghost var misplaced0 := |Misplaced(v[..], c, seg)|;
    var pos, item := pos0, item0;
    comparisons, swaps := 0, 0;
    // the first round is unrolled so that `swaps >= 1` holds on exit
    var stepComparisons;
    pos, item, stepComparisons := CycleStep(v, c, item, seg, first);
    comparisons, swaps := stepComparisons, 1;
    while pos != c
      invariant c <= pos < n
      invariant v[..c] == old(v[..c])
      invariant pos != c ==> v[c] == first && multiset(v[c + 1..]) + multiset{item} == multiset(seg)
      invariant pos == c ==> multiset(v[c..]) == multiset(seg)
      invariant pos == c ==> MinAt(v[..], c)
      invariant swaps >= 1
      invariant swaps + |Misplaced(v[..], c, seg)| == misplaced0
      invariant comparisons >= swaps * scan
      decreases |Misplaced(v[..], c, seg)|
    {
      pos, item, stepComparisons := CycleStep(v, c, item, seg, first);
      comparisons := comparisons + stepComparisons;
      assert (swaps + 1) * scan == swaps * scan + scan;
      swaps := swaps + 1;
    }
  }

  /**
   * One iteration of the outer loop of cycleSort, for cycle start `c` (lines 118-159):
   * it leaves a minimum of `v[c..]` at `c`, rearranges only `v[c..]`, and makes one
   * write per position it settles.
   */
  method PlaceCycle(v: array<int>, c: nat) returns (comparisons: nat, swaps: nat)
    requires c + 1 < v.Length
    modifies v
    ensures v[..c] == old(v[..c])
    ensures multiset(v[c..]) == multiset(old(v[c..]))
    ensures MinAt(v[..], c)
    ensures swaps + |Misplaced(v[..], c + 1, v[c + 1..])| == |Misplaced(old(v[..]), c, old(v[c..]))|
    ensures comparisons >= (if swaps == 0 then 1 else swaps) * (v.Length - 1 - c)
    ensures comparisons >= v.Length - 1 - c && comparisons >= swaps
    ensures swaps == 0 <==> CountLess(old(v[c + 1..]), old(v[c])) == 0
    ensures swaps == 0 ==> v[..] == old(v[..]) && comparisons == v.Length - 1 - c
  {
    ghost var seg := v[c..];
    var item := v[c];
    var pos, scanned := CountSmaller(v, c, item);
    if pos != c {
      var skipped, closing, closingSwaps;
      pos, item, skipped := StartCycle(v, c, pos);
      assert v[..c] == old(v[..c]);
      closing, closingSwaps := CloseCycle(v, c, pos, item, seg);
      comparisons, swaps := scanned + skipped + closing, 1 + closingSwaps;
      assert (1 + closingSwaps) * (v.Length - 1 - c) == closingSwaps * (v.Length - 1 - c) + (v.Length - 1 - c);
      ScaleAtLeast(swaps, v.Length - 1 - c);
    } else {
      comparisons, swaps := scanned, 0;
      CountLessZero(v[c + 1..], item);
    }
    MisplacedShift(v[..], c, seg);
  }

  /**
   * cycleSort (lines 113-161): sorts `v` in place.  Both counters start from zero;
   * the number of writes is exactly the number of input positions holding a value
   * outside its sorted slot, and every cycle start pays at least one full scan.
   */
  method CycleSort(v: array<int>) returns (comparisons: nat, swaps: nat)
    modifies v
    ensures Sorted(v[..])
    ensures multiset(v[..]) == multiset(old(v[..]))
    ensures swaps == |Misplaced(old(v[..]), 0, old(v[..]))|
    ensures swaps <= v.Length && swaps <= comparisons
    ensures 2 * comparisons >= v.Length * (v.Length - 1)
    ensures Sorted(old(v[..])) ==>
              v[..] == old(v[..]) && swaps == 0 && 2 * comparisons == v.Length * (v.Length - 1)
  {
    var n := v.Length;
    comparisons, swaps := 0, 0;
    ghost var input := v[..];
    ghost var misplaced0 := |Misplaced(input, 0, input)|;
    MisplacedBound(input);
    assert v[0..] == input;
    var c := 0;
    while c < n - 1
      invariant c <= n && (n > 0 ==> c <= n - 1)
      invariant SettledPrefix(v[..], c)
      invariant multiset(v[..]) == multiset(input)
      invariant swaps + |Misplaced(v[..], c, v[c..])| == misplaced0
      invariant comparisons >= ScanCost(n, c) && comparisons >= swaps
      invariant swaps == 0 ==> comparisons == ScanCost(n, c)
    {
      ghost var prev := v[..];
      var cycleComparisons, cycleSwaps := PlaceCycle(v, c);
      assert SettledPrefix(v[..], c + 1) && multiset(v[..]) == multiset(input) by {
        PrefixStep(prev, v[..], c);
      }
      comparisons, swaps := comparisons + cycleComparisons, swaps + cycleSwaps;
      c := c + 1;
    }
    if n > 0 {
      MisplacedLast(v[..]);
      assert v[n - 1..] == v[..][n - 1..];
      FullScanCost(n);
    }
    assert Sorted(v[..]);
    if Sorted(input) {
      NoMisplacedIffSorted(input);
      SortedPermutationUnique(v[..], input);
    }
  }
}
