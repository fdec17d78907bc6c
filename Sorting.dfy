/** Orderings on integer sequences and the counting facts both sorts rely on. */
module Sorting {

  /** Non-decreasing order. */
  predicate Sorted(s: seq<int>) {
    forall i, j :: 0 <= i < j < |s| ==> s[i] <= s[j]
  }

  /** Every element is no larger than the one `h` places after it. */
  predicate HSorted(s: seq<int>, h: nat) {
    forall k :: h <= k < |s| ==> s[k - h] <= s[k]
  }

  /** Number of elements of `s` strictly smaller than `x`. */
  function CountLess(s: seq<int>, x: int): nat {
    if s == [] then 0
    else CountLess(s[..|s| - 1], x) + (if s[|s| - 1] < x then 1 else 0)
  }

  /** Sorted and 1-sorted are the same thing. */
  lemma {:induction false} OneSortedIsSorted(s: seq<int>)
    ensures HSorted(s, 1) <==> Sorted(s)
  {
    if HSorted(s, 1) {
      forall i, j | 0 <= i < j < |s| ensures s[i] <= s[j] {
        OneSortedStep(s, i, j);
      }
    }
  }

  lemma {:induction false} OneSortedStep(s: seq<int>, i: int, j: int)
    requires HSorted(s, 1) && 0 <= i <= j < |s|
    ensures s[i] <= s[j]
    decreases j - i
  {
    if i < j {
      OneSortedStep(s, i, j - 1);
    }
  }

  lemma {:induction false} CountLessAppend(a: seq<int>, b: seq<int>, x: int)
    ensures CountLess(a + b, x) == CountLess(a, x) + CountLess(b, x)
    decreases |b|
  {
    if b == [] {
      assert a + b == a;
    } else {
      assert (a + b)[..|a + b| - 1] == a + b[..|b| - 1];
      CountLessAppend(a, b[..|b| - 1], x);
    }
  }

  /** Counting smaller elements does not depend on the order of the elements. */
  lemma {:induction false} CountLessPermutation(s: seq<int>, t: seq<int>, x: int)
    requires multiset(s) == multiset(t)
    ensures CountLess(s, x) == CountLess(t, x)
    decreases |s|
  {
    if s == [] {
      assert |t| == |multiset(t)| == 0;
    } else {
      var e := s[|s| - 1];
      var s' := s[..|s| - 1];
      assert s == s' + [e];
      assert e in multiset(t);
      var k :| 0 <= k < |t| && t[k] == e;
      var t' := t[..k] + t[k + 1..];
      assert t == t[..k] + [e] + t[k + 1..];
      assert multiset(t') == multiset(t) - multiset{e};
      assert multiset(s') == multiset(s) - multiset{e};
      CountLessPermutation(s', t', x);
      CountLessAppend(s', [e], x);
      CountLessAppend(t[..k], [e], x);
      CountLessAppend(t[..k] + [e], t[k + 1..], x);
      CountLessAppend(t[..k], t[k + 1..], x);
      assert CountLess([e], x) == (if e < x then 1 else 0) by {
        assert [e][..0] == [];
      }
    }
  }

  /** The smaller elements and the copies of `x` are disjoint parts of `s`. */
  lemma {:induction false} CountLessPlusCopies(s: seq<int>, x: int)
    ensures CountLess(s, x) + multiset(s)[x] <= |s|
    decreases |s|
  {
    if s != [] {
      assert s == s[..|s| - 1] + [s[|s| - 1]];
      CountLessPlusCopies(s[..|s| - 1], x);
    }
  }

  /** The elements below `x + 1` are those below `x` and the copies of `x`. */
  lemma {:induction false} CountLessNext(s: seq<int>, x: int)
    ensures CountLess(s, x + 1) == CountLess(s, x) + multiset(s)[x]
    decreases |s|
  {
    if s != [] {
      assert s == s[..|s| - 1] + [s[|s| - 1]];
      CountLessNext(s[..|s| - 1], x);
    }
  }

  /** Values below `y` include every value below or equal to a smaller `z`. */
  lemma {:induction false} CountLessMonotone(s: seq<int>, z: int, y: int)
    requires z < y
    ensures CountLess(s, z) + multiset(s)[z] <= CountLess(s, y)
    decreases |s|
  {
    if s != [] {
      assert s == s[..|s| - 1] + [s[|s| - 1]];
      CountLessMonotone(s[..|s| - 1], z, y);
    }
  }

  /** No element is smaller than `x` exactly when `x` is a lower bound. */
  lemma {:induction false} CountLessZero(s: seq<int>, x: int)
    ensures CountLess(s, x) == 0 <==> forall k :: 0 <= k < |s| ==> x <= s[k]
    decreases |s|
  {
    if s != [] {
      var s' := s[..|s| - 1];
      CountLessZero(s', x);
      assert forall k :: 0 <= k < |s'| ==> s'[k] == s[k];
    }
  }

  /** A run of `hi - lo` copies of `x` inside `s` contributes that many to its multiplicity. */
  lemma RunMultiplicity(s: seq<int>, lo: int, hi: int, x: int)
    requires 0 <= lo <= hi <= |s|
    requires forall k :: lo <= k < hi ==> s[k] == x
    ensures multiset(s)[x] >= hi - lo
  {
    assert s == s[..lo] + s[lo..hi] + s[hi..];
    AllCopies(s[lo..hi], x);
  }

  lemma {:induction false} AllCopies(s: seq<int>, x: int)
    requires forall k :: 0 <= k < |s| ==> s[k] == x
    ensures multiset(s)[x] == |s|
    decreases |s|
  {
    if s != [] {
      assert s == [x] + s[1..];
      AllCopies(s[1..], x);
    }
  }

  /** Rearranging a sequence keeps its values inside any interval `[lo, hi)` that held them. */
  lemma BoundsPermutation(s: seq<int>, t: seq<int>, lo: int, hi: int)
    requires multiset(s) == multiset(t)
    requires forall i :: 0 <= i < |s| ==> lo <= s[i] < hi
    ensures forall i :: 0 <= i < |t| ==> lo <= t[i] < hi
  {
    forall i | 0 <= i < |t| ensures lo <= t[i] < hi {
      assert t[i] in multiset(t);
      assert t[i] in multiset(s);
      var p :| 0 <= p < |s| && s[p] == t[i];
    }
  }

  /** No value occurs twice. */
  predicate Distinct(s: seq<int>) {
    forall i, j :: 0 <= i < j < |s| ==> s[i] != s[j]
  }

  lemma {:induction false} DistinctMultiplicity(s: seq<int>, x: int)
    requires Distinct(s)
    ensures multiset(s)[x] <= 1
    decreases |s|
  {
    if s != [] {
      var s' := s[..|s| - 1];
      assert s == s' + [s[|s| - 1]];
      DistinctMultiplicity(s', x);
      if s[|s| - 1] == x {
        assert x !in multiset(s');
      }
    }
  }

  lemma TwoCopies(t: seq<int>, i: int, j: int)
    requires 0 <= i < j < |t| && t[i] == t[j]
    ensures multiset(t)[t[i]] >= 2
  {
    assert t == t[..j] + [t[j]] + t[j + 1..];
    assert t[..j][i] == t[i];
    assert t[i] in multiset(t[..j]);
  }

  /** Rearranging a sequence without repeated values leaves none repeated. */
  lemma DistinctPermutation(s: seq<int>, t: seq<int>)
    requires multiset(s) == multiset(t) && Distinct(s)
    ensures Distinct(t)
  {
    forall i, j | 0 <= i < j < |t| ensures t[i] != t[j] {
      if t[i] == t[j] {
        TwoCopies(t, i, j);
        DistinctMultiplicity(s, t[i]);
      }
    }
  }
}
