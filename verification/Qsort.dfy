/** The C library's `qsort`: one index walks up over ordered neighbours and down with swapped ones. */
module Qsort {
  /** The comparator orders all elements, ties allowed. */
  ghost predicate TotalPreorder<T(!new)>(cmp: (T, T) -> int) {
    && (forall x, y :: cmp(x, y) <= 0 || cmp(y, x) <= 0)
    && (forall x, y, z :: cmp(x, y) <= 0 && cmp(y, z) <= 0 ==> cmp(x, z) <= 0)
  }

  ghost predicate Sorted<T>(cmp: (T, T) -> int, s: seq<T>) {
    forall i, j :: 0 <= i < j < |s| ==> cmp(s[i], s[j]) <= 0
  }

  /** The elements of `s` that tie with `x`, in their order. */
  function Ties<T>(cmp: (T, T) -> int, s: seq<T>, x: T): seq<T> {
    if s == [] then []
    else Ties(cmp, s[..|s| - 1], x) + (if cmp(s[|s| - 1], x) <= 0 && cmp(x, s[|s| - 1]) <= 0 then [s[|s| - 1]] else [])
  }

  /** A stable rearrangement: the same elements, ties in the order they had. */
  ghost predicate Stable<T(!new)>(cmp: (T, T) -> int, s: seq<T>, r: seq<T>) {
    multiset(r) == multiset(s) && forall x :: Ties(cmp, r, x) == Ties(cmp, s, x)
  }

  /** How many elements of `s` are greater than `x`. */
  function Greater<T>(cmp: (T, T) -> int, s: seq<T>, x: T): nat {
    if s == [] then 0 else Greater(cmp, s[..|s| - 1], x) + (if cmp(s[|s| - 1], x) > 0 then 1 else 0)
  }

  /** Pairs of elements in the wrong order. */
  function Inversions<T>(cmp: (T, T) -> int, s: seq<T>): nat {
    if s == [] then 0 else Inversions(cmp, s[..|s| - 1]) + Greater(cmp, s[..|s| - 1], s[|s| - 1])
  }

  function Swapped<T>(s: seq<T>, i: nat): seq<T>
    requires 0 < i < |s|
  {
    s[i - 1 := s[i]][i := s[i - 1]]
  }

  lemma SwappedInit<T>(s: seq<T>, i: nat)
    requires 0 < i < |s| - 1
    ensures Swapped(s, i)[..|s| - 1] == Swapped(s[..|s| - 1], i) && Swapped(s, i)[|s| - 1] == s[|s| - 1]
  {}

  /** The last two elements swapped. */
  lemma SwappedEnd<T>(s: seq<T>)
    requires |s| >= 2
    ensures var n := |s|; var r := Swapped(s, n - 1);
      && r[..n - 1][..n - 2] == s[..n - 1][..n - 2] == s[..n - 2] && |r[..n - 1]| == n - 1
      && r[..n - 1][n - 2] == s[n - 1] && r[n - 1] == s[n - 2] && s[..n - 1][n - 2] == s[n - 2]
  {}

  lemma {:induction false} GreaterSwapped<T>(cmp: (T, T) -> int, s: seq<T>, i: nat, x: T)
    requires 0 < i < |s|
    ensures Greater(cmp, Swapped(s, i), x) == Greater(cmp, s, x)
    decreases |s|
  {
    if i < |s| - 1 {
      SwappedInit(s, i);
      GreaterSwapped(cmp, s[..|s| - 1], i, x);
    } else {
      SwappedEnd(s);
    }
  }

  /** Swapping neighbours in the wrong order removes exactly one inversion. */
  lemma {:induction false} InversionsSwapped<T>(cmp: (T, T) -> int, s: seq<T>, i: nat)
    requires 0 < i < |s| && cmp(s[i - 1], s[i]) > 0 && cmp(s[i], s[i - 1]) <= 0
    ensures Inversions(cmp, Swapped(s, i)) == Inversions(cmp, s) - 1
    decreases |s|
  {
    if i < |s| - 1 {
      SwappedInit(s, i);
      GreaterSwapped(cmp, s[..|s| - 1], i, s[|s| - 1]);
      InversionsSwapped(cmp, s[..|s| - 1], i);
    } else {
      SwappedEnd(s);
    }
  }

  /** Swapping two elements that do not tie leaves every group of ties in order. */
  lemma {:induction false} TiesSwapped<T(!new)>(cmp: (T, T) -> int, s: seq<T>, i: nat, x: T)
    requires TotalPreorder(cmp) && 0 < i < |s| && cmp(s[i - 1], s[i]) > 0
    ensures Ties(cmp, Swapped(s, i), x) == Ties(cmp, s, x)
    decreases |s|
  {
    if i < |s| - 1 {
      SwappedInit(s, i);
      TiesSwapped(cmp, s[..|s| - 1], i, x);
    } else {
      PairSwapped(cmp, s, Swapped(s, i), x);
    }
  }

  /** The case of the last two elements. */
  lemma PairSwapped<T(!new)>(cmp: (T, T) -> int, s: seq<T>, r: seq<T>, x: T)
    requires TotalPreorder(cmp) && |s| >= 2 && |r| == |s| && r[..|s| - 2] == s[..|s| - 2]
    requires r[|s| - 2] == s[|s| - 1] && r[|s| - 1] == s[|s| - 2] && cmp(s[|s| - 2], s[|s| - 1]) > 0
    ensures Ties(cmp, r, x) == Ties(cmp, s, x)
  {
    TiesOfPair(cmp, s, x);
    TiesOfPair(cmp, r, x);
    assert !(cmp(s[|s| - 2], x) <= 0 && cmp(x, s[|s| - 1]) <= 0);
  }

  /** The last two elements and what ties with them. */
  lemma TiesOfPair<T>(cmp: (T, T) -> int, s: seq<T>, x: T)
    requires |s| >= 2
    ensures var a, b := s[|s| - 2], s[|s| - 1];
      Ties(cmp, s, x) == Ties(cmp, s[..|s| - 2], x)
        + (if cmp(a, x) <= 0 && cmp(x, a) <= 0 then [a] else [])
          + (if cmp(b, x) <= 0 && cmp(x, b) <= 0 then [b] else [])
  {
    assert s[..|s| - 1][..|s| - 2] == s[..|s| - 2];
  }

  lemma SwappedStable<T(!new)>(cmp: (T, T) -> int, s: seq<T>, r: seq<T>, i: nat)
    requires TotalPreorder(cmp) && Stable(cmp, s, r) && 0 < i < |r| && cmp(r[i - 1], r[i]) > 0
    ensures Stable(cmp, s, Swapped(r, i))
  {
    forall x ensures Ties(cmp, Swapped(r, i), x) == Ties(cmp, s, x) {
      TiesSwapped(cmp, r, i, x);
    }
  }

  lemma SortedGrows<T(!new)>(cmp: (T, T) -> int, s: seq<T>, i: nat)
    requires TotalPreorder(cmp) && i < |s| && Sorted(cmp, s[..i]) && (i > 0 ==> cmp(s[i - 1], s[i]) <= 0)
    ensures Sorted(cmp, s[..i + 1])
  {
    var r := s[..i + 1];
    forall j, k | 0 <= j < k < |r| ensures cmp(r[j], r[k]) <= 0 {
      assert k < i ==> s[..i][j] == r[j] && s[..i][k] == r[k];
      if k == i && j < i - 1 {
        assert cmp(s[..i][j], s[..i][i - 1]) <= 0;
      }
    }
  }

  /** What a swap does to order, stability and inversions. */
  lemma SwapStep<T(!new)>(cmp: (T, T) -> int, s: seq<T>, b: seq<T>, i: nat)
    requires TotalPreorder(cmp) && Stable(cmp, s, b) && 0 < i < |b| && Sorted(cmp, b[..i]) && cmp(b[i - 1], b[i]) > 0
    ensures Stable(cmp, s, Swapped(b, i)) && Sorted(cmp, Swapped(b, i)[..i - 1])
    ensures Inversions(cmp, Swapped(b, i)) < Inversions(cmp, b)
  {
    InversionsSwapped(cmp, b, i);
    SwappedStable(cmp, s, b, i);
    SwappedSorted(cmp, b, i);
  }

  lemma SwappedSorted<T>(cmp: (T, T) -> int, b: seq<T>, i: nat)
    requires 0 < i < |b| && Sorted(cmp, b[..i])
    ensures Sorted(cmp, Swapped(b, i)[..i - 1])
  {
    var r, t := Swapped(b, i)[..i - 1], b[..i];
    forall j, k | 0 <= j < k < |r| ensures cmp(r[j], r[k]) <= 0 {
      assert r[j] == t[j] && r[k] == t[k];
    }
  }

  /** `qsort` ends, with the array sorted and ties in their original order. */
  method Qsort<T(!new)>(cmp: (T, T) -> int, a: array<T>)
    requires TotalPreorder(cmp)
    modifies a
    ensures Sorted(cmp, a[..]) && Stable(cmp, old(a[..]), a[..])
  {
    ghost var s := a[..];
    var i := 0;
    while i < a.Length
      invariant 0 <= i <= a.Length && Sorted(cmp, a[..][..i]) && Stable(cmp, s, a[..])
      decreases Inversions(cmp, a[..]), a.Length - i
    {
      ghost var b := a[..];
      if i != 0 && cmp(a[i - 1], a[i]) > 0 {
        SwapStep(cmp, s, b, i);
        a[i - 1], a[i] := a[i], a[i - 1];
        assert a[..] == Swapped(b, i);
        i := i - 1;
      } else {
        SortedGrows(cmp, b, i);
        i := i + 1;
      }
    }
    assert a[..][..i] == a[..];
  }

  // ---------------------------------------------------------------- comparators that contradict themselves

  /** Array and index after one round of the loop. */
  function Round<T>(cmp: (T, T) -> int, s: seq<T>, i: nat): (r: (seq<T>, nat))
    requires i < |s|
    ensures |r.0| == |s| && r.1 <= |s|
  {
    if i > 0 && cmp(s[i - 1], s[i]) > 0 then (Swapped(s, i), i - 1) else (s, i + 1)
  }

  /** And after `n` rounds, or as many as there are. */
  function Rounds<T>(cmp: (T, T) -> int, s: seq<T>, i: nat, n: nat): (seq<T>, nat)
    requires i <= |s|
    decreases n
  {
    if n == 0 || i == |s| then (s, i) else Rounds(cmp, Round(cmp, s, i).0, Round(cmp, s, i).1, n - 1)
  }

  /** At most `n` rounds of the loop, whatever the comparator. */
  method QsortFor<T>(cmp: (T, T) -> int, a: array<T>, n: nat) returns (i: nat)
    modifies a
    ensures (a[..], i) == Rounds(cmp, old(a[..]), 0, n)
  {
    i := 0;
    var k := n;
    while k > 0 && i < a.Length
      invariant 0 <= k <= n && i <= a.Length
      invariant Rounds(cmp, a[..], i, k) == Rounds(cmp, old(a[..]), 0, n)
      decreases k
    {
      ghost var b := a[..];
      if i != 0 && cmp(a[i - 1], a[i]) > 0 {
        a[i - 1], a[i] := a[i], a[i - 1];
        assert a[..] == Swapped(b, i);
        i := i - 1;
      } else {
        i := i + 1;
      }
      k := k - 1;
    }
  }

  /** A pair of neighbours of which each is put above the other, behind elements in order. */
  ghost predicate Stuck<T>(cmp: (T, T) -> int, s: seq<T>, i: nat) {
    && 0 < i < |s| && cmp(s[i - 1], s[i]) > 0 && cmp(s[i], s[i - 1]) > 0
    && (i > 1 ==> cmp(s[i - 2], s[i - 1]) <= 0 && cmp(s[i - 2], s[i]) <= 0)
  }

  /** At such a pair two rounds only swap it, so that the loop never ends. */
  lemma {:induction false} ContradictoryComparatorLoops<T>(cmp: (T, T) -> int, s: seq<T>, i: nat, n: nat)
    requires Stuck(cmp, s, i)
    ensures Rounds(cmp, s, i, n).1 < |s|
    decreases n
  {
    if n > 1 {
      var t := Swapped(s, i);
      assert Round(cmp, s, i) == (t, i - 1) && Round(cmp, t, i - 1) == (t, i);
      assert Rounds(cmp, s, i, n) == Rounds(cmp, t, i - 1, n - 1) == Rounds(cmp, t, i, n - 2);
      ContradictoryComparatorLoops(cmp, t, i, n - 2);
    } else if n == 1 {
      assert Rounds(cmp, s, i, 1) == Rounds(cmp, Swapped(s, i), i - 1, 0);
    }
  }

  /** An array of two elements ends up there exactly when the comparator puts each above the other. */
  lemma TwoElementsLoopExactly<T>(cmp: (T, T) -> int, s: seq<T>)
    requires |s| == 2
    ensures (forall n: nat :: Rounds(cmp, s, 0, n).1 < 2) <==> cmp(s[0], s[1]) > 0 && cmp(s[1], s[0]) > 0
  {
    var t := Swapped(s, 1);
    assert Round(cmp, s, 0) == (s, 1);
    if cmp(s[0], s[1]) > 0 && cmp(s[1], s[0]) > 0 {
      forall n: nat ensures Rounds(cmp, s, 0, n).1 < 2 {
        if n > 0 {
          ContradictoryComparatorLoops(cmp, s, 1, n - 1);
        }
      }
    } else if cmp(s[0], s[1]) <= 0 {
      assert Round(cmp, s, 1) == (s, 2);
      assert Rounds(cmp, s, 1, 1) == Rounds(cmp, s, 2, 0);
      assert Rounds(cmp, s, 0, 2) == Rounds(cmp, s, 1, 1);
      assert !(Rounds(cmp, s, 0, 2).1 < 2);
    } else {
      assert Round(cmp, s, 1) == (t, 0) && Round(cmp, t, 0) == (t, 1) && Round(cmp, t, 1) == (t, 2);
      assert Rounds(cmp, t, 1, 1) == Rounds(cmp, t, 2, 0);
      assert Rounds(cmp, t, 0, 2) == Rounds(cmp, t, 1, 1);
      assert Rounds(cmp, s, 1, 3) == Rounds(cmp, t, 0, 2);
      assert Rounds(cmp, s, 0, 4) == Rounds(cmp, s, 1, 3);
      assert !(Rounds(cmp, s, 0, 4).1 < 2);
    }
  }

  /** No two elements are each above the other. */
  ghost predicate Asymmetric<T(!new)>(cmp: (T, T) -> int) {
    forall x, y :: !(cmp(x, y) > 0 && cmp(y, x) > 0)
  }

  ghost predicate InOrder<T>(cmp: (T, T) -> int, s: seq<T>, j: nat)
    requires 0 < j < |s|
  {
    cmp(s[j - 1], s[j]) <= 0
  }

  /** The loop at index `i`, having been as far as `hi`.  On the way `down` an element is moved below those it belongs
      under: neighbours are in order except at `i`, and so are those around it.  On the way up all are in order. */
  ghost predicate Progress<T>(cmp: (T, T) -> int, s: seq<T>, i: nat, hi: nat, down: bool) {
    && i <= hi <= |s|
    && (forall j :: 0 < j < hi && (down ==> j != i) ==> InOrder(cmp, s, j))
    && (down && 0 < i && i + 1 < hi ==> cmp(s[i - 1], s[i + 1]) <= 0)
  }

  /** From there the loop ends, with the same elements and all neighbours in order. */
  lemma {:induction false} LoopEnds<T(!new)>(cmp: (T, T) -> int, s: seq<T>, i: nat, hi: nat, down: bool)
    returns (n: nat)
    requires Asymmetric(cmp) && Progress(cmp, s, i, hi, down)
    ensures Ended(cmp, s, i, n)
    decreases |s| - hi, down, if down then i else hi - i
  {
    if i == |s| {
      n := 0;
      EndedNow(cmp, s, hi, down);
    } else if i == hi {
      n := LoopEnds(cmp, s, i, hi + 1, true);
    } else if i > 0 && cmp(s[i - 1], s[i]) > 0 {
      var t := Swapped(s, i);
      ProgressDown(cmp, s, i, hi, down);
      n := LoopEnds(cmp, t, i - 1, hi, down);
      n := EndedAfter(cmp, s, i, t, i - 1, n);
    } else {
      ProgressUp(cmp, s, i, hi, down);
      n := LoopEnds(cmp, s, i + 1, hi, false);
      n := EndedAfter(cmp, s, i, s, i + 1, n);
    }
  }

  lemma EndedNow<T>(cmp: (T, T) -> int, s: seq<T>, hi: nat, down: bool)
    requires Progress(cmp, s, |s|, hi, down)
    ensures Ended(cmp, s, |s|, 0)
  {}

  lemma EndedAfter<T>(cmp: (T, T) -> int, s: seq<T>, i: nat, t: seq<T>, j: nat, n: nat) returns (n': nat)
    requires i < |s| && Round(cmp, s, i) == (t, j) && multiset(t) == multiset(s) && Ended(cmp, t, j, n)
    ensures Ended(cmp, s, i, n')
  {
    n' := n + 1;
    assert Rounds(cmp, s, i, n') == Rounds(cmp, t, j, n);
  }

  lemma ProgressUp<T>(cmp: (T, T) -> int, s: seq<T>, i: nat, hi: nat, down: bool)
    requires Progress(cmp, s, i, hi, down) && i < hi && (i > 0 ==> cmp(s[i - 1], s[i]) <= 0)
    ensures Progress(cmp, s, i + 1, hi, false)
  {}

  /** After `n` rounds the loop has ended, with the same elements and all neighbours in order. */
  ghost predicate Ended<T>(cmp: (T, T) -> int, s: seq<T>, i: nat, n: nat)
    requires i <= |s|
  {
    var (r, j) := Rounds(cmp, s, i, n);
    |r| == |s| == j && multiset(r) == multiset(s) && forall k :: 0 < k < |r| ==> InOrder(cmp, r, k)
  }

  lemma ProgressDown<T(!new)>(cmp: (T, T) -> int, s: seq<T>, i: nat, hi: nat, down: bool)
    requires Asymmetric(cmp) && Progress(cmp, s, i, hi, down) && 0 < i < hi && cmp(s[i - 1], s[i]) > 0
    ensures down && Progress(cmp, Swapped(s, i), i - 1, hi, true)
  {
    assert !InOrder(cmp, s, i);
    var t := Swapped(s, i);
    assert i > 1 ==> InOrder(cmp, s, i - 1);
    forall j | 0 < j < hi && j != i - 1 ensures InOrder(cmp, t, j) {
      assert j != i ==> InOrder(cmp, s, j);
    }
  }

  ghost predicate Halts<T>(cmp: (T, T) -> int, s: seq<T>) {
    exists n: nat :: Rounds(cmp, s, 0, n).1 == |s|
  }

  /** The loop ends on every array exactly when no two elements are each above the other; no transitivity is needed. */
  lemma EndsExactly<T(!new)>(cmp: (T, T) -> int)
    ensures Asymmetric(cmp) <==> forall s: seq<T> :: Halts(cmp, s)
  {
    if Asymmetric(cmp) {
      forall s: seq<T> ensures Halts(cmp, s) {
        var n := LoopEnds(cmp, s, 0, 0, false);
        assert Rounds(cmp, s, 0, n).1 == |s|;
      }
    } else {
      var x, y :| cmp(x, y) > 0 && cmp(y, x) > 0;
      var s := [x, y];
      TwoElementsLoopExactly(cmp, s);
      assert !Halts(cmp, s) by {
        if Halts(cmp, s) {
          var n: nat :| Rounds(cmp, s, 0, n).1 == |s|;
          assert Rounds(cmp, s, 0, n).1 < 2;
        }
      }
    }
  }
}
