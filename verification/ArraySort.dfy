/**
 The quadratic array sorts of sort_arrary.c. The count each method returns is
 the number of element moves its inner loop makes.
 */
module ArraySort {
  import opened Order
  import opened InversionCount

  /** sort_arrary.c:14-25 */
  method Swap<T>(a: array<T>, i: nat, j: nat)
    requires i < a.Length && j < a.Length
    modifies a
    ensures a[..] == old(a[..][i := a[j]][j := a[i]])
  {
    var tmp := a[i];
    a[i] := a[j];
    a[j] := tmp;
  }

  // ---------- bubble sort ----------

  /** Everything behind `end` is in its final place. */
  ghost predicate Settled<T>(s: seq<T>, end: int, cmp: (T, T) -> int) {
    forall i, j :: 0 <= i < j < |s| && end < j ==> cmp(s[i], s[j]) <= 0
  }

  /** Nothing in front of `k` is greater than the element at `k`. */
  ghost predicate GreatestSoFar<T>(s: seq<T>, k: int, cmp: (T, T) -> int) {
    0 <= k < |s| && forall i :: 0 <= i < k ==> cmp(s[i], s[k]) <= 0
  }

  lemma BubbleBounds<T>(s: seq<T>, end: int, cmp: (T, T) -> int)
    ensures end >= |s| - 1 ==> Settled(s, end, cmp)
    ensures Settled(s, end, cmp) && end <= 0 ==> Sorted(s, cmp)
    ensures s != [] ==> GreatestSoFar(s, 0, cmp)
    ensures Settled(s, end, cmp) && GreatestSoFar(s, end, cmp) ==> Settled(s, end - 1, cmp)
  {
  }

  lemma BubbleStep<T(!new)>(s: seq<T>, k: nat, end: nat, cmp: (T, T) -> int)
    requires IsOrder(cmp) && k < end < |s|
    requires Settled(s, end, cmp) && GreatestSoFar(s, k, cmp)
    ensures cmp(s[k], s[k + 1]) <= 0 ==> GreatestSoFar(s, k + 1, cmp)
    ensures cmp(s[k], s[k + 1]) > 0 ==>
              var t := s[k := s[k + 1]][k + 1 := s[k]];
              Settled(t, end, cmp) && GreatestSoFar(t, k + 1, cmp)
  {
    forall i | 0 <= i <= k && cmp(s[k], s[k + 1]) <= 0 ensures cmp(s[i], s[k + 1]) <= 0 {
      Transitive(s[i], s[k], s[k + 1], cmp);
    }
  }

  /** sort_arrary.c:27-41 */
  method BubbleSort<T(!new)>(a: array<T>, cmp: (T, T) -> int) returns (ghost swaps: nat)
    requires IsOrder(cmp)
    modifies a
    ensures a[..] == StableSort(old(a[..]), cmp)
    ensures swaps == Inversions(old(a[..]), cmp)
  {
    hide *;
    swaps := 0;
    ghost var was := a[..];
    ReachedAtStart(was, cmp);
    var end := a.Length - 1;
    BubbleBounds(was, end, cmp);
    while end >= 1
      invariant -1 <= end < a.Length
      invariant Settled(a[..], end, cmp)
      invariant Reached(was, swaps, a[..], cmp)
    {
      var start := 0;
      BubbleBounds(a[..], end, cmp);
      while start < end
        invariant 0 <= start <= end
        invariant Settled(a[..], end, cmp) && GreatestSoFar(a[..], start, cmp)
        invariant Reached(was, swaps, a[..], cmp)
      {
        BubbleStep(a[..], start, end, cmp);
        if cmp(a[start], a[start + 1]) > 0 {
          Exchange(was, swaps, a[..], start, cmp);
          Swap(a, start, start + 1);
          swaps := swaps + 1;
        }
        start := start + 1;
      }
      BubbleBounds(a[..], end, cmp);
      end := end - 1;
    }
    BubbleBounds(a[..], end, cmp);
    ReachedSorted(was, swaps, a[..], cmp);
  }

  // ---------- insertion sort ----------

  /** The first `i` elements are sorted. */
  ghost predicate SortedTo<T>(s: seq<T>, i: int, cmp: (T, T) -> int) {
    forall p, q :: 0 <= p < q < i && q < |s| ==> cmp(s[p], s[q]) <= 0
  }

  /** The first `i + 1` elements are sorted, but for the one at `hole`, which is below those behind it. */
  ghost predicate SortedRound<T>(s: seq<T>, hole: int, i: int, cmp: (T, T) -> int) {
    && 0 <= hole <= i < |s|
    && (forall p, q :: 0 <= p < q <= i && p != hole && q != hole ==> cmp(s[p], s[q]) <= 0)
    && (forall q :: hole < q <= i ==> cmp(s[hole], s[q]) <= 0)
  }

  lemma SortedToBounds<T>(s: seq<T>, i: int, cmp: (T, T) -> int)
    ensures i <= 1 ==> SortedTo(s, i, cmp)
    ensures SortedTo(s, i, cmp) && i >= |s| ==> Sorted(s, cmp)
  {
  }

  lemma HoleStep<T(!new)>(s: seq<T>, hole: nat, i: nat, cmp: (T, T) -> int)
    requires IsOrder(cmp) && SortedRound(s, hole, i, cmp)
    ensures hole > 0 && cmp(s[hole - 1], s[hole]) > 0 ==>
              SortedRound(s[hole - 1 := s[hole]][hole := s[hole - 1]], hole - 1, i, cmp)
    ensures hole == 0 || cmp(s[hole - 1], s[hole]) <= 0 ==> SortedTo(s, i + 1, cmp)
  {
    forall p | 0 <= p < hole && cmp(s[hole - 1], s[hole]) <= 0 ensures cmp(s[p], s[hole]) <= 0 {
      Transitive(s[p], s[hole - 1], s[hole], cmp);
    }
  }

  lemma AppendInOrder<T(!new)>(s: seq<T>, i: nat, cmp: (T, T) -> int)
    requires IsOrder(cmp) && SortedTo(s, i, cmp) && 0 < i < |s|
    ensures cmp(s[i], s[i - 1]) >= 0 ==> SortedTo(s, i + 1, cmp)
    ensures SortedRound(s, i, i, cmp)
  {
    forall p | 0 <= p < i && cmp(s[i], s[i - 1]) >= 0 ensures cmp(s[p], s[i]) <= 0 {
      Transitive(s[p], s[i - 1], s[i], cmp);
    }
  }

  /** sort_arrary.c:66-96 */
  method InsertSort<T(!new)>(a: array<T>, cmp: (T, T) -> int) returns (ghost shifts: nat)
    requires IsOrder(cmp)
    modifies a
    ensures a[..] == StableSort(old(a[..]), cmp)
    ensures shifts == Inversions(old(a[..]), cmp)
  {
    hide *;
    shifts := 0;
    ghost var was := a[..];
    ReachedAtStart(was, cmp);
    var i := 1;
    SortedToBounds(was, i, cmp);
    while i < a.Length
      invariant 1 <= i
      invariant SortedTo(a[..], i, cmp)
      invariant Reached(was, shifts, a[..], cmp)
    {
      var j := i - 1;
      AppendInOrder(a[..], i, cmp);
      if cmp(a[i], a[j]) < 0 {
        var buf := a[i];
        // The array with the hole at j + 1 filled by the element being moved.
        ghost var filled := a[..];
        while j >= 0 && cmp(a[j], buf) > 0
          invariant -1 <= j < i
          invariant filled == a[..][j + 1 := buf]
          invariant SortedRound(filled, j + 1, i, cmp)
          invariant Reached(was, shifts, filled, cmp)
        {
          Exchange(was, shifts, filled, j, cmp);
          HoleStep(filled, j + 1, i, cmp);
          filled := filled[j := buf][j + 1 := a[j]];
          a[j + 1] := a[j];
          shifts := shifts + 1;
          j := j - 1;
        }
        HoleStep(filled, j + 1, i, cmp);
        a[j + 1] := buf;
        assert a[..] == filled;
      }
      i := i + 1;
    }
    SortedToBounds(a[..], i, cmp);
    ReachedSorted(was, shifts, a[..], cmp);
  }

  // ---------- selection sort ----------

  /** The first `i` places hold their final elements. */
  ghost predicate Selected<T>(s: seq<T>, i: int, cmp: (T, T) -> int) {
    forall p, q :: 0 <= p < q < |s| && p < i ==> cmp(s[p], s[q]) <= 0
  }

  /** The first of the least elements between two places. */
  ghost predicate Least<T>(s: seq<T>, lo: int, hi: int, min: int, cmp: (T, T) -> int) {
    && 0 <= lo <= min < hi <= |s|
    && (forall q :: lo <= q < hi ==> cmp(s[min], s[q]) <= 0)
    && (forall q :: lo <= q < min ==> cmp(s[min], s[q]) < 0)
  }

  ghost function LeastIndex<T>(s: seq<T>, lo: nat, cmp: (T, T) -> int): (m: nat)
    requires lo < |s|
    ensures lo <= m < |s|
    decreases |s| - lo
  {
    if lo + 1 == |s| then lo
    else
      var m := LeastIndex(s, lo + 1, cmp);
      if cmp(s[lo], s[m]) <= 0 then lo else m
  }

  /** What exchanging each place from `i` on with the first least behind it leads to. */
  ghost function SelectSorted<T>(s: seq<T>, i: nat, cmp: (T, T) -> int): seq<T>
    decreases |s| - i
  {
    if i + 1 >= |s| then s
    else
      var m := LeastIndex(s, i, cmp);
      SelectSorted(s[i := s[m]][m := s[i]], i + 1, cmp)
  }

  lemma {:induction false} LeastIndexMeets<T(!new)>(s: seq<T>, lo: nat, cmp: (T, T) -> int)
    requires IsOrder(cmp) && lo < |s|
    ensures Least(s, lo, |s|, LeastIndex(s, lo, cmp), cmp)
    decreases |s| - lo
  {
    Antisymmetric(s[lo], s[lo], cmp);
    if lo + 1 < |s| {
      LeastIndexMeets(s, lo + 1, cmp);
      var m := LeastIndex(s, lo + 1, cmp);
      Antisymmetric(s[lo], s[m], cmp);
      forall q | lo < q < |s| && cmp(s[lo], s[m]) <= 0 ensures cmp(s[lo], s[q]) <= 0 {
        Transitive(s[lo], s[m], s[q], cmp);
      }
    }
  }

  lemma LeastIsIndex<T(!new)>(s: seq<T>, lo: nat, min: nat, cmp: (T, T) -> int)
    requires IsOrder(cmp) && Least(s, lo, |s|, min, cmp)
    ensures min == LeastIndex(s, lo, cmp)
  {
    LeastIndexMeets(s, lo, cmp);
    var m := LeastIndex(s, lo, cmp);
    Antisymmetric(s[m], s[min], cmp);
  }

  /**
   Selection sort is not stable: of two elements that tie, in front of a
   smaller one, the first is moved behind the second.
   */
  lemma SelectionReorders<T(!new)>(x: T, y: T, z: T, cmp: (T, T) -> int)
    requires IsOrder(cmp) && x != y && cmp(x, y) == 0 && cmp(z, x) < 0
    ensures SelectSorted([x, y, z], 0, cmp) == [z, y, x]
    ensures StableSort([x, y, z], cmp) != SelectSorted([x, y, z], 0, cmp)
  {
    var s, t := [x, y, z], [z, y, x];
    Antisymmetric(x, y, cmp);
    Antisymmetric(z, x, cmp);
    Antisymmetric(z, y, cmp);
    Antisymmetric(z, z, cmp);
    Antisymmetric(x, x, cmp);
    Transitive(z, x, y, cmp);
    LeastIsIndex(s, 0, 2, cmp);
    LeastIsIndex(t, 1, 1, cmp);
    assert s[0 := s[2]][2 := s[0]] == t && t[1 := t[1]][1 := t[1]] == t;
    assert SelectSorted(t, 1, cmp) == SelectSorted(t, 2, cmp) == t;
    StableSortUnique(s, t, cmp);
    if StableRearrangement(s, t, cmp) {
      StableAt(s, t, x, cmp);
      PeersOfThree(x, y, z, x, cmp);
      PeersOfThree(z, y, x, x, cmp);
      assert ([x, y])[0] != ([y, x])[0];
    }
  }

  lemma PeersOfThree<T>(a: T, b: T, c: T, x: T, cmp: (T, T) -> int)
    ensures Peers([a, b, c], x, cmp)
         == (if cmp(a, x) == 0 then [a] else []) + (if cmp(b, x) == 0 then [b] else []) + (if cmp(c, x) == 0 then [c] else [])
  {
    assert [a, b, c] == [a] + [b] + [c];
    PeersConcat([a] + [b], [c], x, cmp);
    PeersConcat([a], [b], x, cmp);
    PeersOne(a, x, cmp);
    PeersOne(b, x, cmp);
    PeersOne(c, x, cmp);
  }

  /** Selection has come to place `i` of what `was` will become. */
  ghost predicate Selecting<T>(was: seq<T>, s: seq<T>, i: nat, cmp: (T, T) -> int) {
    Selected(s, i, cmp) && Permutation(was, s) && SelectSorted(s, i, cmp) == SelectSorted(was, 0, cmp)
  }

  lemma SelectBounds<T(!new)>(was: seq<T>, s: seq<T>, i: nat, cmp: (T, T) -> int)
    requires IsOrder(cmp)
    ensures Selecting(was, was, 0, cmp)
    ensures Selecting(was, s, i, cmp) && i + 1 >= |s| ==>
              Sorted(s, cmp) && Permutation(was, s) && s == SelectSorted(was, 0, cmp)
    ensures i < |s| ==> Least(s, i, i + 1, i, cmp)
  {
    if i < |s| { Antisymmetric(s[i], s[i], cmp); }
  }

  lemma LeastStep<T(!new)>(s: seq<T>, lo: nat, j: nat, min: nat, cmp: (T, T) -> int)
    requires IsOrder(cmp) && Least(s, lo, j, min, cmp) && j < |s|
    ensures Least(s, lo, j + 1, if cmp(s[j], s[min]) < 0 then j else min, cmp)
  {
    forall q | lo <= q < j && cmp(s[j], s[min]) < 0 ensures cmp(s[j], s[q]) < 0 {
      Transitive(s[j], s[min], s[q], cmp);
    }
    assert cmp(s[j], s[j]) == 0;
  }

  lemma {:induction false} SelectStep<T(!new)>(was: seq<T>, s: seq<T>, i: nat, min: nat, cmp: (T, T) -> int)
    requires IsOrder(cmp) && i + 1 < |s| && Selecting(was, s, i, cmp) && Least(s, i, |s|, min, cmp)
    ensures i <= min < |s|
    ensures Selecting(was, s[i := s[min]][min := s[i]], i + 1, cmp)
    ensures min == i ==> s[i := s[min]][min := s[i]] == s
  {
    LeastIsIndex(s, i, min, cmp);
    SwapPermutes(s, i, min);
  }

  /**
   sort_arrary.c:44-63. The loop bound is an unsigned nmemb - 1, so the array may not be empty.
   A round exchanges two distant elements, so peers may change places (SelectionReorders).
   */
  method SelectSort<T(!new)>(a: array<T>, cmp: (T, T) -> int) returns (ghost swaps: nat)
    requires IsOrder(cmp)
    requires a.Length >= 1
    modifies a
    ensures Sorted(a[..], cmp) && Permutation(old(a[..]), a[..])
    ensures a[..] == SelectSorted(old(a[..]), 0, cmp)
    ensures swaps <= a.Length - 1
  {
    hide *;
    swaps := 0;
    ghost var was := a[..];
    var i := 0;
    SelectBounds(was, was, 0, cmp);
    while i < a.Length - 1
      invariant 0 <= i <= a.Length - 1
      invariant Selecting(was, a[..], i, cmp)
      invariant swaps <= i
    {
      var min := i;
      SelectBounds(was, a[..], i, cmp);
      var j := i + 1;
      while j < a.Length
        invariant j <= a.Length
        invariant Selecting(was, a[..], i, cmp)
        invariant i <= min < a.Length && Least(a[..], i, j, min, cmp)
      {
        LeastStep(a[..], i, j, min, cmp);
        if cmp(a[j], a[min]) < 0 {
          min := j;
        }
        j := j + 1;
      }
      SelectStep(was, a[..], i, min, cmp);
      if min != i {
        Swap(a, i, min);
        swaps := swaps + 1;
      }
      i := i + 1;
    }
    SelectBounds(was, a[..], i, cmp);
  }
}
