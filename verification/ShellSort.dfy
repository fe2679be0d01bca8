/**
 The shell sort of sort_arrary.c, with its gaps 3, 2 and 1. Its point is that
 a later pass does not undo what an earlier one has put in order.
 */
module ShellSort {
  import opened Order
  import opened InversionCount
  import opened Insertion

  /** The elements at r, r + h, r + 2h, ... */
  ghost function Stride<T>(s: seq<T>, r: nat, h: nat): seq<T>
    requires h > 0
    decreases |s| - r
  {
    if r >= |s| then [] else [s[r]] + Stride(s, r + h, h)
  }

  /** Where the stride that starts at `r` has its element `m`. */
  ghost function Pos(r: nat, m: nat, h: nat): nat {
    if m == 0 then r else Pos(r, m - 1, h) + h
  }

  /** Elements `h` places apart are in order. */
  ghost predicate Ordered<T>(s: seq<T>, h: nat, cmp: (T, T) -> int) {
    forall i, j :: 0 <= i && j == i + h && j < |s| ==> cmp(s[i], s[j]) <= 0
  }

  /** Elements at least two places apart are in order. */
  ghost predicate NearlySorted<T>(s: seq<T>, cmp: (T, T) -> int) {
    forall i, j :: 0 <= i && i + 2 <= j < |s| ==> cmp(s[i], s[j]) <= 0
  }

  /** The first `n` strides have been sorted, and the others are as they were. */
  ghost predicate StridesSorted<T>(was: seq<T>, s: seq<T>, n: nat, h: nat, cmp: (T, T) -> int)
    requires h > 0
  {
    && |s| == |was|
    && (forall r: nat :: r < h ==>
          Stride(s, r, h) == if r < n then StableSort(Stride(was, r, h), cmp) else Stride(was, r, h))
  }

  // ---------- positions and strides ----------

  lemma {:induction false} PosShift(r: nat, m: nat, h: nat, d: nat, r': nat, c: nat)
    requires r + d == Pos(r', c, h)
    ensures Pos(r, m, h) + d == Pos(r', m + c, h)
  {
    if m > 0 { PosShift(r, m - 1, h, d, r', c); }
  }

  lemma PosNext(r: nat, m: nat, h: nat)
    ensures Pos(r, m + 1, h) == Pos(r, m, h) + h
    ensures Pos(r, 0, h) == r
  {
  }

  lemma {:induction false} PosDecompose(i: nat, h: nat) returns (r: nat, m: nat)
    requires h > 0
    ensures r < h && Pos(r, m, h) == i
    decreases i
  {
    if i < h { r, m := i, 0; }
    else {
      r, m := PosDecompose(i - h, h);
      m := m + 1;
    }
  }

  lemma {:induction false} PosUnique(r: nat, m: nat, r': nat, m': nat, h: nat)
    requires r < h && r' < h && Pos(r, m, h) == Pos(r', m', h)
    ensures r == r' && m == m'
    decreases m + m'
  {
    if m > 0 && m' > 0 { PosUnique(r, m - 1, r', m' - 1, h); }
  }

  lemma {:induction false} StrideAt<T>(s: seq<T>, r: nat, h: nat, m: nat)
    requires h > 0
    ensures m < |Stride(s, r, h)| <==> Pos(r, m, h) < |s|
    ensures m < |Stride(s, r, h)| ==> Stride(s, r, h)[m] == s[Pos(r, m, h)]
    decreases m
  {
    if m > 0 {
      PosShift(r, m - 1, h, h, r + h, 0);
      assert Pos(r, m, h) == Pos(r + h, m - 1, h);
      if r < |s| { StrideAt(s, r + h, h, m - 1); }
      else { PosGrows(r, m, h); }
    }
  }

  lemma {:induction false} PosGrows(r: nat, m: nat, h: nat)
    ensures Pos(r, m, h) >= r
    ensures h > 0 ==> Pos(r, m, h) >= m
  {
    if m > 0 { PosGrows(r, m - 1, h); }
  }

  /** Writing at a position changes that element of its own stride, and no other stride. */
  lemma StrideUpdate<T>(s: seq<T>, r: nat, m: nat, h: nat, v: T, r': nat)
    requires r < h && r' < h && Pos(r, m, h) < |s|
    ensures m < |Stride(s, r, h)|
    ensures Stride(s[Pos(r, m, h) := v], r', h)
         == if r' == r then Stride(s, r, h)[m := v] else Stride(s, r', h)
  {
    var t := s[Pos(r, m, h) := v];
    StrideAt(s, r, h, m);
    var expected := if r' == r then Stride(s, r, h)[m := v] else Stride(s, r', h);
    SameStrideLength(s, t, r', h);
    forall k | 0 <= k < |expected| ensures Stride(t, r', h)[k] == expected[k] {
      StrideAt(s, r', h, k);
      StrideAt(t, r', h, k);
      if Pos(r', k, h) == Pos(r, m, h) { PosUnique(r', k, r, m, h); }
    }
  }

  lemma SameStrideLength<T>(s: seq<T>, t: seq<T>, r: nat, h: nat)
    requires h > 0 && |s| == |t|
    ensures |Stride(s, r, h)| == |Stride(t, r, h)|
  {
    StrideAt(s, r, h, |Stride(s, r, h)|);
    StrideAt(t, r, h, |Stride(s, r, h)|);
    if |Stride(s, r, h)| > 0 {
      StrideAt(s, r, h, |Stride(s, r, h)| - 1);
      StrideAt(t, r, h, |Stride(s, r, h)| - 1);
    }
  }

  lemma {:induction false} StrideOfOne<T>(s: seq<T>, r: nat)
    requires r <= |s|
    ensures Stride(s, r, 1) == s[r..]
    decreases |s| - r
  {
    if r < |s| { StrideOfOne(s, r + 1); }
  }

  // ---------- a pass keeps what an earlier pass achieved ----------

  /** Every element of `u` is at most the one `c` places further on in `v`, and no such one is missing. */
  ghost predicate Below<T>(u: seq<T>, v: seq<T>, c: nat, cmp: (T, T) -> int) {
    |v| <= |u| + c && forall p :: 0 <= p && p + c < |v| ==> cmp(u[p], v[p + c]) <= 0
  }

  lemma AboveOfBelow<T(!new)>(u: seq<T>, v: seq<T>, c: nat, y: T, cmp: (T, T) -> int)
    requires IsOrder(cmp) && Below(u, v, c, cmp) && c <= |v|
    ensures Above(u, y, cmp) <= Above(v, y, cmp) + (|u| + c - |v|)
  {
    var n := |v| - c;
    assert v == v[..c] + v[c..] && u == u[..n] + u[n..];
    AboveConcat(v[..c], v[c..], y, cmp);
    AboveConcat(u[..n], u[n..], y, cmp);
    AboveDominated(u[..n], v[c..], y, cmp);
    AboveAtMost(u[n..], y, cmp);
  }

  /** Whatever sorts both sides keeps `Below`. */
  lemma {:induction false} SortingKeepsBelow<T(!new)>(u: seq<T>, v: seq<T>, u': seq<T>, v': seq<T>, c: nat, cmp: (T, T) -> int)
    requires IsOrder(cmp) && Below(u, v, c, cmp)
    requires Permutation(u, u') && Sorted(u', cmp) && Permutation(v, v') && Sorted(v', cmp)
    ensures Below(u', v', c, cmp)
  {
    hide Above, Permutation;
    SameLength(u, u');
    SameLength(v, v');
    forall m | 0 <= m && m + c < |v'| ensures cmp(u'[m], v'[m + c]) <= 0 {
      var y := v'[m + c];
      AbovePermutation(v, v', y, cmp);
      AbovePermutation(u, u', y, cmp);
      AboveInSorted(v', m + c, cmp);
      AboveOfBelow(u, v, c, y, cmp);
      if cmp(u'[m], y) > 0 { AboveFrom(u', m, y, cmp); }
    }
  }

  lemma SameLength<T>(s: seq<T>, t: seq<T>)
    requires Permutation(s, t)
    ensures |s| == |t|
  {
    assert |multiset(s)| == |s| && |multiset(t)| == |t|;
  }

  /** Order at distance `d` puts one stride of gap `h` below another. */
  lemma StridesBelow<T>(s: seq<T>, r: nat, r': nat, c: nat, h: nat, d: nat, cmp: (T, T) -> int)
    requires h > 0 && r + d == Pos(r', c, h) && Ordered(s, d, cmp)
    ensures Below(Stride(s, r, h), Stride(s, r', h), c, cmp)
  {
    hide Stride;
    var u, v := Stride(s, r, h), Stride(s, r', h);
    if |v| > c {
      PosShift(r, |v| - 1 - c, h, d, r', c);
      StrideAt(s, r', h, |v| - 1);
      StrideAt(s, r, h, |v| - 1 - c);
    }
    forall p | 0 <= p && p + c < |v| ensures cmp(u[p], v[p + c]) <= 0 {
      PosShift(r, p, h, d, r', c);
      StrideAt(s, r', h, p + c);
      StrideAt(s, r, h, p);
    }
  }

  /** Sorting the strides of any gap `h` keeps the order another gap `d` already had. */
  lemma PassKeepsOrder<T(!new)>(s: seq<T>, t: seq<T>, h: nat, d: nat, cmp: (T, T) -> int)
    requires IsOrder(cmp) && h > 0
    requires StridesSorted(s, t, h, h, cmp)
    requires Ordered(s, d, cmp)
    ensures Ordered(t, d, cmp)
  {
    hide Stride, Pos, StableSort, IsOrder;
    forall i, j | 0 <= i && j == i + d && j < |t| ensures cmp(t[i], t[j]) <= 0 {
      var r, m := PosDecompose(i, h);
      var r', c := PosDecompose(r + d, h);
      PosShift(r, m, h, d, r', c);
      var u, v := Stride(s, r, h), Stride(s, r', h);
      StridesBelow(s, r, r', c, h, d, cmp);
      StrideAt(t, r, h, m);
      StrideAt(t, r', h, m + c);
      StableSortMeets(u, cmp);
      StableSortMeets(v, cmp);
      StableIsPermutation(u, StableSort(u, cmp), cmp);
      StableIsPermutation(v, StableSort(v, cmp), cmp);
      SortingKeepsBelow(u, v, StableSort(u, cmp), StableSort(v, cmp), c, cmp);
    }
  }

  /** Sorted strides of gap `h` mean that elements `h` apart are in order. */
  lemma PassOrders<T(!new)>(s: seq<T>, t: seq<T>, h: nat, cmp: (T, T) -> int)
    requires IsOrder(cmp) && h > 0
    requires StridesSorted(s, t, h, h, cmp)
    ensures Ordered(t, h, cmp)
  {
    hide Stride, Pos, StableSort, IsOrder, StableRearrangement;
    forall i, j | 0 <= i && j == i + h && j < |t| ensures cmp(t[i], t[j]) <= 0 {
      var r, m := PosDecompose(i, h);
      assert Pos(r, m + 1, h) == j by { PosNext(r, m, h); }
      StrideAt(t, r, h, m);
      StrideAt(t, r, h, m + 1);
      StableSortMeets(Stride(s, r, h), cmp);
      assert Stride(t, r, h) == StableSort(Stride(s, r, h), cmp);
    }
  }

  /** In order 2 apart and 3 apart is in order any distance from 2 on. */
  lemma {:induction false} TwoAndThree<T(!new)>(s: seq<T>, i: nat, j: nat, cmp: (T, T) -> int)
    requires IsOrder(cmp) && Ordered(s, 2, cmp) && Ordered(s, 3, cmp)
    requires i + 2 <= j < |s|
    ensures cmp(s[i], s[j]) <= 0
    decreases j - i
  {
    if j > i + 3 {
      assert cmp(s[i], s[i + 2]) <= 0;
      TwoAndThree(s, i + 2, j, cmp);
      Transitive(s[i], s[i + 2], s[j], cmp);
    }
  }

  /** In a nearly sorted sequence at most one earlier element exceeds any element. */
  lemma NearlySortedBound<T>(s: seq<T>, j: nat, cmp: (T, T) -> int)
    requires NearlySorted(s, cmp) && j < |s|
    ensures Above(s[..j], s[j], cmp) <= 1
  {
    if j >= 1 {
      assert s[..j][..j - 1] == s[..j - 1];
      AboveNone(s[..j - 1], s[j], cmp);
    }
  }

  // ---------- one pass over the array ----------

  /** Strides below `n` are sorted, stride `n` is sorted in its first `i` places, the rest is untouched. */
  ghost predicate InStride<T>(was: seq<T>, s: seq<T>, n: nat, i: nat, h: nat, cmp: (T, T) -> int)
    requires h > 0
  {
    && |s| == |was|
    && (forall r: nat :: r < h ==>
          Stride(s, r, h) == if r < n then StableSort(Stride(was, r, h), cmp)
                             else if r == n then SortedUpTo(Stride(was, r, h), i, cmp)
                             else Stride(was, r, h))
    && Permutation(was, s)
  }

  /** Stride `n` of `f` is that of `s` with its element `i` moved down to `m`; nothing else differs. */
  ghost predicate HoleAt<T>(s: seq<T>, f: seq<T>, n: nat, i: nat, m: nat, h: nat)
    requires h > 0
  {
    && n < h && |f| == |s| && Permutation(s, f)
    && m <= i < |Stride(s, n, h)|
    && (forall r: nat :: r < h ==>
          Stride(f, r, h) == if r == n then Moved(Stride(s, n, h), i, m) else Stride(s, r, h))
  }

  /** No insertion of the pass has more than `b` greater elements in front of it. */
  ghost predicate InsertionsAtMost<T>(s: seq<T>, h: nat, b: nat, cmp: (T, T) -> int)
    requires h > 0
  {
    forall r: nat, i: nat :: r < h && i < |Stride(s, r, h)| ==>
      Above(Stride(s, r, h)[..i], Stride(s, r, h)[i], cmp) <= b
  }

  lemma PassStart<T>(was: seq<T>, s: seq<T>, n: nat, h: nat, cmp: (T, T) -> int)
    requires n < h && StridesSorted(was, s, n, h, cmp) && Permutation(was, s)
    ensures InStride(was, s, n, 1, h, cmp)
  {
    SortedUpToBounds(Stride(was, n, h), 1, cmp);
  }

  lemma StridesUntouched<T>(s: seq<T>, h: nat, cmp: (T, T) -> int)
    requires h > 0
    ensures StridesSorted(s, s, 0, h, cmp)
  {
  }

  lemma PassEnd<T>(was: seq<T>, s: seq<T>, n: nat, i: nat, h: nat, cmp: (T, T) -> int)
    requires n < h && InStride(was, s, n, i, h, cmp) && Pos(n, i, h) >= |s|
    ensures StridesSorted(was, s, n + 1, h, cmp) && Permutation(was, s)
  {
    StrideAt(was, n, h, i);
    SortedUpToBounds(Stride(was, n, h), i, cmp);
  }

  lemma HoleStart<T>(s: seq<T>, n: nat, i: nat, h: nat, cmp: (T, T) -> int)
    requires 0 < i && n < h && Pos(n, i, h) < |s|
    ensures i < |Stride(s, n, h)| && Stride(s, n, h)[i] == s[Pos(n, i, h)]
    ensures HoleAt(s, s, n, i, i, h)
    ensures Descending(Stride(s, n, h), i, i, 0, cmp)
    ensures Pos(n, i, h) == Pos(n, i - 1, h) + h
  {
    StrideAt(s, n, h, i);
    DescendingStart(Stride(s, n, h), i, cmp);
  }

  lemma HoleRead<T>(s: seq<T>, f: seq<T>, n: nat, i: nat, m: nat, h: nat)
    requires h > 0 && HoleAt(s, f, n, i, m, h)
    ensures Pos(n, m, h) < |s| && f[Pos(n, m, h)] == Stride(s, n, h)[i]
    ensures m > 0 ==> Pos(n, m, h) == Pos(n, m - 1, h) + h && Pos(n, m - 1, h) >= n
    ensures m > 0 ==> f[Pos(n, m - 1, h)] == Stride(s, n, h)[m - 1]
    ensures m == 0 ==> Pos(n, m, h) == n
  {
    StrideAt(f, n, h, m);
    if m > 0 {
      StrideAt(f, n, h, m - 1);
      PosGrows(n, m - 1, h);
    }
  }

  /** Exchanging two neighbours of one stride. */
  lemma StrideSwap<T>(f: seq<T>, n: nat, m: nat, h: nat, r: nat)
    requires n < h && r < h && m > 0 && Pos(n, m, h) < |f|
    ensures Pos(n, m - 1, h) < Pos(n, m, h) && m < |Stride(f, n, h)|
    ensures Stride(f[Pos(n, m, h) := f[Pos(n, m - 1, h)]][Pos(n, m - 1, h) := f[Pos(n, m, h)]], r, h)
         == if r == n then Stride(f, n, h)[m := Stride(f, n, h)[m - 1]][m - 1 := Stride(f, n, h)[m]]
            else Stride(f, r, h)
  {
    var p, q := Pos(n, m - 1, h), Pos(n, m, h);
    StrideAt(f, n, h, m);
    StrideAt(f, n, h, m - 1);
    PosNext(n, m - 1, h);
    hide *;
    var u, g := Stride(f, n, h), f[q := f[p]];
    StrideUpdate(f, n, m, h, f[p], n);
    if r == n {
      StrideUpdate(g, n, m - 1, h, f[q], n);
    } else {
      StrideUpdate(f, n, m, h, f[p], r);
      StrideUpdate(g, n, m - 1, h, f[q], r);
    }
  }

  lemma HoleStep<T>(s: seq<T>, f: seq<T>, n: nat, i: nat, m: nat, h: nat)
    requires h > 0 && m > 0 && HoleAt(s, f, n, i, m, h)
    ensures Pos(n, m - 1, h) < Pos(n, m, h) < |s|
    ensures HoleAt(s, f[Pos(n, m, h) := f[Pos(n, m - 1, h)]][Pos(n, m - 1, h) := f[Pos(n, m, h)]], n, i, m - 1, h)
  {
    hide Stride, Pos;
    HoleRead(s, f, n, i, m, h);
    StrideSwap(f, n, m, h, n);
    var p, q := Pos(n, m - 1, h), Pos(n, m, h);
    SwapPermutes(f, q, p);
    var u := Stride(s, n, h);
    var v := Moved(u, i, m);
    assert Moved(u, i, m - 1) == v[m := v[m - 1]][m - 1 := v[m]];
    forall r: nat | r < h
      ensures Stride(f[q := f[p]][p := f[q]], r, h) == if r == n then Moved(u, i, m - 1) else Stride(s, r, h)
    {
      StrideSwap(f, n, m, h, r);
    }
  }

  lemma {:induction false} HoleEnd<T(!new)>(was: seq<T>, s: seq<T>, f: seq<T>, n: nat, i: nat, m: nat, moves: nat, h: nat, cmp: (T, T) -> int)
    requires IsOrder(cmp) && h > 0 && InStride(was, s, n, i, h, cmp) && HoleAt(s, f, n, i, m, h)
    requires Descending(Stride(s, n, h), i, m, moves, cmp)
    requires m == 0 || cmp(Stride(s, n, h)[m - 1], Stride(s, n, h)[i]) <= 0
    ensures InStride(was, f, n, i + 1, h, cmp)
    ensures forall b: nat | InsertionsAtMost(was, h, b, cmp) :: moves <= b
  {
    var w := Stride(was, n, h);
    SortedUpToLength(w, i, cmp);
    SortedUpToStep(w, i, cmp);
    DescendingEnd(Stride(s, n, h), i, m, moves, cmp);
  }

  /**
   One insertion, sort_arrary.c:130-142: the element at `j`, number `i` of
   stride `offset`, is moved down its stride until it meets one not greater.
   */
  method GapInsert<T(!new)>(a: array<T>, ghost was: seq<T>, offset: nat, ghost i: nat, j: nat, h: nat,
                            cmp: (T, T) -> int) returns (ghost moves: nat)
    requires IsOrder(cmp) && offset < h && i > 0
    requires j == Pos(offset, i, h) < a.Length
    requires InStride(was, a[..], offset, i, h, cmp)
    modifies a
    ensures InStride(was, a[..], offset, i + 1, h, cmp)
    ensures forall b: nat | InsertionsAtMost(was, h, b, cmp) :: moves <= b
  {
    hide *;
    moves := 0;
    ghost var s, f := a[..], a[..];
    ghost var m: nat := i;
    ghost var u := Stride(s, offset, h);
    HoleStart(s, offset, i, h, cmp);
    HoleRead(s, f, offset, i, m, h);
    var k: int := j - h;
    Antisymmetric(a[j], a[k], cmp);
    if cmp(a[j], a[k]) < 0 {
      var buf := a[j];
      while k >= offset && cmp(a[k], buf) > 0
        invariant m <= i < |u| && buf == u[i]
        invariant HoleAt(s, f, offset, i, m, h)
        invariant Descending(u, i, m, moves, cmp)
        invariant k + h == Pos(offset, m, h) < a.Length
        invariant f == a[..][k + h := buf]
      {
        HoleRead(s, f, offset, i, m, h);
        HoleStep(s, f, offset, i, m, h);
        DescendingStep(u, i, m, moves, cmp);
        f := f[k + h := f[k]][k := f[k + h]];
        a[k + h] := a[k];
        m, moves := m - 1, moves + 1;
        k := k - h;
      }
      a[k + h] := buf;
      assert a[..] == f;
      HoleRead(s, f, offset, i, m, h);
    }
    HoleEnd(was, s, f, offset, i, m, moves, h, cmp);
  }

  /**
   One gap of sort_arrary.c:112-156: each stride is put in order by insertion.
   `longest` is the largest number of elements any one insertion moved.
   */
  method GapPass<T(!new)>(a: array<T>, h: nat, cmp: (T, T) -> int) returns (ghost longest: nat)
    requires IsOrder(cmp) && h > 0
    modifies a
    ensures StridesSorted(old(a[..]), a[..], h, h, cmp)
    ensures Permutation(old(a[..]), a[..])
    ensures forall b: nat | InsertionsAtMost(old(a[..]), h, b, cmp) :: longest <= b
  {
    hide *;
    longest := 0;
    ghost var was := a[..];
    PermutationRefl(was);
    StridesUntouched(was, h, cmp);
    var offset := 0;
    while offset < h
      invariant offset <= h
      invariant StridesSorted(was, a[..], offset, h, cmp) && Permutation(was, a[..])
      invariant forall b: nat | InsertionsAtMost(was, h, b, cmp) :: longest <= b
    {
      PassStart(was, a[..], offset, h, cmp);
      var j := offset + h;
      ghost var i := 1;
      PosNext(offset, 0, h);
      while j < a.Length
        invariant i > 0 && j == Pos(offset, i, h)
        invariant InStride(was, a[..], offset, i, h, cmp)
        invariant forall b: nat | InsertionsAtMost(was, h, b, cmp) :: longest <= b
      {
        ghost var moves := GapInsert(a, was, offset, i, j, h, cmp);
        longest := if moves > longest then moves else longest;
        PosNext(offset, i, h);
        i := i + 1;
        j := j + h;
      }
      PassEnd(was, a[..], offset, i, h, cmp);
      offset := offset + 1;
    }
  }

  // ---------- the three passes ----------

  /** With gap 1 there is one stride, the whole array. */
  lemma LastPass<T(!new)>(s: seq<T>, t: seq<T>, cmp: (T, T) -> int)
    requires IsOrder(cmp) && StridesSorted(s, t, 1, 1, cmp)
    ensures t == StableSort(s, cmp) && Sorted(t, cmp)
  {
    StrideOfOne(s, 0);
    StrideOfOne(t, 0);
    assert s[0..] == s && t[0..] == t;
    assert Stride(t, 0, 1) == StableSort(Stride(s, 0, 1), cmp);
    StableSortMeets(s, cmp);
  }

  /** After the passes with gaps 3 and 2 no insertion of the last pass moves more than one element. */
  lemma LastPassIsShort<T(!new)>(s: seq<T>, cmp: (T, T) -> int)
    requires IsOrder(cmp) && Ordered(s, 2, cmp) && Ordered(s, 3, cmp)
    ensures NearlySorted(s, cmp) && InsertionsAtMost(s, 1, 1, cmp)
  {
    forall i, j | 0 <= i && i + 2 <= j < |s| ensures cmp(s[i], s[j]) <= 0 {
      TwoAndThree(s, i, j, cmp);
    }
    StrideOfOne(s, 0);
    assert s[0..] == s;
    forall i: nat | i < |s| ensures Above(s[..i], s[i], cmp) <= 1 {
      NearlySortedBound(s, i, cmp);
    }
  }

  /**
   sort_arrary.c:100-160. The passes of gap 3, 2 and 1 determine the result.
   Before the last any two elements at least two places apart are in order, so
   none of its insertions moves more than one.
   */
  method ShellSort<T(!new)>(a: array<T>, cmp: (T, T) -> int)
    returns (ghost first: seq<T>, ghost beforeLast: seq<T>, ghost longest: nat)
    requires IsOrder(cmp)
    modifies a
    ensures Sorted(a[..], cmp) && Permutation(old(a[..]), a[..])
    ensures StridesSorted(old(a[..]), first, 3, 3, cmp) && StridesSorted(first, beforeLast, 2, 2, cmp)
    ensures NearlySorted(beforeLast, cmp) && Permutation(old(a[..]), beforeLast)
    ensures a[..] == StableSort(beforeLast, cmp)
    ensures longest <= 1
  {
    hide *;
    var step := [3, 2, 1];
    ghost var was := a[..];
    PermutationRefl(was);
    longest, first, beforeLast := 0, was, was;
    var i := 0;
    while i < |step|
      invariant 0 <= i <= 3
      invariant Permutation(was, a[..])
      invariant i == 0 ==> a[..] == was
      invariant i >= 1 ==> StridesSorted(was, first, 3, 3, cmp) && (i == 3 || Ordered(a[..], 3, cmp))
      invariant i == 1 ==> a[..] == first
      invariant i == 2 ==> StridesSorted(first, a[..], 2, 2, cmp)
      invariant i == 3 ==> StridesSorted(first, beforeLast, 2, 2, cmp)
      invariant i == 2 ==> Ordered(a[..], 2, cmp)
      invariant i == 3 ==> Sorted(a[..], cmp) && longest <= 1 && Permutation(was, beforeLast)
      invariant i == 3 ==> NearlySorted(beforeLast, cmp) && a[..] == StableSort(beforeLast, cmp)
    {
      beforeLast := a[..];
      longest := GapPass(a, step[i], cmp);
      PermutationTrans(was, beforeLast, a[..]);
      if i < 2 {
        PassOrders(beforeLast, a[..], step[i], cmp);
        if i == 0 { first := a[..]; }
        if i == 1 { PassKeepsOrder(beforeLast, a[..], 2, 3, cmp); }
      } else {
        LastPass(beforeLast, a[..], cmp);
        LastPassIsShort(beforeLast, cmp);
      }
      i := i + 1;
    }
  }
}
