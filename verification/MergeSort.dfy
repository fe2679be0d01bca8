/**
 The merge sort of sort_arrary.c. It takes the element of the right half when
 two tie, so every class of peers comes out back to front: the result is the
 stable sort of the reversed input, whatever the shape of the halves.
 */
module MergeSort {
  import opened Order
  import opened Seqs

  ghost function Reverse<T>(s: seq<T>): seq<T> {
    if s == [] then [] else Reverse(s[1..]) + [s[0]]
  }

  /** Merging from the front, the right side first among peers. */
  ghost function Merge<T>(l: seq<T>, r: seq<T>, cmp: (T, T) -> int): seq<T>
    decreases |l| + |r|
  {
    if l == [] then r
    else if r == [] then l
    else if cmp(l[0], r[0]) < 0 then [l[0]] + Merge(l[1..], r, cmp)
    else [r[0]] + Merge(l, r[1..], cmp)
  }

  lemma {:induction false} ReverseConcat<T>(s: seq<T>, t: seq<T>)
    ensures Reverse(s + t) == Reverse(t) + Reverse(s)
  {
    if s == [] {
      assert s + t == t;
    } else {
      assert (s + t)[1..] == s[1..] + t;
      ReverseConcat(s[1..], t);
    }
  }

  lemma {:induction false} PeersReverse<T>(s: seq<T>, x: T, cmp: (T, T) -> int)
    ensures Peers(Reverse(s), x, cmp) == Reverse(Peers(s, x, cmp))
  {
    if s != [] {
      PeersReverse(s[1..], x, cmp);
      PeersConcat(Reverse(s[1..]), [s[0]], x, cmp);
      PeersConcat([s[0]], s[1..], x, cmp);
      PeersOne(s[0], x, cmp);
      assert s == [s[0]] + s[1..];
      ReverseConcat(Peers([s[0]], x, cmp), Peers(s[1..], x, cmp));
      assert Reverse([s[0]]) == [s[0]];
    }
  }

  lemma NoPeersAhead<T(!new)>(r: seq<T>, y: T, x: T, cmp: (T, T) -> int)
    requires IsOrder(cmp) && Sorted(r, cmp)
    requires r != [] && cmp(y, r[0]) < 0 && cmp(y, x) == 0
    ensures Peers(r, x, cmp) == []
  {
    PeersMembers(r, x, cmp);
    if Peers(r, x, cmp) != [] {
      var z := Peers(r, x, cmp)[0];
      assert z in Peers(r, x, cmp);
      var k :| 0 <= k < |r| && r[k] == z;
      assert k > 0 ==> cmp(r[0], r[k]) <= 0;
      assert cmp(r[0], r[0]) == 0;
      Transitive(z, x, y, cmp);
      Transitive(z, y, r[0], cmp);
    }
  }

  lemma {:induction false} PeersHead<T>(s: seq<T>, x: T, cmp: (T, T) -> int)
    requires s != []
    ensures Peers(s, x, cmp) == (if cmp(s[0], x) == 0 then [s[0]] else []) + Peers(s[1..], x, cmp)
  {
    assert s == [s[0]] + s[1..];
    PeersConcat([s[0]], s[1..], x, cmp);
    PeersOne(s[0], x, cmp);
  }

  /** Merging puts the peers of the right side in front of those of the left. */
  lemma {:induction false} PeersMerge<T(!new)>(l: seq<T>, r: seq<T>, x: T, cmp: (T, T) -> int)
    requires IsOrder(cmp) && Sorted(l, cmp) && Sorted(r, cmp)
    ensures Peers(Merge(l, r, cmp), x, cmp) == Peers(r, x, cmp) + Peers(l, x, cmp)
    decreases |l| + |r|
  {
    hide *;
    var pl, pr := Peers(l, x, cmp), Peers(r, x, cmp);
    if l == [] || r == [] {
      PeersMergeEmpty(l, r, x, cmp);
    } else {
      MergeHead(l, r, cmp);
      PeersHead(Merge(l, r, cmp), x, cmp);
      if cmp(l[0], r[0]) < 0 {
        SortedTail(l, cmp);
        PeersMerge(l[1..], r, x, cmp);
        PeersHead(l, x, cmp);
        if cmp(l[0], x) == 0 { NoPeersAhead(r, l[0], x, cmp); }
        Slide(if cmp(l[0], x) == 0 then [l[0]] else [], pr, Peers(l[1..], x, cmp));
      } else {
        SortedTail(r, cmp);
        PeersMerge(l, r[1..], x, cmp);
        PeersHead(r, x, cmp);
        Regroup(if cmp(r[0], x) == 0 then [r[0]] else [], Peers(r[1..], x, cmp), pl);
      }
    }
  }

  lemma PeersMergeEmpty<T>(l: seq<T>, r: seq<T>, x: T, cmp: (T, T) -> int)
    requires l == [] || r == []
    ensures Peers(Merge(l, r, cmp), x, cmp) == Peers(r, x, cmp) + Peers(l, x, cmp)
  {
  }

  lemma MergeHead<T>(l: seq<T>, r: seq<T>, cmp: (T, T) -> int)
    requires l != [] && r != []
    ensures var m, left := Merge(l, r, cmp), cmp(l[0], r[0]) < 0;
            && m != [] && m[0] == (if left then l[0] else r[0])
            && m[1..] == if left then Merge(l[1..], r, cmp) else Merge(l, r[1..], cmp)
  {
  }

  lemma SortedTail<T>(s: seq<T>, cmp: (T, T) -> int)
    requires s != [] && Sorted(s, cmp)
    ensures Sorted(s[1..], cmp)
  {
  }

  lemma Slide<T>(a: seq<T>, b: seq<T>, c: seq<T>)
    requires a == [] || b == []
    ensures a + (b + c) == b + (a + c)
  {
  }

  lemma {:induction false} MergeSorted<T(!new)>(l: seq<T>, r: seq<T>, cmp: (T, T) -> int)
    requires IsOrder(cmp) && Sorted(l, cmp) && Sorted(r, cmp)
    ensures Sorted(Merge(l, r, cmp), cmp)
    ensures forall y :: y in Merge(l, r, cmp) ==> y in l || y in r
    decreases |l| + |r|
  {
    if l != [] && r != [] {
      hide Merge, Sorted, IsOrder;
      MergeHead(l, r, cmp);
      SortedTail(l, cmp);
      SortedTail(r, cmp);
      var left := cmp(l[0], r[0]) < 0;
      var x := if left then l[0] else r[0];
      var l', r' := if left then l[1..] else l, if left then r else r[1..];
      MergeSorted(l', r', cmp);
      var m := Merge(l', r', cmp);
      forall i | 0 <= i < |m| ensures cmp(x, m[i]) <= 0 {
        Antisymmetric(l[0], r[0], cmp);
        assert m[i] in m;
        if m[i] in l {
          HeadIsLeast(l, m[i], cmp);
          Transitive(x, l[0], m[i], cmp);
        } else {
          HeadIsLeast(r, m[i], cmp);
          Transitive(x, r[0], m[i], cmp);
        }
      }
      SortedCons(Merge(l, r, cmp), cmp);
    }
  }

  lemma SortedCons<T(!new)>(s: seq<T>, cmp: (T, T) -> int)
    requires IsOrder(cmp) && s != [] && Sorted(s[1..], cmp) && forall i :: 0 <= i < |s| - 1 ==> cmp(s[0], s[1..][i]) <= 0
    ensures Sorted(s, cmp)
  {
    forall i | 0 < i < |s| ensures cmp(s[0], s[i]) <= 0 {
      assert s[1..][i - 1] == s[i];
    }
    forall i, j | 0 < i < j < |s| ensures cmp(s[i], s[j]) <= 0 {
      assert s[1..][i - 1] == s[i] && s[1..][j - 1] == s[j];
    }
  }

  lemma HeadIsLeast<T(!new)>(s: seq<T>, y: T, cmp: (T, T) -> int)
    requires IsOrder(cmp) && Sorted(s, cmp) && y in s
    ensures cmp(s[0], y) <= 0
  {
    var k :| 0 <= k < |s| && s[k] == y;
    Antisymmetric(y, y, cmp);
  }

  /** Merging the two sorted halves gives the sort of the whole. */
  lemma {:induction false} MergeHalves<T(!new)>(s: seq<T>, t: seq<T>, cmp: (T, T) -> int)
    requires IsOrder(cmp)
    ensures Merge(StableSort(Reverse(s), cmp), StableSort(Reverse(t), cmp), cmp) == StableSort(Reverse(s + t), cmp)
  {
    hide *;
    var l, r := StableSort(Reverse(s), cmp), StableSort(Reverse(t), cmp);
    StableSortUnique(Reverse(s), l, cmp);
    StableSortUnique(Reverse(t), r, cmp);
    var m := Merge(l, r, cmp);
    MergeSorted(l, r, cmp);
    forall x ensures Peers(Reverse(s + t), x, cmp) == Peers(m, x, cmp) {
      ReverseConcat(s, t);
      PeersConcat(Reverse(t), Reverse(s), x, cmp);
      PeersMerge(l, r, x, cmp);
      StableAt(Reverse(s), l, x, cmp);
      StableAt(Reverse(t), r, x, cmp);
    }
    IsStable(Reverse(s + t), m, cmp);
    StableSortUnique(Reverse(s + t), m, cmp);
  }

  /** Each class of peers reads the same in both directions. */
  ghost predicate Palindromic<T(!new)>(s: seq<T>, cmp: (T, T) -> int) {
    forall x :: Peers(s, x, cmp) == Reverse(Peers(s, x, cmp))
  }

  /** The order of peers survives exactly when each class reads the same in both directions. */
  lemma StableWhenPalindromic<T(!new)>(s: seq<T>, cmp: (T, T) -> int)
    requires IsOrder(cmp)
    ensures StableSort(Reverse(s), cmp) == StableSort(s, cmp) <==> Palindromic(s, cmp)
  {
    hide StableSort, Reverse, Peers, Sorted;
    var m := StableSort(Reverse(s), cmp);
    StableSortUnique(Reverse(s), m, cmp);
    StableSortUnique(s, m, cmp);
    forall x ensures Peers(m, x, cmp) == Reverse(Peers(s, x, cmp)) {
      PeersReverse(s, x, cmp);
      StableAt(Reverse(s), m, x, cmp);
    }
    if m == StableSort(s, cmp) {
      forall x ensures Peers(s, x, cmp) == Reverse(Peers(s, x, cmp)) {
        StableAt(s, m, x, cmp);
      }
    }
    if Palindromic(s, cmp) {
      forall x ensures Peers(s, x, cmp) == Peers(m, x, cmp) {
        assert Peers(s, x, cmp) == Reverse(Peers(s, x, cmp));
      }
      IsStable(s, m, cmp);
    }
  }

  /** Copies `n` elements between two different arrays. */
  method CopyElements<T>(dst: array<T>, d: nat, src: array<T>, s: nat, n: nat)
    requires dst != src && d + n <= dst.Length && s + n <= src.Length
    modifies dst
    ensures dst[..] == old(dst[..d]) + src[s..s + n] + old(dst[d + n..])
  {
    forall k | 0 <= k < n {
      dst[d + k] := src[s + k];
    }
  }

  /** What has been merged, and what merging the rest of both halves still adds, make up the goal. */
  ghost predicate Merging<T>(done: seq<T>, s: seq<T>, l: nat, mid: nat, r: nat, end: nat, goal: seq<T>, cmp: (T, T) -> int) {
    l <= mid <= r <= end <= |s| && done + Merge(s[l..mid], s[r..end], cmp) == goal
  }

  lemma MergeStart<T>(s: seq<T>, l: nat, mid: nat, end: nat, cmp: (T, T) -> int)
    requires l <= mid <= end <= |s|
    ensures Merging([], s, l, mid, mid, end, Merge(s[l..mid], s[mid..end], cmp), cmp)
  {
  }

  lemma MergeStep<T>(done: seq<T>, s: seq<T>, l: nat, mid: nat, r: nat, end: nat, goal: seq<T>, cmp: (T, T) -> int)
    requires Merging(done, s, l, mid, r, end, goal, cmp) && l < mid && r < end
    ensures if cmp(s[l], s[r]) < 0 then Merging(done + [s[l]], s, l + 1, mid, r, end, goal, cmp)
                                   else Merging(done + [s[r]], s, l, mid, r + 1, end, goal, cmp)
  {
    assert s[l..mid][1..] == s[l + 1..mid] && s[r..end][1..] == s[r + 1..end];
  }

  lemma MergeEnds<T>(done: seq<T>, s: seq<T>, l: nat, mid: nat, r: nat, end: nat, goal: seq<T>, cmp: (T, T) -> int)
    requires Merging(done, s, l, mid, r, end, goal, cmp) && (l == mid || r == end)
    ensures done + (s[l..mid] + s[r..end]) == goal
  {
  }

  /** sort_arrary.c:190-194: one of the halves is used up; the rest of the other follows. */
  method CopyRest<T>(a: array<T>, lo: nat, mid: nat, n: nat, buf: array<T>, l: nat, r: nat, i: nat)
    requires a != buf && lo + n <= a.Length && n <= buf.Length
    requires l <= mid <= r <= n && i + mid == l + r && (l == mid || r == n)
    modifies buf
    ensures buf[..n] == old(buf[..i]) + (a[lo + l..lo + mid] + a[lo + r..lo + n])
  {
    if l < mid {
      CopyElements(buf, i, a, lo + l, mid - l);
      assert a[lo + r..lo + n] == [];
    } else {
      CopyElements(buf, i, a, lo + r, n - r);
      assert a[lo + l..lo + mid] == [];
    }
  }

  /** sort_arrary.c:173-194: merges the two halves of a[lo..lo + n] into `buf`. */
  method MergeInto<T>(a: array<T>, lo: nat, n: nat, buf: array<T>, cmp: (T, T) -> int)
    requires a != buf && lo + n <= a.Length && n <= buf.Length
    modifies buf
    ensures buf[..n] == Merge(a[lo..lo + n / 2], a[lo + n / 2..lo + n], cmp)
  {
    hide *;
    var mid := n / 2;
    var l, r, i := 0, mid, 0;
    ghost var s, done := a[..], [];
    ghost var goal := Merge(s[lo..lo + mid], s[lo + mid..lo + n], cmp);
    MergeStart(s, lo, lo + mid, lo + n, cmp);
    while l < mid && r < n
      invariant l <= mid <= r <= n && i + mid == l + r
      invariant |done| == i && (forall k :: 0 <= k < i ==> buf[k] == done[k])
      invariant |s| == a.Length && (forall k :: 0 <= k < |s| ==> a[k] == s[k])
      invariant Merging(done, s, lo + l, lo + mid, lo + r, lo + n, goal, cmp)
      decreases n - i
    {
      MergeStep(done, s, lo + l, lo + mid, lo + r, lo + n, goal, cmp);
      assert a[lo + l] == s[lo + l] && a[lo + r] == s[lo + r];
      if cmp(a[lo + l], a[lo + r]) < 0 {
        buf[i] := a[lo + l];
        done := done + [s[lo + l]];
        l := l + 1;
      } else {
        buf[i] := a[lo + r];
        done := done + [s[lo + r]];
        r := r + 1;
      }
      i := i + 1;
    }
    MergeEnds(done, s, lo + l, lo + mid, lo + r, lo + n, goal, cmp);
    assert buf[..i] == done && a[lo + l..lo + mid] == s[lo + l..lo + mid] && a[lo + r..lo + n] == s[lo + r..lo + n];
    CopyRest(a, lo, mid, n, buf, l, r, i);
  }

  /** sort_arrary.c:162-206: sorts a[lo..lo + n] with a buffer shared by all calls. */
  method MergeSortRange<T(!new)>(a: array<T>, lo: nat, n: nat, buf: array<T>, cmp: (T, T) -> int)
    requires IsOrder(cmp)
    requires a != buf && lo + n <= a.Length && n <= buf.Length
    modifies a, buf
    ensures a[lo..lo + n] == StableSort(Reverse(old(a[lo..lo + n])), cmp)
    ensures a[..lo] == old(a[..lo]) && a[lo + n..] == old(a[lo + n..])
    decreases n
  {
    hide *;
    if n <= 1 {
      SortTrivial(a[lo..lo + n], cmp);
      return;
    }
    ghost var s0, was, h := a[..], a[lo..lo + n], n / 2;
    MergeSortRange(a, lo, n / 2, buf, cmp);
    ghost var s1 := a[..];
    MergeSortRange(a, lo + n / 2, n - n / 2, buf, cmp);
    HalvesDone(s0, s1, a[..], lo, h, n);
    MergeHalves(was[..h], was[h..], cmp);
    MergeInto(a, lo, n, buf, cmp);
    CopyElements(a, lo, buf, 0, n);
    assert a[lo..lo + n] == buf[..n];
  }

  /** What the two recursive calls leave where: each half of the range is as one of them left it. */
  lemma HalvesDone<T>(s0: seq<T>, s1: seq<T>, s2: seq<T>, lo: nat, h: nat, n: nat)
    requires |s0| == |s1| == |s2| && h <= n && lo + n <= |s0|
    requires s1[..lo] == s0[..lo] && s1[lo + h..] == s0[lo + h..]
    requires s2[..lo + h] == s1[..lo + h] && s2[lo + n..] == s1[lo + n..]
    ensures var was := s0[lo..lo + n];
            was == was[..h] + was[h..] && s0[lo..lo + h] == was[..h] && s1[lo + h..lo + n] == was[h..]
    ensures s2[lo..lo + h] == s1[lo..lo + h] && s2[..lo] == s0[..lo] && s2[lo + n..] == s0[lo + n..]
  {
    assert forall i :: lo + h <= i < |s0| ==> s1[i] == s1[lo + h..][i - lo - h] == s0[i];
    assert forall i :: 0 <= i < lo + h ==> s2[i] == s2[..lo + h][i] == s1[i];
    assert forall i :: 0 <= i < lo ==> s1[i] == s1[..lo][i] == s0[i];
    assert forall i :: lo + n <= i < |s0| ==> s2[i] == s2[lo + n..][i - lo - n] == s1[i];
  }

  lemma SortTrivial<T>(s: seq<T>, cmp: (T, T) -> int)
    requires |s| <= 1
    ensures StableSort(Reverse(s), cmp) == s
  {
    if s != [] {
      assert s[1..] == [] && Reverse(s) == [s[0]] == s;
      assert s[..0] == [];
    }
  }

  /** Two different elements that tie change places, so the sort is not stable. */
  lemma MergeSortReorders<T(!new)>(x: T, y: T, cmp: (T, T) -> int)
    requires IsOrder(cmp) && x != y && cmp(x, y) == 0
    ensures StableSort(Reverse([x, y]), cmp) == [y, x] && StableSort([x, y], cmp) == [x, y]
  {
    Antisymmetric(x, y, cmp);
    var e: seq<T> := [];
    assert [x, y] == [x] + [y] && [x][1..] == e && [y][1..] == e && Reverse(e) == e;
    assert Reverse([x]) == e + [x] && Reverse([y]) == e + [y];
    ReverseConcat([x], [y]);
    TiesStay(x, y, cmp);
    TiesStay(y, x, cmp);
  }

  lemma TiesStay<T>(x: T, y: T, cmp: (T, T) -> int)
    requires cmp(x, y) == 0
    ensures StableSort([x, y], cmp) == [x, y]
  {
    assert [x, y][..1] == [x] && [x][..0] == [];
    assert StableSort([x], cmp) == [x];
  }

  /** sort_arrary.c:208-216 */
  method Sort<T(!new, 0)>(a: array<T>, cmp: (T, T) -> int)
    requires IsOrder(cmp)
    modifies a
    ensures a[..] == StableSort(Reverse(old(a[..])), cmp)
    ensures Sorted(a[..], cmp) && Permutation(old(a[..]), a[..])
  {
    hide *;
    var buf := new T[a.Length];
    ghost var was := a[..];
    assert a[0..a.Length] == was;
    MergeSortRange(a, 0, a.Length, buf, cmp);
    assert a[..] == a[0..a.Length];
    SortOfReverse(was, cmp);
  }

  lemma {:induction false} ReversePermutes<T>(s: seq<T>)
    ensures Permutation(s, Reverse(s))
  {
    if s != [] {
      ReversePermutes(s[1..]);
      assert s == [s[0]] + s[1..];
    }
  }

  lemma {:induction false} SortOfReverse<T(!new)>(s: seq<T>, cmp: (T, T) -> int)
    requires IsOrder(cmp)
    ensures Sorted(StableSort(Reverse(s), cmp), cmp) && Permutation(s, StableSort(Reverse(s), cmp))
  {
    StableSortMeets(Reverse(s), cmp);
    StableIsPermutation(Reverse(s), StableSort(Reverse(s), cmp), cmp);
    ReversePermutes(s);
  }
}
