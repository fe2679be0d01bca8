/** The quick sort of sort_arrary.c, whose partition moves a hole back and forth. */
module QuickSort {
  import opened Order

  /**
   `s` is `was` with two elements exchanged at a time, the pivot standing in
   the hole; what is in front of `l` does not exceed the pivot, and what is
   behind `r` is not below it.
   */
  ghost predicate Parting<T>(was: seq<T>, s: seq<T>, hole: nat, l: nat, r: nat, cmp: (T, T) -> int) {
    && l <= r < |s| == |was| && (hole == l || hole == r)
    && Permutation(was, s)
    && (forall k :: 0 <= k < l ==> cmp(s[k], s[hole]) <= 0)
    && (forall k :: r < k < |s| ==> cmp(s[k], s[hole]) >= 0)
  }

  lemma PartingStart<T>(s: seq<T>, cmp: (T, T) -> int)
    requires s != []
    ensures Parting(s, s, 0, 0, |s| - 1, cmp)
  {
  }

  /** Scanning past an element that already stands on the right side. */
  lemma PartingSkip<T>(was: seq<T>, s: seq<T>, l: nat, r: nat, cmp: (T, T) -> int)
    requires l < r
    ensures Parting(was, s, l, l, r, cmp) && cmp(s[r], s[l]) >= 0 ==> Parting(was, s, l, l, r - 1, cmp)
    ensures Parting(was, s, r, l, r, cmp) && cmp(s[l], s[r]) <= 0 ==> Parting(was, s, r, l + 1, r, cmp)
  {
  }

  /** Moving an element over the pivot, and the hole to where it came from. */
  lemma PartingMove<T>(was: seq<T>, s: seq<T>, l: nat, r: nat, cmp: (T, T) -> int)
    requires l < r < |s|
    ensures Parting(was, s, l, l, r, cmp) && cmp(s[r], s[l]) < 0 ==>
              Parting(was, s[l := s[r]][r := s[l]], r, l + 1, r, cmp)
    ensures Parting(was, s, r, l, r, cmp) && cmp(s[l], s[r]) > 0 ==>
              Parting(was, s[l := s[r]][r := s[l]], l, l, r - 1, cmp)
  {
    SwapPermutes(s, l, r);
  }

  lemma PartingBounds<T>(was: seq<T>, s: seq<T>, hole: nat, l: nat, r: nat, cmp: (T, T) -> int)
    requires Parting(was, s, hole, l, r, cmp)
    ensures l <= r < |s| == |was| && (hole == l || hole == r)
    ensures l == r ==> Parting(was, s, l, l, l, cmp)
  {
  }

  /**
   sort_arrary.c:225-253 on a[lo..lo + n]: on return the pivot stands at `l`,
   with nothing greater in front of it and nothing less behind it.
   */
  method Partition<T>(a: array<T>, lo: nat, n: nat, buf: array<T>, cmp: (T, T) -> int) returns (l: nat)
    requires a != buf && buf.Length >= 1 && n >= 2 && lo + n <= a.Length
    modifies a, buf
    ensures l < n && Parting(old(a[lo..lo + n]), a[lo..lo + n], l, l, l, cmp)
    ensures a[lo + l] == old(a[lo])
    ensures a[..lo] == old(a[..lo]) && a[lo + n..] == old(a[lo + n..])
  {
    hide *;
    var pivot := 0;
    var r := n - 1;
    l := 0;
    buf[0] := a[lo + pivot];
    ghost var was := a[lo..lo + n];
    // The range with the pivot standing in the hole.
    ghost var s := was;
    PartingStart(s, cmp);
    while l < r
      invariant l <= r < n && |s| == n
      invariant Parting(was, s, l, l, r, cmp)
      invariant a[lo..lo + n][l := buf[0]] == s && buf[0] == old(a[lo])
      invariant a[..lo] == old(a[..lo]) && a[lo + n..] == old(a[lo + n..])
      decreases r - l
    {
      ghost var hole := l;
      while l < r
        invariant hole == l <= r < n && |s| == n
        invariant Parting(was, s, l, l, r, cmp)
        invariant a[lo..lo + n][l := buf[0]] == s && buf[0] == old(a[lo])
        invariant a[..lo] == old(a[..lo]) && a[lo + n..] == old(a[lo + n..])
        decreases r - l
      {
        PartingSkip(was, s, l, r, cmp);
        PartingMove(was, s, l, r, cmp);
        assert a[lo + r] == s[r] && buf[0] == s[l];
        if cmp(a[lo + r], buf[0]) < 0 {
          a[lo + l] := a[lo + r];
          s := s[l := s[r]][r := s[l]];
          hole := r;
          l := l + 1;
          break;
        }
        r := r - 1;
      }
      PartingBounds(was, s, hole, l, r, cmp);
      while l < r
        invariant l <= r < n && |s| == n
        invariant Parting(was, s, r, l, r, cmp)
        invariant a[lo..lo + n][r := buf[0]] == s
        invariant a[..lo] == old(a[..lo]) && a[lo + n..] == old(a[lo + n..])
        decreases r - l
      {
        PartingSkip(was, s, l, r, cmp);
        PartingMove(was, s, l, r, cmp);
        assert a[lo + l] == s[l] && buf[0] == s[r];
        if cmp(a[lo + l], buf[0]) > 0 {
          a[lo + r] := a[lo + l];
          s := s[l := s[r]][r := s[l]];
          hole := l;
          r := r - 1;
          break;
        }
        l := l + 1;
      }
      PartingBounds(was, s, hole, l, r, cmp);
    }
    a[lo + l] := buf[0];
    assert a[lo..lo + n] == s;
  }

  lemma PermutationKeepsBounds<T>(s: seq<T>, t: seq<T>, x: T, cmp: (T, T) -> int)
    requires Permutation(s, t)
    ensures (forall k :: 0 <= k < |s| ==> cmp(s[k], x) <= 0) ==> forall k :: 0 <= k < |t| ==> cmp(t[k], x) <= 0
    ensures (forall k :: 0 <= k < |s| ==> cmp(s[k], x) >= 0) ==> forall k :: 0 <= k < |t| ==> cmp(t[k], x) >= 0
  {
    forall k | 0 <= k < |t| ensures t[k] in s {
      assert t[k] in multiset(t);
    }
  }

  lemma PermutationParts<T>(s: seq<T>, t: seq<T>, p: seq<T>, u: seq<T>, v: seq<T>)
    requires Permutation(s, u) && Permutation(t, v)
    ensures Permutation(s + p + t, u + p + v)
  {
  }

  /** Sorting both sides of the pivot sorts the range. */
  lemma Glue<T(!new)>(was: seq<T>, s: seq<T>, l: nat, left: seq<T>, right: seq<T>, cmp: (T, T) -> int)
    requires IsOrder(cmp) && Parting(was, s, l, l, l, cmp)
    requires Permutation(s[..l], left) && Sorted(left, cmp)
    requires Permutation(s[l + 1..], right) && Sorted(right, cmp)
    ensures Permutation(was, left + [s[l]] + right)
    ensures Sorted(left + [s[l]] + right, cmp)
  {
    var x, t := s[l], left + [s[l]] + right;
    assert s == s[..l] + [x] + s[l + 1..];
    PermutationParts(s[..l], s[l + 1..], [x], left, right);
    PermutationKeepsBounds(s[..l], left, x, cmp);
    PermutationKeepsBounds(s[l + 1..], right, x, cmp);
    forall i, j | 0 <= i < j < |t| ensures cmp(t[i], t[j]) <= 0 {
      Antisymmetric(t[j], x, cmp);
      Transitive(t[i], x, t[j], cmp);
    }
  }

  lemma TrivialRange<T>(s: seq<T>, cmp: (T, T) -> int)
    requires |s| < 2
    ensures Sorted(s, cmp) && Permutation(s, s)
  {
  }

  /** The array before, between and after the two recursive calls. */
  lemma Splice<T>(t0: seq<T>, t1: seq<T>, t2: seq<T>, lo: nat, l: nat, n: nat)
    requires l < n && lo + n <= |t0| == |t1| == |t2|
    requires t1[..lo] == t0[..lo] && t1[lo + l..] == t0[lo + l..]
    requires t2[..lo + l + 1] == t1[..lo + l + 1] && t2[lo + n..] == t1[lo + n..]
    ensures t0[lo..lo + l] == t0[lo..lo + n][..l]
    ensures t1[lo + l + 1..lo + n] == t0[lo..lo + n][l + 1..]
    ensures t2[lo..lo + n] == t1[lo..lo + l] + [t0[lo..lo + n][l]] + t2[lo + l + 1..lo + n]
    ensures t2[..lo] == t0[..lo] && t2[lo + n..] == t0[lo + n..]
  {
    assert t1[lo + l] == t0[lo + l..][0] && t2[lo + l] == t1[..lo + l + 1][lo + l];
    forall k | lo + l <= k < |t0| ensures t1[k] == t0[k] { assert t1[lo + l..][k - lo - l] == t0[lo + l..][k - lo - l]; }
    forall k | 0 <= k <= lo + l ensures t2[k] == t1[k] { assert t2[..lo + l + 1][k] == t1[..lo + l + 1][k]; }
    forall k | 0 <= k < lo ensures t1[k] == t0[k] { assert t1[..lo][k] == t0[..lo][k]; }
  }

  /** sort_arrary.c:218-258: sorts a[lo..lo + n]; both recursive calls use the same one-element buffer. */
  method QuickSortRange<T(!new)>(a: array<T>, lo: nat, n: nat, buf: array<T>, cmp: (T, T) -> int)
    requires IsOrder(cmp)
    requires a != buf && buf.Length >= 1 && lo + n <= a.Length
    modifies a, buf
    ensures Sorted(a[lo..lo + n], cmp) && Permutation(old(a[lo..lo + n]), a[lo..lo + n])
    ensures a[..lo] == old(a[..lo]) && a[lo + n..] == old(a[lo + n..])
    decreases n
  {
    hide *;
    if n < 2 {
      TrivialRange(a[lo..lo + n], cmp);
      return;
    }
    ghost var was := a[lo..lo + n];
    var l := Partition(a, lo, n, buf, cmp);
    ghost var t0 := a[..];
    QuickSortRange(a, lo, l, buf, cmp);
    ghost var t1 := a[..];
    QuickSortRange(a, lo + l + 1, n - l - 1, buf, cmp);
    Splice(t0, t1, a[..], lo, l, n);
    Glue(was, t0[lo..lo + n], l, t1[lo..lo + l], a[lo + l + 1..lo + n], cmp);
  }

  /** sort_arrary.c:260-268 */
  method Sort<T(!new, 0)>(a: array<T>, cmp: (T, T) -> int)
    requires IsOrder(cmp)
    modifies a
    ensures Sorted(a[..], cmp) && Permutation(old(a[..]), a[..])
  {
    hide *;
    var buf := new T[1];
    assert a[0..a.Length] == a[..];
    QuickSortRange(a, 0, a.Length, buf, cmp);
    assert a[0..a.Length] == a[..];
  }
}
