/** For which elements the selection sort of sort_arrary.c is stable. */
module SelectStable {
  import opened Order
  import opened ArraySort
  import opened Seqs

  /** Different elements tie only if nothing is below them. */
  ghost predicate OnlyLeastTie<T>(s: seq<T>, cmp: (T, T) -> int) {
    forall i, j, k :: 0 <= i < |s| && 0 <= j < |s| && 0 <= k < |s| && s[i] != s[j] && cmp(s[i], s[j]) == 0
      ==> cmp(s[i], s[k]) <= 0
  }

  lemma SameElements<T>(s: seq<T>, t: seq<T>)
    requires Permutation(s, t)
    ensures forall x :: x in s <==> x in t
  {
    forall x ensures x in s <==> x in t {
      assert x in multiset(s) <==> x in multiset(t);
    }
  }

  lemma TiesAreLeast<T>(s: seq<T>, x: T, y: T, z: T, cmp: (T, T) -> int)
    requires OnlyLeastTie(s, cmp) && x in s && y in s && z in s
    ensures x != y && cmp(x, y) == 0 ==> cmp(x, z) <= 0
  {
  }

  lemma OnlyLeastTieKept<T>(s: seq<T>, t: seq<T>, cmp: (T, T) -> int)
    requires Permutation(s, t) && OnlyLeastTie(s, cmp)
    ensures OnlyLeastTie(t, cmp)
  {
    SameElements(s, t);
    forall i, j, k | 0 <= i < |t| && 0 <= j < |t| && 0 <= k < |t| && t[i] != t[j] && cmp(t[i], t[j]) == 0
      ensures cmp(t[i], t[k]) <= 0
    {
      assert t[i] in t && t[j] in t && t[k] in t;
      TiesAreLeast(s, t[i], t[j], t[k], cmp);
    }
  }

  // ---------- stable, when only least elements tie ----------

  /** Peers that are all one element come in any order. */
  lemma EqualPeers<T(!new)>(s: seq<T>, t: seq<T>, x: T, w: T, cmp: (T, T) -> int)
    requires Permutation(s, t) && cmp(w, x) == 0
    requires forall y :: y in s && cmp(y, x) == 0 ==> y == w
    ensures Peers(s, x, cmp) == Peers(t, x, cmp)
  {
    SameElements(s, t);
    PeersMembers(s, x, cmp);
    PeersMembers(t, x, cmp);
    PeersCount(s, w, x, cmp);
    PeersCount(t, w, x, cmp);
    AllEqual(Peers(s, x, cmp), w);
    AllEqual(Peers(t, x, cmp), w);
  }

  lemma {:induction false} AllEqual<T>(s: seq<T>, w: T)
    requires forall y :: y in s ==> y == w
    ensures multiset(s)[w] == |s| && s == seq(|s|, _ => w)
  {
    if s != [] {
      var s' := s[..|s| - 1];
      assert s == s' + [s[|s| - 1]] && s[|s| - 1] in s;
      forall y | y in s' ensures y == w { assert y in s; }
      AllEqual(s', w);
    }
  }

  lemma {:induction false} NoPeers<T>(s: seq<T>, x: T, cmp: (T, T) -> int)
    requires forall i :: 0 <= i < |s| ==> cmp(s[i], x) != 0
    ensures Peers(s, x, cmp) == []
    decreases |s|
  {
    if s != [] { NoPeers(s[..|s| - 1], x, cmp); }
  }

  lemma PeersOfParts<T>(a: seq<T>, y: T, b: seq<T>, z: T, c: seq<T>, x: T, cmp: (T, T) -> int)
    ensures Peers(a + [y] + b + [z] + c, x, cmp)
         == Peers(a, x, cmp) + (if cmp(y, x) == 0 then [y] else []) + Peers(b, x, cmp)
          + (if cmp(z, x) == 0 then [z] else []) + Peers(c, x, cmp)
  {
    PeersConcat(a + [y] + b + [z], c, x, cmp);
    PeersConcat(a + [y] + b, [z], x, cmp);
    PeersConcat(a + [y], b, x, cmp);
    PeersConcat(a, [y], x, cmp);
    PeersOne(y, x, cmp);
    PeersOne(z, x, cmp);
  }

  /** With something below `w`, all that ties with `w` is `w`. */
  lemma TiedWith<T(!new)>(s: seq<T>, w: T, v: T, x: T, cmp: (T, T) -> int)
    requires IsOrder(cmp) && OnlyLeastTie(s, cmp) && w in s && v in s && cmp(v, w) < 0 && cmp(w, x) == 0
    ensures forall y :: y in s && cmp(y, x) == 0 ==> y == w
  {
    forall y | y in s && cmp(y, x) == 0 ensures y == w {
      Antisymmetric(y, x, cmp);
      Antisymmetric(w, x, cmp);
      Transitive(w, x, y, cmp);
      Transitive(y, x, w, cmp);
      Antisymmetric(w, y, cmp);
      Antisymmetric(v, w, cmp);
      TiesAreLeast(s, w, y, v, cmp);
    }
  }

  /** An exchange does not show to `x`, if only the second of the two ties with it, and nothing between them. */
  lemma PassedPeers<T>(front: seq<T>, w: T, mid: seq<T>, v: T, rest: seq<T>, x: T, cmp: (T, T) -> int)
    requires cmp(w, x) != 0 && (cmp(v, x) == 0 ==> forall q :: 0 <= q < |mid| ==> cmp(mid[q], x) != 0)
    ensures Peers(front + [w] + mid + [v] + rest, x, cmp) == Peers(front + [v] + mid + [w] + rest, x, cmp)
  {
    PeersOfParts(front, w, mid, v, rest, x, cmp);
    PeersOfParts(front, v, mid, w, rest, x, cmp);
    if cmp(v, x) == 0 { NoPeers(mid, x, cmp); }
  }

  lemma AboveLeast<T(!new)>(mid: seq<T>, v: T, x: T, cmp: (T, T) -> int)
    requires IsOrder(cmp) && forall q :: 0 <= q < |mid| ==> cmp(v, mid[q]) < 0
    ensures cmp(v, x) == 0 ==> forall q :: 0 <= q < |mid| ==> cmp(mid[q], x) != 0
  {
    forall q | 0 <= q < |mid| && cmp(v, x) == 0 ensures cmp(mid[q], x) != 0 {
      Antisymmetric(v, x, cmp);
      Antisymmetric(v, mid[q], cmp);
      Transitive(mid[q], x, v, cmp);
    }
  }

  /** An exchange taken apart. */
  lemma ExchangeParts<T>(s: seq<T>, i: nat, m: nat)
    requires i < m < |s|
    ensures var t, w, v, front, mid, rest := s[i := s[m]][m := s[i]], s[i], s[m], s[..i], s[i + 1..m], s[m + 1..];
            s == front + [w] + mid + [v] + rest && t == front + [v] + mid + [w] + rest
  {
  }

  /** Exchanging a place with the first least behind it moves no element past a different one it ties with. */
  lemma {:induction false} ExchangeIsStable<T(!new)>(s: seq<T>, i: nat, m: nat, cmp: (T, T) -> int)
    requires IsOrder(cmp) && OnlyLeastTie(s, cmp) && Least(s, i, |s|, m, cmp)
    ensures i <= m < |s| && StableRearrangement(s, s[i := s[m]][m := s[i]], cmp)
  {
    var t := s[i := s[m]][m := s[i]];
    if m == i {
      assert t == s;
    } else {
      var w, v, mid := s[i], s[m], s[i + 1..m];
      assert w in s && v in s && cmp(v, w) < 0;
      forall q | 0 <= q < |mid| ensures cmp(v, mid[q]) < 0 { assert mid[q] == s[i + 1 + q]; }
      ExchangeParts(s, i, m);
      SwapPermutes(s, i, m);
      hide *;
      forall x ensures Peers(s, x, cmp) == Peers(t, x, cmp) {
        if cmp(w, x) == 0 {
          TiedWith(s, w, v, x, cmp);
          EqualPeers(s, t, x, w, cmp);
        } else {
          AboveLeast(mid, v, x, cmp);
          PassedPeers(s[..i], w, mid, v, s[m + 1..], x, cmp);
        }
      }
      IsStable(s, t, cmp);
    }
  }

  lemma {:induction false} SelectionKeepsPeers<T(!new)>(was: seq<T>, s: seq<T>, i: nat, cmp: (T, T) -> int)
    requires IsOrder(cmp) && OnlyLeastTie(s, cmp)
    requires Selecting(was, s, i, cmp) && StableRearrangement(was, s, cmp)
    ensures SelectSorted(was, 0, cmp) == StableSort(was, cmp)
    decreases |s| - i
  {
    hide *;
    if i + 1 >= |s| {
      SelectBounds(was, s, i, cmp);
      StableSortUnique(was, s, cmp);
    } else {
      LeastIndexMeets(s, i, cmp);
      var m := LeastIndex(s, i, cmp);
      SelectStep(was, s, i, m, cmp);
      ExchangeIsStable(s, i, m, cmp);
      SwapPermutes(s, i, m);
      var t := s[i := s[m]][m := s[i]];
      OnlyLeastTieKept(s, t, cmp);
      StableTwice(was, s, t, cmp);
      SelectionKeepsPeers(was, t, i + 1, cmp);
    }
  }

  lemma StableTwice<T(!new)>(s: seq<T>, t: seq<T>, u: seq<T>, cmp: (T, T) -> int)
    requires StableRearrangement(s, t, cmp) && StableRearrangement(t, u, cmp)
    ensures StableRearrangement(s, u, cmp)
  {
    forall x ensures Peers(s, x, cmp) == Peers(u, x, cmp) {
      StableAt(s, t, x, cmp);
      StableAt(t, u, x, cmp);
    }
  }

  // ---------- not stable otherwise ----------

  /** Places whose elements are at most all behind them are left alone. */
  lemma {:induction false} SkipSorted<T(!new)>(s: seq<T>, i: nat, j: nat, cmp: (T, T) -> int)
    requires IsOrder(cmp) && i <= j <= |s|
    requires forall p, q :: i <= p < j && p < q < |s| ==> cmp(s[p], s[q]) <= 0
    ensures SelectSorted(s, i, cmp) == SelectSorted(s, j, cmp)
    decreases j - i
  {
    if i < j {
      SkipSorted(s, i + 1, j, cmp);
      Antisymmetric(s[i], s[i], cmp);
      LeastIsIndex(s, i, i, cmp);
      assert s[i := s[i]][i := s[i]] == s;
    }
  }

  /** Places passed keep their elements. */
  lemma {:induction false} FrontStays<T(!new)>(s: seq<T>, i: nat, cmp: (T, T) -> int)
    requires i <= |s|
    ensures |SelectSorted(s, i, cmp)| == |s| && SelectSorted(s, i, cmp)[..i] == s[..i]
    decreases |s| - i
  {
    if i + 1 < |s| {
      var m := LeastIndex(s, i, cmp);
      var t := s[i := s[m]][m := s[i]];
      FrontStays(t, i + 1, cmp);
      var r := SelectSorted(t, i + 1, cmp);
      assert r[..i] == r[..i + 1][..i] == t[..i + 1][..i] == s[..i];
    }
  }

  /** What is not above `c`, then two peers and `c`, which is below them, then what is not below them. */
  ghost predicate Crossing<T>(low: seq<T>, a: T, b: T, c: T, high: seq<T>, cmp: (T, T) -> int) {
    && a != b && cmp(a, b) == 0 && cmp(c, a) < 0
    && Sorted(low, cmp) && (forall i :: 0 <= i < |low| ==> cmp(low[i], c) <= 0)
    && (forall i :: 0 <= i < |high| ==> cmp(a, high[i]) <= 0)
  }

  lemma CrossingOrder<T(!new)>(low: seq<T>, a: T, b: T, c: T, high: seq<T>, cmp: (T, T) -> int)
    requires IsOrder(cmp) && Crossing(low, a, b, c, high, cmp)
    ensures forall x :: x in low || x == c ==> cmp(x, a) < 0 && cmp(x, b) < 0 && cmp(x, c) <= 0
    ensures forall x, y :: (x in low || x == c) && y in high ==> cmp(x, y) < 0
    ensures cmp(b, a) == 0 && forall y :: y in high ==> cmp(b, y) <= 0
  {
    Antisymmetric(a, b, cmp);
    Antisymmetric(c, c, cmp);
    forall x | x in low || x == c ensures cmp(x, a) < 0 && cmp(x, b) < 0 && cmp(x, c) <= 0 {
      Transitive(x, c, a, cmp);
      Transitive(x, a, b, cmp);
    }
    forall x, y | (x in low || x == c) && y in high ensures cmp(x, y) < 0 { Transitive(x, a, y, cmp); }
    forall y | y in high ensures cmp(b, y) <= 0 { Transitive(b, a, y, cmp); }
  }

  /** Where the selection stands in front of the three, and behind them. */
  lemma CrossingPlaces<T(!new)>(low: seq<T>, a: T, b: T, c: T, high: seq<T>, cmp: (T, T) -> int)
    requires IsOrder(cmp) && Crossing(low, a, b, c, high, cmp)
    ensures var n, t := |low|, low + [a, b, c] + high;
            && (forall p, q :: 0 <= p < n && p < q < |t| ==> cmp(t[p], t[q]) <= 0)
            && Least(t, n, |t|, n + 2, cmp)
    ensures var n, u := |low|, low + [c, b, a] + high;
            forall p, q :: n + 1 <= p < n + 3 && p < q < |u| ==> cmp(u[p], u[q]) <= 0
  {
    CrossingOrder(low, a, b, c, high, cmp);
    var n, t, u := |low|, low + [a, b, c] + high, low + [c, b, a] + high;
    assert t[n] == a && t[n + 1] == b && t[n + 2] == c && u[n + 1] == b && u[n + 2] == a;
    forall p, q | 0 <= p < n && p < q < |t| ensures cmp(t[p], t[q]) <= 0 {
      assert t[p] == low[p];
      if q < n { assert t[q] == low[q]; } else if q >= n + 3 { assert t[q] == high[q - n - 3]; }
    }
    forall q | n <= q < |t| ensures cmp(c, t[q]) <= 0 {
      if q >= n + 3 { assert t[q] == high[q - n - 3]; }
    }
    forall p, q | n + 1 <= p < n + 3 && p < q < |u| ensures cmp(u[p], u[q]) <= 0 {
      if q >= n + 3 { assert u[q] == high[q - n - 3]; }
    }
  }

  lemma FirstPeer<T>(front: seq<T>, y: T, rest: seq<T>, x: T, cmp: (T, T) -> int)
    requires cmp(y, x) == 0 && forall i :: 0 <= i < |front| ==> cmp(front[i], x) != 0
    ensures Peers(front + [y] + rest, x, cmp) != [] && Peers(front + [y] + rest, x, cmp)[0] == y
  {
    NoPeers(front, x, cmp);
    PeersConcat(front + [y], rest, x, cmp);
    PeersConcat(front, [y], x, cmp);
    PeersOne(y, x, cmp);
  }

  lemma ExchangedThree<T>(low: seq<T>, a: T, b: T, c: T, high: seq<T>)
    ensures var n, t, u := |low|, low + [a, b, c] + high, low + [c, b, a] + high;
            && |t| == |u| == n + 3 + |high| && t[n := t[n + 2]][n + 2 := t[n]] == u && u[..n + 3] == low + [c, b, a]
  {
    var n, t, u := |low|, low + [a, b, c] + high, low + [c, b, a] + high;
    assert t[n] == a && t[n + 2] == c;
    assert t[n := c][n + 2 := a] == u;
  }

  /** The exchange of `a` with `c` carries it over `b`, and both stay. */
  lemma {:induction false} CrossingResult<T(!new)>(low: seq<T>, a: T, b: T, c: T, high: seq<T>, cmp: (T, T) -> int)
    requires IsOrder(cmp) && Crossing(low, a, b, c, high, cmp)
    ensures low + [c, b, a] <= SelectSorted(low + [a, b, c] + high, 0, cmp)
  {
    hide Sorted, Crossing, IsOrder, Least;
    var n, t, u := |low|, low + [a, b, c] + high, low + [c, b, a] + high;
    ExchangedThree(low, a, b, c, high);
    CrossingPlaces(low, a, b, c, high, cmp);
    SkipSorted(t, 0, n, cmp);
    LeastIsIndex(t, n, n + 2, cmp);
    assert SelectSorted(t, n, cmp) == SelectSorted(u, n + 1, cmp);
    SkipSorted(u, n + 1, n + 3, cmp);
    FrontStays(u, n + 3, cmp);
  }

  lemma ThreeApart<T>(low: seq<T>, a: T, b: T, c: T, rest: seq<T>)
    ensures low + [a, b, c] + rest == low + [a] + ([b, c] + rest)
    ensures low + [a, b, c] + rest == (low + [a]) + [b] + ([c] + rest)
  {
  }

  lemma {:induction false} CrossingReorders<T(!new)>(low: seq<T>, a: T, b: T, c: T, high: seq<T>, cmp: (T, T) -> int)
    requires IsOrder(cmp) && Crossing(low, a, b, c, high, cmp)
    ensures var t := low + [a, b, c] + high; SelectSorted(t, 0, cmp) != StableSort(t, cmp)
  {
    CrossingResult(low, a, b, c, high, cmp);
    assert a != b && cmp(a, b) == 0;
    hide *;
    var t := low + [a, b, c] + high;
    var r := SelectSorted(t, 0, cmp);
    var rest := r[|low| + 3..];
    assert r == low + [c, b, a] + rest;
    ThreeApart(low, a, b, c, high);
    ThreeApart(low, c, b, a, rest);
    CrossingOrder(low, a, b, c, high, cmp);
    Antisymmetric(a, a, cmp);
    FirstPeer(low, a, [b, c] + high, a, cmp);
    FirstPeer(low + [c], b, [a] + rest, a, cmp);
    StableSortMeets(t, cmp);
    StableAt(t, StableSort(t, cmp), a, cmp);
  }

  /** How many elements at the front of a sorted sequence are below `a`. */
  lemma {:induction false} Below<T(!new)>(u: seq<T>, a: T, cmp: (T, T) -> int) returns (p: nat)
    requires IsOrder(cmp) && Sorted(u, cmp)
    ensures p <= |u| && (forall i :: 0 <= i < p ==> cmp(u[i], a) < 0)
    ensures forall i :: p <= i < |u| ==> cmp(a, u[i]) <= 0
  {
    p := 0;
    while p < |u| && cmp(u[p], a) < 0
      invariant p <= |u| && forall i :: 0 <= i < p ==> cmp(u[i], a) < 0
    {
      p := p + 1;
    }
    forall i | p <= i < |u| ensures cmp(a, u[i]) <= 0 {
      Antisymmetric(u[p], a, cmp);
      Transitive(a, u[p], u[i], cmp);
    }
  }

  /** The elements of `s`, put so that selecting the largest below two peers carries one over the other. */
  lemma {:induction false} Rearranged<T(!new)>(s: seq<T>, a: T, b: T, z: T, cmp: (T, T) -> int) returns (t: seq<T>)
    requires IsOrder(cmp) && a in s && b in s && a != b && cmp(a, b) == 0 && z in s && cmp(z, a) < 0
    ensures Permutation(s, t) && SelectSorted(t, 0, cmp) != StableSort(t, cmp)
  {
    hide SelectSorted, StableSort, StableRearrangement;
    var u := StableSort(s, cmp);
    StableSortMeets(s, cmp);
    StableIsPermutation(s, u, cmp);
    SameElements(s, u);
    var p := Below(u, a, cmp);
    var low, c, high := SplitAround(u, a, b, z, p, cmp);
    t := low + [a, b, c] + high;
    CrossingReorders(low, a, b, c, high, cmp);
  }

  lemma {:induction false} SplitAround<T(!new)>(u: seq<T>, a: T, b: T, z: T, p: nat, cmp: (T, T) -> int)
    returns (low: seq<T>, c: T, high: seq<T>)
    requires IsOrder(cmp) && Sorted(u, cmp) && a in u && b in u && a != b && cmp(a, b) == 0 && z in u && cmp(z, a) < 0
    requires p <= |u| && forall i :: 0 <= i < p ==> cmp(u[i], a) < 0
    requires forall i :: p <= i < |u| ==> cmp(a, u[i]) <= 0
    ensures Crossing(low, a, b, c, high, cmp) && Permutation(u, low + [a, b, c] + high)
  {
    Antisymmetric(a, a, cmp);
    Antisymmetric(a, b, cmp);
    Antisymmetric(a, z, cmp);
    var v := u[p..];
    low, c := u[..p - 1], u[p - 1];
    assert u == low + [c] + v;
    assert a in v && b in v;
    high := WithoutTwo(v, a, b);
    forall i | 0 <= i < |high| ensures cmp(a, high[i]) <= 0 {
      assert high[i] in v;
    }
    hide *;
    Reassembled(low, a, b, c, v, high);
  }

  lemma Reassembled<T>(low: seq<T>, a: T, b: T, c: T, v: seq<T>, high: seq<T>)
    requires multiset(high) + multiset{a, b} == multiset(v)
    ensures Permutation(low + [c] + v, low + [a, b, c] + high)
  {
    assert multiset(low + [c] + v) == multiset(low) + multiset{c} + multiset(v);
    assert multiset(low + [a, b, c] + high) == multiset(low) + multiset{a, b, c} + multiset(high);
  }

  lemma WithoutOne<T>(v: seq<T>, a: T) returns (w: seq<T>)
    requires a in v
    ensures multiset(w) + multiset{a} == multiset(v)
    ensures forall x :: x in v ==> x == a || x in w
    ensures forall x :: x in w ==> x in v
  {
    var i :| 0 <= i < |v| && v[i] == a;
    TakenOut(v, i);
    w := v[..i] + v[i + 1..];
  }

  lemma WithoutTwo<T>(v: seq<T>, a: T, b: T) returns (w: seq<T>)
    requires a in v && b in v && a != b
    ensures multiset(w) + multiset{a, b} == multiset(v)
    ensures forall x :: x in w ==> x in v
  {
    var v' := WithoutOne(v, a);
    w := WithoutOne(v', b);
    assert multiset(w) + multiset{b} + multiset{a} == multiset(w) + multiset{a, b};
  }

  /**
   Selection sort comes out stable for every arrangement of the elements
   exactly when different ones tie only if they are least.
   */
  lemma SelectStableIff<T(!new)>(s: seq<T>, cmp: (T, T) -> int)
    requires IsOrder(cmp)
    ensures (forall t :: Permutation(s, t) ==> SelectSorted(t, 0, cmp) == StableSort(t, cmp))
            <==> OnlyLeastTie(s, cmp)
  {
    hide SelectSorted, StableSort, Selecting;
    if OnlyLeastTie(s, cmp) {
      forall t | Permutation(s, t) ensures SelectSorted(t, 0, cmp) == StableSort(t, cmp) {
        OnlyLeastTieKept(s, t, cmp);
        SelectBounds(t, t, 0, cmp);
        SelectionKeepsPeers(t, t, 0, cmp);
      }
    } else {
      var i, j, k :| 0 <= i < |s| && 0 <= j < |s| && 0 <= k < |s| && s[i] != s[j] && cmp(s[i], s[j]) == 0
        && cmp(s[i], s[k]) > 0;
      Antisymmetric(s[i], s[k], cmp);
      var t := Rearranged(s, s[i], s[j], s[k], cmp);
    }
  }
}
