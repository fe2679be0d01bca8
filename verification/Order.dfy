/**
 The comparison function every container of the library is handed, and the
 reference sort the imperative sorts are compared with.

 `cmp(a, b)` is negative, zero or positive as `a` comes before, ties with or
 comes after `b`. Elements that tie are called peers.
 */
module Order {

  /** A total preorder, given as a three-way comparison. */
  ghost predicate IsOrder<T(!new)>(cmp: (T, T) -> int) {
    && (forall a, b :: cmp(a, b) > 0 <==> cmp(b, a) < 0)
    && (forall a, b, c {:trigger Chain(a, b, c)} ::
          Chain(a, b, c) && cmp(a, b) <= 0 && cmp(b, c) <= 0 ==> cmp(a, c) <= 0)
  }

  /** Always true: naming it is how a proof asks for one instance of transitivity. */
  ghost predicate Chain<T>(a: T, b: T, c: T) { true }

  lemma Transitive<T(!new)>(a: T, b: T, c: T, cmp: (T, T) -> int)
    requires IsOrder(cmp)
    ensures cmp(a, b) <= 0 && cmp(b, c) <= 0 ==> cmp(a, c) <= 0
    ensures cmp(a, b) < 0 && cmp(b, c) <= 0 ==> cmp(a, c) < 0
    ensures cmp(a, b) <= 0 && cmp(b, c) < 0 ==> cmp(a, c) < 0
  {
    assert Chain(a, b, c) && Chain(b, c, a) && Chain(c, a, b);
  }

  lemma Antisymmetric<T(!new)>(a: T, b: T, cmp: (T, T) -> int)
    requires IsOrder(cmp)
    ensures cmp(a, b) > 0 <==> cmp(b, a) < 0
    ensures cmp(a, b) == 0 <==> cmp(b, a) == 0
    ensures cmp(a, a) == 0
  {
  }

  predicate SameSign(x: int, y: int) { (x < 0 <==> y < 0) && (x > 0 <==> y > 0) }

  /** On the elements of `s` the two comparisons say the same. */
  ghost predicate Agree<T>(cmp: (T, T) -> int, ord: (T, T) -> int, s: seq<T>) {
    forall i, j :: 0 <= i < |s| && 0 <= j < |s| ==> SameSign(cmp(s[i], s[j]), ord(s[i], s[j]))
  }

  ghost predicate Sorted<T>(s: seq<T>, cmp: (T, T) -> int) {
    forall i, j :: 0 <= i < j < |s| ==> cmp(s[i], s[j]) <= 0
  }

  ghost predicate Permutation<T>(s: seq<T>, t: seq<T>) {
    multiset(s) == multiset(t)
  }

  lemma PermutationRefl<T>(s: seq<T>)
    ensures Permutation(s, s)
  {
  }

  lemma PermutationTrans<T>(s: seq<T>, t: seq<T>, u: seq<T>)
    ensures Permutation(s, t) && Permutation(t, u) ==> Permutation(s, u)
  {
  }

  lemma SwapPermutes<T>(s: seq<T>, i: nat, j: nat)
    requires i < |s| && j < |s|
    ensures Permutation(s, s[i := s[j]][j := s[i]])
  {
  }

  /** The elements of `s` that tie with `x`, in their order in `s`. */
  ghost function Peers<T>(s: seq<T>, x: T, cmp: (T, T) -> int): seq<T> {
    if s == [] then []
    else Peers(s[..|s| - 1], x, cmp) + if cmp(s[|s| - 1], x) == 0 then [s[|s| - 1]] else []
  }

  /** `t` holds the elements of `s`, and no two peers have changed places. */
  ghost predicate StableRearrangement<T(!new)>(s: seq<T>, t: seq<T>, cmp: (T, T) -> int) {
    forall x :: Peers(s, x, cmp) == Peers(t, x, cmp)
  }

  lemma StableAt<T(!new)>(s: seq<T>, t: seq<T>, x: T, cmp: (T, T) -> int)
    requires StableRearrangement(s, t, cmp)
    ensures Peers(s, x, cmp) == Peers(t, x, cmp)
  {
  }

  lemma IsStable<T(!new)>(s: seq<T>, t: seq<T>, cmp: (T, T) -> int)
    requires forall x :: Peers(s, x, cmp) == Peers(t, x, cmp)
    ensures StableRearrangement(s, t, cmp)
  {
  }

  /** Puts `x` into the sorted sequence `s`, behind all its peers. */
  ghost function InsertBehindPeers<T>(s: seq<T>, x: T, cmp: (T, T) -> int): seq<T> {
    if s == [] || cmp(s[|s| - 1], x) <= 0 then s + [x]
    else InsertBehindPeers(s[..|s| - 1], x, cmp) + [s[|s| - 1]]
  }

  /** The reference sort. `StableSortMeets` and `StableSortUnique` say what it is. */
  ghost function StableSort<T>(s: seq<T>, cmp: (T, T) -> int): seq<T> {
    if s == [] then []
    else InsertBehindPeers(StableSort(s[..|s| - 1], cmp), s[|s| - 1], cmp)
  }

  // ---------- peers ----------

  lemma {:induction false} PeersConcat<T>(s: seq<T>, t: seq<T>, x: T, cmp: (T, T) -> int)
    ensures Peers(s + t, x, cmp) == Peers(s, x, cmp) + Peers(t, x, cmp)
    decreases |t|
  {
    if t == [] {
      assert s + t == s;
    } else {
      var t' := t[..|t| - 1];
      assert (s + t)[..|s + t| - 1] == s + t';
      PeersConcat(s, t', x, cmp);
    }
  }

  lemma PeersOne<T>(y: T, x: T, cmp: (T, T) -> int)
    ensures Peers([y], x, cmp) == if cmp(y, x) == 0 then [y] else []
  {
    assert [y][..0] == [];
  }

  /** Every member of `Peers(s, x)` is a member of `s` that ties with `x`, and conversely. */
  lemma {:induction false} PeersMembers<T>(s: seq<T>, x: T, cmp: (T, T) -> int)
    ensures forall y :: y in Peers(s, x, cmp) <==> y in s && cmp(y, x) == 0
    decreases |s|
  {
    if s != [] {
      PeersMembers(s[..|s| - 1], x, cmp);
      assert s == s[..|s| - 1] + [s[|s| - 1]];
    }
  }

  lemma {:induction false} PeersCount<T>(s: seq<T>, y: T, x: T, cmp: (T, T) -> int)
    requires cmp(y, x) == 0
    ensures multiset(s)[y] == multiset(Peers(s, x, cmp))[y]
    decreases |s|
  {
    if s != [] {
      var s', z := s[..|s| - 1], s[|s| - 1];
      assert Peers(s, x, cmp) == Peers(s', x, cmp) + if cmp(z, x) == 0 then [z] else [];
      assert s == s' + [z];
      hide *;
      PeersCount(s', y, x, cmp);
    }
  }

  /** A stable rearrangement is a permutation. */
  lemma StableIsPermutation<T(!new)>(s: seq<T>, t: seq<T>, cmp: (T, T) -> int)
    requires IsOrder(cmp)
    requires StableRearrangement(s, t, cmp)
    ensures Permutation(s, t)
    ensures |s| == |t|
  {
    forall x ensures multiset(s)[x] == multiset(t)[x] {
      PeersCount(s, x, x, cmp);
      PeersCount(t, x, x, cmp);
    }
    assert |multiset(s)| == |s| && |multiset(t)| == |t|;
  }

  /** Exchanging two neighbours that do not tie is a stable rearrangement. */
  lemma SwapNeighbours<T(!new)>(s: seq<T>, k: nat, cmp: (T, T) -> int)
    requires IsOrder(cmp)
    requires k + 1 < |s| && cmp(s[k], s[k + 1]) != 0
    ensures StableRearrangement(s, s[k := s[k + 1]][k + 1 := s[k]], cmp)
  {
    var a, b := s[k], s[k + 1];
    assert s == s[..k] + [a] + [b] + s[k + 2..];
    assert s[k := b][k + 1 := a] == s[..k] + [b] + [a] + s[k + 2..];
    forall x ensures Peers(s, x, cmp) == Peers(s[k := b][k + 1 := a], x, cmp) {
      PeersAround(s[..k], a, b, s[k + 2..], x, cmp);
      PeersAround(s[..k], b, a, s[k + 2..], x, cmp);
      Transitive(a, x, b, cmp);
      Transitive(b, x, a, cmp);
    }
  }

  lemma PeersAround<T>(u: seq<T>, a: T, b: T, v: seq<T>, x: T, cmp: (T, T) -> int)
    ensures Peers(u + [a] + [b] + v, x, cmp)
         == Peers(u, x, cmp) + (if cmp(a, x) == 0 then [a] else [])
                             + (if cmp(b, x) == 0 then [b] else []) + Peers(v, x, cmp)
  {
    PeersConcat(u + [a] + [b], v, x, cmp);
    PeersConcat(u + [a], [b], x, cmp);
    PeersConcat(u, [a], x, cmp);
    PeersOne(a, x, cmp);
    PeersOne(b, x, cmp);
  }

  // ---------- the reference sort ----------

  lemma {:induction false} InsertSorts<T(!new)>(s: seq<T>, x: T, cmp: (T, T) -> int)
    requires IsOrder(cmp) && Sorted(s, cmp)
    ensures Sorted(InsertBehindPeers(s, x, cmp), cmp)
    ensures forall y :: y in InsertBehindPeers(s, x, cmp) ==> y in s || y == x
    decreases |s|
  {
    if s == [] || cmp(s[|s| - 1], x) <= 0 {
      forall i | 0 <= i < |s| ensures cmp(s[i], x) <= 0 {
        Transitive(s[i], s[|s| - 1], x, cmp);
      }
    } else {
      var s', z := s[..|s| - 1], s[|s| - 1];
      var r := InsertBehindPeers(s', x, cmp);
      InsertSorts(s', x, cmp);
      forall i | 0 <= i < |r| ensures cmp(r[i], z) <= 0 {
        assert r[i] in r;
        if r[i] in s' {
          var k :| 0 <= k < |s'| && s'[k] == r[i];
          assert cmp(s[k], s[|s| - 1]) <= 0;
        }
      }
    }
  }

  lemma {:induction false} InsertIsStable<T(!new)>(s: seq<T>, x: T, y: T, cmp: (T, T) -> int)
    requires IsOrder(cmp)
    ensures Peers(s + [x], y, cmp) == Peers(InsertBehindPeers(s, x, cmp), y, cmp)
    decreases |s|
  {
    if s != [] && cmp(s[|s| - 1], x) > 0 {
      var s', z := s[..|s| - 1], s[|s| - 1];
      var r := InsertBehindPeers(s', x, cmp);
      assert InsertBehindPeers(s, x, cmp) == r + [z] && s == s' + [z];
      hide Peers, InsertBehindPeers;
      InsertIsStable(s', x, y, cmp);
      PassedBehind(s', z, x, y, cmp);
      PeersConcat(s' + [x], [z], y, cmp);
      PeersConcat(r, [z], y, cmp);
    }
  }

  /** Two neighbours that do not tie may change places, for any `y`. */
  lemma {:induction false} PassedBehind<T(!new)>(s: seq<T>, z: T, x: T, y: T, cmp: (T, T) -> int)
    requires IsOrder(cmp) && cmp(z, x) > 0
    ensures Peers(s + [z] + [x], y, cmp) == Peers(s + [x] + [z], y, cmp)
  {
    hide Peers;
    PeersAround(s, z, x, [], y, cmp);
    PeersAround(s, x, z, [], y, cmp);
    assert s + [z] + [x] + [] == s + [z] + [x] && s + [x] + [z] + [] == s + [x] + [z];
    Transitive(x, y, z, cmp);
    Transitive(z, y, x, cmp);
    Antisymmetric(z, x, cmp);
    Antisymmetric(z, y, cmp);
  }

  /** The reference sort sorts, and keeps the order of peers. */
  lemma {:induction false} StableSortMeets<T(!new)>(s: seq<T>, cmp: (T, T) -> int)
    requires IsOrder(cmp)
    ensures Sorted(StableSort(s, cmp), cmp)
    ensures StableRearrangement(s, StableSort(s, cmp), cmp)
    decreases |s|
  {
    if s != [] {
      var s', z := s[..|s| - 1], s[|s| - 1];
      StableSortMeets(s', cmp);
      var r := StableSort(s', cmp);
      InsertSorts(r, z, cmp);
      assert s == s' + [z];
      forall y ensures Peers(s, y, cmp) == Peers(StableSort(s, cmp), y, cmp) {
        PeersConcat(s', [z], y, cmp);
        PeersConcat(r, [z], y, cmp);
        assert Peers(s', y, cmp) == Peers(r, y, cmp);
        InsertIsStable(r, z, y, cmp);
      }
    }
  }

  /** Two sorted sequences with the same peers everywhere are equal. */
  lemma {:induction false} SortedUnique<T(!new)>(t: seq<T>, u: seq<T>, cmp: (T, T) -> int)
    requires IsOrder(cmp) && Sorted(t, cmp) && Sorted(u, cmp)
    requires StableRearrangement(t, u, cmp)
    ensures t == u
    decreases |t|
  {
    StableIsPermutation(t, u, cmp);
    if t != [] {
      var a, b := t[|t| - 1], u[|u| - 1];
      LastIsGreatest(t, u, cmp);
      LastIsGreatest(u, t, cmp);
      assert Peers(t, a, cmp) == Peers(u, a, cmp);
      assert a == Peers(t, a, cmp)[|Peers(t, a, cmp)| - 1] == b;
      var t', u' := t[..|t| - 1], u[..|u| - 1];
      forall x ensures Peers(t', x, cmp) == Peers(u', x, cmp) {
        assert Peers(t, x, cmp) == Peers(u, x, cmp);
        var last := if cmp(a, x) == 0 then [a] else [];
        AppendCancels(Peers(t', x, cmp), Peers(u', x, cmp), last);
      }
      SortedUnique(t', u', cmp);
    }
  }

  lemma AppendCancels<T>(a: seq<T>, b: seq<T>, c: seq<T>)
    requires a + c == b + c
    ensures a == b
  {
    assert |a + c| == |b + c|;
    assert a == (a + c)[..|a|] && b == (b + c)[..|b|];
  }

  lemma LastIsGreatest<T(!new)>(t: seq<T>, u: seq<T>, cmp: (T, T) -> int)
    requires IsOrder(cmp) && Sorted(u, cmp)
    requires Permutation(t, u) && |t| == |u| > 0
    ensures cmp(t[|t| - 1], u[|u| - 1]) <= 0
  {
    var a := t[|t| - 1];
    assert a in multiset(u);
    var k :| 0 <= k < |u| && u[k] == a;
    assert cmp(a, a) == 0;
    assert k < |u| - 1 ==> cmp(u[k], u[|u| - 1]) <= 0;
  }

  /** The reference sort is the only stable way to sort. */
  lemma StableSortUnique<T(!new)>(s: seq<T>, t: seq<T>, cmp: (T, T) -> int)
    requires IsOrder(cmp)
    ensures t == StableSort(s, cmp) <==> Sorted(t, cmp) && StableRearrangement(s, t, cmp)
  {
    StableSortMeets(s, cmp);
    if Sorted(t, cmp) && StableRearrangement(s, t, cmp) {
      forall x ensures Peers(t, x, cmp) == Peers(StableSort(s, cmp), x, cmp) {
        assert Peers(s, x, cmp) == Peers(t, x, cmp);
        assert Peers(s, x, cmp) == Peers(StableSort(s, cmp), x, cmp);
      }
      SortedUnique(t, StableSort(s, cmp), cmp);
    }
  }
}
