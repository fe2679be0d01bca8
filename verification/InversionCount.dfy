/** Counting the pairs of a sequence that stand the wrong way round. */
module InversionCount {
  import opened Order

  /** How many elements of `s` come strictly after `x` in the order. */
  ghost function Above<T>(s: seq<T>, x: T, cmp: (T, T) -> int): nat {
    if s == [] then 0
    else Above(s[..|s| - 1], x, cmp) + if cmp(s[|s| - 1], x) > 0 then 1 else 0
  }

  /** `CountsInvertedPairs` says what this counts. */
  ghost function Inversions<T>(s: seq<T>, cmp: (T, T) -> int): nat {
    if s == [] then 0
    else Inversions(s[..|s| - 1], cmp) + Above(s[..|s| - 1], s[|s| - 1], cmp)
  }

  ghost function InvertedPairs<T>(s: seq<T>, cmp: (T, T) -> int): set<(nat, nat)> {
    set i: nat, j: nat | i < j < |s| && cmp(s[i], s[j]) > 0 :: (i, j)
  }

  ghost function InvertedWith<T>(s: seq<T>, x: T, j: nat, cmp: (T, T) -> int): set<(nat, nat)> {
    set i: nat | i < |s| && cmp(s[i], x) > 0 :: (i, j)
  }

  lemma {:induction false} AboveIsCardinality<T>(s: seq<T>, x: T, j: nat, cmp: (T, T) -> int)
    ensures |InvertedWith(s, x, j, cmp)| == Above(s, x, cmp)
    decreases |s|
  {
    if s != [] {
      var s', n := s[..|s| - 1], |s| - 1;
      AboveIsCardinality(s', x, j, cmp);
      var last := if cmp(s[n], x) > 0 then {(n as nat, j)} else {};
      assert InvertedWith(s, x, j, cmp) == InvertedWith(s', x, j, cmp) + last;
      assert InvertedWith(s', x, j, cmp) !! last;
    }
  }

  /** The count is the number of pairs i < j with s[i] after s[j] in the order. */
  lemma {:induction false} CountsInvertedPairs<T>(s: seq<T>, cmp: (T, T) -> int)
    ensures Inversions(s, cmp) == |InvertedPairs(s, cmp)|
    decreases |s|
  {
    if s != [] {
      var s', n := s[..|s| - 1], |s| - 1;
      CountsInvertedPairs(s', cmp);
      AboveIsCardinality(s', s[n], n, cmp);
      PairsSplit(s, cmp);
    }
  }

  lemma PairsSplit<T>(s: seq<T>, cmp: (T, T) -> int)
    requires s != []
    ensures var s', n := s[..|s| - 1], |s| - 1;
            |InvertedPairs(s, cmp)| == |InvertedPairs(s', cmp)| + |InvertedWith(s', s[n], n, cmp)|
  {
    var s', n := s[..|s| - 1], |s| - 1;
    var all, old', new' := InvertedPairs(s, cmp), InvertedPairs(s', cmp), InvertedWith(s', s[n], n, cmp);
    hide *;
    forall p ensures (p in all <==> p in old' || p in new') && !(p in old' && p in new') {
      InPairs(s, p, cmp);
      InPairs(s', p, cmp);
      InWith(s', s[n], n, p, cmp);
    }
    assert all == old' + new' && old' !! new';
  }

  lemma InPairs<T>(s: seq<T>, p: (nat, nat), cmp: (T, T) -> int)
    ensures p in InvertedPairs(s, cmp) <==> p.0 < p.1 < |s| && cmp(s[p.0], s[p.1]) > 0
  {
  }

  lemma InWith<T>(s: seq<T>, x: T, j: nat, p: (nat, nat), cmp: (T, T) -> int)
    ensures p in InvertedWith(s, x, j, cmp) <==> p.0 < |s| && p.1 == j && cmp(s[p.0], x) > 0
  {
  }

  lemma {:induction false} AboveConcat<T>(s: seq<T>, t: seq<T>, x: T, cmp: (T, T) -> int)
    ensures Above(s + t, x, cmp) == Above(s, x, cmp) + Above(t, x, cmp)
    decreases |t|
  {
    if t == [] {
      assert s + t == s;
    } else {
      assert (s + t)[..|s + t| - 1] == s + t[..|t| - 1];
      AboveConcat(s, t[..|t| - 1], x, cmp);
    }
  }

  lemma AboveTwo<T>(a: T, b: T, x: T, cmp: (T, T) -> int)
    ensures Above([a, b], x, cmp) == (if cmp(a, x) > 0 then 1 else 0) + (if cmp(b, x) > 0 then 1 else 0)
  {
    assert [a, b][..1] == [a] && [a][..0] == [];
    assert Above([a], x, cmp) == if cmp(a, x) > 0 then 1 else 0;
  }

  lemma {:induction false} InversionsAround<T>(u: seq<T>, a: T, b: T, v: seq<T>, cmp: (T, T) -> int)
    requires cmp(a, b) > 0 && cmp(b, a) < 0
    ensures Inversions(u + [a, b] + v, cmp) == Inversions(u + [b, a] + v, cmp) + 1
    decreases |v|
  {
    if v == [] {
      InversionsAtEnd(u, a, b, cmp);
      InversionsAtEnd(u, b, a, cmp);
      assert u + [a, b] + v == u + [a, b] && u + [b, a] + v == u + [b, a];
    } else {
      var v', z := v[..|v| - 1], v[|v| - 1];
      InversionsAround(u, a, b, v', cmp);
      assert (u + [a, b] + v)[..|u| + 2 + |v'|] == u + [a, b] + v';
      assert (u + [b, a] + v)[..|u| + 2 + |v'|] == u + [b, a] + v';
      AboveConcat(u + [a, b], v', z, cmp);
      AboveConcat(u + [b, a], v', z, cmp);
      AboveConcat(u, [a, b], z, cmp);
      AboveConcat(u, [b, a], z, cmp);
      AboveTwo(a, b, z, cmp);
      AboveTwo(b, a, z, cmp);
    }
  }

  lemma InversionsAtEnd<T>(u: seq<T>, a: T, b: T, cmp: (T, T) -> int)
    ensures Inversions(u + [a, b], cmp)
         == Inversions(u, cmp) + Above(u, a, cmp) + Above(u, b, cmp) + if cmp(a, b) > 0 then 1 else 0
  {
    var s := u + [a, b];
    assert s[..|s| - 1] == u + [a] && (u + [a])[..|u|] == u;
    assert Above(s[..|s| - 1], b, cmp) == Above(u, b, cmp) + if cmp(a, b) > 0 then 1 else 0;
  }

  /** Exchanging two inverted neighbours removes exactly one inversion. */
  lemma SwapRemovesOne<T(!new)>(s: seq<T>, k: nat, cmp: (T, T) -> int)
    requires IsOrder(cmp)
    requires k + 1 < |s| && cmp(s[k], s[k + 1]) > 0
    ensures Inversions(s, cmp) == Inversions(s[k := s[k + 1]][k + 1 := s[k]], cmp) + 1
  {
    var a, b := s[k], s[k + 1];
    assert s == s[..k] + [a, b] + s[k + 2..];
    assert s[k := b][k + 1 := a] == s[..k] + [b, a] + s[k + 2..];
    InversionsAround(s[..k], a, b, s[k + 2..], cmp);
  }

  /** `s` was reached from `was` by `moves` exchanges of inverted neighbours. */
  ghost predicate Reached<T(!new)>(was: seq<T>, moves: nat, s: seq<T>, cmp: (T, T) -> int) {
    StableRearrangement(was, s, cmp) && moves + Inversions(s, cmp) == Inversions(was, cmp)
  }

  lemma ReachedAtStart<T(!new)>(s: seq<T>, cmp: (T, T) -> int)
    ensures Reached(s, 0, s, cmp)
  {
  }

  lemma Exchange<T(!new)>(was: seq<T>, moves: nat, s: seq<T>, k: nat, cmp: (T, T) -> int)
    requires IsOrder(cmp) && Reached(was, moves, s, cmp)
    requires k + 1 < |s| && cmp(s[k], s[k + 1]) > 0
    ensures Reached(was, moves + 1, s[k := s[k + 1]][k + 1 := s[k]], cmp)
  {
    SwapRemovesOne(s, k, cmp);
    SwapNeighbours(s, k, cmp);
    var t := s[k := s[k + 1]][k + 1 := s[k]];
    forall x ensures Peers(was, x, cmp) == Peers(t, x, cmp) {
      assert Peers(was, x, cmp) == Peers(s, x, cmp);
    }
  }

  /** Once everything is in order, the exchanges were the inversions. */
  lemma ReachedSorted<T(!new)>(was: seq<T>, moves: nat, s: seq<T>, cmp: (T, T) -> int)
    requires IsOrder(cmp) && Reached(was, moves, s, cmp) && Sorted(s, cmp)
    ensures s == StableSort(was, cmp) && moves == Inversions(was, cmp)
  {
    NoneWhenSorted(s, cmp);
    StableSortUnique(was, s, cmp);
  }

  /** A sequence has no inversion exactly when it is sorted. */
  lemma NoneWhenSorted<T>(s: seq<T>, cmp: (T, T) -> int)
    ensures Inversions(s, cmp) == 0 <==> Sorted(s, cmp)
  {
    CountsInvertedPairs(s, cmp);
    if Sorted(s, cmp) {
      assert InvertedPairs(s, cmp) == {};
    } else {
      var i, j :| 0 <= i < j < |s| && cmp(s[i], s[j]) > 0;
      assert (i as nat, j as nat) in InvertedPairs(s, cmp);
    }
  }

  // ---------- bounds on the count of greater elements ----------

  lemma RemoveFromBoth<T>(s: seq<T>, x: T, t: seq<T>, u: seq<T>)
    requires Permutation(s + [x], t + [x] + u)
    ensures Permutation(s, t + u)
  {
    assert multiset(s + [x]) == multiset(s) + multiset{x};
    assert multiset(t + [x] + u) == multiset(t + u) + multiset{x};
    assert multiset(s) == multiset(s) + multiset{x} - multiset{x};
  }

  lemma {:induction false} AbovePermutation<T>(s: seq<T>, t: seq<T>, y: T, cmp: (T, T) -> int)
    requires Permutation(s, t)
    ensures Above(s, y, cmp) == Above(t, y, cmp)
    decreases |s|
  {
    assert |multiset(s)| == |s| && |multiset(t)| == |t|;
    if s != [] {
      var s', x := s[..|s| - 1], s[|s| - 1];
      assert x in multiset(s);
      var k :| 0 <= k < |t| && t[k] == x;
      var t', t'' := t[..k], t[k + 1..];
      assert s == s' + [x] && t == t' + [x] + t'';
      RemoveFromBoth(s', x, t', t'');
      AbovePermutation(s', t' + t'', y, cmp);
      AboveConcat(t' + [x], t'', y, cmp);
      AboveConcat(t', [x], y, cmp);
      AboveConcat(t', t'', y, cmp);
      assert [x][..0] == [];
    }
  }

  lemma {:induction false} AboveAtMost<T>(s: seq<T>, y: T, cmp: (T, T) -> int)
    ensures Above(s, y, cmp) <= |s|
    decreases |s|
  {
    if s != [] { AboveAtMost(s[..|s| - 1], y, cmp); }
  }

  lemma {:induction false} AboveNone<T>(s: seq<T>, y: T, cmp: (T, T) -> int)
    requires forall i :: 0 <= i < |s| ==> cmp(s[i], y) <= 0
    ensures Above(s, y, cmp) == 0
    decreases |s|
  {
    if s != [] { AboveNone(s[..|s| - 1], y, cmp); }
  }

  lemma {:induction false} AboveAll<T>(s: seq<T>, y: T, cmp: (T, T) -> int)
    requires forall i :: 0 <= i < |s| ==> cmp(s[i], y) > 0
    ensures Above(s, y, cmp) == |s|
    decreases |s|
  {
    if s != [] { AboveAll(s[..|s| - 1], y, cmp); }
  }

  lemma {:induction false} AboveDominated<T(!new)>(s: seq<T>, t: seq<T>, y: T, cmp: (T, T) -> int)
    requires IsOrder(cmp) && |s| == |t|
    requires forall i :: 0 <= i < |s| ==> cmp(s[i], t[i]) <= 0
    ensures Above(s, y, cmp) <= Above(t, y, cmp)
    decreases |s|
  {
    if s != [] {
      AboveDominated(s[..|s| - 1], t[..|t| - 1], y, cmp);
      Transitive(s[|s| - 1], t[|t| - 1], y, cmp);
    }
  }

  /** In a sorted sequence only elements behind `k` exceed the one at `k`. */
  lemma AboveInSorted<T(!new)>(s: seq<T>, k: nat, cmp: (T, T) -> int)
    requires IsOrder(cmp) && Sorted(s, cmp) && k < |s|
    ensures Above(s, s[k], cmp) <= |s| - 1 - k
  {
    hide Above;
    var front := s[..k + 1];
    assert s == front + s[k + 1..];
    Transitive(s[k], s[k], s[k], cmp);
    forall i | 0 <= i < |front| ensures cmp(front[i], s[k]) <= 0 {
      if i < k { assert cmp(s[i], s[k]) <= 0; } else { assert cmp(s[k], s[k]) == 0; }
    }
    hide *;
    AboveConcat(front, s[k + 1..], s[k], cmp);
    AboveNone(front, s[k], cmp);
    AboveAtMost(s[k + 1..], s[k], cmp);
  }

  /** If the element at `k` exceeds `y`, so do all behind it. */
  lemma AboveFrom<T(!new)>(s: seq<T>, k: nat, y: T, cmp: (T, T) -> int)
    requires IsOrder(cmp) && Sorted(s, cmp) && k < |s|
    requires cmp(s[k], y) > 0
    ensures Above(s, y, cmp) >= |s| - k
  {
    var back := s[k..];
    assert s == s[..k] + back;
    forall i | 0 <= i < |back| ensures cmp(back[i], y) > 0 {
      assert i > 0 ==> cmp(s[k], s[k + i]) <= 0;
      Transitive(s[k + i], y, s[k], cmp);
      Transitive(y, s[k], s[k + i], cmp);
    }
    AboveConcat(s[..k], back, y, cmp);
    AboveAll(back, y, cmp);
  }
}
