/** What one insertion does to a sequence whose front is sorted; the array and the list sorts share it. */
module Insertion {
  import opened Order
  import opened InversionCount

  /** `u` with the element `x` it has at `i` taken out and put in again at `m`. */
  ghost function Moved<T>(u: seq<T>, i: nat, m: nat): seq<T>
    requires m <= i < |u|
  {
    u[..m] + [u[i]] + u[m..i] + u[i + 1..]
  }

  /** Inserting u[i] into u[..i] comes down to inserting it into u[..m], `moves` elements having made room. */
  ghost predicate Descending<T>(u: seq<T>, i: nat, m: nat, moves: nat, cmp: (T, T) -> int)
    requires m <= i < |u|
  {
    && InsertBehindPeers(u[..i], u[i], cmp) == InsertBehindPeers(u[..m], u[i], cmp) + u[m..i]
    && Above(u[..i], u[i], cmp) == Above(u[..m], u[i], cmp) + moves
  }

  lemma DescendingStart<T>(u: seq<T>, i: nat, cmp: (T, T) -> int)
    requires i < |u|
    ensures Descending(u, i, i, 0, cmp) && Moved(u, i, i) == u
  {
    assert u[i..i] == [];
  }

  lemma DescendingStep<T>(u: seq<T>, i: nat, m: nat, moves: nat, cmp: (T, T) -> int)
    requires 0 < m <= i < |u| && Descending(u, i, m, moves, cmp)
    requires cmp(u[m - 1], u[i]) > 0
    ensures Descending(u, i, m - 1, moves + 1, cmp)
  {
    assert u[..m][..m - 1] == u[..m - 1];
    assert u[m - 1..i] == [u[m - 1]] + u[m..i];
    var front := InsertBehindPeers(u[..m - 1], u[i], cmp);
    assert InsertBehindPeers(u[..m], u[i], cmp) == front + [u[m - 1]];
    assert front + [u[m - 1]] + u[m..i] == front + ([u[m - 1]] + u[m..i]);
  }

  lemma DescendingEnd<T(!new)>(u: seq<T>, i: nat, m: nat, moves: nat, cmp: (T, T) -> int)
    requires IsOrder(cmp) && m <= i < |u| && Sorted(u[..i], cmp)
    requires Descending(u, i, m, moves, cmp)
    requires m == 0 || cmp(u[m - 1], u[i]) <= 0
    ensures Moved(u, i, m) == InsertBehindPeers(u[..i], u[i], cmp) + u[i + 1..]
    ensures moves == Above(u[..i], u[i], cmp)
  {
    forall p | 0 <= p < m ensures cmp(u[p], u[i]) <= 0 {
      assert p < m - 1 ==> cmp(u[..i][p], u[..i][m - 1]) <= 0;
      Transitive(u[p], u[m - 1], u[i], cmp);
    }
    AboveNone(u[..m], u[i], cmp);
  }

  /** The first `i` elements of `w` sorted, the rest as it was. */
  ghost function SortedUpTo<T>(w: seq<T>, i: nat, cmp: (T, T) -> int): seq<T> {
    if i <= |w| then StableSort(w[..i], cmp) + w[i..] else StableSort(w, cmp)
  }

  lemma {:induction false} SortedUpToBounds<T>(w: seq<T>, i: nat, cmp: (T, T) -> int)
    ensures SortedUpTo(w, 1, cmp) == w
    ensures i >= |w| ==> SortedUpTo(w, i, cmp) == StableSort(w, cmp)
  {
    if |w| == 0 { SortNone(w, cmp); }
    hide StableSort;
    if |w| >= 1 { SortOne(w, cmp); }
    if i == |w| { WholePrefix(w, StableSort(w, cmp)); }
  }

  lemma WholePrefix<T>(w: seq<T>, u: seq<T>)
    ensures w[..|w|] == w && u + w[|w|..] == u
  {
  }

  lemma SortNone<T>(w: seq<T>, cmp: (T, T) -> int)
    requires w == []
    ensures StableSort(w, cmp) == w
  {
  }

  lemma SortOne<T>(w: seq<T>, cmp: (T, T) -> int)
    requires |w| >= 1
    ensures StableSort(w[..1], cmp) + w[1..] == w
  {
    assert w[..1][..0] == [];
    assert StableSort(w[..1], cmp) == [w[0]];
  }

  /** One insertion sorts one element more, moving as many as exceed it among those in front. */
  lemma SortedUpToStep<T(!new)>(w: seq<T>, i: nat, cmp: (T, T) -> int)
    requires IsOrder(cmp) && i < |w|
    ensures |SortedUpTo(w, i, cmp)| == |w| && Sorted(SortedUpTo(w, i, cmp)[..i], cmp)
    ensures var u := SortedUpTo(w, i, cmp);
            && InsertBehindPeers(u[..i], u[i], cmp) + u[i + 1..] == SortedUpTo(w, i + 1, cmp)
            && Above(u[..i], u[i], cmp) == Above(w[..i], w[i], cmp)
  {
    hide Above, InsertBehindPeers, Permutation, StableRearrangement;
    var r := StableSort(w[..i], cmp);
    StableSortMeets(w[..i], cmp);
    StableIsPermutation(w[..i], r, cmp);
    var u := SortedUpTo(w, i, cmp);
    assert u == r + w[i..];
    assert u[..i] == r && u[i] == w[i] && u[i + 1..] == w[i + 1..];
    assert w[..i + 1][..i] == w[..i];
    AbovePermutation(w[..i], r, w[i], cmp);
  }

  lemma SortedUpToLength<T(!new)>(w: seq<T>, i: nat, cmp: (T, T) -> int)
    requires IsOrder(cmp)
    ensures |SortedUpTo(w, i, cmp)| == |w|
  {
    var p := if i <= |w| then w[..i] else w;
    StableSortMeets(p, cmp);
    StableIsPermutation(p, StableSort(p, cmp), cmp);
  }
}
