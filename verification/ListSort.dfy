/**
 The sorts of sort_list.c, which relink the nodes of a ring while walking it.
 Each takes the ring as a ghost sequence and returns the ring it leaves. The
 loop comments of the source ("back to its place") are the index invariants.
 */
module ListSort {
  import opened Order
  import opened InversionCount
  import opened Insertion
  import opened Ring
  import ArraySort

  ghost function Exchanged<T>(r: seq<T>, i: nat, j: nat): seq<T>
    requires i < |r| && j < |r|
  {
    r[i := r[j]][j := r[i]]
  }

  lemma ExchangedIs<T>(r: seq<T>, i: nat, j: nat)
    requires i < |r| && j < |r|
    ensures Exchanged(r, i, j) == r[i := r[j]][j := r[i]]
  {
  }

  lemma ExchangedBy<T>(r: seq<T>, i: nat, j: nat, x: T)
    requires i < |r| && j < |r| && i != j
    ensures r[i := x][j := r[i]][i := r[j]] == Exchanged(r, i, j)
  {
  }

  /** Adding a link behind `r[i]` and then deleting `r[i]` puts it in the place of `r[i]`. */
  lemma AddThenDelete<T>(r: seq<T>, i: nat, x: T)
    requires i < |r|
    ensures var s := r[..i + 1] + [x] + r[i + 1..]; s[..i] + s[i + 1..] == r[i := x]
  {
  }

  /** Two of the six statements of sort_list.c:9-20: a link takes the place of another. */
  method Supplant<T>(node: ListHead<T>, pa: ListHead<T>, ghost r: seq<ListHead<T>>, ghost i: nat)
    requires IsRing(r) && 0 < i < |r| && pa == r[i] && node !in r
    modifies r, node
    ensures IsRing(r[i := node])
  {
    hide IsRing;
    Neighbours(r, i);
    Neighbours(r, 0);
    ListAdd(node, pa, pa.next, r, i);
    ghost var s := r[..i + 1] + [node] + r[i + 1..];
    Neighbours(s, i);
    ListDel(pa, s, i);
    AddThenDelete(r, i, node);
  }

  /**
   sort_list.c:9-20: exchanges two links of the ring through a temporary one,
   whether or not they are neighbours.
   */
  method Swap<T>(pa: ListHead<T>, pb: ListHead<T>, ghost r: seq<ListHead<T>>, ghost i: nat, ghost j: nat)
    requires IsRing(r) && 0 < i < |r| && 0 < j < |r| && i != j
    requires pa == r[i] && pb == r[j]
    modifies r
    ensures IsRing(Exchanged(r, i, j))
  {
    hide IsRing, Exchanged;
    var node := new ListHead(pa.entry);
    RingDistinct(r);
    Supplant(node, pa, r, i);
    ghost var r2 := r[i := node];
    Supplant(pa, pb, r2, j);
    ghost var r4 := r2[j := pa];
    Supplant(pb, node, r4, i);
    ExchangedBy(r, i, j, node);
  }

  lemma EntriesExchanged<T>(r: seq<ListHead<T>>, i: nat, j: nat)
    requires 0 < i < |r| && 0 < j < |r|
    ensures Entries(Exchanged(r, i, j)) == Exchanged(Entries(r), i - 1, j - 1)
  {
  }

  lemma ExchangedBasics<T>(was: seq<T>, r: seq<T>, i: nat, j: nat)
    requires i < |r| && j < |r| && Permutation(was, r)
    ensures Permutation(was, Exchanged(r, i, j)) && |Exchanged(r, i, j)| == |r|
    ensures forall k :: 0 <= k < |r| ==>
              Exchanged(r, i, j)[k] == if k == j then r[i] else if k == i then r[j] else r[k]
  {
    SwapPermutes(r, i, j);
  }

  /** Facts about positions along a ring that the walks need. */
  lemma At<T>(r: seq<ListHead<T>>, k: nat)
    requires IsRing(r) && k < |r|
    ensures r[k].next == if k + 1 < |r| then r[k + 1] else r[0]
    ensures r[k].prev == if k > 0 then r[k - 1] else r[|r| - 1]
    ensures forall j :: 0 <= j < |r| && r[j] == r[k] ==> j == k
    ensures k > 0 ==> r[k].entry == Entries(r)[k - 1]
  {
    Neighbours(r, k);
  }

  lemma PermutationSets<T>(r: seq<T>, s: seq<T>)
    requires Permutation(r, s)
    ensures forall i :: 0 <= i < |s| ==> s[i] in r
    ensures |r| == |s|
  {
    forall i | 0 <= i < |s| ensures s[i] in r {
      assert s[i] in multiset(s);
    }
    assert |multiset(r)| == |r| && |multiset(s)| == |s|;
  }

  /** What exchanging two neighbours does to the ring and to its payloads. */
  lemma {:induction false} NeighboursExchanged<T>(ring: seq<ListHead<T>>, r: seq<ListHead<T>>, p: nat)
    requires Permutation(ring, r) && 0 < p && p + 1 < |r|
    ensures forall i :: 0 <= i < |r| ==> r[i] in ring
    ensures var t, s := Exchanged(r, p, p + 1), Entries(r);
            && Permutation(ring, t) && |t| == |r|
            && (forall k :: 0 <= k < |r| ==> t[k] == if k == p + 1 then r[p] else if k == p then r[p + 1] else r[k])
            && Entries(t) == s[p - 1 := s[p]][p := s[p - 1]]
  {
    hide *;
    PermutationSets(ring, r);
    EntriesExchanged(r, p, p + 1);
    ExchangedIs(Entries(r), p - 1, p);
    ExchangedBasics(ring, r, p, p + 1);
  }

  /** sort_list.c:30-50 */
  method BubbleSort<T(!new)>(head: ListHead<T>, ghost ring: seq<ListHead<T>>, cmp: (T, T) -> int)
    returns (ghost r: seq<ListHead<T>>, ghost swaps: nat)
    requires IsOrder(cmp) && IsRing(ring) && head == ring[0]
    modifies ring
    ensures IsRing(r) && Permutation(ring, r) && r[0] == head
    ensures Entries(r) == StableSort(Entries(ring), cmp)
    ensures swaps == Inversions(Entries(ring), cmp)
  {
    hide *;
    r, swaps := ring, 0;
    RingDistinct(r);
    PermutationRefl(ring);
    ghost var was := Entries(ring);
    ReachedAtStart(was, cmp);
    ghost var e := |r| - 1;
    ArraySort.BubbleBounds(was, e - 1, cmp);
    At(r, 0);
    var end := head.prev;
    while end != head
      invariant IsRing(r) && Permutation(ring, r) && |r| == |ring| && r[0] == head
      invariant 0 <= e < |r| && end == r[e]
      invariant ArraySort.Settled(Entries(r), e - 1, cmp)
      invariant Reached(was, swaps, Entries(r), cmp)
      decreases e
    {
      At(r, 0);
      ArraySort.BubbleBounds(Entries(r), e - 1, cmp);
      var start := head.next;
      ghost var p := 1;
      while start != head && start != end
        invariant IsRing(r) && Permutation(ring, r) && |r| == |ring| && r[0] == head
        invariant 0 < p <= e < |r| && end == r[e] && start == r[p]
        invariant ArraySort.Settled(Entries(r), e - 1, cmp) && ArraySort.GreatestSoFar(Entries(r), p - 1, cmp)
        invariant Reached(was, swaps, Entries(r), cmp)
        decreases e - p
      {
        At(r, p);
        At(r, e);
        At(r, p + 1);
        ArraySort.BubbleStep(Entries(r), p - 1, e - 1, cmp);
        if cmp(start.entry, start.next.entry) > 0 {
          NeighboursExchanged(ring, r, p);
          Exchange(was, swaps, Entries(r), p - 1, cmp);
          Swap(start, start.next, r, p, p + 1);
          swaps := swaps + 1;
          r := Exchanged(r, p, p + 1);
          At(r, p + 1);
          start := start.prev;
          if start == end {
            At(r, p);
            end := end.next;
          }
        }
        At(r, p);
        start := start.next;
        p := p + 1;
      }
      At(r, e);
      At(r, p);
      ArraySort.BubbleBounds(Entries(r), e - 1, cmp);
      end := end.prev;
      e := e - 1;
    }
    At(r, 0);
    ArraySort.BubbleBounds(Entries(r), e - 1, cmp);
    ReachedSorted(was, swaps, Entries(r), cmp);
  }

  /** sort_list.c:57-63: the first of the least links from `i` on. */
  method FindLeast<T(!new)>(head: ListHead<T>, i: ListHead<T>, ghost r: seq<ListHead<T>>, ghost q: nat, cmp: (T, T) -> int)
    returns (min: ListHead<T>, ghost mn: nat)
    requires IsOrder(cmp) && IsRing(r) && head == r[0] && 0 < q < |r| && i == r[q]
    ensures q <= mn < |r| && min == r[mn]
    ensures forall k :: q <= k < |r| ==> cmp(min.entry, r[k].entry) <= 0
    ensures ArraySort.Least(Entries(r), q - 1, |r| - 1, mn - 1, cmp)
  {
    hide *;
    At(r, q);
    ArraySort.SelectBounds(Entries(r), Entries(r), q - 1, cmp);
    min, mn := i, q;
    var j := i.next;
    ghost var t := q + 1;
    while j != head
      invariant q <= mn < t <= |r| && min == r[mn] && j == if t < |r| then r[t] else r[0]
      invariant ArraySort.Least(Entries(r), q - 1, t - 1, mn - 1, cmp)
      decreases |r| - t
    {
      At(r, t);
      At(r, mn);
      ArraySort.LeastStep(Entries(r), q - 1, t - 1, mn - 1, cmp);
      if cmp(j.entry, min.entry) < 0 {
        min, mn := j, t;
      }
      j := j.next;
      t := t + 1;
    }
    At(r, 0);
    LeastOfAll(r, q, mn, cmp);
  }

  lemma LeastOfAll<T(!new)>(r: seq<ListHead<T>>, q: nat, mn: nat, cmp: (T, T) -> int)
    requires 0 < q <= mn < |r| && ArraySort.Least(Entries(r), q - 1, |r| - 1, mn - 1, cmp)
    ensures forall k :: q <= k < |r| ==> cmp(r[mn].entry, r[k].entry) <= 0
  {
    forall k | q <= k < |r| ensures cmp(r[mn].entry, r[k].entry) <= 0 {
      assert Entries(r)[k - 1] == r[k].entry && Entries(r)[mn - 1] == r[mn].entry;
    }
  }

  /** sort_list.c:52-71: exchanging distant links, with the outcome of the sort on arrays. */
  method SelectSort<T(!new)>(head: ListHead<T>, ghost ring: seq<ListHead<T>>, cmp: (T, T) -> int)
    returns (ghost r: seq<ListHead<T>>)
    requires IsOrder(cmp) && IsRing(ring) && head == ring[0]
    modifies ring
    ensures IsRing(r) && Permutation(ring, r) && r[0] == head
    ensures Sorted(Entries(r), cmp) && Permutation(Entries(ring), Entries(r))
    ensures Entries(r) == ArraySort.SelectSorted(Entries(ring), 0, cmp)
  {
    hide *;
    r := ring;
    RingDistinct(r);
    PermutationRefl(ring);
    ghost var was := Entries(ring);
    PermutationRefl(was);
    At(r, 0);
    var i := head.next;
    ghost var q := if |r| > 1 then 1 else 0;
    ArraySort.SelectBounds(was, was, 0, cmp);
    while i != head.prev
      invariant IsRing(r) && Permutation(ring, r) && |r| == |ring| && r[0] == head
      invariant q < |r| && i == r[q] && (q == 0 <==> |r| == 1)
      invariant ArraySort.Selecting(was, Entries(r), if q > 0 then q - 1 else 0, cmp)
      decreases |r| - q
    {
      At(r, 0);
      At(r, q);
      ghost var mn;
      var min;
      min, mn := FindLeast(head, i, r, q, cmp);
      ArraySort.SelectStep(was, Entries(r), q - 1, mn - 1, cmp);
      ExchangedIs(Entries(r), q - 1, mn - 1);
      At(r, q);
      At(r, mn);
      if min != i {
        PermutationSets(ring, r);
        Swap(min, i, r, mn, q);
        EntriesExchanged(r, mn, q);
        ExchangedBasics(ring, r, mn, q);
        ExchangedSymmetric(Entries(r), q - 1, mn - 1);
        r := Exchanged(r, mn, q);
        i := min;
      }
      At(r, q);
      At(r, 0);
      i := i.next;
      q := q + 1;
    }
    At(r, 0);
    At(r, q);
    ArraySort.SelectBounds(was, Entries(r), if q > 0 then q - 1 else 0, cmp);
  }

  lemma ExchangedSymmetric<T>(r: seq<T>, i: nat, j: nat)
    requires i < |r| && j < |r|
    ensures Exchanged(r, i, j) == Exchanged(r, j, i)
  {
  }

  // ---------- insertion sort ----------

  /** The ring with link `q` taken out and put in again behind link `p`. */
  ghost function Relinked<T>(r: seq<T>, q: nat, p: nat): seq<T>
    requires p < q < |r|
  {
    (r[..q] + r[q + 1..])[..p + 1] + [r[q]] + (r[..q] + r[q + 1..])[p + 1..]
  }

  lemma RelinkedParts<T>(r: seq<T>, q: nat, p: nat)
    requires p < q < |r|
    ensures Relinked(r, q, p) == r[..p + 1] + [r[q]] + r[p + 1..q] + r[q + 1..]
  {
  }

  lemma RelinkedPermutes<T>(was: seq<T>, r: seq<T>, q: nat, p: nat)
    requires p < q < |r| && Permutation(was, r)
    ensures Permutation(was, Relinked(r, q, p)) && |Relinked(r, q, p)| == |r|
    ensures Relinked(r, q, p)[0] == r[0]
    ensures q + 1 < |r| ==> Relinked(r, q, p)[q + 1] == r[q + 1]
  {
    RelinkedParts(r, q, p);
    assert r == r[..p + 1] + r[p + 1..q] + [r[q]] + r[q + 1..];
  }

  lemma RelinkedEntries<T>(r: seq<ListHead<T>>, q: nat, p: nat)
    requires p < q < |r|
    ensures Entries(Relinked(r, q, p)) == Moved(Entries(r), q - 1, p)
  {
    RelinkedParts(r, q, p);
    var t, u := Relinked(r, q, p), Entries(r);
    forall k | 0 <= k < |r| - 1 ensures Entries(t)[k] == Moved(u, q - 1, p)[k] {
      assert Entries(t)[k] == t[k + 1].entry;
    }
  }

  /**
   sort_list.c:86-95: the link at `q`, already found to be out of order, is
   taken out of the ring and put in behind the last link in front of it that
   does not exceed it, or behind the head.
   */
  method Reinsert<T(!new)>(head: ListHead<T>, i: ListHead<T>, ghost r: seq<ListHead<T>>, ghost q: nat,
                           cmp: (T, T) -> int, ghost ord: (T, T) -> int)
    returns (ghost p: nat, ghost moves: nat)
    requires IsOrder(ord) && IsRing(r) && head == r[0] && 1 < q < |r| && i == r[q]
    requires Agree(cmp, ord, Entries(r))
    modifies r
    ensures p < q && IsRing(Relinked(r, q, p))
    ensures Descending(Entries(r), q - 1, p, moves, ord)
    ensures p == 0 || ord(Entries(r)[p - 1], Entries(r)[q - 1]) <= 0
  {
    hide *;
    ghost var u := Entries(r);
    moves := 0;
    DescendingStart(u, q - 1, ord);
    At(r, q);
    var j := i.prev;
    RingDistinct(r);
    ListDel(i, r, q);
    p := q - 1;
    ghost var s := r[..q] + r[q + 1..];
    DistinctWithout(r, q);
    while j != head && cmp(j.entry, i.entry) > 0
      invariant IsRing(s) && head == s[0] && p < q && j == s[p]
      invariant Descending(u, q - 1, p, moves, ord)
      decreases p
    {
      At(s, p);
      At(s, 0);
      EntryAt(r, q);
      EntryAt(r, p);
      AgreeAt(cmp, ord, u, p - 1, q - 1);
      DescendingStep(u, q - 1, p, moves, ord);
      moves := moves + 1;
      j := j.prev;
      p := p - 1;
    }
    At(s, p);
    At(s, 0);
    EntryAt(r, q);
    if p > 0 {
      EntryAt(r, p);
      AgreeAt(cmp, ord, u, p - 1, q - 1);
    }
    RelinkedUnfold(r, q, p);
    ListAdd(i, j, j.next, s, p);
  }

  lemma AgreeAt<T>(cmp: (T, T) -> int, ord: (T, T) -> int, s: seq<T>, i: nat, j: nat)
    requires Agree(cmp, ord, s) && i < |s| && j < |s|
    ensures SameSign(cmp(s[i], s[j]), ord(s[i], s[j])) && SameSign(cmp(s[j], s[i]), ord(s[j], s[i]))
  {
  }

  /** Relinking does not change which payloads there are. */
  lemma AgreeRelinked<T>(cmp: (T, T) -> int, ord: (T, T) -> int, ring: seq<ListHead<T>>, r: seq<ListHead<T>>)
    requires ring != [] && r != [] && ring[0] == r[0] && Permutation(ring, r) && Distinct(r)
    requires Agree(cmp, ord, Entries(ring))
    ensures Agree(cmp, ord, Entries(r))
  {
    PermutationSets(ring, r);
    var u, v := Entries(ring), Entries(r);
    forall i, j | 0 <= i < |v| && 0 <= j < |v| ensures SameSign(cmp(v[i], v[j]), ord(v[i], v[j])) {
      assert r[i + 1] in ring && r[j + 1] in ring && r[0] != r[i + 1] && r[0] != r[j + 1];
      var k :| 0 <= k < |ring| && ring[k] == r[i + 1];
      var l :| 0 <= l < |ring| && ring[l] == r[j + 1];
      assert u[k - 1] == v[i] && u[l - 1] == v[j];
    }
  }

  lemma DistinctWithout<T>(r: seq<ListHead<T>>, q: nat)
    requires q < |r| && Distinct(r)
    ensures r[q] !in r[..q] + r[q + 1..]
  {
  }

  lemma EntryAt<T>(r: seq<ListHead<T>>, k: nat)
    requires 0 < k < |r|
    ensures Entries(r)[k - 1] == r[k].entry
  {
  }

  lemma RelinkedUnfold<T>(r: seq<T>, q: nat, p: nat)
    requires p < q < |r|
    ensures var s := r[..q] + r[q + 1..]; Relinked(r, q, p) == s[..p + 1] + [r[q]] + s[p + 1..]
  {
  }

  /** One more entry is in order once it has been inserted. */
  lemma InsertedOne<T(!new)>(w: seq<T>, u: seq<T>, i: nat, p: nat, moves: nat, cmp: (T, T) -> int)
    requires IsOrder(cmp) && i < |w| && u == SortedUpTo(w, i, cmp)
    requires p <= i < |u| && Descending(u, i, p, moves, cmp)
    requires p == 0 || cmp(u[p - 1], u[i]) <= 0
    ensures Moved(u, i, p) == SortedUpTo(w, i + 1, cmp)
    ensures moves == Above(w[..i], w[i], cmp)
  {
    SortedUpToStep(w, i, cmp);
    DescendingEnd(u, i, p, moves, cmp);
  }

  /** sort_list.c:74-97; the comparison need only be an order on the payloads of the ring. */
  method InsertSort<T(!new)>(head: ListHead<T>, ghost ring: seq<ListHead<T>>, cmp: (T, T) -> int, ghost ord: (T, T) -> int)
    returns (ghost r: seq<ListHead<T>>)
    requires IsOrder(ord) && IsRing(ring) && head == ring[0] && Agree(cmp, ord, Entries(ring))
    modifies ring
    ensures IsRing(r) && Permutation(ring, r) && r[0] == head
    ensures Entries(r) == StableSort(Entries(ring), ord)
  {
    hide *;
    r := ring;
    RingDistinct(r);
    PermutationRefl(ring);
    ghost var was := Entries(ring);
    SortedUpToBounds(was, 1, ord);
    At(r, 0);
    if |r| > 1 { At(r, 1); }
    var i := head.next.next;
    ghost var q := if |r| > 1 then 2 else 1;
    while i != head
      invariant IsRing(r) && Permutation(ring, r) && |r| == |ring| && r[0] == head
      invariant 0 < q <= |r| && i == (if q < |r| then r[q] else head) && (q == 1 ==> |r| == 1)
      invariant Entries(r) == SortedUpTo(was, if q > 1 then q - 1 else 1, ord)
      decreases |r| - q
    {
      At(r, q);
      At(r, 0);
      At(r, q - 1);
      var j := i.prev;
      var following := i.next;
      RingDistinct(r);
      AgreeRelinked(cmp, ord, ring, r);
      EntryAt(r, q);
      if q > 1 { EntryAt(r, q - 1); }
      AgreeAt(cmp, ord, Entries(r), q - 2, q - 1);
      Antisymmetric(j.entry, i.entry, ord);
      if cmp(i.entry, j.entry) >= 0 {
        DescendingStart(Entries(r), q - 1, ord);
        InsertedOne(was, Entries(r), q - 1, q - 1, 0, ord);
      } else {
        PermutationSets(ring, r);
        ghost var p, moves := Reinsert(head, i, r, q, cmp, ord);
        InsertedOne(was, Entries(r), q - 1, p, moves, ord);
        RelinkedEntries(r, q, p);
        RelinkedPermutes(ring, r, q, p);
        r := Relinked(r, q, p);
      }
      i := following;
      q := q + 1;
    }
    At(r, 0);
    SortedUpToBounds(was, if q > 1 then q - 1 else 1, ord);
  }
}
