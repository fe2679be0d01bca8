/**
 The circular doubly linked list of list.h. A ring is described by the ghost
 sequence of its links, the list head first; the primitives only see pointers.
 */
module Ring {

  /** A link, together with the payload of the structure it is embedded in. */
  class ListHead<T> {
    var prev: ListHead<T>
    var next: ListHead<T>
    const entry: T

    /** list.h:21-25 */
    constructor (entry: T)
      ensures next == this && prev == this && this.entry == entry
    {
      this.entry := entry;
      next := this;
      prev := this;
    }
  }

  ghost predicate Distinct<T>(r: seq<ListHead<T>>) {
    forall i, j :: 0 <= i < j < |r| ==> r[i] != r[j]
  }

  /** Following `next` from r[0] runs through `r` and back to r[0], and `prev` runs the other way. */
  ghost predicate IsRing<T>(r: seq<ListHead<T>>)
    reads r
  {
    && r != [] && Distinct(r)
    && (forall i :: 0 <= i < |r| - 1 ==> r[i].next == r[i + 1])
    && (forall i :: 0 < i < |r| ==> r[i].prev == r[i - 1])
    && r[|r| - 1].next == r[0] && r[0].prev == r[|r| - 1]
  }

  /** The payloads along the ring, without the list head's. */
  ghost function Entries<T>(r: seq<ListHead<T>>): (s: seq<T>)
    requires r != []
    ensures |s| == |r| - 1
  {
    seq(|r| - 1, i requires 0 <= i < |r| - 1 => r[i + 1].entry)
  }

  lemma RingOfOne<T>(n: ListHead<T>)
    requires n.next == n && n.prev == n
    ensures IsRing([n])
  {
  }

  /** What the links of a ring say about its neighbours. */
  lemma Neighbours<T>(r: seq<ListHead<T>>, k: nat)
    requires IsRing(r) && k < |r|
    ensures r[k].next == if k + 1 < |r| then r[k + 1] else r[0]
    ensures r[k].prev == if k > 0 then r[k - 1] else r[|r| - 1]
    ensures r[0].next == if |r| > 1 then r[1] else r[0]
    ensures forall j :: 0 <= j < |r| && r[j] == r[k] ==> j == k
  {
  }

  /** Two links on from the head is the head again exactly when at most one node stands behind it. */
  lemma TwoOn<T>(r: seq<ListHead<T>>)
    requires IsRing(r)
    ensures r[0].next.next == r[0] <==> |r| <= 2
  {
    Neighbours(r, 0);
    if |r| > 1 { Neighbours(r, 1); }
    if |r| > 2 { assert r[2] != r[0]; }
  }

  lemma RingDistinct<T>(r: seq<ListHead<T>>)
    requires IsRing(r)
    ensures r != [] && Distinct(r)
  {
  }

  lemma DistinctWith<T>(r: seq<ListHead<T>>, node: ListHead<T>, k: nat)
    requires Distinct(r) && k < |r| && node !in r
    ensures Distinct(r[..k + 1] + [node] + r[k + 1..])
  {
    var t := r[..k + 1] + [node] + r[k + 1..];
    assert forall i :: 0 <= i < |t| ==> t[i] == if i <= k then r[i] else if i == k + 1 then node else r[i - 1];
  }

  lemma DistinctWithout<T>(r: seq<ListHead<T>>, k: nat)
    requires Distinct(r) && k < |r|
    ensures Distinct(r[..k] + r[k + 1..])
  {
    var s := r[..k] + r[k + 1..];
    assert forall i :: 0 <= i < |s| ==> s[i] == if i < k then r[i] else r[i + 1];
  }

  /** The link behind place `k` of a ring. */
  ghost function Behind<T>(r: seq<ListHead<T>>, k: nat): ListHead<T>
    requires k < |r|
  {
    if k + 1 < |r| then r[k + 1] else r[0]
  }

  /** The links along `r` point to each other, except between place `k` and the one behind it. */
  ghost predicate OpenAt<T>(r: seq<ListHead<T>>, k: nat)
    requires k < |r|
    reads r
  {
    forall i :: 0 <= i < |r| && i != k ==> r[i].next == Behind(r, i) && Behind(r, i).prev == r[i]
  }

  lemma RingWith<T>(r: seq<ListHead<T>>, node: ListHead<T>, k: nat)
    requires Distinct(r) && k < |r| && node !in r && OpenAt(r, k)
    requires r[k].next == node && node.prev == r[k] && node.next == Behind(r, k) && Behind(r, k).prev == node
    ensures IsRing(r[..k + 1] + [node] + r[k + 1..])
  {
    DistinctWith(r, node, k);
    hide Distinct;
    var t := r[..k + 1] + [node] + r[k + 1..];
    assert forall i :: 0 <= i < |t| ==> t[i] == if i <= k then r[i] else if i == k + 1 then node else r[i - 1];
    forall i | 0 <= i < |t| ensures t[i].next == Behind(t, i) && Behind(t, i).prev == t[i] {
      if i < k { assert r[i].next == Behind(r, i); } else if i > k + 1 { assert r[i - 1].next == Behind(r, i - 1); }
    }
    ClosedIsRing(t);
  }

  lemma RingWithout<T>(r: seq<ListHead<T>>, k: nat)
    requires Distinct(r) && 0 < k < |r|
    requires forall i :: 0 <= i < |r| && i != k && i != k - 1 ==> r[i].next == Behind(r, i) && Behind(r, i).prev == r[i]
    requires r[k - 1].next == Behind(r, k) && Behind(r, k).prev == r[k - 1]
    ensures IsRing(r[..k] + r[k + 1..])
  {
    DistinctWithout(r, k);
    hide Distinct;
    var s := r[..k] + r[k + 1..];
    assert forall i :: 0 <= i < |s| ==> s[i] == if i < k then r[i] else r[i + 1];
    assert s[0] == r[0];
    forall i | 0 <= i < |s| ensures s[i].next == Behind(s, i) && Behind(s, i).prev == s[i] {
      if i < k - 1 {
        assert s[i] == r[i] && Behind(s, i) == r[i + 1] == Behind(r, i);
      } else if i == k - 1 {
        assert s[i] == r[k - 1] && Behind(s, i) == Behind(r, k);
      } else {
        assert s[i] == r[i + 1] && Behind(s, i) == Behind(r, i + 1);
      }
    }
    hide Behind;
    ClosedIsRing(s);
  }

  lemma ClosedIsRing<T>(t: seq<ListHead<T>>)
    requires t != [] && Distinct(t)
    requires forall i :: 0 <= i < |t| ==> t[i].next == Behind(t, i) && Behind(t, i).prev == t[i]
    ensures IsRing(t)
  {
    hide Distinct;
    forall i | 0 < i < |t| ensures t[i].prev == t[i - 1] {
      assert Behind(t, i - 1) == t[i];
    }
    assert Behind(t, |t| - 1) == t[0];
  }

  /** list.h:28-35: puts `node` between two neighbours of the ring. */
  method ListAdd<T>(node: ListHead<T>, before: ListHead<T>, behind: ListHead<T>, ghost r: seq<ListHead<T>>, ghost k: nat)
    requires IsRing(r) && k < |r| && node !in r
    requires before == r[k] && behind == if k + 1 < |r| then r[k + 1] else r[0]
    modifies node`next, node`prev, behind`prev, before`next
    ensures IsRing(r[..k + 1] + [node] + r[k + 1..])
  {
    node.next := behind;
    node.prev := before;
    behind.prev := node;
    before.next := node;
    RingWith(r, node, k);
  }

  /** list.h:50-53 */
  method ListAddTail<T>(head: ListHead<T>, node: ListHead<T>, ghost r: seq<ListHead<T>>)
    requires IsRing(r) && head == r[0] && node !in r
    modifies node`next, node`prev, head`prev, head.prev`next
    ensures IsRing(r + [node])
  {
    ListAdd(node, head.prev, head, r, |r| - 1);
    assert r[..|r|] + [node] + r[|r|..] == r + [node];
  }

  /** list.h:61-65: the deleted link keeps its own pointers. */
  method ListDel<T>(node: ListHead<T>, ghost r: seq<ListHead<T>>, ghost k: nat)
    requires IsRing(r) && 0 < k < |r| && node == r[k]
    modifies node.prev`next, node.next`prev
    ensures IsRing(r[..k] + r[k + 1..])
    ensures node.next == old(node.next) && node.prev == old(node.prev)
  {
    Neighbours(r, k);
    Neighbours(r, k - 1);
    node.prev.next := node.next;
    node.next.prev := node.prev;
    RingWithout(r, k);
  }

  /** list.h:67-73 */
  method ListDelInit<T>(node: ListHead<T>, ghost r: seq<ListHead<T>>, ghost k: nat)
    requires IsRing(r) && 0 < k < |r| && node == r[k]
    modifies node.prev`next, node.next`prev, node`next, node`prev
    ensures IsRing(r[..k] + r[k + 1..])
    ensures node.next == node && node.prev == node
  {
    ListDel(node, r, k);
    ghost var s := r[..k] + r[k + 1..];
    assert node !in s;
    node.next := node;
    node.prev := node;
  }

  /** list.h:55-58: the two pointers the test reads agree. */
  method ListIsEmpty<T>(head: ListHead<T>, ghost r: seq<ListHead<T>>) returns (empty: bool)
    requires IsRing(r) && head == r[0]
    ensures empty <==> r == [head]
  {
    empty := head.next == head && head.prev == head;
    Neighbours(r, 0);
    assert |r| > 1 ==> r[1] != r[0];
  }
}
