/**
 The search tree of btree.c as a value: its shape, the order it keeps, and
 what insertion and deletion do to it. The nodes are the linked objects
 themselves, so a shape also says which object stands where.
 */
module BTreeShape {
  import opened Order
  import opened Seqs

  /** btree.h:5-9; the payload is the structure the node is embedded in. */
  class BNode<T> {
    var parent: BNode?<T>
    var lchild: BNode?<T>
    var rchild: BNode?<T>
    const entry: T

    constructor (entry: T)
      ensures this.entry == entry
    {
      this.entry := entry;
      parent, lchild, rchild := null, null, null;
    }
  }

  datatype Tree<T> = Leaf | Node(l: Tree<T>, n: BNode<T>, r: Tree<T>)

  /** A tree with a hole. */
  datatype Ctx<T> = Top | InLeft(up: Ctx<T>, n: BNode<T>, r: Tree<T>) | InRight(up: Ctx<T>, l: Tree<T>, n: BNode<T>)

  ghost function Nodes<T>(t: Tree<T>): set<BNode<T>> {
    if t.Leaf? then {} else Nodes(t.l) + {t.n} + Nodes(t.r)
  }

  ghost function InOrder<T>(t: Tree<T>): seq<BNode<T>> {
    if t.Leaf? then [] else InOrder(t.l) + [t.n] + InOrder(t.r)
  }

  ghost function Entries<T>(s: seq<BNode<T>>): (e: seq<T>)
    ensures |e| == |s|
  {
    seq(|s|, i requires 0 <= i < |s| => s[i].entry)
  }

  /** No node occurs twice. */
  ghost predicate Unique<T>(t: Tree<T>) {
    t.Node? ==>
      && t.n !in Nodes(t.l) && t.n !in Nodes(t.r) && Nodes(t.l) !! Nodes(t.r)
      && Unique(t.l) && Unique(t.r)
  }

  /** Left of a node everything is less; right of it nothing is. */
  ghost predicate Ordered<T>(t: Tree<T>, cmp: (T, T) -> int) {
    t.Node? ==>
      && (forall a :: a in Nodes(t.l) ==> cmp(a.entry, t.n.entry) < 0)
      && (forall a :: a in Nodes(t.r) ==> cmp(t.n.entry, a.entry) <= 0)
      && Ordered(t.l, cmp) && Ordered(t.r, cmp)
  }

  ghost function RootOf<T>(t: Tree<T>): BNode?<T> {
    if t.Leaf? then null else t.n
  }

  ghost function Plug<T>(c: Ctx<T>, t: Tree<T>): Tree<T>
    decreases c
  {
    match c
    case Top => t
    case InLeft(up, n, r) => Plug(up, Node(t, n, r))
    case InRight(up, l, n) => Plug(up, Node(l, n, t))
  }

  ghost function CtxNodes<T>(c: Ctx<T>): set<BNode<T>> {
    match c
    case Top => {}
    case InLeft(up, n, r) => CtxNodes(up) + {n} + Nodes(r)
    case InRight(up, l, n) => CtxNodes(up) + {n} + Nodes(l)
  }

  ghost predicate CtxUnique<T>(c: Ctx<T>) {
    match c
    case Top => true
    case InLeft(up, n, r) => n !in Nodes(r) && n !in CtxNodes(up) && Nodes(r) !! CtxNodes(up) && Unique(r) && CtxUnique(up)
    case InRight(up, l, n) => n !in Nodes(l) && n !in CtxNodes(up) && Nodes(l) !! CtxNodes(up) && Unique(l) && CtxUnique(up)
  }

  /** The parent of what fills the hole. */
  ghost function HoleParent<T>(c: Ctx<T>): BNode?<T> {
    if c.Top? then null else c.n
  }

  ghost function Before<T>(c: Ctx<T>): seq<BNode<T>> {
    match c
    case Top => []
    case InLeft(up, n, r) => Before(up)
    case InRight(up, l, n) => Before(up) + InOrder(l) + [n]
  }

  ghost function After<T>(c: Ctx<T>): seq<BNode<T>> {
    match c
    case Top => []
    case InLeft(up, n, r) => [n] + InOrder(r) + After(up)
    case InRight(up, l, n) => After(up)
  }

  // ---------- the operations on shapes ----------

  /** btree.c:24-33: down to the right unless the new node is less. */
  ghost function Insert<T>(t: Tree<T>, x: BNode<T>, cmp: (T, T) -> int): Tree<T> {
    if t.Leaf? then Node(Leaf, x, Leaf)
    else if cmp(x.entry, t.n.entry) >= 0 then Node(t.l, t.n, Insert(t.r, x, cmp))
    else Node(Insert(t.l, x, cmp), t.n, t.r)
  }

  ghost function Leftmost<T>(t: Tree<T>): BNode<T>
    requires t.Node?
  {
    if t.l.Leaf? then t.n else Leftmost(t.l)
  }

  ghost function WithoutLeftmost<T>(t: Tree<T>): Tree<T>
    requires t.Node?
  {
    if t.l.Leaf? then t.r else Node(WithoutLeftmost(t.l), t.n, t.r)
  }

  /** What takes the place of a node with children `l` and `r`, btree.c:184-226. */
  ghost function Joined<T>(l: Tree<T>, r: Tree<T>): Tree<T> {
    if r.Leaf? then l
    else if l.Leaf? then r
    else Node(l, Leftmost(r), WithoutLeftmost(r))
  }

  ghost function Delete<T>(t: Tree<T>, x: BNode<T>): Tree<T> {
    if t.Leaf? then Leaf
    else if t.n == x then Joined(t.l, t.r)
    else if x in Nodes(t.l) then Node(Delete(t.l, x), t.n, t.r)
    else Node(t.l, t.n, Delete(t.r, x))
  }

  // ---------- holes ----------

  lemma {:induction false} PlugNodes<T>(c: Ctx<T>, t: Tree<T>)
    ensures Nodes(Plug(c, t)) == CtxNodes(c) + Nodes(t)
    decreases c
  {
    match c
    case Top =>
    case InLeft(up, n, r) => PlugNodes(up, Node(t, n, r));
    case InRight(up, l, n) => PlugNodes(up, Node(l, n, t));
  }

  lemma {:induction false} PlugUnique<T>(c: Ctx<T>, t: Tree<T>)
    ensures Unique(Plug(c, t)) <==> CtxUnique(c) && Unique(t) && CtxNodes(c) !! Nodes(t)
    decreases c
  {
    match c
    case Top =>
    case InLeft(up, n, r) => PlugUnique(up, Node(t, n, r));
    case InRight(up, l, n) => PlugUnique(up, Node(l, n, t));
  }

  lemma AroundHole<T>(a: seq<T>, b: seq<T>, c: seq<T>, d: seq<T>, e: seq<T>)
    ensures a + (b + c + d) + e == a + b + (c + d + e) == (a + b + c) + d + e
  {
  }

  lemma {:induction false} PlugInOrder<T>(c: Ctx<T>, t: Tree<T>)
    ensures InOrder(Plug(c, t)) == Before(c) + InOrder(t) + After(c)
    decreases c
  {
    match c
    case Top =>
      assert [] + InOrder(t) + [] == InOrder(t);
    case InLeft(up, n, r) =>
      PlugInOrder(up, Node(t, n, r));
      AroundHole(Before(up), InOrder(t), [n], InOrder(r), After(up));
    case InRight(up, l, n) =>
      PlugInOrder(up, Node(l, n, t));
      AroundHole(Before(up), InOrder(l), [n], InOrder(t), After(up));
  }

  /** What fills a hole may be replaced by an ordered tree over some of the same nodes. */
  lemma {:induction false} PlugOrdered<T>(c: Ctx<T>, t: Tree<T>, t': Tree<T>, cmp: (T, T) -> int)
    requires Ordered(Plug(c, t), cmp) && Ordered(t, cmp) ==> Ordered(t', cmp)
    requires Ordered(Plug(c, t), cmp) && Nodes(t') <= Nodes(t)
    ensures Ordered(t, cmp) && Ordered(Plug(c, t'), cmp)
    decreases c
  {
    PlugPartOrdered(c, t, cmp);
    match c
    case Top =>
    case InLeft(up, n, r) =>
      PlugPartOrdered(up, Node(t, n, r), cmp);
      PlugOrdered(up, Node(t, n, r), Node(t', n, r), cmp);
    case InRight(up, l, n) =>
      PlugPartOrdered(up, Node(l, n, t), cmp);
      PlugOrdered(up, Node(l, n, t), Node(l, n, t'), cmp);
  }

  lemma {:induction false} PlugPartOrdered<T>(c: Ctx<T>, t: Tree<T>, cmp: (T, T) -> int)
    requires Ordered(Plug(c, t), cmp)
    ensures Ordered(t, cmp)
    decreases c
  {
    match c
    case Top =>
    case InLeft(up, n, r) => PlugPartOrdered(up, Node(t, n, r), cmp);
    case InRight(up, l, n) => PlugPartOrdered(up, Node(l, n, t), cmp);
  }

  /** Every node of a tree stands in some hole of it. */
  lemma {:induction false} Locate<T>(t: Tree<T>, x: BNode<T>) returns (c: Ctx<T>, l: Tree<T>, r: Tree<T>)
    requires x in Nodes(t)
    ensures Plug(c, Node(l, x, r)) == t
  {
    c, l, r := LocateFrom(Top, t, x);
  }

  lemma {:induction false} LocateFrom<T>(c0: Ctx<T>, t: Tree<T>, x: BNode<T>)
    returns (c: Ctx<T>, l: Tree<T>, r: Tree<T>)
    requires x in Nodes(t)
    ensures Plug(c, Node(l, x, r)) == Plug(c0, t)
    decreases t
  {
    if t.n == x {
      c, l, r := c0, t.l, t.r;
    } else if x in Nodes(t.l) {
      c, l, r := LocateFrom(InLeft(c0, t.n, t.r), t.l, x);
    } else {
      c, l, r := LocateFrom(InRight(c0, t.l, t.n), t.r, x);
    }
  }

  // ---------- insertion ----------

  lemma {:induction false} InsertNodes<T>(t: Tree<T>, x: BNode<T>, cmp: (T, T) -> int)
    ensures Nodes(Insert(t, x, cmp)) == Nodes(t) + {x}
  {
    if t.Node? {
      if cmp(x.entry, t.n.entry) >= 0 { InsertNodes(t.r, x, cmp); } else { InsertNodes(t.l, x, cmp); }
    }
  }

  /** The new node hangs without children where there was nothing, and nothing else has moved. */
  ghost predicate HangsLeaf<T>(was: Tree<T>, t: Tree<T>, x: BNode<T>) {
    if was.Leaf? then t == Node(Leaf, x, Leaf)
    else
      && t.Node? && t.n == was.n
      && ((t.l == was.l && HangsLeaf(was.r, t.r, x)) || (t.r == was.r && HangsLeaf(was.l, t.l, x)))
  }

  /** That is filling one hole of the tree with the node. */
  lemma {:induction false} LeafInHole<T>(c0: Ctx<T>, was: Tree<T>, t: Tree<T>, x: BNode<T>) returns (c: Ctx<T>)
    requires HangsLeaf(was, t, x)
    ensures Plug(c, Leaf) == Plug(c0, was) && Plug(c, Node(Leaf, x, Leaf)) == Plug(c0, t)
    decreases was
  {
    if was.Leaf? {
      c := c0;
    } else if t.l == was.l && HangsLeaf(was.r, t.r, x) {
      c := LeafInHole(InRight(c0, t.l, t.n), was.r, t.r, x);
    } else {
      c := LeafInHole(InLeft(c0, t.n, t.r), was.l, t.l, x);
    }
  }

  /** Insertion adds a leaf. */
  lemma {:induction false} InsertHangsLeaf<T>(t: Tree<T>, x: BNode<T>, cmp: (T, T) -> int)
    ensures HangsLeaf(t, Insert(t, x, cmp), x)
  {
    if t.Node? {
      if cmp(x.entry, t.n.entry) >= 0 { InsertHangsLeaf(t.r, x, cmp); } else { InsertHangsLeaf(t.l, x, cmp); }
    }
  }

  lemma {:induction false} InsertUnique<T>(t: Tree<T>, x: BNode<T>, cmp: (T, T) -> int)
    requires Unique(t) && x !in Nodes(t)
    ensures Unique(Insert(t, x, cmp))
  {
    if t.Node? {
      InsertNodes(t.l, x, cmp);
      InsertNodes(t.r, x, cmp);
      if cmp(x.entry, t.n.entry) >= 0 { InsertUnique(t.r, x, cmp); } else { InsertUnique(t.l, x, cmp); }
    }
  }

  lemma {:induction false} InsertOrdered<T(!new)>(t: Tree<T>, x: BNode<T>, cmp: (T, T) -> int)
    requires IsOrder(cmp) && Ordered(t, cmp)
    ensures Ordered(Insert(t, x, cmp), cmp)
  {
    if t.Node? {
      InsertNodes(t.l, x, cmp);
      InsertNodes(t.r, x, cmp);
      Antisymmetric(x.entry, t.n.entry, cmp);
      if cmp(x.entry, t.n.entry) >= 0 { InsertOrdered(t.r, x, cmp); } else { InsertOrdered(t.l, x, cmp); }
    }
  }

  /** The comparison of payloads, as one of nodes. */
  ghost function ByEntry<T>(cmp: (T, T) -> int): (BNode<T>, BNode<T>) -> int {
    (a: BNode<T>, b: BNode<T>) => cmp(a.entry, b.entry)
  }

  lemma {:induction false} InOrderMembers<T>(t: Tree<T>)
    ensures forall i :: 0 <= i < |InOrder(t)| ==> InOrder(t)[i] in Nodes(t)
    ensures forall a :: a in Nodes(t) ==> a in InOrder(t)
  {
    if t.Node? {
      InOrderMembers(t.l);
      InOrderMembers(t.r);
    }
  }

  lemma {:induction false} InsertBeyond<T>(s: seq<BNode<T>>, x: BNode<T>, m: seq<BNode<T>>, cmp: (T, T) -> int)
    requires forall i :: 0 <= i < |m| ==> cmp(m[i].entry, x.entry) > 0
    ensures InsertBehindPeers(s + m, x, ByEntry(cmp)) == InsertBehindPeers(s, x, ByEntry(cmp)) + m
    decreases |m|
  {
    if m == [] {
      assert s + m == s;
    } else {
      var k := |m| - 1;
      assert (s + m)[..|s + m| - 1] == s + m[..k];
      assert (s + m)[|s + m| - 1] == m[k];
      InsertBeyond(s, x, m[..k], cmp);
      assert m == m[..k] + [m[k]];
    }
  }

  lemma {:induction false} InsertWithin<T>(s: seq<BNode<T>>, y: BNode<T>, m: seq<BNode<T>>, x: BNode<T>, cmp: (T, T) -> int)
    requires cmp(y.entry, x.entry) <= 0
    ensures InsertBehindPeers(s + [y] + m, x, ByEntry(cmp)) == s + [y] + InsertBehindPeers(m, x, ByEntry(cmp))
    decreases |m|
  {
    var z := s + [y] + m;
    if m == [] {
      assert z == s + [y];
      assert s + [y] + [x] == s + [y] + ([] + [x]);
    } else {
      var k := |m| - 1;
      assert z[..|z| - 1] == s + [y] + m[..k] && z[|z| - 1] == m[k];
      InsertWithin(s, y, m[..k], x, cmp);
      if cmp(m[k].entry, x.entry) <= 0 {
        assert z + [x] == s + [y] + (m + [x]);
      } else {
        var front := InsertBehindPeers(m[..k], x, ByEntry(cmp));
        assert (s + [y] + front) + [m[k]] == s + [y] + (front + [m[k]]);
      }
    }
  }

  /** In the in-order sequence, insertion puts the node behind all its peers. */
  lemma {:induction false} InsertInOrder<T(!new)>(t: Tree<T>, x: BNode<T>, cmp: (T, T) -> int)
    requires IsOrder(cmp) && Ordered(t, cmp)
    ensures InOrder(Insert(t, x, cmp)) == InsertBehindPeers(InOrder(t), x, ByEntry(cmp))
  {
    if t.Node? {
      var l, r := InOrder(t.l), InOrder(t.r);
      InsertAside(t, x, cmp);
      OrderedParts(t, cmp);
      if cmp(x.entry, t.n.entry) >= 0 {
        Antisymmetric(x.entry, t.n.entry, cmp);
        hide *;
        InsertInOrder(t.r, x, cmp);
        InsertWithin(l, t.n, r, x, cmp);
      } else {
        hide *;
        InsertInOrder(t.l, x, cmp);
        RightIsGreater(t, x, cmp);
        InsertBeyond(l, x, [t.n] + r, cmp);
        Regroup(l, [t.n], r);
        Regroup(InOrder(Insert(t.l, x, cmp)), [t.n], r);
      }
    }
  }

  lemma InsertAside<T>(t: Tree<T>, x: BNode<T>, cmp: (T, T) -> int)
    requires t.Node?
    ensures InOrder(t) == InOrder(t.l) + [t.n] + InOrder(t.r)
    ensures InOrder(Insert(t, x, cmp)) ==
              if cmp(x.entry, t.n.entry) >= 0 then InOrder(t.l) + [t.n] + InOrder(Insert(t.r, x, cmp))
              else InOrder(Insert(t.l, x, cmp)) + [t.n] + InOrder(t.r)
  {
  }

  lemma OrderedParts<T>(t: Tree<T>, cmp: (T, T) -> int)
    requires t.Node? && Ordered(t, cmp)
    ensures Ordered(t.l, cmp) && Ordered(t.r, cmp)
  {
  }

  lemma RightIsGreater<T(!new)>(t: Tree<T>, x: BNode<T>, cmp: (T, T) -> int)
    requires IsOrder(cmp) && t.Node? && Ordered(t, cmp) && cmp(x.entry, t.n.entry) < 0
    ensures forall i :: 0 <= i < |InOrder(t.r)| + 1 ==> cmp(([t.n] + InOrder(t.r))[i].entry, x.entry) > 0
  {
    var r := InOrder(t.r);
    var m := [t.n] + r;
    InOrderMembers(t.r);
    forall i | 0 <= i < |m| ensures cmp(m[i].entry, x.entry) > 0 {
      if i > 0 { assert m[i] == r[i - 1]; }
      Transitive(x.entry, t.n.entry, m[i].entry, cmp);
      Antisymmetric(x.entry, m[i].entry, cmp);
    }
  }

  /** The payloads in order do not decrease. */
  lemma {:induction false} InOrderSorted<T(!new)>(t: Tree<T>, cmp: (T, T) -> int)
    requires IsOrder(cmp) && Ordered(t, cmp)
    ensures Sorted(Entries(InOrder(t)), cmp)
  {
    if t.Node? {
      InOrderSorted(t.l, cmp);
      InOrderSorted(t.r, cmp);
      InOrderMembers(t.l);
      InOrderMembers(t.r);
      var l, r, s := InOrder(t.l), InOrder(t.r), InOrder(t);
      var m := |l|;
      forall i, j | 0 <= i < j < |s| ensures cmp(s[i].entry, s[j].entry) <= 0 {
        if j < m {
          assert cmp(Entries(l)[i], Entries(l)[j]) <= 0;
        } else if i > m {
          assert cmp(Entries(r)[i - m - 1], Entries(r)[j - m - 1]) <= 0;
        } else {
          if i < m { assert s[i] == l[i]; }
          if j > m { assert s[j] == r[j - m - 1]; }
          Antisymmetric(t.n.entry, t.n.entry, cmp);
          Transitive(s[i].entry, t.n.entry, s[j].entry, cmp);
        }
      }
    }
  }

  // ---------- deletion ----------

  lemma {:induction false} LeftmostFacts<T>(t: Tree<T>)
    requires t.Node?
    ensures InOrder(t) == [Leftmost(t)] + InOrder(WithoutLeftmost(t))
    ensures Nodes(t) == {Leftmost(t)} + Nodes(WithoutLeftmost(t))
    ensures Unique(t) ==> Unique(WithoutLeftmost(t)) && Leftmost(t) !in Nodes(WithoutLeftmost(t))
  {
    if t.l.Node? { LeftmostFacts(t.l); }
  }

  lemma {:induction false} LeftmostOrdered<T(!new)>(t: Tree<T>, cmp: (T, T) -> int)
    requires t.Node? && IsOrder(cmp) && Ordered(t, cmp)
    ensures Ordered(WithoutLeftmost(t), cmp)
    ensures forall a :: a in Nodes(WithoutLeftmost(t)) ==> cmp(Leftmost(t).entry, a.entry) <= 0
  {
    LeftmostFacts(t);
    if t.l.Node? {
      LeftmostFacts(t.l);
      LeftmostOrdered(t.l, cmp);
      forall a | a in Nodes(WithoutLeftmost(t)) ensures cmp(Leftmost(t).entry, a.entry) <= 0 {
        Transitive(Leftmost(t).entry, t.n.entry, a.entry, cmp);
      }
    }
  }

  /** The children of a node, joined: the same nodes in the same order, without the node. */
  lemma JoinedFacts<T>(l: Tree<T>, x: BNode<T>, r: Tree<T>)
    ensures InOrder(Joined(l, r)) == InOrder(l) + InOrder(r)
    ensures Nodes(Joined(l, r)) == Nodes(l) + Nodes(r)
    ensures Unique(Node(l, x, r)) ==> Unique(Joined(l, r))
  {
    if r.Node? && l.Node? {
      LeftmostFacts(r);
      assert InOrder(l) + [Leftmost(r)] + InOrder(WithoutLeftmost(r)) == InOrder(l) + InOrder(r);
    }
  }

  /**
   Only the place of `x` has changed. There its only child stands now, or
   nothing, or the first node of its right part in order, which has given up
   its own place in the same way.
   */
  ghost predicate GivesPlace<T>(was: Tree<T>, t: Tree<T>, x: BNode<T>)
    decreases was
  {
    && was.Node?
    && if was.n != x then
         && t.Node? && t.n == was.n
         && ((t.l == was.l && GivesPlace(was.r, t.r, x)) || (t.r == was.r && GivesPlace(was.l, t.l, x)))
       else if was.r.Leaf? then t == was.l
       else if was.l.Leaf? then t == was.r
       else t.Node? && t.l == was.l && t.n == InOrder(was.r)[0] && GivesPlace(was.r, t.r, t.n)
  }

  lemma {:induction false} FirstGivesPlace<T>(t: Tree<T>)
    requires t.Node? && Unique(t)
    ensures InOrder(t) != [] && InOrder(t)[0] == Leftmost(t) && GivesPlace(t, WithoutLeftmost(t), Leftmost(t))
  {
    LeftmostFacts(t);
    if t.l.Node? {
      FirstGivesPlace(t.l);
      LeftmostFacts(t.l);
    }
  }

  lemma {:induction false} DeleteGivesPlace<T>(t: Tree<T>, x: BNode<T>)
    requires Unique(t) && x in Nodes(t)
    ensures GivesPlace(t, Delete(t, x), x)
  {
    if t.n == x {
      if t.l.Node? && t.r.Node? { FirstGivesPlace(t.r); }
    } else if x in Nodes(t.l) {
      DeleteGivesPlace(t.l, x);
    } else {
      DeleteGivesPlace(t.r, x);
    }
  }

  lemma {:induction false} JoinedOrdered<T(!new)>(l: Tree<T>, x: BNode<T>, r: Tree<T>, cmp: (T, T) -> int)
    requires IsOrder(cmp) && Ordered(Node(l, x, r), cmp)
    ensures Ordered(Joined(l, r), cmp)
  {
    if r.Node? && l.Node? {
      LeftmostFacts(r);
      LeftmostOrdered(r, cmp);
      forall a | a in Nodes(l) ensures cmp(a.entry, Leftmost(r).entry) < 0 {
        Transitive(a.entry, x.entry, Leftmost(r).entry, cmp);
      }
    }
  }

  /** Deleting a node is filling its hole with its joined children. */
  lemma {:induction false} DeletePlug<T>(c: Ctx<T>, t: Tree<T>, x: BNode<T>)
    requires Unique(Plug(c, t)) && x in Nodes(t)
    ensures Delete(Plug(c, t), x) == Plug(c, Delete(t, x))
    decreases c
  {
    PlugUnique(c, t);
    match c
    case Top =>
    case InLeft(up, n, r) => DeletePlug(up, Node(t, n, r), x);
    case InRight(up, l, n) => DeletePlug(up, Node(l, n, t), x);
  }

  /** `s` without its element `k`. */
  ghost function Without<T>(s: seq<T>, k: nat): seq<T>
    requires k < |s|
  {
    s[..k] + s[k + 1..]
  }

  /** Deletion keeps the nodes apart and takes out just the one. */
  lemma {:induction false} DeleteNodes<T>(t: Tree<T>, x: BNode<T>)
    requires Unique(t) && x in Nodes(t)
    ensures Unique(Delete(t, x)) && Nodes(Delete(t, x)) == Nodes(t) - {x}
  {
    var c, l, r := Locate(t, x);
    var s, s' := Node(l, x, r), Joined(l, r);
    DeletePlug(c, s, x);
    JoinedFacts(l, x, r);
    assert Delete(s, x) == s';
    hide Plug, Delete, Joined;
    PlugUnique(c, s);
    PlugUnique(c, s');
    PlugNodes(c, s);
    PlugNodes(c, s');
  }

  /** In the in-order sequence exactly the deleted node is missing. */
  lemma DeleteInOrder<T>(t: Tree<T>, x: BNode<T>) returns (k: nat)
    requires Unique(t) && x in Nodes(t)
    ensures k < |InOrder(t)| && InOrder(t)[k] == x
    ensures InOrder(Delete(t, x)) == Without(InOrder(t), k)
  {
    var c, l, r := Locate(t, x);
    DeletePlug(c, Node(l, x, r), x);
    var u, v, p, q := InOrder(l), InOrder(r), Before(c), After(c);
    assert InOrder(Node(l, x, r)) == u + [x] + v;
    assert Delete(Node(l, x, r), x) == Joined(l, r);
    JoinedFacts(l, x, r);
    hide *;
    PlugInOrder(c, Node(l, x, r));
    PlugInOrder(c, Joined(l, r));
    k := |p + u|;
    WithoutMiddle(p, u, x, v, q);
  }

  lemma WithoutMiddle<T>(p: seq<T>, u: seq<T>, x: T, v: seq<T>, q: seq<T>)
    ensures var s := p + (u + [x] + v) + q;
            |p + u| < |s| && s[|p + u|] == x && Without(s, |p + u|) == p + (u + v) + q
  {
    var s := p + (u + [x] + v) + q;
    assert s[..|p + u|] == p + u && s[|p + u| + 1..] == v + q;
  }

  /** Deletion keeps the order. */
  lemma {:induction false} DeleteOrdered<T(!new)>(t: Tree<T>, x: BNode<T>, cmp: (T, T) -> int)
    requires IsOrder(cmp) && Unique(t) && Ordered(t, cmp) && x in Nodes(t)
    ensures Ordered(Delete(t, x), cmp)
  {
    var c, l, r := Locate(t, x);
    DeletePlug(c, Node(l, x, r), x);
    PlugPartOrdered(c, Node(l, x, r), cmp);
    JoinedFacts(l, x, r);
    JoinedOrdered(l, x, r, cmp);
    PlugOrdered(c, Node(l, x, r), Joined(l, r), cmp);
  }

  // ---------- search ----------

  /** A key that is less than a node is looked for on the left, one that is greater on the right. */
  lemma FindStep<T(!new)>(t: Tree<T>, key: T, cmp: (T, T) -> int)
    requires t.Node? && IsOrder(cmp) && Ordered(t, cmp)
    ensures cmp(key, t.n.entry) < 0 ==> forall a :: a in Nodes(t) && cmp(key, a.entry) == 0 ==> a in Nodes(t.l)
    ensures cmp(key, t.n.entry) > 0 ==> forall a :: a in Nodes(t) && cmp(key, a.entry) == 0 ==> a in Nodes(t.r)
  {
    var n := t.n;
    forall a | a in Nodes(t) && cmp(key, a.entry) == 0
      ensures cmp(key, n.entry) < 0 ==> a in Nodes(t.l)
      ensures cmp(key, n.entry) > 0 ==> a in Nodes(t.r)
    {
      Antisymmetric(key, a.entry, cmp);
      Antisymmetric(key, n.entry, cmp);
      Antisymmetric(a.entry, n.entry, cmp);
      Transitive(n.entry, a.entry, key, cmp);
      Transitive(n.entry, key, a.entry, cmp);
      Transitive(a.entry, key, n.entry, cmp);
      Transitive(key, a.entry, n.entry, cmp);
    }
  }

  /** btree.c:141-161 */
  ghost function FindIn<T>(t: Tree<T>, key: T, cmp: (T, T) -> int): BNode?<T> {
    if t.Leaf? then null
    else if cmp(key, t.n.entry) == 0 then t.n
    else FindIn(if cmp(key, t.n.entry) < 0 then t.l else t.r, key, cmp)
  }

  /** The first element that is equal to the key. */
  ghost function FirstEqual<T>(s: seq<BNode<T>>, key: T, cmp: (T, T) -> int): BNode?<T> {
    if s == [] then null else if cmp(key, s[0].entry) == 0 then s[0] else FirstEqual(s[1..], key, cmp)
  }

  /** The element at `k` is equal to the key, and none in front of it is. */
  ghost predicate IsFirstEqual<T>(s: seq<BNode<T>>, k: int, key: T, cmp: (T, T) -> int) {
    0 <= k < |s| && cmp(key, s[k].entry) == 0 && forall i :: 0 <= i < k ==> cmp(key, s[i].entry) != 0
  }

  lemma {:induction false} FirstEqualMeets<T>(s: seq<BNode<T>>, key: T, cmp: (T, T) -> int)
    ensures FirstEqual(s, key, cmp) == null ==> forall i :: 0 <= i < |s| ==> cmp(key, s[i].entry) != 0
    ensures FirstEqual(s, key, cmp) != null ==> exists k :: IsFirstEqual(s, k, key, cmp) && s[k] == FirstEqual(s, key, cmp)
  {
    if s != [] && cmp(key, s[0].entry) != 0 {
      var t := s[1..];
      FirstEqualMeets(t, key, cmp);
      assert forall i :: 0 < i < |s| ==> s[i] == t[i - 1];
      if FirstEqual(t, key, cmp) != null {
        var k :| IsFirstEqual(t, k, key, cmp) && t[k] == FirstEqual(t, key, cmp);
        assert IsFirstEqual(s, k + 1, key, cmp);
      }
    } else if s != [] {
      assert IsFirstEqual(s, 0, key, cmp);
    }
  }

  lemma {:induction false} FirstEqualConcat<T>(a: seq<BNode<T>>, b: seq<BNode<T>>, key: T, cmp: (T, T) -> int)
    ensures FirstEqual(a + b, key, cmp)
         == if FirstEqual(a, key, cmp) != null then FirstEqual(a, key, cmp) else FirstEqual(b, key, cmp)
  {
    if a == [] {
      assert a + b == b;
    } else {
      assert (a + b)[1..] == a[1..] + b;
      FirstEqualConcat(a[1..], b, key, cmp);
    }
  }

  lemma {:induction false} NoneEqual<T>(s: seq<BNode<T>>, key: T, cmp: (T, T) -> int)
    requires forall i :: 0 <= i < |s| ==> cmp(key, s[i].entry) != 0
    ensures FirstEqual(s, key, cmp) == null
  {
    if s != [] { NoneEqual(s[1..], key, cmp); }
  }

  /** What is not on the side the search turns to is not equal, and nothing left of an equal node is. */
  lemma {:induction false} OtherSide<T(!new)>(t: Tree<T>, key: T, cmp: (T, T) -> int)
    requires t.Node? && IsOrder(cmp) && Ordered(t, cmp)
    ensures cmp(key, t.n.entry) >= 0 ==> FirstEqual(InOrder(t.l), key, cmp) == null
    ensures cmp(key, t.n.entry) < 0 ==> FirstEqual(InOrder(t.r), key, cmp) == null
  {
    InOrderMembers(t.l);
    InOrderMembers(t.r);
    var n, l, r := t.n.entry, InOrder(t.l), InOrder(t.r);
    if cmp(key, n) >= 0 {
      forall i | 0 <= i < |l| ensures cmp(key, l[i].entry) != 0 {
        Antisymmetric(key, n, cmp);
        Antisymmetric(key, l[i].entry, cmp);
        Transitive(l[i].entry, n, key, cmp);
      }
      NoneEqual(l, key, cmp);
    } else {
      forall i | 0 <= i < |r| ensures cmp(key, r[i].entry) != 0 { Transitive(key, n, r[i].entry, cmp); }
      NoneEqual(r, key, cmp);
    }
  }

  /** The search finds the first equal node in order, and null exactly when there is none. */
  lemma {:induction false} FindsFirst<T(!new)>(t: Tree<T>, key: T, cmp: (T, T) -> int)
    requires IsOrder(cmp) && Ordered(t, cmp)
    ensures FindIn(t, key, cmp) == FirstEqual(InOrder(t), key, cmp)
  {
    if t.Node? {
      Antisymmetric(key, t.n.entry, cmp);
      OrderedParts(t, cmp);
      OtherSide(t, key, cmp);
      var l, r := InOrder(t.l), InOrder(t.r);
      var side := if cmp(key, t.n.entry) < 0 then t.l else t.r;
      assert InOrder(t) == l + [t.n] + r;
      assert FirstEqual([t.n], key, cmp) == if cmp(key, t.n.entry) == 0 then t.n else null by {
        assert [t.n][1..] == [];
      }
      assert FindIn(t, key, cmp) == if cmp(key, t.n.entry) == 0 then t.n else FindIn(side, key, cmp);
      hide *;
      if cmp(key, t.n.entry) != 0 { FindsFirst(side, key, cmp); }
      FirstEqualConcat(l + [t.n], r, key, cmp);
      FirstEqualConcat(l, [t.n], key, cmp);
    }
  }

  /** Some element of the sequence is equal to the key. */
  ghost predicate Present<T>(s: seq<BNode<T>>, key: T, cmp: (T, T) -> int) {
    exists i :: 0 <= i < |s| && cmp(key, s[i].entry) == 0
  }

  lemma FoundIffPresent<T(!new)>(t: Tree<T>, key: T, cmp: (T, T) -> int)
    requires IsOrder(cmp) && Ordered(t, cmp)
    ensures FindIn(t, key, cmp) != null <==> Present(InOrder(t), key, cmp)
  {
    FindsFirst(t, key, cmp);
    FirstEqualMeets(InOrder(t), key, cmp);
  }

  // ---------- whole runs ----------

  datatype Op<T> = Push(x: BNode<T>) | Del(x: BNode<T>) | Find(key: T)

  /** A run pushes nodes that are not in the tree and deletes nodes that are. */
  ghost predicate RunOk<T>(ops: seq<Op<T>>, cmp: (T, T) -> int) {
    ops != [] ==>
      var before, op := TreeAfter(ops[..|ops| - 1], cmp), ops[|ops| - 1];
      && RunOk(ops[..|ops| - 1], cmp)
      && (op.Push? ==> op.x !in Nodes(before))
      && (op.Del? ==> op.x in Nodes(before))
  }

  /** The tree after a run from the empty tree. */
  ghost function TreeAfter<T>(ops: seq<Op<T>>, cmp: (T, T) -> int): Tree<T> {
    if ops == [] then Leaf
    else
      var before, op := TreeAfter(ops[..|ops| - 1], cmp), ops[|ops| - 1];
      match op
      case Push(x) => Insert(before, x, cmp)
      case Del(x) => Delete(before, x)
      case Find(_) => before
  }

  /** What the searches of a run find. */
  ghost function TreeAnswers<T>(ops: seq<Op<T>>, cmp: (T, T) -> int): seq<BNode?<T>> {
    if ops == [] then []
    else
      var before, op := ops[..|ops| - 1], ops[|ops| - 1];
      TreeAnswers(before, cmp) + if op.Find? then [FindIn(TreeAfter(before, cmp), op.key, cmp)] else []
  }

  /** The same run on a sorted sequence. */
  ghost function SequenceAfter<T>(ops: seq<Op<T>>, cmp: (T, T) -> int): seq<BNode<T>> {
    if ops == [] then []
    else
      var before, op := SequenceAfter(ops[..|ops| - 1], cmp), ops[|ops| - 1];
      match op
      case Push(x) => InsertBehindPeers(before, x, ByEntry(cmp))
      case Del(x) => Removed(before, x)
      case Find(_) => before
  }

  ghost function SequenceAnswers<T>(ops: seq<Op<T>>, cmp: (T, T) -> int): seq<BNode?<T>> {
    if ops == [] then []
    else
      var before, op := ops[..|ops| - 1], ops[|ops| - 1];
      SequenceAnswers(before, cmp) + if op.Find? then [FirstEqual(SequenceAfter(before, cmp), op.key, cmp)] else []
  }

  /** `s` without the first occurrence of `x`. */
  ghost function Removed<T>(s: seq<T>, x: T): seq<T> {
    if s == [] then [] else if s[0] == x then s[1..] else [s[0]] + Removed(s[1..], x)
  }

  lemma {:induction false} RemovedAt<T>(s: seq<T>, k: nat)
    requires k < |s| && forall i, j :: 0 <= i < j < |s| ==> s[i] != s[j]
    ensures Removed(s, s[k]) == Without(s, k)
  {
    if k > 0 { RemovedAt(s[1..], k - 1); }
  }

  lemma {:induction false} UniqueInOrder<T>(t: Tree<T>)
    requires Unique(t)
    ensures forall i, j :: 0 <= i < j < |InOrder(t)| ==> InOrder(t)[i] != InOrder(t)[j]
  {
    if t.Node? {
      UniqueInOrder(t.l);
      UniqueInOrder(t.r);
      InOrderMembers(t.l);
      InOrderMembers(t.r);
      var l, r, s := InOrder(t.l), InOrder(t.r), InOrder(t);
      forall i, j | 0 <= i < j < |s| ensures s[i] != s[j] {
        if j < |l| { assert l[i] != l[j]; }
        else if i > |l| { assert r[i - |l| - 1] != r[j - |l| - 1]; }
        else {
          if i < |l| { assert s[i] == l[i]; }
          if j > |l| { assert s[j] == r[j - |l| - 1]; }
        }
      }
    }
  }

  /** In the in-order sequence exactly the deleted node is missing, by name instead of by place. */
  lemma {:induction false} DeleteRemoves<T>(t: Tree<T>, x: BNode<T>)
    requires Unique(t) && x in Nodes(t)
    ensures InOrder(Delete(t, x)) == Removed(InOrder(t), x)
  {
    var k := DeleteInOrder(t, x);
    UniqueInOrder(t);
    RemovedAt(InOrder(t), k);
  }

  /** Over every run the tree stays a search tree, reads in order as the sorted sequence, and answers every search like it. */
  lemma {:induction false} RunRefinesSequence<T(!new)>(ops: seq<Op<T>>, cmp: (T, T) -> int)
    requires IsOrder(cmp) && RunOk(ops, cmp)
    ensures Unique(TreeAfter(ops, cmp)) && Ordered(TreeAfter(ops, cmp), cmp)
    ensures InOrder(TreeAfter(ops, cmp)) == SequenceAfter(ops, cmp)
    ensures TreeAnswers(ops, cmp) == SequenceAnswers(ops, cmp)
    ensures Sorted(Entries(SequenceAfter(ops, cmp)), cmp)
    decreases |ops|
  {
    var t := TreeAfter(ops, cmp);
    if ops != [] {
      var ops', op := ops[..|ops| - 1], ops[|ops| - 1];
      var before := TreeAfter(ops', cmp);
      RunRefinesSequence(ops', cmp);
      match op
      case Push(x) =>
        InsertUnique(before, x, cmp);
        InsertOrdered(before, x, cmp);
        InsertInOrder(before, x, cmp);
      case Del(x) =>
        DeleteNodes(before, x);
        DeleteOrdered(before, x, cmp);
        DeleteRemoves(before, x);
      case Find(key) =>
        FindsFirst(before, key, cmp);
    }
    InOrderSorted(t, cmp);
  }

  lemma {:induction false} EntriesOfInsert<T>(s: seq<BNode<T>>, x: BNode<T>, cmp: (T, T) -> int)
    ensures Entries(InsertBehindPeers(s, x, ByEntry(cmp))) == InsertBehindPeers(Entries(s), x.entry, cmp)
    decreases |s|
  {
    if s != [] {
      var s', z := s[..|s| - 1], s[|s| - 1];
      assert Entries(s)[..|s| - 1] == Entries(s');
      EntriesOfInsert(s', x, cmp);
    }
  }

  /** Pushing nodes one after the other is sorting them, stably. */
  lemma {:induction false} PushingSorts<T(!new)>(xs: seq<BNode<T>>, cmp: (T, T) -> int)
    requires IsOrder(cmp) && forall i, j :: 0 <= i < j < |xs| ==> xs[i] != xs[j]
    ensures var t := TreeOf(xs, cmp);
            && Ordered(t, cmp) && Unique(t) && (forall a :: a in Nodes(t) <==> a in xs)
            && Entries(InOrder(t)) == StableSort(Entries(xs), cmp)
    decreases |xs|
  {
    if xs != [] {
      var xs', x := xs[..|xs| - 1], xs[|xs| - 1];
      var t := TreeOf(xs', cmp);
      assert TreeOf(xs, cmp) == Insert(t, x, cmp);
      hide *;
      PushingSorts(xs', cmp);
      StableSortLast(xs, cmp);
      LastMember(xs);
      assert x !in Nodes(t);
      InsertUnique(t, x, cmp);
      InsertNodes(t, x, cmp);
      InsertOrdered(t, x, cmp);
      InsertInOrder(t, x, cmp);
      EntriesOfInsert(InOrder(t), x, cmp);
    }
  }

  lemma LastMember<T>(xs: seq<T>)
    requires xs != [] && forall i, j :: 0 <= i < j < |xs| ==> xs[i] != xs[j]
    ensures var xs', x := xs[..|xs| - 1], xs[|xs| - 1]; x !in xs' && forall a :: a in xs <==> a in xs' || a == x
  {
    assert xs == xs[..|xs| - 1] + [xs[|xs| - 1]];
  }

  lemma StableSortLast<T>(xs: seq<BNode<T>>, cmp: (T, T) -> int)
    requires xs != []
    ensures StableSort(Entries(xs), cmp)
         == InsertBehindPeers(StableSort(Entries(xs[..|xs| - 1]), cmp), xs[|xs| - 1].entry, cmp)
  {
    assert Entries(xs)[..|xs| - 1] == Entries(xs[..|xs| - 1]);
  }

  ghost function TreeOf<T>(xs: seq<BNode<T>>, cmp: (T, T) -> int): Tree<T> {
    if xs == [] then Leaf else Insert(TreeOf(xs[..|xs| - 1], cmp), xs[|xs| - 1], cmp)
  }
}
