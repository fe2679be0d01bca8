/** The table of huff.c as a value: how a tree lies in it, and what its frequencies are. */
module HuffTable {
  import opened Arith
  import opened Order
  import opened HuffTree
  import opened HuffBuild
  import opened HuffCode
  import opened HuffPack

  const UNUSED: nat := ALL_NUM

  type Idx = i: nat | i < ALL_NUM

  /** huff.h:20-26 without the embedded link. */
  datatype HuffNode = HuffNode(parent: nat, lchild: nat, rchild: nat, weight: nat, code: nat, codeLen: nat)

  type Table = t: seq<HuffNode> | |t| == ALL_NUM witness seq(ALL_NUM, _ => HuffNode(0, 0, 0, 0, 0, 0))

  /** The tree `t` is laid out in the table; what the root's parent is does not matter. */
  ghost predicate Encodes(tab: Table, t: Tree) {
    if t.Leaf? then t.sym < LEAF_NUM && tab[t.sym].weight == t.w
    else
      && Index(t) < ALL_NUM && Index(t.l) < ALL_NUM && Index(t.r) < ALL_NUM
      && tab[Index(t)].lchild == Index(t.l) && tab[Index(t)].rchild == Index(t.r)
      && tab[Index(t)].weight == Weight(t)
      && tab[Index(t.l)].parent == Index(t) && tab[Index(t.r)].parent == Index(t)
      && Encodes(tab, t.l) && Encodes(tab, t.r)
  }

  ghost predicate AllEncoded(tab: Table, f: seq<Tree>) {
    forall k :: 0 <= k < |f| ==> Encodes(tab, f[k])
  }

  /** Two entries that only differ in the code, and perhaps in the parent. */
  predicate SameLinks(a: HuffNode, b: HuffNode) {
    a.lchild == b.lchild && a.rchild == b.rchild && a.weight == b.weight
  }

  lemma IndexInIndices(t: Tree)
    ensures Index(t) in Indices(t)
  {
  }

  /** Writing elsewhere, or to codes, or to the root's parent, leaves the tree in the table. */
  lemma {:induction false} EncodesFrame(tab: Table, tab': Table, t: Tree)
    requires Encodes(tab, t) && Indexed(t, ALL_NUM)
    requires forall i :: i in Indices(t) && i < ALL_NUM ==>
      SameLinks(tab'[i], tab[i]) && (i != Index(t) ==> tab'[i].parent == tab[i].parent)
    ensures Encodes(tab', t)
  {
    if t.Node? {
      IndexInIndices(t.l);
      IndexInIndices(t.r);
      IndexedMore(t.l, t.idx, ALL_NUM);
      IndexedMore(t.r, t.idx, ALL_NUM);
      EncodesFrame(tab, tab', t.l);
      EncodesFrame(tab, tab', t.r);
    }
  }

  /** The entries of two trees become one tree when their new parent is filled in. */
  lemma {:induction false} MergeEncodes(tab: Table, tab': Table, a: Tree, b: Tree, index: nat, m: nat)
    requires LEAF_NUM <= index < ALL_NUM && MemberOk(a, index, m) && MemberOk(b, index, m)
    requires Indices(a) !! Indices(b) && Encodes(tab, a) && Encodes(tab, b)
    requires Index(a) < ALL_NUM && Index(b) < ALL_NUM
    requires forall i :: 0 <= i < ALL_NUM && i != index ==>
      && SameLinks(tab'[i], tab[i])
      && tab'[i].parent == if i == Index(a) || i == Index(b) then index else tab[i].parent
    requires tab'[index].lchild == Index(a) && tab'[index].rchild == Index(b)
    requires tab'[index].weight == Weight(a) + Weight(b)
    ensures Encodes(tab', Node(index, a, b))
  {
    MemberBounds(a, index, m);
    MemberBounds(b, index, m);
    IndexInIndices(a);
    IndexInIndices(b);
    IndexedMore(a, index, ALL_NUM);
    IndexedMore(b, index, ALL_NUM);
    EncodesFrame(tab, tab', a);
    EncodesFrame(tab, tab', b);
  }

  // ---------- the way up from a leaf ----------

  /** The node a path leads to. */
  function At(t: Tree, p: seq<bool>): Tree {
    if p == [] || t.Leaf? then t else At(if p[0] then t.r else t.l, p[1..])
  }

  lemma {:induction false} AtInside(t: Tree, p: seq<bool>)
    ensures Index(At(t, p)) in Indices(t)
  {
    if p != [] && t.Node? { AtInside(if p[0] then t.r else t.l, p[1..]); }
  }

  /** One step of huff.c:145-152: from place `k` of the path of `s` to the place above. */
  lemma {:induction false} StepUp(tab: Table, t: Tree, s: nat, k: nat)
    requires Encodes(tab, t) && Indexed(t, ALL_NUM) && UniqueIndices(t) && s in Symbols(t)
    requires 0 < k <= |PathOf(t, s)|
    ensures var p := PathOf(t, s);
            var u, v := Index(At(t, p[..k])), Index(At(t, p[..k - 1]));
            && u < ALL_NUM && v < ALL_NUM && tab[u].parent == v && u != Index(t)
            && (tab[v].rchild == u <==> p[k - 1])
    decreases k
  {
    PathStep(t, s);
    var p := PathOf(t, s);
    var c := if p[0] then t.r else t.l;
    assert p[..k][0] == p[0] && p[..k][1..] == p[1..][..k - 1];
    AtInside(c, p[1..][..k - 1]);
    IndexedMore(t.l, t.idx, ALL_NUM);
    IndexedMore(t.r, t.idx, ALL_NUM);
    if k == 1 {
      assert p[..1][1..] == [] && p[..0] == [];
      IndexInIndices(t.l);
      IndexInIndices(t.r);
    } else {
      assert p[..k - 1][0] == p[0] && p[..k - 1][1..] == p[1..][..k - 2];
      StepUp(tab, c, s, k - 1);
    }
  }

  lemma {:induction false} PathEndsAtLeaf(t: Tree, s: nat)
    requires UniqueIndices(t) && s in Symbols(t)
    ensures At(t, PathOf(t, s)).Leaf? && Index(At(t, PathOf(t, s))) == s
  {
    if t.Node? {
      PathStep(t, s);
      PathEndsAtLeaf(if PathOf(t, s)[0] then t.r else t.l, s);
    }
  }

  /** Shifting in one bit more, in 16 bits. */
  lemma CodeStep(b: bool, path: seq<bool>)
    ensures CodeOf([b] + path) == (2 * CodeOf(path)) % 0x1_0000 + (if b then 1 else 0)
  {
    hide Low;
    LowStep(b, path);
    DoubledMod(Low(path), if b then 1 else 0);
  }

  lemma DoubledMod(l: nat, b: nat)
    requires b < 2
    ensures (b + 2 * l) % 0x1_0000 == (2 * (l % 0x1_0000)) % 0x1_0000 + b
  {
    var q, r := l / 0x1_0000, l % 0x1_0000;
    var carry := if 2 * r < 0x1_0000 then 0 else 1;
    ModIs(2 * r, carry, 2 * r - 0x1_0000 * carry, 0x1_0000);
    ModIs(b + 2 * l, 2 * q + carry, b + 2 * r - 0x1_0000 * carry, 0x1_0000);
  }

  /** The tree lies in the table with its root where `root` says, and no code is too long for its counter. */
  ghost predicate Fits(tab: Table, root: nat, t: Tree) {
    && t.Node? && Encodes(tab, t) && Indexed(t, ALL_NUM) && UniqueIndices(t)
    && Height(t) < 256 && root == Index(t)
  }

  ghost predicate SameTree(tab: Table, tab': Table) {
    forall i :: 0 <= i < ALL_NUM ==> SameLinks(tab[i], tab'[i]) && tab[i].parent == tab'[i].parent
  }

  ghost predicate SameWeights(tab: Table, tab': Table) {
    forall i :: 0 <= i < LEAF_NUM ==> tab[i].weight == tab'[i].weight
  }

  ghost predicate SameCodes(tab: Table, tab': Table) {
    forall i :: 0 <= i < ALL_NUM ==> tab[i].code == tab'[i].code && tab[i].codeLen == tab'[i].codeLen
  }

  ghost predicate NoCodes(tab: Table) {
    forall i :: 0 <= i < LEAF_NUM ==> tab[i].code == 0 && tab[i].codeLen == 0
  }

  /** Every byte value with a weight has a leaf in the tree. */
  ghost predicate Fillable(tab: Table, root: nat, t: Tree) {
    forall i :: 0 <= i < LEAF_NUM && tab[i].weight != 0 ==> Fits(tab, root, t) && i in Symbols(t)
  }

  /** Every byte value with a weight has its code. */
  ghost predicate Filled(tab: Table, t: Tree) {
    forall i :: 0 <= i < LEAF_NUM && tab[i].weight != 0 ==> HasCode(tab, t, i)
  }

  lemma FitsFrame(tab: Table, tab': Table, root: nat, t: Tree)
    requires SameTree(tab', tab)
    ensures Fits(tab, root, t) ==> Fits(tab', root, t)
  {
    if Fits(tab, root, t) { EncodesFrame(tab, tab', t); }
  }

  /** Where the climb from the leaf of `s` starts. */
  lemma FitsGives(tab: Table, root: nat, t: Tree, s: nat)
    requires Fits(tab, root, t) && s in Symbols(t)
    ensures var p := PathOf(t, s); Index(At(t, p[..|p|])) == s && CodeOf(p[|p|..]) == 0
  {
    var p := PathOf(t, s);
    PathEndsAtLeaf(t, s);
    assert p[..|p|] == p;
  }

  lemma AwayFromRoot(tab: Table, root: nat, t: Tree, s: nat, k: nat)
    requires Fits(tab, root, t) && s in Symbols(t) && 0 < k <= |PathOf(t, s)|
    ensures Index(At(t, PathOf(t, s)[..k])) != root
  {
    StepUp(tab, t, s, k);
  }

  /** One round of the climb: the entry above, the bit found there, and the code with that bit. */
  lemma {:induction false} ClimbOne(tab: Table, root: nat, t: Tree, s: nat, k: nat)
    requires Fits(tab, root, t) && s in Symbols(t) && k <= |PathOf(t, s)|
    requires Index(At(t, PathOf(t, s)[..k])) != root
    ensures k > 0
    ensures var p := PathOf(t, s);
            var u, v := Index(At(t, p[..k])), Index(At(t, p[..k - 1]));
            && u < ALL_NUM && v < ALL_NUM && tab[u].parent == v
            && (tab[v].rchild == u <==> p[k - 1])
            && CodeOf(p[k - 1..]) == (2 * CodeOf(p[k..])) % 0x1_0000 + (if p[k - 1] then 1 else 0)
            && |p| - k + 1 < 256
  {
    var p := PathOf(t, s);
    assert p[..0] == [];
    StepUp(tab, t, s, k);
    PathFits(t, s);
    assert [p[k - 1]] + p[k..] == p[k - 1..];
    CodeStep(p[k - 1], p[k..]);
  }

  /** The entry of `s` holds its code, cut to 16 bits, and the length of the path. */
  ghost predicate HasCode(tab: Table, t: Tree, s: nat)
    requires s < ALL_NUM
  {
    s in Symbols(t) && tab[s].code == CodeOf(PathOf(t, s)) && tab[s].codeLen == |PathOf(t, s)|
  }

  /** No code of the text is too long to be shifted out of its 32-bit value. */
  ghost predicate LengthsFit(tab: Table, text: seq<Byte>) {
    forall i :: 0 <= i < |text| ==> tab[text[i]].codeLen <= 32
  }

  /** The bits that the codes in the table make of a text. */
  ghost function Emitted(tab: Table, text: seq<Byte>): seq<bool> {
    if text == [] then []
    else
      var last := text[|text| - 1];
      Emitted(tab, text[..|text| - 1]) + Emit(tab[last].code, tab[last].codeLen)
  }

  lemma EmittedNothing(tab: Table, text: seq<Byte>)
    ensures Emitted(tab, text[..0]) == []
  {
  }

  lemma EmittedMore(tab: Table, text: seq<Byte>, j: nat)
    requires j < |text|
    ensures Emitted(tab, text[..j + 1]) == Emitted(tab, text[..j]) + Emit(tab[text[j]].code, tab[text[j]].codeLen)
  {
    assert text[..j + 1][..j] == text[..j];
  }

  lemma {:induction false} EmittedIsSent(tab: Table, t: Tree, text: seq<Byte>)
    requires forall i :: 0 <= i < |text| ==> text[i] in Symbols(t)
    requires forall i :: 0 <= i < |text| ==> HasCode(tab, t, text[i])
    ensures Emitted(tab, text) == Sent(t, text)
    decreases |text|
  {
    var n := |text| - 1;
    if n >= 0 {
      var p := PathOf(t, text[n]);
      assert Emitted(tab, text) == Emitted(tab, text[..n]) + Emit(CodeOf(p), |p|) by {
        assert HasCode(tab, t, text[n]);
      }
      assert text == text[..n] + [text[n]];
      hide *;
      EmittedIsSent(tab, t, text[..n]);
      SentConcat(t, text[..n], [text[n]]);
      SentOne(t, text[n]);
    } else {
      assert text == [];
    }
  }

  /** The table a decompressor has after reading the saved entries into a fresh one. */
  ghost function Widened(saved: seq<HuffNode>): Table
    requires |saved| <= ALL_NUM
  {
    saved + CountTable([])[|saved|..]
  }

  lemma WidenedMore(saved: seq<HuffNode>, k: nat)
    requires k < |saved| <= ALL_NUM
    ensures Widened(saved[..k])[k := saved[k]] == Widened(saved[..k + 1])
    ensures Widened(saved[..0]) == CountTable([])
  {
  }

  /** The tree `t` starts at the entry `cur`. */
  ghost predicate Standing(tab: Table, t: Tree, cur: nat) {
    t.Node? && Encodes(tab, t) && Indexed(t, ALL_NUM) && cur == Index(t)
  }

  function Child(t: Tree, b: bool): Tree
    requires t.Node?
  {
    if b then t.r else t.l
  }

  /** One branch of huff.c:398-404: to a leaf, whose index is its value, or to a smaller tree. */
  lemma StepDown(tab: Table, t: Tree, cur: nat, b: bool)
    requires Standing(tab, t, cur)
    ensures cur < ALL_NUM && (if b then tab[cur].rchild else tab[cur].lchild) == Index(Child(t, b))
    ensures Child(t, b).Leaf? <==> Index(Child(t, b)) < LEAF_NUM
    ensures Child(t, b).Leaf? ==> Child(t, b).sym == Index(Child(t, b))
    ensures Child(t, b).Node? ==> Standing(tab, Child(t, b), Index(Child(t, b)))
  {
    IndexedMore(Child(t, b), t.idx, ALL_NUM);
  }

  /** The entries up to the root are all of the tree. */
  lemma WidenedEncodes(tab: Table, t: Tree, root: nat)
    requires Fits(tab, root, t)
    ensures LEAF_NUM <= root < ALL_NUM && Standing(Widened(tab[..root + 1]), t, root)
  {
    IndexedMore(t.l, t.idx, t.idx);
    IndexedMore(t.r, t.idx, t.idx);
    EncodesFrame(tab, Widened(tab[..root + 1]), t);
  }

  // ---------- what the compressor leaves alone ----------

  /** An entry nothing has been written to but, perhaps, a weight: 511 stands for no parent and no child. */
  predicate IsBlank(e: HuffNode) { e == HuffNode(511, 511, 511, 0, 0, 0) }

  /**
   What the rounds so far have not written: children of leaves, values that do
   not occur, entries from `index` on, and the parents of the members of the list.
   */
  ghost predicate Untouched(tab: Table, was: Table, f: seq<Tree>, index: nat) {
    && (forall i :: 0 <= i < LEAF_NUM ==>
          tab[i].lchild == was[i].lchild && tab[i].rchild == was[i].rchild && tab[i].weight == was[i].weight)
    && (forall i :: 0 <= i < LEAF_NUM && was[i].weight == 0 ==> tab[i] == was[i])
    && (forall i :: index <= i < ALL_NUM ==> tab[i] == was[i])
    && (forall k :: 0 <= k < |f| ==> Index(f[k]) < ALL_NUM && tab[Index(f[k])].parent == was[Index(f[k])].parent)
  }

  /** Exactly what a round writes: the new entry, and the parents of the two trees it joins. */
  ghost predicate RoundWrites(tab: Table, tab': Table, a: Tree, b: Tree, index: nat) {
    && index < ALL_NUM && Index(a) < ALL_NUM && Index(b) < ALL_NUM && Index(a) != index && Index(b) != index
    && (forall i :: 0 <= i < ALL_NUM && i != index && i != Index(a) && i != Index(b) ==> tab'[i] == tab[i])
    && tab'[index] == tab[index].(weight := Weight(a) + Weight(b), lchild := Index(a), rchild := Index(b))
    && tab'[Index(a)] == tab[Index(a)].(parent := index)
    && tab'[Index(b)] == tab[Index(b)].(parent := index)
  }

  lemma {:induction false} RoundUntouched(tab: Table, tab': Table, was: Table, f: seq<Tree>, index: nat, m: nat)
    requires |f| >= 2 && LEAF_NUM <= index < ALL_NUM && ForestOk(f, index, m) && AllEncoded(tab, f)
    requires RoundWrites(tab, tab', f[0], f[1], index) && Untouched(tab, was, f, index)
    ensures Untouched(tab', was, Merged(f, index), index + 1)
  {
    assert MemberOk(f[0], index, m) && MemberOk(f[1], index, m);
    hide MemberOk, Encodes, Weight, Merged;
    LeafNotWeightless(tab, f[0], index, m);
    LeafNotWeightless(tab, f[1], index, m);
    forall k | 0 <= k < |Merged(f, index)|
      ensures var u := Index(Merged(f, index)[k]); u < ALL_NUM && tab'[u].parent == was[u].parent
    {
      var u := MergedRoot(f, index, m, k);
    }
    hide ForestOk, AllEncoded;
  }

  /** A member after a round is the new tree, or a former member whose root is neither of the two joined. */
  lemma {:induction false} MergedRoot(f: seq<Tree>, index: nat, m: nat, k: nat) returns (i: nat)
    requires |f| >= 2 && index >= LEAF_NUM && ForestOk(f, index, m) && k < |Merged(f, index)|
    ensures var u := Index(Merged(f, index)[k]);
            u == index || (2 <= i < |f| && u == Index(f[i]) && u != index && u != Index(f[0]) && u != Index(f[1]))
  {
    var n, rest := Node(index, f[0], f[1]), f[2..];
    assert Merged(f, index) == InsertTree(rest, n) && Index(n) == index;
    var j := InsertTreePlace(rest, n);
    i := 0;
    if k != j {
      i := if k < j then k + 2 else k + 1;
      assert Merged(f, index)[k] == rest[i - 2] == f[i];
      RootsApart(f, index, m, i);
    }
  }

  lemma RootsApart(f: seq<Tree>, index: nat, m: nat, i: nat)
    requires ForestOk(f, index, m) && index >= LEAF_NUM && 2 <= i < |f|
    ensures Index(f[i]) != index && Index(f[i]) != Index(f[0]) && Index(f[i]) != Index(f[1])
  {
    assert MemberOk(f[i], index, m) && Indices(f[0]) !! Indices(f[i]) && Indices(f[1]) !! Indices(f[i]);
    hide ForestOk, MemberOk, Indices;
    MemberBounds(f[i], index, m);
    IndexInIndices(f[i]);
    IndexInIndices(f[0]);
    IndexInIndices(f[1]);
  }

  lemma LeafNotWeightless(tab: Table, t: Tree, index: nat, m: nat)
    requires MemberOk(t, index, m) && Encodes(tab, t) && LEAF_NUM <= index <= ALL_NUM
    ensures Index(t) < index && (Index(t) < LEAF_NUM ==> tab[Index(t)].weight >= 1)
  {
  }

  /** The saved entries: codes for the values of the text, nothing for the others and for inner nodes. */
  ghost predicate SavesCodes(saved: seq<HuffNode>, t: Tree, text: seq<Byte>) {
    && 256 < |saved| <= 511
    && (forall s: Byte :: s in text ==> HasCode(Widened(saved), t, s))
    && (forall s: Byte :: s !in text ==> IsBlank(saved[s]))
    && (forall s: Byte :: saved[s].lchild == 511 && saved[s].rchild == 511)
    && (forall i :: 256 <= i < |saved| ==> saved[i].code == 0 && saved[i].codeLen == 0)
    && saved[|saved| - 1].parent == 511
  }

  /** The table with the tree and the codes, before it is saved. */
  ghost predicate Coded(tab: Table, root: nat, t: Tree, text: seq<Byte>) {
    && LEAF_NUM <= root < ALL_NUM
    && (forall s: Byte :: s in text ==> HasCode(tab, t, s))
    && (forall s: Byte :: s !in text ==> IsBlank(tab[s]))
    && (forall s: Byte :: tab[s].lchild == 511 && tab[s].rchild == 511)
    && (forall i :: LEAF_NUM <= i < ALL_NUM ==> tab[i].code == 0 && tab[i].codeLen == 0)
    && (forall i :: root < i < ALL_NUM ==> IsBlank(tab[i]))
    && tab[root].parent == 511
  }

  // ---------- how many leaves ----------

  /** A tree of height h has more than h leaves. */
  lemma {:induction false} HeightBelowLeaves(t: Tree)
    ensures Height(t) < |Leaves(t)|
  {
    if t.Node? {
      HeightBelowLeaves(t.l);
      HeightBelowLeaves(t.r);
    }
  }

  /** The symbols of a tree are those of its leaves. */
  lemma {:induction false} SymbolsAreLeaves(t: Tree)
    ensures forall i :: 0 <= i < |Leaves(t)| ==> Leaves(t)[i].Leaf? && Leaves(t)[i].sym in Symbols(t)
  {
    if t.Node? {
      SymbolsAreLeaves(t.l);
      SymbolsAreLeaves(t.r);
    }
  }

  lemma {:induction false} LeafOf(t: Tree, s: nat) returns (i: nat)
    requires s in Symbols(t)
    ensures i < |Leaves(t)| && Leaves(t)[i].Leaf? && Leaves(t)[i].sym == s
  {
    if t.Leaf? {
      i := 0;
    } else if s in Symbols(t.l) {
      i := LeafOf(t.l, s);
    } else {
      i := LeafOf(t.r, s);
      i := |Leaves(t.l)| + i;
    }
  }

  // ---------- frequencies ----------

  /** The table after counting, huff.c:7-13 on what huff_init left. */
  ghost function CountTable(text: seq<Byte>): Table {
    seq(ALL_NUM, i requires 0 <= i < ALL_NUM => HuffNode(UNUSED, UNUSED, UNUSED, if i < LEAF_NUM then multiset(text)[i] else 0, 0, 0))
  }

  /** The byte values below `n` that occur. */
  ghost function Used(tab: Table, n: nat): (u: seq<Idx>)
    requires n <= LEAF_NUM
    ensures |u| <= n
    ensures forall i :: 0 <= i < |u| ==> u[i] < n && tab[u[i]].weight != 0
    ensures forall i, j :: 0 <= i < j < |u| ==> u[i] < u[j]
  {
    if n == 0 then [] else Used(tab, n - 1) + if tab[n - 1].weight != 0 then [n - 1] else []
  }

  lemma {:induction false} UsedAll(tab: Table, n: nat)
    requires n <= LEAF_NUM
    ensures forall s: Idx :: s < n && tab[s].weight != 0 ==> s in Used(tab, n)
  {
    if n > 0 { UsedAll(tab, n - 1); }
  }

  /** A `size_t` difference returned as an `int`, huff.c:27-33. */
  function ToInt32(x: int): int {
    var y := x % 0x1_0000_0000;
    if y >= 0x8000_0000 then y - 0x1_0000_0000 else y
  }

  /** The comparison of list nodes by weight. */
  function NodeCmp(tab: Table): (Idx, Idx) -> int {
    (a: Idx, b: Idx) => ToInt32(tab[a].weight - tab[b].weight)
  }

  /** The comparison that is meant. */
  function ByWeight(tab: Table): (Idx, Idx) -> int {
    (a: Idx, b: Idx) => tab[a].weight - tab[b].weight
  }

  lemma ByWeightIsOrder(tab: Table)
    ensures IsOrder(ByWeight(tab))
  {
  }

  /**
   The truncation keeps the sign of a difference exactly when its lowest 32
   bits, read with a sign, say the same; of the differences that need no more
   than 33 bits these are the ones that fit an int.
   */
  lemma TruncationKeepsSign(x: int)
    ensures SameSign(ToInt32(x), x) <==>
              x == 0 || if x > 0 then 0 < x % 0x1_0000_0000 < 0x8000_0000 else x % 0x1_0000_0000 >= 0x8000_0000
    ensures -0x1_0000_0000 < x < 0x1_0000_0000 ==> (SameSign(ToInt32(x), x) <==> -0x8000_0000 <= x < 0x8000_0000)
  {
  }

  predicate IsUsed(tab: Table, s: Idx) { s < LEAF_NUM && tab[s].weight != 0 }

  /** Every two byte values that occur are compared by weight as meant. */
  ghost predicate ComparesRightly(tab: Table) {
    forall a: Idx, b: Idx :: IsUsed(tab, a) && IsUsed(tab, b) ==> SameSign(NodeCmp(tab)(a, b), ByWeight(tab)(a, b))
  }

  /** A positive difference keeps its sign exactly when its lowest 32 bits do, and then its negative does too. */
  lemma BothWays(d: int)
    requires d > 0
    ensures SameSign(ToInt32(d), d) <==> 0 < d % 0x1_0000_0000 < 0x8000_0000
    ensures SameSign(ToInt32(d), d) ==> SameSign(ToInt32(-d), -d)
    ensures d <= 0x1_0000_0000 ==> (0 < d % 0x1_0000_0000 < 0x8000_0000 <==> d < 0x8000_0000)
  {
    TruncationKeepsSign(d);
    TruncationKeepsSign(-d);
  }

  /**
   That is so exactly when the lowest 32 bits of every positive difference
   make a positive int; with weights up to 2^32, when they all differ by less
   than 2^31.
   */
  lemma {:induction false} ComparesRightlyIff(tab: Table)
    ensures ComparesRightly(tab) <==>
              forall a: Idx, b: Idx :: IsUsed(tab, a) && IsUsed(tab, b) && tab[a].weight > tab[b].weight ==>
                0 < (tab[a].weight - tab[b].weight) % 0x1_0000_0000 < 0x8000_0000
    ensures (forall s: Idx :: IsUsed(tab, s) ==> tab[s].weight <= 0x1_0000_0000) ==>
              (ComparesRightly(tab) <==>
                 forall a: Idx, b: Idx :: IsUsed(tab, a) && IsUsed(tab, b) ==> tab[a].weight - tab[b].weight < 0x8000_0000)
  {
    hide ToInt32;
    forall a: Idx, b: Idx | IsUsed(tab, a) && IsUsed(tab, b) && tab[a].weight > tab[b].weight
      ensures var d := tab[a].weight - tab[b].weight;
              && (SameSign(NodeCmp(tab)(a, b), ByWeight(tab)(a, b)) <==> 0 < d % 0x1_0000_0000 < 0x8000_0000)
              && (SameSign(NodeCmp(tab)(a, b), ByWeight(tab)(a, b)) ==> SameSign(NodeCmp(tab)(b, a), ByWeight(tab)(b, a)))
              && (d <= 0x1_0000_0000 ==> (0 < d % 0x1_0000_0000 < 0x8000_0000 <==> d < 0x8000_0000))
    {
      BothWays(tab[a].weight - tab[b].weight);
    }
    SmallInt32(0);
    EveryPair(tab);
  }

  /** It is enough to look at the pairs with a positive difference. */
  lemma {:induction false} EveryPair(tab: Table)
    requires forall a: Idx, b: Idx :: IsUsed(tab, a) && IsUsed(tab, b) && tab[a].weight > tab[b].weight ==>
      (SameSign(NodeCmp(tab)(a, b), ByWeight(tab)(a, b)) ==> SameSign(NodeCmp(tab)(b, a), ByWeight(tab)(b, a)))
    ensures ComparesRightly(tab) <==>
              forall a: Idx, b: Idx :: IsUsed(tab, a) && IsUsed(tab, b) && tab[a].weight > tab[b].weight ==>
                SameSign(NodeCmp(tab)(a, b), ByWeight(tab)(a, b))
  {
    SmallInt32(0);
    hide ToInt32;
    if forall a: Idx, b: Idx :: IsUsed(tab, a) && IsUsed(tab, b) && tab[a].weight > tab[b].weight ==>
      SameSign(NodeCmp(tab)(a, b), ByWeight(tab)(a, b))
    {
      forall a: Idx, b: Idx | IsUsed(tab, a) && IsUsed(tab, b) ensures SameSign(NodeCmp(tab)(a, b), ByWeight(tab)(a, b)) {
        if tab[a].weight < tab[b].weight { assert SameSign(NodeCmp(tab)(b, a), ByWeight(tab)(b, a)); }
      }
    }
  }

  lemma AgreeOnUsed(tab: Table)
    requires ComparesRightly(tab)
    ensures Agree(NodeCmp(tab), ByWeight(tab), Used(tab, LEAF_NUM))
  {
    var u := Used(tab, LEAF_NUM);
    forall i, j | 0 <= i < |u| && 0 <= j < |u| ensures SameSign(NodeCmp(tab)(u[i], u[j]), ByWeight(tab)(u[i], u[j])) {
      assert IsUsed(tab, u[i]) && IsUsed(tab, u[j]);
    }
  }

  lemma SmallInt32(x: int)
    requires -0x8000_0000 <= x < 0x8000_0000
    ensures ToInt32(x) == x
  {
  }

  /** The largest size for which no difference of weights can leave the int; HuffLimits shows that it is the largest. */
  const SIZE_LIMIT: nat := 0x8000_0001

  /** Two values occur together no more often than there are bytes. */
  lemma {:induction false} TwoCounts<T>(s: seq<T>, x: T, y: T)
    requires x != y
    ensures multiset(s)[x] + multiset(s)[y] <= |s|
  {
    if s != [] {
      TwoCounts(s[1..], x, y);
      assert s == [s[0]] + s[1..];
    }
  }

  /** Within the size limit all weights are compared as meant. */
  lemma WithinLimit(text: seq<Byte>)
    requires |text| <= SIZE_LIMIT
    ensures ComparesRightly(CountTable(text))
  {
    var tab := CountTable(text);
    forall a: Idx, b: Idx | IsUsed(tab, a) && IsUsed(tab, b)
      ensures SameSign(NodeCmp(tab)(a, b), ByWeight(tab)(a, b))
    {
      if a != b { TwoCounts(text, a, b); }
      TruncationKeepsSign(tab[a].weight - tab[b].weight);
    }
  }

  // ---------- the forest before the first round ----------

  ghost function LeafFor(tab: Table, s: Idx): Tree {
    Leaf(s, tab[s].weight)
  }

  ghost function LeavesFor(tab: Table, u: seq<Idx>): (f: seq<Tree>)
    ensures |f| == |u| && forall i :: 0 <= i < |f| ==> f[i] == LeafFor(tab, u[i])
  {
    seq(|u|, i requires 0 <= i < |u| => LeafFor(tab, u[i]))
  }

  /** The byte values that occur, by rising frequency: what huff.c:39-73 leaves in the list. */
  ghost function SortedUsed(tab: Table): seq<Idx> {
    StableSort(Used(tab, LEAF_NUM), ByWeight(tab))
  }

  ghost function StartForest(tab: Table): seq<Tree> {
    LeavesFor(tab, SortedUsed(tab))
  }

  ghost predicate Rising(s: seq<Idx>) { forall i, j :: 0 <= i < j < |s| ==> s[i] < s[j] }

  lemma {:induction false} PeersRise(s: seq<Idx>, x: Idx, cmp: (Idx, Idx) -> int)
    requires Rising(s)
    ensures Rising(Peers(s, x, cmp)) && forall y :: y in Peers(s, x, cmp) ==> y in s
    decreases |s|
  {
    if s != [] {
      var k := |s| - 1;
      PeersRise(s[..k], x, cmp);
      var p := Peers(s[..k], x, cmp);
      forall i | 0 <= i < |p| ensures p[i] < s[k] {
        assert p[i] in p;
        assert p[i] in s[..k];
      }
    }
  }

  /** A stable sort of rising values leaves those that tie rising. */
  lemma {:induction false} TiesRise(s: seq<Idx>, t: seq<Idx>, i: nat, j: nat, cmp: (Idx, Idx) -> int)
    requires Rising(s) && StableRearrangement(s, t, cmp) && i < j < |t| && cmp(t[i], t[i]) == cmp(t[j], t[i]) == 0
    ensures t[i] < t[j]
  {
    var x, front, rest := t[i], t[..j], t[j + 1..];
    StableAt(s, t, x, cmp);
    PeersRise(s, x, cmp);
    assert t == front + [t[j]] + rest && front[i] == x;
    hide Peers;
    PeersConcat(front + [t[j]], rest, x, cmp);
    PeersConcat(front, [t[j]], x, cmp);
    PeersOne(t[j], x, cmp);
    PeersMembers(front, x, cmp);
    var p := Peers(front, x, cmp);
    assert x in p;
    var k :| 0 <= k < |p| && p[k] == x;
    assert Peers(t, x, cmp)[k] == x && Peers(t, x, cmp)[|p|] == t[j];
  }

  lemma {:induction false} SortedUsedValues(tab: Table)
    ensures var u := SortedUsed(tab);
            && |u| == |Used(tab, LEAF_NUM)|
            && (forall i :: 0 <= i < |u| ==> u[i] < LEAF_NUM && tab[u[i]].weight != 0)
            && (forall i, j :: 0 <= i < j < |u| ==> u[i] != u[j])
            && (forall s: Idx :: s < LEAF_NUM && tab[s].weight != 0 ==> s in u)
  {
    ByWeightIsOrder(tab);
    var v, u := Used(tab, LEAF_NUM), SortedUsed(tab);
    StableSortMeets(v, ByWeight(tab));
    StableIsPermutation(v, u, ByWeight(tab));
    UsedAll(tab, LEAF_NUM);
    hide StableSort, StableRearrangement, IsOrder, Permutation, Used, SortedUsed, Sorted, ByWeight;
    PermutationMembers(v, u);
    forall i, j | 0 <= i < j < |u| ensures u[i] != u[j] { DistinctByPermutation(v, u, i, j); }
  }

  lemma SortedUsedOrder(tab: Table)
    ensures var u := SortedUsed(tab); forall i, j :: 0 <= i < j < |u| ==> tab[u[i]].weight <= tab[u[j]].weight
  {
    ByWeightIsOrder(tab);
    var u := SortedUsed(tab);
    StableSortMeets(Used(tab, LEAF_NUM), ByWeight(tab));
    hide StableSort, StableRearrangement, IsOrder, Used, SortedUsed;
    forall i, j | 0 <= i < j < |u| ensures tab[u[i]].weight <= tab[u[j]].weight {
      assert ByWeight(tab)(u[i], u[j]) <= 0;
    }
  }

  /** The first list: every value that occurs, once, by rising weight. */
  lemma {:induction false} SortedUsedFacts(tab: Table)
    ensures var u := SortedUsed(tab);
            && |u| == |Used(tab, LEAF_NUM)| <= LEAF_NUM
            && (forall i :: 0 <= i < |u| ==> u[i] < LEAF_NUM && tab[u[i]].weight != 0)
            && (forall i, j :: 0 <= i < j < |u| ==> u[i] != u[j] && tab[u[i]].weight <= tab[u[j]].weight)
            && (forall s: Idx :: s < LEAF_NUM && tab[s].weight != 0 ==> s in u)
  {
    assert |Used(tab, LEAF_NUM)| <= LEAF_NUM;
    hide *;
    SortedUsedValues(tab);
    SortedUsedOrder(tab);
  }

  /** Values that occur equally often stand in their own order. */
  lemma {:induction false} TiesByValue(tab: Table, i: nat, j: nat)
    requires i < j < |SortedUsed(tab)|
    ensures var u := SortedUsed(tab); tab[u[i]].weight == tab[u[j]].weight ==> u[i] < u[j]
  {
    ByWeightIsOrder(tab);
    var v, u := Used(tab, LEAF_NUM), SortedUsed(tab);
    StableSortMeets(v, ByWeight(tab));
    hide StableSort, StableRearrangement, IsOrder, Used, SortedUsed;
    if tab[u[i]].weight == tab[u[j]].weight { TiesRise(v, u, i, j, ByWeight(tab)); }
  }

  lemma PermutationMembers<T>(v: seq<T>, u: seq<T>)
    requires Permutation(v, u)
    ensures forall i :: 0 <= i < |u| ==> u[i] in v
    ensures forall x :: x in v ==> x in u
  {
    forall i | 0 <= i < |u| ensures u[i] in v {
      assert u[i] in multiset(u);
    }
    forall x | x in v ensures x in u {
      assert x in multiset(v);
    }
  }

  lemma DistinctByPermutation(v: seq<Idx>, u: seq<Idx>, i: nat, j: nat)
    requires Permutation(v, u) && i < j < |u|
    requires forall a, b :: 0 <= a < b < |v| ==> v[a] != v[b]
    ensures u[i] != u[j]
  {
    if u[i] == u[j] {
      var x := u[i];
      assert u == u[..i] + [x] + u[i + 1..j] + [x] + u[j + 1..];
      assert multiset(u)[x] >= 2;
      OnceOnly(v, x);
    }
  }

  lemma {:induction false} OnceOnly(v: seq<Idx>, x: Idx)
    requires forall a, b :: 0 <= a < b < |v| ==> v[a] != v[b]
    ensures multiset(v)[x] <= 1
  {
    if v != [] {
      OnceOnly(v[1..], x);
      assert v == [v[0]] + v[1..];
    }
  }

  /** The forest of single leaves is fit for building, and all its members lie in the table. */
  lemma {:induction false} StartForestOk(tab: Table)
    ensures var f := StartForest(tab);
            && ForestOk(f, LEAF_NUM, 0) && OnlyLeaves(f) && |f| <= LEAF_NUM
            && AllEncoded(tab, f)
  {
    SortedUsedFacts(tab);
    var u, f := SortedUsed(tab), StartForest(tab);
    hide SortedUsed, Used;
    forall i | 0 <= i < |f| ensures MemberOk(f[i], LEAF_NUM, 0) && f[i].Leaf? && Encodes(tab, f[i]) {
      assert f[i] == Leaf(u[i], tab[u[i]].weight);
    }
    forall i, j | 0 <= i < j < |f| ensures Indices(f[i]) !! Indices(f[j]) && Weight(f[i]) <= Weight(f[j]) {
      assert f[i] == LeafFor(tab, u[i]) && f[j] == LeafFor(tab, u[j]);
    }
    hide MemberOk, Encodes, Indices, Weight;
  }

  lemma StartForestAscends(tab: Table)
    ensures Ascending(ForestWeights(StartForest(tab)))
  {
    StartForestOk(tab);
    var f := StartForest(tab);
    forall i, j | 0 <= i < j < |f| ensures ForestWeights(f)[i] <= ForestWeights(f)[j] {
      ForestWeightsAt(f, i);
      ForestWeightsAt(f, j);
    }
  }
}
