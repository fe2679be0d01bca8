/** The compressor of huff.c: counting, list, tree, codes, and the two bit loops. */
module Huffman {
  import opened Arith
  import opened Order
  import opened Ring
  import opened HuffTree
  import opened HuffBuild
  import opened HuffCode
  import opened HuffPack
  import opened HuffTable
  import opened HuffText
  import opened HuffLimits
  import ListSort

  /** What the file holds: the header of huff.h:31-37, and the packed codes. */
  datatype Archive = Archive(root: nat, fileSize: nat, table: seq<HuffNode>, body: seq<Byte>)

  /** The ring is the list head and the links of the members of the forest, in order. */
  ghost predicate Lists(links: seq<ListHead<Idx>>, r: seq<ListHead<Idx>>, f: seq<Tree>) {
    && |links| == ALL_NUM && |r| == |f| + 1
    && forall k :: 0 <= k < |f| ==> Index(f[k]) < ALL_NUM && r[k + 1] == links[Index(f[k])]
  }

  lemma {:induction false} InsertTreeAt(f: seq<Tree>, t: Tree, k: nat)
    requires k <= |f|
    requires forall i :: 0 <= i < k ==> Weight(f[i]) < Weight(t)
    requires k < |f| ==> Weight(t) <= Weight(f[k])
    ensures InsertTree(f, t) == f[..k] + [t] + f[k..]
  {
    if k > 0 { InsertTreeAt(f[1..], t, k - 1); }
  }

  lemma RootWeight(tab: Table, t: Tree)
    requires Encodes(tab, t)
    ensures Index(t) < ALL_NUM && tab[Index(t)].weight == Weight(t)
  {
  }

  /** After the entries of a round have been written, the new forest lies in the table. */
  lemma RoundEncodes(tab: Table, tab': Table, f: seq<Tree>, index: nat, m: nat)
    requires |f| >= 2 && LEAF_NUM <= index < ALL_NUM && ForestOk(f, index, m) && AllEncoded(tab, f)
    requires forall i :: 0 <= i < ALL_NUM && i != index ==>
      && SameLinks(tab'[i], tab[i])
      && tab'[i].parent == if i == Index(f[0]) || i == Index(f[1]) then index else tab[i].parent
    requires tab'[index].lchild == Index(f[0]) && tab'[index].rchild == Index(f[1])
    requires tab'[index].weight == Weight(f[0]) + Weight(f[1])
    ensures AllEncoded(tab', Merged(f, index))
  {
    hide MemberOk, Encodes, InsertTree, Indices, Weight;
    var n, rest := Node(index, f[0], f[1]), f[2..];
    RootWeight(tab, f[0]);
    RootWeight(tab, f[1]);
    MergeEncodes(tab, tab', f[0], f[1], index, m);
    var k := InsertTreePlace(rest, n);
    var g := Merged(f, index);
    forall i | 0 <= i < |g| ensures Encodes(tab', g[i]) {
      if i != k {
        var j := if i < k then i else i - 1;
        assert g[i] == rest[j] == f[j + 2];
        OtherEncodes(tab, tab', f, j + 2, index, m);
      }
    }
  }

  lemma OtherEncodes(tab: Table, tab': Table, f: seq<Tree>, j: nat, index: nat, m: nat)
    requires 2 <= j < |f| && LEAF_NUM <= index < ALL_NUM && ForestOk(f, index, m) && AllEncoded(tab, f)
    requires forall i :: 0 <= i < ALL_NUM && i != index ==>
      && SameLinks(tab'[i], tab[i])
      && tab'[i].parent == if i == Index(f[0]) || i == Index(f[1]) then index else tab[i].parent
    ensures Encodes(tab', f[j])
  {
    assert MemberOk(f[j], index, m);
    MemberBounds(f[j], index, m);
    IndexInIndices(f[0]);
    IndexInIndices(f[1]);
    IndexedMore(f[j], index, ALL_NUM);
    EncodesFrame(tab, tab', f[j]);
  }

  ghost predicate AllHeavy(f: seq<Tree>) {
    forall k :: 0 <= k < |f| ==> Weight(f[k]) >= 1
  }

  /** The truncated comparison of a new node with one in the list. */
  lemma {:induction false} CompareAt(tab: Table, f: seq<Tree>, k: nat, t: Tree)
    requires k < |f| && AllEncoded(tab, f) && Index(t) < ALL_NUM && tab[Index(t)].weight == Weight(t)
    requires Total(f) + Weight(t) <= SIZE_LIMIT && Weight(t) >= 1 && AllHeavy(f)
    ensures Index(f[k]) < ALL_NUM
    ensures ToInt32(tab[Index(t)].weight - tab[Index(f[k])].weight) <= 0 <==> Weight(t) <= Weight(f[k])
  {
    TotalBounds(f, k);
    RootWeight(tab, f[k]);
    SmallInt32(Weight(t) - Weight(f[k]));
  }

  class HuffInfo {
    const table: array<HuffNode>
    const head: ListHead<Idx>
    const links: seq<ListHead<Idx>>
    var root: nat

    /** The links belong to the table entries of the same index. */
    ghost predicate Linked() {
      && table.Length == ALL_NUM && |links| == ALL_NUM && head !in links
      && forall i :: 0 <= i < ALL_NUM ==> links[i].entry == i
    }

    /** huff.c:421-446 */
    constructor ()
      ensures Linked() && table[..] == CountTable([]) && IsRing([head]) && root == UNUSED
      ensures fresh(table) && fresh(head) && forall i :: 0 <= i < |links| ==> fresh(links[i])
    {
      var ls: seq<ListHead<Idx>> := [];
      var i := 0;
      while i < ALL_NUM
        invariant 0 <= i <= ALL_NUM && |ls| == i
        invariant forall k :: 0 <= k < i ==> ls[k].entry == k && fresh(ls[k])
      {
        var l := new ListHead<Idx>(i);
        ls := ls + [l];
        i := i + 1;
      }
      links := ls;
      head := new ListHead<Idx>(0);
      table := new HuffNode[ALL_NUM](_ => HuffNode(UNUSED, UNUSED, UNUSED, 0, 0, 0));
      root := UNUSED;
      new;
      RingOfOne(head);
      assert table[..] == CountTable([]);
    }

    /** huff.c:7-13 */
    method Statistic(text: seq<Byte>)
      requires Linked() && table[..] == CountTable([])
      modifies table
      ensures table[..] == CountTable(text)
    {
      var i := 0;
      assert text[..0] == [];
      while i < |text|
        invariant 0 <= i <= |text| && table[..] == CountTable(text[..i])
      {
        var rbuf := text[i];
        assert text[..i + 1] == text[..i] + [rbuf];
        ghost var was := table[..];
        table[rbuf] := table[rbuf].(weight := table[rbuf].weight + 1);
        assert table[..] == was[rbuf := was[rbuf].(weight := was[rbuf].weight + 1)];
        assert table[..] == CountTable(text[..i + 1]);
        i := i + 1;
      }
      assert text[..i] == text;
    }

    /** huff.c:41-45: the byte values that occur, in their own order. */
    method LinkUsed() returns (ghost r: seq<ListHead<Idx>>)
      requires Linked() && IsRing([head])
      modifies head, links
      ensures IsRing(r) && r[0] == head && Entries(r) == Used(table[..], LEAF_NUM)
      ensures forall k :: 1 <= k < |r| ==> r[k] in links
    {
      hide IsRing;
      ghost var tab := table[..];
      r := [head];
      var i := 0;
      while i < LEAF_NUM
        invariant 0 <= i <= LEAF_NUM
        invariant IsRing(r) && r != [] && r[0] == head && Entries(r) == Used(tab, i)
        invariant forall k :: 1 <= k < |r| ==> r[k] in links && r[k].entry < i
      {
        if table[i].weight != 0 {
          assert links[i].entry == i && links[i] !in r;
          Neighbours(r, 0);
          ListAddTail(head, links[i], r);
          r := r + [links[i]];
        }
        i := i + 1;
      }
    }

    /** huff.c:39-73 */
    method BuildSortList() returns (ghost r: seq<ListHead<Idx>>)
      requires Linked() && IsRing([head]) && ComparesRightly(table[..])
      modifies head, links
      ensures IsRing(r) && r[0] == head && Lists(links, r, StartForest(table[..]))
    {
      hide IsRing, ComparesRightly, Used, StableSort, Entries, IsOrder, Agree;
      ghost var tab := table[..];
      r := LinkUsed();
      RingDistinct(r);
      ByWeightIsOrder(tab);
      AgreeOnUsed(tab);
      ghost var unsorted := r;
      assert forall k :: 0 <= k < |r| ==> r[k] == head || r[k] in links;
      r := ListSort.InsertSort(head, r, NodeCmp(table[..]), ByWeight(tab));
      RingDistinct(r);
      ListedInOrder(links, unsorted, r, SortedUsed(tab), tab);
    }

    /** huff.c:75-87 */
    method AddWithSort(node: ListHead<Idx>, ghost r: seq<ListHead<Idx>>, ghost f: seq<Tree>, ghost t: Tree)
      returns (ghost r': seq<ListHead<Idx>>)
      requires Linked() && IsRing(r) && r[0] == head && Lists(links, r, f) && node !in r
      requires Index(t) < ALL_NUM && node == links[Index(t)] && table[Index(t)].weight == Weight(t)
      requires AllEncoded(table[..], f) && Total(f) + Weight(t) <= SIZE_LIMIT
      requires Weight(t) >= 1 && AllHeavy(f)
      modifies head, links
      ensures IsRing(r') && r'[0] == head && Lists(links, r', InsertTree(f, t))
    {
      hide IsRing, AllEncoded, AllHeavy, Encodes, InsertTree, Total, ToInt32, Weight;
      ghost var k := 0;
      Neighbours(r, 0);
      var cur := head.next;
      while cur != head
        invariant IsRing(r) && k <= |f| && cur == if k < |f| then r[k + 1] else head
        invariant forall i :: 0 <= i < k ==> Weight(f[i]) < Weight(t)
        decreases |f| - k
      {
        Neighbours(r, k + 1);
        CompareAt(table[..], f, k, t);
        if ToInt32(table[node.entry].weight - table[cur.entry].weight) <= 0 {
          break;
        }
        cur := cur.next;
        k := k + 1;
      }
      if k < |f| { Neighbours(r, k + 1); }
      Neighbours(r, 0);
      Neighbours(r, k);
      assert cur.prev == r[k] && cur == if k + 1 < |r| then r[k + 1] else r[0];
      assert k > 0 ==> r[k] == links[Index(f[k - 1])];
      assert k < |f| ==> r[k + 1] == links[Index(f[k])];
      ListAdd(node, cur.prev, cur, r, k);
      r' := r[..k + 1] + [node] + r[k + 1..];
      InsertTreeAt(f, t, k);
    }

    /** huff.c:97-120: the two lightest members are replaced by their new parent. */
    method Round(index: nat, ghost r: seq<ListHead<Idx>>, ghost f: seq<Tree>, ghost m: nat)
      returns (ghost r': seq<ListHead<Idx>>)
      requires Linked() && IsRing(r) && r[0] == head && Lists(links, r, f)
      requires |f| >= 2 && LEAF_NUM <= index < ALL_NUM && ForestOk(f, index, m)
      requires AllEncoded(table[..], f) && Total(f) <= SIZE_LIMIT
      modifies table, head, links
      ensures IsRing(r') && r'[0] == head && Lists(links, r', Merged(f, index))
      ensures AllEncoded(table[..], Merged(f, index))
      ensures RoundWrites(old(table[..]), table[..], f[0], f[1], index)
    {
      hide IsRing, Encodes, MemberOk, InsertTree, Total;
      ghost var tab, n := table[..], Node(index, f[0], f[1]);
      Neighbours(r, 0);
      Neighbours(r, 1);
      var a := head.next;
      var b := a.next;
      var pan, pbn := a.entry, b.entry;
      RootWeight(tab, f[0]);
      RootWeight(tab, f[1]);
      MemberBounds(f[0], index, m);
      MemberBounds(f[1], index, m);
      IndexInIndices(f[0]);
      IndexInIndices(f[1]);
      table[index] := table[index].(weight := table[pan].weight + table[pbn].weight, lchild := pan, rchild := pbn);
      table[pan] := table[pan].(parent := index);
      table[pbn] := table[pbn].(parent := index);
      RoundEncodes(tab, table[..], f, index, m);
      RestOfRing(links, r, f, index, m);
      ghost var r1, r2 := r[..1] + r[2..], r[..1] + r[3..];
      ListDelInit(a, r, 1);
      assert r1[..1] + r1[2..] == r2 && r1[1] == b;
      Neighbours(r1, 1);
      assert |f| > 2 ==> r1[2] == r[3] == links[Index(f[2])];
      ListDelInit(b, r1, 1);
      TotalMerged(f, index);
      TotalInsert(f[2..], n);
      RestEncoded(tab, table[..], f, index, m);
      MembersHeavy(f, index, m);
      r' := AddWithSort(links[index], r2, f[2..], n);
    }

    /** huff.c:89-134 */
    method BuildHuffTree(ghost r0: seq<ListHead<Idx>>, ghost f0: seq<Tree>)
      requires Linked() && IsRing(r0) && r0[0] == head && Lists(links, r0, f0)
      requires Buildable(table[..], f0)
      modifies `root, table, head, links
      ensures |f0| < 2 ==> root == LEAF_NUM && table[..] == old(table[..])
      ensures |f0| >= 2 ==> root == Index(Build(f0, LEAF_NUM)) && Encodes(table[..], Build(f0, LEAF_NUM))
      ensures |f0| >= 2 ==> Untouched(table[..], old(table[..]), [Build(f0, LEAF_NUM)], root + 1)
      ensures SameWeights(table[..], old(table[..])) && SameCodes(table[..], old(table[..]))
    {
      hide IsRing, Encodes, MemberOk, ForestOk, Total, Merged, RoundWrites, Untouched, SameWeights, SameCodes;
      NothingTouched(table[..], r0, links, f0);
      ghost var r, f := r0, f0;
      ghost var m: nat := 0;
      var index: nat := LEAF_NUM;
      TwoOn(r);
      while head.next.next != head
        invariant IsRing(r) && r != [] && r[0] == head && Lists(links, r, f)
        invariant ForestOk(f, index, m) && AllEncoded(table[..], f) && Total(f) == Total(f0)
        invariant index >= LEAF_NUM && index + |f| == LEAF_NUM + |f0| && (f0 != [] ==> f != [])
        invariant f != [] ==> Build(f, index) == Build(f0, LEAF_NUM)
        invariant index == LEAF_NUM ==> table[..] == old(table[..])
        invariant Untouched(table[..], old(table[..]), f, index) && SameCodes(table[..], old(table[..]))
        decreases |f|
      {
        TwoOn(r);
        ghost var tab := table[..];
        MergedOk(f, index, m);
        TotalMerged(f, index);
        r := Round(index, r, f, m);
        RoundUntouched(tab, table[..], old(table[..]), f, index, m);
        RoundKeepsCodes(tab, table[..], old(table[..]), f, index);
        m := Weight(f[1]);
        f := Merged(f, index);
        index := index + 1;
        TwoOn(r);
      }
      if index != LEAF_NUM {
        root := index - 1;
      } else {
        root := LEAF_NUM;
      }
      TwoOn(r);
      UntouchedWeights(table[..], old(table[..]), f, index);
      if |f0| >= 2 {
        BuildOk(f0, LEAF_NUM, 0);
        assert f == [Build(f0, LEAF_NUM)];
      }
    }

    /** huff.c:144-152: one code, read off on the way from the leaf to the root. */
    method FillOne(i: nat, ghost t: Tree)
      requires table.Length == ALL_NUM && i < LEAF_NUM && Fits(table[..], root, t) && i in Symbols(t)
      requires table[i].code == 0 && table[i].codeLen == 0
      modifies table
      ensures forall j :: 0 <= j < ALL_NUM && j != i ==> table[j] == old(table[j])
      ensures table[i] == old(table[i]).(code := CodeOf(PathOf(t, i)), codeLen := |PathOf(t, i)|)
    {
      assert LEAF_NUM < ALL_NUM;
      hide *;
      ghost var tab, p := table[..], PathOf(t, i);
      FitsGives(tab, root, t, i);
      ghost var k: nat := |p|;
      var cur := i;
      while cur != root
        invariant k <= |p| && cur == Index(At(t, p[..k]))
        invariant forall j :: 0 <= j < ALL_NUM && j != i ==> table[j] == tab[j]
        invariant table[i] == tab[i].(code := CodeOf(p[k..]), codeLen := |p| - k)
        decreases k
      {
        ClimbOne(tab, root, t, i, k);
        assert table[cur].parent == tab[cur].parent;
        table[i] := table[i].(code := 2 * table[i].code % 0x1_0000);
        if table[table[cur].parent].rchild == cur {
          table[i] := table[i].(code := table[i].code + 1);
        }
        cur := table[cur].parent;
        table[i] := table[i].(codeLen := (table[i].codeLen + 1) % 256);
        k := k - 1;
      }
      if k > 0 { AwayFromRoot(tab, root, t, i, k); }
      assert p[0..] == p;
    }

    /** huff.c:136-162 */
    method FillCode(ghost t: Tree)
      requires table.Length == ALL_NUM
      requires Fillable(table[..], root, t) && NoCodes(table[..])
      modifies table
      ensures SameTree(table[..], old(table[..])) && Filled(table[..], t)
      ensures forall i :: 0 <= i < ALL_NUM && (i >= LEAF_NUM || table[i].weight == 0) ==> table[i] == old(table[i])
    {
      hide Fits, Symbols, CodeOf;
      ghost var tab := table[..];
      var i := 0;
      while i < LEAF_NUM
        invariant 0 <= i <= LEAF_NUM
        invariant forall j :: 0 <= j < ALL_NUM ==> SameLinks(table[j], tab[j]) && table[j].parent == tab[j].parent
        invariant forall j :: i <= j < ALL_NUM ==> table[j] == tab[j]
        invariant forall j :: 0 <= j < i && table[j].weight != 0 ==> HasCode(table[..], t, j)
        invariant forall j :: 0 <= j < i && table[j].weight == 0 ==> table[j] == tab[j]
      {
        if table[i].weight == 0 {
          i := i + 1;
          continue;
        }
        FitsFrame(tab, table[..], root, t);
        FillOne(i, t);
        i := i + 1;
      }
    }

    /** huff.c:279-292: one more bit into the buffer, and a full buffer into the file. */
    static method PutBit(body: seq<Byte>, ghost pending: seq<bool>, wbuf: nat, count: nat, ghost bits: seq<bool>, b: bool)
      returns (body': seq<Byte>, ghost pending': seq<bool>, wbuf': nat, count': nat)
      requires PackState(body, pending, wbuf, count, bits) && count < 8
      ensures PackState(body', pending', wbuf', count', bits + [b]) && count' < 8
    {
      hide *;
      PackBit(body, pending, wbuf, count, bits, b);
      body', pending', wbuf', count' := body, pending + [b], 2 * wbuf % 256, count + 1;
      wbuf' := wbuf' + if b then 1 else 0;
      if count' == 8 {
        body' := body' + [wbuf'];
        wbuf' := 0;
        count' := 0;
        pending' := [];
      }
    }

    /** huff.c:276-302: codes to bits, bits to bytes, the last byte filled up with zeros. */
    method PackBody(text: seq<Byte>) returns (body: seq<Byte>)
      requires table.Length == ALL_NUM && LengthsFit(table[..], text)
      ensures Padded(body, Emitted(table[..], text))
    {
      assert LEAF_NUM < ALL_NUM;
      hide *;
      ghost var tab := table[..];
      var wbuf: nat, count: nat := 0, 0;
      ghost var pending: seq<bool> := [];
      body := [];
      EmittedNothing(tab, text);
      PackStart();
      var j := 0;
      while j < |text|
        invariant 0 <= j <= |text| && count < 8
        invariant PackState(body, pending, wbuf, count, Emitted(tab, text[..j]))
      {
        var rbuf: Byte := text[j];
        var i := 0;
        EmitNothing(Emitted(tab, text[..j]), table[rbuf].code);
        while i < table[rbuf].codeLen
          invariant 0 <= i <= table[rbuf].codeLen && count < 8
          invariant PackState(body, pending, wbuf, count, Emitted(tab, text[..j]) + Emit(tab[rbuf].code, i))
        {
          var b := BitAt(table[rbuf].code, i);
          body, pending, wbuf, count := PutBit(body, pending, wbuf, count, Emitted(tab, text[..j]) + Emit(tab[rbuf].code, i), b);
          EmitMore(Emitted(tab, text[..j]), tab[rbuf].code, i);
          i := i + 1;
        }
        EmittedMore(tab, text, j);
        j := j + 1;
      }
      assert text[..j] == text;
      PackEnd(body, pending, wbuf, count, Emitted(tab, text));
      if count != 0 {
        wbuf := wbuf * Pow2(8 - count) % 256;
        body := body + [wbuf];
      }
    }

    /** huff.c:173-183: the list and the tree. */
    method BuildFor(text: seq<Byte>)
      requires Linked() && table[..] == CountTable(text) && IsRing([head]) && InDomain(text)
      modifies `root, table, head, links
      ensures text == [] ==> root == LEAF_NUM
      ensures text != [] ==> root == Index(TreeOf(text)) && Encodes(table[..], TreeOf(text))
      ensures text != [] ==> Untouched(table[..], CountTable(text), [TreeOf(text)], root + 1)
      ensures text == [] ==> table[..] == CountTable([])
      ensures SameWeights(table[..], CountTable(text)) && SameCodes(table[..], CountTable(text))
    {
      ReadyToBuild(text);
      ghost var f := StartFor(text);
      hide *;
      ghost var r := BuildSortList();
      BuildHuffTree(r, f);
    }

    /** huff.c:165-189: counting, list, tree and codes. */
    method Prepare(text: seq<Byte>)
      requires Linked() && table[..] == CountTable([]) && IsRing([head]) && InDomain(text)
      modifies `root, table, head, links
      ensures text == [] ==> root == LEAF_NUM
      ensures text != [] ==> Fits(table[..], root, TreeOf(text)) && Filled(table[..], TreeOf(text))
      ensures text != [] ==> Coded(table[..], root, TreeOf(text), text)
      ensures text == [] ==> table[..] == CountTable([])
      ensures SameWeights(table[..], CountTable(text))
    {
      assert table.Length == ALL_NUM;
      hide *;
      Statistic(text);
      BuildFor(text);
      ghost var t := if text == [] then Leaf(0, 0) else TreeOf(text);
      ghost var built := table[..];
      ReadyToFill(text, built, root, t);
      FillCode(t);
      FilledStill(text, built, table[..], root, t);
      if text != [] {
        NowCoded(text, built, table[..], root, t);
      } else {
        NothingCoded(text, built, table[..]);
      }
    }

    /** huff.c:201-218 and 258-302: the header and the packed codes. */
    method Compress(text: seq<Byte>) returns (a: Archive)
      requires Linked() && table[..] == CountTable([]) && IsRing([head])
      requires InDomain(text) && (text != [] ==> Height(TreeOf(text)) <= 32)
      modifies `root, table, head, links
      ensures text == [] ==> a.root == LEAF_NUM && a.body == []
      ensures a.fileSize == |text| && LEAF_NUM <= a.root < ALL_NUM && |a.table| == a.root + 1
      ensures text != [] ==>
        && Standing(Widened(a.table), TreeOf(text), a.root)
        && (forall i :: 0 <= i < |text| ==> text[i] in Symbols(TreeOf(text)))
        && Padded(a.body, Sent(TreeOf(text), text))
        && SavesCodes(a.table, TreeOf(text), text)
      ensures text == [] ==> forall i :: 0 <= i < |a.table| ==> IsBlank(a.table[i])
    {
      assert LEAF_NUM < ALL_NUM && table.Length == ALL_NUM;
      hide *;
      Prepare(text);
      ghost var coded := table[..];
      if text != [] {
        ReadyToPack(text, coded);
        WidenedEncodes(coded, TreeOf(text), root);
        SavedCodes(coded, root, TreeOf(text), text);
      } else {
        BlankFromStart(coded);
        NothingFits(coded, text);
      }
      var body := PackBody(text);
      PadNothing(body, coded);
      a := Archive(root, |text|, table[..root + 1], body);
    }

    /** huff.c:328-339: the header into the table. */
    method ReadHeader(a: Archive)
      requires Linked() && table[..] == CountTable([])
      requires LEAF_NUM <= a.root < ALL_NUM && |a.table| == a.root + 1
      modifies `root, table
      ensures root == a.root && table[..] == Widened(a.table)
    {
      hide CountTable, Widened;
      root := a.root;
      var k := 0;
      WidenedMore(a.table, 0);
      while k < a.root + 1
        invariant 0 <= k <= |a.table| && root == a.root && table[..] == Widened(a.table[..k])
      {
        ghost var was := table[..];
        table[k] := a.table[k];
        hide *;
        assert table[..] == was[k := a.table[k]];
        WidenedMore(a.table, k);
        k := k + 1;
      }
      assert a.table[..k] == a.table;
    }

    /** huff.c:396-416: one branch per bit, one byte per leaf, until the file size is reached. */
    method Decompress(a: Archive, ghost t: Tree) returns (out: seq<Byte>)
      requires Linked() && table[..] == CountTable([])
      requires LEAF_NUM <= a.root < ALL_NUM && |a.table| == a.root + 1
      requires a.body != [] ==> a.fileSize > 0 && Standing(Widened(a.table), t, a.root)
      modifies `root, table
      ensures a.body == [] ==> out == []
      ensures a.body != [] ==> out == Decoded(t, t, Unpack(a.body), a.fileSize)
    {
      hide Encodes, Indexed, Decoded, DecodeState, Unpack, ToBits, BitAt, CountTable, Widened;
      ReadHeader(a);
      ghost var tab, bits, at := table[..], Unpack(a.body), t;
      if a.body != [] { DecodeBegins(tab, t, a.root, bits, a.fileSize); }
      out := [];
      var cur: nat := root;
      var j: nat := 0;
      while j < |a.body|
        invariant table[..] == tab && root == a.root
        invariant 0 <= j <= |a.body| && (a.body == [] ==> out == [])
        invariant a.body != [] ==> Standing(tab, at, cur) && DecodeState(t, at, bits, 8 * j, a.fileSize, out)
      {
        var rbuf: Byte := a.body[j];
        var i: nat := 0;
        while i < 8
          invariant table[..] == tab && root == a.root
          invariant 0 <= i <= 8 && Standing(tab, at, cur) && DecodeState(t, at, bits, 8 * j + i, a.fileSize, out)
        {
          UnpackAt(a.body, j, i);
          StepDown(tab, at, cur, bits[8 * j + i]);
          DecodeBit(t, at, bits, 8 * j + i, a.fileSize, out);
          at := Child(at, bits[8 * j + i]);
          if BitAt(rbuf, 7 - i) {
            cur := table[cur].rchild;
          } else {
            cur := table[cur].lchild;
          }
          if cur < LEAF_NUM {
            out := out + [cur];
            cur := root;
            at := t;
            if |out| == a.fileSize {
              return;
            }
          }
          i := i + 1;
        }
        j := j + 1;
      }
      if a.body != [] {
        UnpackLength(a.body);
        DecodeEnd(t, at, bits, a.fileSize, out);
      }
    }
  }

  lemma NothingTouched(tab: Table, r: seq<ListHead<Idx>>, links: seq<ListHead<Idx>>, f: seq<Tree>)
    requires Lists(links, r, f)
    ensures Untouched(tab, tab, f, LEAF_NUM) && SameCodes(tab, tab)
  {
  }

  lemma RoundKeepsCodes(tab: Table, tab': Table, was: Table, f: seq<Tree>, index: nat)
    requires |f| >= 2 && RoundWrites(tab, tab', f[0], f[1], index) && SameCodes(tab, was)
    ensures SameCodes(tab', was)
  {
  }

  lemma UntouchedWeights(tab: Table, was: Table, f: seq<Tree>, index: nat)
    requires Untouched(tab, was, f, index)
    ensures SameWeights(tab, was)
  {
  }

  lemma DecodeBegins(tab: Table, t: Tree, root: nat, bits: seq<bool>, n: nat)
    requires Standing(tab, t, root) && n > 0
    ensures DecodeState(t, t, bits, 0, n, [])
  {
    DecodeStart(t, bits, n);
  }

  lemma NothingFits(tab: Table, text: seq<Byte>)
    requires text == []
    ensures LengthsFit(tab, text)
  {
  }

  lemma PadNothing(body: seq<Byte>, tab: Table)
    ensures Padded(body, Emitted(tab, [])) ==> body == []
  {
  }

  /** What the decoder makes of the packed codes of a text, and how many bytes they take. */
  lemma {:induction false} ComesBack(text: seq<Byte>, body: seq<Byte>)
    requires InDomain(text) && text != []
    requires forall i :: 0 <= i < |text| ==> text[i] in Symbols(TreeOf(text))
    requires Padded(body, Sent(TreeOf(text), text))
    ensures body != [] && TreeOf(text).Node?
    ensures Decoded(TreeOf(text), TreeOf(text), Unpack(body), |text|) == Restored(text)
    ensures |body| == (WeightedDepth(TreeOf(text), 0) + 7) / 8
  {
    var t := TreeOf(text);
    TreeShape(text);
    SentSize(text);
    SomethingSent(t, text);
    hide TreeOf, Decoded, Sent, Zeros, Unpack, InDomain, WeightedDepth, InnerSum, UniqueIndices, Symbols, FillUp;
    FillsUp(|body|, |Sent(t, text)|);
  }

  lemma FillsUp(bytes: nat, bits: nat)
    requires bits <= 8 * bytes < bits + 8
    ensures FillUp(bits) == 8 * bytes - bits && bytes == (bits + 7) / 8
  {
  }

  lemma MoreBytes(m: nat, n: nat)
    requires m <= n
    ensures (m + 7) / 8 <= (n + 7) / 8
  {
  }

  lemma RestoredNothing()
    ensures InDomain([]) && Restored([]) == []
  {
  }

  lemma SomethingSent(t: Tree, text: seq<nat>)
    requires t.Node? && text != [] && forall i :: 0 <= i < |text| ==> text[i] in Symbols(t)
    ensures Sent(t, text) != []
  {
  }

  /**
   What a text has become after compressing and decompressing: itself, exactly
   when no code needs more than the 16 bits of the table. No other binary tree
   over the byte values of the text would have taken fewer bytes.
   */
  method RoundTrip(text: seq<Byte>) returns (a: Archive, out: seq<Byte>)
    requires InDomain(text) && (text != [] ==> Height(TreeOf(text)) <= 32)
    ensures a.fileSize == |text| && LEAF_NUM <= a.root < ALL_NUM && |a.table| == a.root + 1
    ensures text == [] ==> a.root == 256 && forall i :: 0 <= i < |a.table| ==> IsBlank(a.table[i])
    ensures text != [] ==>
      && Standing(Widened(a.table), TreeOf(text), a.root) && SavesCodes(a.table, TreeOf(text), text)
      && (forall i :: 0 <= i < |text| ==> text[i] in Symbols(TreeOf(text)))
      && Padded(a.body, Sent(TreeOf(text), text))
    ensures out == Restored(text)
    ensures out == text <==> (text == [] || Height(TreeOf(text)) <= 16)
    ensures |text| < 4181 ==> out == text
    ensures |a.body| == if text == [] then 0 else (WeightedDepth(TreeOf(text), 0) + 7) / 8
    ensures forall other :: text != [] && multiset(Leaves(other)) == multiset(StartFor(text)) ==>
              |a.body| <= (WeightedDepth(other, 0) + 7) / 8
  {
    assert LEAF_NUM == 256;
    hide *;
    var packer := new HuffInfo();
    a := packer.Compress(text);
    var unpacker := new HuffInfo();
    ghost var t := if text == [] then Leaf(0, 0) else TreeOf(text);
    if text != [] { ComesBack(text, a.body); }
    out := unpacker.Decompress(a, t);
    if text == [] { RestoredNothing(); }
    RestoredIff(text);
    if text != [] && |text| < 4181 { ShortTextsFit(text); }
    forall other | text != [] && multiset(Leaves(other)) == multiset(StartFor(text))
      ensures |a.body| <= (WeightedDepth(other, 0) + 7) / 8
    {
      TreeIsOptimal(text, other);
      MoreBytes(WeightedDepth(t, 0), WeightedDepth(other, 0));
    }
  }

  lemma RestOfRing(links: seq<ListHead<Idx>>, r: seq<ListHead<Idx>>, f: seq<Tree>, index: nat, m: nat)
    requires |links| == ALL_NUM && forall i :: 0 <= i < ALL_NUM ==> links[i].entry == i
    requires Lists(links, r, f) && |f| >= 2 && LEAF_NUM <= index < ALL_NUM && ForestOk(f, index, m)
    requires r[0] !in links
    ensures Lists(links, r[..1] + r[3..], f[2..]) && links[index] !in r[..1] + r[3..]
  {
    var s := r[..1] + r[3..];
    forall k | 0 <= k < |s| ensures s[k] != links[index] {
      if k > 0 {
        assert s[k] == r[k + 2] == links[Index(f[k + 1])];
        assert MemberOk(f[k + 1], index, m);
        MemberBounds(f[k + 1], index, m);
        IndexInIndices(f[k + 1]);
      }
    }
  }

  lemma MembersHeavy(f: seq<Tree>, index: nat, m: nat)
    requires ForestOk(f, index, m)
    ensures AllHeavy(f)
  {
    forall k | 0 <= k < |f| ensures Weight(f[k]) >= 1 {
      assert MemberOk(f[k], index, m);
      BalancedWeight(f[k]);
    }
  }

  lemma RestEncoded(tab: Table, tab': Table, f: seq<Tree>, index: nat, m: nat)
    requires |f| >= 2 && LEAF_NUM <= index < ALL_NUM && ForestOk(f, index, m) && AllEncoded(tab, f)
    requires forall i :: 0 <= i < ALL_NUM && i != index ==>
      && SameLinks(tab'[i], tab[i])
      && tab'[i].parent == if i == Index(f[0]) || i == Index(f[1]) then index else tab[i].parent
    ensures AllEncoded(tab', f[2..])
  {
    forall k | 0 <= k < |f[2..]| ensures Encodes(tab', f[2..][k]) {
      OtherEncodes(tab, tab', f, k + 2, index, m);
    }
  }

  /** A ring of links is told by its entries. */
  lemma ListedInOrder(links: seq<ListHead<Idx>>, r0: seq<ListHead<Idx>>, r: seq<ListHead<Idx>>, u: seq<Idx>, tab: Table)
    requires |links| == ALL_NUM && forall i :: 0 <= i < ALL_NUM ==> links[i].entry == i
    requires r0 != [] && r != [] && Permutation(r0, r) && r0[0] == r[0] && Distinct(r)
    requires forall k :: 1 <= k < |r0| ==> r0[k] in links
    requires Entries(r) == u
    ensures Lists(links, r, LeavesFor(tab, u))
  {
    var f := LeavesFor(tab, u);
    forall k | 0 <= k < |f| ensures Index(f[k]) < ALL_NUM && r[k + 1] == links[Index(f[k])] {
      var x := r[k + 1];
      assert x in multiset(r);
      assert x in r0;
      var j :| 0 <= j < |r0| && r0[j] == x;
      assert r[0] != r[k + 1];
      assert x in links;
      assert Entries(r)[k] == x.entry;
    }
  }
}
