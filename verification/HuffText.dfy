/** The tree huff.c builds for a text, and what follows from the text alone. */
module HuffText {
  import opened HuffTree
  import opened HuffBuild
  import opened HuffCode
  import opened HuffPack
  import opened HuffTable

  /** A text in which only one byte value occurs: no merge happens, and no tree comes about. */
  predicate OneValue(text: seq<Byte>) {
    text != [] && forall i :: 0 <= i < |text| ==> text[i] == text[0]
  }

  ghost function StartFor(text: seq<Byte>): seq<Tree> {
    StartForest(CountTable(text))
  }

  /** The domain of the compressor: not a single value over and over, and weights whose differences fit an int. */
  ghost predicate InDomain(text: seq<Byte>) {
    !OneValue(text) && |text| <= SIZE_LIMIT
  }

  ghost function TreeOf(text: seq<Byte>): Tree
    requires InDomain(text) && text != []
  {
    StartSize(text);
    Build(StartFor(text), LEAF_NUM)
  }

  lemma UsedAreInText(text: seq<Byte>)
    ensures var u := SortedUsed(CountTable(text));
            forall s: Idx :: s in u <==> s < LEAF_NUM && s in text
  {
    hide SortedUsed, Used;
    SortedUsedFacts(CountTable(text));
    var u := SortedUsed(CountTable(text));
    forall s: Idx ensures s in u <==> s < LEAF_NUM && s in text {
      assert s in text <==> s in multiset(text);
      if s in u {
        var i :| 0 <= i < |u| && u[i] == s;
      }
    }
  }

  /** Two different values in the text are two trees to start from. */
  lemma StartSize(text: seq<Byte>)
    requires InDomain(text)
    ensures text == [] ==> StartFor(text) == []
    ensures text != [] ==> |StartFor(text)| >= 2
  {
    UsedAreInText(text);
    var u := SortedUsed(CountTable(text));
    assert u != [] ==> u[0] in u;
    if text != [] {
      var i :| 0 <= i < |text| && text[i] != text[0];
      assert text[0] in u && text[i] in u;
    }
  }

  /**
   With a single value the list has one member from the start, the root is set
   to 256, and the first step up from the leaf goes to an index behind the table.
   */
  lemma OneValueLeavesTable(text: seq<Byte>)
    requires OneValue(text)
    ensures StartFor(text) == [Leaf(text[0], |text|)]
    ensures CountTable(text)[text[0]].parent >= ALL_NUM && text[0] != LEAF_NUM
  {
    hide SortedUsed, Used, OneValue;
    OnlyOneUsed(text);
    AllTheSame(text);
    assert StartFor(text)[0] == LeafFor(CountTable(text), text[0]);
  }

  lemma OnlyOneUsed(text: seq<Byte>)
    requires OneValue(text)
    ensures text != [] && SortedUsed(CountTable(text)) == [text[0]]
  {
    hide SortedUsed, Used, CountTable;
    UsedDiffer(text);
    UsedAreInText(text);
    var u := SortedUsed(CountTable(text));
    forall i | 0 <= i < |u| ensures u[i] == text[0] {
      assert u[i] in text;
    }
    OnlyMember(u, text[0]);
  }

  lemma UsedDiffer(text: seq<Byte>)
    ensures var u := SortedUsed(CountTable(text)); |u| < 2 || u[0] != u[1]
  {
    hide SortedUsed, Used;
    SortedUsedFacts(CountTable(text));
  }

  lemma OnlyMember(u: seq<Idx>, x: Idx)
    requires x in u && forall i :: 0 <= i < |u| ==> u[i] == x
    requires |u| < 2 || u[0] != u[1]
    ensures u == [x]
  {
  }

  lemma {:induction false} AllTheSame(text: seq<Byte>)
    requires OneValue(text)
    ensures multiset(text)[text[0]] == |text|
  {
    assert text == [text[0]] + text[1..];
    if |text| > 1 { AllTheSame(text[1..]); }
  }

  // ---------- the tree of a text ----------

  /** The leaves of the tree are those the list started with. */
  lemma TreeKeepsLeaves(text: seq<Byte>)
    requires InDomain(text) && text != []
    ensures multiset(Leaves(TreeOf(text))) == multiset(StartFor(text))
  {
    StartSize(text);
    StartForestOk(CountTable(text));
    hide Build, StartForest, ForestOk, InDomain, AllLeaves, Leaves;
    BuildSums(StartFor(text), LEAF_NUM);
    LeavesOfLeaves(StartFor(text));
  }

  lemma SameMembers<T>(s: seq<T>, t: seq<T>)
    requires multiset(s) == multiset(t)
    ensures |s| == |t|
    ensures forall x :: x in s <==> x in t
  {
    assert |multiset(s)| == |s| && |multiset(t)| == |t|;
    forall x ensures x in s <==> x in t {
      assert x in s <==> x in multiset(s);
      assert x in t <==> x in multiset(t);
    }
  }

  /** The leaves of the tree are the values of the text with their frequencies. */
  lemma {:induction false} TreeLeaves(text: seq<Byte>)
    requires InDomain(text) && text != []
    ensures var t := TreeOf(text);
            && |Leaves(t)| == |StartFor(text)|
            && (forall s :: s in Symbols(t) <==> s in text)
            && Counted(t, text)
  {
    var t, u := TreeOf(text), SortedUsed(CountTable(text));
    TreeKeepsLeaves(text);
    SameMembers(Leaves(t), StartFor(text));
    UsedAreInText(text);
    SymbolsAreLeaves(t);
    hide TreeOf, SortedUsed, CountTable, Counted;
    forall s ensures s in Symbols(t) <==> s in text {
      if s in Symbols(t) {
        var i := LeafOf(t, s);
        assert Leaves(t)[i] in Leaves(t);
        LeafIn(CountTable(text), u, Leaves(t)[i]);
      }
      if s in text {
        var k :| 0 <= k < |u| && u[k] == s;
        assert StartFor(text)[k] in StartFor(text);
        var i :| 0 <= i < |Leaves(t)| && Leaves(t)[i] == StartFor(text)[k];
      }
    }
    forall i | 0 <= i < |Leaves(t)| ensures Leaves(t)[i].w == multiset(text)[Leaves(t)[i].sym] {
      assert Leaves(t)[i] in Leaves(t);
      LeafIn(CountTable(text), u, Leaves(t)[i]);
      CountAt(text, Leaves(t)[i].sym);
    }
    CountedByLeaves(t, text);
  }

  lemma CountAt(text: seq<Byte>, s: Idx)
    requires s in text
    ensures CountTable(text)[s].weight == multiset(text)[s]
  {
  }

  lemma LeafIn(tab: Table, u: seq<Idx>, l: Tree)
    requires l in LeavesFor(tab, u)
    ensures l.Leaf? && l.sym < ALL_NUM && l.sym in u && l.w == tab[l.sym].weight
  {
    var k :| 0 <= k < |u| && LeavesFor(tab, u)[k] == l;
    assert l == LeafFor(tab, u[k]);
  }

  lemma {:induction false} CountedByLeaves(t: Tree, text: seq<Byte>)
    requires forall i :: 0 <= i < |Leaves(t)| ==> Leaves(t)[i].Leaf? && Leaves(t)[i].w == multiset(text)[Leaves(t)[i].sym]
    ensures Counted(t, text)
  {
    if t.Leaf? {
      assert Leaves(t)[0] == t;
    } else {
      forall i | 0 <= i < |Leaves(t.l)| ensures Leaves(t.l)[i] == Leaves(t)[i] { }
      forall i | 0 <= i < |Leaves(t.r)| ensures Leaves(t.r)[i] == Leaves(t)[|Leaves(t.l)| + i] { }
      CountedByLeaves(t.l, text);
      CountedByLeaves(t.r, text);
    }
  }

  /** The shape of the tree of a text: balanced, indexed, at most 256 leaves, the root last. */
  lemma {:induction false} TreeShape(text: seq<Byte>)
    requires InDomain(text) && text != []
    ensures var t := TreeOf(text);
            && t.Node? && Balanced(t) && UniqueIndices(t) && Indexed(t, ALL_NUM)
            && LEAF_NUM <= Index(t) == LEAF_NUM + |StartFor(text)| - 2 < ALL_NUM
            && Height(t) < LEAF_NUM
            && 256 <= Index(t) == 254 + |StartFor(text)| < 511 && Height(t) < 256
  {
    var t, f := TreeOf(text), StartFor(text);
    StartSize(text);
    StartForestOk(CountTable(text));
    BuildOk(f, LEAF_NUM, 0);
    IndexedMore(t, LEAF_NUM + |f| - 1, ALL_NUM);
    TreeLeaves(text);
    HeightBelowLeaves(t);
  }

  /** A 0 leads to the lighter part of the tree. */
  lemma {:induction false} TreeLighterLeft(text: seq<Byte>)
    requires InDomain(text) && text != []
    ensures LighterLeft(TreeOf(text))
  {
    StartSize(text);
    StartForestOk(CountTable(text));
    BuildLighterLeft(StartFor(text), LEAF_NUM, 0);
  }

  /** The built tree is optimal: no other tree over the same values and frequencies gives shorter output. */
  lemma {:induction false} TreeIsOptimal(text: seq<Byte>, other: Tree)
    requires InDomain(text) && text != []
    requires multiset(Leaves(other)) == multiset(StartFor(text))
    ensures WeightedDepth(TreeOf(text), 0) <= WeightedDepth(other, 0)
  {
    StartSize(text);
    StartForestOk(CountTable(text));
    StartForestAscends(CountTable(text));
    BuildIsOptimal(StartFor(text), LEAF_NUM, other);
  }

  lemma {:induction false} AllCounted(t: Tree, text: seq<Byte>)
    requires forall i :: 0 <= i < |text| ==> text[i] in Symbols(t)
    ensures Count(t, text) == |text|
  {
    if text != [] { AllCounted(t, text[1..]); }
  }

  /** The tree weighs as much as the text is long. */
  lemma {:induction false} TreeWeight(text: seq<Byte>)
    requires InDomain(text) && text != []
    ensures Weight(TreeOf(text)) == |text|
  {
    var t := TreeOf(text);
    TreeShape(text);
    TreeLeaves(text);
    hide TreeOf;
    forall i | 0 <= i < |text| ensures text[i] in Symbols(t) { assert text[i] in text; }
    AllCounted(t, text);
    BitsAreInnerSum(t, text);
  }

  /** A text shorter than 4181 bytes gets no code longer than 16 bits. */
  lemma {:induction false} ShortTextsFit(text: seq<Byte>)
    requires InDomain(text) && text != [] && |text| < 4181
    ensures Height(TreeOf(text)) <= 16
  {
    TreeShape(text);
    TreeWeight(text);
    LightTreesFit(TreeOf(text));
  }

  /** The bits of a whole text: as many as the inner nodes weigh together, and the least possible number. */
  lemma {:induction false} SentSize(text: seq<Byte>)
    requires InDomain(text) && text != []
    ensures forall i :: 0 <= i < |text| ==> text[i] in Symbols(TreeOf(text))
    ensures |Sent(TreeOf(text), text)| == InnerSum(TreeOf(text)) == WeightedDepth(TreeOf(text), 0)
  {
    var t := TreeOf(text);
    TreeShape(text);
    TreeLeaves(text);
    forall i | 0 <= i < |text| ensures text[i] in Symbols(t) { assert text[i] in text; }
    SentIsInnerSum(t, text);
  }

  // ---------- what each stage of the compressor starts from ----------

  /** The weights in the list add up to the size of the text. */
  lemma {:induction false} TotalIsSize(text: seq<Byte>)
    requires InDomain(text)
    ensures Total(StartFor(text)) == |text|
  {
    StartSize(text);
    if text != [] {
      TreeWeight(text);
      BuildTotal(StartFor(text), LEAF_NUM);
    }
  }

  /** A forest that can be built up to a tree with the entries of the table, in 32-bit weights. */
  ghost predicate Buildable(tab: Table, f: seq<Tree>) {
    ForestOk(f, LEAF_NUM, 0) && |f| <= LEAF_NUM && AllEncoded(tab, f) && Total(f) <= SIZE_LIMIT
  }

  /** What the tree is built from. */
  lemma {:induction false} ReadyToBuild(text: seq<Byte>)
    requires InDomain(text)
    ensures ComparesRightly(CountTable(text))
    ensures var f := StartFor(text);
            && Buildable(CountTable(text), f) && f == StartForest(CountTable(text))
            && (text == [] ==> f == [])
            && (text != [] ==> |f| >= 2 && Build(f, LEAF_NUM) == TreeOf(text))
  {
    WithinLimit(text);
    StartSize(text);
    StartForestOk(CountTable(text));
    TotalIsSize(text);
  }

  /** Every value with a weight has a leaf to climb from. */
  lemma {:induction false} ReadyToFill(text: seq<Byte>, tab: Table, root: nat, t: Tree)
    requires InDomain(text)
    requires text != [] ==> t == TreeOf(text) && root == Index(t) && Encodes(tab, t)
    requires SameWeights(tab, CountTable(text)) && SameCodes(tab, CountTable(text))
    ensures Fillable(tab, root, t) && NoCodes(tab) && (text != [] ==> Fits(tab, root, t))
  {
    if text != [] {
      TreeShape(text);
      TreeLeaves(text);
    }
    hide TreeOf;
    forall i | 0 <= i < LEAF_NUM && tab[i].weight != 0 ensures Fits(tab, root, t) && i in Symbols(t) {
      assert i in multiset(text);
      assert i in text;
    }
  }

  /** Writing the codes changes nothing else. */
  lemma FilledStill(text: seq<Byte>, tab: Table, tab': Table, root: nat, t: Tree)
    requires SameTree(tab', tab) && SameWeights(tab, CountTable(text))
    ensures SameWeights(tab', CountTable(text)) && (Fits(tab, root, t) ==> Fits(tab', root, t))
  {
    FitsFrame(tab, tab', root, t);
  }

  /** Every value of the text has its code, of a length that can be shifted out. */
  lemma {:induction false} ReadyToPack(text: seq<Byte>, tab: Table)
    requires InDomain(text) && text != [] && Height(TreeOf(text)) <= 32
    requires Filled(tab, TreeOf(text)) && SameWeights(tab, CountTable(text))
    ensures LengthsFit(tab, text) && forall i :: 0 <= i < |text| ==> text[i] in Symbols(TreeOf(text))
    ensures Emitted(tab, text) == Sent(TreeOf(text), text)
  {
    var t := TreeOf(text);
    hide TreeOf;
    forall i | 0 <= i < |text| ensures HasCode(tab, t, text[i]) && tab[text[i]].codeLen <= 32 {
      assert text[i] in multiset(text);
      assert HasCode(tab, t, text[i]);
      PathFits(t, text[i]);
    }
    EmittedIsSent(tab, t, text);
  }

  /** With the codes filled in, everything else is still as counting left it, or as the tree needs it. */
  lemma {:induction false} NowCoded(text: seq<Byte>, tab: Table, tab': Table, root: nat, t: Tree)
    requires InDomain(text) && text != [] && t == TreeOf(text) && Fits(tab', root, t) && Filled(tab', t)
    requires Untouched(tab, CountTable(text), [t], root + 1) && SameCodes(tab, CountTable(text))
    requires SameTree(tab', tab) && SameWeights(tab', CountTable(text))
    requires forall i :: 0 <= i < ALL_NUM && (i >= LEAF_NUM || tab'[i].weight == 0) ==> tab'[i] == tab[i]
    ensures Coded(tab', root, t, text)
  {
    TreeShape(text);
    CountedEntries(text);
    hide TreeOf, Encodes, Indexed, Balanced, UniqueIndices, Height, HasCode, CountTable;
    assert [t][0] == t && tab[root].parent == CountTable(text)[root].parent;
    forall s: Byte ensures s in text ==> tab'[s].weight != 0
      ensures s !in text ==> tab'[s] == CountTable(text)[s]
      ensures tab'[s].lchild == 511 && tab'[s].rchild == 511
    {
      assert SameLinks(tab'[s], tab[s]) && tab'[s].weight == CountTable(text)[s].weight;
    }
  }

  /** The table after counting, entry by entry. */
  lemma CountedEntries(text: seq<Byte>)
    ensures var tab := CountTable(text);
            && (forall s: Byte :: tab[s].lchild == 511 && tab[s].rchild == 511)
            && (forall s: Byte :: if s in text then tab[s].weight != 0 else IsBlank(tab[s]))
            && (forall i :: LEAF_NUM <= i < ALL_NUM ==> IsBlank(tab[i]))
            && (forall i :: 0 <= i < ALL_NUM ==> tab[i].code == 0 && tab[i].codeLen == 0)
  {
    var tab := CountTable(text);
    forall s: Byte ensures if s in text then tab[s].weight != 0 else IsBlank(tab[s]) {
      assert s in text <==> s in multiset(text);
    }
  }

  lemma NothingCoded(text: seq<Byte>, tab: Table, tab': Table)
    requires text == [] && tab == CountTable([]) && SameWeights(tab', CountTable(text))
    requires forall i :: 0 <= i < ALL_NUM && (i >= LEAF_NUM || tab'[i].weight == 0) ==> tab'[i] == tab[i]
    ensures tab' == CountTable([])
  {
    forall i | 0 <= i < ALL_NUM ensures tab'[i] == tab[i] {
      if i < LEAF_NUM { assert tab'[i].weight == CountTable(text)[i].weight; }
    }
  }

  lemma BlankFromStart(tab: Table)
    ensures tab == CountTable([]) ==> forall i :: 0 <= i < ALL_NUM ==> IsBlank(tab[i])
  {
  }

  /** What is saved of the table holds the codes, and nothing else is lost. */
  lemma {:induction false} SavedCodes(tab: Table, root: nat, t: Tree, text: seq<Byte>)
    requires Coded(tab, root, t, text)
    ensures SavesCodes(tab[..root + 1], t, text) && Widened(tab[..root + 1]) == tab
  {
    var saved := tab[..root + 1];
    assert forall i :: root < i < ALL_NUM ==> CountTable([])[i] == tab[i];
    assert Widened(saved) == tab;
    hide HasCode, Widened;
  }
}
