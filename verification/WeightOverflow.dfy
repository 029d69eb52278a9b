/** What happens when the weights do not fit a word: a table on which the tree degenerates to a chain. */
module WeightOverflow {
  import opened HuffmanTrees
  import opened Kraft
  import opened Optimality
  import opened DepthBound
  import opened Codes

  const HALF: nat := 0x8000_0000

  // every byte occurs half a word of times
  function HeavyTable(): (f: seq<nat>)
    ensures |f| == 256 && forall c :: 0 <= c < 256 ==> f[c] == HALF
  {
    seq(256, _ => HALF)
  }

  function HeavyLeaves(n: nat): (list: seq<Tree>)
    ensures |list| == n && forall i :: 0 <= i < n ==> list[i] == Leaf(n - 1 - i, HALF)
  {
    if n == 0 then [] else [Leaf(n - 1, HALF)] + HeavyLeaves(n - 1)
  }

  lemma {:induction false} HeavyList(n: nat)
    requires n <= 256
    ensures InitialList(HeavyTable(), n) == HeavyLeaves(n)
  {
    if n > 0 {
      HeavyList(n - 1);
      assert LeafFor(HeavyTable(), n - 1) == Leaf(n - 1, HALF);
    }
  }

  // what a chain of n more leaves below a tree of that total costs
  function ChainCost(total: nat, n: nat): nat
    decreases n
  {
    if n == 0 then 0 else total + HALF + ChainCost(total + HALF, n - 1)
  }

  lemma {:induction false} ChainCostIs(k: nat, n: nat)
    ensures 2 * ChainCost(k * HALF, n) == n * (2 * k + n + 1) * HALF
    decreases n
  {
    if n > 0 {
      ChainCostIs(k + 1, n - 1);
      assert k * HALF + HALF == (k + 1) * HALF;
      ChainSum(k, n);
    }
  }

  lemma ChainSum(k: nat, n: nat)
    requires n > 0
    ensures 2 * (k + 1) + (n - 1) * (2 * (k + 1) + (n - 1) + 1) == n * (2 * k + n + 1)
  {
    var m := n - 1;
    assert n * (2 * k + n + 1) == m * (2 * k + m + 2) + (2 * k + m + 2);
    assert m * (2 * k + m + 2) + m == m * (2 * k + m + 3) == m * (2 * (k + 1) + m + 1);
  }

  // Merged weights are 0 and half a word in turn, never heavier than a leaf, so the same tree is merged in
  // every round.
  lemma {:induction false} HeavyChain(acc: Tree, n: nat)
    requires acc.weight == 0 || acc.weight == HALF
    ensures var t := MergeAll([acc] + HeavyLeaves(n));
            && TreeCost(t) == TreeCost(acc) + ChainCost(Total(acc), n)
            && Height(t) >= Height(acc) + n
            && (n > 0 ==> t.Node? && Total(t.left) == Total(acc) + (n - 1) * HALF)
    decreases n
  {
    hide Merge, MergeAll, TreeCost, Total, Height, HeavyLeaves;
    ChainEnds(acc);
    if n > 0 {
      var merged := Merge(acc, Leaf(n - 1, HALF));
      MergedWithLeaf(acc, Leaf(n - 1, HALF));
      ChainRound(acc, n);
      ChainEnds(merged);
      HeavyChain(merged, n - 1);
    }
  }

  lemma ChainEnds(acc: Tree)
    ensures MergeAll([acc] + HeavyLeaves(0)) == acc
  {
    assert [acc] + HeavyLeaves(0) == [acc];
  }

  lemma MergedWithLeaf(acc: Tree, leaf: Tree)
    requires leaf.Leaf? && leaf.weight == HALF
    ensures var merged := Merge(acc, leaf);
            && merged.Node? && merged.left == acc && Total(merged) == Total(acc) + HALF
            && TreeCost(merged) == TreeCost(acc) + Total(acc) + HALF && Height(merged) >= Height(acc) + 1
  {
  }

  lemma ChainRound(acc: Tree, n: nat)
    requires n > 0 && (acc.weight == 0 || acc.weight == HALF)
    ensures var merged := Merge(acc, Leaf(n - 1, HALF));
            && (merged.weight == 0 || merged.weight == HALF)
            && MergeAll([acc] + HeavyLeaves(n)) == MergeAll([merged] + HeavyLeaves(n - 1))
  {
    hide Merge, MergeAll;
    var list, rest := [acc] + HeavyLeaves(n), HeavyLeaves(n - 1);
    var merged := Merge(acc, Leaf(n - 1, HALF));
    HeavyMerge(acc, n);
    assert list[0] == acc && list[1] == Leaf(n - 1, HALF) && list[2..] == rest;
    NextRound(list);
    assert rest == [] ==> [merged] + rest == [merged];
    assert InsertSorted(rest, merged) == [merged] + rest;
  }

  lemma HeavyMerge(acc: Tree, n: nat)
    requires n > 0 && (acc.weight == 0 || acc.weight == HALF)
    ensures var merged := Merge(acc, Leaf(n - 1, HALF)); merged.weight == 0 || merged.weight == HALF
  {
  }

  lemma HeavyTree()
    ensures var t := BuildTree(HeavyTable());
            && WeightedDepth(t) == 32895 * HALF && Height(t) >= 255
            && t.Node? && Total(t.left) == 255 * HALF
  {
    hide Depths, Cost, InitialList, MergeAll, TreeCost;
    var t, first := BuildTree(HeavyTable()), Leaf(255, HALF);
    HeavyList(256);
    assert HeavyLeaves(256) == [first] + HeavyLeaves(255);
    HeavyChain(first, 255);
    LeafCosts(first);
    ChainCostIs(1, 255);
    DepthsFull(t, 0, Height(t));
  }

  lemma LeafCosts(t: Tree)
    requires t.Leaf?
    ensures TreeCost(t) == 0 && Total(t) == t.weight && Height(t) == 0
  {
  }

  function Balanced(n: nat): Tree {
    if n == 0 then Leaf(0, HALF) else Node(Balanced(n - 1), Balanced(n - 1), 0)
  }

  lemma {:induction false} BalancedFacts(n: nat)
    ensures Total(Balanced(n)) == Pow2(n) * HALF && TreeCost(Balanced(n)) == n * Total(Balanced(n))
    ensures |LeafWeights(Balanced(n))| == Pow2(n) && forall w :: w in LeafWeights(Balanced(n)) ==> w == HALF
  {
    if n > 0 {
      BalancedFacts(n - 1);
      DoubleCost(n, Total(Balanced(n - 1)));
    }
  }

  lemma DoubleCost(n: nat, total: nat)
    requires n > 0
    ensures 2 * ((n - 1) * total) + 2 * total == n * (2 * total)
  {
  }

  lemma HeavyWeights()
    ensures SymbolWeights(HeavyTable()) == LeafWeights(Balanced(8))
  {
    hide LeafWeights, Balanced, SymbolWeights;
    BalancedFacts(8);
    assert Pow2(8) == 256;
    var ws, vs := SymbolWeights(HeavyTable()), LeafWeights(Balanced(8));
    forall i | 0 <= i < 256
      ensures ws[i] == vs[i]
    {
      HeavyWeight(i);
      assert vs[i] in vs;
    }
  }

  lemma HeavyWeight(i: nat)
    requires i < 256
    ensures SymbolWeights(HeavyTable())[i] == HALF
  {
    assert SymbolLeaves(HeavyTable(), 256)[i] == LeafFor(HeavyTable(), i);
  }

  // The bound on the weights is needed: on this table a balanced tree over the same weights is cheaper than
  // the built one, which also spends more than eight bits a byte.
  lemma OverflowIsNotOptimal()
    ensures var f := HeavyTable();
            && !NoInnerOverflow(f)
            && multiset(LeafWeights(Balanced(8))) == multiset(SymbolWeights(f))
            && WeightedDepth(Balanced(8)) == 8 * (256 * HALF) < WeightedDepth(BuildTree(f))
  {
    hide BuildTree, SymbolWeights, LeafWeights, Depths, Cost, TreeCost, Balanced, Height, Total;
    HeavyTree();
    HeavyWeights();
    BalancedFacts(8);
    assert Pow2(8) == 256;
    DepthsFull(Balanced(8), 0, Height(Balanced(8)));
  }

  // The codeword of some byte has 255 bits there, the most a table of 256 symbols can give.
  lemma OverflowIsDeep() returns (c: nat)
    ensures Alphabet(BuildTree(HeavyTable())) && c < 256 && |Code(BuildTree(HeavyTable()), c)| == 255
  {
    hide BuildTree, LeafValues, IsPath, At, Code, Height, Unambiguous, HeavyTable;
    var f := HeavyTable();
    var t := BuildTree(f);
    HeavyTree();
    BuildTreeAlphabet(f);
    BuildTreeSize(f);
    HeightBounds(t);
    var path := DeepestPath(t);
    CodeIsOnlyPath(t, path);
    c := At(t, path).value;
  }

  // A sum of exactly a word wraps around at the root only.
  lemma FullWordFits(frequencyTable: seq<nat>)
    requires |frequencyTable| == 256 && LeafWeight(SymbolLeaves(frequencyTable, 256)) <= WORD
    ensures NoInnerOverflow(frequencyTable)
  {
    hide BuildTree, LeafWeight, SymbolLeaves;
    var t := BuildTree(frequencyTable);
    BuildTreeKeeps(frequencyTable);
    BuildTreePositive(frequencyTable);
    if t.Node? {
      PositiveTotal(t.left);
      PositiveTotal(t.right);
    }
  }

  lemma {:induction false} EqualSum(f: seq<nat>, w: nat, n: nat)
    requires n <= |f| == 256 && w > 0 && forall c :: 0 <= c < 256 ==> f[c] == w
    ensures LeafWeight(SymbolLeaves(f, n)) == n * w
  {
    if n > 0 {
      hide LeafWeight, SymbolLeaves;
      EqualSum(f, w, n - 1);
      SymbolLeavesStep(f, n);
      LeafWeightAppend(SymbolLeaves(f, n - 1), LeafFor(f, n - 1));
    }
  }

  // So the bound on the sum is sufficient for the tree to be optimal, and not necessary.
  lemma BoundIsNotNecessary()
    ensures var f: seq<nat> := seq(256, _ => 0x100_0000);
            !NoOverflow(f) && NoInnerOverflow(f)
  {
    hide LeafWeight, SymbolLeaves, InnerFits;
    var f: seq<nat> := seq(256, _ => 0x100_0000);
    EqualSum(f, 0x100_0000, 256);
    FullWordFits(f);
  }
}
