/** Tree building by repeated merging minimises the total of weight times depth. */
module Optimality {
  import opened HuffmanTrees
  import opened Kraft

  // the leaves of a tree with their depths, the root standing at depth d
  function Depths(t: Tree, d: nat): seq<WD> {
    match t
    case Leaf(_, w) => [WD(w, d)]
    case Node(l, r, _) => Depths(l, d + 1) + Depths(r, d + 1)
  }

  function WeightedDepth(t: Tree): nat {
    Cost(Depths(t, 0))
  }

  function LeafWeights(t: Tree): seq<nat> {
    match t
    case Leaf(_, w) => [w]
    case Node(l, r, _) => LeafWeights(l) + LeafWeights(r)
  }

  function Height(t: Tree): nat {
    match t
    case Leaf(_, _) => 0
    case Node(l, r, _) => 1 + if Height(l) >= Height(r) then Height(l) else Height(r)
  }

  // the sum of the inner totals, which is another form of the weighted depth
  function TreeCost(t: Tree): nat {
    match t
    case Leaf(_, _) => 0
    case Node(l, r, _) => TreeCost(l) + TreeCost(r) + Total(l) + Total(r)
  }

  function ForestCost(list: seq<Tree>): nat {
    if list == [] then 0 else TreeCost(list[0]) + ForestCost(list[1..])
  }

  function ListWeights(list: seq<Tree>): (ws: seq<nat>)
    ensures |ws| == |list|
    ensures forall i :: 0 <= i < |list| ==> ws[i] == list[i].weight
  {
    if list == [] then [] else [list[0].weight] + ListWeights(list[1..])
  }

  lemma {:induction false} AppendKraft(ps: seq<WD>, qs: seq<WD>, m: nat)
    requires Bounded(ps, m) && Bounded(qs, m)
    ensures Bounded(ps + qs, m) && KraftSum(ps + qs, m) == KraftSum(ps, m) + KraftSum(qs, m)
  {
    hide Bounded, KraftSum, Pow2;
    if ps == [] {
      NoPairs(ps, m);
      assert ps + qs == qs;
    } else {
      Ahead(ps, m);
      AppendKraft(ps[1..], qs, m);
      assert (ps + qs)[1..] == ps[1..] + qs && (ps + qs)[0] == ps[0];
      Ahead(ps + qs, m);
    }
  }

  lemma {:induction false} AppendCost(ps: seq<WD>, qs: seq<WD>)
    ensures Cost(ps + qs) == Cost(ps) + Cost(qs)
  {
    if ps == [] {
      assert ps + qs == qs;
    } else {
      AppendCost(ps[1..], qs);
      assert (ps + qs)[1..] == ps[1..] + qs && (ps + qs)[0] == ps[0];
    }
  }

  lemma AppendWeights(ps: seq<WD>, qs: seq<WD>)
    ensures Weights(ps + qs) == Weights(ps) + Weights(qs)
  {
  }

  lemma {:induction false} DepthsCost(t: Tree, d: nat)
    ensures Cost(Depths(t, d)) == TreeCost(t) + d * Total(t)
  {
    match t
    case Leaf(_, w) =>
      assert Depths(t, d)[1..] == [];
    case Node(l, r, _) =>
      hide Cost;
      DepthsCost(l, d + 1);
      DepthsCost(r, d + 1);
      AppendCost(Depths(l, d + 1), Depths(r, d + 1));
      Deeper(Cost(Depths(l, d + 1)), Cost(Depths(r, d + 1)), TreeCost(l), TreeCost(r), Total(l), Total(r), d);
  }

  lemma {:induction false} DepthsKraft(t: Tree, d: nat, m: nat)
    requires d + Height(t) <= m
    ensures Bounded(Depths(t, d), m) && KraftSum(Depths(t, d), m) == Pow2(m - d)
  {
    match t
    case Leaf(_, w) =>
      assert Depths(t, d)[1..] == [];
    case Node(l, r, _) =>
      hide KraftSum, Bounded, Pow2;
      DepthsKraft(l, d + 1, m);
      DepthsKraft(r, d + 1, m);
      AppendKraft(Depths(l, d + 1), Depths(r, d + 1), m);
      HalvesOfPow2(m - d);
  }

  lemma {:induction false} DepthsWeights(t: Tree, d: nat)
    ensures Weights(Depths(t, d)) == LeafWeights(t)
  {
    match t
    case Leaf(_, w) =>
      assert Depths(t, d)[1..] == [];
    case Node(l, r, _) =>
      hide Weights;
      DepthsWeights(l, d + 1);
      DepthsWeights(r, d + 1);
      AppendWeights(Depths(l, d + 1), Depths(r, d + 1));
  }

  // The depths of any tree meet the Kraft equality.
  lemma DepthsFull(t: Tree, d: nat, m: nat)
    requires d + Height(t) <= m
    ensures Bounded(Depths(t, d), m) && KraftSum(Depths(t, d), m) == Pow2(m - d)
    ensures Cost(Depths(t, d)) == TreeCost(t) + d * Total(t)
    ensures Weights(Depths(t, d)) == LeafWeights(t)
  {
    hide Depths, KraftSum, Bounded, Pow2, Cost, Weights, Total, TreeCost, Height;
    DepthsKraft(t, d, m);
    DepthsCost(t, d);
    DepthsWeights(t, d);
  }

  lemma Deeper(left: nat, right: nat, x: nat, y: nat, t: nat, u: nat, d: nat)
    requires left == x + (d + 1) * t && right == y + (d + 1) * u
    ensures left + right == x + y + t + u + d * (t + u)
  {
    assert (d + 1) * t == t + d * t && (d + 1) * u == u + d * u;
  }

  lemma HalvesOfPow2(n: nat)
    requires n > 0
    ensures Pow2(n) == Pow2(n - 1) + Pow2(n - 1)
  {
  }

  lemma {:induction false} InsertedWeights(list: seq<Tree>, t: Tree)
    ensures ListWeights(InsertSorted(list, t)) == InsertWeight(ListWeights(list), t.weight)
    ensures ForestCost(InsertSorted(list, t)) == ForestCost(list) + TreeCost(t)
    decreases |list|
  {
    var r := InsertSorted(list, t);
    if list != [] && list[0].weight < t.weight {
      InsertedWeights(list[1..], t);
      assert r[1..] == InsertSorted(list[1..], t);
      assert ListWeights(list)[1..] == ListWeights(list[1..]);
    } else {
      assert r[1..] == list;
    }
  }

  // no node below the root reaches the size of a word; a wrap-around at the root itself does no harm, since
  // the weight of the finished tree is never compared
  ghost predicate InnerFits(t: Tree) {
    t.Node? ==> Total(t.left) < WORD && Total(t.right) < WORD
  }

  // stored weights are the true ones, and stay so until the last merge
  ghost predicate Exact(list: seq<Tree>)
    requires list != []
  {
    InnerFits(MergeAll(list)) && forall t :: t in list ==> t.weight == Total(t)
  }

  lemma TrueWeights(list: seq<Tree>)
    requires list != [] && Exact(list)
    ensures forall t :: t in list ==> t.weight == Total(t)
  {
  }

  // every tree of the list comes to stand below the root
  lemma {:induction false} BelowTheRoot(list: seq<Tree>, x: Tree)
    requires |list| >= 2 && x in list
    ensures var t := MergeAll(list); t.Node? && (Total(x) <= Total(t.left) || Total(x) <= Total(t.right))
    decreases |list|
  {
    hide InsertSorted, Total, Merge;
    var merged := Merge(list[0], list[1]);
    var next := InsertSorted(list[2..], merged);
    MergedTotal(list[0], list[1]);
    if |list| == 2 {
      LastMerge(list);
    } else {
      InsertedMembers(list[2..], merged);
      if x == list[0] || x == list[1] {
        BelowTheRoot(next, merged);
      } else {
        assert x in list[2..];
        BelowTheRoot(next, x);
      }
    }
  }

  lemma MergedExact(list: seq<Tree>)
    requires |list| > 2 && Exact(list)
    ensures Exact(InsertSorted(list[2..], Merge(list[0], list[1])))
    ensures Merge(list[0], list[1]).weight == list[0].weight + list[1].weight
  {
    hide InsertSorted, Total, MergeAll;
    var merged := Merge(list[0], list[1]);
    var next := InsertSorted(list[2..], merged);
    assert list[0] in list && list[1] in list;
    MergedTotal(list[0], list[1]);
    NextRound(list);
    InsertedMembers(list[2..], merged);
    BelowTheRoot(next, merged);
  }

  lemma MergedTotal(a: Tree, b: Tree)
    ensures Total(Merge(a, b)) == Total(a) + Total(b)
  {
  }

  lemma {:induction false} MergeAllCost(list: seq<Tree>)
    requires |list| >= 1 && Exact(list)
    ensures TreeCost(MergeAll(list)) == ForestCost(list) + GreedyCost(ListWeights(list))
    decreases |list|
  {
    hide InsertSorted, Exact, InsertWeight, TreeCost, ForestCost, Merge;
    TrueWeights(list);
    if |list| == 1 {
      OneTreeCost(list);
    } else if |list| == 2 {
      LastMerge(list);
      TwoTreesCost(list);
      NothingLeft(list[2..]);
    } else {
      var merged := Merge(list[0], list[1]);
      MergedExact(list);
      MergeAllCost(InsertSorted(list[2..], merged));
      InsertedWeights(list[2..], merged);
      TwoTreesCost(list);
    }
  }

  lemma NothingLeft(list: seq<Tree>)
    requires list == []
    ensures ForestCost(list) == 0
  {
  }

  lemma OneTreeCost(list: seq<Tree>)
    requires |list| == 1
    ensures ForestCost(list) == TreeCost(list[0])
  {
    assert list[1..] == [];
  }

  lemma TwoTreesCost(list: seq<Tree>)
    requires |list| >= 2 && forall t :: t in list ==> t.weight == Total(t)
    ensures TreeCost(Merge(list[0], list[1])) + ForestCost(list[2..]) ==
            ForestCost(list) + list[0].weight + list[1].weight
    ensures ListWeights(list[2..]) == ListWeights(list)[2..]
  {
    assert list[0] in list && list[1] in list;
    assert list[1..][1..] == list[2..];
  }

  function SortPairs(ps: seq<WD>): (r: seq<WD>)
    ensures |r| == |ps|
  {
    if ps == [] then [] else InsertPair(SortPairs(ps[1..]), ps[0])
  }

  lemma {:induction false} SortPairsKeeps(ps: seq<WD>, m: nat)
    requires Bounded(ps, m)
    ensures Bounded(SortPairs(ps), m) && KraftSum(SortPairs(ps), m) == KraftSum(ps, m) &&
            Cost(SortPairs(ps)) == Cost(ps)
    ensures Ascending(Weights(SortPairs(ps))) && multiset(Weights(SortPairs(ps))) == multiset(Weights(ps))
  {
    if ps != [] {
      hide InsertPair, InsertWeight;
      assert ps[0] in ps;
      SortPairsKeeps(ps[1..], m);
      InsertPairFacts(SortPairs(ps[1..]), ps[0], m);
      InsertWeightAscending(Weights(SortPairs(ps[1..])), ps[0].w);
      InsertedWeightMultiset(Weights(SortPairs(ps[1..])), ps[0].w);
      assert Weights(ps) == [ps[0].w] + Weights(ps[1..]);
    }
  }

  lemma {:induction false} InsertedWeightMultiset(ws: seq<nat>, w: nat)
    ensures multiset(InsertWeight(ws, w)) == multiset(ws) + multiset{w}
  {
    if ws != [] && ws[0] < w {
      InsertedWeightMultiset(ws[1..], w);
      assert ws == [ws[0]] + ws[1..];
    }
  }

  // An ascending sequence is determined by its members.
  lemma {:induction false} AscendingUnique(a: seq<nat>, b: seq<nat>)
    requires Ascending(a) && Ascending(b) && multiset(a) == multiset(b)
    ensures a == b
  {
    SameLength(a, b);
    if a != [] {
      LeastFirst(a, b);
      LeastFirst(b, a);
      AscendingTail(a);
      AscendingTail(b);
      hide Ascending;
      AscendingUnique(a[1..], b[1..]);
      assert a == [a[0]] + a[1..] && b == [b[0]] + b[1..];
    }
  }

  lemma SameLength(a: seq<nat>, b: seq<nat>)
    requires multiset(a) == multiset(b)
    ensures |a| == |b|
  {
    assert |a| == |multiset(a)| == |multiset(b)| == |b|;
  }

  lemma LeastFirst(a: seq<nat>, b: seq<nat>)
    requires a != [] && b != [] && Ascending(a) && multiset(a) == multiset(b)
    ensures a[0] <= b[0]
  {
    assert b[0] in multiset(a);
  }

  lemma AscendingTail(a: seq<nat>)
    requires a != [] && Ascending(a)
    ensures Ascending(a[1..]) && multiset(a[1..]) == multiset(a) - multiset{a[0]}
  {
    assert a == [a[0]] + a[1..];
  }

  // the raised frequencies sum to less than a word: then no addition of weights wraps around
  ghost predicate NoOverflow(frequencyTable: seq<nat>)
    requires |frequencyTable| <= 256
  {
    LeafWeight(SymbolLeaves(frequencyTable, |frequencyTable|)) < WORD
  }

  // only the last addition may wrap around
  ghost predicate NoInnerOverflow(frequencyTable: seq<nat>)
    requires 1 <= |frequencyTable| <= 256
  {
    InnerFits(BuildTree(frequencyTable))
  }

  // The bound on the sum is sufficient, and not necessary.
  lemma NoOverflowIsEnough(frequencyTable: seq<nat>)
    requires 1 <= |frequencyTable| <= 256 && NoOverflow(frequencyTable)
    ensures NoInnerOverflow(frequencyTable)
  {
    hide BuildTree;
    BuildTreeKeeps(frequencyTable);
  }

  function SymbolWeights(frequencyTable: seq<nat>): (ws: seq<nat>)
    requires |frequencyTable| <= 256
    ensures |ws| == |frequencyTable|
  {
    ListWeights(SymbolLeaves(frequencyTable, |frequencyTable|))
  }

  lemma {:induction false} LeavesCostNothing(list: seq<Tree>)
    requires forall t :: t in list ==> t.Leaf?
    ensures ForestCost(list) == 0
  {
    if list != [] {
      assert list[0] in list;
      LeavesCostNothing(list[1..]);
    }
  }

  lemma ListWeightsAppend(list: seq<Tree>, t: Tree)
    ensures ListWeights(list + [t]) == ListWeights(list) + [t.weight]
  {
  }

  lemma {:induction false} InitialWeights(frequencyTable: seq<nat>, n: nat)
    requires n <= |frequencyTable| <= 256
    ensures multiset(ListWeights(InitialList(frequencyTable, n))) ==
            multiset(ListWeights(SymbolLeaves(frequencyTable, n)))
  {
    hide InsertSorted, InsertWeight, LeafFor, SymbolLeaves, ListWeights;
    if n == 0 {
      assert InitialList(frequencyTable, 0) == SymbolLeaves(frequencyTable, 0);
    } else {
      var list, leaf := InitialList(frequencyTable, n - 1), LeafFor(frequencyTable, n - 1);
      InitialWeights(frequencyTable, n - 1);
      InsertedWeights(list, leaf);
      InsertedWeightMultiset(ListWeights(list), leaf.weight);
      SymbolLeavesStep(frequencyTable, n);
      ListWeightsAppend(SymbolLeaves(frequencyTable, n - 1), leaf);
    }
  }

  lemma {:induction false} SortedAscending(list: seq<Tree>)
    requires Sorted(list)
    ensures Ascending(ListWeights(list))
  {
    if list != [] {
      SortedAscending(list[1..]);
      forall j | 1 <= j < |list|
        ensures list[0].weight <= list[j].weight
      {
        assert list[1..][j - 1] == list[j] && list[j] in list[1..];
      }
    }
  }

  // the initial work list: leaves only, ascending, with the weights of the symbols
  lemma InitialListFacts(frequencyTable: seq<nat>)
    requires 1 <= |frequencyTable| <= 256 && NoInnerOverflow(frequencyTable)
    ensures var list := InitialList(frequencyTable, |frequencyTable|);
            list != [] && Exact(list) && ForestCost(list) == 0 && Ascending(ListWeights(list)) &&
            multiset(ListWeights(list)) == multiset(SymbolWeights(frequencyTable))
  {
    hide Sorted, InitialList, ForestLeaves, ForestCost, ForestTotal, LeafWeight, MergeAll, InnerFits, Ascending,
      ListWeights;
    var n := |frequencyTable|;
    var list := InitialList(frequencyTable, n);
    InitialListSorted(frequencyTable, n);
    InitialListLeaves(frequencyTable, n);
    InitialWeights(frequencyTable, n);
    OnlyLeaves(list, SymbolLeaves(frequencyTable, n));
    LeavesCostNothing(list);
    SortedAscending(list);
  }

  lemma OnlyLeaves(list: seq<Tree>, leaves: seq<Tree>)
    requires multiset(list) == multiset(leaves) && forall t :: t in leaves ==> t.Leaf?
    ensures forall t :: t in list ==> t.Leaf? && t.weight == Total(t)
  {
    forall t | t in list
      ensures t.Leaf?
    {
      assert t in multiset(leaves);
    }
  }

  // The built tree costs exactly what greedy merging of the sorted weights costs ...
  lemma BuildTreeCost(frequencyTable: seq<nat>) returns (ws: seq<nat>)
    requires 1 <= |frequencyTable| <= 256 && NoInnerOverflow(frequencyTable)
    ensures Ascending(ws) && multiset(ws) == multiset(SymbolWeights(frequencyTable))
    ensures WeightedDepth(BuildTree(frequencyTable)) == GreedyCost(ws)
  {
    hide Ascending, InitialList, MergeAll, Exact, Depths, Cost, GreedyCost;
    var list := InitialList(frequencyTable, |frequencyTable|);
    InitialListFacts(frequencyTable);
    MergeAllCost(list);
    var t := BuildTree(frequencyTable);
    DepthsFull(t, 0, Height(t));
    ws := ListWeights(list);
  }

  // ... so no choice of code lengths for the same weights that meets the Kraft equality is cheaper ...
  lemma OptimalOverLengths(frequencyTable: seq<nat>, ps: seq<WD>, m: nat)
    requires 1 <= |frequencyTable| <= 256 && NoInnerOverflow(frequencyTable)
    requires Full(ps, m) && multiset(Weights(ps)) == multiset(SymbolWeights(frequencyTable))
    ensures WeightedDepth(BuildTree(frequencyTable)) <= Cost(ps)
  {
    hide Ascending, KraftSum, Cost, GreedyCost, Depths, Weights, BuildTree;
    var ws := BuildTreeCost(frequencyTable);
    SortPairsKeeps(ps, m);
    AscendingUnique(ws, Weights(SortPairs(ps)));
    GreedyIsLowerBound(SortPairs(ps), m);
  }

  // ... and no binary tree over leaves of the same weights has a smaller weighted depth.
  lemma Optimal(frequencyTable: seq<nat>, other: Tree)
    requires 1 <= |frequencyTable| <= 256 && NoInnerOverflow(frequencyTable)
    requires multiset(LeafWeights(other)) == multiset(SymbolWeights(frequencyTable))
    ensures WeightedDepth(BuildTree(frequencyTable)) <= WeightedDepth(other)
  {
    hide KraftSum, Cost, Depths, Weights, BuildTree;
    DepthsFull(other, 0, Height(other));
    OptimalOverLengths(frequencyTable, Depths(other, 0), Height(other));
  }

  function AtDepth(ws: seq<nat>, d: nat): (ps: seq<WD>)
    ensures |ps| == |ws|
  {
    if ws == [] then [] else [WD(ws[0], d)] + AtDepth(ws[1..], d)
  }

  function Sum(ws: seq<nat>): nat {
    if ws == [] then 0 else ws[0] + Sum(ws[1..])
  }

  lemma Distribute(x: nat, y: nat, d: nat)
    ensures (x + y) * d == x * d + y * d
  {
  }

  lemma {:induction false} AtDepthFacts(ws: seq<nat>, d: nat)
    ensures Bounded(AtDepth(ws, d), d) && KraftSum(AtDepth(ws, d), d) == |ws|
    ensures Weights(AtDepth(ws, d)) == ws
  {
    if ws != [] {
      hide Bounded, KraftSum, Cost, Weights;
      AtDepthFacts(ws[1..], d);
      assert AtDepth(ws, d)[1..] == AtDepth(ws[1..], d);
      Ahead(AtDepth(ws, d), d);
      assert Pow2(d - d) == 1;
    }
  }

  lemma {:induction false} AtDepthCost(ws: seq<nat>, d: nat)
    ensures Cost(AtDepth(ws, d)) == Sum(ws) * d
  {
    if ws != [] {
      AtDepthCost(ws[1..], d);
      assert AtDepth(ws, d)[1..] == AtDepth(ws[1..], d);
      Distribute(ws[0], Sum(ws[1..]), d);
    }
  }

  // With 256 symbols the weighted depth is at most eight times the sum of the raised frequencies.
  lemma AtMostEightBits(frequencyTable: seq<nat>)
    requires |frequencyTable| == 256 && NoInnerOverflow(frequencyTable)
    ensures WeightedDepth(BuildTree(frequencyTable)) <= 8 * Sum(SymbolWeights(frequencyTable))
  {
    hide KraftSum, Cost, Weights, BuildTree, Depths, InnerFits;
    AtDepthFacts(SymbolWeights(frequencyTable), 8);
    AtDepthCost(SymbolWeights(frequencyTable), 8);
    assert Pow2(8) == 256;
    OptimalOverLengths(frequencyTable, AtDepth(SymbolWeights(frequencyTable), 8), 8);
  }
}
