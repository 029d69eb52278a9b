/** How deep a built tree can be: a leaf at depth d forces a total of at least Fib(d + 2). */
module DepthBound {
  import opened HuffmanTrees
  import opened Kraft
  import opened Optimality

  function Fib(n: nat): nat {
    if n < 2 then n else Fib(n - 1) + Fib(n - 2)
  }

  // the subtree a path of branches leads to: false is left, true is right
  predicate IsPath(t: Tree, path: seq<bool>)
    decreases |path|
  {
    path == [] || (t.Node? && IsPath(if path[0] then t.right else t.left, path[1..]))
  }

  function At(t: Tree, path: seq<bool>): Tree
    requires IsPath(t, path)
    decreases |path|
  {
    if path == [] then t else At(if path[0] then t.right else t.left, path[1..])
  }

  ghost predicate ChildrenAtMost(t: Tree, w: nat) {
    t.Node? ==> Total(t.left) <= w && Total(t.right) <= w
  }

  // no tree outweighs its sibling's parent: what was merged earlier is not heavier than what is merged with it later
  ghost predicate Graded(t: Tree) {
    t.Node? ==>
      && ChildrenAtMost(t.left, Total(t.right)) && ChildrenAtMost(t.right, Total(t.left))
      && Graded(t.left) && Graded(t.right)
  }

  // every weight popped so far is at most every weight still in the list
  ghost predicate GradedList(list: seq<Tree>) {
    && (forall t :: t in list ==> Graded(t))
    && (forall t, u :: t in list && u in list ==> ChildrenAtMost(t, Total(u)))
  }

  predicate PositiveLeaves(t: Tree) {
    match t
    case Leaf(_, w) => w >= 1
    case Node(l, r, _) => PositiveLeaves(l) && PositiveLeaves(r)
  }

  lemma SortedFirst(list: seq<Tree>, u: Tree)
    requires |list| >= 2 && Sorted(list) && u in list[2..]
    ensures list[0].weight <= list[1].weight <= u.weight
  {
    assert u in list[1..][1..];
    assert list[1] in list[1..];
  }

  lemma GradedStep(list: seq<Tree>)
    requires |list| >= 2 && Sorted(list) && GradedList(list) && forall t :: t in list ==> t.weight == Total(t)
    ensures GradedList(InsertSorted(list[2..], Merge(list[0], list[1])))
  {
    hide InsertSorted, Sorted;
    var a, b := list[0], list[1];
    var merged := Merge(a, b);
    var next := InsertSorted(list[2..], merged);
    InsertedMembers(list[2..], merged);
    assert a in list && b in list;
    assert Graded(merged);
    forall t, u | t in next && u in next
      ensures ChildrenAtMost(t, Total(u))
    {
      assert t != merged ==> t in list;
      assert u != merged ==> u in list;
      if t == merged && u != merged {
        SortedFirst(list, u);
      } else if t != merged && u == merged {
        assert ChildrenAtMost(t, Total(a));
      }
    }
  }

  lemma {:induction false} MergeAllGraded(list: seq<Tree>)
    requires |list| >= 1 && Sorted(list) && Exact(list) && GradedList(list)
    ensures Graded(MergeAll(list))
    decreases |list|
  {
    hide InsertSorted, Merge, Exact, Graded;
    if |list| == 2 {
      TrueWeights(list);
      GradedStep(list);
      NextRound(list);
      assert list[2..] == [];
      InsertedMembers(list[2..], Merge(list[0], list[1]));
      LastMerge(list);
    } else if |list| > 2 {
      TrueWeights(list);
      GradedStep(list);
      MergedExact(list);
      SortedTail(list);
      InsertSortedIsSorted(list[2..], Merge(list[0], list[1]));
      MergeAllGraded(InsertSorted(list[2..], Merge(list[0], list[1])));
    } else {
      assert list[0] in list;
    }
  }

  lemma SortedTail(list: seq<Tree>)
    requires |list| >= 2 && Sorted(list)
    ensures Sorted(list[2..])
  {
    assert list[1..][1..] == list[2..];
  }

  lemma {:induction false} PositiveTotal(t: Tree)
    requires PositiveLeaves(t)
    ensures Total(t) >= 1
  {
    if t.Node? {
      PositiveTotal(t.left);
    }
  }

  lemma {:induction false} DepthForcesTotal(t: Tree, path: seq<bool>)
    requires Graded(t) && PositiveLeaves(t) && IsPath(t, path)
    ensures Total(t) >= Fib(|path| + 2)
    decreases |path|
  {
    PositiveTotal(t);
    if path != [] {
      var child, sibling := if path[0] then t.right else t.left, if path[0] then t.left else t.right;
      DepthForcesTotal(child, path[1..]);
      PositiveTotal(sibling);
      if |path| >= 2 {
        var grandchild := if path[1] then child.right else child.left;
        assert path[1..][0] == path[1];
        assert path[1..][1..] == path[2..];
        DepthForcesTotal(grandchild, path[2..]);
      }
    }
  }

  lemma {:induction false} PositiveFromLeaves(t: Tree)
    requires forall leaf :: leaf in LeavesOf(t) ==> leaf.Leaf? && leaf.weight >= 1
    ensures PositiveLeaves(t)
  {
    if t.Node? {
      PositiveFromLeaves(t.left);
      PositiveFromLeaves(t.right);
    }
  }

  lemma BuildTreePositive(frequencyTable: seq<nat>)
    requires 1 <= |frequencyTable| <= 256
    ensures PositiveLeaves(BuildTree(frequencyTable))
  {
    hide BuildTree, LeavesOf;
    var t, leaves := BuildTree(frequencyTable), SymbolLeaves(frequencyTable, |frequencyTable|);
    BuildTreeKeeps(frequencyTable);
    forall leaf | leaf in LeavesOf(t)
      ensures leaf.Leaf? && leaf.weight >= 1
    {
      assert leaf in multiset(leaves);
    }
    PositiveFromLeaves(t);
  }

  lemma BuildTreeGraded(frequencyTable: seq<nat>)
    requires 1 <= |frequencyTable| <= 256 && NoInnerOverflow(frequencyTable)
    ensures Graded(BuildTree(frequencyTable))
  {
    hide InitialList, MergeAll, Sorted, Exact;
    var n := |frequencyTable|;
    var list := InitialList(frequencyTable, n);
    InitialListSorted(frequencyTable, n);
    InitialListFacts(frequencyTable);
    OnlyLeaves(list, SymbolLeaves(frequencyTable, n));
    MergeAllGraded(list);
  }

  // A path of d branches in a built tree forces a total weight of at least Fib(d + 2).
  lemma CodeDepthForcesTotal(frequencyTable: seq<nat>, path: seq<bool>)
    requires 1 <= |frequencyTable| <= 256 && NoInnerOverflow(frequencyTable)
    requires IsPath(BuildTree(frequencyTable), path)
    ensures LeafWeight(SymbolLeaves(frequencyTable, |frequencyTable|)) >= Fib(|path| + 2)
  {
    hide BuildTree, LeavesOf, LeafWeight, SymbolLeaves, Fib, Graded, PositiveLeaves;
    BuildTreePositive(frequencyTable);
    BuildTreeGraded(frequencyTable);
    BuildTreeKeeps(frequencyTable);
    DepthForcesTotal(BuildTree(frequencyTable), path);
  }

  lemma {:induction false} FibMonotone(a: nat, b: nat)
    requires a <= b
    ensures Fib(a) <= Fib(b)
    decreases b - a
  {
    if a < b {
      FibMonotone(a, b - 1);
    }
  }

  lemma Fib48()
    ensures Fib(48) == 4807526976
  {
    assert Fib(12) == 144 && Fib(13) == 233;
    assert Fib(24) == 46368 && Fib(25) == 75025;
    assert Fib(36) == 14930352 && Fib(37) == 24157817;
  }

  // With a 32-bit total no codeword is longer than 45 bits.
  lemma AtMost45Bits(frequencyTable: seq<nat>, path: seq<bool>)
    requires 1 <= |frequencyTable| <= 256 && NoOverflow(frequencyTable)
    requires IsPath(BuildTree(frequencyTable), path)
    ensures |path| <= 45
  {
    hide BuildTree, Fib, LeafWeight, SymbolLeaves, InnerFits;
    NoOverflowIsEnough(frequencyTable);
    CodeDepthForcesTotal(frequencyTable, path);
    if |path| >= 46 {
      Fib48();
      FibMonotone(48, |path| + 2);
    }
  }
}
