/** Weighted binary trees, and tree building as a function: sorted insertion and repeated merging
    of the two lightest trees. Weights are 32-bit and are added without a check. */
module HuffmanTrees {
  const WORD: nat := 0x1_0000_0000

  // a leaf carries a symbol, that is the value of an unsigned char
  datatype Tree =
    | Leaf(value: nat, weight: nat)
    | Node(left: Tree, right: Tree, weight: nat)

  function Merge(lesser: Tree, greater: Tree): Tree {
    Node(lesser, greater, (lesser.weight + greater.weight) % WORD)
  }

  // before the first tree that is not lighter, or at the end
  function InsertSorted(list: seq<Tree>, t: Tree): (r: seq<Tree>)
    ensures |r| == |list| + 1
    decreases |list|
  {
    if list == [] then [t]
    else if list[0].weight < t.weight then [list[0]] + InsertSorted(list[1..], t)
    else [t] + list
  }

  // a weight of 0 is raised to 1
  function LeafFor(frequencyTable: seq<nat>, c: nat): Tree
    requires c < |frequencyTable| <= 256
  {
    Leaf(c, if frequencyTable[c] == 0 then 1 else frequencyTable[c])
  }

  function InitialList(frequencyTable: seq<nat>, n: nat): (r: seq<Tree>)
    requires n <= |frequencyTable| <= 256
    ensures |r| == n
  {
    if n == 0 then [] else InsertSorted(InitialList(frequencyTable, n - 1), LeafFor(frequencyTable, n - 1))
  }

  function MergeAll(list: seq<Tree>): Tree
    requires |list| >= 1
    decreases |list|
  {
    if |list| == 1 then list[0] else MergeAll(InsertSorted(list[2..], Merge(list[0], list[1])))
  }

  function BuildTree(frequencyTable: seq<nat>): Tree
    requires 1 <= |frequencyTable| <= 256
  {
    MergeAll(InitialList(frequencyTable, |frequencyTable|))
  }

  ghost predicate AtLeast(list: seq<Tree>, w: nat) {
    forall t :: t in list ==> w <= t.weight
  }

  ghost predicate Sorted(list: seq<Tree>) {
    list != [] ==> AtLeast(list[1..], list[0].weight) && Sorted(list[1..])
  }

  // the leaves of a tree from left to right
  function LeavesOf(t: Tree): (leaves: seq<Tree>)
    ensures |leaves| >= 1
  {
    match t
    case Leaf(_, _) => [t]
    case Node(l, r, _) => LeavesOf(l) + LeavesOf(r)
  }

  function ForestLeaves(list: seq<Tree>): seq<Tree> {
    if list == [] then [] else LeavesOf(list[0]) + ForestLeaves(list[1..])
  }

  function LeafWeight(leaves: seq<Tree>): nat {
    if leaves == [] then 0 else leaves[0].weight + LeafWeight(leaves[1..])
  }

  // the weight of a tree without wrap-around
  function Total(t: Tree): nat {
    match t
    case Leaf(_, w) => w
    case Node(l, r, _) => Total(l) + Total(r)
  }

  function ForestTotal(list: seq<Tree>): nat {
    if list == [] then 0 else Total(list[0]) + ForestTotal(list[1..])
  }

  // every stored weight is the true one modulo the word size
  predicate Consistent(t: Tree) {
    t.weight == Total(t) % WORD && (t.Node? ==> Consistent(t.left) && Consistent(t.right))
  }

  lemma {:induction false} InsertSortedIsSorted(list: seq<Tree>, t: Tree)
    requires Sorted(list)
    ensures Sorted(InsertSorted(list, t))
    decreases |list|
  {
    var r := InsertSorted(list, t);
    if list != [] && list[0].weight < t.weight {
      InsertSortedIsSorted(list[1..], t);
      InsertedMembers(list[1..], t);
      assert r[1..] == InsertSorted(list[1..], t);
    } else {
      assert r[1..] == list;
    }
  }

  lemma {:induction false} InsertedMembers(list: seq<Tree>, t: Tree)
    ensures multiset(InsertSorted(list, t)) == multiset(list) + multiset{t}
    ensures forall x :: x in InsertSorted(list, t) <==> x == t || x in list
    decreases |list|
  {
    if list != [] && list[0].weight < t.weight {
      InsertedMembers(list[1..], t);
      assert list == [list[0]] + list[1..];
    }
    assert forall x :: x in InsertSorted(list, t) <==> x in multiset(InsertSorted(list, t));
  }

  // Insertion moves the leaves and the total of the forest nowhere: nothing is lost or doubled.
  lemma {:induction false} InsertedLeaves(list: seq<Tree>, t: Tree)
    ensures multiset(ForestLeaves(InsertSorted(list, t))) == multiset(ForestLeaves(list)) + multiset(LeavesOf(t))
    ensures ForestTotal(InsertSorted(list, t)) == ForestTotal(list) + Total(t)
    decreases |list|
  {
    var r := InsertSorted(list, t);
    if list != [] && list[0].weight < t.weight {
      InsertedLeaves(list[1..], t);
      assert r[1..] == InsertSorted(list[1..], t);
    } else {
      assert r[1..] == list;
    }
  }

  // A merging round leaves the work list sorted.
  lemma MergingKeepsOrder(list: seq<Tree>)
    requires |list| >= 2 && Sorted(list)
    ensures Sorted(InsertSorted(list[2..], Merge(list[0], list[1])))
  {
    hide InsertSorted, Merge;
    assert list[1..][1..] == list[2..];
    InsertSortedIsSorted(list[2..], Merge(list[0], list[1]));
  }

  lemma InsertedConsistent(list: seq<Tree>, t: Tree)
    requires Consistent(t) && forall x :: x in list ==> Consistent(x)
    ensures forall x :: x in InsertSorted(list, t) ==> Consistent(x)
  {
    InsertedMembers(list, t);
  }

  // Merging conserves the leaves, the total, the order of the work list and the meaning of weights.
  lemma {:induction false} MergeAllKeeps(list: seq<Tree>)
    requires |list| >= 1
    ensures multiset(LeavesOf(MergeAll(list))) == multiset(ForestLeaves(list))
    ensures Total(MergeAll(list)) == ForestTotal(list)
    decreases |list|
  {
    hide InsertSorted, LeavesOf, ForestLeaves, Total, ForestTotal, Merge;
    if |list| == 1 {
      SingleTree(list);
    } else {
      var merged := Merge(list[0], list[1]);
      MergeAllKeeps(InsertSorted(list[2..], merged));
      InsertedLeaves(list[2..], merged);
      FirstTwo(list);
    }
  }

  lemma SingleTree(list: seq<Tree>)
    requires |list| == 1
    ensures multiset(ForestLeaves(list)) == multiset(LeavesOf(list[0])) && ForestTotal(list) == Total(list[0])
  {
    assert list[1..] == [];
    assert LeavesOf(list[0]) + [] == LeavesOf(list[0]);
  }

  lemma FirstTwo(list: seq<Tree>)
    requires |list| >= 2
    ensures multiset(ForestLeaves(list)) == multiset(ForestLeaves(list[2..])) +
            multiset(LeavesOf(Merge(list[0], list[1])))
    ensures ForestTotal(list) == ForestTotal(list[2..]) + Total(Merge(list[0], list[1]))
  {
    assert list[1..][1..] == list[2..];
    var x, y, z := LeavesOf(list[0]), LeavesOf(list[1]), ForestLeaves(list[2..]);
    assert ForestLeaves(list) == x + (y + z);
  }

  lemma NextRound(list: seq<Tree>)
    requires |list| >= 2
    ensures MergeAll(list) == MergeAll(InsertSorted(list[2..], Merge(list[0], list[1])))
  {
  }

  lemma LastMerge(list: seq<Tree>)
    requires |list| == 2
    ensures MergeAll(list) == Merge(list[0], list[1])
    ensures MergeAll(list).Node? && MergeAll(list).left == list[0] && MergeAll(list).right == list[1]
  {
    assert list[2..] == [];
  }

  lemma {:induction false} MergeAllConsistent(list: seq<Tree>)
    requires |list| >= 1 && forall x :: x in list ==> Consistent(x)
    ensures Consistent(MergeAll(list))
    decreases |list|
  {
    if |list| > 1 {
      var merged := Merge(list[0], list[1]);
      assert Consistent(list[0]) && Consistent(list[1]);
      MergedConsistent(list[0], list[1]);
      InsertedConsistent(list[2..], merged);
      MergeAllConsistent(InsertSorted(list[2..], merged));
    }
  }

  lemma WrappedSum(x: nat, y: nat)
    ensures (x % WORD + y % WORD) % WORD == (x + y) % WORD
  {
    var q, r := x / WORD + y / WORD, x % WORD + y % WORD;
    assert x + y == q * WORD + r;
  }

  lemma MergedConsistent(a: Tree, b: Tree)
    requires Consistent(a) && Consistent(b)
    ensures Consistent(Merge(a, b))
  {
    WrappedSum(Total(a), Total(b));
  }

  // the leaves tree building starts from, by symbol
  function SymbolLeaves(frequencyTable: seq<nat>, n: nat): (leaves: seq<Tree>)
    requires n <= |frequencyTable| <= 256
    ensures |leaves| == n
  {
    seq(n, c requires 0 <= c < n => LeafFor(frequencyTable, c))
  }

  lemma SymbolLeavesStep(frequencyTable: seq<nat>, n: nat)
    requires 0 < n <= |frequencyTable| <= 256
    ensures SymbolLeaves(frequencyTable, n) == SymbolLeaves(frequencyTable, n - 1) + [LeafFor(frequencyTable, n - 1)]
  {
  }

  lemma InitialListStep(frequencyTable: seq<nat>, n: nat)
    requires 0 < n <= |frequencyTable| <= 256
    ensures InitialList(frequencyTable, n) ==
            InsertSorted(InitialList(frequencyTable, n - 1), LeafFor(frequencyTable, n - 1))
  {
  }

  lemma InitialListEmpty(frequencyTable: seq<nat>)
    requires |frequencyTable| <= 256
    ensures Sorted(InitialList(frequencyTable, 0)) && InitialList(frequencyTable, 0) == SymbolLeaves(frequencyTable, 0)
  {
  }

  lemma {:induction false} InitialListSorted(frequencyTable: seq<nat>, n: nat)
    requires n <= |frequencyTable| <= 256
    ensures Sorted(InitialList(frequencyTable, n))
    ensures multiset(InitialList(frequencyTable, n)) == multiset(SymbolLeaves(frequencyTable, n))
  {
    if n == 0 {
      InitialListEmpty(frequencyTable);
    } else {
      hide InsertSorted, Sorted, LeafFor, SymbolLeaves, InitialList;
      InitialListStep(frequencyTable, n);
      InitialListSorted(frequencyTable, n - 1);
      SymbolLeavesStep(frequencyTable, n);
      InsertSortedIsSorted(InitialList(frequencyTable, n - 1), LeafFor(frequencyTable, n - 1));
      InsertedMembers(InitialList(frequencyTable, n - 1), LeafFor(frequencyTable, n - 1));
    }
  }

  // The initial list ascends by weight, and among equal weights the later symbol comes first.
  lemma {:induction false} InitialListOrder(frequencyTable: seq<nat>, n: nat)
    requires n <= |frequencyTable| <= 256
    ensures var list := InitialList(frequencyTable, n);
            && (forall i :: 0 <= i < |list| ==> list[i].Leaf? && list[i].value < n)
            && (forall i, j :: 0 <= i < j < |list| ==>
                  list[i].weight < list[j].weight ||
                  (list[i].weight == list[j].weight && list[i].value > list[j].value))
  {
    if n > 0 {
      hide InsertSorted, InitialList;
      InitialListStep(frequencyTable, n);
      InitialListOrder(frequencyTable, n - 1);
      InsertedBehind(InitialList(frequencyTable, n - 1), LeafFor(frequencyTable, n - 1));
    }
  }

  lemma {:induction false} InsertedBehind(list: seq<Tree>, t: Tree)
    requires t.Leaf? && forall i :: 0 <= i < |list| ==> list[i].Leaf? && list[i].value < t.value
    requires forall i, j :: 0 <= i < j < |list| ==>
               list[i].weight < list[j].weight ||
               (list[i].weight == list[j].weight && list[i].value > list[j].value)
    ensures var r := InsertSorted(list, t);
            && (forall i :: 0 <= i < |r| ==> r[i].Leaf? && r[i].value <= t.value)
            && (forall i, j :: 0 <= i < j < |r| ==>
                  r[i].weight < r[j].weight || (r[i].weight == r[j].weight && r[i].value > r[j].value))
    decreases |list|
  {
    if list != [] && list[0].weight < t.weight {
      InsertedBehind(list[1..], t);
      InsertedMembers(list[1..], t);
      var r := InsertSorted(list[1..], t);
      assert InsertSorted(list, t) == [list[0]] + r;
      forall i | 0 <= i < |r|
        ensures r[i] == t || r[i] in list[1..]
      {
        assert r[i] in r;
      }
    }
  }

  lemma {:induction false} InitialListLeaves(frequencyTable: seq<nat>, n: nat)
    requires n <= |frequencyTable| <= 256
    ensures multiset(ForestLeaves(InitialList(frequencyTable, n))) == multiset(SymbolLeaves(frequencyTable, n))
    ensures ForestTotal(InitialList(frequencyTable, n)) == LeafWeight(SymbolLeaves(frequencyTable, n))
  {
    if n == 0 {
    } else {
      var list, leaf, before := InitialList(frequencyTable, n - 1), LeafFor(frequencyTable, n - 1),
        SymbolLeaves(frequencyTable, n - 1);
      InitialListLeaves(frequencyTable, n - 1);
      InsertedLeaves(list, leaf);
      SymbolLeavesStep(frequencyTable, n);
      LeafWeightAppend(before, leaf);
      assert LeavesOf(leaf) == [leaf];
      assert multiset(before + [leaf]) == multiset(before) + multiset{leaf};
    }
  }

  lemma {:induction false} LeafWeightAppend(leaves: seq<Tree>, leaf: Tree)
    ensures LeafWeight(leaves + [leaf]) == LeafWeight(leaves) + leaf.weight
    decreases |leaves|
  {
    if leaves != [] {
      LeafWeightAppend(leaves[1..], leaf);
      assert (leaves + [leaf])[1..] == leaves[1..] + [leaf];
    }
  }

  // The tree has exactly one leaf for every symbol, with its weight raised from 0 to 1, and its true
  // total is the sum of those weights. This needs no bound on the frequencies.
  lemma BuildTreeKeeps(frequencyTable: seq<nat>)
    requires 1 <= |frequencyTable| <= 256
    ensures multiset(LeavesOf(BuildTree(frequencyTable))) == multiset(SymbolLeaves(frequencyTable, |frequencyTable|))
    ensures Total(BuildTree(frequencyTable)) == LeafWeight(SymbolLeaves(frequencyTable, |frequencyTable|))
  {
    InitialListLeaves(frequencyTable, |frequencyTable|);
    MergeAllKeeps(InitialList(frequencyTable, |frequencyTable|));
  }
}
