/** Building the tree on the heap: sorted insertion into the work list, and merging until one tree is left. */
module TreeBuilding {
  import opened Sequences
  import opened HuffmanTrees
  import opened Codes
  import opened LinkedLists
  import opened TreeNodes

  // live nodes with the weights of the trees
  ghost predicate Weighted(items: seq<TreeNode>, trees: seq<Tree>)
    reads items`weight, items`live
  {
    |items| == |trees| && forall i :: 0 <= i < |items| ==> items[i].live && items[i].weight == trees[i].weight
  }

  method InsertNodeIntoSortedList(node: TreeNode, nodeList: CircularLinkedList<TreeNode>, ghost trees: seq<Tree>)
    requires nodeList.Valid() && node !in nodeList.repr && (forall m :: m in nodeList.items ==> m !in nodeList.repr)
    requires Weighted(nodeList.items, trees) && node.live
    modifies nodeList.repr
    ensures nodeList.Valid() && fresh(nodeList.repr - old(nodeList.repr))
    ensures nodeList.items == Inserted(old(nodeList.items), Slot(trees, node.weight), node)
  {
    hide Ring, Holds, Slot, Inserted;
    if nodeList.Size() == 0 {
      nodeList.Beginning();
      nodeList.Insert(node);
      SlotIsFirst(trees, node.weight, 0);
      return;
    }
    nodeList.Beginning();
    var counter := 0;
    while true
      invariant nodeList.Valid() && nodeList.items == old(nodeList.items) && nodeList.repr == old(nodeList.repr)
      invariant counter == nodeList.cursor < |trees| && Weighted(nodeList.items, trees)
      invariant forall i :: 0 <= i < counter ==> trees[i].weight < node.weight
      decreases |trees| - counter
    {
      var lightest := nodeList.Peek();
      if lightest.weight < node.weight {
        nodeList.AdvanceWithin();
      } else {
        SlotIsFirst(trees, node.weight, counter);
        nodeList.Insert(node);
        return;
      }
      counter := counter + 1;
      if counter == nodeList.Size() {
        SlotIsFirst(trees, node.weight, counter);
        nodeList.End();
        var _ := nodeList.Add(node);
        return;
      }
    }
  }

  // the work list holds the roots of a forest that is sorted in the order of its list of trees
  ghost predicate WorkList(nodeList: CircularLinkedList<TreeNode>, shapes: seq<Shape>)
    reads nodeList, nodeList.repr, ForestNodes(shapes)
  {
    && nodeList.Valid() && nodeList.items == Roots(shapes)
    && Forest(shapes) && ForestNodes(shapes) !! nodeList.repr
  }

  // a linked tree goes to its place in the forest
  method InsertTree(node: TreeNode, nodeList: CircularLinkedList<TreeNode>, ghost shapes: seq<Shape>, ghost s: Shape)
    returns (ghost grown: seq<Shape>)
    requires WorkList(nodeList, shapes) && Linked(s) && node == s.n
    requires Nodes(s) !! ForestNodes(shapes) && Nodes(s) !! nodeList.repr
    modifies nodeList.repr
    ensures WorkList(nodeList, grown) && fresh(nodeList.repr - old(nodeList.repr))
    ensures Erased(grown) == InsertSorted(Erased(shapes), Erase(s))
    ensures ForestNodes(grown) == ForestNodes(shapes) + Nodes(s) && ForestTips(grown) == ForestTips(shapes) + Tips(s)
  {
    hide Ring, Holds, Nodes, ForestNodes, Tips, ForestTips, Slot, Inserted, InsertSorted, Forest;
    ghost var trees := Erased(shapes);
    RootWeights(shapes);
    RootsInside(shapes);
    WeightOf(s);
    ghost var k := Slot(trees, node.weight);
    grown := Inserted(shapes, k, s);
    ForestInsert(shapes, k, s);
    ForestWith(shapes, k, s);
    NodesAllocated(s);
    ForestAllocated(shapes);
    InsertNodeIntoSortedList(node, nodeList, trees);
    ErasedInsert(shapes, k, s);
    InsertSortedIsInsertAt(trees, Erase(s));
  }

  lemma RootWeights(shapes: seq<Shape>)
    requires Forest(shapes)
    ensures Weighted(Roots(shapes), Erased(shapes))
  {
  }

  lemma WeightOf(s: Shape)
    requires Linked(s)
    ensures s.n.live && s.n.weight == Erase(s).weight
  {
  }

  lemma RootsInside(shapes: seq<Shape>)
    ensures forall m :: m in Roots(shapes) ==> m in ForestNodes(shapes)
  {
    forall i | 0 <= i < |shapes|
      ensures Roots(shapes)[i] in ForestNodes(shapes)
    {
      assert shapes[i].n in Nodes(shapes[i]);
    }
  }

  // the new node over the two lightest trees
  method Join(lesser: TreeNode, greater: TreeNode, ghost a: Shape, ghost b: Shape)
    returns (node: TreeNode, ghost s: Shape)
    requires Linked(a) && Linked(b) && lesser == a.n && greater == b.n && Nodes(a) !! Nodes(b)
    modifies lesser`parent, greater`parent
    ensures fresh(node) && s.n == node && Linked(s) && Erase(s) == Merge(Erase(a), Erase(b))
    ensures Nodes(s) == {node} + Nodes(a) + Nodes(b) && Tips(s) == Tips(a) + Tips(b) && s.Fork?
  {
    hide Linked, Nodes, Tips, Erase;
    WeightOf(a);
    WeightOf(b);
    NodesAllocated(a);
    NodesAllocated(b);
    node := new TreeNode();
    node.left := lesser;
    node.right := greater;
    node.weight := (lesser.weight + greater.weight) % WORD;
    lesser.parent := node;
    greater.parent := node;
    s := Fork(node, a, b, node.weight);
    Joined(s);
  }

  lemma Joined(s: Shape)
    requires s.Fork? && Linked(s.l) && Linked(s.r) && Nodes(s.l) !! Nodes(s.r)
    requires s.n !in Nodes(s.l) && s.n !in Nodes(s.r) && s.l.n.parent == s.n && s.r.n.parent == s.n
    requires s.n.live && s.n.left == s.l.n && s.n.right == s.r.n && s.n.weight == s.weight
    ensures Linked(s) && Erase(s) == Node(Erase(s.l), Erase(s.r), s.weight)
    ensures Nodes(s) == {s.n} + Nodes(s.l) + Nodes(s.r) && Tips(s) == Tips(s.l) + Tips(s.r)
  {
  }

  method NewLeaf(value: nat, frequency: nat) returns (node: TreeNode)
    ensures fresh(node)
    ensures Linked(Tip(node, value, if frequency == 0 then 1 else frequency))
  {
    node := new TreeNode();
    node.left := null;
    node.right := null;
    node.value := value;
    node.weight := frequency;
    if node.weight == 0 {
      node.weight := 1;
    }
  }

  // leaves[c] is the leaf of symbol c in the forest, for the first k symbols
  ghost predicate Listed(leaves: seq<TreeNode?>, k: nat, frequencyTable: seq<nat>, shapes: seq<Shape>) {
    && k <= |leaves| && k <= |frequencyTable| <= 256
    && forall c {:trigger leaves[c]} :: 0 <= c < k ==>
         leaves[c] != null && Tip(leaves[c], c, LeafFor(frequencyTable, c).weight) in ForestTips(shapes)
  }

  lemma ListedNext(leaves: seq<TreeNode?>, k: nat, frequencyTable: seq<nat>, shapes: seq<Shape>, grown: seq<Shape>,
                   leaf: TreeNode)
    requires Listed(leaves, k, frequencyTable, shapes) && k < |leaves| && k < |frequencyTable|
    requires ForestTips(grown) == ForestTips(shapes) + Tips(Tip(leaf, k, LeafFor(frequencyTable, k).weight))
    ensures Listed(leaves[k := leaf], k + 1, frequencyTable, grown)
  {
    hide ForestTips;
  }

  method PlantLeaf(value: nat, frequencyTable: array<nat>, leafList: array<TreeNode?>,
                   nodeList: CircularLinkedList<TreeNode>, ghost shapes: seq<Shape>) returns (ghost grown: seq<Shape>)
    requires value < frequencyTable.Length == 256 == leafList.Length && leafList !in nodeList.repr &&
             frequencyTable !in nodeList.repr
    requires WorkList(nodeList, shapes) && Listed(leafList[..], value, frequencyTable[..], shapes)
    modifies nodeList.repr, leafList
    ensures WorkList(nodeList, grown) && fresh(nodeList.repr - old(nodeList.repr)) &&
            frequencyTable[..] == old(frequencyTable[..])
    ensures Erased(grown) == InsertSorted(Erased(shapes), LeafFor(frequencyTable[..], value))
    ensures Listed(leafList[..], value + 1, frequencyTable[..], grown)
    ensures fresh(ForestNodes(grown) - ForestNodes(shapes))
  {
    hide Ring, Holds, ForestNodes, ForestTips, Forest, InsertSorted, Listed, Erased;
    NothingElse(nodeList, shapes);
    var node := NewLeaf(value, frequencyTable[value]);
    ghost var leaf := Tip(node, value, LeafFor(frequencyTable[..], value).weight);
    grown := InsertTree(node, nodeList, shapes, leaf);
    ListedNext(leafList[..], value, frequencyTable[..], shapes, grown, node);
    leafList[value] := node;
  }

  lemma NothingElse(nodeList: CircularLinkedList<TreeNode>, shapes: seq<Shape>)
    ensures (forall m :: m in ForestNodes(shapes) ==> allocated(m)) && (forall m :: m in nodeList.repr ==> allocated(m))
  {
    ForestAllocated(shapes);
  }

  // one leaf for every symbol, in the order of the symbols
  method PlantLeaves(frequencyTable: array<nat>, leafList: array<TreeNode?>, nodeList: CircularLinkedList<TreeNode>)
    returns (ghost shapes: seq<Shape>)
    requires frequencyTable.Length == 256 == leafList.Length && leafList !in nodeList.repr &&
             frequencyTable !in nodeList.repr
    requires nodeList.Valid() && nodeList.items == []
    modifies nodeList.repr, leafList
    ensures WorkList(nodeList, shapes) && frequencyTable[..] == old(frequencyTable[..])
    ensures Erased(shapes) == InitialList(frequencyTable[..], 256)
    ensures Listed(leafList[..], 256, frequencyTable[..], shapes)
    ensures fresh(ForestNodes(shapes)) && fresh(nodeList.repr - old(nodeList.repr))
  {
    hide Ring, Holds, InsertSorted, Listed, Erased, WorkList;
    shapes := [];
    EmptyList(nodeList, leafList[..], frequencyTable[..]);
    for counter := 0 to 256
      invariant WorkList(nodeList, shapes) && frequencyTable[..] == old(frequencyTable[..])
      invariant Erased(shapes) == InitialList(frequencyTable[..], counter)
      invariant Listed(leafList[..], counter, frequencyTable[..], shapes)
      invariant fresh(ForestNodes(shapes)) && fresh(nodeList.repr - old(nodeList.repr))
      invariant leafList !in nodeList.repr && frequencyTable !in nodeList.repr
    {
      shapes := PlantLeaf(counter, frequencyTable, leafList, nodeList, shapes);
    }
  }

  lemma EmptyList(nodeList: CircularLinkedList<TreeNode>, leaves: seq<TreeNode?>, frequencyTable: seq<nat>)
    requires nodeList.Valid() && nodeList.items == [] && |frequencyTable| <= 256
    ensures WorkList(nodeList, []) && Erased([]) == [] && Listed(leaves, 0, frequencyTable, [])
    ensures ForestNodes([]) == {}
  {
  }

  // the lightest two trees are taken off the list and joined; alone when nothing else is left
  method TakeTwo(nodeList: CircularLinkedList<TreeNode>, ghost shapes: seq<Shape>)
    returns (lesser: TreeNode, greater: TreeNode)
    requires WorkList(nodeList, shapes) && |shapes| >= 2
    modifies nodeList.repr
    ensures lesser == shapes[0].n && greater == shapes[1].n
    ensures WorkList(nodeList, shapes[2..]) && nodeList.repr == old(nodeList.repr)
  {
    hide Ring, Holds, Forest, ForestNodes, Roots;
    ErasedRest(shapes);
    ForestRest(shapes);
    ForestAllocated(shapes);
    assert Removed(Removed(nodeList.items, 0), 0) == nodeList.items[2..];
    nodeList.Beginning();
    lesser := nodeList.Pop();
    greater := nodeList.Pop();
  }

  // one round: the two lightest trees become the branches of a new node
  method MergeTwo(nodeList: CircularLinkedList<TreeNode>, ghost shapes: seq<Shape>)
    returns (node: TreeNode, ghost s: Shape)
    requires WorkList(nodeList, shapes) && |shapes| >= 2
    modifies nodeList.repr, ForestNodes(shapes)`parent
    ensures WorkList(nodeList, shapes[2..]) && nodeList.repr == old(nodeList.repr)
    ensures fresh(node) && Linked(s) && s.Fork? && s.n == node
    ensures Erase(s) == Merge(Erased(shapes)[0], Erased(shapes)[1]) && Erased(shapes[2..]) == Erased(shapes)[2..]
    ensures ForestNodes(shapes[2..]) + Nodes(s) == ForestNodes(shapes) + {node} && Nodes(s) !! ForestNodes(shapes[2..])
    ensures Nodes(s) !! nodeList.repr && ForestTips(shapes[2..]) + Tips(s) == ForestTips(shapes)
  {
    hide WorkList, Forest, Linked, Nodes, Tips, ForestNodes, ForestTips, Erased;
    Parts(nodeList, shapes);
    NothingElse(nodeList, shapes);
    var lesser, greater := TakeTwo(nodeList, shapes);
    node, s := Join(lesser, greater, shapes[0], shapes[1]);
  }

  lemma Parts(nodeList: CircularLinkedList<TreeNode>, shapes: seq<Shape>)
    requires WorkList(nodeList, shapes) && |shapes| >= 2
    ensures Linked(shapes[0]) && Linked(shapes[1]) && Nodes(shapes[0]) !! Nodes(shapes[1])
    ensures ForestNodes(shapes) == Nodes(shapes[0]) + Nodes(shapes[1]) + ForestNodes(shapes[2..])
    ensures ForestTips(shapes) == Tips(shapes[0]) + Tips(shapes[1]) + ForestTips(shapes[2..])
    ensures ForestNodes(shapes[2..]) !! Nodes(shapes[0]) + Nodes(shapes[1])
    ensures ForestNodes(shapes) !! nodeList.repr && nodeList.Valid() && |nodeList.items| == |shapes|
    ensures Erased(shapes)[2..] == Erased(shapes[2..])
    ensures Erased(shapes)[0] == Erase(shapes[0]) && Erased(shapes)[1] == Erase(shapes[1])
  {
    hide Forest, Linked, Nodes, Tips, ForestNodes, ForestTips, Erased, Ring, Holds;
    ForestRest(shapes);
    ErasedRest(shapes);
  }

  // merges until one tree is left, which then stands in nobody's list
  method MergeTrees(nodeList: CircularLinkedList<TreeNode>, ghost shapes: seq<Shape>)
    returns (root: TreeNode, ghost s: Shape)
    requires WorkList(nodeList, shapes) && |shapes| >= 2
    modifies nodeList.repr, ForestNodes(shapes)`parent
    ensures Linked(s) && s.Fork? && s.n == root && root.parent == null
    ensures Erase(s) == MergeAll(Erased(shapes))
    ensures Tips(s) == ForestTips(shapes)
    ensures forall m :: m in Nodes(s) ==> m in ForestNodes(shapes) || fresh(m)
  {
    hide WorkList, InsertSorted, MergeAll, Erased, Linked, Nodes, Tips, ForestNodes, ForestTips, Erase, Merge;
    ghost var forest := shapes;
    while true
      invariant WorkList(nodeList, forest) && |forest| >= 2
      invariant MergeAll(Erased(forest)) == MergeAll(Erased(shapes))
      invariant ForestTips(forest) == ForestTips(shapes)
      invariant fresh(ForestNodes(forest) - ForestNodes(shapes)) && fresh(nodeList.repr - old(nodeList.repr))
      decreases |forest|
    {
      root, s := MergeTwo(nodeList, forest);
      NextRound(Erased(forest));
      if |Erased(forest)| == 2 {
        LastMerge(Erased(forest));
      }
      ListSize(nodeList, forest[2..]);
      if nodeList.Size() == 0 {
        root.parent := null;
        return;
      }
      forest := InsertTree(root, nodeList, forest[2..], s);
      assert |forest| == |Erased(forest)|;
    }
  }

  lemma ListSize(nodeList: CircularLinkedList<TreeNode>, shapes: seq<Shape>)
    requires WorkList(nodeList, shapes)
    ensures nodeList.Size() == |shapes|
    ensures shapes == [] ==> ForestTips(shapes) == {} && ForestNodes(shapes) == {}
  {
  }
}
