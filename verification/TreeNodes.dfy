/** The heap nodes of the tree, and the sorted work list of node pointers. */
module TreeNodes {
  import opened Sequences
  import opened HuffmanTrees
  import opened Codes
  import opened DepthBound
  import opened LinkedLists

  // Only what tree building assigns is meaningful: an inner node has no value, and a tree that is not
  // yet part of a larger one has no parent.
  class TreeNode {
    var value: nat
    var weight: nat
    var left: TreeNode?
    var right: TreeNode?
    var parent: TreeNode?
    // allocated and not yet deleted
    ghost var live: bool

    constructor ()
      ensures live
    {
      live := true;
    }

    // delete
    method Delete()
      requires live
      modifies this`live
      ensures !live
    {
      live := false;
    }
  }

  // which nodes stand where
  datatype Shape =
    | Tip(n: TreeNode, value: nat, weight: nat)
    | Fork(n: TreeNode, l: Shape, r: Shape, weight: nat)

  function Erase(s: Shape): Tree {
    match s
    case Tip(_, value, weight) => Leaf(value, weight)
    case Fork(_, l, r, weight) => Node(Erase(l), Erase(r), weight)
  }

  ghost function Nodes(s: Shape): (nodes: set<TreeNode>)
    ensures s.n in nodes
  {
    match s
    case Tip(n, _, _) => {n}
    case Fork(n, l, r, _) => {n} + Nodes(l) + Nodes(r)
  }

  lemma {:induction false} NodesAllocated(s: Shape)
    ensures forall m :: m in Nodes(s) ==> allocated(m)
  {
    if s.Fork? {
      NodesAllocated(s.l);
      NodesAllocated(s.r);
    }
  }

  // the heap agrees with the shape; every node is live, none is shared, and the parent of the root is left open
  ghost predicate Linked(s: Shape)
    reads Nodes(s)`live, Nodes(s)`value, Nodes(s)`weight, Nodes(s)`left, Nodes(s)`right, (Nodes(s) - {s.n})`parent
  {
    match s
    case Tip(n, value, weight) =>
      n.live && n.left == null && n.right == null && n.value == value && n.weight == weight
    case Fork(n, l, r, weight) =>
      && n.live && n.left == l.n && n.right == r.n && n.weight == weight
      && n !in Nodes(l) && n !in Nodes(r) && Nodes(l) !! Nodes(r)
      && l.n.parent == n && r.n.parent == n
      && Linked(l) && Linked(r)
  }

  ghost function Tips(s: Shape): set<Shape> {
    match s
    case Tip(_, _, _) => {s}
    case Fork(_, l, r, _) => Tips(l) + Tips(r)
  }

  function ShapeAt(s: Shape, path: seq<bool>): (t: Shape)
    requires IsPath(Erase(s), path)
    ensures Erase(t) == At(Erase(s), path)
    decreases |path|
  {
    if path == [] then s else ShapeAt(if path[0] then s.r else s.l, path[1..])
  }

  lemma {:induction false} TipHasValue(s: Shape, tip: Shape)
    requires tip in Tips(s)
    ensures tip.Tip? && tip.value in LeafValues(Erase(s)) && tip.n in Nodes(s)
  {
    if s.Fork? {
      if tip in Tips(s.l) {
        TipHasValue(s.l, tip);
      } else {
        TipHasValue(s.r, tip);
      }
    }
  }

  // the codeword of a symbol leads to the node of its leaf
  lemma {:induction false} CodeLeadsToTip(s: Shape, tip: Shape)
    requires tip in Tips(s) && Unambiguous(Erase(s)) && tip.Tip? && tip.value in LeafValues(Erase(s))
    ensures ShapeAt(s, Code(Erase(s), tip.value)) == tip
  {
    if s.Fork? {
      var code := Code(Erase(s), tip.value);
      if tip in Tips(s.l) {
        TipHasValue(s.l, tip);
        CodeLeadsToTip(s.l, tip);
        assert code[1..] == Code(Erase(s.l), tip.value);
      } else {
        TipHasValue(s.r, tip);
        CodeLeadsToTip(s.r, tip);
        assert code[1..] == Code(Erase(s.r), tip.value);
      }
    }
  }

  lemma {:induction false} BelowIsInside(s: Shape, path: seq<bool>)
    requires IsPath(Erase(s), path)
    ensures ShapeAt(s, path).n in Nodes(s)
    decreases |path|
  {
    if path != [] {
      BelowIsInside(if path[0] then s.r else s.l, path[1..]);
    }
  }

  lemma {:induction false} LinkedBelow(s: Shape, path: seq<bool>)
    requires Linked(s) && IsPath(Erase(s), path)
    ensures Linked(ShapeAt(s, path))
    ensures ShapeAt(s, path).n == s.n <==> path == []
    decreases |path|
  {
    if path != [] {
      var below := if path[0] then s.r else s.l;
      BelowIsInside(below, path[1..]);
      LinkedBelow(below, path[1..]);
    }
  }

  // what the walk up sees: the parent of a node, and on which side of it the node is
  lemma {:induction false} ParentAt(s: Shape, path: seq<bool>, bit: bool)
    requires Linked(s) && IsPath(Erase(s), path + [bit]) && IsPath(Erase(s), path)
    ensures var above, below := ShapeAt(s, path), ShapeAt(s, path + [bit]);
            above.Fork? && below.n.parent == above.n && (above.n.left == below.n <==> !bit)
    decreases |path|
  {
    if path == [] {
      assert path + [bit] == [bit];
      assert [bit][1..] == [];
    } else {
      assert (path + [bit])[1..] == path[1..] + [bit];
      ParentAt(if path[0] then s.r else s.l, path[1..], bit);
    }
  }

  lemma {:induction false} PrefixIsPath(t: Tree, path: seq<bool>, k: nat)
    requires IsPath(t, path) && k <= |path|
    ensures IsPath(t, path[..k])
    decreases |path|
  {
    if k > 0 {
      assert path[..k][1..] == path[1..][..k - 1];
      PrefixIsPath(Branch(t, path[0]), path[1..], k - 1);
    }
  }

  // the trees of a work list
  function Erased(shapes: seq<Shape>): (trees: seq<Tree>)
    ensures |trees| == |shapes|
  {
    seq(|shapes|, i requires 0 <= i < |shapes| => Erase(shapes[i]))
  }

  ghost function ForestNodes(shapes: seq<Shape>): set<TreeNode> {
    set i, m | 0 <= i < |shapes| && m in Nodes(shapes[i]) :: m
  }

  ghost function ForestTips(shapes: seq<Shape>): set<Shape> {
    set i, tip | 0 <= i < |shapes| && tip in Tips(shapes[i]) :: tip
  }

  lemma ForestAllocated(shapes: seq<Shape>)
    ensures forall m :: m in ForestNodes(shapes) ==> allocated(m)
  {
    forall i | 0 <= i < |shapes|
      ensures forall m :: m in Nodes(shapes[i]) ==> allocated(m)
    {
      NodesAllocated(shapes[i]);
    }
  }

  function Roots(shapes: seq<Shape>): (roots: seq<TreeNode>)
    ensures |roots| == |shapes|
  {
    seq(|shapes|, i requires 0 <= i < |shapes| => shapes[i].n)
  }

  // linked trees that share nothing
  ghost predicate Forest(shapes: seq<Shape>)
    reads ForestNodes(shapes)
  {
    && (forall i, j :: 0 <= i < j < |shapes| ==> Nodes(shapes[i]) !! Nodes(shapes[j]))
    && (forall i :: 0 <= i < |shapes| ==> Linked(shapes[i]))
  }

  // the place in the sorted list: after all lighter trees at its front
  function Slot(list: seq<Tree>, weight: nat): (k: nat)
    ensures k <= |list|
    ensures forall i :: 0 <= i < k ==> list[i].weight < weight
    ensures k < |list| ==> weight <= list[k].weight
    decreases |list|
  {
    if list != [] && list[0].weight < weight then 1 + Slot(list[1..], weight) else 0
  }

  lemma {:induction false} SlotIsFirst(list: seq<Tree>, weight: nat, k: nat)
    requires k <= |list| && (forall i :: 0 <= i < k ==> list[i].weight < weight)
    requires k < |list| ==> weight <= list[k].weight
    ensures Slot(list, weight) == k
  {
  }

  lemma InsertFurther<T>(list: seq<T>, k: nat, x: T)
    requires k < |list|
    ensures Inserted(list, k + 1, x) == [list[0]] + Inserted(list[1..], k, x)
  {
    assert list[..k + 1] == [list[0]] + list[1..][..k];
    assert list[1..][k..] == list[k + 1..];
  }

  lemma InsertFirst<T>(list: seq<T>, x: T)
    ensures Inserted(list, 0, x) == [x] + list
    ensures list == [] ==> [x] + list == [x]
  {
  }

  lemma {:induction false} InsertSortedIsInsertAt(list: seq<Tree>, t: Tree)
    ensures InsertSorted(list, t) == Inserted(list, Slot(list, t.weight), t)
    decreases |list|
  {
    hide Inserted;
    if list != [] && list[0].weight < t.weight {
      InsertSortedIsInsertAt(list[1..], t);
      InsertFurther(list, Slot(list[1..], t.weight), t);
    } else {
      InsertFirst(list, t);
    }
  }

  lemma ErasedInsert(shapes: seq<Shape>, k: nat, s: Shape)
    requires k <= |shapes|
    ensures Erased(Inserted(shapes, k, s)) == Inserted(Erased(shapes), k, Erase(s))
    ensures Roots(Inserted(shapes, k, s)) == Inserted(Roots(shapes), k, s.n)
  {
  }

  lemma ErasedRest(shapes: seq<Shape>)
    requires |shapes| >= 2
    ensures Erased(shapes[2..]) == Erased(shapes)[2..]
    ensures Erased(shapes)[0] == Erase(shapes[0]) && Erased(shapes)[1] == Erase(shapes[1])
    ensures Roots(shapes[2..]) == Roots(shapes)[2..]
    ensures Roots(shapes)[0] == shapes[0].n && Roots(shapes)[1] == shapes[1].n
  {
  }

  lemma ForestWith(shapes: seq<Shape>, k: nat, s: Shape)
    requires k <= |shapes|
    ensures ForestNodes(Inserted(shapes, k, s)) == ForestNodes(shapes) + Nodes(s)
    ensures ForestTips(Inserted(shapes, k, s)) == ForestTips(shapes) + Tips(s)
  {
    hide Inserted, Nodes, Tips;
    InsertedAt(shapes, k, s);
    assert Inserted(shapes, k, s)[k] == s;
  }

  lemma ForestInsert(shapes: seq<Shape>, k: nat, s: Shape)
    requires k <= |shapes| && Forest(shapes) && Linked(s) && Nodes(s) !! ForestNodes(shapes)
    ensures Forest(Inserted(shapes, k, s))
  {
    hide Nodes, Linked, Inserted, ForestNodes;
    InsertedAt(shapes, k, s);
    forall i | 0 <= i < |shapes|
      ensures Nodes(shapes[i]) !! Nodes(s)
    {
      MemberNodes(shapes, i);
    }
  }

  lemma MemberNodes(shapes: seq<Shape>, i: nat)
    requires i < |shapes|
    ensures Nodes(shapes[i]) <= ForestNodes(shapes)
  {
  }

  lemma ForestRest(shapes: seq<Shape>)
    requires Forest(shapes) && |shapes| >= 2
    ensures Forest(shapes[2..])
    ensures Linked(shapes[0]) && Linked(shapes[1]) && Nodes(shapes[0]) !! Nodes(shapes[1])
    ensures ForestNodes(shapes) == Nodes(shapes[0]) + Nodes(shapes[1]) + ForestNodes(shapes[2..])
    ensures ForestTips(shapes) == Tips(shapes[0]) + Tips(shapes[1]) + ForestTips(shapes[2..])
    ensures ForestNodes(shapes[2..]) !! Nodes(shapes[0]) + Nodes(shapes[1])
  {
    hide Nodes, Linked, Tips;
    var rest := shapes[2..];
    forall i | 2 <= i < |shapes|
      ensures shapes[i] == rest[i - 2]
    {
    }
  }
}
