/** The encoding table: codewords read off the tree from the leaves up. */
module CodeTables {
  import opened Bytes
  import opened BitStreams
  import opened HuffmanTrees
  import opened Codes
  import opened DepthBound
  import opened TreeNodes

  datatype CharacterEncoding = CharacterEncoding(encoding: seq<byte>, bitLength: nat)

  // the codeword in the first bits, left aligned and followed by zeros
  predicate EntryFor(e: CharacterEncoding, code: seq<bool>) {
    e.bitLength == |code| && e.encoding == Pack(code)
  }

  ghost predicate TableUpTo(table: seq<CharacterEncoding>, t: Tree, n: nat)
    requires n <= |table|
  {
    forall c: nat {:trigger table[c]} :: c < n ==> c in LeafValues(t) && EntryFor(table[c], Code(t, c))
  }

  ghost predicate TableFor(table: seq<CharacterEncoding>, t: Tree) {
    |table| == 256 && TableUpTo(table, t, 256)
  }

  // from the leaf to the root, noting on which side of its parent each node is: the path in reverse
  method WalkUp(leaf: TreeNode, root: TreeNode, tempPath: array<bool>, ghost s: Shape, ghost path: seq<bool>)
    returns (tempPathLength: nat)
    requires Linked(s) && root == s.n && IsPath(Erase(s), path) && leaf == ShapeAt(s, path).n
    requires 0 < |path| <= tempPath.Length
    modifies tempPath
    ensures tempPathLength == |path|
    ensures forall j {:trigger tempPath[j]} :: 0 <= j < |path| ==> tempPath[j] == path[|path| - 1 - j]
  {
    hide Linked, Erase, ShapeAt, IsPath, At;
    NodesAllocated(s);
    tempPathLength := 0;
    var currentNode: TreeNode := leaf;
    assert path[..|path|] == path;
    while true
      invariant tempPathLength < |path|
      invariant Ancestor(s, path, |path| - tempPathLength, currentNode)
      invariant forall j {:trigger tempPath[j]} :: 0 <= j < tempPathLength ==> tempPath[j] == path[|path| - 1 - j]
      decreases |path| - tempPathLength
    {
      OneUp(s, path, |path| - tempPathLength, currentNode);
      tempPath[tempPathLength] := currentNode.parent.left != currentNode;
      tempPathLength := tempPathLength + 1;
      currentNode := currentNode.parent;
      if currentNode == root {
        return;
      }
    }
  }

  ghost predicate Ancestor(s: Shape, path: seq<bool>, k: nat, node: TreeNode) {
    k <= |path| && IsPath(Erase(s), path[..k]) && node == ShapeAt(s, path[..k]).n
  }

  lemma OneUp(s: Shape, path: seq<bool>, k: nat, node: TreeNode)
    requires Linked(s) && IsPath(Erase(s), path) && 0 < k <= |path| && Ancestor(s, path, k, node)
    ensures node.parent != null && Ancestor(s, path, k - 1, node.parent)
    ensures node.parent.left != node <==> path[k - 1]
    ensures node.parent == s.n <==> k == 1
  {
    hide Linked, Erase, ShapeAt, IsPath, At;
    PrefixIsPath(Erase(s), path, k - 1);
    assert path[..k] == path[..k - 1] + [path[k - 1]];
    ParentAt(s, path[..k - 1], path[k - 1]);
    LinkedBelow(s, path[..k - 1]);
  }

  // the bits from the root down
  method WriteDown(bitStream: BitStream, tempPath: array<bool>, length: nat, ghost path: seq<bool>)
    requires bitStream.Valid() && bitStream.Bits() == []
    requires length == |path| <= tempPath.Length && tempPath !in bitStream.Footprint()
    requires forall j {:trigger tempPath[j]} :: 0 <= j < |path| ==> tempPath[j] == path[|path| - 1 - j]
    modifies bitStream.Footprint()
    ensures bitStream.Valid() && fresh(bitStream.Footprint() - old(bitStream.Footprint())) && bitStream.Bits() == path
  {
    hide TakeBits, ZeroFrom;
    var tempPathLength := length;
    while tempPathLength > 0
      invariant 0 <= tempPathLength <= length && tempPath !in bitStream.Footprint()
      invariant bitStream.Valid() && fresh(bitStream.Footprint() - old(bitStream.Footprint()))
      invariant forall j {:trigger tempPath[j]} :: 0 <= j < |path| ==> tempPath[j] == path[|path| - 1 - j]
      invariant bitStream.Bits() == path[..|path| - tempPathLength]
    {
      tempPathLength := tempPathLength - 1;
      assert path[..|path| - tempPathLength] == path[..|path| - tempPathLength - 1] +
        [path[|path| - tempPathLength - 1]];
      if tempPath[tempPathLength] {
        bitStream.Write1();
      } else {
        bitStream.Write0();
      }
    }
    assert path[..|path|] == path;
  }

  // the length is cut to an unsigned char
  method ExtractCode(leaf: TreeNode, root: TreeNode, tempPath: array<bool>, bitStream: BitStream, ghost s: Shape,
                     ghost path: seq<bool>)
    returns (entry: CharacterEncoding)
    requires Linked(s) && root == s.n && IsPath(Erase(s), path) && leaf == ShapeAt(s, path).n && 0 < |path| < 256
    requires tempPath.Length == 256 && bitStream.Valid() && bitStream.Bits() == [] && tempPath !in bitStream.Footprint()
    modifies tempPath, bitStream.Footprint()
    ensures EntryFor(entry, path)
    ensures bitStream.Valid() && bitStream.Bits() == [] && fresh(bitStream.Footprint() - old(bitStream.Footprint()))
    ensures tempPath !in bitStream.Footprint()
  {
    hide Linked, Erase, ShapeAt, IsPath, At, TakeBits, ZeroFrom, Pack;
    var tempPathLength := WalkUp(leaf, root, tempPath, s, path);
    WriteDown(bitStream, tempPath, tempPathLength, path);
    var encoding, bitLength := bitStream.CopyData();
    entry := CharacterEncoding(encoding[..], bitLength % 256);
    bitStream.Reset();
  }

  // reads every codeword off the tree
  method FillTable(table: array<CharacterEncoding>, leafList: array<TreeNode?>, root: TreeNode, ghost s: Shape)
    requires table.Length == 256 == leafList.Length && Linked(s) && root == s.n
    requires Alphabet(Erase(s)) && |LeafValues(Erase(s))| == 256
    requires LeafList(s, leafList[..])
    modifies table
    ensures TableFor(table[..], Erase(s))
  {
    hide Linked, Erase, ShapeAt, IsPath, At, Code, LeafValues, TakeBits, ZeroFrom, Unambiguous, EntryFor;
    NodesAllocated(s);
    var tempPath := new bool[256];
    var bitStream := new BitStream();
    for counter := 0 to 256
      invariant Linked(s) && bitStream.Valid() && bitStream.Bits() == [] && fresh(bitStream.Footprint()) &&
                tempPath !in bitStream.Footprint()
      invariant TableUpTo(table[..], Erase(s), counter)
    {
      ghost var path := Code(Erase(s), counter);
      CodewordFits(Erase(s), counter);
      assert LeafOf(s, counter, leafList[..][counter]);
      var entry := ExtractCode(leafList[counter], root, tempPath, bitStream, s, path);
      table[counter] := entry;
    }
  }

  // the leaf of every symbol
  ghost predicate LeafList(s: Shape, leaves: seq<TreeNode?>) {
    |leaves| == 256 && forall c: nat {:trigger leaves[c]} :: c < 256 ==> LeafOf(s, c, leaves[c])
  }

  // the node is where the codeword of the symbol leads
  ghost predicate LeafOf(s: Shape, c: nat, node: TreeNode?) {
    c in LeafValues(Erase(s)) && node == ShapeAt(s, Code(Erase(s), c)).n
  }
}
