/** The coder: a tree on the heap together with its encoding table. */
module HuffmanEncodingTrees {
  import opened Sequences
  import opened Bytes
  import opened Growth
  import opened CompressedInts
  import opened BitStreams
  import opened HuffmanTrees
  import opened Codes
  import opened LinkedLists
  import opened Queues
  import opened TreeNodes
  import opened TreeBuilding
  import opened CodeTables
  import opened TextCoding

  // the trees waiting in the queue once the first has been replaced by its branches
  ghost function NextPending(pending: seq<Shape>): seq<Shape>
    requires pending != []
  {
    pending[1..] + Branches(pending[0])
  }

  ghost function Branches(s: Shape): seq<Shape> {
    if s.Fork? then [s.l, s.r] else []
  }

  // no node is deleted twice
  ghost predicate NoRepeats(deleted: seq<TreeNode>) {
    forall i, j :: 0 <= i < j < |deleted| ==> deleted[i] != deleted[j]
  }

  lemma NothingRepeats()
    ensures NoRepeats([])
  {
  }

  lemma OneMoreNode(deleted: seq<TreeNode>, node: TreeNode)
    requires NoRepeats(deleted) && node !in deleted
    ensures NoRepeats(deleted + [node])
  {
    forall i | 0 <= i < |deleted|
      ensures deleted[i] != node
    {
      assert deleted[i] in deleted;
    }
  }

  lemma ForestTail(pending: seq<Shape>)
    requires pending != [] && Forest(pending)
    ensures Forest(pending[1..]) && Linked(pending[0])
    ensures ForestNodes(pending) == Nodes(pending[0]) + ForestNodes(pending[1..])
    ensures Nodes(pending[0]) !! ForestNodes(pending[1..])
  {
    hide Linked, Nodes;
    var rest := pending[1..];
    forall i | 1 <= i < |pending|
      ensures pending[i] == rest[i - 1]
    {
    }
  }

  lemma FirstTree(pending: seq<Shape>)
    requires pending != [] && Forest(pending)
    ensures Linked(pending[0]) && pending[0].n.live && Nodes(pending[0]) <= ForestNodes(pending)
  {
    hide Linked, Nodes, Forest, ForestNodes;
    ForestTail(pending);
    BranchesLinked(pending[0]);
  }

  lemma ForestAppend(shapes: seq<Shape>, s: Shape)
    requires Forest(shapes) && Linked(s) && Nodes(s) !! ForestNodes(shapes)
    ensures Forest(shapes + [s]) && ForestNodes(shapes + [s]) == ForestNodes(shapes) + Nodes(s)
    ensures Roots(shapes + [s]) == Roots(shapes) + [s.n]
  {
    hide Linked, Nodes, Forest, ForestNodes;
    assert Inserted(shapes, |shapes|, s) == shapes + [s];
    ForestInsert(shapes, |shapes|, s);
    ForestWith(shapes, |shapes|, s);
  }

  lemma OneTree(s: Shape)
    ensures ForestNodes([s]) == Nodes(s) && ForestNodes([]) == {} && Roots([s]) == [s.n]
    ensures Linked(s) ==> Forest([s])
  {
    assert [s][0] == s;
  }

  lemma OpenedForest(pending: seq<Shape>)
    requires pending != [] && Forest(pending)
    ensures Forest(NextPending(pending))
    ensures ForestNodes(NextPending(pending)) == ForestNodes(pending) - {pending[0].n} &&
            pending[0].n in ForestNodes(pending)
    ensures Roots(pending)[0] == pending[0].n
    ensures Roots(NextPending(pending)) ==
            Roots(pending)[1..] + if pending[0].Fork? then [pending[0].l.n, pending[0].r.n] else []
  {
    hide Linked, Nodes, Forest, ForestNodes;
    var s, rest := pending[0], pending[1..];
    ForestTail(pending);
    BranchesLinked(s);
    assert Roots(rest) == Roots(pending)[1..];
    if s.Fork? {
      ForestAppend(rest, s.l);
      ForestAppend(rest + [s.l], s.r);
      assert rest + [s.l] + [s.r] == NextPending(pending);
    } else {
      assert rest == NextPending(pending);
    }
  }

  lemma BranchesLinked(s: Shape)
    requires Linked(s)
    ensures s.Fork? ==>
              Linked(s.l) && Linked(s.r) && Nodes(s.l) !! Nodes(s.r) && s.n !in Nodes(s.l) &&
              s.n !in Nodes(s.r)
    ensures s.Fork? ==> s.n.left == s.l.n && s.n.right == s.r.n
    ensures s.Fork? ==> Nodes(s) == {s.n} + Nodes(s.l) + Nodes(s.r)
    ensures s.n.live
    ensures s.Tip? ==> s.n.left == null && s.n.right == null && Nodes(s) == {s.n}
  {
  }

  ghost function EncodedSoFar(t: Tree, input: seq<byte>, k: nat): seq<bool>
    requires Complete(t) && k <= |input|
  {
    Encode(t, Symbols(input[..k]))
  }

  lemma SymbolsSoFar(input: seq<byte>, k: nat)
    requires k <= |input|
    ensures k == 0 ==> Symbols(input[..k]) == []
    ensures k < |input| ==> Symbols(input[..k + 1]) == Symbols(input[..k]) + [input[k] as nat]
    ensures k == |input| ==> input[..k] == input
  {
  }

  // one more byte: what its table entry holds, and what writing it adds
  lemma OneMore(t: Tree, input: seq<byte>, k: nat, table: seq<CharacterEncoding>, used: nat)
    requires Complete(t) && TableFor(table, t) && k < |input|
    ensures var c := input[k] as nat; var e := table[c];
            && c in LeafValues(t) && e.bitLength <= 8 * |e.encoding|
            && Payload(e.encoding, e.bitLength, false) == Code(t, c) && TailOk(used, e.encoding, e.bitLength, false)
            && EncodedSoFar(t, input, k + 1) == EncodedSoFar(t, input, k) + Code(t, c)
  {
    hide Encode, Code, LeafValues, Symbols, Payload, TailOk, Unambiguous;
    var c := input[k] as nat;
    var code := Code(t, c);
    SymbolsSoFar(input, k);
    EncodeAppend(t, Symbols(input[..k]), c);
    EntryPayload(table[c], code, |code|);
    EntryTail(used, table[c], code, |code|);
    assert code[..|code|] == code;
  }

  lemma PaddingSize(used: nat)
    ensures Padding(used) == if used % 8 == 0 then 0 else 8 - used % 8
  {
  }

  // what an entry does in the search for a padding
  lemma TryPadding(t: Tree, table: seq<CharacterEncoding>, n: nat, c: nat, used: nat)
    requires Complete(t) && Alphabet(t) && TableFor(table, t) && c < 256 && 0 < n == Padding(used)
    requires FirstLonger(t, n, c) == FirstLonger(t, n, 0)
    ensures table[c].bitLength <= n ==> FirstLonger(t, n, c + 1) == FirstLonger(t, n, 0)
    ensures table[c].bitLength > n ==>
              var e := table[c];
              && n <= 8 * |e.encoding| && TailOk(used, e.encoding, n, false)
              && Payload(e.encoding, n, false) == PaddingBits(t, n)
  {
    hide Code, LeafValues, Payload, TailOk, Unambiguous;
    if table[c].bitLength > n {
      EntryPayload(table[c], Code(t, c), n);
      EntryTail(used, table[c], Code(t, c), n);
    }
  }

  lemma TextEnds(t: Tree, before: seq<bool>, input: seq<byte>)
    requires Alphabet(t)
    ensures var body := Encode(t, Symbols(input)); var n := Padding(|before| + |body|);
            && before + EncodedText(t, |before|, input) == before + body + PaddingBits(t, n)
            && (n == 0 ==> before + EncodedText(t, |before|, input) == before + body)
  {
    hide Encode, Symbols, LeafValues, Unambiguous, FirstLonger;
    var body := Encode(t, Symbols(input));
    AppendAssoc(before, body, PaddingBits(t, Padding(|before| + |body|)));
  }

  ghost function BranchAt(s: Shape, bit: bool): Shape
    requires s.Fork?
  {
    if bit then s.r else s.l
  }

  // after k bits the walk stands at the node current and has produced the symbols got
  ghost predicate Sofar(t: Tree, all: seq<bool>, k: nat, current: Tree, got: seq<nat>) {
    && t.Node? && current.Node? && k <= |all|
    && Decode(t, t, all).output == got + Decode(t, current, all[k..]).output
  }

  lemma SofarStart(t: Tree, all: seq<bool>)
    requires t.Node?
    ensures Sofar(t, all, 0, t, [])
  {
    assert all[0..] == all;
  }

  lemma SofarNext(t: Tree, all: seq<bool>, k: nat, s: Shape, got: seq<nat>)
    requires s.Fork? && Sofar(t, all, k, Erase(s), got) && k < |all|
    ensures var below := BranchAt(s, all[k]);
            if below.Tip? then Sofar(t, all, k + 1, t, got + [below.value]) else Sofar(t, all, k + 1, Erase(below), got)
  {
    assert all[k..][1..] == all[k + 1..];
    assert Erase(BranchAt(s, all[k])) == Branch(Erase(s), all[k]);
  }

  lemma SofarEnd(t: Tree, all: seq<bool>, current: Tree, got: seq<nat>)
    requires Sofar(t, all, |all|, current, got)
    ensures Decode(t, t, all).output == got
  {
    assert all[|all|..] == [];
  }

  // the buffer once the first few of the symbols have been stored in it
  ghost predicate Stored(now: seq<byte>, was: seq<byte>, symbols: seq<nat>, maxCharsToWrite: nat) {
    && |now| == |was| && maxCharsToWrite <= |was|
    && forall i :: 0 <= i < |now| ==>
         now[i] == if i < |symbols| && i < maxCharsToWrite then Character(symbols[i]) else was[i]
  }

  lemma StoredMeans(now: seq<byte>, was: seq<byte>, symbols: seq<nat>, maxCharsToWrite: nat)
    requires Stored(now, was, symbols, maxCharsToWrite)
    ensures var kept := if |symbols| <= maxCharsToWrite then |symbols| else maxCharsToWrite;
            kept <= |now| && now[..kept] == Characters(symbols[..kept]) && now[kept..] == was[kept..]
  {
  }

  lemma StoredText(now: seq<byte>, was: seq<byte>, text: seq<byte>, maxCharsToWrite: nat)
    requires Stored(now, was, Symbols(text), maxCharsToWrite)
    ensures var kept := if |text| <= maxCharsToWrite then |text| else maxCharsToWrite;
            kept <= |now| && now[..kept] == text[..kept] && now[kept..] == was[kept..]
  {
    CharactersOfSymbols(text);
    assert forall i :: 0 <= i < |text| ==> Character(Symbols(text)[i]) == Characters(Symbols(text))[i];
  }

  lemma FromStart(before: seq<bool>, code: seq<bool>)
    ensures (before + code)[|before|..] == code == code + [] && code[..|code|] == code
  {
  }

  lemma NothingStored(was: seq<byte>, maxCharsToWrite: nat)
    requires maxCharsToWrite <= |was|
    ensures Stored(was, was, [], maxCharsToWrite)
  {
  }

  lemma StoreOne(now: seq<byte>, was: seq<byte>, symbols: seq<nat>, maxCharsToWrite: nat, c: nat)
    requires Stored(now, was, symbols, maxCharsToWrite)
    ensures if |symbols| < maxCharsToWrite then |symbols| < |now| &&
            Stored(now[|symbols| := Character(c)], was, symbols + [c], maxCharsToWrite)
            else Stored(now, was, symbols + [c], maxCharsToWrite)
  {
    hide Character;
  }

  lemma NothingWritten(t: Tree, nothing: seq<bool>)
    requires nothing == [] && t.Node?
    ensures Decode(t, t, nothing).output == [] && AllBits(Characters([])) == []
  {
  }

  lemma StreamPrefix(bitStream: BitStream, input: seq<byte>, n: nat)
    requires bitStream.WellFormed() && BytesFor(n) <= |input| && bitStream.Bits() == AllBits(input[..BytesFor(n)])
    ensures n <= bitStream.numberOfBitsUsed && bitStream.Bits()[..n] == TakeBits(input, n)
  {
    hide BitAt;
  }

  class HuffmanEncodingTree {
    var root: TreeNode?
    const encodingTable: array<CharacterEncoding>
    ghost var shape: Option<Shape>

    ghost function TreeNodesHeld(): set<TreeNode>
      reads this
    {
      if shape.Some? then Nodes(shape.value) else {}
    }

    // the tree the coder holds
    ghost function Tree(): Tree
      reads this
      requires shape.Some?
    {
      Erase(shape.value)
    }

    ghost predicate Valid()
      reads this, encodingTable, TreeNodesHeld()
    {
      && encodingTable.Length == 256
      && (root == null <==> shape.None?)
      && (shape.Some? ==>
           && root == shape.value.n && Linked(shape.value) && Complete(Tree())
           && TableFor(encodingTable[..], Tree()))
    }

    constructor ()
      ensures Valid() && shape.None? && fresh(encodingTable)
    {
      root := null;
      encodingTable := new CharacterEncoding[256](_ => CharacterEncoding([], 0));
      shape := None;
    }

    lemma HeldAllocated()
      ensures forall m :: m in TreeNodesHeld() ==> allocated(m)
    {
      if shape.Some? {
        NodesAllocated(shape.value);
      }
    }

    // The nodes in the order in which they are deleted: every node exactly once. Only live nodes are looked
    // at and deleted, and none is live at the end.
    method FreeMemory() returns (deleted: seq<TreeNode>)
      requires Valid()
      modifies this`root, this`shape, TreeNodesHeld()`live
      ensures Valid() && shape.None?
      ensures forall m :: m in old(TreeNodesHeld()) ==> !m.live
      ensures NoRepeats(deleted)
      ensures forall m :: m in deleted <==> m in old(TreeNodesHeld())
    {
      deleted := [];
      if root == null {
        return;
      }
      deleted := DeleteNodes(root, shape.value);
      root := null;
      shape := None;
    }

    static method PushBranches(nodeQueue: Queue<TreeNode?>, node: TreeNode, ghost s: Shape)
      requires nodeQueue.Valid() && node.live && Linked(s) && node == s.n
      modifies nodeQueue, nodeQueue.buffer
      ensures nodeQueue.Valid() && (nodeQueue.buffer == old(nodeQueue.buffer) || fresh(nodeQueue.buffer))
      ensures nodeQueue.Contents() == old(nodeQueue.Contents()) + if s.Fork? then [s.l.n, s.r.n] else []
      ensures node.live
    {
      hide Linked, Nodes, Window;
      BranchesLinked(s);
      NodesAllocated(s);
      var left, right := node.left, node.right;
      if left != null {
        nodeQueue.Push(left);
      }
      if right != null {
        nodeQueue.Push(right);
      }
    }

    static method DeleteNodes(root: TreeNode, ghost shape: Shape) returns (deleted: seq<TreeNode>)
      requires Linked(shape) && root == shape.n
      modifies Nodes(shape)`live
      ensures forall m :: m in Nodes(shape) ==> !m.live
      ensures NoRepeats(deleted)
      ensures forall m :: m in deleted <==> m in Nodes(shape)
    {
      hide Linked, Nodes, ForestNodes, Forest, Window, Roots, NextPending, NoRepeats;
      deleted := [];
      NothingRepeats();
      OneTree(shape);
      NodesAllocated(shape);
      var nodeQueue := new Queue<TreeNode?>();
      nodeQueue.Push(root);
      ghost var pending := [shape];
      while nodeQueue.Size() > 0
        invariant nodeQueue.Valid() && nodeQueue.Contents() == Roots(pending) && Forest(pending)
        invariant fresh(nodeQueue) && fresh(nodeQueue.buffer)
        invariant ForestNodes(pending) <= Nodes(shape)
        invariant forall m :: m in deleted <==> m in Nodes(shape) && m !in ForestNodes(pending)
        invariant forall m :: m in Nodes(shape) && m !in ForestNodes(pending) ==> !m.live
        invariant NoRepeats(deleted)
        decreases ForestNodes(pending)
      {
        OpenedForest(pending);
        FirstTree(pending);
        var node := nodeQueue.Pop();
        assert node == pending[0].n && node !in deleted;
        PushBranches(nodeQueue, node, pending[0]);
        node.Delete();
        OneMoreNode(deleted, node);
        deleted := deleted + [node];
        pending := NextPending(pending);
      }
    }

    // steps 1 to 3: a leaf for every symbol, merged to one tree
    static method GrowTree(frequencyTable: array<nat>, leafList: array<TreeNode?>)
      returns (root: TreeNode, ghost s: Shape)
      requires frequencyTable.Length == 256 == leafList.Length
      modifies leafList
      ensures Linked(s) && s.n == root && Erase(s) == BuildTree(old(frequencyTable[..])) && fresh(Nodes(s))
      ensures Complete(Erase(s)) && LeafList(s, leafList[..])
    {
      hide WorkList, Linked, Nodes, Complete, InitialList, MergeAll, Erased, Listed, Tips, ForestTips, ForestNodes,
        LeafList, Ring, Holds;
      var nodeList := new CircularLinkedList<TreeNode>();
      ghost var shapes := PlantLeaves(frequencyTable, leafList, nodeList);
      ghost var leaves, frequencies := leafList[..], frequencyTable[..];
      root, s := MergeTrees(nodeList, shapes);
      LeavesListed(leaves, frequencies, shapes, s);
    }

    // builds the tree for a table of 256 frequencies, and its codewords
    method GenerateFromFrequencyTable(frequencyTable: array<nat>)
      requires Valid() && frequencyTable.Length == 256
      modifies this`root, this`shape, TreeNodesHeld()`live, encodingTable
      ensures Valid() && shape.Some? && Tree() == BuildTree(old(frequencyTable[..]))
      ensures fresh(TreeNodesHeld())
    {
      hide Linked, Nodes, Complete, TableFor, BuildTree, LeafList;
      var _ := FreeMemory();
      var leafList := new TreeNode?[256];
      var node, s := GrowTree(frequencyTable, leafList);
      CompleteMeans(Erase(s));
      NodesAllocated(s);
      FillTable(encodingTable, leafList, node, s);
      root := node;
      shape := Some(s);
    }

    static lemma LeavesListed(leaves: seq<TreeNode?>, frequencyTable: seq<nat>, shapes: seq<Shape>, s: Shape)
      requires |leaves| == |frequencyTable| == 256 && Listed(leaves, 256, frequencyTable, shapes)
      requires Tips(s) == ForestTips(shapes) && Erase(s) == BuildTree(frequencyTable)
      ensures Complete(Erase(s)) && LeafList(s, leaves)
    {
      hide Tips, ForestTips, BuildTree, Complete, Erase, Code;
      BuiltIsComplete(frequencyTable);
      CompleteMeans(Erase(s));
      forall c: nat | c < 256
        ensures LeafOf(s, c, leaves[c])
      {
        CodeLeadsToTip(s, Tip(leaves[c], c, LeafFor(frequencyTable, c).weight));
      }
    }

    static lemma CompleteMeans(t: HuffmanTrees.Tree)
      requires Complete(t)
      ensures Alphabet(t) && Unambiguous(t) && |LeafValues(t)| == 256
      ensures forall c: nat :: c in LeafValues(t) <==> c < 256
    {
    }

    // the codewords of the bytes, one after the other
    static method EncodeBody(table: array<CharacterEncoding>, input: seq<byte>, output: BitStream,
                             ghost t: HuffmanTrees.Tree)
      requires Complete(t) && table.Length == 256 && TableFor(table[..], t)
      requires output.Valid() && table !in output.Footprint()
      modifies output.Footprint()
      ensures output.Valid() && fresh(output.Footprint() - old(output.Footprint())) && table !in output.Footprint()
      ensures output.Bits() == old(output.Bits()) + Encode(t, Symbols(input)) &&
              output.readOffset == old(output.readOffset)
      ensures table[..] == old(table[..])
    {
      hide TakeBits, ZeroFrom, Complete, Encode, Code, Symbols, TableFor, Payload, TailOk;
      EmptyText(t);
      SymbolsSoFar(input, 0);
      for counter := 0 to |input|
        invariant output.Valid() && fresh(output.Footprint() - old(output.Footprint())) && table !in output.Footprint()
        invariant table[..] == old(table[..]) && output.readOffset == old(output.readOffset)
        invariant output.Bits() == old(output.Bits()) + EncodedSoFar(t, input, counter)
      {
        ghost var before := output.Bits();
        var e := table[input[counter] as nat];
        OneMore(t, input, counter, table[..], output.numberOfBitsUsed);
        output.WriteBits(e.encoding, e.bitLength, false);
        AppendAssoc(old(output.Bits()), EncodedSoFar(t, input, counter), Code(t, input[counter] as nat));
      }
      SymbolsSoFar(input, |input|);
    }

    // the start of the first codeword that is longer than what is missing to the byte boundary
    static method PadToByte(table: array<CharacterEncoding>, output: BitStream, ghost t: HuffmanTrees.Tree)
      requires Complete(t) && table.Length == 256 && TableFor(table[..], t)
      requires output.Valid() && output.numberOfBitsUsed % 8 != 0 && table !in output.Footprint()
      modifies output.Footprint()
      ensures output.Valid() && fresh(output.Footprint() - old(output.Footprint())) &&
              output.readOffset == old(output.readOffset)
      ensures output.Bits() == old(output.Bits()) + PaddingBits(t, Padding(old(output.numberOfBitsUsed)))
    {
      hide TakeBits, ZeroFrom, Complete, TableFor, Payload, TailOk, PaddingBits, FirstLonger;
      var remainingBits := 8 - output.numberOfBitsUsed % 8;
      ghost var used := output.numberOfBitsUsed;
      PaddingSize(used);
      CompleteMeans(t);
      PaddingIsInner(t, remainingBits);
      var counter := 0;
      while counter < 256
        invariant 0 <= counter <= 256 && table[..] == old(table[..])
        invariant output.Valid() && output.Footprint() == old(output.Footprint()) &&
                  output.readOffset == old(output.readOffset)
        invariant output.Bits() == old(output.Bits()) && output.numberOfBitsUsed == used
        invariant FirstLonger(t, remainingBits, counter) == FirstLonger(t, remainingBits, 0)
      {
        var e := table[counter];
        TryPadding(t, table[..], remainingBits, counter, used);
        if e.bitLength > remainingBits {
          output.WriteBits(e.encoding, remainingBits, false);
          return;
        }
        counter := counter + 1;
      }
    }

    method EncodeArray(input: seq<byte>, output: BitStream)
      requires Valid() && shape.Some? && output.Valid() && encodingTable !in output.Footprint()
      modifies output.Footprint()
      ensures output.Valid() && fresh(output.Footprint() - old(output.Footprint())) &&
              output.readOffset == old(output.readOffset)
      ensures Alphabet(Tree())
      ensures output.Bits() == old(output.Bits()) + EncodedText(Tree(), old(output.numberOfBitsUsed), input)
    {
      hide TakeBits, ZeroFrom, Complete, TableFor, PaddingBits, EncodedText, Encode, Padding, Linked, Nodes;
      CompleteMeans(Tree());
      TextEnds(Tree(), output.Bits(), input);
      PaddingSize(output.numberOfBitsUsed + |Encode(Tree(), Symbols(input))|);
      EncodeBody(encodingTable, input, output, Tree());
      if output.numberOfBitsUsed % 8 != 0 {
        PadToByte(encodingTable, output, Tree());
      }
    }

    // one bit down the tree; a leaf has no branches
    static method StepDown(currentNode: TreeNode, bit: bool, ghost s: Shape)
      returns (next: TreeNode, leaf: bool, ghost below: Shape)
      requires Linked(s) && s.Fork? && currentNode == s.n
      ensures below == BranchAt(s, bit) && Linked(below) && next == below.n
      ensures leaf <==> below.Tip?
      ensures leaf ==> next.value == below.value
    {
      hide Nodes;
      BranchesLinked(s);
      if !bit {
        next := currentNode.left;
      } else {
        next := currentNode.right;
      }
      below := BranchAt(s, bit);
      leaf := next.left == null && next.right == null;
    }

    // reads a bit and goes down to the branch it names
    static method FollowBit(input: BitStream, currentNode: TreeNode, ghost t: HuffmanTrees.Tree, ghost all: seq<bool>,
                            ghost k: nat, ghost s: Shape, ghost got: seq<nat>)
      returns (next: TreeNode, leaf: bool, ghost below: Shape)
      requires input.WellFormed() && input.readOffset < input.numberOfBitsUsed
      requires k < |all| && input.Bits()[input.readOffset] == all[k]
      requires Linked(s) && s.Fork? && currentNode == s.n && Sofar(t, all, k, Erase(s), got)
      modifies input`readOffset
      ensures input.readOffset == old(input.readOffset) + 1
      ensures Linked(below) && next == below.n && (leaf <==> below.Tip?)
      ensures if leaf then Sofar(t, all, k + 1, t, got + [next.value]) else Sofar(t, all, k + 1, Erase(below), got)
      ensures forall m :: m in Nodes(below) ==> allocated(m)
    {
      hide Linked, Nodes, Sofar, Erase, TakeBits;
      NodesAllocated(s);
      var bit := input.ReadBit();
      next, leaf, below := StepDown(currentNode, bit, s);
      SofarNext(t, all, k, s, got);
      NodesAllocated(below);
    }

    // decodes that many bits of the stream; counts every character but stores no more than asked for
    method DecodeArray(input: BitStream, sizeInBits: nat, maxCharsToWrite: nat, output: array<byte>)
      returns (outputWriteIndex: nat)
      requires Valid() && shape.Some?
      requires input.WellFormed() && input.readOffset + sizeInBits <= input.numberOfBitsUsed
      requires output != input.data && maxCharsToWrite <= output.Length
      modifies input`readOffset, output
      ensures input.readOffset == old(input.readOffset) + sizeInBits
      ensures Tree().Node?
      ensures var decoded := Decode(Tree(), Tree(), old(input.Unread()[..sizeInBits])).output;
              && outputWriteIndex == |decoded|
              && Stored(output[..], old(output[..]), decoded, maxCharsToWrite)
      // as many of them as the buffer may take are in it, and the rest of it is as it was
      ensures var decoded := Decode(Tree(), Tree(), old(input.Unread()[..sizeInBits])).output;
              var kept := if |decoded| <= maxCharsToWrite then |decoded| else maxCharsToWrite;
              kept <= output.Length &&
              output[..kept] == Characters(decoded[..kept]) && output[kept..] == old(output[kept..])
    {
      hide Linked, Complete, TableFor, Decode, Stored, Sofar, Nodes, TakeBits, ZeroFrom, Characters;
      outputWriteIndex := 0;
      CompleteMeans(Tree());
      NodesAllocated(shape.value);
      var currentNode := root;
      ghost var cur, got, all := shape.value, [], input.Unread()[..sizeInBits];
      NothingStored(output[..], maxCharsToWrite);
      SofarStart(Tree(), all);
      for counter := 0 to sizeInBits
        invariant input.readOffset == old(input.readOffset) + counter
        invariant Linked(shape.value) && Linked(cur) && cur.Fork? && currentNode == cur.n
        invariant Sofar(Tree(), all, counter, Erase(cur), got)
        invariant outputWriteIndex == |got| && Stored(output[..], old(output[..]), got, maxCharsToWrite)
      {
        NodesAllocated(shape.value);
        assert input.Bits()[input.readOffset] == all[counter];
        var leaf;
        currentNode, leaf, cur := FollowBit(input, currentNode, Tree(), all, counter, cur, got);
        if leaf {
          StoreOne(output[..], old(output[..]), got, maxCharsToWrite, currentNode.value);
          if outputWriteIndex < maxCharsToWrite {
            output[outputWriteIndex] := Character(currentNode.value);
          }
          outputWriteIndex := outputWriteIndex + 1;
          got := got + [currentNode.value];
          currentNode := root;
          cur := shape.value;
        }
      }
      SofarEnd(Tree(), all, Erase(cur), got);
      StoredMeans(output[..], old(output[..]), got, maxCharsToWrite);
    }

    // decodes that many bits of a buffer, and appends a byte to the stream for every character
    method DecodeArrayToStream(input: array<byte>, sizeInBits: nat, output: BitStream)
      requires Valid() && shape.Some? && output.Valid()
      requires BytesFor(sizeInBits) <= input.Length && input !in output.Footprint()
      modifies output.Footprint()
      ensures output.Valid() && fresh(output.Footprint() - old(output.Footprint())) &&
              output.readOffset == old(output.readOffset)
      ensures Tree().Node?
      ensures var decoded := Decode(Tree(), Tree(), TakeBits(old(input[..]), sizeInBits)).output;
              output.Bits() == old(output.Bits()) + AllBits(Characters(decoded))
    {
      hide Linked, Complete, TableFor, Decode, Sofar, Nodes, TakeBits, ZeroFrom, AllBits, Characters, Payload, TailOk;
      CompleteMeans(Tree());
      NodesAllocated(shape.value);
      NothingWritten(Tree(), TakeBits(input[..], 0));
      if sizeInBits <= 0 {
        return;
      }
      var bitStream := new BitStream.FromBytes(input, BytesFor(sizeInBits), false);
      var currentNode := root;
      ghost var cur, got, all := shape.value, [], TakeBits(input[..], sizeInBits);
      StreamPrefix(bitStream, input[..], sizeInBits);
      SofarStart(Tree(), all);
      for counter := 0 to sizeInBits
        invariant bitStream.WellFormed() && bitStream.readOffset == counter && sizeInBits <= bitStream.numberOfBitsUsed
        invariant bitStream.Bits()[..sizeInBits] == all && bitStream.Footprint() !! output.Footprint()
        invariant fresh(bitStream.Footprint() - {input})
        invariant output.Valid() && fresh(output.Footprint() - old(output.Footprint())) &&
                  output.readOffset == old(output.readOffset)
        invariant Linked(shape.value) && Linked(cur) && cur.Fork? && currentNode == cur.n
        invariant Sofar(Tree(), all, counter, Erase(cur), got)
        invariant output.Bits() == old(output.Bits()) + AllBits(Characters(got))
      {
        currentNode, cur, got := DecodeBit(bitStream, root, currentNode, output, shape.value, all, cur, got,
          old(output.Bits()));
      }
      SofarEnd(Tree(), all, Erase(cur), got);
    }

    // A text encoded at any offset of a stream and decoded from there: the encoding ends on a byte boundary,
    // all its characters are counted, and as many as the buffer may take are in it.
    method ArrayThroughStream(text: seq<byte>, bs: BitStream, maxCharsToWrite: nat, output: array<byte>)
      returns (count: nat)
      requires Valid() && shape.Some? && bs.Valid() && encodingTable !in bs.Footprint()
      requires output !in bs.Footprint() && (output as object) != encodingTable && maxCharsToWrite <= output.Length
      modifies bs.Footprint(), output
      ensures bs.Valid() && Alphabet(Tree()) && Tree() == old(Tree())
      ensures bs.Bits() == old(bs.Bits()) + EncodedText(Tree(), old(bs.numberOfBitsUsed), text)
      ensures bs.readOffset == bs.numberOfBitsUsed && bs.numberOfBitsUsed % 8 == 0
      ensures var kept := if |text| <= maxCharsToWrite then |text| else maxCharsToWrite;
              count == |text| && output[..kept] == text[..kept] && output[kept..] == old(output[kept..])
    {
      hide Linked, Complete, TableFor, Decode, Stored, Nodes, TakeBits, ZeroFrom, EncodedText, Alphabet, Amortised;
      HeldAllocated();
      CompleteMeans(Tree());
      var start := bs.numberOfBitsUsed;
      ghost var before, was, t := bs.Bits(), output[..], Tree();
      ghost var code := EncodedText(t, start, text);
      EncodeArray(text, bs);
      FromStart(before, code);
      PaddedRoundTrip(t, start, text);
      bs.readOffset := start;
      count := DecodeArray(bs, bs.numberOfBitsUsed - start, maxCharsToWrite, output);
      StoredText(output[..], was, text, maxCharsToWrite);
    }

    // one bit; at a leaf the character is written and the walk starts again from the root
    static method DecodeBit(bitStream: BitStream, root: TreeNode, currentNode: TreeNode, output: BitStream,
                            ghost s: Shape, ghost all: seq<bool>, ghost cur: Shape, ghost got: seq<nat>,
                            ghost before: seq<bool>)
      returns (next: TreeNode, ghost below: Shape, ghost more: seq<nat>)
      requires bitStream.WellFormed() && bitStream.readOffset < |all| <= bitStream.numberOfBitsUsed
      requires bitStream.Bits()[..|all|] == all && bitStream.Footprint() !! output.Footprint() && output.Valid()
      requires Linked(s) && s.Fork? && root == s.n && Linked(cur) && cur.Fork? && currentNode == cur.n
      requires Sofar(Erase(s), all, bitStream.readOffset, Erase(cur), got) &&
               output.Bits() == before + AllBits(Characters(got))
      modifies bitStream`readOffset, output.Footprint()
      ensures bitStream.readOffset == old(bitStream.readOffset) + 1
      ensures bitStream.Footprint() == old(bitStream.Footprint()) && bitStream.WellFormed() &&
              bitStream.Bits() == old(bitStream.Bits())
      ensures bitStream.numberOfBitsUsed == old(bitStream.numberOfBitsUsed)
      ensures output.Valid() && fresh(output.Footprint() - old(output.Footprint())) &&
              output.readOffset == old(output.readOffset)
      ensures bitStream.Footprint() !! output.Footprint()
      ensures Linked(s) && Linked(below) && below.Fork? && next == below.n
      ensures Sofar(Erase(s), all, bitStream.readOffset, Erase(below), more) &&
              output.Bits() == before + AllBits(Characters(more))
    {
      hide Linked, Sofar, Nodes, Erase, TakeBits, ZeroFrom, AllBits, Characters;
      NodesAllocated(s);
      ghost var k := bitStream.readOffset;
      assert bitStream.Bits()[k] == all[k];
      var leaf;
      next, leaf, below := FollowBit(bitStream, currentNode, Erase(s), all, k, cur, got);
      more := got;
      if leaf {
        WriteCharacter(output, next.value, got, before);
        more := got + [next.value];
        next := root;
        below := s;
      }
    }

    static method WriteCharacter(output: BitStream, value: nat, ghost got: seq<nat>, ghost before: seq<bool>)
      requires output.Valid() && output.Bits() == before + AllBits(Characters(got))
      modifies output.Footprint()
      ensures output.Valid() && fresh(output.Footprint() - old(output.Footprint())) &&
              output.readOffset == old(output.readOffset)
      ensures output.Bits() == before + AllBits(Characters(got + [value]))
    {
      hide TakeBits, ZeroFrom, AllBits, Characters, Payload, TailOk, Character;
      CharacterWritten(got, value);
      TailOkWhen(output.numberOfBitsUsed, [Character(value)], 8, true);
      output.WriteBits([Character(value)], 8, true);
      AppendAssoc(before, AllBits(Characters(got)), AllBits([Character(value)]));
    }
  }
}
