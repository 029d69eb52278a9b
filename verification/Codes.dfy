/** Codewords of a tree, encoding and decoding as functions, and the unique splitting of bit strings. */
module Codes {
  import opened HuffmanTrees
  import opened Kraft
  import opened Optimality
  import opened DepthBound

  function LeafValues(t: Tree): (values: seq<nat>)
    ensures |values| >= 1
  {
    match t
    case Leaf(value, _) => [value]
    case Node(l, r, _) => LeafValues(l) + LeafValues(r)
  }

  // no symbol has two leaves
  ghost predicate Unambiguous(t: Tree) {
    t.Node? ==>
      && (forall c: nat :: !(c in LeafValues(t.left) && c in LeafValues(t.right)))
      && Unambiguous(t.left) && Unambiguous(t.right)
  }

  // every byte value has exactly one leaf
  ghost predicate Alphabet(t: Tree) {
    t.Node? && Unambiguous(t) && forall c: nat :: c in LeafValues(t) <==> c < 256
  }

  function Branch(t: Tree, right: bool): Tree
    requires t.Node?
  {
    if right then t.right else t.left
  }

  // the path from the root to the leaf of a symbol
  function Code(t: Tree, c: nat): (path: seq<bool>)
    requires c in LeafValues(t)
    ensures IsPath(t, path) && At(t, path).Leaf? && At(t, path).value == c
  {
    match t
    case Leaf(_, _) => []
    case Node(l, r, _) =>
      if c in LeafValues(l) then
        [false] + Code(l, c)
      else
        [true] + Code(r, c)
  }

  // a clear bit turns left and a set bit turns right
  lemma CodeTurns(t: Tree, c: nat)
    requires t.Node? && Unambiguous(t)
    ensures c in LeafValues(t.left) ==> Code(t, c) == [false] + Code(t.left, c)
    ensures c in LeafValues(t.right) ==> Code(t, c) == [true] + Code(t.right, c)
  {
  }

  lemma {:induction false} LeafAtIsValue(t: Tree, path: seq<bool>)
    requires IsPath(t, path) && At(t, path).Leaf?
    ensures At(t, path).value in LeafValues(t)
    decreases |path|
  {
    if path != [] {
      LeafAtIsValue(Branch(t, path[0]), path[1..]);
    }
  }

  // The codeword is the only path to its symbol.
  lemma {:induction false} CodeIsOnlyPath(t: Tree, path: seq<bool>)
    requires Unambiguous(t) && IsPath(t, path) && At(t, path).Leaf?
    ensures At(t, path).value in LeafValues(t) && Code(t, At(t, path).value) == path
    decreases |path|
  {
    LeafAtIsValue(t, path);
    if path != [] {
      LeafAtIsValue(Branch(t, path[0]), path[1..]);
      CodeIsOnlyPath(Branch(t, path[0]), path[1..]);
      assert path == [path[0]] + path[1..];
    }
  }

  // a path cannot go on below a leaf
  lemma {:induction false} PathThroughLeaf(t: Tree, p: seq<bool>, q: seq<bool>)
    requires IsPath(t, p) && At(t, p).Leaf? && IsPath(t, p + q)
    ensures q == []
    decreases |p|
  {
    if p == [] {
      assert p + q == q;
    } else {
      assert (p + q)[1..] == p[1..] + q;
      PathThroughLeaf(Branch(t, p[0]), p[1..], q);
    }
  }

  // No codeword is a prefix of another.
  lemma PrefixFree(t: Tree, c: nat, d: nat)
    requires c in LeafValues(t) && d in LeafValues(t) && Code(t, c) <= Code(t, d)
    ensures c == d
  {
    var rest := Code(t, d)[|Code(t, c)|..];
    assert Code(t, c) + rest == Code(t, d);
    PathThroughLeaf(t, Code(t, c), rest);
    assert Code(t, c) + [] == Code(t, c);
  }

  // a path cut short of its leaf ends at an inner node
  lemma {:induction false} ProperPrefixIsInner(t: Tree, path: seq<bool>, k: nat)
    requires IsPath(t, path) && k < |path|
    ensures IsPath(t, path[..k]) && At(t, path[..k]).Node?
    decreases |path|
  {
    if k > 0 {
      assert path[..k][1..] == path[1..][..k - 1];
      ProperPrefixIsInner(Branch(t, path[0]), path[1..], k - 1);
    }
  }

  function Encode(t: Tree, text: seq<nat>): seq<bool>
    requires forall c :: c in text ==> c in LeafValues(t)
  {
    if text == [] then [] else Code(t, text[0]) + Encode(t, text[1..])
  }

  // symbols emitted, and the node the walk stands at
  datatype Run = Run(output: seq<nat>, node: Tree)

  // the decoding walk: down one branch for each bit, and back to the root at every leaf
  function Decode(root: Tree, current: Tree, bits: seq<bool>): (run: Run)
    requires root.Node? && current.Node?
    ensures run.node.Node?
    decreases |bits|
  {
    if bits == [] then
      Run([], current)
    else
      var next := Branch(current, bits[0]);
      if next.Leaf? then
        var run := Decode(root, root, bits[1..]);
        Run([next.value] + run.output, run.node)
      else
        Decode(root, next, bits[1..])
  }

  lemma {:induction false} DecodeToLeaf(root: Tree, current: Tree, path: seq<bool>, rest: seq<bool>)
    requires root.Node? && current.Node? && IsPath(current, path) && At(current, path).Leaf?
    ensures var run := Decode(root, root, rest);
            Decode(root, current, path + rest) == Run([At(current, path).value] + run.output, run.node)
    decreases |path|
  {
    assert (path + rest)[1..] == path[1..] + rest;
    var next := Branch(current, path[0]);
    if next.Leaf? {
      assert path[1..] == [];
      assert path[1..] + rest == rest;
    } else {
      DecodeToLeaf(root, next, path[1..], rest);
    }
  }

  lemma {:induction false} DecodeInner(root: Tree, current: Tree, path: seq<bool>)
    requires root.Node? && current.Node? && IsPath(current, path) && At(current, path).Node?
    ensures Decode(root, current, path) == Run([], At(current, path))
    decreases |path|
  {
    if path != [] {
      assert Branch(current, path[0]).Node? by {
        if Branch(current, path[0]).Leaf? && path[1..] == [] {
          assert At(current, path) == Branch(current, path[0]);
        }
      }
      DecodeInner(root, Branch(current, path[0]), path[1..]);
    }
  }

  // Decoding gives back the text; a padding that is a proper codeword prefix emits nothing.
  lemma EncodeSplit(t: Tree, text: seq<nat>, pad: seq<bool>)
    requires text != [] && forall c :: c in text ==> c in LeafValues(t)
    ensures Encode(t, text) + pad == Code(t, text[0]) + (Encode(t, text[1..]) + pad)
  {
    hide Code, LeafValues;
    assert (Code(t, text[0]) + Encode(t, text[1..])) + pad == Code(t, text[0]) + (Encode(t, text[1..]) + pad);
  }

  lemma {:induction false} DecodeEncode(t: Tree, text: seq<nat>, pad: seq<bool>)
    requires t.Node? && forall c :: c in text ==> c in LeafValues(t)
    requires IsPath(t, pad) && At(t, pad).Node?
    ensures Decode(t, t, Encode(t, text) + pad) == Run(text, At(t, pad))
    decreases |text|
  {
    if text == [] {
      assert Encode(t, text) + pad == pad;
      DecodeInner(t, t, pad);
    } else {
      hide Decode, IsPath, At, Code, LeafValues;
      var code, rest := Code(t, text[0]), Encode(t, text[1..]) + pad;
      EncodeSplit(t, text, pad);
      DecodeEncode(t, text[1..], pad);
      DecodeToLeaf(t, t, code, rest);
      assert text == [text[0]] + text[1..];
    }
  }

  // Every bit string is codewords followed by a proper prefix of one ...
  lemma {:induction false} Split(t: Tree, soFar: seq<bool>, bits: seq<bool>) returns (pad: seq<bool>)
    requires Unambiguous(t) && t.Node? && IsPath(t, soFar) && At(t, soFar).Node?
    ensures var run := Decode(t, At(t, soFar), bits);
            && (forall c :: c in run.output ==> c in LeafValues(t))
            && soFar + bits == Encode(t, run.output) + pad
            && IsPath(t, pad) && At(t, pad) == run.node
    decreases |bits|
  {
    hide IsPath, At, Encode, Unambiguous, Code;
    if bits == [] {
      pad := soFar;
      EmptyText(t);
      assert soFar + bits == Encode(t, []) + pad;
    } else {
      var path := soFar + [bits[0]];
      Extend(t, soFar, bits[0]);
      assert path + bits[1..] == soFar + bits;
      if At(t, path).Leaf? {
        EmptyPath(t);
        pad := Split(t, [], bits[1..]);
        var rest := Decode(t, t, bits[1..]);
        assert [] + bits[1..] == bits[1..];
        FirstSymbol(t, path, rest.output, pad);
      } else {
        pad := Split(t, path, bits[1..]);
      }
    }
  }

  lemma EmptyText(t: Tree)
    ensures Encode(t, []) == []
  {
  }

  lemma EmptyPath(t: Tree)
    ensures IsPath(t, []) && At(t, []) == t
  {
  }

  lemma FirstSymbol(t: Tree, path: seq<bool>, text: seq<nat>, pad: seq<bool>)
    requires Unambiguous(t) && IsPath(t, path) && At(t, path).Leaf?
    requires forall c :: c in text ==> c in LeafValues(t)
    ensures var all := [At(t, path).value] + text;
            (forall c :: c in all ==> c in LeafValues(t)) && path + (Encode(t, text) + pad) == Encode(t, all) + pad
  {
    hide IsPath, At, Code, Encode, LeafValues, Unambiguous;
    CodeIsOnlyPath(t, path);
    var all := [At(t, path).value] + text;
    assert all[1..] == text;
    EncodeSplit(t, all, pad);
  }

  lemma {:induction false} Extend(t: Tree, path: seq<bool>, bit: bool)
    requires IsPath(t, path) && At(t, path).Node?
    ensures IsPath(t, path + [bit]) && At(t, path + [bit]) == Branch(At(t, path), bit)
    decreases |path|
  {
    if path == [] {
      assert (path + [bit])[1..] == [];
    } else {
      assert (path + [bit])[1..] == path[1..] + [bit];
      Extend(Branch(t, path[0]), path[1..], bit);
    }
  }

  // leaves that are all different and carry different symbols
  ghost predicate Distinct(leaves: multiset<Tree>) {
    && (forall x :: x in leaves ==> x.Leaf? && leaves[x] == 1)
    && (forall x, y :: x in leaves && y in leaves && x.Leaf? && y.Leaf? && x.value == y.value ==> x == y)
  }

  lemma {:induction false} ValueHasLeaf(t: Tree, c: nat)
    requires c in LeafValues(t)
    ensures exists x :: x in LeavesOf(t) && x.Leaf? && x.value == c
  {
    match t
    case Leaf(_, _) => assert t in LeavesOf(t);
    case Node(l, r, _) =>
      if c in LeafValues(l) {
        ValueHasLeaf(l, c);
      } else {
        ValueHasLeaf(r, c);
      }
  }

  lemma {:induction false} LeafHasValue(t: Tree, x: Tree)
    requires x in LeavesOf(t) && x.Leaf?
    ensures x.value in LeafValues(t)
  {
    if t.Node? {
      if x in LeavesOf(t.left) {
        LeafHasValue(t.left, x);
      } else {
        LeafHasValue(t.right, x);
      }
    }
  }

  lemma DistinctParts(l: seq<Tree>, r: seq<Tree>)
    requires Distinct(multiset(l + r))
    ensures Distinct(multiset(l)) && Distinct(multiset(r))
    ensures forall x, y :: x in l && y in r ==> x.Leaf? && y.Leaf? && x.value != y.value
  {
    var a, b := multiset(l), multiset(r);
    assert multiset(l + r) == a + b;
    forall x | x in a || x in b
      ensures x in a + b && (a + b)[x] == a[x] + b[x]
    {
    }
    forall x, y | x in l && y in r
      ensures x.Leaf? && y.Leaf? && x.value != y.value
    {
      assert x in a + b && y in a + b && x in a && y in b;
    }
  }

  lemma {:induction false} DistinctIsUnambiguous(t: Tree)
    requires Distinct(multiset(LeavesOf(t)))
    ensures Unambiguous(t)
  {
    hide Distinct;
    if t.Node? {
      DistinctParts(LeavesOf(t.left), LeavesOf(t.right));
      DistinctIsUnambiguous(t.left);
      DistinctIsUnambiguous(t.right);
      forall c: nat | c in LeafValues(t.left)
        ensures c !in LeafValues(t.right)
      {
        ValueHasLeaf(t.left, c);
        if c in LeafValues(t.right) {
          ValueHasLeaf(t.right, c);
        }
      }
    }
  }

  lemma OneMoreDistinct(before: seq<Tree>, leaf: Tree)
    requires Distinct(multiset(before)) && leaf.Leaf?
    requires forall x :: x in before ==> x.Leaf? && x.value != leaf.value
    ensures Distinct(multiset(before + [leaf]))
  {
    assert multiset(before + [leaf]) == multiset(before) + multiset{leaf};
    assert leaf !in multiset(before);
  }

  lemma SymbolLeavesDistinct(frequencyTable: seq<nat>, n: nat)
    requires n <= |frequencyTable| <= 256
    ensures Distinct(multiset(SymbolLeaves(frequencyTable, n)))
    decreases n
  {
    hide Distinct;
    if n == 0 {
      NothingDistinct(SymbolLeaves(frequencyTable, 0));
    } else {
      var before, leaf := SymbolLeaves(frequencyTable, n - 1), LeafFor(frequencyTable, n - 1);
      SymbolLeavesDistinct(frequencyTable, n - 1);
      SymbolLeavesStep(frequencyTable, n);
      forall x | x in before
        ensures x.Leaf? && x.value != leaf.value
      {
        var k :| 0 <= k < |before| && before[k] == x;
      }
      OneMoreDistinct(before, leaf);
    }
  }

  lemma NothingDistinct(none: seq<Tree>)
    requires none == []
    ensures Distinct(multiset(none))
  {
  }

  // Whatever the frequencies, even when weights wrap around, every byte gets exactly one leaf.
  lemma BuildTreeAlphabet(frequencyTable: seq<nat>)
    requires |frequencyTable| == 256
    ensures Alphabet(BuildTree(frequencyTable))
  {
    hide BuildTree, LeavesOf, LeafWeight, LeafValues, Unambiguous;
    var t := BuildTree(frequencyTable);
    BuildTreeKeeps(frequencyTable);
    SymbolLeavesDistinct(frequencyTable, 256);
    DistinctIsUnambiguous(t);
    forall x | x in LeavesOf(t)
      ensures x.Leaf? && x.value < 256
    {
      assert x in multiset(SymbolLeaves(frequencyTable, 256));
    }
    forall c: nat
      ensures c in LeafValues(t) <==> c < 256
    {
      if c < 256 {
        var leaf := SymbolLeaves(frequencyTable, 256)[c];
        assert leaf in multiset(SymbolLeaves(frequencyTable, 256));
        assert leaf in LeavesOf(t);
        LeafHasValue(t, leaf);
      } else if c in LeafValues(t) {
        ValueHasLeaf(t, c);
      }
    }
    TwoValues(t);
  }

  lemma TwoValues(t: Tree)
    requires forall c: nat :: c in LeafValues(t) <==> c < 256
    ensures t.Node?
  {
    assert 0 in LeafValues(t) && 1 in LeafValues(t);
  }

  // the walk from the root to a deepest leaf
  lemma {:induction false} DeepestPath(t: Tree) returns (path: seq<bool>)
    ensures IsPath(t, path) && At(t, path).Leaf? && |path| == Height(t)
  {
    match t
    case Leaf(_, _) => path := [];
    case Node(l, r, _) =>
      var right := Height(r) > Height(l);
      path := DeepestPath(if right then r else l);
      assert ([right] + path)[1..] == path;
      path := [right] + path;
  }

  lemma {:induction false} HeightBounds(t: Tree)
    ensures Height(t) + 1 <= |LeafValues(t)| <= Pow2(Height(t))
    ensures |LeafValues(t)| == |LeavesOf(t)|
  {
    if t.Node? {
      HeightBounds(t.left);
      HeightBounds(t.right);
      var h := Height(t) - 1;
      Pow2Monotone(Height(t.left), h);
      Pow2Monotone(Height(t.right), h);
      assert Pow2(h + 1) == 2 * Pow2(h);
    }
  }

  lemma {:induction false} Pow2Monotone(a: nat, b: nat)
    requires a <= b
    ensures Pow2(a) <= Pow2(b)
    decreases b - a
  {
    if a < b {
      Pow2Monotone(a, b - 1);
    }
  }

  lemma {:induction false} PathWithinHeight(t: Tree, path: seq<bool>)
    requires IsPath(t, path)
    ensures |path| <= Height(t)
    decreases |path|
  {
    if path != [] {
      PathWithinHeight(Branch(t, path[0]), path[1..]);
    }
  }

  // Among 256 symbols some codeword has eight bits or more ...
  lemma LongCodeword(t: Tree) returns (c: nat)
    requires Alphabet(t) && |LeafValues(t)| == 256
    ensures c < 256 && |Code(t, c)| >= 8
  {
    hide LeafValues, IsPath, At, Code;
    var path := DeepestPath(t);
    CodeIsOnlyPath(t, path);
    c := At(t, path).value;
    HeightBounds(t);
    assert Pow2(7) == 128;
    if Height(t) <= 7 {
      Pow2Monotone(Height(t), 7);
    }
  }

  // ... and none has more than 255, so its length fits an unsigned char and the scratch array.
  lemma CodewordFits(t: Tree, c: nat)
    requires Alphabet(t) && |LeafValues(t)| == 256 && c < 256
    ensures 1 <= |Code(t, c)| <= 255
  {
    hide LeafValues;
    HeightBounds(t);
    PathWithinHeight(t, Code(t, c));
  }

  lemma BuildTreeSize(frequencyTable: seq<nat>)
    requires |frequencyTable| == 256
    ensures |LeafValues(BuildTree(frequencyTable))| == 256
  {
    hide BuildTree, LeavesOf, LeafValues;
    var t := BuildTree(frequencyTable);
    BuildTreeKeeps(frequencyTable);
    HeightBounds(t);
    assert |multiset(LeavesOf(t))| == |multiset(SymbolLeaves(frequencyTable, 256))|;
  }

  // The depths that enter the cost and the Kraft sum are the codeword lengths, leaf by leaf.
  lemma {:induction false} DepthsAreCodeLengths(t: Tree, d: nat, i: nat)
    requires Unambiguous(t) && i < |LeafValues(t)|
    ensures |Depths(t, d)| == |LeafValues(t)|
    ensures LeafValues(t)[i] in LeafValues(t) && Depths(t, d)[i].d == d + |Code(t, LeafValues(t)[i])|
  {
    if t.Node? {
      var n := |LeafValues(t.left)|;
      DepthsAreCodeLengths(t.left, d + 1, if i < n then i else 0);
      DepthsAreCodeLengths(t.right, d + 1, if i < n then 0 else i - n);
    }
  }

  // The codewords of a built tree are complete: their Kraft sum is exactly one.
  lemma KraftEquality(t: Tree)
    requires Alphabet(t)
    ensures Full(Depths(t, 0), Height(t))
    ensures |Depths(t, 0)| == |LeafValues(t)|
    ensures forall i :: 0 <= i < |LeafValues(t)| ==> Depths(t, 0)[i].d == |Code(t, LeafValues(t)[i])|
  {
    hide Depths, LeafValues, Code, KraftSum, Bounded;
    DepthsFull(t, 0, Height(t));
    DepthsAreCodeLengths(t, 0, 0);
    forall i | 0 <= i < |LeafValues(t)|
      ensures Depths(t, 0)[i].d == |Code(t, LeafValues(t)[i])|
    {
      DepthsAreCodeLengths(t, 0, i);
    }
  }

  // Splitting a bit string into codewords and a proper prefix of one is possible in exactly one way.
  lemma UniqueSplit(t: Tree, text: seq<nat>, pad: seq<bool>, text': seq<nat>, pad': seq<bool>)
    requires t.Node? && (forall c :: c in text ==> c in LeafValues(t)) &&
             (forall c :: c in text' ==> c in LeafValues(t))
    requires IsPath(t, pad) && At(t, pad).Node? && IsPath(t, pad') && At(t, pad').Node?
    requires Encode(t, text) + pad == Encode(t, text') + pad'
    ensures text == text' && pad == pad'
  {
    hide Encode, LeafValues;
    DecodeEncode(t, text, pad);
    DecodeEncode(t, text', pad');
    var all := Encode(t, text) + pad;
    assert pad == all[|Encode(t, text)|..] && pad' == all[|Encode(t, text)|..];
  }
}
