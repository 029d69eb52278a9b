/** How short a learnt tree makes the text it was learnt from. */
module LearntTrees {
  import opened Bytes
  import opened HuffmanTrees
  import opened Kraft
  import opened Optimality
  import opened DepthBound
  import opened Codes
  import opened TextCoding
  import opened StringCompressors

  // the sum over all byte values below n of count times length
  function Dot(f: seq<nat>, g: seq<nat>, n: nat): nat
    requires n <= |f| && n <= |g|
  {
    if n == 0 then 0 else Dot(f, g, n - 1) + f[n - 1] * g[n - 1]
  }

  lemma {:induction false} DotStep(f: seq<nat>, g: seq<nat>, n: nat, c: nat)
    requires n <= |f| && n <= |g| && c < |f|
    ensures Dot(f[c := f[c] + 1], g, n) == Dot(f, g, n) + if c < n then g[c] else 0
  {
    if n > 0 {
      DotStep(f, g, n - 1, c);
      OneMoreTime(f[n - 1], g[n - 1]);
    }
  }

  lemma OneMoreTime(x: nat, y: nat)
    ensures (x + 1) * y == x * y + y
  {
  }

  lemma {:induction false} DotZero(f: seq<nat>, g: seq<nat>, n: nat)
    requires n <= |f| && n <= |g| && forall c :: 0 <= c < n ==> f[c] == 0
    ensures Dot(f, g, n) == 0
  {
    if n > 0 {
      DotZero(f, g, n - 1);
    }
  }

  function CodeLengths(t: Tree): (g: seq<nat>)
    requires forall c: nat :: c < 256 ==> c in LeafValues(t)
    ensures |g| == 256
  {
    seq(256, c requires 0 <= c < 256 => |Code(t, c)|)
  }

  lemma CountsStep(text: seq<byte>)
    requires text != []
    ensures var before, c := text[..|text| - 1], text[|text| - 1] as nat;
            FrequencyTable(text) == FrequencyTable(before)[c := FrequencyTable(before)[c] + 1]
  {
  }

  // The length of an encoding is the sum of its codeword lengths, each as often as its byte occurs.
  lemma {:induction false} EncodedLength(t: Tree, text: seq<byte>)
    requires Alphabet(t)
    ensures |Encode(t, Symbols(text))| == Dot(FrequencyTable(text), CodeLengths(t), 256)
    decreases |text|
  {
    hide FrequencyTable, Encode, LeafValues, Unambiguous, Code;
    if text == [] {
      NoCounts(text);
      DotZero(FrequencyTable(text), CodeLengths(t), 256);
      EmptyText(t);
    } else {
      var before, c := text[..|text| - 1], text[|text| - 1] as nat;
      EncodedLength(t, before);
      CountsStep(text);
      DotStep(FrequencyTable(before), CodeLengths(t), 256, c);
      assert Symbols(text) == Symbols(before) + [c];
      EncodeAppend(t, Symbols(before), c);
    }
  }

  lemma NoCounts(text: seq<byte>)
    requires text == []
    ensures forall c :: 0 <= c < 256 ==> FrequencyTable(text)[c] == 0
  {
  }

  // the same tree with the weights of its leaves taken from a table
  function Reweigh(t: Tree, ws: seq<nat>): Tree {
    match t
    case Leaf(v, _) => Leaf(v, if v < |ws| then ws[v] else 0)
    case Node(l, r, w) => Node(Reweigh(l, ws), Reweigh(r, ws), w)
  }

  // the share of a subtree at depth d in the sum, over the symbols below n
  function PartSum(t: Tree, d: nat, ws: seq<nat>, n: nat): nat
    requires n <= |ws|
  {
    if n == 0 then 0 else
      PartSum(t, d, ws, n - 1) + if n - 1 in LeafValues(t) then ws[n - 1] * (d + |Code(t, n - 1)|) else 0
  }

  lemma {:induction false} PartSumNode(t: Tree, d: nat, ws: seq<nat>, n: nat)
    requires t.Node? && Unambiguous(t) && n <= |ws|
    ensures PartSum(t, d, ws, n) == PartSum(t.left, d + 1, ws, n) + PartSum(t.right, d + 1, ws, n)
  {
    hide LeafValues, Unambiguous, Code;
    if n > 0 {
      PartSumNode(t, d, ws, n - 1);
      OneDeeper(t, d, n - 1);
    }
  }

  lemma OneDeeper(t: Tree, d: nat, c: nat)
    requires t.Node? && Unambiguous(t)
    ensures c in LeafValues(t) <==> c in LeafValues(t.left) || c in LeafValues(t.right)
    ensures c in LeafValues(t.left) ==> c !in LeafValues(t.right) && d + |Code(t, c)| == d + 1 + |Code(t.left, c)|
    ensures c in LeafValues(t.right) ==> c !in LeafValues(t.left) && d + |Code(t, c)| == d + 1 + |Code(t.right, c)|
  {
  }

  lemma {:induction false} PartSumLeaf(t: Tree, d: nat, ws: seq<nat>, n: nat)
    requires t.Leaf? && n <= |ws|
    ensures PartSum(t, d, ws, n) == if t.value < n then ws[t.value] * d else 0
  {
    if n > 0 {
      PartSumLeaf(t, d, ws, n - 1);
      if t.value == n - 1 {
        assert Code(t, n - 1) == [];
      }
    }
  }

  lemma {:induction false} ReweighedCost(t: Tree, d: nat, ws: seq<nat>)
    requires Unambiguous(t)
    ensures Cost(Depths(Reweigh(t, ws), d)) == PartSum(t, d, ws, |ws|)
  {
    match t
    case Leaf(v, _) =>
      PartSumLeaf(t, d, ws, |ws|);
      assert Depths(Reweigh(t, ws), d)[1..] == [];
    case Node(l, r, _) =>
      ReweighedCost(l, d + 1, ws);
      ReweighedCost(r, d + 1, ws);
      PartSumNode(t, d, ws, |ws|);
      AppendCost(Depths(Reweigh(l, ws), d + 1), Depths(Reweigh(r, ws), d + 1));
  }

  lemma {:induction false} PartSumIsDot(t: Tree, ws: seq<nat>, n: nat)
    requires Alphabet(t) && n <= |ws| == 256
    ensures PartSum(t, 0, ws, n) == Dot(ws, CodeLengths(t), n)
  {
    hide LeafValues, Unambiguous, Code;
    if n > 0 {
      PartSumIsDot(t, ws, n - 1);
    }
  }

  // weighted by a table, the depth of a tree is the sum of its codeword lengths
  lemma ReweighedDepth(t: Tree, ws: seq<nat>)
    requires Alphabet(t) && |ws| == 256
    ensures WeightedDepth(Reweigh(t, ws)) == Dot(ws, CodeLengths(t), 256)
  {
    hide LeafValues, Code, Cost, Depths, PartSum, Dot;
    ReweighedCost(t, 0, ws);
    PartSumIsDot(t, ws, 256);
  }

  // the weights of the symbols of a subtree, below n
  function PartWeights(t: Tree, ws: seq<nat>, n: nat): multiset<nat>
    requires n <= |ws|
  {
    if n == 0 then multiset{} else
      PartWeights(t, ws, n - 1) + if n - 1 in LeafValues(t) then multiset{ws[n - 1]} else multiset{}
  }

  lemma {:induction false} PartWeightsNode(t: Tree, ws: seq<nat>, n: nat)
    requires t.Node? && Unambiguous(t) && n <= |ws|
    ensures PartWeights(t, ws, n) == PartWeights(t.left, ws, n) + PartWeights(t.right, ws, n)
  {
    if n > 0 {
      PartWeightsNode(t, ws, n - 1);
    }
  }

  lemma {:induction false} PartWeightsLeaf(t: Tree, ws: seq<nat>, n: nat)
    requires t.Leaf? && n <= |ws|
    ensures PartWeights(t, ws, n) == if t.value < n then multiset{ws[t.value]} else multiset{}
  {
    if n > 0 {
      PartWeightsLeaf(t, ws, n - 1);
    }
  }

  lemma {:induction false} ReweighedLeaves(t: Tree, ws: seq<nat>)
    requires Unambiguous(t) && forall c :: c in LeafValues(t) ==> c < |ws|
    ensures multiset(LeafWeights(Reweigh(t, ws))) == PartWeights(t, ws, |ws|)
  {
    match t
    case Leaf(v, _) =>
      assert v in LeafValues(t);
      PartWeightsLeaf(t, ws, |ws|);
    case Node(l, r, _) =>
      PartsBelow(t, |ws|);
      ReweighedLeaves(l, ws);
      ReweighedLeaves(r, ws);
      PartWeightsNode(t, ws, |ws|);
  }

  lemma PartsBelow(t: Tree, n: nat)
    requires t.Node? && forall c :: c in LeafValues(t) ==> c < n
    ensures (forall c :: c in LeafValues(t.left) ==> c < n) && (forall c :: c in LeafValues(t.right) ==> c < n)
  {
    forall c | c in LeafValues(t.left) || c in LeafValues(t.right)
      ensures c in LeafValues(t)
    {
    }
  }

  lemma {:induction false} AllWeights(t: Tree, ws: seq<nat>, n: nat)
    requires Alphabet(t) && n <= |ws| == 256
    ensures PartWeights(t, ws, n) == multiset(ws[..n])
  {
    hide LeafValues, Unambiguous;
    if n > 0 {
      AllWeights(t, ws, n - 1);
      assert ws[..n] == ws[..n - 1] + [ws[n - 1]];
    }
  }

  // what tree building makes of the counts: none is 0
  function Raised(f: seq<nat>): (ws: seq<nat>)
    ensures |ws| == |f|
  {
    seq(|f|, c requires 0 <= c < |f| => if f[c] == 0 then 1 else f[c])
  }

  lemma SymbolWeightsAreRaised(f: seq<nat>)
    requires |f| == 256
    ensures SymbolWeights(f) == Raised(f)
  {
  }

  // A built tree already carries those weights.
  lemma {:induction false} BuiltIsReweighed(t: Tree, ws: seq<nat>, d: nat)
    requires forall x :: x in LeavesOf(t) ==> x.Leaf? && x.value < |ws| && x.weight == ws[x.value]
    ensures Depths(Reweigh(t, ws), d) == Depths(t, d)
  {
    match t
    case Leaf(_, _) =>
      assert t in LeavesOf(t);
    case Node(l, r, _) =>
      LeavesBelow(t);
      BuiltIsReweighed(l, ws, d + 1);
      BuiltIsReweighed(r, ws, d + 1);
  }

  lemma LeavesBelow(t: Tree)
    requires t.Node?
    ensures forall x :: x in LeavesOf(t) <==> x in LeavesOf(t.left) || x in LeavesOf(t.right)
  {
  }

  lemma BuiltDepth(f: seq<nat>)
    requires |f| == 256
    ensures Alphabet(BuildTree(f))
    ensures WeightedDepth(BuildTree(f)) == Dot(Raised(f), CodeLengths(BuildTree(f)), 256)
  {
    hide BuildTree, LeavesOf, LeafValues, Unambiguous, Depths, LeafWeight;
    var t := BuildTree(f);
    BuildTreeAlphabet(f);
    BuildTreeKeeps(f);
    forall x | x in LeavesOf(t)
      ensures x.Leaf? && x.value < 256 && x.weight == Raised(f)[x.value]
    {
      assert x in multiset(SymbolLeaves(f, 256));
    }
    BuiltIsReweighed(t, Raised(f), 0);
    ReweighedDepth(t, Raised(f));
  }

  // the total length of the codewords of the bytes that do not occur
  function Unused(t: Tree, f: seq<nat>, n: nat): nat
    requires n <= |f| == 256 && forall c: nat :: c < 256 ==> c in LeafValues(t)
  {
    if n == 0 then 0 else Unused(t, f, n - 1) + if f[n - 1] == 0 then |Code(t, n - 1)| else 0
  }

  lemma {:induction false} RaisedSum(t: Tree, f: seq<nat>, n: nat)
    requires n <= |f| == 256 && forall c: nat :: c < 256 ==> c in LeafValues(t)
    ensures Dot(Raised(f), CodeLengths(t), n) == Dot(f, CodeLengths(t), n) + Unused(t, f, n)
  {
    hide LeafValues, Code;
    if n > 0 {
      RaisedSum(t, f, n - 1);
    }
  }

  lemma {:induction false} CountsAddUp(text: seq<byte>, ones: seq<nat>)
    requires |ones| == 256 && forall c :: 0 <= c < 256 ==> ones[c] == 1
    ensures Dot(FrequencyTable(text), ones, 256) == |text|
    decreases |text|
  {
    hide FrequencyTable;
    if text == [] {
      NoCounts(text);
      DotZero(FrequencyTable(text), ones, 256);
    } else {
      var before := text[..|text| - 1];
      CountsAddUp(before, ones);
      CountsStep(text);
      DotStep(FrequencyTable(before), ones, 256, text[|text| - 1] as nat);
    }
  }

  lemma {:induction false} RaisedTotal(f: seq<nat>, ones: seq<nat>, n: nat)
    requires n <= |f| == |ones| == 256 && forall c :: 0 <= c < 256 ==> ones[c] == 1
    ensures LeafWeight(SymbolLeaves(f, n)) <= Dot(f, ones, n) + n
  {
    hide LeafWeight, SymbolLeaves;
    if n == 0 {
      NoLeaves(SymbolLeaves(f, 0));
    } else {
      RaisedTotal(f, ones, n - 1);
      SymbolLeavesStep(f, n);
      LeafWeightAppend(SymbolLeaves(f, n - 1), LeafFor(f, n - 1));
    }
  }

  lemma NoLeaves(leaves: seq<Tree>)
    requires leaves == []
    ensures LeafWeight(leaves) == 0
  {
  }

  // no text that is 256 bytes shorter than a word allows makes the weights wrap around
  lemma TextFits(text: seq<byte>)
    requires |text| < WORD - 256
    ensures NoOverflow(FrequencyTable(text))
  {
    hide FrequencyTable, SymbolLeaves, LeafWeight, Dot;
    var ones := seq(256, c => 1);
    CountsAddUp(text, ones);
    RaisedTotal(FrequencyTable(text), ones, 256);
  }

  // A learnt tree is optimal for its text, except that bytes that do not occur count as occurring once:
  // against any other complete tree it can lose at most what it saves on their codewords.
  lemma LearntIsOptimal(text: seq<byte>, other: Tree)
    requires |text| < WORD - 256 && Alphabet(other)
    ensures var f := FrequencyTable(text); var t := BuildTree(f);
            && Alphabet(t)
            && |Encode(t, Symbols(text))| + Unused(t, f, 256) <= |Encode(other, Symbols(text))| + Unused(other, f, 256)
  {
    hide FrequencyTable, BuildTree, Encode, LeafValues, Unambiguous, Dot, WeightedDepth, SymbolWeights, CodeLengths,
      Unused;
    var f := FrequencyTable(text);
    var t := BuildTree(f);
    TextFits(text);
    NoOverflowIsEnough(f);
    BuiltDepth(f);
    SymbolWeightsAreRaised(f);
    ReweighedLeaves(other, Raised(f));
    AllWeights(other, Raised(f), 256);
    assert Raised(f)[..256] == Raised(f);
    Optimal(f, Reweigh(other, Raised(f)));
    ReweighedDepth(other, Raised(f));
    RaisedSum(t, f, 256);
    RaisedSum(other, f, 256);
    EncodedLength(t, text);
    EncodedLength(other, text);
  }

  // When every byte occurs, no complete prefix code makes the text shorter. The condition is sufficient; a
  // text that lacks bytes can be the shortest as well.
  lemma FullTextIsShortest(text: seq<byte>, other: Tree)
    requires |text| < WORD - 256 && Alphabet(other)
    requires forall c :: 0 <= c < 256 ==> FrequencyTable(text)[c] > 0
    ensures Alphabet(BuildTree(FrequencyTable(text)))
    ensures |Encode(BuildTree(FrequencyTable(text)), Symbols(text))| <= |Encode(other, Symbols(text))|
  {
    hide FrequencyTable, BuildTree, Encode, LeafValues, Unambiguous;
    LearntIsOptimal(text, other);
    NothingUnused(BuildTree(FrequencyTable(text)), FrequencyTable(text), 256);
    NothingUnused(other, FrequencyTable(text), 256);
  }

  lemma {:induction false} NothingUnused(t: Tree, f: seq<nat>, n: nat)
    requires n <= |f| == 256 && (forall c: nat :: c < 256 ==> c in LeafValues(t))
    requires forall c :: 0 <= c < 256 ==> f[c] > 0
    ensures Unused(t, f, n) == 0
  {
    if n > 0 {
      NothingUnused(t, f, n - 1);
    }
  }

  // a chain of leaves, the first one at depth one
  function Comb(values: seq<nat>): Tree
    requires values != []
  {
    if |values| == 1 then Leaf(values[0], 1) else Node(Leaf(values[0], 1), Comb(values[1..]), 1)
  }

  lemma {:induction false} CombFacts(values: seq<nat>)
    requires values != [] && forall i, j :: 0 <= i < j < |values| ==> values[i] != values[j]
    ensures LeafValues(Comb(values)) == values && Unambiguous(Comb(values))
    ensures |values| > 1 ==> values[0] in values && Code(Comb(values), values[0]) == [false]
    decreases |values|
  {
    if |values| > 1 {
      CombFacts(values[1..]);
      assert values == [values[0]] + values[1..];
    } else {
      assert values == [values[0]];
    }
  }

  // all other byte values below n
  function Others(c: nat, n: nat): seq<nat> {
    if n == 0 then [] else Others(c, n - 1) + (if n - 1 == c then [] else [n - 1])
  }

  lemma {:induction false} OthersAre(c: nat, n: nat)
    ensures forall x: nat :: x in Others(c, n) <==> x < n && x != c
    ensures forall i, j :: 0 <= i < j < |Others(c, n)| ==> Others(c, n)[i] != Others(c, n)[j]
  {
    if n > 0 {
      var fewer := Others(c, n - 1);
      OthersAre(c, n - 1);
      assert forall i :: 0 <= i < |fewer| ==> fewer[i] in fewer;
      assert Others(c, n) == if n - 1 == c then fewer else fewer + [n - 1];
    }
  }

  function OneBitTree(c: nat): Tree {
    Comb([c] + Others(c, 256))
  }

  lemma OneBitTreeFacts(c: nat)
    requires c < 256
    ensures Alphabet(OneBitTree(c)) && Code(OneBitTree(c), c) == [false]
  {
    var rest := Others(c, 256);
    OthersAre(c, 256);
    var values := [c] + rest;
    forall i, j | 0 <= i < j < |values|
      ensures values[i] != values[j]
    {
      assert values[j] == rest[j - 1] && rest[j - 1] in rest;
    }
    assert (if c == 0 then 1 else 0) in rest;
    CombFacts(values);
  }

  lemma {:induction false} UnitSum(f: seq<nat>, n: nat)
    requires n <= |f| == 256 && forall c :: 0 <= c < 256 ==> f[c] <= 1
    ensures LeafWeight(SymbolLeaves(f, n)) == n
  {
    if n == 0 {
      NoLeaves(SymbolLeaves(f, 0));
    } else {
      hide LeafWeight, SymbolLeaves;
      UnitSum(f, n - 1);
      SymbolLeavesStep(f, n);
      LeafWeightAppend(SymbolLeaves(f, n - 1), LeafFor(f, n - 1));
    }
  }

  // With equal weights no byte gets a codeword of one bit: its sibling would carry all the other weight in
  // two branches that are no heavier than one leaf.
  lemma NoOneBitCode(f: seq<nat>, c: nat)
    requires |f| == 256 && (forall x :: 0 <= x < 256 ==> f[x] <= 1) && c < 256
    ensures Alphabet(BuildTree(f)) && |Code(BuildTree(f), c)| >= 2
  {
    hide BuildTree, SymbolLeaves, LeafWeight, LeavesOf, LeafValues, Unambiguous, Graded;
    var t := BuildTree(f);
    UnitSum(f, 256);
    NoOverflowIsEnough(f);
    BuildTreeAlphabet(f);
    BuildTreeGraded(f);
    BuildTreeKeeps(f);
    var path := Code(t, c);
    if t.Node? {
      NotTheRoot(t, path);
    }
    if |path| == 1 {
      var child, sibling := Branch(t, path[0]), Branch(t, !path[0]);
      LeafBelow(t, path[0], path);
      LeavesOfUnits(f);
      GradedRoot(t, path[0]);
      SiblingIsNode(f, t, path[0]);
    }
  }

  lemma NotTheRoot(t: Tree, path: seq<bool>)
    requires t.Node? && IsPath(t, path) && At(t, path).Leaf?
    ensures |path| > 0
  {
  }

  lemma LeafBelow(t: Tree, bit: bool, path: seq<bool>)
    requires t.Node? && IsPath(t, path) && |path| == 1 && path[0] == bit && At(t, path).Leaf?
    ensures Branch(t, bit).Leaf? && Branch(t, bit) in LeavesOf(t)
    ensures Total(t) == Total(Branch(t, bit)) + Total(Branch(t, !bit))
  {
    assert path[1..] == [];
    assert At(t, path) == Branch(t, bit);
  }

  lemma LeavesOfUnits(f: seq<nat>)
    requires |f| == 256 && forall x :: 0 <= x < 256 ==> f[x] <= 1
    ensures forall leaf :: leaf in LeavesOf(BuildTree(f)) ==> leaf.Leaf? && leaf.weight == 1
  {
    hide BuildTree, LeavesOf, LeafWeight;
    BuildTreeKeeps(f);
    forall leaf | leaf in LeavesOf(BuildTree(f))
      ensures leaf.Leaf? && leaf.weight == 1
    {
      assert leaf in multiset(SymbolLeaves(f, 256));
    }
  }

  lemma GradedRoot(t: Tree, bit: bool)
    requires t.Node? && Graded(t)
    ensures ChildrenAtMost(Branch(t, !bit), Total(Branch(t, bit)))
  {
  }

  lemma SiblingIsNode(f: seq<nat>, t: Tree, bit: bool)
    requires |f| == 256 && t == BuildTree(f) && t.Node? && Branch(t, bit).Leaf?
    ensures Branch(t, !bit).Node?
  {
    hide BuildTree, LeavesOf;
    BuildTreeSize(f);
    assert |LeafValues(t)| == |LeafValues(Branch(t, bit))| + |LeafValues(Branch(t, !bit))|;
  }

  // A learnt tree need not be optimal for the text itself: learnt from a single byte it spends two bits or
  // more on it, and another complete tree one.
  lemma SingleByteLoses(c: byte)
    ensures var text := [c]; var t, other := BuildTree(FrequencyTable(text)), OneBitTree(c as nat);
            && Alphabet(t) && Alphabet(other)
            && |Encode(other, Symbols(text))| == 1 < |Encode(t, Symbols(text))|
  {
    hide FrequencyTable, BuildTree, Encode, LeafValues, Unambiguous, OneBitTree, Code;
    var text := [c];
    AtMostOnce(c);
    NoOneBitCode(FrequencyTable(text), c as nat);
    OneBitTreeFacts(c as nat);
    OneCodeword(BuildTree(FrequencyTable(text)), c);
    OneCodeword(OneBitTree(c as nat), c);
  }

  lemma AtMostOnce(c: byte)
    ensures forall x :: 0 <= x < 256 ==> FrequencyTable([c])[x] <= 1
  {
    hide FrequencyTable;
    NoCounts([c][..0]);
    CountsStep([c]);
  }

  lemma OneCodeword(t: Tree, c: byte)
    requires Alphabet(t)
    ensures Encode(t, Symbols([c])) == Code(t, c as nat)
  {
    hide Code, LeafValues, Unambiguous;
    assert Symbols([c]) == [c as nat] && [c as nat][1..] == [];
    EmptyText(t);
    assert Code(t, c as nat) + [] == Code(t, c as nat);
  }
}
