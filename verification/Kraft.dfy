/** Weighted depths. A lower bound on the cost of any assignment of code lengths that meets the Kraft
    equality, and hence of any binary tree. */
module Kraft {

  // a leaf as its weight and its depth
  datatype WD = WD(w: nat, d: nat)

  function Pow2(n: nat): (p: nat)
    ensures p >= 1
  {
    if n == 0 then 1 else 2 * Pow2(n - 1)
  }

  // sum of weight times depth
  function Cost(ps: seq<WD>): nat {
    if ps == [] then 0 else ps[0].w * ps[0].d + Cost(ps[1..])
  }

  predicate Bounded(ps: seq<WD>, m: nat) {
    forall p :: p in ps ==> p.d <= m
  }

  // the Kraft sum scaled by 2^m
  function KraftSum(ps: seq<WD>, m: nat): nat
    requires Bounded(ps, m)
  {
    if ps == [] then 0 else
      assert ps[0] in ps;
      Pow2(m - ps[0].d) + KraftSum(ps[1..], m)
  }

  // code lengths of a full binary tree
  ghost predicate Full(ps: seq<WD>, m: nat) {
    Bounded(ps, m) && KraftSum(ps, m) == Pow2(m)
  }

  function Weights(ps: seq<WD>): (ws: seq<nat>)
    ensures |ws| == |ps|
    ensures forall i :: 0 <= i < |ps| ==> ws[i] == ps[i].w
  {
    if ps == [] then [] else [ps[0].w] + Weights(ps[1..])
  }

  function InsertWeight(ws: seq<nat>, w: nat): (r: seq<nat>)
    ensures |r| == |ws| + 1
  {
    if ws == [] then [w] else if ws[0] < w then [ws[0]] + InsertWeight(ws[1..], w) else [w] + ws
  }

  function InsertPair(ps: seq<WD>, p: WD): (r: seq<WD>)
    ensures |r| == |ps| + 1
  {
    if ps == [] then [p] else if ps[0].w < p.w then [ps[0]] + InsertPair(ps[1..], p) else [p] + ps
  }

  // what repeated merging of the two lightest costs
  function GreedyCost(ws: seq<nat>): nat
    decreases |ws|
  {
    if |ws| < 2 then 0 else ws[0] + ws[1] + GreedyCost(InsertWeight(ws[2..], ws[0] + ws[1]))
  }

  ghost predicate Ascending(ws: seq<nat>) {
    forall i, j :: 0 <= i < j < |ws| ==> ws[i] <= ws[j]
  }

  lemma {:induction false} InsertWeightAscending(ws: seq<nat>, w: nat)
    requires Ascending(ws)
    ensures Ascending(InsertWeight(ws, w))
    ensures forall x :: x in InsertWeight(ws, w) ==> x == w || x in ws
  {
    if ws != [] && ws[0] < w {
      InsertWeightAscending(ws[1..], w);
      var r := InsertWeight(ws[1..], w);
      forall i | 0 <= i < |r|
        ensures ws[0] <= r[i]
      {
        assert r[i] in r;
      }
    }
  }

  lemma {:induction false} InsertPairFacts(ps: seq<WD>, p: WD, m: nat)
    requires Bounded(ps, m) && p.d <= m
    ensures Bounded(InsertPair(ps, p), m)
    ensures KraftSum(InsertPair(ps, p), m) == KraftSum(ps, m) + Pow2(m - p.d)
    ensures Cost(InsertPair(ps, p)) == Cost(ps) + p.w * p.d
    ensures Weights(InsertPair(ps, p)) == InsertWeight(Weights(ps), p.w)
  {
    hide Bounded, KraftSum, Pow2, Cost, Weights;
    var r := InsertPair(ps, p);
    if ps != [] && ps[0].w < p.w {
      Ahead(ps, m);
      InsertPairFacts(ps[1..], p, m);
      assert r[1..] == InsertPair(ps[1..], p);
      Ahead(r, m);
    } else {
      assert r[1..] == ps;
      Ahead(r, m);
    }
    if ps == [] {
      NoPairs(ps, m);
    } else {
      Ahead(ps, m);
    }
  }

  lemma NoPairs(ps: seq<WD>, m: nat)
    requires ps == []
    ensures Bounded(ps, m) && KraftSum(ps, m) == 0 && Cost(ps) == 0 && Weights(ps) == []
  {
  }

  // the sums of a list that starts with a pair
  lemma Ahead(ps: seq<WD>, m: nat)
    requires ps != [] && (Bounded(ps, m) || (ps[0].d <= m && Bounded(ps[1..], m)))
    ensures ps[0].d <= m && Bounded(ps, m) && Bounded(ps[1..], m)
    ensures KraftSum(ps, m) == Pow2(m - ps[0].d) + KraftSum(ps[1..], m)
    ensures Cost(ps) == ps[0].w * ps[0].d + Cost(ps[1..])
    ensures Weights(ps) == [ps[0].w] + Weights(ps[1..])
  {
    hide Pow2;
    assert ps == [ps[0]] + ps[1..];
  }

  // replacing one pair
  lemma {:induction false} UpdatePair(ps: seq<WD>, i: nat, q: WD, m: nat)
    requires i < |ps| && Bounded(ps, m) && q.d <= m
    ensures Bounded(ps[i := q], m) && ps[i].d <= m
    ensures KraftSum(ps[i := q], m) + Pow2(m - ps[i].d) == KraftSum(ps, m) + Pow2(m - q.d)
    ensures Cost(ps[i := q]) + ps[i].w * ps[i].d == Cost(ps) + q.w * q.d
  {
    assert ps[i] in ps;
    if i == 0 {
      assert ps[0 := q][1..] == ps[1..];
    } else {
      UpdatePair(ps[1..], i - 1, q, m);
      assert ps[i := q][1..] == ps[1..][i - 1 := q];
    }
  }

  // Giving the lighter of two leaves the deeper place never costs more.
  lemma Exchange(ps: seq<WD>, i: nat, k: nat, m: nat) returns (qs: seq<WD>)
    requires i < |ps| && k < |ps| && Full(ps, m)
    requires ps[i].w <= ps[k].w && ps[i].d <= ps[k].d
    ensures Full(qs, m) && Cost(qs) <= Cost(ps) && Weights(qs) == Weights(ps)
    ensures |qs| == |ps| && qs[i].d == ps[k].d && qs[k].d == ps[i].d
    ensures forall j :: 0 <= j < |ps| && j != i && j != k ==> qs[j] == ps[j]
  {
    hide Cost, KraftSum, Pow2, Weights;
    if i == k {
      return ps;
    }
    var a, b := WD(ps[i].w, ps[k].d), WD(ps[k].w, ps[i].d);
    assert ps[i] in ps && ps[k] in ps;
    UpdatePair(ps, i, a, m);
    var rs := ps[i := a];
    assert rs[k] == ps[k];
    UpdatePair(rs, k, b, m);
    qs := rs[k := b];
    SwapCost(Cost(ps), Cost(rs), Cost(qs), ps[i].w, ps[k].w, ps[i].d, ps[k].d);
    assert Weights(qs) == Weights(ps);
  }

  lemma SwapCost(c0: int, c1: int, c2: int, w1: nat, w2: nat, d1: nat, d2: nat)
    requires w1 <= w2 && d1 <= d2
    requires c1 + w1 * d1 == c0 + w1 * d2 && c2 + w2 * d2 == c1 + w2 * d1
    ensures c2 <= c0
  {
    assert (w2 - w1) * (d2 - d1) >= 0;
    assert (w2 - w1) * (d2 - d1) == w2 * d2 - w2 * d1 - w1 * d2 + w1 * d1;
  }

  lemma {:induction false} KraftHalves(ps: seq<WD>, m: nat)
    requires m > 0 && Bounded(ps, m - 1)
    ensures Bounded(ps, m) && KraftSum(ps, m) == 2 * KraftSum(ps, m - 1)
  {
    if ps != [] {
      assert ps[0] in ps;
      KraftHalves(ps[1..], m);
    }
  }

  lemma EvenPow2(n: nat)
    requires n > 0
    ensures Pow2(n) % 2 == 0
  {
  }

  lemma OddSum(one: nat, twice: nat, half: nat)
    requires one == 1 && twice == 2 * half
    ensures (one + twice) % 2 == 1
  {
  }

  lemma EvenAndOdd(even: nat, odd: nat)
    requires even % 2 == 0 && odd % 2 == 1
    ensures (even + odd) % 2 == 1
  {
  }

  lemma KraftStep(ps: seq<WD>, m: nat)
    requires ps != [] && Bounded(ps, m)
    ensures ps[0].d <= m && Bounded(ps[1..], m)
    ensures KraftSum(ps, m) == Pow2(m - ps[0].d) + KraftSum(ps[1..], m)
  {
    assert ps[0] in ps;
  }

  lemma BoundedByIndex(ps: seq<WD>, m: nat)
    requires forall j :: 0 <= j < |ps| ==> ps[j].d <= m
    ensures Bounded(ps, m)
  {
  }

  lemma {:induction false} KraftParity(ps: seq<WD>, m: nat, k: nat)
    requires m > 0 && k < |ps| && Bounded(ps, m) && ps[k].d == m
    requires forall j :: 0 <= j < |ps| && j != k ==> ps[j].d < m
    ensures KraftSum(ps, m) % 2 == 1
  {
    hide KraftSum, Bounded;
    KraftStep(ps, m);
    var rest := ps[1..];
    if k == 0 {
      assert Pow2(m - ps[0].d) == 1;
      assert forall j :: 0 <= j < |rest| ==> rest[j].d == ps[j + 1].d;
      BoundedByIndex(rest, m - 1);
      KraftHalves(rest, m);
      OddSum(Pow2(m - ps[0].d), KraftSum(rest, m), KraftSum(rest, m - 1));
    } else {
      KraftParity(rest, m, k - 1);
      EvenPow2(m - ps[0].d);
      EvenAndOdd(Pow2(m - ps[0].d), KraftSum(rest, m));
    }
  }

  lemma {:induction false} KraftAtLeastLength(ps: seq<WD>, m: nat)
    requires Bounded(ps, m)
    ensures KraftSum(ps, m) >= |ps|
  {
    if ps != [] {
      KraftAtLeastLength(ps[1..], m);
    }
  }

  // With two leaves or more there are two at the greatest depth.
  lemma {:induction false} TwoDeepest(ps: seq<WD>, m: nat) returns (depth: nat, k: nat, l: nat)
    requires |ps| >= 2 && Full(ps, m)
    ensures 0 < depth <= m && Full(ps, depth)
    ensures k < |ps| && l < |ps| && k != l && ps[k].d == depth && ps[l].d == depth
    decreases m
  {
    KraftAtLeastLength(ps, m);
    assert m > 0 ==> Pow2(m) % 2 == 0;
    if k0: nat :| k0 < |ps| && ps[k0].d == m {
      depth, k := m, k0;
      if forall j: nat :: j < |ps| && j != k ==> ps[j].d != m {
        forall j: nat | j < |ps| && j != k
          ensures ps[j].d < m
        {
          assert ps[j] in ps;
        }
        KraftParity(ps, m, k);
        assert false;
      }
      l :| 0 <= l < |ps| && l != k && ps[l].d == m;
    } else {
      assert m > 0;
      forall p | p in ps
        ensures p.d <= m - 1
      {
        var j: nat :| j < |ps| && ps[j] == p;
        assert ps[j].d != m;
      }
      KraftHalves(ps, m);
      depth, k, l := TwoDeepest(ps, m - 1);
    }
  }

  // any lengths can be rearranged, at no cost, so that the two lightest leaves are siblings-deep
  lemma LightestDeepest(ps: seq<WD>, m: nat) returns (qs: seq<WD>, depth: nat)
    requires |ps| >= 2 && Full(ps, m) && Ascending(Weights(ps))
    ensures 0 < depth && Full(qs, depth) && |qs| == |ps| && Cost(qs) <= Cost(ps) && Weights(qs) == Weights(ps)
    ensures qs[0].d == depth && qs[1].d == depth
  {
    var k, l;
    depth, k, l := TwoDeepest(ps, m);
    assert ps[0] in ps && ps[1] in ps;
    var far := if k != 0 then k else l;
    var near := if k != 0 then l else k;
    if near == 0 {
      // position 0 is already deepest; bring the other deepest place to position 1
      qs := Exchange(ps, 1, far, depth);
    } else {
      var rs := Exchange(ps, 0, near, depth);
      assert rs[1] in rs;
      var other := if far == 1 || rs[1].d == depth then 1 else far;
      qs := Exchange(rs, 1, other, depth);
    }
  }

  // Repeated merging of the two lightest weights is a lower bound for every choice of code lengths.
  lemma {:induction false} GreedyIsLowerBound(ps: seq<WD>, m: nat)
    requires Full(ps, m) && Ascending(Weights(ps))
    ensures Cost(ps) >= GreedyCost(Weights(ps))
    decreases |ps|
  {
    hide InsertPair, InsertWeight, Weights, Cost, KraftSum, Bounded, Ascending;
    if |ps| >= 2 {
      var qs, depth := LightestDeepest(ps, m);
      var merged := WD(qs[0].w + qs[1].w, depth - 1);
      RemoveTwo(qs, depth);
      MergedIsFull(qs, depth);
      InsertPairFacts(qs[2..], merged, depth);
      TailAscending(Weights(qs));
      InsertWeightAscending(Weights(qs)[2..], merged.w);
      GreedyIsLowerBound(InsertPair(qs[2..], merged), depth);
    }
  }

  lemma TailAscending(ws: seq<nat>)
    requires |ws| >= 2 && Ascending(ws)
    ensures Ascending(ws[2..])
  {
  }

  lemma MergedIsFull(qs: seq<WD>, depth: nat)
    requires |qs| >= 2 && 0 < depth && Full(qs, depth) && qs[0].d == depth && qs[1].d == depth
    ensures Full(InsertPair(qs[2..], WD(qs[0].w + qs[1].w, depth - 1)), depth)
  {
    hide InsertPair;
    RemoveTwo(qs, depth);
    InsertPairFacts(qs[2..], WD(qs[0].w + qs[1].w, depth - 1), depth);
  }

  lemma RemoveTwo(qs: seq<WD>, depth: nat)
    requires |qs| >= 2 && 0 < depth && Bounded(qs, depth) && qs[0].d == depth && qs[1].d == depth
    ensures Bounded(qs[2..], depth) && KraftSum(qs, depth) == KraftSum(qs[2..], depth) + Pow2(1)
    ensures Cost(qs) == Cost(qs[2..]) + (qs[0].w + qs[1].w) * (depth - 1) + qs[0].w + qs[1].w
    ensures Weights(qs[2..]) == Weights(qs)[2..]
  {
    assert qs[1..][1..] == qs[2..];
  }
}
