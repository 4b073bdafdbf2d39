/** Connecting and evaluating the substrate (HyperNeat.cpp:101-197 and 298-315). What the network that draws the
    connections answers for a pair of nodes is a parameter. */
module HyperNeats {
  import opened Formulas
  import opened Substrates

  // ---------- which connections there should be ----------

  /** The types of the nodes by layer, the weight drawn from node j of layer i to node k of layer i + 1, and the
      threshold. */
  datatype Plan = Plan(types: seq<seq<int>>, weight: (nat, nat, nat) -> real, threshold: real)

  function Abs(x: real): real {
    if x < 0.0 then -x else x
  }

  /** There is a node k in layer i. */
  predicate IsNode(p: Plan, i: nat, k: nat) {
    i < |p.types| && k < |p.types[i]|
  }

  /** Node j of layer i feeds node k of layer i + 1: only an input node is not fed, and no weight is used that does not
      exceed the threshold. */
  predicate Linked(p: Plan, i: nat, j: nat, k: nat) {
    IsNode(p, i, j) && IsNode(p, i + 1, k) && p.types[i + 1][k] != 0 && Abs(p.weight(i, j, k)) > p.threshold
  }

  /** A weight counts whatever its sign. */
  lemma LinkedByWeight(p: Plan, i: nat, j: nat, k: nat)
    requires IsNode(p, i, j) && IsNode(p, i + 1, k)
    ensures Linked(p, i, j, k) <==> p.types[i + 1][k] != 0 && (p.weight(i, j, k) > p.threshold || -p.weight(i, j, k) > p.threshold)
  {
  }

  /** An input node feeds node k of layer i, over any number of connections. */
  predicate Fed(p: Plan, i: nat, k: nat)
    requires IsNode(p, i, k)
    decreases i, 1, 0
  {
    p.types[i][k] == 0 || (i > 0 && FedUpTo(p, i - 1, k, |p.types[i - 1]|))
  }

  /** One of the first `n` nodes of layer i feeds node k of layer i + 1, and is itself fed. */
  predicate FedUpTo(p: Plan, i: nat, k: nat, n: nat)
    requires IsNode(p, i + 1, k) && n <= |p.types[i]|
    decreases i + 1, 0, n
  {
    n > 0 && (FedUpTo(p, i, k, n - 1) || (Linked(p, i, n - 1, k) && Fed(p, i, n - 1)))
  }

  /** Node k of layer i is an output node and fed. */
  predicate FedOutput(p: Plan, i: nat, k: nat) {
    IsNode(p, i, k) && p.types[i][k] == 2 && Fed(p, i, k)
  }

  /** `path` names one node of each layer from layer `from` on, an input node first, each feeding the next. */
  predicate Path(p: Plan, from: nat, path: seq<nat>) {
    && |path| > 0 && IsNode(p, from, path[0]) && p.types[from][path[0]] == 0
    && forall x, y {:trigger path[x], path[y]} :: 0 <= x && y == x + 1 < |path| ==> Linked(p, from + x, path[x], path[y])
  }

  lemma {:induction false} FedUpToIs(p: Plan, i: nat, k: nat, n: nat)
    requires IsNode(p, i + 1, k) && n <= |p.types[i]|
    ensures FedUpTo(p, i, k, n) <==> exists j :: 0 <= j < n && Linked(p, i, j, k) && Fed(p, i, j)
  {
    if n > 0 {
      FedUpToIs(p, i, k, n - 1);
    }
  }

  lemma {:induction false} PathFeeds(p: Plan, from: nat, path: seq<nat>)
    requires Path(p, from, path)
    ensures IsNode(p, from + |path| - 1, path[|path| - 1]) && Fed(p, from + |path| - 1, path[|path| - 1])
    decreases |path|
  {
    if |path| > 1 {
      var last := |path| - 1;
      var i := from + last - 1;
      PathFeeds(p, from, path[..last]);
      assert Linked(p, i, path[last - 1], path[last]);
      FedUpToIs(p, i, path[last], |p.types[i]|);
    }
  }

  lemma {:induction false} FedHasPath(p: Plan, i: nat, k: nat) returns (from: nat, path: seq<nat>)
    requires IsNode(p, i, k) && Fed(p, i, k)
    ensures Path(p, from, path) && from + |path| - 1 == i && path[|path| - 1] == k
    decreases i
  {
    if p.types[i][k] == 0 {
      from, path := i, [k];
    } else {
      FedUpToIs(p, i - 1, k, |p.types[i - 1]|);
      var j :| 0 <= j < |p.types[i - 1]| && Linked(p, i - 1, j, k) && Fed(p, i - 1, j);
      from, path := FedHasPath(p, i - 1, j);
      path := path + [k];
    }
  }

  /** A node is fed exactly if a path of connections leads to it from an input node. */
  lemma FedIsReachable(p: Plan, i: nat, k: nat)
    requires IsNode(p, i, k)
    ensures Fed(p, i, k) <==>
            exists from: nat, path :: Path(p, from, path) && from + |path| - 1 == i && path[|path| - 1] == k
  {
    if Fed(p, i, k) {
      var from, path := FedHasPath(p, i, k);
    }
    forall from: nat, path | Path(p, from, path) && from + |path| - 1 == i && path[|path| - 1] == k ensures Fed(p, i, k) {
      PathFeeds(p, from, path);
    }
  }

  /** `q` is `p` with all weights negated. */
  ghost predicate Negates(p: Plan, q: Plan) {
    q.types == p.types && q.threshold == p.threshold && forall i, j, k :: q.weight(i, j, k) == -p.weight(i, j, k)
  }

  lemma LinkedNegated(p: Plan, q: Plan, i: nat, j: nat, k: nat)
    requires Negates(p, q)
    ensures Linked(q, i, j, k) <==> Linked(p, i, j, k)
  {
    if IsNode(p, i, j) && IsNode(p, i + 1, k) {
      LinkedByWeight(p, i, j, k);
      LinkedByWeight(q, i, j, k);
    }
  }

  lemma {:induction false} FedUpToNegated(p: Plan, q: Plan, i: nat, k: nat, n: nat)
    requires Negates(p, q) && IsNode(p, i + 1, k) && n <= |p.types[i]|
    ensures FedUpTo(q, i, k, n) <==> FedUpTo(p, i, k, n)
    decreases i + 1, 0, n
  {
    if n > 0 {
      FedUpToNegated(p, q, i, k, n - 1);
      LinkedNegated(p, q, i, n - 1, k);
      if IsNode(p, i, n - 1) {
        NegatedIsSame(p, q, i, n - 1);
      }
    }
  }

  /** Negating all weights changes neither which nodes feed which nor which are fed, and so not the result. */
  lemma {:induction false} NegatedIsSame(p: Plan, q: Plan, i: nat, k: nat)
    requires Negates(p, q) && IsNode(p, i, k)
    ensures (Fed(q, i, k) <==> Fed(p, i, k)) && (FedOutput(q, i, k) <==> FedOutput(p, i, k))
    ensures forall j :: Linked(q, i, k, j) <==> Linked(p, i, k, j)
    decreases i, 1, 0
  {
    forall j ensures Linked(q, i, k, j) <==> Linked(p, i, k, j) {
      LinkedNegated(p, q, i, k, j);
    }
    if p.types[i][k] != 0 && i > 0 {
      FedUpToNegated(p, q, i - 1, k, |p.types[i - 1]|);
    }
  }

  // ---------- the connections of a node ----------

  /** The nodes of the layer below, up to number `n`, that feed node k of layer i + 1, and their weights. */
  ghost function PickedNodes(p: Plan, below: seq<SpatialNode>, i: nat, k: nat, n: nat): seq<SpatialNode>
    requires n <= |below|
  {
    if n == 0 then []
    else PickedNodes(p, below, i, k, n - 1) + (if Linked(p, i, n - 1, k) then [below[n - 1]] else [])
  }

  ghost function PickedWeights(p: Plan, i: nat, k: nat, n: nat): seq<real> {
    if n == 0 then []
    else PickedWeights(p, i, k, n - 1) + (if Linked(p, i, n - 1, k) then [p.weight(i, n - 1, k)] else [])
  }

  /** These are exactly the pairs above the threshold, each with its weight and once. */
  lemma {:induction false} PickedExactly(p: Plan, below: seq<SpatialNode>, i: nat, k: nat, n: nat)
    requires n <= |below| && forall a, b :: 0 <= a < b < |below| ==> below[a] != below[b]
    ensures |PickedNodes(p, below, i, k, n)| == |PickedWeights(p, i, k, n)|
    ensures forall j :: 0 <= j < |below| ==> (below[j] in PickedNodes(p, below, i, k, n) <==> j < n && Linked(p, i, j, k))
    ensures forall x, y :: 0 <= x < y < |PickedNodes(p, below, i, k, n)| ==>
              PickedNodes(p, below, i, k, n)[x] != PickedNodes(p, below, i, k, n)[y]
    ensures forall x, j | 0 <= x < |PickedNodes(p, below, i, k, n)| && 0 <= j < |below| ::
              PickedNodes(p, below, i, k, n)[x] == below[j] ==> PickedWeights(p, i, k, n)[x] == p.weight(i, j, k)
  {
    if n > 0 {
      PickedExactly(p, below, i, k, n - 1);
    }
  }

  lemma {:induction false} PickedFrom(p: Plan, below: seq<SpatialNode>, i: nat, k: nat, n: nat)
    requires n <= |below|
    ensures forall m :: m in PickedNodes(p, below, i, k, n) ==> m in below
  {
    if n > 0 {
      PickedFrom(p, below, i, k, n - 1);
    }
  }

  class HyperNeat {
    const substrate: Substrate
    const threshold: real
    var okConnections: bool

    constructor (substrate: Substrate, threshold: real)
      ensures this.substrate == substrate && this.threshold == threshold && !okConnections
    {
      this.substrate, this.threshold, okConnections := substrate, threshold, false;
    }

    ghost function PlanOf(weight: (nat, nat, nat) -> real): (p: Plan)
      ensures p.weight == weight && p.threshold == threshold && |p.types| == |substrate.nodes|
      ensures forall i :: 0 <= i < |p.types| ==> |p.types[i]| == |substrate.nodes[i]|
      ensures forall i, j :: 0 <= i < |p.types| && 0 <= j < |p.types[i]| ==>
                p.types[i][j] == substrate.nodes[i][j].nodeType
    {
      var nodes := substrate.nodes;
      Plan(seq(|nodes|, i requires 0 <= i < |nodes| =>
             seq(|nodes[i]|, j requires 0 <= j < |nodes[i]| => nodes[i][j].nodeType)), weight, threshold)
    }

    /** Node k of layer m has its connections with the first `n` nodes of the layer below. */
    ghost predicate Wired(p: Plan, m: nat, k: nat, n: nat)
      requires 0 < m < |p.types| == |substrate.nodes| && k < |p.types[m]| == |substrate.nodes[m]|
      requires n <= |p.types[m - 1]| == |substrate.nodes[m - 1]|
      reads substrate.nodes[m][k]
    {
      var node := substrate.nodes[m][k];
      && node.inputsNodes == PickedNodes(p, substrate.nodes[m - 1], m - 1, k, n)
      && node.inputsWeight == PickedWeights(p, m - 1, k, n)
      && node.active == (node.nodeType == 0 || FedUpTo(p, m - 1, k, n))
    }

    /** The same for the nodes `from` to `to` of layer m. */
    ghost predicate WiredFor(p: Plan, m: nat, from: nat, to: nat, n: nat)
      requires 0 < m < |p.types| == |substrate.nodes| && to <= |p.types[m]| == |substrate.nodes[m]|
      requires n <= |p.types[m - 1]| == |substrate.nodes[m - 1]|
      reads substrate.nodes[m]
    {
      forall k :: from <= k < to ==> Wired(p, m, k, n)
    }

    ghost predicate ActiveAsFed(p: Plan, i: nat)
      requires i < |p.types| == |substrate.nodes| && |p.types[i]| == |substrate.nodes[i]|
      reads substrate.nodes[i]
    {
      forall k :: 0 <= k < |substrate.nodes[i]| ==> substrate.nodes[i][k].active == Fed(p, i, k)
    }

    /** Layer i is active where it is fed, and has its connections. */
    ghost predicate Settled(weight: (nat, nat, nat) -> real, i: nat)
      requires i < |substrate.nodes|
      reads substrate.nodes[i]
    {
      var p := PlanOf(weight);
      && ActiveAsFed(p, i)
      && (i > 0 ==> WiredFor(p, i, 0, |substrate.nodes[i]|, |substrate.nodes[i - 1]|))
      && (i == 0 ==> forall k :: 0 <= k < |substrate.nodes[i]| ==> substrate.nodes[i][k].inputsNodes == [])
    }

    /** One pair of nodes: node j of the layer below m, and node k of layer m. */
    method ConnectPair(ghost p: Plan, m: nat, j: nat, k: nat, weight: real)
      requires substrate.Valid() && 0 < m < |substrate.nodes| && j < |substrate.nodes[m - 1]| && k < |substrate.nodes[m]|
      requires p == PlanOf(p.weight) && weight == p.weight(m - 1, j, k)
      requires substrate.nodes[m - 1][j].active == Fed(p, m - 1, j) && Wired(p, m, k, j)
      modifies substrate.nodes[m][k]
      ensures substrate.Valid() && Wired(p, m, k, j + 1)
    {
      substrate.IsInAll(m - 1, j);
      substrate.IsInAll(m, k);
      if Abs(weight) > threshold {
        substrate.nodes[m][k].AddInputToNode(substrate.nodes[m - 1][j], weight);
      }
    }

    /** One node of the layer below m with all of layer m. */
    method ConnectNode(ghost p: Plan, m: nat, j: nat, weight: (nat, nat, nat) -> real)
      requires substrate.Valid() && 0 < m < |substrate.nodes| && j < |substrate.nodes[m - 1]|
      requires p == PlanOf(weight) && substrate.nodes[m - 1][j].active == Fed(p, m - 1, j)
      requires WiredFor(p, m, 0, |substrate.nodes[m]|, j)
      modifies substrate.nodes[m]
      ensures substrate.Valid() && WiredFor(p, m, 0, |substrate.nodes[m]|, j + 1)
    {
      var k := 0;
      while k < |substrate.nodes[m]|
        invariant 0 <= k <= |substrate.nodes[m]| && substrate.Valid()
        invariant substrate.nodes[m - 1][j].active == Fed(p, m - 1, j)
        invariant WiredFor(p, m, 0, k, j + 1) && WiredFor(p, m, k, |substrate.nodes[m]|, j)
      {
        ConnectPair(p, m, j, k, weight(m - 1, j, k));
        k := k + 1;
      }
    }

    lemma WiredSettles(weight: (nat, nat, nat) -> real, m: nat)
      requires 0 < m < |substrate.nodes|
      requires WiredFor(PlanOf(weight), m, 0, |substrate.nodes[m]|, |substrate.nodes[m - 1]|)
      ensures Settled(weight, m)
    {
      var p := PlanOf(weight);
      forall k | 0 <= k < |substrate.nodes[m]| ensures substrate.nodes[m][k].active == Fed(p, m, k) {
        assert Wired(p, m, k, |substrate.nodes[m - 1]|);
      }
    }

    /** Before the layer below is taken up. */
    lemma ClearedIsWired(p: Plan, m: nat)
      requires 0 < m < |p.types| == |substrate.nodes| && |p.types[m]| == |substrate.nodes[m]|
      requires |p.types[m - 1]| == |substrate.nodes[m - 1]|
      requires forall n :: n in substrate.nodes[m] ==>
                 n.inputsNodes == [] && n.inputsWeight == [] && n.active == (n.nodeType == 0)
      ensures WiredFor(p, m, 0, |substrate.nodes[m]|, 0)
    {
    }

    /** The loop body over the nodes of the layer below m. */
    method ConnectNext(ghost p: Plan, m: nat, j: nat, weight: (nat, nat, nat) -> real)
      requires substrate.Valid() && 0 < m < |substrate.nodes| && j < |substrate.nodes[m - 1]|
      requires p == PlanOf(weight) && ActiveAsFed(p, m - 1) && WiredFor(p, m, 0, |substrate.nodes[m]|, j)
      modifies substrate.nodes[m]
      ensures substrate.Valid() && ActiveAsFed(p, m - 1) && WiredFor(p, m, 0, |substrate.nodes[m]|, j + 1)
    {
      substrate.LayersApart(m - 1, m);
      ConnectNode(p, m, j, weight);
    }

    method ClearLayer(ghost p: Plan, m: nat)
      requires substrate.Valid() && 0 < m < |substrate.nodes| && p == PlanOf(p.weight) && ActiveAsFed(p, m - 1)
      modifies substrate.nodes[m]
      ensures substrate.Valid() && ActiveAsFed(p, m - 1) && WiredFor(p, m, 0, |substrate.nodes[m]|, 0)
    {
      substrate.LayersApart(m - 1, m);
      substrate.ClearSpatialNodeInputs(m);
      ClearedIsWired(p, m);
    }

    /** The layer below m with layer m. */
    method ConnectLayers(m: nat, weight: (nat, nat, nat) -> real)
      requires substrate.Valid() && 0 < m < |substrate.nodes| && Settled(weight, m - 1)
      modifies substrate.nodes[m]
      ensures substrate.Valid() && Settled(weight, m)
    {
      ghost var p := PlanOf(weight);
      ClearLayer(p, m);
      var j := 0;
      while j < |substrate.nodes[m - 1]|
        invariant 0 <= j <= |substrate.nodes[m - 1]| && substrate.Valid()
        invariant ActiveAsFed(p, m - 1) && WiredFor(p, m, 0, |substrate.nodes[m]|, j)
      {
        ConnectNext(p, m, j, weight);
        j := j + 1;
      }
      WiredSettles(weight, m);
    }

    /** In a settled layer a node is fed by exactly the nodes of the layer below whose weight exceeds the threshold, whatever
        its sign, and an input node by none. */
    lemma EdgesAreRight(weight: (nat, nat, nat) -> real, i: nat, k: nat, below: seq<SpatialNode>)
      requires substrate.Valid() && i < |substrate.nodes| && k < |substrate.nodes[i]| && Settled(weight, i)
      requires below == if i > 0 then substrate.nodes[i - 1] else []
      ensures forall m :: m in substrate.nodes[i][k].inputsNodes ==> m in below
      ensures forall j :: 0 <= j < |below| ==>
                (below[j] in substrate.nodes[i][k].inputsNodes <==>
                 substrate.nodes[i][k].nodeType != 0 && (weight(i - 1, j, k) > threshold || -weight(i - 1, j, k) > threshold))
    {
      if i > 0 {
        var p := PlanOf(weight);
        assert Wired(p, i, k, |below|);
        PickedExactly(p, below, i - 1, k, |below|);
        PickedFrom(p, below, i - 1, k, |below|);
        forall j | 0 <= j < |below|
          ensures below[j] in substrate.nodes[i][k].inputsNodes <==>
            substrate.nodes[i][k].nodeType != 0 && (weight(i - 1, j, k) > threshold || -weight(i - 1, j, k) > threshold)
        {
          LinkedByWeight(p, i - 1, j, k);
        }
      }
    }

    /** And it is active exactly if connections lead to it from an input node. */
    lemma ActiveIsReachable(weight: (nat, nat, nat) -> real, i: nat, k: nat)
      requires i < |substrate.nodes| && k < |substrate.nodes[i]| && Settled(weight, i)
      ensures substrate.nodes[i][k].active <==> exists from: nat, path ::
                Path(PlanOf(weight), from, path) && from + |path| - 1 == i && path[|path| - 1] == k
    {
      FedIsReachable(PlanOf(weight), i, k);
    }

    /** `weight(i, j, k)` is what the network answers for node j of layer i and node k of layer i + 1: its only output,
        or output i of several. The result tells whether some output node is fed. */
    method CreateSubstrateConnections(cppnOutputs: nat, weight: (nat, nat, nat) -> real) returns (ok: bool)
      requires substrate.Valid()
      modifies this, substrate.All()
      ensures substrate.Valid() && okConnections == ok
      ensures |substrate.nodes| == 0 || (cppnOutputs > 1 && (|substrate.nodes| <= 2 || cppnOutputs != |substrate.nodes| - 1)) ==>
                !ok && forall n :: n in substrate.All() ==>
                n.inputsNodes == old(n.inputsNodes) && n.inputsWeight == old(n.inputsWeight) && n.active == old(n.active)
      ensures |substrate.nodes| > 0 && (cppnOutputs <= 1 || (|substrate.nodes| > 2 && cppnOutputs == |substrate.nodes| - 1)) ==>
                && (forall i :: 0 <= i < |substrate.nodes| ==> Settled(weight, i))
                && (ok <==> exists i, k :: FedOutput(PlanOf(weight), i, k))
                && (ok <==> exists i, k :: 0 <= i < |substrate.nodes| && 0 <= k < |substrate.nodes[i]| &&
                                      substrate.nodes[i][k].nodeType == 2 && substrate.nodes[i][k].active)
    {
      okConnections := false;
      if |substrate.nodes| == 0 {
        return false;
      }
      if cppnOutputs > 1 {
        if |substrate.nodes| <= 2 {
          return false;
        }
        if cppnOutputs != |substrate.nodes| - 1 {
          return false;
        }
      }
      ConnectAll(weight);
      ok := SomeOutputActive(weight);
      OutputsAreActive(weight);
      okConnections := ok;
    }

    ghost predicate AllSettled(weight: (nat, nat, nat) -> real, m: nat)
      requires m <= |substrate.nodes|
      reads substrate.All()
    {
      forall l :: 0 <= l < m ==> LayerOf(l) <= substrate.All() && Settled(weight, l)
    }

    ghost function LayerOf(l: nat): set<SpatialNode>
      requires l < |substrate.nodes|
    {
      set n | n in substrate.nodes[l]
    }

    /** The outer loop body. */
    method ConnectLayer(m: nat, weight: (nat, nat, nat) -> real)
      requires substrate.Valid() && 0 < m < |substrate.nodes| && AllSettled(weight, m)
      modifies substrate.All()
      ensures substrate.Valid() && AllSettled(weight, m + 1)
    {
      substrate.LayerIsInAll(m);
      forall l: nat | l < m ensures forall n :: n in substrate.nodes[l] ==> n !in substrate.nodes[m] {
        substrate.LayersApart(l, m);
      }
      ConnectLayers(m, weight);
    }

    method ConnectAll(weight: (nat, nat, nat) -> real)
      requires substrate.Valid() && |substrate.nodes| > 0
      modifies substrate.All()
      ensures substrate.Valid() && AllSettled(weight, |substrate.nodes|)
    {
      FirstLayer(weight);
      substrate.LayerIsInAll(0);
      var i := 0;
      while i < |substrate.nodes| - 1
        invariant 0 <= i < |substrate.nodes| && substrate.Valid() && AllSettled(weight, i + 1)
      {
        ConnectLayer(i + 1, weight);
        i := i + 1;
      }
    }

    lemma FirstLayer(weight: (nat, nat, nat) -> real)
      requires substrate.Valid() && |substrate.nodes| > 0
      ensures Settled(weight, 0)
    {
      forall k | 0 <= k < |substrate.nodes[0]|
        ensures substrate.nodes[0][k].active == Fed(PlanOf(weight), 0, k) && substrate.nodes[0][k].inputsNodes == []
      {
        substrate.IsInAll(0, k);
        var n := substrate.nodes[0][k];
        if n.inputsNodes != [] {
          assert n.inputsNodes[0] in n.inputsNodes;
        }
      }
    }

    lemma OutputsAreActive(weight: (nat, nat, nat) -> real)
      requires forall i :: 0 <= i < |substrate.nodes| ==> Settled(weight, i)
      ensures (exists i, k :: FedOutput(PlanOf(weight), i, k)) <==>
              exists i, k :: 0 <= i < |substrate.nodes| && 0 <= k < |substrate.nodes[i]| &&
                        substrate.nodes[i][k].nodeType == 2 && substrate.nodes[i][k].active
    {
      var p := PlanOf(weight);
      forall i: nat, k: nat | i < |substrate.nodes| && k < |substrate.nodes[i]|
        ensures FedOutput(p, i, k) <==> substrate.nodes[i][k].nodeType == 2 && substrate.nodes[i][k].active
      {
        assert Settled(weight, i);
      }
    }

    /** The search for an active output node. */
    method SomeOutputActive(weight: (nat, nat, nat) -> real) returns (found: bool)
      requires substrate.Valid() && forall i :: 0 <= i < |substrate.nodes| ==> Settled(weight, i)
      ensures found <==> exists i, k :: FedOutput(PlanOf(weight), i, k)
    {
      ghost var p := PlanOf(weight);
      var i := 0;
      while i < |substrate.nodes|
        invariant 0 <= i <= |substrate.nodes|
        invariant forall a: nat, b: nat :: a < i ==> !FedOutput(p, a, b)
      {
        var j := 0;
        while j < |substrate.nodes[i]|
          invariant 0 <= j <= |substrate.nodes[i]|
          invariant forall b: nat :: b < j ==> !FedOutput(p, i, b)
        {
          assert Settled(weight, i);
          if substrate.nodes[i][j].nodeType == 2 && substrate.nodes[i][j].active {
            assert FedOutput(p, i, j);
            return true;
          }
          j := j + 1;
        }
        i := i + 1;
      }
      return false;
    }

    /** Evaluates layer by layer. Then every node has its value in its cell, and that is what its formula says. */
    method EvaluateSubstrateConnections(w: World) returns (ok: bool)
      requires substrate.Valid() && substrate.Reads(w)
      modifies substrate.Cells()
      ensures ok == (|substrate.nodes| > 0 && okConnections)
      ensures !ok ==> forall n :: n in substrate.All() ==> n.output.value == old(n.output.value)
      ensures ok ==> forall n :: n in substrate.All() ==> substrate.Right(n, w)
    {
      if |substrate.nodes| == 0 {
        return false;
      }
      if !okConnections {
        return false;
      }
      var i := 0;
      while i < |substrate.nodes|
        invariant 0 <= i <= |substrate.nodes| && substrate.Reads(w) && substrate.RightBelow(i, w)
      {
        substrate.EvaluateSpatialNode(i, w);
        i := i + 1;
      }
      forall n | n in substrate.All() ensures substrate.Right(n, w) {
        substrate.SheetIsLayer(n);
      }
      return true;
    }

    /** After an evaluation the formula of every node, read with the node function a function, says what the node has in
        its cell. */
    lemma FormulaSaysOutput(n: SpatialNode, w: World)
      requires substrate.Valid() && n in substrate.All() && substrate.Right(n, w)
      ensures var net := NetOf(n, substrate.All());
        Read(Formula(net, End), w) == Wanted(Known(net), n.output.value, End)
    {
      FormulaMeansValue(NetOf(n, substrate.All()), w);
    }
  }
}
