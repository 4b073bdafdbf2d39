/** The layered network of HyperNeat (SpatialNode.cpp, Substrate.cpp): its nodes hold their inputs and write their
    output into a cell. */
module Substrates {
  import opened Formulas

  /** What a `double *` points to. */
  class Cell {
    var value: real

    constructor (value: real)
      ensures this.value == value
    {
      this.value := value;
    }
  }

  class SpatialNode {
    const nodeType: int      // 0: input, 1: hidden, 2: output
    const sheetId: nat
    const nodeFunction: string
    const input: Cell
    const inputId: nat
    const output: Cell
    const outputId: nat
    var inputsNodes: seq<SpatialNode>
    var inputsWeight: seq<real>
    var active: bool

    /** Nothing feeds an input node, which is always active; every other node is fed from lower sheets. */
    predicate Valid()
      reads this
    {
      && |inputsNodes| == |inputsWeight|
      && (forall m :: m in inputsNodes ==> m.sheetId < sheetId)
      && (nodeType == 0 ==> inputsNodes == [] && active)
      && (sheetId == 0 && nodeType != 0 ==> !active)
    }

    /** With `SetInputToInputNode` for an input node and `SetOutputToOutputNode` for an output node. */
    constructor (nodeType: int, sheetId: nat, nodeFunction: string, input: Cell, inputId: nat, output: Cell,
        outputId: nat)
      ensures Valid() && inputsNodes == [] && active == (nodeType == 0)
      ensures this.nodeType == nodeType && this.sheetId == sheetId && this.nodeFunction == nodeFunction
      ensures this.input == input && this.inputId == inputId && this.output == output && this.outputId == outputId
    {
      this.nodeType, this.sheetId, this.nodeFunction := nodeType, sheetId, nodeFunction;
      this.input, this.inputId, this.output, this.outputId := input, inputId, output, outputId;
      inputsNodes, inputsWeight, active := [], [], nodeType == 0;
    }

    /** Refused for an input node and for an input that is not on a lower sheet. */
    method AddInputToNode(inputNode: SpatialNode, inputWeight: real)
      requires Valid()
      modifies this
      ensures Valid()
      ensures nodeType == 0 || inputNode.sheetId >= sheetId ==>
                inputsNodes == old(inputsNodes) && inputsWeight == old(inputsWeight) && active == old(active)
      ensures nodeType != 0 && inputNode.sheetId < sheetId ==>
                && inputsNodes == old(inputsNodes) + [inputNode] && inputsWeight == old(inputsWeight) + [inputWeight]
                && active == (old(active) || old(inputNode.active))
    {
      if nodeType == 0 {
        return;
      }
      if inputNode.sheetId >= sheetId {
        return;
      }
      if !active {
        active := inputNode.active;
      }
      inputsNodes := inputsNodes + [inputNode];
      inputsWeight := inputsWeight + [inputWeight];
    }

    method ClearInputs()
      modifies this
      ensures inputsNodes == [] && inputsWeight == [] && active == (nodeType == 0 && old(active))
      ensures old(Valid()) ==> Valid()
    {
      inputsNodes, inputsWeight := [], [];
      if nodeType != 0 {
        active := false;
      }
    }

    /** The cells a calculation of the output reads. */
    ghost function Sources(): set<Cell>
      reads this
    {
      (set m | m in inputsNodes :: m.output) + {input}
    }

    /** The input and the first `n` weighted outputs of the input nodes, added in this order. */
    ghost function Sum(n: nat, w: World): real
      requires Valid() && n <= |inputsNodes|
      reads this, Sources()
    {
      if n == 0 then (if nodeType == 0 then input.value else 0.0)
      else Sum(n - 1, w) + w.mul(inputsNodes[n - 1].output.value, inputsWeight[n - 1])
    }

    /** `OutputCalcule`. */
    method CalculateOutput(w: World)
      requires Valid()
      modifies output
      ensures output.value == old(Apply(nodeFunction, Sum(|inputsNodes|, w), w))
    {
      var aux := if nodeType == 0 then input.value else 0.0;
      var i := 0;
      while i < |inputsNodes|
        invariant 0 <= i <= |inputsNodes| && aux == Sum(i, w)
      {
        aux := aux + w.mul(inputsNodes[i].output.value, inputsWeight[i]);
        i := i + 1;
      }
      output.value := Apply(nodeFunction, aux, w);
    }

    /** The text for C++. `all` holds the node and all it is fed by. */
    method GetNodeFunction(ghost all: set<SpatialNode>) returns (function_: Text)
      requires this in all && Closed(all)
      ensures function_ == Formula(NetOf(this, all), End)
      decreases sheetId
    {
      function_ := Then(Name(nodeFunction), Then(Open, End));
      if nodeType == 0 || |inputsNodes| == 0 {
        var inside := if nodeType == 0 then Input(inputId) else Number(0.0);
        function_ := Append(function_, Then(inside, End));
        function_ := Append(function_, Then(Close, End));
        ShortText(Name(nodeFunction), inside);
        return;
      }
      RemainingStart(this, all);
      var i := 0;
      while i < |inputsNodes|
        invariant 0 <= i <= |inputsNodes|
        invariant Append(function_, Remaining(this, i, all)) == Formula(NetOf(this, all), End)
      {
        var m := inputsNodes[i];
        assert m in inputsNodes;
        var text := m.GetNodeFunction(all);
        ghost var before := function_;
        function_ := Append(function_, Append(text, Then(Times, Then(Number(inputsWeight[i]), End))));
        if i + 1 < |inputsNodes| {
          function_ := Append(function_, Then(Plus, End));
        }
        RemainingStep(this, i, all, before, function_);
        i := i + 1;
      }
      function_ := Append(function_, Then(Close, End));
    }
  }

  // ---------- a node and all it is fed by ----------

  /** A set of nodes fed by nodes of the set. */
  predicate Closed(all: set<SpatialNode>)
    reads all
  {
    forall n :: n in all ==> n.Valid() && forall m :: m in n.inputsNodes ==> m in all
  }

  ghost function NetOf(n: SpatialNode, all: set<SpatialNode>): Net
    requires n in all && Closed(all)
    reads all
    decreases n.sheetId, 1, 0
  {
    if n.nodeType == 0 then Source(n.nodeFunction, n.inputId) else Inner(n.nodeFunction, InputsOf(n, 0, all))
  }

  /** The inputs of a node from number `i` on. */
  ghost function InputsOf(n: SpatialNode, i: nat, all: set<SpatialNode>): Inputs
    requires n in all && Closed(all) && i <= |n.inputsNodes|
    reads all
    decreases n.sheetId, 0, |n.inputsNodes| - i
  {
    if i == |n.inputsNodes| then NoInput
    else Feed(NetOf(n.inputsNodes[i], all), n.inputsWeight[i], InputsOf(n, i + 1, all))
  }

  /** The outputs of the inputs of a node are what they should be. */
  ghost predicate FedRight(n: SpatialNode, all: set<SpatialNode>, w: World)
    requires n in all && Closed(all)
    reads all, n.Sources()
  {
    && (n.nodeType == 0 ==> n.input.value == At(w.xs, n.inputId))
    && forall m :: m in n.inputsNodes ==> m.output.value == Value(NetOf(m, all), w)
  }

  lemma {:induction false} SumGathers(n: SpatialNode, i: nat, all: set<SpatialNode>, w: World)
    requires n in all && Closed(all) && i <= |n.inputsNodes| && FedRight(n, all, w)
    ensures SumFrom(n.Sum(i, w), InputsOf(n, i, all), w) == n.Sum(|n.inputsNodes|, w)
    decreases |n.inputsNodes| - i
  {
    if i < |n.inputsNodes| {
      var m := n.inputsNodes[i];
      assert m in n.inputsNodes;
      SumGathers(n, i + 1, all, w);
    }
  }

  /** A node that is fed right calculates its value. */
  lemma CalculatesValue(n: SpatialNode, all: set<SpatialNode>, w: World)
    requires n in all && Closed(all) && FedRight(n, all, w)
    ensures Apply(n.nodeFunction, n.Sum(|n.inputsNodes|, w), w) == Value(NetOf(n, all), w)
  {
    if n.nodeType != 0 {
      SumGathers(n, 0, all, w);
    }
  }

  // ---------- the text of a node ----------

  function Append(x: Text, y: Text): Text {
    match x
    case End => y
    case Then(head, tail) => Then(head, Append(tail, y))
  }

  lemma {:induction false} AppendTwice(x: Text, y: Text, z: Text)
    ensures Append(Append(x, y), z) == Append(x, Append(y, z)) && Append(x, End) == x
  {
    match x
    case End =>
    case Then(head, tail) => AppendTwice(tail, y, z);
  }

  lemma {:induction false} AppendFormula(t: Net, rest: Text, y: Text)
    ensures Append(Formula(t, rest), y) == Formula(t, Append(rest, y))
    decreases t, 1
  {
    AppendInside(t, Then(Close, rest), y);
  }

  lemma {:induction false} AppendInside(t: Net, rest: Text, y: Text)
    ensures Append(Inside(t, rest), y) == Inside(t, Append(rest, y))
    decreases t, 0
  {
    match t
    case Source(_, id) =>
    case Inner(_, NoInput) =>
    case Inner(_, Feed(node, weight, more)) =>
      AppendFormula(node, Then(Times, Then(Number(weight), MoreText(more, rest))), y);
      AppendMore(more, rest, y);
  }

  lemma {:induction false} AppendMore(i: Inputs, rest: Text, y: Text)
    ensures Append(MoreText(i, rest), y) == MoreText(i, Append(rest, y))
    decreases i
  {
    match i
    case NoInput =>
    case Feed(node, weight, more) =>
      AppendFormula(node, Then(Times, Then(Number(weight), MoreText(more, rest))), y);
      AppendMore(more, rest, y);
  }

  /** What the loop still has to write from input `i` on, and the closing parenthesis. */
  ghost function Remaining(n: SpatialNode, i: nat, all: set<SpatialNode>): Text
    requires n in all && Closed(all) && i <= |n.inputsNodes|
    reads all
  {
    match InputsOf(n, i, all)
    case NoInput => Then(Close, End)
    case Feed(node, weight, more) => Weighted(node, weight, MoreText(more, Then(Close, End)))
  }

  lemma ShortText(name: Token, inside: Token)
    ensures Append(Append(Then(name, Then(Open, End)), Then(inside, End)), Then(Close, End))
         == Then(name, Then(Open, Then(inside, Then(Close, End))))
  {
    assert Append(Then(Open, End), Then(inside, End)) == Then(Open, Then(inside, End));
    assert Append(Then(inside, End), Then(Close, End)) == Then(inside, Then(Close, End));
    assert Append(Then(Open, Then(inside, End)), Then(Close, End)) == Then(Open, Then(inside, Then(Close, End)));
  }

  lemma RemainingStart(n: SpatialNode, all: set<SpatialNode>)
    requires n in all && Closed(all) && n.nodeType != 0 && |n.inputsNodes| > 0
    ensures Append(Then(Name(n.nodeFunction), Then(Open, End)), Remaining(n, 0, all)) == Formula(NetOf(n, all), End)
  {
    var rest := Remaining(n, 0, all);
    assert Append(Then(Open, End), rest) == Then(Open, rest);
    assert Inside(NetOf(n, all), Then(Close, End)) == rest;
  }

  lemma RemainingIs(n: SpatialNode, i: nat, all: set<SpatialNode>)
    requires n in all && Closed(all) && i < |n.inputsNodes|
    ensures var rest := Remaining(n, i + 1, all);
      Remaining(n, i, all) == Formula(NetOf(n.inputsNodes[i], all), Then(Times, Then(Number(n.inputsWeight[i]),
                                if i + 1 < |n.inputsNodes| then Then(Plus, rest) else rest)))
  {
  }

  lemma PieceGoes(before: Text, node: Net, weight: real, tail: Text)
    ensures Append(Append(before, Append(Formula(node, End), Then(Times, Then(Number(weight), End)))), tail)
         == Append(before, Formula(node, Then(Times, Then(Number(weight), tail))))
  {
    var product := Then(Times, Then(Number(weight), End));
    AppendTwice(before, Append(Formula(node, End), product), tail);
    AppendTwice(Formula(node, End), product, tail);
    AppendFormula(node, End, Append(product, tail));
    assert Append(Then(Number(weight), End), tail) == Then(Number(weight), tail);
  }

  lemma RemainingStep(n: SpatialNode, i: nat, all: set<SpatialNode>, before: Text, after: Text)
    requires n in all && Closed(all) && i < |n.inputsNodes|
    requires var piece := Append(Formula(NetOf(n.inputsNodes[i], all), End),
                                 Then(Times, Then(Number(n.inputsWeight[i]), End)));
      after == if i + 1 < |n.inputsNodes| then Append(Append(before, piece), Then(Plus, End)) else Append(before, piece)
    ensures Append(after, Remaining(n, i + 1, all)) == Append(before, Remaining(n, i, all))
  {
    var node, weight := NetOf(n.inputsNodes[i], all), n.inputsWeight[i];
    var rest := Remaining(n, i + 1, all);
    RemainingIs(n, i, all);
    if i + 1 < |n.inputsNodes| {
      PieceGoes(before, node, weight, Then(Plus, rest));
      var piece := Append(Formula(node, End), Then(Times, Then(Number(weight), End)));
      AppendTwice(Append(before, piece), Then(Plus, End), rest);
      assert Append(Then(Plus, End), rest) == Then(Plus, rest);
    } else {
      PieceGoes(before, node, weight, rest);
    }
  }

  // ---------- the layers ----------

  class Substrate {
    const inputs: seq<Cell>
    const nodes: seq<seq<SpatialNode>>

    constructor (inputs: seq<Cell>, nodes: seq<seq<SpatialNode>>)
      ensures this.inputs == inputs && this.nodes == nodes
    {
      this.inputs, this.nodes := inputs, nodes;
    }

    ghost function All(): set<SpatialNode> {
      set layer, n | layer in nodes && n in layer :: n
    }

    ghost function Cells(): set<Cell> {
      set n | n in All() :: n.output
    }

    /** A node of sheet i is in layer i, no two nodes are the same or write to the same cell, and none to an input. */
    ghost predicate Valid()
      reads All()
    {
      && Closed(All())
      && (forall i, j :: 0 <= i < |nodes| && 0 <= j < |nodes[i]| ==> nodes[i][j].sheetId == i)
      && (forall i, j, k :: 0 <= i < |nodes| && 0 <= j < k < |nodes[i]| ==> nodes[i][j] != nodes[i][k])
      && (forall n, m :: n in All() && m in All() && n.output == m.output ==> n == m)
      && (forall n :: n in All() ==> n.output !in inputs)
      && (forall n :: n in All() && n.nodeType == 0 ==> n.inputId < |inputs| && n.input == inputs[n.inputId])
    }

    /** The inputs have the values `w.xs`. */
    ghost predicate Reads(w: World)
      reads inputs
    {
      |w.xs| == |inputs| && forall i :: 0 <= i < |inputs| ==> inputs[i].value == w.xs[i]
    }

    /** The node has its value in its cell. */
    ghost predicate Right(n: SpatialNode, w: World)
      requires Closed(All()) && n in All()
      reads All(), n.output
    {
      n.output.value == Value(NetOf(n, All()), w)
    }

    ghost predicate RightBelow(layer: int, w: World)
      requires Closed(All())
      reads All(), Cells()
    {
      forall n :: n in All() && n.sheetId < layer ==> Right(n, w)
    }

    lemma IsInAll(i: nat, j: nat)
      requires i < |nodes| && j < |nodes[i]|
      ensures nodes[i][j] in All()
    {
      assert nodes[i] in nodes && nodes[i][j] in nodes[i];
    }

    lemma LayerIsInAll(i: nat)
      requires i < |nodes|
      ensures forall n :: n in nodes[i] ==> n in All()
    {
      assert nodes[i] in nodes;
    }

    lemma LayersApart(l: nat, m: nat)
      requires Valid() && l < |nodes| && m < |nodes| && l != m
      ensures forall n :: n in nodes[l] ==> n !in nodes[m]
    {
      forall j, k | 0 <= j < |nodes[l]| && 0 <= k < |nodes[m]| ensures nodes[l][j] != nodes[m][k] {
        assert nodes[l][j].sheetId == l && nodes[m][k].sheetId == m;
      }
    }

    lemma SheetIsLayer(n: SpatialNode)
      requires Valid() && n in All()
      ensures n.sheetId < |nodes| && n in nodes[n.sheetId]
    {
      var layer :| layer in nodes && n in layer;
      var i :| 0 <= i < |nodes| && nodes[i] == layer;
      var j :| 0 <= j < |layer| && layer[j] == n;
      assert nodes[i][j].sheetId == i;
    }

    lemma BelowIsFedRight(n: SpatialNode, w: World)
      requires Valid() && Reads(w) && n in All() && RightBelow(n.sheetId, w)
      ensures FedRight(n, All(), w)
    {
      forall m | m in n.inputsNodes ensures m.output.value == Value(NetOf(m, All()), w) {
        assert m in All() && m.sheetId < n.sheetId;
        assert Right(m, w);
      }
    }

    /** Calculates one node, which is then right if all below are; nothing else changes. */
    method EvaluateNode(n: SpatialNode, w: World)
      requires Valid() && Reads(w) && n in All()
      modifies n.output
      ensures Reads(w) && forall m :: m in All() && m != n ==> m.output.value == old(m.output.value)
      ensures old(RightBelow(n.sheetId, w)) ==> Right(n, w)
    {
      if RightBelow(n.sheetId, w) {
        BelowIsFedRight(n, w);
        CalculatesValue(n, All(), w);
      }
      n.CalculateOutput(w);
    }

    /** Calculates every node of a layer; nothing for a layer that does not exist. */
    method EvaluateSpatialNode(layer: int, w: World)
      requires Valid() && Reads(w)
      modifies Cells()
      ensures Reads(w)
      ensures forall n :: n in All() && n.sheetId != layer ==> n.output.value == old(n.output.value)
      ensures old(RightBelow(layer, w)) ==> RightBelow(layer + 1, w)
    {
      if layer + 1 > |nodes| || layer < 0 {
        return;
      }
      ghost var right := RightBelow(layer, w);
      var i := 0;
      while i < |nodes[layer]|
        invariant 0 <= i <= |nodes[layer]| && Reads(w)
        invariant forall n :: n in All() && n.sheetId != layer ==> n.output.value == old(n.output.value)
        invariant right ==> RightBelow(layer, w)
        invariant right ==> forall n :: n in All() && n in nodes[layer][..i] ==> Right(n, w)
      {
        var n := nodes[layer][i];
        IsInAll(layer, i);
        EvaluateNode(n, w);
        i := i + 1;
      }
      forall n | n in All() && n.sheetId == layer ensures right ==> Right(n, w) {
        SheetIsLayer(n);
      }
    }

    /** Clears every node of a layer; nothing for a layer that does not exist. */
    method ClearSpatialNodeInputs(layer: int)
      requires Valid()
      modifies if 0 <= layer < |nodes| then set n | n in nodes[layer] :: n else {}
      ensures Valid()
      ensures 0 <= layer < |nodes| ==> forall n :: n in nodes[layer] ==>
                n.inputsNodes == [] && n.inputsWeight == [] && n.active == (n.nodeType == 0)
    {
      if layer + 1 > |nodes| || layer < 0 {
        return;
      }
      var i := 0;
      while i < |nodes[layer]|
        invariant 0 <= i <= |nodes[layer]| && Valid()
        invariant forall n :: n in nodes[layer][..i] ==>
                    n.inputsNodes == [] && n.inputsWeight == [] && n.active == (n.nodeType == 0)
      {
        IsInAll(layer, i);
        nodes[layer][i].ClearInputs();
        i := i + 1;
      }
    }

    // ---------- the output nodes ----------

    /** The output nodes of the first `i` layers and of the first `j` nodes of the next one. */
    ghost function Outputs(i: nat, j: nat): (r: seq<SpatialNode>)
      requires (i < |nodes| && j <= |nodes[i]|) || (i == |nodes| && j == 0)
      ensures forall n :: n in r ==> n in All() && n.nodeType == 2
      decreases i, j
    {
      if j > 0 then
        IsInAll(i, j - 1);
        Outputs(i, j - 1) + (if nodes[i][j - 1].nodeType == 2 then [nodes[i][j - 1]] else [])
      else if i > 0 then Outputs(i - 1, |nodes[i - 1]|)
      else []
    }

    ghost function OutputNodes(): seq<SpatialNode> {
      Outputs(|nodes|, 0)
    }

    lemma {:induction false} OutputsHold(i: nat, j: nat, k: nat, l: nat)
      requires (i < |nodes| && j <= |nodes[i]|) || (i == |nodes| && j == 0)
      requires k < |nodes| && l < |nodes[k]| && (k < i || (k == i && l < j)) && nodes[k][l].nodeType == 2
      ensures nodes[k][l] in Outputs(i, j)
      decreases i, j
    {
      if j > 0 {
        if k < i || l < j - 1 {
          OutputsHold(i, j - 1, k, l);
        }
      } else {
        OutputsHold(i - 1, |nodes[i - 1]|, k, l);
      }
    }

    /** Every output node is among them. */
    lemma AllOutputs(n: SpatialNode)
      requires n in All()
      ensures n in OutputNodes() <==> n.nodeType == 2
    {
      if n.nodeType == 2 {
        var layer :| layer in nodes && n in layer;
        var k :| 0 <= k < |nodes| && nodes[k] == layer;
        var l :| 0 <= l < |layer| && layer[l] == n;
        OutputsHold(|nodes|, 0, k, l);
      }
    }

    lemma {:induction false} OutputsGrow(i: nat, j: nat, k: nat, l: nat)
      requires (i < |nodes| && j <= |nodes[i]|) || (i == |nodes| && j == 0)
      requires k < |nodes| && l <= |nodes[k]| && (k < i || (k == i && l <= j))
      ensures |Outputs(k, l)| <= |Outputs(i, j)|
      decreases i, j
    {
      if j > 0 {
        if k < i || l < j {
          OutputsGrow(i, j - 1, k, l);
        }
      } else if k < i {
        OutputsGrow(i - 1, |nodes[i - 1]|, k, l);
      }
    }

    lemma {:induction false} OutputIsAt(i: nat, j: nat, x: nat) returns (k: nat, l: nat)
      requires (i < |nodes| && j <= |nodes[i]|) || (i == |nodes| && j == 0)
      requires x < |Outputs(i, j)|
      ensures k < |nodes| && l < |nodes[k]| && nodes[k][l] == Outputs(i, j)[x] && |Outputs(k, l)| == x
      decreases i, j
    {
      if j == 0 {
        k, l := OutputIsAt(i - 1, |nodes[i - 1]|, x);
      } else if x < |Outputs(i, j - 1)| {
        k, l := OutputIsAt(i, j - 1, x);
      } else {
        k, l := i, j - 1;
      }
    }

    /** They come layer by layer and, in a layer, in its order, and no place gives two of them. */
    lemma OutputsInOrder(x: nat, y: nat) returns (k: nat, l: nat, m: nat, n: nat)
      requires x < y < |OutputNodes()|
      ensures k < |nodes| && l < |nodes[k]| && nodes[k][l] == OutputNodes()[x]
      ensures m < |nodes| && n < |nodes[m]| && nodes[m][n] == OutputNodes()[y]
      ensures k < m || (k == m && l < n)
    {
      k, l := OutputIsAt(|nodes|, 0, x);
      m, n := OutputIsAt(|nodes|, 0, y);
      if m < k || (m == k && n <= l) {
        OutputsGrow(k, l, m, n);
      }
    }

    method GetSubstrateOutputFunctions() returns (functions: seq<Text>)
      requires Valid()
      ensures forall n :: n in All() ==> (n in OutputNodes() <==> n.nodeType == 2)
      ensures |functions| == |OutputNodes()|
      ensures forall x :: 0 <= x < |functions| ==> functions[x] == Formula(NetOf(OutputNodes()[x], All()), End)
    {
      forall n | n in All() ensures n in OutputNodes() <==> n.nodeType == 2 {
        AllOutputs(n);
      }
      functions := [];
      var i := 0;
      while i < |nodes|
        invariant 0 <= i <= |nodes| && |functions| == |Outputs(i, 0)|
        invariant forall x :: 0 <= x < |functions| ==> functions[x] == Formula(NetOf(Outputs(i, 0)[x], All()), End)
      {
        var j := 0;
        while j < |nodes[i]|
          invariant 0 <= j <= |nodes[i]| && |functions| == |Outputs(i, j)|
          invariant forall x :: 0 <= x < |functions| ==> functions[x] == Formula(NetOf(Outputs(i, j)[x], All()), End)
        {
          IsInAll(i, j);
          if nodes[i][j].nodeType == 2 {
            var text := nodes[i][j].GetNodeFunction(All());
            functions := functions + [text];
          }
          j := j + 1;
        }
        i := i + 1;
      }
    }

    method GetOutputOrder() returns (order: seq<nat>)
      ensures |order| == |OutputNodes()|
      ensures forall x :: 0 <= x < |order| ==> order[x] == OutputNodes()[x].outputId
    {
      order := [];
      var i := 0;
      while i < |nodes|
        invariant 0 <= i <= |nodes| && |order| == |Outputs(i, 0)|
        invariant forall x :: 0 <= x < |order| ==> order[x] == Outputs(i, 0)[x].outputId
      {
        var j := 0;
        while j < |nodes[i]|
          invariant 0 <= j <= |nodes[i]| && |order| == |Outputs(i, j)|
          invariant forall x :: 0 <= x < |order| ==> order[x] == Outputs(i, j)[x].outputId
        {
          if nodes[i][j].nodeType == 2 {
            order := order + [nodes[i][j].outputId];
          }
          j := j + 1;
        }
        i := i + 1;
      }
    }
  }
}
