/** The genome of NEAT (genetic_encoding.cpp): gene lists indexed by historical numbers, with gaps,
    and the secondary indexes that `eval` walks. */
module Genomes {
  import opened Sequences

  /** The five node functions of random_function.cpp, by name. */
  datatype Func = Gaussian | Sigmoid | Sin | Cos | Identity

  datatype Kind = Input | Hidden | Output

  /** A node slot. A missing slot has `exist == false` and holds nothing that is ever read. */
  datatype NodeGene =
    | NoNode
    | Node(id: nat, kind: Kind, row: nat, fn: Func, value: real, past: real)

  datatype ConnGene =
    | NoConn
    | Conn(innovation: nat, src: nat, dst: nat, weight: real, enable: bool)

  /** The value of a genome. C++ passes and returns genomes by value. */
  datatype Genome = Genome(
    conns: seq<ConnGene>,
    nodes: seq<NodeGene>,
    rowOrder: seq<nat>,
    nodesAtRow: seq<seq<nat>>,
    outputs: seq<nat>)

  const EMPTY := Genome([], [], [], [], [])

  predicate HasNode(g: Genome, n: int) {
    0 <= n < |g.nodes| && g.nodes[n].Node?
  }

  predicate HasConn(g: Genome, k: int) {
    0 <= k < |g.conns| && g.conns[k].Conn?
  }

  /** Slot `n` holds node `n`; the list of a row names exactly the nodes of that row, once each; the
      output list names exactly the output nodes. */
  ghost predicate IndexesAgree(g: Genome) {
    && (forall n :: HasNode(g, n) ==> g.nodes[n].id == n && g.nodes[n].row < |g.nodesAtRow| && n in g.nodesAtRow[g.nodes[n].row])
    && (forall r, n :: 0 <= r < |g.nodesAtRow| && n in g.nodesAtRow[r] ==> HasNode(g, n) && g.nodes[n].row == r)
    && (forall r :: 0 <= r < |g.nodesAtRow| ==> Distinct(g.nodesAtRow[r]))
    && (forall n :: n in g.outputs <==> HasNode(g, n) && g.nodes[n].kind == Output)
    && Distinct(g.outputs)
  }

  /** Slot `k` holds innovation `k`, and it joins two existing nodes. */
  ghost predicate ConnsAgree(g: Genome) {
    forall k :: HasConn(g, k) ==>
      g.conns[k].innovation == k && HasNode(g, g.conns[k].src) && HasNode(g, g.conns[k].dst)
  }

  /** The row list is a permutation and places every row in use. */
  ghost predicate RowsAgree(g: Genome) {
    && Permutation(g.rowOrder)
    && forall n :: HasNode(g, n) ==> g.nodes[n].row < |g.rowOrder|
  }

  ghost predicate WellFormed(g: Genome) {
    IndexesAgree(g) && ConnsAgree(g) && RowsAgree(g)
  }

  /** What `add_node` makes of a genome when the slot is free. */
  function WithNode(g: Genome, gene: NodeGene): (r: Genome)
    requires gene.Node?
    ensures r.conns == g.conns && r.rowOrder == g.rowOrder
    ensures HasNode(r, gene.id) && r.nodes[gene.id] == gene
    ensures forall n :: n != gene.id ==> (HasNode(r, n) <==> HasNode(g, n)) && (HasNode(g, n) ==> r.nodes[n] == g.nodes[n])
  {
    var line := if gene.row < |g.nodesAtRow| then g.nodesAtRow[gene.row] else [];
    g.(nodes := PutAt(g.nodes, gene.id, gene, NoNode),
       nodesAtRow := PutAt(g.nodesAtRow, gene.row, line + [gene.id], []),
       outputs := if gene.kind == Output then g.outputs + [gene.id] else g.outputs)
  }

  /** What `add_connection` makes of a genome: an occupied slot is reported and left alone. */
  function WithConn(g: Genome, gene: ConnGene): (r: Genome)
    requires gene.Conn?
    ensures r.nodes == g.nodes && r.rowOrder == g.rowOrder && r.nodesAtRow == g.nodesAtRow && r.outputs == g.outputs
    ensures HasConn(r, gene.innovation)
    ensures r.conns[gene.innovation] == if HasConn(g, gene.innovation) then g.conns[gene.innovation] else gene
    ensures forall k :: k != gene.innovation ==> (HasConn(r, k) <==> HasConn(g, k)) && (HasConn(g, k) ==> r.conns[k] == g.conns[k])
  {
    if HasConn(g, gene.innovation) then g
    else g.(conns := PutAt(g.conns, gene.innovation, gene, NoConn))
  }

  lemma WithNodeAgrees(g: Genome, gene: NodeGene)
    requires IndexesAgree(g) && gene.Node? && !HasNode(g, gene.id)
    ensures IndexesAgree(WithNode(g, gene))
  {
    var r := WithNode(g, gene);
    assert forall q :: 0 <= q < |r.nodesAtRow| && q != gene.row ==> r.nodesAtRow[q] == if q < |g.nodesAtRow| then g.nodesAtRow[q] else [];
    var line := if gene.row < |g.nodesAtRow| then g.nodesAtRow[gene.row] else [];
    assert r.nodesAtRow[gene.row] == line + [gene.id];
    assert gene.id !in line;
  }

  /** The genome object. Its methods change its gene lists and indexes in place. */
  class Encoding {
    var conns: seq<ConnGene>
    var nodes: seq<NodeGene>
    var rowOrder: seq<nat>
    var nodesAtRow: seq<seq<nat>>
    var outputs: seq<nat>

    ghost function Value(): Genome
      reads this
    {
      Genome(conns, nodes, rowOrder, nodesAtRow, outputs)
    }

    constructor (g: Genome)
      ensures Value() == g
    {
      conns, nodes, rowOrder, nodesAtRow, outputs := g.conns, g.nodes, g.rowOrder, g.nodesAtRow, g.outputs;
    }

    method Copy() returns (g: Genome)
      ensures g == Value()
    {
      g := Genome(conns, nodes, rowOrder, nodesAtRow, outputs);
    }

    /** Both overloads of `add_node`: past and current value of the new node are zero. `ok` is false where
        the program reports a node number that already exists and exits. */
    method AddNode(id: nat, row: nat, kind: Kind, fn: Func) returns (ok: bool)
      modifies this`nodes, this`nodesAtRow, this`outputs
      ensures ok <==> !HasNode(old(Value()), id)
      ensures Value() == if ok then WithNode(old(Value()), Node(id, kind, row, fn, 0.0, 0.0)) else old(Value())
    {
      var gene := Node(id, kind, row, fn, 0.0, 0.0);
      if id >= |nodes| {
        var size := |nodes|;
        var i := 0;
        while i < id - size
          invariant 0 <= i <= id - size
          invariant nodes == old(nodes) + seq(i, _ => NoNode)
          invariant nodesAtRow == old(nodesAtRow) && outputs == old(outputs)
        {
          nodes := nodes + [NoNode];
          i := i + 1;
        }
        nodes := nodes + [gene];
      } else if nodes[id].Node? {
        return false;
      } else {
        nodes := nodes[id := gene];
      }
      while row > |nodesAtRow| - 1
        invariant |old(nodesAtRow)| <= |nodesAtRow|
        invariant |nodesAtRow| <= row + 1 || nodesAtRow == old(nodesAtRow)
        invariant nodesAtRow == old(nodesAtRow) + seq(|nodesAtRow| - |old(nodesAtRow)|, _ => [])
        invariant nodes == PutAt(old(nodes), id, gene, NoNode)
        invariant outputs == old(outputs)
        decreases row + 1 - |nodesAtRow|
      {
        nodesAtRow := nodesAtRow + [[]];
      }
      nodesAtRow := nodesAtRow[row := nodesAtRow[row] + [id]];
      if kind == Output {
        outputs := outputs + [id];
      }
      assert nodesAtRow == WithNode(old(Value()), gene).nodesAtRow;
      return true;
    }

    /** Both overloads of `add_connection`. `ok` is false where the program reports an innovation that
        already exists; it then goes on with the genome as it was. */
    method AddConnection(innovation: nat, src: nat, dst: nat, weight: real, enable: bool) returns (ok: bool)
      modifies this`conns
      ensures ok <==> !HasConn(old(Value()), innovation)
      ensures Value() == WithConn(old(Value()), Conn(innovation, src, dst, weight, enable))
    {
      var gene := Conn(innovation, src, dst, weight, enable);
      if innovation >= |conns| {
        var size := |conns|;
        var i := 0;
        while i < innovation - size
          invariant 0 <= i <= innovation - size
          invariant conns == old(conns) + seq(i, _ => NoConn)
        {
          conns := conns + [NoConn];
          i := i + 1;
        }
        conns := conns + [gene];
      } else if conns[innovation].Conn? {
        return false;
      } else {
        conns := conns[innovation := gene];
      }
      return true;
    }

    /** `reset_past_values`. */
    method ResetPast()
      modifies this`nodes
      ensures |nodes| == |old(nodes)|
      ensures forall n :: 0 <= n < |nodes| ==>
        nodes[n] == if old(nodes)[n].Node? then old(nodes)[n].(past := 0.0) else NoNode
    {
      var i := 0;
      while i < |nodes|
        invariant 0 <= i <= |nodes| == |old(nodes)|
        invariant forall n :: i <= n < |nodes| ==> nodes[n] == old(nodes)[n]
        invariant forall n :: 0 <= n < i ==> nodes[n] == if old(nodes)[n].Node? then old(nodes)[n].(past := 0.0) else NoNode
      {
        if nodes[i].Node? {
          nodes := nodes[i := nodes[i].(past := 0.0)];
        }
        i := i + 1;
      }
    }
  }
}
