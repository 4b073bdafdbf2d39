/** The crossover of two genomes slot by slot (NEAT.cpp). The random draws come in as functions of the slot. */
module Crossovers {
  import opened Sequences
  import opened Genomes
  import opened RowOrder
  import opened Registries

  function ConnSlot(g: Genome, k: nat): ConnGene {
    if k < |g.conns| then g.conns[k] else NoConn
  }

  function NodeSlot(g: Genome, n: nat): NodeGene {
    if n < |g.nodes| then g.nodes[n] else NoNode
  }

  /** A connection of one parent passes on as it is; of two enabled ones, either; otherwise a disabled one,
      the first parent's if it is, which may wake up. */
  function CrossedConn(a: ConnGene, b: ConnGene, first: bool, wake: bool): ConnGene {
    if a.NoConn? then b
    else if b.NoConn? then a
    else if a.enable && b.enable then (if first then a else b)
    else if !a.enable then a.(enable := wake)
    else b.(enable := wake)
  }

  /** A node of one parent passes on, of two, either; it starts with zero values. */
  function CrossedNode(a: NodeGene, b: NodeGene, first: bool): NodeGene {
    var from := if a.NoNode? || (b.Node? && !first) then b else a;
    if from.Node? then from.(value := 0.0, past := 0.0) else NoNode
  }

  /** The random draws of one crossover. */
  datatype Draws = Draws(conn: nat -> bool, wake: nat -> bool, node: nat -> bool)

  ghost predicate ConnsCrossed(a: Genome, b: Genome, draws: Draws, child: Genome, i: nat) {
    forall k: nat :: ConnSlot(child, k) == if k < i then CrossedConn(ConnSlot(a, k), ConnSlot(b, k), draws.conn(k), draws.wake(k)) else NoConn
  }

  ghost predicate NodesCrossed(a: Genome, b: Genome, draws: Draws, child: Genome, i: nat) {
    forall n: nat :: NodeSlot(child, n) == if n < i then CrossedNode(NodeSlot(a, n), NodeSlot(b, n), draws.node(n)) else NoNode
  }

  /** Every slot of the child holds what the crossover of the parents' slots gives. */
  ghost predicate Crossed(a: Genome, b: Genome, draws: Draws, child: Genome) {
    && (forall k: nat :: ConnSlot(child, k) == CrossedConn(ConnSlot(a, k), ConnSlot(b, k), draws.conn(k), draws.wake(k)))
    && (forall n: nat :: NodeSlot(child, n) == CrossedNode(NodeSlot(a, n), NodeSlot(b, n), draws.node(n)))
  }

  /** Gene by gene: a connection of one parent alone passes on as it is. One of both is switched on in the child exactly if it
      is in both parents or the draw wakes it; its other parts come from the drawn parent if it is switched on in both, and
      otherwise from one in which it is switched off, the first if there are two. */
  lemma ChildConnection(a: Genome, b: Genome, draws: Draws, child: Genome, k: nat)
    requires Crossed(a, b, draws, child)
    ensures HasConn(child, k) <==> HasConn(a, k) || HasConn(b, k)
    ensures HasConn(a, k) && !HasConn(b, k) ==> child.conns[k] == a.conns[k]
    ensures !HasConn(a, k) && HasConn(b, k) ==> child.conns[k] == b.conns[k]
    ensures HasConn(a, k) && HasConn(b, k) ==> var x, y, c := a.conns[k], b.conns[k], child.conns[k];
      && (c.enable <==> (x.enable && y.enable) || draws.wake(k))
      && (if x.enable && (!y.enable || !draws.conn(k)) then c == y.(enable := c.enable) else c == x.(enable := c.enable))
  {
    assert ConnSlot(child, k) == CrossedConn(ConnSlot(a, k), ConnSlot(b, k), draws.conn(k), draws.wake(k));
  }

  /** A node of one parent alone, or the drawn one of two, with zero values. */
  lemma ChildNode(a: Genome, b: Genome, draws: Draws, child: Genome, n: nat)
    requires Crossed(a, b, draws, child)
    ensures HasNode(child, n) <==> HasNode(a, n) || HasNode(b, n)
    ensures HasNode(child, n) ==> child.nodes[n].value == 0.0 && child.nodes[n].past == 0.0
    ensures HasNode(a, n) && (!HasNode(b, n) || draws.node(n)) ==>
      child.nodes[n].(value := 0.0, past := 0.0) == a.nodes[n].(value := 0.0, past := 0.0)
    ensures HasNode(b, n) && (!HasNode(a, n) || !draws.node(n)) ==>
      child.nodes[n].(value := 0.0, past := 0.0) == b.nodes[n].(value := 0.0, past := 0.0)
  {
    assert NodeSlot(child, n) == CrossedNode(NodeSlot(a, n), NodeSlot(b, n), draws.node(n));
  }

  ghost predicate OwnNumbers(g: Genome) {
    forall k :: HasConn(g, k) ==> g.conns[k].innovation == k
  }

  ghost predicate OwnNodes(g: Genome) {
    forall n :: HasNode(g, n) ==> g.nodes[n].id == n
  }

  function Max(a: nat, b: nat): nat {
    if a > b then a else b
  }

  /** The gene that the crossover takes for slot `i`, found with the branches of the program. */
  method ConnToAdd(a: Genome, b: Genome, draws: Draws, i: nat) returns (c: ConnGene)
    requires i < Max(|a.conns|, |b.conns|)
    ensures c == CrossedConn(ConnSlot(a, i), ConnSlot(b, i), draws.conn(i), draws.wake(i))
  {
    var firstIsLarger := |a.conns| > |b.conns|;
    if i >= (if firstIsLarger then |b.conns| else |a.conns|) {
      c := if firstIsLarger then a.conns[i] else b.conns[i];
    } else if a.conns[i].Conn? && b.conns[i].Conn? {
      if a.conns[i].enable && b.conns[i].enable {
        c := if draws.conn(i) then a.conns[i] else b.conns[i];
      } else if !a.conns[i].enable {
        c := if draws.wake(i) then a.conns[i].(enable := true) else a.conns[i];
      } else {
        c := if draws.wake(i) then b.conns[i].(enable := true) else b.conns[i];
      }
    } else {
      c := if a.conns[i].Conn? then a.conns[i] else b.conns[i];
    }
  }

  method CrossConns(e: Encoding, a: Genome, b: Genome, draws: Draws)
    requires OwnNumbers(a) && OwnNumbers(b) && e.conns == []
    modifies e`conns
    ensures ConnsCrossed(a, b, draws, e.Value(), Max(|a.conns|, |b.conns|))
  {
    var i := 0;
    while i < Max(|a.conns|, |b.conns|)
      invariant 0 <= i <= Max(|a.conns|, |b.conns|)
      invariant ConnsCrossed(a, b, draws, e.Value(), i)
    {
      var c := ConnToAdd(a, b, draws, i);
      if c.Conn? {
        ghost var was := e.Value();
        assert ConnSlot(was, i) == NoConn;
        var added := e.AddConnection(c.innovation, c.src, c.dst, c.weight, c.enable);
        assert added;
        ConnPut(was, c, i);
      }
      i := i + 1;
    }
  }

  lemma ConnPut(g: Genome, c: ConnGene, i: nat)
    requires c.Conn? && c.innovation == i && ConnSlot(g, i) == NoConn
    ensures forall k: nat :: ConnSlot(WithConn(g, c), k) == if k == i then c else ConnSlot(g, k)
  {
    forall k: nat ensures ConnSlot(WithConn(g, c), k) == if k == i then c else ConnSlot(g, k) {
      assert HasConn(WithConn(g, c), k) <==> k == i || HasConn(g, k);
    }
  }

  lemma NodePutAt(g: Genome, gene: NodeGene, i: nat)
    requires gene.Node? && gene.id == i
    ensures forall n: nat :: NodeSlot(WithNode(g, gene), n) == if n == i then gene else NodeSlot(g, n)
  {
    forall n: nat ensures NodeSlot(WithNode(g, gene), n) == if n == i then gene else NodeSlot(g, n) {
      assert HasNode(WithNode(g, gene), n) <==> n == i || HasNode(g, n);
    }
  }

  /** The gene that the crossover takes for node slot `i`. */
  method NodeToAdd(a: Genome, b: Genome, draws: Draws, i: nat) returns (n: NodeGene)
    requires i < Max(|a.nodes|, |b.nodes|)
    ensures n.Node? <==> CrossedNode(NodeSlot(a, i), NodeSlot(b, i), draws.node(i)).Node?
    ensures n.Node? ==> n == NodeSlot(a, i) || n == NodeSlot(b, i)
    ensures n.Node? ==> n.(value := 0.0, past := 0.0) == CrossedNode(NodeSlot(a, i), NodeSlot(b, i), draws.node(i))
  {
    var firstIsLarger := |a.nodes| > |b.nodes|;
    if i >= (if firstIsLarger then |b.nodes| else |a.nodes|) {
      n := if firstIsLarger then a.nodes[i] else b.nodes[i];
    } else if a.nodes[i].Node? && b.nodes[i].Node? {
      n := if draws.node(i) then a.nodes[i] else b.nodes[i];
    } else {
      n := if a.nodes[i].Node? then a.nodes[i] else b.nodes[i];
    }
  }

  /** The indexes agree so far, and only nodes below `i` are outputs, in ascending order. */
  ghost predicate IndexedTo(g: Genome, i: nat) {
    IndexesAgree(g) && Ascending(g.outputs) && forall j :: 0 <= j < |g.outputs| ==> g.outputs[j] < i
  }

  lemma IndexedOn(g: Genome, gene: NodeGene, i: nat)
    requires IndexedTo(g, i) && gene.Node? && gene.id == i && !HasNode(g, i)
    ensures IndexedTo(WithNode(g, gene), i + 1)
  {
    WithNodeAgrees(g, gene);
  }

  lemma EmptyIsIndexed(g: Genome)
    requires g.nodes == [] && g.nodesAtRow == [] && g.outputs == []
    ensures IndexedTo(g, 0)
  {
  }

  method CrossNodes(e: Encoding, a: Genome, b: Genome, draws: Draws)
    requires OwnNodes(a) && OwnNodes(b) && e.nodes == [] && e.nodesAtRow == [] && e.outputs == []
    modifies e`nodes, e`nodesAtRow, e`outputs
    ensures NodesCrossed(a, b, draws, e.Value(), Max(|a.nodes|, |b.nodes|))
    ensures IndexedTo(e.Value(), Max(|a.nodes|, |b.nodes|))
  {
    EmptyIsIndexed(e.Value());
    var i := 0;
    while i < Max(|a.nodes|, |b.nodes|)
      invariant 0 <= i <= Max(|a.nodes|, |b.nodes|)
      invariant NodesCrossed(a, b, draws, e.Value(), i) && IndexedTo(e.Value(), i)
    {
      var n := NodeToAdd(a, b, draws, i);
      if n.Node? {
        ghost var was := e.Value();
        assert NodeSlot(was, i) == NoNode;
        var added := e.AddNode(n.id, n.row, n.kind, n.fn);
        assert added;
        NodePutAt(was, n.(value := 0.0, past := 0.0), i);
        IndexedOn(was, n.(value := 0.0, past := 0.0), i);
      }
      i := i + 1;
    }
  }

  /** `crossover`. `order` is the population's row order. */
  method Cross(a: Genome, b: Genome, draws: Draws, order: seq<nat>) returns (child: Genome)
    requires OwnNumbers(a) && OwnNumbers(b) && OwnNodes(a) && OwnNodes(b)
    ensures Crossed(a, b, draws, child) && child.rowOrder == order
    ensures IndexesAgree(child) && Ascending(child.outputs)
  {
    var e := new Encoding(EMPTY);
    CrossConns(e, a, b, draws);
    ghost var i := Max(|a.conns|, |b.conns|);
    assert forall k: nat :: k >= i ==> ConnSlot(a, k) == ConnSlot(b, k) == NoConn;
    CrossNodes(e, a, b, draws);
    ghost var j := Max(|a.nodes|, |b.nodes|);
    assert forall n: nat :: n >= j ==> NodeSlot(a, n) == NodeSlot(b, n) == NoNode;
    child := e.Copy();
    child := child.(rowOrder := order);
    IndexesIgnoreOrder(e.Value(), child);
  }

  lemma IndexesIgnoreOrder(g: Genome, h: Genome)
    requires h == g.(rowOrder := h.rowOrder)
    ensures IndexesAgree(g) <==> IndexesAgree(h)
  {
    assert forall n :: HasNode(h, n) <==> HasNode(g, n);
  }

  /** A child has a connection or a node exactly where a parent has one. */
  lemma CrossedHas(a: Genome, b: Genome, draws: Draws, child: Genome)
    requires Crossed(a, b, draws, child)
    ensures forall k :: HasConn(child, k) <==> HasConn(a, k) || HasConn(b, k)
    ensures forall n :: HasNode(child, n) <==> HasNode(a, n) || HasNode(b, n)
  {
    forall k ensures HasConn(child, k) <==> HasConn(a, k) || HasConn(b, k) {
      if k >= 0 {
        assert HasConn(child, k) <==> ConnSlot(child, k).Conn?;
      }
    }
    forall n ensures HasNode(child, n) <==> HasNode(a, n) || HasNode(b, n) {
      if n >= 0 {
        assert HasNode(child, n) <==> NodeSlot(child, n).Node?;
      }
    }
  }

  /** In a slot that both parents have, they have the same connection, as the registry has it once. */
  lemma CrossedNumbered(reg: Registry, a: Genome, b: Genome, draws: Draws, child: Genome)
    requires Injective(reg.innovations) && ConnsNumbered(reg, a) && ConnsNumbered(reg, b) && Crossed(a, b, draws, child)
    ensures ConnsNumbered(reg, child)
  {
    CrossedHas(a, b, draws, child);
    forall k | HasConn(child, k)
      ensures var c := child.conns[k];
        && c.innovation == k && (HasNode(a, c.src) || HasNode(b, c.src)) && (HasNode(a, c.dst) || HasNode(b, c.dst))
        && (c.src, c.dst) in reg.innovations && reg.innovations[(c.src, c.dst)] == k
    {
      assert ConnSlot(child, k) == CrossedConn(ConnSlot(a, k), ConnSlot(b, k), draws.conn(k), draws.wake(k));
    }
  }

  lemma CrossedPlaced(reg: Registry, a: Genome, b: Genome, draws: Draws, child: Genome)
    requires RecordsOk(reg) && NodesPlaced(reg, a) && NodesPlaced(reg, b) && Crossed(a, b, draws, child)
    requires child.rowOrder == reg.rows.order
    ensures NodesPlaced(reg, child)
  {
    forall n | HasNode(child, n) ensures n in reg.rowOf && child.nodes[n].row == reg.rowOf[n] {
      assert NodeSlot(child, n) == CrossedNode(NodeSlot(a, n), NodeSlot(b, n), draws.node(n));
    }
  }

  /** The child of two genomes that fit the registry fits it. */
  lemma CrossedFits(reg: Registry, a: Genome, b: Genome, draws: Draws, child: Genome)
    requires NumbersOk(reg) && RecordsOk(reg) && Fits(reg, a) && Fits(reg, b) && Crossed(a, b, draws, child)
    requires child.rowOrder == reg.rows.order && IndexesAgree(child) && Ascending(child.outputs)
    ensures Fits(reg, child)
  {
    CrossedNumbered(reg, a, b, draws, child);
    CrossedPlaced(reg, a, b, draws, child);
  }
}
