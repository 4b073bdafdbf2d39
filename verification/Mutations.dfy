/** What the mutations and the crossover make of genomes, and that the result fits the registry. */
module Mutations {
  import opened Sequences
  import opened Genomes
  import opened RowOrder
  import opened Registries

  /** The slot number of the connection from `i` to `j`. */
  function SlotOf(reg: Registry, i: nat, j: nat): nat
    requires (i, j) in reg.innovations
  {
    reg.innovations[(i, j)]
  }

  /** A slot that holds a connection holds the one that the registry numbers so. */
  lemma SlotHasItsPair(reg: Registry, g: Genome, i: nat, j: nat)
    requires NumbersOk(reg) && ConnsNumbered(reg, g) && (i, j) in reg.innovations && HasConn(g, SlotOf(reg, i, j))
    ensures g.conns[SlotOf(reg, i, j)].src == i && g.conns[SlotOf(reg, i, j)].dst == j && HasNode(g, i) && HasNode(g, j)
  {
  }

  /** A connection with its registry number put into a free slot. */
  lemma ConnFits(reg: Registry, g: Genome, i: nat, j: nat, weight: real, enable: bool)
    requires Fits(reg, g) && NumbersOk(reg) && (i, j) in reg.innovations && HasNode(g, i) && HasNode(g, j)
    requires !HasConn(g, SlotOf(reg, i, j))
    ensures Fits(reg, WithConn(g, Conn(SlotOf(reg, i, j), i, j, weight, enable)))
  {
    var h := WithConn(g, Conn(SlotOf(reg, i, j), i, j, weight, enable));
    assert forall n :: HasNode(h, n) <==> HasNode(g, n);
    assert IndexesAgree(h);
    forall k | HasConn(h, k)
      ensures h.conns[k].innovation == k && HasNode(h, h.conns[k].src) && HasNode(h, h.conns[k].dst)
      ensures (h.conns[k].src, h.conns[k].dst) in reg.innovations && SlotOf(reg, h.conns[k].src, h.conns[k].dst) == k
    {
      assert k != SlotOf(reg, i, j) ==> HasConn(g, k) && h.conns[k] == g.conns[k];
    }
  }

  /** Switching a connection changes nothing that the registry says. */
  lemma SwitchFits(reg: Registry, g: Genome, k: nat, enable: bool)
    requires Fits(reg, g) && HasConn(g, k)
    ensures Fits(reg, g.(conns := g.conns[k := g.conns[k].(enable := enable)]))
  {
    var h := g.(conns := g.conns[k := g.conns[k].(enable := enable)]);
    assert forall n :: HasNode(h, n) <==> HasNode(g, n);
    assert IndexesAgree(h);
    assert forall i :: HasConn(h, i) <==> HasConn(g, i);
  }

  /** A hidden node with its registry row, and the population's row list, which has that row. */
  lemma HiddenFits(reg: Registry, g: Genome, n: nat, fn: Func)
    requires Fits(reg, g) && RecordsOk(reg) && n in reg.rowOf && !HasNode(g, n)
    ensures Fits(reg, WithNode(g, Node(n, Hidden, reg.rowOf[n], fn, 0.0, 0.0)).(rowOrder := reg.rows.order))
  {
    var gene := Node(n, Hidden, reg.rowOf[n], fn, 0.0, 0.0);
    var h := WithNode(g, gene);
    var r := h.(rowOrder := reg.rows.order);
    WithNodeAgrees(g, gene);
    assert forall m :: HasNode(r, m) <==> HasNode(h, m);
    assert IndexesAgree(r);
    assert forall k :: HasConn(r, k) <==> HasConn(g, k);
    assert ConnsNumbered(reg, r);
    assert NodesPlaced(reg, r);
  }

  // ---------- joining two nodes ----------

  ghost predicate Joined(g: Genome, i: nat, j: nat) {
    exists k :: HasConn(g, k) && g.conns[k].src == i && g.conns[k].dst == j
  }

  /** Two nodes with no connection from the first to the second. */
  ghost predicate CanJoin(g: Genome, i: nat, j: nat) {
    i != j && HasNode(g, i) && HasNode(g, j) && !Joined(g, i, j)
  }

  lemma JoinedIfOccupied(reg: Registry, g: Genome, i: nat, j: nat)
    requires NumbersOk(reg) && ConnsNumbered(reg, g) && (i, j) in reg.innovations
    ensures HasConn(g, SlotOf(reg, i, j)) <==> Joined(g, i, j)
  {
    if HasConn(g, SlotOf(reg, i, j)) {
      SlotHasItsPair(reg, g, i, j);
    }
  }

  // ---------- splitting a connection ----------

  /** The node that splits connection `k` is numbered, and the genome does not have it. */
  ghost predicate CanSplit(reg: Registry, g: Genome, k: nat) {
    && HasConn(g, k) && g.conns[k].enable
    && (g.conns[k].src, g.conns[k].dst) in reg.nodes && !HasNode(g, reg.nodes[(g.conns[k].src, g.conns[k].dst)])
  }

  ghost function SplittingNode(reg: Registry, g: Genome, k: nat): nat
    requires CanSplit(reg, g, k)
  {
    reg.nodes[(g.conns[k].src, g.conns[k].dst)]
  }

  /** The registry has what the two halves of a split need. */
  ghost predicate SplitNumbered(reg: Registry, g: Genome, k: nat)
    requires CanSplit(reg, g, k)
  {
    var n := SplittingNode(reg, g, k);
    n in reg.rowOf && (g.conns[k].src, n) in reg.innovations && (n, g.conns[k].dst) in reg.innovations
  }

  /** The new node put into the genome with the population's row order, and the old connection switched off. */
  function NodePut(g: Genome, k: nat, gene: NodeGene, order: seq<nat>): Genome
    requires HasConn(g, k) && gene.Node?
  {
    var placed := WithNode(g, gene).(rowOrder := order);
    placed.(conns := placed.conns[k := placed.conns[k].(enable := false)])
  }

  ghost function SplitNode(reg: Registry, g: Genome, k: nat, fn: Func): Genome
    requires CanSplit(reg, g, k) && SplitNumbered(reg, g, k)
  {
    var n := SplittingNode(reg, g, k);
    NodePut(g, k, Node(n, Hidden, reg.rowOf[n], fn, 0.0, 0.0), reg.rows.order)
  }

  /** A connection split in two: the old one is switched off, the first half carries weight 1 and the second
      the old weight. */
  ghost function Split(reg: Registry, g: Genome, k: nat, fn: Func): Genome
    requires CanSplit(reg, g, k) && SplitNumbered(reg, g, k)
  {
    var c, n := g.conns[k], SplittingNode(reg, g, k);
    WithConn(WithConn(SplitNode(reg, g, k, fn), Conn(SlotOf(reg, c.src, n), c.src, n, 1.0, true)),
             Conn(SlotOf(reg, n, c.dst), n, c.dst, c.weight, true))
  }

  lemma SplitNodeFits(reg: Registry, g: Genome, k: nat, fn: Func)
    requires RegistryOk(reg) && Fits(reg, g) && CanSplit(reg, g, k) && SplitNumbered(reg, g, k)
    ensures Fits(reg, SplitNode(reg, g, k, fn)) && HasNode(SplitNode(reg, g, k, fn), SplittingNode(reg, g, k))
    ensures forall i :: HasConn(SplitNode(reg, g, k, fn), i) <==> HasConn(g, i)
    ensures forall n :: HasNode(g, n) ==> HasNode(SplitNode(reg, g, k, fn), n)
  {
    var n := SplittingNode(reg, g, k);
    HiddenFits(reg, g, n, fn);
    var placed := WithNode(g, Node(n, Hidden, reg.rowOf[n], fn, 0.0, 0.0)).(rowOrder := reg.rows.order);
    assert HasConn(placed, k);
    SwitchFits(reg, placed, k, false);
  }

  /** The child of a split fits, and both of its new connections went into free slots. */
  lemma SplitFits(reg: Registry, g: Genome, k: nat, fn: Func)
    requires RegistryOk(reg) && Fits(reg, g) && CanSplit(reg, g, k) && SplitNumbered(reg, g, k)
    ensures Fits(reg, Split(reg, g, k, fn))
    ensures var c, n := g.conns[k], SplittingNode(reg, g, k);
      !HasConn(g, SlotOf(reg, c.src, n)) && !HasConn(g, SlotOf(reg, n, c.dst)) && SlotOf(reg, c.src, n) != SlotOf(reg, n, c.dst)
  {
    var c, n := g.conns[k], SplittingNode(reg, g, k);
    SplitNodeFits(reg, g, k, fn);
    assert HasNode(g, c.src) && HasNode(g, c.dst);
    assert !HasConn(g, SlotOf(reg, c.src, n)) by {
      if HasConn(g, SlotOf(reg, c.src, n)) {
        SlotHasItsPair(reg, g, c.src, n);
      }
    }
    assert !HasConn(g, SlotOf(reg, n, c.dst)) by {
      if HasConn(g, SlotOf(reg, n, c.dst)) {
        SlotHasItsPair(reg, g, n, c.dst);
      }
    }
    assert (c.src, n) != (n, c.dst);
    var g1 := SplitNode(reg, g, k, fn);
    ConnFits(reg, g1, c.src, n, 1.0, true);
    var g2 := WithConn(g1, Conn(SlotOf(reg, c.src, n), c.src, n, 1.0, true));
    assert HasNode(g2, n) && HasNode(g2, c.dst);
    ConnFits(reg, g2, n, c.dst, c.weight, true);
  }
}
