/** The mutations and the crossover of a NEAT population (NEAT.cpp). The registry tables grow in place;
    genomes are passed and returned by value. */
module Populations {
  import opened Options
  import opened Sequences
  import opened Genomes
  import opened RowOrder
  import opened Registries
  import opened Acts
  import opened Mutations
  import opened Sacks
  import opened Crossovers
  import opened Tables
  import opened Seeds

  class Population {
    var historicalInnovation: seq<seq<int>>
    var lastInnovation: nat
    var historicalNodes: seq<seq<int>>
    var lastNode: int
    var historicalRow: seq<int>
    var rowOrder: seq<nat>
    var lastRow: nat
    // What the two tables hold, and the row of every node that a genome has had.
    ghost var innovations: map<Pair, nat>
    ghost var nodeNumbers: map<Pair, nat>
    ghost var rowOf: map<nat, nat>
    // The registry at the start, and what was done to it since.
    ghost const start: Registry
    ghost var log: seq<Act>

    ghost function Reg(): Registry
      requires lastNode >= -1
      reads this
    {
      Registry(innovations, lastInnovation, nodeNumbers, lastNode + 1, Rows(rowOrder, historicalRow, lastRow), rowOf)
    }

    ghost predicate Valid()
      reads this
    {
      lastNode >= -1 && Holds(historicalInnovation, innovations) && Holds(historicalNodes, nodeNumbers) && RegistryOk(Reg())
      && Reg() == AfterAll(start, log)
    }

    /** The numbering taken over from a seed whose connections are registered in `table`. */
    constructor (seed: Genome, table: seq<seq<int>>, last: nat, ghost numbers: map<Pair, nat>)
      requires Holds(table, numbers) && RegistryOk(SeedRegistry(seed, numbers, last))
      ensures Valid() && start == Reg() == SeedRegistry(seed, numbers, last)
    {
      start, log := SeedRegistry(seed, numbers, last), [];
      historicalInnovation, lastInnovation, innovations := table, last, numbers;
      rowOrder, lastRow := seed.rowOrder, |seed.rowOrder|;
      historicalNodes, nodeNumbers := [], map[];
      lastNode := |seed.nodes| - 1;
      historicalRow := [];
      rowOf := SeedRows(seed);
    }

    /** `obtain_innovation`. */
    method ObtainInnovation(i: nat, j: nat) returns (k: nat)
      requires Valid()
      modifies this`historicalInnovation, this`lastInnovation, this`innovations, this`log
      ensures Valid() && Extends(old(Reg()), Reg())
      ensures (Reg(), k) == Innovate(old(Reg()), (i, j))
    {
      ghost var next := Innovate(Reg(), (i, j)).0;
      InnovateExtends(Reg(), (i, j));
      AfterSnoc(start, log, Number((i, j)));
      log := log + [Number((i, j))];
      var isNew;
      historicalInnovation, k, isNew := NumberOf(historicalInnovation, i, j, lastInnovation, innovations);
      if isNew {
        innovations := innovations[(i, j) := k];
        lastInnovation := lastInnovation + 1;
      }
      assert Reg() == next;
    }

    /** `obtain_historical_node`. */
    method ObtainHistoricalNode(i: nat, j: nat) returns (n: nat)
      requires Valid()
      modifies this`historicalNodes, this`lastNode, this`nodeNumbers, this`log
      ensures Valid() && Extends(old(Reg()), Reg())
      ensures (Reg(), n) == NodeFor(old(Reg()), (i, j))
    {
      NodeForExtends(Reg(), (i, j));
      AfterSnoc(start, log, Name((i, j)));
      log := log + [Name((i, j))];
      var isNew;
      historicalNodes, n, isNew := NumberOf(historicalNodes, i, j, lastNode + 1, nodeNumbers);
      if isNew {
        nodeNumbers := nodeNumbers[(i, j) := n];
        lastNode := lastNode + 1;
      }
    }

    /** The search of `obtain_row` for the places of two rows. */
    method PlacesOf(rowIn: nat, rowOut: nat) returns (i: int, o: int)
      requires RowsOk(Rows(rowOrder, historicalRow, lastRow)) && rowIn in rowOrder && rowOut in rowOrder
      ensures i == PosOf(rowOrder, rowIn) && o == PosOf(rowOrder, rowOut)
    {
      var positionIn, positionOut := -1, -1;
      var flagIn, flagOut := false, false;
      ghost var a, b := PosOf(rowOrder, rowIn), PosOf(rowOrder, rowOut);
      var k := 0;
      while k < |rowOrder|
        invariant 0 <= k <= |rowOrder|
        invariant if flagIn then positionIn == a else k <= a
        invariant if flagOut then positionOut == b else k <= b
      {
        if !flagIn && rowIn == rowOrder[k] {
          PosOfIs(rowOrder, k);
          positionIn, flagIn := k, true;
        }
        if !flagOut && rowOut == rowOrder[k] {
          PosOfIs(rowOrder, k);
          positionOut, flagOut := k, true;
        }
        if flagIn && flagOut {
          break;
        }
        k := k + 1;
      }
      i, o := positionIn, positionOut;
    }

    /** The search for the places of the two rows, and what follows from them. */
    method PlaceRow(node: nat, rowIn: nat, rowOut: nat) returns (row: nat)
      requires RowsOk(Rows(rowOrder, historicalRow, lastRow)) && rowIn in rowOrder && rowOut in rowOrder
      modifies this`historicalRow, this`rowOrder, this`lastRow
      ensures (Rows(rowOrder, historicalRow, lastRow), row) == Placed(old(Rows(rowOrder, historicalRow, lastRow)), node, rowIn, rowOut)
    {
      if node < |historicalRow| && historicalRow[node] >= 0 {
        return historicalRow[node];
      }
      var i, o := PlacesOf(rowIn, rowOut);
      var size := |historicalRow|;
      while |historicalRow| - 1 < node
        invariant size <= |historicalRow| && (|historicalRow| <= node + 1 || |historicalRow| == size)
        invariant historicalRow == old(historicalRow) + seq(|historicalRow| - size, _ => -1)
        invariant rowOrder == old(rowOrder) && lastRow == old(lastRow)
      {
        historicalRow := historicalRow + [-1];
      }
      assert historicalRow == Padded(old(historicalRow), node);
      if i == o {
        row := rowIn;
      } else if o - i == 1 || i - o == 1 {
        historicalRow := historicalRow[node := lastRow];
        rowOrder := Inserted(rowOrder, if o > i then i + 1 else i - 1, lastRow);
        row := lastRow;
        lastRow := lastRow + 1;
      } else {
        row := rowOrder[if i > o then i - 1 else i + 1];
        historicalRow := historicalRow[node := row];
      }
    }

    /** `obtain_row`, for the node that splits the pair `p`. Both endpoints have rows, so the error exit for a
        missing row is not reached. */
    method ObtainRow(node: nat, rowIn: nat, rowOut: nat, ghost p: Pair) returns (row: nat)
      requires Valid() && p in nodeNumbers && nodeNumbers[p] == node
      requires p.0 in rowOf && p.1 in rowOf && rowIn == rowOf[p.0] && rowOut == rowOf[p.1]
      modifies this`historicalRow, this`rowOrder, this`lastRow, this`rowOf, this`log
      ensures Valid() && Extends(old(Reg()), Reg())
      ensures (Reg(), row) == RowFor(old(Reg()), p)
      ensures node in rowOf && rowOf[node] == row
    {
      ghost var reg := Reg();
      RowForIsOk(reg, p);
      AfterSnoc(start, log, Place(p));
      log := log + [Place(p)];
      row := PlaceRow(node, rowIn, rowOut);
      rowOf := rowOf[node := row];
      assert Reg() == RowFor(reg, p).0;
    }

    /** `mutation_node`, first part: the enabled connections whose splitting node the genome does not have.
        Every enabled connection gets its splitting node numbered on the way. */
    method SplitCandidates(organism: Genome) returns (candidates: seq<nat>)
      requires Valid()
      modifies this`historicalNodes, this`lastNode, this`nodeNumbers, this`log
      ensures Valid() && Extends(old(Reg()), Reg())
      ensures SplitSearch(Reg(), organism, candidates, |organism.conns|)
    {
      candidates := [];
      var i := 0;
      while i < |organism.conns|
        invariant 0 <= i <= |organism.conns|
        invariant Valid() && Extends(old(Reg()), Reg())
        invariant SplitSearch(Reg(), organism, candidates, i)
      {
        var c := organism.conns[i];
        ghost var reg := Reg();
        var put := false;
        if c.Conn? && c.enable {
          var node := ObtainHistoricalNode(c.src, c.dst);
          ExtendsIsTransitive(old(Reg()), reg, Reg());
          if node < |organism.nodes| {
            if !organism.nodes[node].Node? {
              put := true;
            }
          } else {
            put := true;
          }
        }
        SplitSearchOn(reg, Reg(), organism, candidates, i, put);
        if put {
          candidates := candidates + [i];
        }
        i := i + 1;
      }
    }

    /** The splitting node of the chosen connection, its row, and the numbers of its two connections. */
    method NumberSplit(organism: Genome, k: nat) returns (node: nat, row: nat, innov1: nat, innov2: nat)
      requires Valid() && Fits(Reg(), organism) && CanSplit(Reg(), organism, k)
      modifies this
      ensures Valid() && Extends(old(Reg()), Reg())
      ensures CanSplit(Reg(), organism, k) && SplitNumbered(Reg(), organism, k)
      ensures node == SplittingNode(Reg(), organism, k) && row == rowOf[node]
      ensures innov1 == SlotOf(Reg(), organism.conns[k].src, node) && innov2 == SlotOf(Reg(), node, organism.conns[k].dst)
      ensures PlacesSplit(old(Reg()), Reg(), (organism.conns[k].src, organism.conns[k].dst))
    {
      var c := organism.conns[k];
      ghost var reg0 := Reg();
      assert HasNode(organism, c.src) && HasNode(organism, c.dst);
      node := ObtainHistoricalNode(c.src, c.dst);
      ghost var reg1 := Reg();
      row := ObtainRow(node, organism.nodes[c.src].row, organism.nodes[c.dst].row, (c.src, c.dst));
      ExtendsIsTransitive(reg0, reg1, Reg());
      innov1, innov2 := NumberHalves(c.src, node, c.dst);
    }

    /** The numbers of the two halves of a split connection. */
    method NumberHalves(i: nat, node: nat, j: nat) returns (innov1: nat, innov2: nat)
      requires Valid()
      modifies this`historicalInnovation, this`lastInnovation, this`innovations, this`log
      ensures Valid() && Extends(old(Reg()), Reg())
      ensures (i, node) in innovations && innov1 == innovations[(i, node)]
      ensures (node, j) in innovations && innov2 == innovations[(node, j)]
    {
      ghost var reg0 := Reg();
      innov1 := ObtainInnovation(i, node);
      ghost var reg1 := Reg();
      innov2 := ObtainInnovation(node, j);
      ExtendsIsTransitive(reg0, reg1, Reg());
    }

    /** The node that splits the chosen connection, its row and its two connections put into the genome. */
    method SplitConnection(organism: Genome, k: nat, fn: Func) returns (child: Genome)
      requires Valid() && Fits(Reg(), organism) && CanSplit(Reg(), organism, k)
      modifies this
      ensures Valid() && Extends(old(Reg()), Reg()) && Fits(Reg(), child)
      ensures IsSplit(Reg(), organism, k, fn, child)
      ensures PlacesSplit(old(Reg()), Reg(), (organism.conns[k].src, organism.conns[k].dst))
    {
      ghost var reg := Reg();
      var node, row, innov1, innov2 := NumberSplit(organism, k);
      StillFits(reg, Reg(), organism);
      SplitFits(Reg(), organism, k, fn);
      child := SplitWith(organism, k, Node(node, Hidden, row, fn, 0.0, 0.0), rowOrder, innov1, innov2);
    }

    /** `mutation_node`. `draw` picks the connection and `fn` is the node function drawn for the new node. No
        child comes out where the program finds no connection to split and exits. */
    method MutationNode(organism: Genome, draw: nat, fn: Func) returns (child: Option<Genome>)
      requires Valid() && Fits(Reg(), organism)
      modifies this
      ensures Valid() && Extends(old(Reg()), Reg())
      ensures forall k :: HasConn(organism, k) && organism.conns[k].enable ==> (organism.conns[k].src, organism.conns[k].dst) in Reg().nodes
      ensures child.None? <==> forall k :: HasConn(organism, k) && organism.conns[k].enable ==>
        HasNode(organism, Reg().nodes[(organism.conns[k].src, organism.conns[k].dst)])
      ensures child.Some? ==> Fits(Reg(), child.value) && exists k :: SplitsOff(old(Reg()), Reg(), organism, k, fn, child.value)
    {
      ghost var reg := Reg();
      var candidates := SplitCandidates(organism);
      if |candidates| == 0 {
        return None;
      }
      StillFits(reg, Reg(), organism);
      var sack := FilledSack(|candidates|);
      var r := sack.TakeOneRandomly(draw);
      reg := Reg();
      var c := SplitConnection(organism, candidates[r], fn);
      ExtendsIsTransitive(old(Reg()), reg, Reg());
      assert SplitsOff(old(Reg()), Reg(), organism, candidates[r], fn, c);
      child := Some(c);
    }

    /** One pair of the search in `mutation_connection`: it gets its number, and it is a candidate if the slot
        of that number is free. */
    method TryPair(organism: Genome, i: nat, j: nat) returns (put: bool)
      requires Valid() && ConnsNumbered(Reg(), organism)
      modifies this`historicalInnovation, this`lastInnovation, this`innovations, this`log
      ensures Valid() && Extends(old(Reg()), Reg())
      ensures put ==> (i, j) in innovations && CanJoin(organism, i, j)
      ensures !put && i != j && HasNode(organism, i) && HasNode(organism, j) ==> Joined(organism, i, j)
    {
      put := false;
      if i != j && i < |organism.nodes| && j < |organism.nodes| && organism.nodes[i].Node? && organism.nodes[j].Node? {
        var innovation := ObtainInnovation(i, j);
        JoinedIfOccupied(Reg(), organism, i, j);
        if |organism.conns| - 1 < innovation {
          put := true;
        } else if organism.conns[innovation].NoConn? {
          put := true;
        }
      }
    }

    /** `mutation_connection`, the search in one row of pairs. */
    method JoinRow(organism: Genome, found: seq<Pair>, i: nat) returns (candidates: seq<Pair>)
      requires Valid() && ConnsNumbered(Reg(), organism) && JoinSearch(Reg(), organism, found, i, 0)
      modifies this`historicalInnovation, this`lastInnovation, this`innovations, this`log
      ensures Valid() && Extends(old(Reg()), Reg())
      ensures JoinSearch(Reg(), organism, candidates, i + 1, 0)
    {
      candidates := found;
      var j := 0;
      while j < |organism.nodes|
        invariant 0 <= j <= |organism.nodes|
        invariant Valid() && Extends(old(Reg()), Reg())
        invariant JoinSearch(Reg(), organism, candidates, i, j)
      {
        ghost var reg := Reg();
        var put := TryPair(organism, i, j);
        ExtendsIsTransitive(old(Reg()), reg, Reg());
        JoinSearchOn(reg, Reg(), organism, candidates, i, j, put);
        if put {
          candidates := candidates + [(i, j)];
        }
        j := j + 1;
      }
      JoinSearchRow(Reg(), organism, candidates, i);
    }

    /** `mutation_connection`, first part: the pairs of nodes that are not joined. Every pair of the genome's
        nodes gets its innovation numbered on the way. */
    method JoinCandidates(organism: Genome) returns (candidates: seq<Pair>)
      requires Valid() && ConnsNumbered(Reg(), organism)
      modifies this`historicalInnovation, this`lastInnovation, this`innovations, this`log
      ensures Valid() && Extends(old(Reg()), Reg())
      ensures JoinSearch(Reg(), organism, candidates, |organism.nodes|, 0)
    {
      candidates := [];
      var i := 0;
      while i < |organism.nodes|
        invariant 0 <= i <= |organism.nodes|
        invariant Valid() && Extends(old(Reg()), Reg())
        invariant JoinSearch(Reg(), organism, candidates, i, 0)
      {
        ghost var reg := Reg();
        candidates := JoinRow(organism, candidates, i);
        ExtendsIsTransitive(old(Reg()), reg, Reg());
        i := i + 1;
      }
    }

    /** `mutation_connection`. The organism comes back unchanged if and only if all its nodes are joined. */
    method MutationConnection(organism: Genome, draw: nat, weight: real) returns (child: Genome)
      requires Valid() && Fits(Reg(), organism)
      modifies this`historicalInnovation, this`lastInnovation, this`innovations, this`log
      ensures Valid() && Extends(old(Reg()), Reg()) && Fits(Reg(), child)
      ensures if forall i: nat, j: nat :: i != j && HasNode(organism, i) && HasNode(organism, j) ==> Joined(organism, i, j)
              then child == organism
              else exists i: nat, j: nat :: IsJoin(Reg(), organism, i, j, weight, child)
    {
      ghost var reg := Reg();
      var candidates := JoinCandidates(organism);
      StillFits(reg, Reg(), organism);
      if |candidates| == 0 {
        assert forall i: nat, j: nat :: CanJoin(organism, i, j) ==> PairBefore(organism, i, j, |organism.nodes|, 0);
        return organism;
      }
      var sack := FilledSack(|candidates|);
      var r := sack.TakeOneRandomly(draw);
      child := JoinPair(organism, candidates[r].0, candidates[r].1, weight);
      assert IsJoin(Reg(), organism, candidates[r].0, candidates[r].1, weight, child);
    }

    /** The chosen pair joined. Its innovation is numbered already. */
    method JoinPair(organism: Genome, i: nat, j: nat, weight: real) returns (child: Genome)
      requires Valid() && Fits(Reg(), organism) && CanJoin(organism, i, j) && (i, j) in innovations
      modifies this`historicalInnovation, this`lastInnovation, this`innovations, this`log
      ensures Valid() && Reg() == old(Reg())
      ensures Fits(Reg(), child) && IsJoin(Reg(), organism, i, j, weight, child)
    {
      var innovation := ObtainInnovation(i, j);
      JoinedIfOccupied(Reg(), organism, i, j);
      ConnFits(Reg(), organism, i, j, weight, true);
      child := JoinWith(organism, Conn(innovation, i, j, weight, true));
    }

    /** `crossover`. */
    method Crossover(organism1: Genome, organism2: Genome, draws: Draws) returns (child: Genome)
      requires Valid() && Fits(Reg(), organism1) && Fits(Reg(), organism2)
      ensures Fits(Reg(), child) && Crossed(organism1, organism2, draws, child) && child.rowOrder == rowOrder
    {
      child := Cross(organism1, organism2, draws, rowOrder);
      CrossedFits(Reg(), organism1, organism2, draws, child);
    }
  }

  /** The registry as it is taken over from the seed, whatever its innovations. */
  ghost predicate FromSeed(seed: Genome, reg: Registry) {
    && RegistryOk(reg) && reg.nodes == map[] && reg.nextNode == |seed.nodes|
    && reg.rows == Rows(seed.rowOrder, [], |seed.rowOrder|) && reg.rowOf == SeedRows(seed)
  }

  /** The part of the constructor that sets up the numbering. The population is valid whatever the seed; the
      seed agrees with it if and only if no (in, out) pair occurs twice in the seed. */
  method Start(seed: Genome) returns (p: Population)
    requires IsSeed(seed)
    ensures fresh(p) && p.Valid() && p.start == p.Reg() && FromSeed(seed, p.start)
    ensures p.rowOrder == seed.rowOrder && p.nodeNumbers == map[] && SeedNumbers(seed, p.innovations, |seed.conns|)
    ensures if p.innovations == map[] then p.lastInnovation == 1
            else exists q :: q in p.innovations && p.innovations[q] + 1 == p.lastInnovation
    ensures NoPairTwice(seed) && |seed.conns| > 0 ==> p.lastInnovation == |seed.conns|
    ensures Fits(p.Reg(), seed) <==> NoPairTwice(seed)
  {
    var table, last;
    ghost var numbers;
    table, last, numbers := RegisterSeed(seed);
    SeedRegistryIsOk(seed, numbers, last);
    p := new Population(seed, table, last, numbers);
    SeedIsRegistered(seed, numbers, last);
    NextNumber(seed, numbers, last);
  }

  // ---------- mutation_connection ----------

  /** Pairs of different nodes up to row `i` and, in row `i`, column `j`. */
  ghost predicate PairBefore(g: Genome, a: nat, b: nat, i: nat, j: nat) {
    a != b && HasNode(g, a) && HasNode(g, b) && (a < i || (a == i && b < j))
  }

  /** The pairs before (i, j) are numbered, and the candidates are those not joined yet. */
  ghost predicate JoinSearch(reg: Registry, g: Genome, candidates: seq<Pair>, i: nat, j: nat) {
    && (forall c :: 0 <= c < |candidates| ==> candidates[c] in reg.innovations && CanJoin(g, candidates[c].0, candidates[c].1))
    && forall a: nat, b: nat :: PairBefore(g, a, b, i, j) ==> (a, b) in candidates || Joined(g, a, b)
  }

  lemma JoinSearchOn(reg: Registry, reg': Registry, g: Genome, candidates: seq<Pair>, i: nat, j: nat, put: bool)
    requires JoinSearch(reg, g, candidates, i, j) && Extends(reg, reg')
    requires put ==> (i, j) in reg'.innovations && CanJoin(g, i, j)
    requires !put && i != j && HasNode(g, i) && HasNode(g, j) ==> Joined(g, i, j)
    ensures JoinSearch(reg', g, Appended(candidates, (i, j), put), i, j + 1)
  {
    var r := Appended(candidates, (i, j), put);
    forall a: nat, b: nat | PairBefore(g, a, b, i, j + 1) ensures (a, b) in r || Joined(g, a, b) {
      if PairBefore(g, a, b, i, j) {
        if (a, b) in candidates {
          assert r[PosOf(candidates, (a, b))] == (a, b);
        }
      } else if put {
        assert r[|candidates|] == (a, b);
      }
    }
  }

  lemma JoinSearchRow(reg: Registry, g: Genome, candidates: seq<Pair>, i: nat)
    requires JoinSearch(reg, g, candidates, i, |g.nodes|)
    ensures JoinSearch(reg, g, candidates, i + 1, 0)
  {
    forall a: nat, b: nat | PairBefore(g, a, b, i + 1, 0) ensures (a, b) in candidates || Joined(g, a, b) {
      assert PairBefore(g, a, b, i, |g.nodes|);
    }
  }

  method JoinWith(g: Genome, c: ConnGene) returns (child: Genome)
    requires c.Conn? && !HasConn(g, c.innovation)
    ensures child == WithConn(g, c)
  {
    var e := new Encoding(g);
    var added := e.AddConnection(c.innovation, c.src, c.dst, c.weight, c.enable);
    assert added;
    child := e.Copy();
  }

  /** `child` is `g` with the nodes `i` and `j` joined. */
  ghost predicate IsJoin(reg: Registry, g: Genome, i: nat, j: nat, weight: real, child: Genome) {
    CanJoin(g, i, j) && (i, j) in reg.innovations && child == WithConn(g, Conn(SlotOf(reg, i, j), i, j, weight, true))
  }

  // ---------- mutation_node ----------

  /** The editing of the genome in `mutation_node`. The program allots the two innovations after the node is
      put in; the two do not touch each other. */
  method SplitWith(g: Genome, k: nat, gene: NodeGene, order: seq<nat>, innov1: nat, innov2: nat) returns (child: Genome)
    requires HasConn(g, k) && gene.Node? && gene.kind == Hidden && gene.value == gene.past == 0.0 && !HasNode(g, gene.id)
    requires !HasConn(g, innov1) && !HasConn(g, innov2) && innov1 != innov2
    ensures var c := g.conns[k];
      child == WithConn(WithConn(NodePut(g, k, gene, order), Conn(innov1, c.src, gene.id, 1.0, true)),
                        Conn(innov2, gene.id, c.dst, c.weight, true))
  {
    var e := new Encoding(g);
    var placed := e.AddNode(gene.id, gene.row, Hidden, gene.fn);
    assert placed;
    e.rowOrder := order;
    e.conns := e.conns[k := e.conns[k].(enable := false)];
    assert e.Value() == NodePut(g, k, gene, order);
    var first := e.AddConnection(innov1, e.conns[k].src, gene.id, 1.0, true);
    var second := e.AddConnection(innov2, gene.id, e.conns[k].dst, e.conns[k].weight, true);
    assert first && second;
    child := e.Copy();
  }

  /** `child` is `g` with its connection `k` split. */
  ghost predicate IsSplit(reg: Registry, g: Genome, k: nat, fn: Func, child: Genome) {
    CanSplit(reg, g, k) && SplitNumbered(reg, g, k) && child == Split(reg, g, k, fn)
  }

  /** And the numbering placed the splitting node on the way from `was` to `now`. */
  ghost predicate SplitsOff(was: Registry, now: Registry, g: Genome, k: nat, fn: Func, child: Genome) {
    IsSplit(now, g, k, fn, child) && PlacesSplit(was, now, (g.conns[k].src, g.conns[k].dst))
  }

  /** Among the first `i` slots, every enabled connection has its splitting node numbered, and it is a
      candidate exactly if the genome does not have that node. */
  ghost predicate SplitSearch(reg: Registry, g: Genome, candidates: seq<nat>, i: nat) {
    && (forall j :: 0 <= j < |candidates| ==> CanSplit(reg, g, candidates[j]))
    && forall k :: HasConn(g, k) && k < i && g.conns[k].enable ==>
      (g.conns[k].src, g.conns[k].dst) in reg.nodes
      && (k in candidates || HasNode(g, reg.nodes[(g.conns[k].src, g.conns[k].dst)]))
  }

  lemma SplitSearchOn(reg: Registry, reg': Registry, g: Genome, candidates: seq<nat>, i: nat, put: bool)
    requires SplitSearch(reg, g, candidates, i) && Extends(reg, reg') && i < |g.conns|
    requires put ==> CanSplit(reg', g, i)
    requires !put && HasConn(g, i) && g.conns[i].enable ==>
      (g.conns[i].src, g.conns[i].dst) in reg'.nodes && HasNode(g, reg'.nodes[(g.conns[i].src, g.conns[i].dst)])
    ensures SplitSearch(reg', g, Appended(candidates, i, put), i + 1)
  {
    var r := Appended(candidates, i, put);
    forall k | HasConn(g, k) && k < i + 1 && g.conns[k].enable
      ensures (g.conns[k].src, g.conns[k].dst) in reg'.nodes
      ensures k in r || HasNode(g, reg'.nodes[(g.conns[k].src, g.conns[k].dst)])
    {
      if k < i && k in candidates {
        assert r[PosOf(candidates, k)] == k;
      } else if k == i && put {
        assert r[|candidates|] == k;
      }
    }
  }
}
