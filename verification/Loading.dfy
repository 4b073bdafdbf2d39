/** `Genetic_Encoding::load`: what was saved is read back renumbered without gaps, and means the same. */
module Loading {
  import opened Sequences
  import opened Genomes
  import opened Recurrence
  import opened Evaluation
  import opened TokenFile

  /** How many nodes exist among the first `k` slots: the new number of node `k`. */
  ghost function NodeRank(g: Genome, k: nat): (r: nat)
    requires k <= |g.nodes|
    ensures r <= k
  {
    if k == 0 then 0 else NodeRank(g, k - 1) + if g.nodes[k - 1].Node? then 1 else 0
  }

  /** How many connections exist among the first `k` slots: the new innovation of connection `k`. */
  ghost function ConnRank(g: Genome, k: nat): (r: nat)
    requires k <= |g.conns|
    ensures r <= k
  {
    if k == 0 then 0 else ConnRank(g, k - 1) + if g.conns[k - 1].Conn? then 1 else 0
  }

  lemma {:induction false} NodeRankRises(g: Genome, m: nat, n: nat)
    requires m <= n <= |g.nodes|
    ensures NodeRank(g, m) <= NodeRank(g, n)
    ensures m < n && g.nodes[m].Node? ==> NodeRank(g, m) < NodeRank(g, n)
  {
    if m < n {
      NodeRankRises(g, m, n - 1);
    }
  }

  lemma {:induction false} ConnRankRises(g: Genome, m: nat, n: nat)
    requires m <= n <= |g.conns|
    ensures ConnRank(g, m) <= ConnRank(g, n)
    ensures m < n && g.conns[m].Conn? ==> ConnRank(g, m) < ConnRank(g, n)
  {
    if m < n {
      ConnRankRises(g, m, n - 1);
    }
  }

  lemma {:induction false} NodeOfRank(g: Genome, k: nat, r: nat) returns (n: nat)
    requires k <= |g.nodes| && r < NodeRank(g, k)
    ensures n < k && HasNode(g, n) && NodeRank(g, n) == r
  {
    if r < NodeRank(g, k - 1) {
      n := NodeOfRank(g, k - 1, r);
    } else {
      n := k - 1;
    }
  }

  lemma {:induction false} ConnOfRank(g: Genome, k: nat, r: nat) returns (n: nat)
    requires k <= |g.conns| && r < ConnRank(g, k)
    ensures n < k && HasConn(g, n) && ConnRank(g, n) == r
  {
    if r < ConnRank(g, k - 1) {
      n := ConnOfRank(g, k - 1, r);
    } else {
      n := k - 1;
    }
  }

  /** Node `n` of `g` under its new number, in the row that `kept` gives it. */
  ghost function MovedNode(g: Genome, kept: seq<nat>, n: nat): NodeGene
    requires WellFormed(g) && HasNode(g, n) && PlaceOf(g, n) in kept
  {
    var r := NodeRank(g, n);
    Node(r, g.nodes[n].kind, PosOf(kept, PlaceOf(g, n)), g.nodes[n].fn, 0.0, 0.0)
  }

  ghost function MovedConn(g: Genome, k: nat): ConnGene
    requires WellFormed(g) && HasConn(g, k)
  {
    var c := g.conns[k];
    Conn(ConnRank(g, k), NodeRank(g, c.src), NodeRank(g, c.dst), c.weight, c.enable)
  }

  /** `kept` lists, in order, places of the row list that include every place in use. */
  ghost predicate KeepsRows(g: Genome, kept: seq<nat>)
    requires WellFormed(g)
  {
    && Ascending(kept) && (forall i :: 0 <= i < |kept| ==> kept[i] < |g.rowOrder|)
    && forall n :: HasNode(g, n) ==> PlaceOf(g, n) in kept
  }

  /** 0, 1, ..., n - 1. */
  function UpTo(n: nat): (r: seq<nat>)
    ensures |r| == n && forall i :: 0 <= i < n ==> r[i] == i
  {
    seq(n, i => i)
  }

  /** `h` is `g` with existing nodes and connections numbered without gaps, in their old order, and the
      rows at the places `kept` numbered in row order. */
  ghost predicate Renumbers(g: Genome, h: Genome, kept: seq<nat>)
    requires WellFormed(g)
  {
    && KeepsRows(g, kept)
    && h.rowOrder == UpTo(|kept|)
    && |h.nodes| == NodeRank(g, |g.nodes|)
    && (forall n :: HasNode(g, n) ==> NodeRank(g, n) < |h.nodes| && h.nodes[NodeRank(g, n)] == MovedNode(g, kept, n))
    && |h.conns| == ConnRank(g, |g.conns|)
    && (forall k :: HasConn(g, k) ==> ConnRank(g, k) < |h.conns| && h.conns[ConnRank(g, k)] == MovedConn(g, k))
    && IndexesAgree(h) && Ascending(h.outputs)
  }

  // ---------- same meaning ----------

  lemma RenumberedIsWellFormed(g: Genome, h: Genome, kept: seq<nat>)
    requires WellFormed(g) && Renumbers(g, h, kept)
    ensures WellFormed(h)
  {
    forall r | 0 <= r < |h.nodes| ensures h.nodes[r].Node? && h.nodes[r].row < |h.rowOrder| {
      var n := NodeOfRank(g, |g.nodes|, r);
    }
    forall r | HasConn(h, r)
      ensures h.conns[r].innovation == r && HasNode(h, h.conns[r].src) && HasNode(h, h.conns[r].dst)
    {
      var k := ConnOfRank(g, |g.conns|, r);
      assert h.conns[r] == MovedConn(g, k);
    }
    forall r | 0 <= r < |h.rowOrder| ensures h.rowOrder[r] == r && r in h.rowOrder {
    }
  }

  lemma RenumberedCell(g: Genome, h: Genome, kept: seq<nat>, n: nat)
    requires WellFormed(g) && WellFormed(h) && Renumbers(g, h, kept) && HasNode(g, n)
    ensures NodeRank(g, n) in NetOf(h).cells
    ensures NetOf(h).cells[NodeRank(g, n)] == Cell(g.nodes[n].fn, PosOf(kept, PlaceOf(g, n)))
  {
    var row := PosOf(kept, PlaceOf(g, n));
    assert h.nodes[NodeRank(g, n)] == MovedNode(g, kept, n);
    assert h.rowOrder[row] == row;
    PosOfIs(h.rowOrder, row);
  }

  lemma RenumberedPlaces(kept: seq<nat>, x: nat, y: nat)
    requires Ascending(kept) && x in kept && y in kept
    ensures PosOf(kept, x) < PosOf(kept, y) <==> x < y
  {
  }

  lemma NodeRankInjective(g: Genome, m: nat, n: nat)
    requires HasNode(g, m) && HasNode(g, n) && NodeRank(g, m) == NodeRank(g, n)
    ensures m == n
  {
    if m < n {
      NodeRankRises(g, m, n);
    } else {
      NodeRankRises(g, n, m);
    }
  }

  lemma RenumberedLink(g: Genome, h: Genome, kept: seq<nat>, k: nat)
    requires WellFormed(g) && Renumbers(g, h, kept) && HasConn(g, k)
    ensures ConnRank(g, k) < |h.conns|
    ensures LinkOf(h.conns[ConnRank(g, k)]) ==
      if g.conns[k].enable then Link(NodeRank(g, g.conns[k].src), NodeRank(g, g.conns[k].dst), g.conns[k].weight) else NoLink
  {
    assert h.conns[ConnRank(g, k)] == MovedConn(g, k);
  }

  ghost function Rank(g: Genome): nat -> nat {
    (n: nat) => if n <= |g.nodes| then NodeRank(g, n) else 0
  }

  ghost function Slot(g: Genome): nat -> nat {
    (k: nat) => if k <= |g.conns| then ConnRank(g, k) else 0
  }

  lemma RenumberedCells(g: Genome, h: Genome, kept: seq<nat>)
    requires WellFormed(g) && WellFormed(h) && Renumbers(g, h, kept)
    ensures forall n :: n in NetOf(g).cells ==> (
      && NetOf(g).cells[n].place in kept && Rank(g)(n) in NetOf(h).cells
      && NetOf(h).cells[Rank(g)(n)] == Cell(NetOf(g).cells[n].fn, PosOf(kept, NetOf(g).cells[n].place)))
    ensures forall m, n :: m in NetOf(g).cells && n in NetOf(g).cells && Rank(g)(m) == Rank(g)(n) ==> m == n
  {
    forall n | n in NetOf(g).cells
      ensures NetOf(g).cells[n].place in kept && Rank(g)(n) in NetOf(h).cells
        && NetOf(h).cells[Rank(g)(n)] == Cell(NetOf(g).cells[n].fn, PosOf(kept, NetOf(g).cells[n].place))
    {
      assert HasNode(g, n);
      RenumberedCell(g, h, kept, n);
    }
    forall m, n | m in NetOf(g).cells && n in NetOf(g).cells && Rank(g)(m) == Rank(g)(n) ensures m == n {
      assert HasNode(g, m) && HasNode(g, n);
      NodeRankInjective(g, m, n);
    }
  }

  lemma RenumberedSlot(g: Genome, h: Genome, kept: seq<nat>, k: nat)
    requires WellFormed(g) && Renumbers(g, h, kept) && k < |g.conns|
    ensures if Slot(g)(k + 1) == Slot(g)(k) then LinkOf(g.conns[k]).NoLink?
      else Slot(g)(k + 1) == Slot(g)(k) + 1 && Slot(g)(k) < |h.conns| && LinkOf(h.conns[Slot(g)(k)]) == Renamed(LinkOf(g.conns[k]), Rank(g))
  {
    assert Slot(g)(k) == ConnRank(g, k) && Slot(g)(k + 1) == ConnRank(g, k + 1);
    if HasConn(g, k) {
      RenumberedLink(g, h, kept, k);
      var c := g.conns[k];
      assert HasNode(g, c.src) && HasNode(g, c.dst);
      assert Rank(g)(c.src) == NodeRank(g, c.src) && Rank(g)(c.dst) == NodeRank(g, c.dst);
    }
  }

  /** Places looked up in an ascending list keep their order. */
  lemma RenamesByPlaces(a: Net, b: Net, kept: seq<nat>, rank: nat -> nat, at: nat -> nat)
    requires Ascending(kept)
    requires forall n :: n in a.cells ==> (
      && a.cells[n].place in kept && rank(n) in b.cells
      && b.cells[rank(n)] == Cell(a.cells[n].fn, PosOf(kept, a.cells[n].place)))
    requires forall m, n :: m in a.cells && n in a.cells && rank(m) == rank(n) ==> m == n
    requires at(0) == 0 && at(|a.links|) == |b.links|
    requires forall k :: 0 <= k < |a.links| ==> KeepsSlot(a, b, rank, at, k)
    ensures Renames(a, b, rank, at)
  {
    forall m, n | m in a.cells && n in a.cells
      ensures b.cells[rank(m)].place < b.cells[rank(n)].place <==> a.cells[m].place < a.cells[n].place
    {
      RenumberedPlaces(kept, a.cells[m].place, a.cells[n].place);
    }
  }

  lemma RenumberedSlots(g: Genome, h: Genome, kept: seq<nat>)
    requires WellFormed(g) && WellFormed(h) && Renumbers(g, h, kept)
    ensures forall k :: 0 <= k < |NetOf(g).links| ==> KeepsSlot(NetOf(g), NetOf(h), Rank(g), Slot(g), k)
  {
    forall k | 0 <= k < |NetOf(g).links| ensures KeepsSlot(NetOf(g), NetOf(h), Rank(g), Slot(g), k) {
      RenumberedSlot(g, h, kept, k);
    }
  }

  /** The network of the renumbered genome is the network of the original, renamed. */
  lemma RenumberedNet(g: Genome, h: Genome, kept: seq<nat>)
    requires WellFormed(g) && WellFormed(h) && Renumbers(g, h, kept)
    ensures Renames(NetOf(g), NetOf(h), Rank(g), Slot(g))
  {
    RenumberedCells(g, h, kept);
    RenumberedSlots(g, h, kept);
    RenamesByPlaces(NetOf(g), NetOf(h), kept, Rank(g), Slot(g));
  }

  /** Every connection comes back with its weight and its switch, switched off or not, and joins the renumbered nodes;
      every node comes back with its kind and function and an empty past. */
  lemma GenesComeBack(g: Genome, h: Genome, kept: seq<nat>)
    requires WellFormed(g) && Renumbers(g, h, kept)
    ensures forall k :: HasConn(g, k) ==> var c, d := g.conns[k], h.conns[ConnRank(g, k)];
      d.Conn? && d.weight == c.weight && d.enable == c.enable && d.src == NodeRank(g, c.src) && d.dst == NodeRank(g, c.dst)
    ensures forall n :: HasNode(g, n) ==> var a, b := g.nodes[n], h.nodes[NodeRank(g, n)];
      b.Node? && b.kind == a.kind && b.fn == a.fn && b.past == 0.0 && h.rowOrder[b.row] == b.row && kept[b.row] == PlaceOf(g, n)
    ensures forall m, n :: HasNode(g, m) && HasNode(g, n) ==> (NodeRank(g, m) < NodeRank(g, n) <==> m < n)
  {
    forall n | HasNode(g, n)
      ensures var a, b := g.nodes[n], h.nodes[NodeRank(g, n)];
        b.Node? && b.kind == a.kind && b.fn == a.fn && b.past == 0.0 && h.rowOrder[b.row] == b.row && kept[b.row] == PlaceOf(g, n)
    {
      assert h.nodes[NodeRank(g, n)] == MovedNode(g, kept, n);
    }
    forall m, n | HasNode(g, m) && HasNode(g, n) ensures NodeRank(g, m) < NodeRank(g, n) <==> m < n {
      if m < n {
        NodeRankRises(g, m, n);
      } else {
        NodeRankRises(g, n, m);
      }
    }
  }

  /** Inputs keep their numbers, and no other node gets one of theirs. */
  lemma InputsKeepNumbers(g: Genome, k: nat, n: nat)
    requires WellFormed(g) && NetOf(g).InputsLead(k) && HasNode(g, n)
    ensures if n < k then NodeRank(g, n) == n else k <= NodeRank(g, n)
  {
    forall m | 0 <= m < k ensures HasNode(g, m) {
      assert m in NetOf(g).cells;
    }
    FullPrefix(g, if n < k then n else k);
    assert n in NetOf(g).cells;
    if k <= n {
      NodeRankRises(g, k, n);
    }
  }

  lemma FullPrefix(g: Genome, k: nat)
    requires k <= |g.nodes| && forall m :: 0 <= m < k ==> HasNode(g, m)
    ensures NodeRank(g, k) == k
  {
    if k > 0 {
      assert HasNode(g, k - 1);
      FullPrefix(g, k - 1);
    }
  }

  /** The renumbered genome can be evaluated on the same input vectors. */
  lemma RenumberedInputs(g: Genome, h: Genome, kept: seq<nat>, k: nat)
    requires WellFormed(g) && WellFormed(h) && Renumbers(g, h, kept) && NetOf(g).InputsLead(k)
    ensures NetOf(h).InputsLead(k)
  {
    RenumberedNet(g, h, kept);
    forall m | m in NetOf(g).cells ensures if m < k then Rank(g)(m) == m else k <= Rank(g)(m) {
      assert HasNode(g, m);
      InputsKeepNumbers(g, k, m);
    }
    forall r | r in NetOf(h).cells ensures exists m :: m in NetOf(g).cells && Rank(g)(m) == r {
      assert HasNode(h, r);
      var m := NodeOfRank(g, |g.nodes|, r);
      assert m in NetOf(g).cells && Rank(g)(m) == r;
    }
    RenamedInputsLead(NetOf(g), NetOf(h), Rank(g), Slot(g), k);
  }

  /** At every time, every node has in the renumbered genome the value it has in the original. */
  lemma SameValues(g: Genome, h: Genome, kept: seq<nat>, p: Process, q: Process, t: nat, n: nat)
    requires WellFormed(g) && WellFormed(h) && Renumbers(g, h, kept)
    requires p.net == NetOf(g) && q.net == NetOf(h) && p.act == q.act && p.ins == q.ins && p.Solves() && q.Solves()
    requires forall m :: HasNode(g, m) ==> q.past(NodeRank(g, m)) == p.past(m)
    requires t < |p.ins| && (forall v :: v in p.ins ==> p.net.InputsLead(|v|)) && HasNode(g, n)
    ensures q.v(t, NodeRank(g, n)) == p.v(t, n)
  {
    RenumberedNet(g, h, kept);
    forall m, v | m in p.net.cells && v in p.ins ensures if m < |v| then Rank(g)(m) == m else |v| <= Rank(g)(m) {
      assert HasNode(g, m);
      InputsKeepNumbers(g, |v|, m);
    }
    RenamedValues(p, q, Rank(g), Slot(g), t, n);
  }

  // ---------- load ----------

  lemma {:induction false} NodeRecAt(nodes: seq<NodeGene>, i: nat, last: NodeRec, j: nat)
    requires i <= j < |nodes|
    ensures var r := NodeRecs(nodes, i, last)[j - i];
      if nodes[j].Node? then r == NodeRec(true, nodes[j].id, KindCode(nodes[j].kind), nodes[j].row, nodes[j].fn)
      else !r.exist && (r.row == last.row || exists m :: i <= m < j && nodes[m].Node? && nodes[m].row == r.row)
    decreases j - i
  {
    if i < j {
      NodeRecAt(nodes, i + 1, NodeRecOf(nodes[i], last), j);
    }
  }

  lemma {:induction false} ConnRecAt(conns: seq<ConnGene>, i: nat, last: ConnRec, j: nat)
    requires i <= j < |conns|
    ensures var r := ConnRecs(conns, i, last)[j - i];
      match conns[j]
      case NoConn => !r.exist
      case Conn(innovation, src, dst, weight, enable) => r == ConnRec(true, innovation, src, dst, weight, enable)
    decreases j - i
  {
    if i < j {
      ConnRecAt(conns, i + 1, ConnRecOf(conns[i], last), j);
    }
  }

  /** Some node read, missing or not, names row `r`. */
  ghost predicate Named(recs: seq<NodeRec>, r: int) {
    exists i :: 0 <= i < |recs| && recs[i].row == r
  }

  ghost function NamedAt(rows: seq<int>, recs: seq<NodeRec>): nat -> bool {
    (x: nat) => x < |rows| && Named(recs, rows[x])
  }

  /** The places of the rows that are named, in order. */
  ghost function Kept(rows: seq<int>, recs: seq<NodeRec>): seq<nat> {
    Selection(|rows|, NamedAt(rows, recs))
  }

  method IsNamed(recs: seq<NodeRec>, r: int) returns (found: bool)
    ensures found <==> Named(recs, r)
  {
    var i := 0;
    while i < |recs|
      invariant 0 <= i <= |recs|
      invariant forall m :: 0 <= m < i ==> recs[m].row != r
    {
      if recs[i].row == r {
        return true;
      }
      i := i + 1;
    }
    return false;
  }

  /** The named rows, in row order, and a table with a slot for each row. */
  method CompressRows(rows: seq<int>, recs: seq<NodeRec>) returns (compressed: seq<int>, table: seq<int>)
    ensures |compressed| == |Kept(rows, recs)|
    ensures forall i :: 0 <= i < |compressed| ==> Kept(rows, recs)[i] < |rows| && compressed[i] == rows[Kept(rows, recs)[i]]
    ensures |table| == |rows|
  {
    compressed, table := [], [];
    ghost var places: seq<nat> := [];
    var j := 0;
    while j < |rows|
      invariant 0 <= j <= |rows| && |table| == j
      invariant Selects(places, j, NamedAt(rows, recs))
      invariant |compressed| == |places| && forall i :: 0 <= i < |compressed| ==> compressed[i] == rows[places[i]]
    {
      SelectsOn(places, j, NamedAt(rows, recs));
      var found := IsNamed(recs, rows[j]);
      if found {
        compressed := compressed + [rows[j]];
        places := places + [j];
      }
      table := table + [-1];
      j := j + 1;
    }
    SelectsOnce(places, Kept(rows, recs), |rows|, NamedAt(rows, recs));
  }

  /** The named rows get the numbers 0, 1, ... in row order. `ok` is false where the table has no slot for
      a row and the program stops. */
  method NumberRows(e: Encoding, compressed: seq<int>, table: seq<int>) returns (ok: bool, numbers: seq<int>)
    modifies e`rowOrder
    ensures ok <==> forall i :: 0 <= i < |compressed| ==> 0 <= compressed[i] < |table|
    ensures ok ==> e.rowOrder == old(e.rowOrder) + UpTo(|compressed|) && |numbers| == |table|
    ensures ok && Distinct(compressed) ==> forall i :: 0 <= i < |compressed| ==> numbers[compressed[i]] == i
  {
    numbers := table;
    var i := 0;
    while i < |compressed|
      invariant 0 <= i <= |compressed| && |numbers| == |table|
      invariant forall m :: 0 <= m < i ==> 0 <= compressed[m] < |table|
      invariant e.rowOrder == old(e.rowOrder) + UpTo(i)
      invariant Distinct(compressed) ==> forall m :: 0 <= m < i ==> numbers[compressed[m]] == m
    {
      if !(0 <= compressed[i] < |numbers|) {
        return false, numbers;
      }
      numbers := numbers[compressed[i] := i];
      e.rowOrder := e.rowOrder + [i];
      i := i + 1;
    }
    return true, numbers;
  }

  /** `rank[i]` counts the existing nodes before the `i`-th record; existing nodes sit at their own number
      and their row has a new one; `want[i]` is the gene each of them becomes. */
  ghost predicate NodesWanted(recs: seq<NodeRec>, rows: seq<int>, rank: seq<nat>, want: seq<NodeGene>) {
    && |rank| == |recs| + 1 && |want| == |recs| && rank[0] == 0
    && (forall i, j :: 0 <= i < j < |rank| ==> rank[i] <= rank[j])
    && (forall i :: 0 <= i < |recs| ==> rank[i + 1] == rank[i] + if recs[i].exist then 1 else 0)
    && forall i :: 0 <= i < |recs| && recs[i].exist ==>
      && recs[i].id == i && 0 <= recs[i].row < |rows| && 0 <= rows[recs[i].row]
      && want[i] == Node(rank[i], KindOf(recs[i].kind), rows[recs[i].row], recs[i].fn, 0.0, 0.0)
  }

  lemma OutputsAreNodes(g: Genome)
    requires IndexesAgree(g)
    ensures forall i :: 0 <= i < |g.outputs| ==> g.outputs[i] < |g.nodes|
  {
    forall i | 0 <= i < |g.outputs| ensures g.outputs[i] < |g.nodes| {
      assert g.outputs[i] in g.outputs && HasNode(g, g.outputs[i]);
    }
  }

  /** Existing nodes are added under the numbers 0, 1, ... `ok` is false where a number is out of range and
      the program stops. */
  method NumberNodes(e: Encoding, recs: seq<NodeRec>, rows: seq<int>, ghost rank: seq<nat>, ghost want: seq<NodeGene>)
    returns (ok: bool, numbers: seq<int>)
    modifies e`nodes, e`nodesAtRow, e`outputs
    ensures NodesWanted(recs, rows, rank, want) && old(e.nodes) == [] && old(e.nodesAtRow) == [] && old(e.outputs) == [] ==>
      && ok && |numbers| == |recs| && |e.nodes| == rank[|recs|]
      && (forall i :: 0 <= i < |recs| && recs[i].exist ==> numbers[i] == rank[i] < |e.nodes| && e.nodes[rank[i]] == want[i])
      && IndexesAgree(e.Value()) && Ascending(e.outputs)
  {
    numbers := seq(|recs|, _ => -1);
    ghost var good := NodesWanted(recs, rows, rank, want) && e.nodes == [] && e.nodesAtRow == [] && e.outputs == [];
    var count := 0;
    var i := 0;
    while i < |recs|
      invariant 0 <= i <= |recs| && |numbers| == |recs|
      invariant good ==> count == rank[i] == |e.nodes|
      invariant good ==> forall m :: 0 <= m < i && recs[m].exist ==> numbers[m] == rank[m] < |e.nodes| && e.nodes[rank[m]] == want[m]
      invariant good ==> IndexesAgree(e.Value()) && Ascending(e.outputs)
    {
      if recs[i].exist {
        if !(0 <= recs[i].id < |numbers| && 0 <= recs[i].row < |rows| && 0 <= rows[recs[i].row]) {
          return false, numbers;
        }
        numbers := numbers[recs[i].id := count];
        ghost var before := e.Value();
        var placed := e.AddNode(count, rows[recs[i].row], KindOf(recs[i].kind), recs[i].fn);
        if !placed {
          return false, numbers;
        }
        if good {
          WithNodeAgrees(before, want[i]);
          OutputsAreNodes(before);
        }
        count := count + 1;
      }
      i := i + 1;
    }
    return true, numbers;
  }

  /** The same for connections, whose endpoints are looked up in `numbers`. */
  ghost predicate ConnsWanted(recs: seq<ConnRec>, numbers: seq<int>, rank: seq<nat>, want: seq<ConnGene>) {
    && |rank| == |recs| + 1 && |want| == |recs| && rank[0] == 0
    && (forall i, j :: 0 <= i < j < |rank| ==> rank[i] <= rank[j])
    && (forall i :: 0 <= i < |recs| ==> rank[i + 1] == rank[i] + if recs[i].exist then 1 else 0)
    && forall i :: 0 <= i < |recs| && recs[i].exist ==>
      && 0 <= recs[i].src < |numbers| && 0 <= recs[i].dst < |numbers| && 0 <= numbers[recs[i].src] && 0 <= numbers[recs[i].dst]
      && want[i] == Conn(rank[i], numbers[recs[i].src], numbers[recs[i].dst], recs[i].weight, recs[i].enable)
  }

  method NumberConns(e: Encoding, recs: seq<ConnRec>, numbers: seq<int>, ghost rank: seq<nat>, ghost want: seq<ConnGene>)
    returns (ok: bool)
    modifies e`conns
    ensures ConnsWanted(recs, numbers, rank, want) && old(e.conns) == [] ==>
      && ok && |e.conns| == rank[|recs|]
      && forall i :: 0 <= i < |recs| && recs[i].exist ==> rank[i] < |e.conns| && e.conns[rank[i]] == want[i]
  {
    ghost var good := ConnsWanted(recs, numbers, rank, want) && e.conns == [];
    var count := 0;
    var i := 0;
    while i < |recs|
      invariant 0 <= i <= |recs|
      invariant good ==> count == rank[i] == |e.conns|
      invariant good ==> forall m :: 0 <= m < i && recs[m].exist ==> rank[m] < |e.conns| && e.conns[rank[m]] == want[m]
    {
      if recs[i].exist {
        if !(0 <= recs[i].src < |numbers| && 0 <= recs[i].dst < |numbers|) {
          return false;
        }
        var src, dst := numbers[recs[i].src], numbers[recs[i].dst];
        if src < 0 || dst < 0 {
          return false;
        }
        var _ := e.AddConnection(count, src, dst, recs[i].weight, recs[i].enable);
        count := count + 1;
      }
      i := i + 1;
    }
    return true;
  }

  /** The places of the rows that a reader of `g` keeps. `node` is what its reading variable held at first. */
  ghost function KeptPlaces(g: Genome, node: NodeRec): seq<nat> {
    Kept(g.rowOrder, NodeRecs(g.nodes, 0, node))
  }

  lemma RowsInUseAreKept(g: Genome, node: NodeRec)
    requires WellFormed(g)
    ensures KeepsRows(g, KeptPlaces(g, node))
  {
    var recs := NodeRecs(g.nodes, 0, node);
    forall n | HasNode(g, n) ensures PlaceOf(g, n) in KeptPlaces(g, node) {
      NodeRecAt(g.nodes, 0, node, n);
      assert recs[n].row == g.nodes[n].row && Named(recs, g.nodes[n].row);
      assert g.rowOrder[PlaceOf(g, n)] == g.nodes[n].row;
    }
  }

  /** A row is kept if and only if a node is in it, but for one case: when node 0 is missing, the row number
      that the reading variable happened to hold is kept too. */
  lemma KeptRowsAreInUse(g: Genome, node: NodeRec, x: nat)
    requires WellFormed(g) && x < |g.rowOrder|
    ensures x in KeptPlaces(g, node) <==>
      (exists n :: HasNode(g, n) && g.nodes[n].row == g.rowOrder[x])
      || (|g.nodes| > 0 && g.nodes[0].NoNode? && node.row == g.rowOrder[x])
  {
    var recs := NodeRecs(g.nodes, 0, node);
    if x in KeptPlaces(g, node) {
      var i :| 0 <= i < |recs| && recs[i].row == g.rowOrder[x];
      NodeRecAt(g.nodes, 0, node, i);
      if g.nodes[i].Node? {
        assert HasNode(g, i);
      } else if m :| 0 <= m < i && g.nodes[m].Node? && g.nodes[m].row == recs[i].row {
        assert HasNode(g, m);
      } else if g.nodes[0].Node? {
        FirstRowCarried(g.nodes, node, i);
      }
    }
    if n :| HasNode(g, n) && g.nodes[n].row == g.rowOrder[x] {
      NodeRecAt(g.nodes, 0, node, n);
      assert recs[n].row == g.rowOrder[x];
    }
    if |g.nodes| > 0 && g.nodes[0].NoNode? && node.row == g.rowOrder[x] {
      assert recs[0].row == node.row;
    }
  }

  /** The row the reading variable held at first is carried only until the first existing node. */
  lemma FirstRowCarried(nodes: seq<NodeGene>, node: NodeRec, i: nat)
    requires i < |nodes| && nodes[i].NoNode? && nodes[0].Node?
    ensures exists m :: 0 <= m < i && nodes[m].Node? && nodes[m].row == NodeRecs(nodes, 0, node)[i].row
  {
    NodeRecAt(nodes, 1, NodeRecOf(nodes[0], node), i);
    if NodeRecs(nodes, 0, node)[i].row == nodes[0].row {
      assert nodes[0].Node?;
    } else {
      var m :| 1 <= m < i && nodes[m].Node? && nodes[m].row == NodeRecs(nodes, 1, NodeRecOf(nodes[0], node))[i - 1].row;
    }
  }

  /** `rows` gives the row at the `i`-th kept place the number `i`. */
  ghost predicate NumbersKept(g: Genome, kept: seq<nat>, rows: seq<int>) {
    |rows| == |g.rowOrder| && forall i :: 0 <= i < |kept| ==>
      kept[i] < |g.rowOrder| && g.rowOrder[kept[i]] < |rows| && rows[g.rowOrder[kept[i]]] == i
  }

  lemma RowOfNode(g: Genome, kept: seq<nat>, rows: seq<int>, n: nat)
    requires WellFormed(g) && KeepsRows(g, kept) && NumbersKept(g, kept, rows) && HasNode(g, n)
    ensures g.nodes[n].row < |rows| && rows[g.nodes[n].row] == PosOf(kept, PlaceOf(g, n))
  {
    var i := PosOf(kept, PlaceOf(g, n));
    assert g.rowOrder[kept[i]] == g.nodes[n].row;
  }

  lemma NodeIsWanted(g: Genome, node: NodeRec, kept: seq<nat>, rows: seq<int>, n: nat)
    requires WellFormed(g) && KeepsRows(g, kept) && NumbersKept(g, kept, rows) && n < |g.nodes|
    ensures NodeRecs(g.nodes, 0, node)[n].exist <==> HasNode(g, n)
    ensures HasNode(g, n) ==> (
      var rec := NodeRecs(g.nodes, 0, node)[n];
      && rec.id == n && 0 <= rec.row < |rows| && 0 <= rows[rec.row]
      && MovedNode(g, kept, n) == Node(NodeRank(g, n), KindOf(rec.kind), rows[rec.row], rec.fn, 0.0, 0.0))
  {
    NodeRecAt(g.nodes, 0, node, n);
    if HasNode(g, n) {
      RowOfNode(g, kept, rows, n);
    }
  }

  lemma NodesAreWanted(g: Genome, node: NodeRec, kept: seq<nat>, rows: seq<int>) returns (rank: seq<nat>, want: seq<NodeGene>)
    requires WellFormed(g) && KeepsRows(g, kept) && NumbersKept(g, kept, rows)
    ensures NodesWanted(NodeRecs(g.nodes, 0, node), rows, rank, want)
    ensures forall n :: 0 <= n <= |g.nodes| ==> rank[n] == NodeRank(g, n)
    ensures forall n :: HasNode(g, n) ==> NodeRecs(g.nodes, 0, node)[n].exist && want[n] == MovedNode(g, kept, n)
  {
    var recs := NodeRecs(g.nodes, 0, node);
    rank := seq(|g.nodes| + 1, i requires 0 <= i <= |g.nodes| => NodeRank(g, i));
    want := seq(|g.nodes|, i requires 0 <= i < |g.nodes| => if HasNode(g, i) then MovedNode(g, kept, i) else NoNode);
    forall i, j | 0 <= i < j < |rank| ensures rank[i] <= rank[j] {
      NodeRankRises(g, i, j);
    }
    forall n | 0 <= n < |recs|
      ensures recs[n].exist <==> HasNode(g, n)
      ensures recs[n].exist ==> recs[n].id == n && 0 <= recs[n].row < |rows| && 0 <= rows[recs[n].row]
      ensures recs[n].exist ==> want[n] == Node(rank[n], KindOf(recs[n].kind), rows[recs[n].row], recs[n].fn, 0.0, 0.0)
    {
      NodeIsWanted(g, node, kept, rows, n);
    }
  }

  lemma ConnsAreWanted(g: Genome, conn: ConnRec, numbers: seq<int>) returns (rank: seq<nat>, want: seq<ConnGene>)
    requires WellFormed(g) && |numbers| == |g.nodes| && forall n :: HasNode(g, n) ==> numbers[n] == NodeRank(g, n)
    ensures ConnsWanted(ConnRecs(g.conns, 0, conn), numbers, rank, want)
    ensures forall k :: 0 <= k <= |g.conns| ==> rank[k] == ConnRank(g, k)
    ensures forall k :: HasConn(g, k) ==> ConnRecs(g.conns, 0, conn)[k].exist && want[k] == MovedConn(g, k)
  {
    var recs := ConnRecs(g.conns, 0, conn);
    rank := seq(|g.conns| + 1, i requires 0 <= i <= |g.conns| => ConnRank(g, i));
    want := seq(|g.conns|, i requires 0 <= i < |g.conns| => if HasConn(g, i) then MovedConn(g, i) else NoConn);
    forall i, j | 0 <= i < j < |rank| ensures rank[i] <= rank[j] {
      ConnRankRises(g, i, j);
    }
    forall k | 0 <= k < |recs|
      ensures recs[k].exist <==> g.conns[k].Conn?
      ensures g.conns[k].Conn? ==> recs[k] == ConnRec(true, k, g.conns[k].src, g.conns[k].dst, g.conns[k].weight, g.conns[k].enable)
      ensures g.conns[k].Conn? ==> HasNode(g, g.conns[k].src) && HasNode(g, g.conns[k].dst)
    {
      ConnRecAt(g.conns, 0, conn, k);
      assert g.conns[k].Conn? ==> HasConn(g, k);
    }
  }

  lemma KeptRowsAreDistinct(g: Genome, kept: seq<nat>, compressed: seq<int>)
    requires WellFormed(g) && KeepsRows(g, kept) && |compressed| == |kept|
    requires forall i :: 0 <= i < |kept| ==> compressed[i] == g.rowOrder[kept[i]]
    ensures Distinct(compressed) && forall i :: 0 <= i < |compressed| ==> 0 <= compressed[i] < |g.rowOrder|
  {
  }

  /** The file is what a reader of the saved `g` gets, and the genome object has no row list and no index
      entries, as a new one. */
  ghost predicate FreshLoad(g: Genome, f: File, node: NodeRec, conn: ConnRec, e: Genome) {
    && WellFormed(g) && f == File(g.rowOrder, NodeRecs(g.nodes, 0, node), ConnRecs(g.conns, 0, conn))
    && e == EMPTY
  }

  lemma IndexesIgnoreConns(g: Genome, h: Genome)
    requires IndexesAgree(g) && h == g.(conns := h.conns)
    ensures IndexesAgree(h)
  {
    assert forall n :: HasNode(g, n) <==> HasNode(h, n);
  }

  lemma LoadedIsRenumbered(g: Genome, i: Genome, h: Genome, kept: seq<nat>, nodes: seq<NodeRec>, conns: seq<ConnRec>,
                           rank: seq<nat>, want: seq<NodeGene>, connRank: seq<nat>, connWant: seq<ConnGene>)
    requires WellFormed(g) && KeepsRows(g, kept)
    requires IndexesAgree(i) && Ascending(i.outputs) && i.rowOrder == UpTo(|kept|) && h == i.(conns := h.conns)
    requires |rank| == |g.nodes| + 1 && |want| == |g.nodes| == |nodes| && |h.nodes| == rank[|g.nodes|]
    requires forall n :: 0 <= n <= |g.nodes| ==> rank[n] == NodeRank(g, n)
    requires forall n :: HasNode(g, n) ==> nodes[n].exist && want[n] == MovedNode(g, kept, n)
    requires forall n :: 0 <= n < |nodes| && nodes[n].exist ==> rank[n] < |h.nodes| && h.nodes[rank[n]] == want[n]
    requires |connRank| == |g.conns| + 1 && |connWant| == |g.conns| == |conns| && |h.conns| == connRank[|g.conns|]
    requires forall k :: 0 <= k <= |g.conns| ==> connRank[k] == ConnRank(g, k)
    requires forall k :: HasConn(g, k) ==> conns[k].exist && connWant[k] == MovedConn(g, k)
    requires forall k :: 0 <= k < |conns| && conns[k].exist ==> connRank[k] < |h.conns| && h.conns[connRank[k]] == connWant[k]
    ensures Renumbers(g, h, kept)
  {
    IndexesIgnoreConns(i, h);
  }

  method RebuildRows(e: Encoding, f: File, ghost g: Genome, ghost node: NodeRec, ghost conn: ConnRec) returns (ok: bool, rows: seq<int>)
    modifies e`rowOrder
    ensures FreshLoad(g, f, node, conn, old(e.Value())) ==>
      ok && KeepsRows(g, KeptPlaces(g, node)) && NumbersKept(g, KeptPlaces(g, node), rows) && e.rowOrder == UpTo(|KeptPlaces(g, node)|)
    ensures ok ==> exists n: nat :: e.rowOrder == old(e.rowOrder) + UpTo(n)
  {
    var compressed, table := CompressRows(f.rows, f.nodes);
    if FreshLoad(g, f, node, conn, e.Value()) {
      RowsInUseAreKept(g, node);
      KeptRowsAreDistinct(g, KeptPlaces(g, node), compressed);
    }
    ok, rows := NumberRows(e, compressed, table);
  }

  /** A fresh load after its rows are numbered. */
  ghost predicate RowsLoaded(g: Genome, f: File, node: NodeRec, conn: ConnRec, kept: seq<nat>, rows: seq<int>, e: Genome) {
    && FreshLoad(g, f, node, conn, e.(rowOrder := [])) && e.rowOrder == UpTo(|kept|)
    && KeepsRows(g, kept) && NumbersKept(g, kept, rows)
  }

  method RebuildGenes(e: Encoding, f: File, rows: seq<int>, ghost g: Genome, ghost node: NodeRec, ghost conn: ConnRec, ghost kept: seq<nat>)
    returns (ok: bool)
    modifies e`nodes, e`conns, e`nodesAtRow, e`outputs
    ensures RowsLoaded(g, f, node, conn, kept, rows, old(e.Value())) ==> ok && Renumbers(g, e.Value(), kept)
  {
    ghost var good := RowsLoaded(g, f, node, conn, kept, rows, e.Value());
    ghost var rank, want := [], [];
    if good {
      rank, want := NodesAreWanted(g, node, kept, rows);
    }
    var numbers;
    ok, numbers := NumberNodes(e, f.nodes, rows, rank, want);
    if !ok {
      return;
    }
    ghost var connRank, connWant := [], [];
    if good {
      connRank, connWant := ConnsAreWanted(g, conn, numbers);
    }
    ghost var unconnected := e.Value();
    ok := NumberConns(e, f.conns, numbers, connRank, connWant);
    if good {
      LoadedIsRenumbered(g, unconnected, e.Value(), kept, f.nodes, f.conns, rank, want, connRank, connWant);
    }
  }

  /** The part of `load` after reading: rows, nodes and connections are numbered again from 0. */
  method Rebuild(e: Encoding, f: File, ghost g: Genome, ghost node: NodeRec, ghost conn: ConnRec) returns (ok: bool)
    modifies e
    ensures FreshLoad(g, f, node, conn, old(e.Value())) ==> ok && Renumbers(g, e.Value(), KeptPlaces(g, node))
    ensures ok ==> exists n: nat :: e.rowOrder == old(e.rowOrder) + UpTo(n)
  {
    var rows;
    ok, rows := RebuildRows(e, f, g, node, conn);
    if ok {
      ok := RebuildGenes(e, f, rows, g, node, conn, KeptPlaces(g, node));
    }
  }

  ghost predicate Fresh(e: Encoding)
    reads e
  {
    e.rowOrder == [] && e.nodesAtRow == [] && e.outputs == []
  }

  /** `load`, reading from the tokens `toks`. The gene lists are cleared first, the row list and the two
      indexes are not. `node` and `conn` are what the uninitialised reading variables happen to hold. `ok` is
      false where the program stops. What it makes of a saved genome `g`, in a genome object whose row list
      and indexes are empty, is `g` renumbered. */
  method Load(e: Encoding, toks: seq<Token>, node: NodeRec, conn: ConnRec, ghost g: Genome) returns (ok: bool)
    modifies e
    ensures WellFormed(g) && g.rowOrder != [] && toks == TokensOf(g) && old(Fresh(e)) ==> ok && Renumbers(g, e.Value(), KeptPlaces(g, node))
    ensures ok ==> exists n: nat :: e.rowOrder == old(e.rowOrder) + UpTo(n)
  {
    e.conns := [];
    e.nodes := [];
    var file := ReadFile(toks, node, conn);
    if g.rowOrder != [] {
      FileReadsBack(g, node, conn);
    }
    if file.None? {
      return false;
    }
    ok := Rebuild(e, file.value, g, node, conn);
  }

  /** The output nodes below slot `k`, in node order. */
  ghost function OutputsBelow(g: Genome, k: nat): (r: seq<nat>)
    requires k <= |g.nodes|
    ensures Ascending(r) && forall n :: n in r <==> n < k && HasNode(g, n) && g.nodes[n].kind == Output
  {
    if k == 0 then [] else
      var below := OutputsBelow(g, k - 1);
      if HasNode(g, k - 1) && g.nodes[k - 1].kind == Output then
        assert forall i :: 0 <= i < |below| ==> below[i] in below;
        below + [k - 1]
      else below
  }

  ghost function OutputOrder(g: Genome): (r: seq<nat>)
    requires IndexesAgree(g)
    ensures Ascending(r) && forall n :: n in r <==> n in g.outputs
  {
    OutputsBelow(g, |g.nodes|)
  }

  lemma RankedOutputs(g: Genome) returns (b: seq<nat>)
    requires WellFormed(g)
    ensures var s := OutputOrder(g);
      |b| == |s| && forall i :: 0 <= i < |s| ==> HasNode(g, s[i]) && b[i] == NodeRank(g, s[i])
    ensures Ascending(b)
  {
    var s := OutputOrder(g);
    forall i | 0 <= i < |s| ensures HasNode(g, s[i]) {
      assert s[i] in s;
    }
    b := seq(|s|, i requires 0 <= i < |s| => NodeRank(g, s[i]));
    forall i, j | 0 <= i < j < |b| ensures b[i] < b[j] {
      NodeRankRises(g, s[i], s[j]);
    }
  }

  /** The renumbered outputs are the outputs in node order, renumbered. */
  lemma RenumberedOutputs(g: Genome, h: Genome, kept: seq<nat>)
    requires WellFormed(g) && Renumbers(g, h, kept)
    ensures var s := OutputOrder(g);
      |h.outputs| == |s| && forall i :: 0 <= i < |s| ==> HasNode(g, s[i]) && h.outputs[i] == NodeRank(g, s[i])
  {
    var s := OutputOrder(g);
    var b := RankedOutputs(g);
    forall r ensures r in h.outputs <==> r in b {
      OutputRenumbered(g, h, kept, r);
      if r in b {
        var i :| 0 <= i < |b| && b[i] == r;
        assert s[i] in s && NodeRank(g, s[i]) == r;
      }
      if n :| n in g.outputs && HasNode(g, n) && NodeRank(g, n) == r {
        assert n in s;
        var i :| 0 <= i < |s| && s[i] == n;
        assert b[i] == r;
      }
    }
    AscendingIsUnique(h.outputs, b);
  }

  /** The renumbered outputs are the outputs, renumbered and in the same order, if and only if the output list was in node
      order. */
  lemma OutputsKeepOrderIff(g: Genome, h: Genome, kept: seq<nat>)
    requires WellFormed(g) && Renumbers(g, h, kept)
    ensures Ascending(g.outputs) <==>
            (|h.outputs| == |g.outputs| &&
             forall i :: 0 <= i < |g.outputs| ==> HasNode(g, g.outputs[i]) && h.outputs[i] == NodeRank(g, g.outputs[i]))
  {
    if Ascending(g.outputs) {
      AscendingIsUnique(g.outputs, OutputOrder(g));
      RenumberedOutputs(g, h, kept);
    } else {
      var i, j :| 0 <= i < j < |g.outputs| && g.outputs[i] >= g.outputs[j];
      assert g.outputs[i] in g.outputs && g.outputs[j] in g.outputs;
      NodeRankRises(g, g.outputs[j], g.outputs[i]);
      assert |h.outputs| == |g.outputs| ==> h.outputs[i] < h.outputs[j];
    }
  }

  lemma OutputRenumbered(g: Genome, h: Genome, kept: seq<nat>, r: nat)
    requires WellFormed(g) && Renumbers(g, h, kept)
    ensures r in h.outputs <==> exists n :: n in g.outputs && HasNode(g, n) && NodeRank(g, n) == r
  {
    if r in h.outputs {
      assert HasNode(h, r);
      var n := NodeOfRank(g, |g.nodes|, r);
      assert h.nodes[r] == MovedNode(g, kept, n);
      assert n in g.outputs;
    }
    if n :| n in g.outputs && HasNode(g, n) && NodeRank(g, n) == r {
      assert h.nodes[r] == MovedNode(g, kept, n);
      assert HasNode(h, r) && h.nodes[r].kind == Output;
    }
  }

  /** From a zeroed past, a renumbered copy gives at every time the values of the original's outputs, in node order. */
  lemma SameAnswers(g: Genome, h: Genome, kept: seq<nat>, p: Process, q: Process)
    requires WellFormed(g) && WellFormed(h) && Renumbers(g, h, kept)
    requires p.net == NetOf(g) && q.net == NetOf(h) && p.act == q.act && p.ins == q.ins && p.Solves() && q.Solves()
    requires (forall m :: p.past(m) == 0.0) && (forall m :: q.past(m) == 0.0)
    requires forall v :: v in p.ins ==> p.net.InputsLead(|v|)
    ensures var s := OutputOrder(g);
      |h.outputs| == |s| && forall t, i :: 0 <= t < |p.ins| && 0 <= i < |s| ==> q.v(t, h.outputs[i]) == p.v(t, s[i])
  {
    var s := OutputOrder(g);
    RenumberedOutputs(g, h, kept);
    forall t, i | 0 <= t < |p.ins| && 0 <= i < |s| ensures q.v(t, h.outputs[i]) == p.v(t, s[i]) {
      SameValues(g, h, kept, p, q, t, s[i]);
    }
  }

  lemma LoadedPastIsZero(g: Genome, h: Genome, kept: seq<nat>, r: nat)
    requires WellFormed(g) && Renumbers(g, h, kept) && HasNode(h, r)
    ensures h.nodes[r].past == 0.0
  {
    var n := NodeOfRank(g, |g.nodes|, r);
  }

  /** Evaluation from a zeroed past: the outputs are those of a solution of the recurrence. */
  method EvalFromZero(e: Encoding, act: Activation, ins: seq<seq<real>>) returns (outs: seq<seq<real>>, ghost p: Process)
    requires WellFormed(e.Value()) && forall n :: HasNode(e.Value(), n) ==> e.nodes[n].past == 0.0
    requires forall v :: v in ins ==> NetOf(e.Value()).InputsLead(|v|)
    modifies e
    ensures p.net == NetOf(old(e.Value())) && p.Solves() && p.act == act && p.ins == ins && forall m :: p.past(m) == 0.0
    ensures |outs| == |ins| && forall t :: 0 <= t < |ins| ==> Answers(p, t, old(e.outputs), outs[t])
  {
    p := SolutionExists(act, NetOf(e.Value()), (m: nat) => 0.0, ins);
    outs := EvalAll(e, p, act, ins);
  }

  /** A copy loaded from the saved text of `g`, evaluated. */
  method CopyAnswers(toks: seq<Token>, act: Activation, ins: seq<seq<real>>, node: NodeRec, conn: ConnRec, ghost g: Genome)
    returns (outs: seq<seq<real>>, ghost h: Genome, ghost q: Process)
    requires WellFormed(g) && g.rowOrder != [] && toks == TokensOf(g)
    requires forall v :: v in ins ==> NetOf(g).InputsLead(|v|)
    ensures WellFormed(h) && Renumbers(g, h, KeptPlaces(g, node))
    ensures q.net == NetOf(h) && q.Solves() && q.act == act && q.ins == ins && forall m :: q.past(m) == 0.0
    ensures |outs| == |ins| && forall t :: 0 <= t < |ins| ==> Answers(q, t, h.outputs, outs[t])
  {
    var c := new Encoding(EMPTY);
    var _ := Load(c, toks, node, conn, g);
    ghost var kept := KeptPlaces(g, node);
    h := c.Value();
    RenumberedIsWellFormed(g, h, kept);
    forall v | v in ins ensures NetOf(h).InputsLead(|v|) {
      RenumberedInputs(g, h, kept, |v|);
    }
    forall n | HasNode(h, n) ensures h.nodes[n].past == 0.0 {
      LoadedPastIsZero(g, h, kept, n);
    }
    outs, q := EvalFromZero(c, act, ins);
  }

  /** `copy` has the values of `out`, in node order: `out` goes with the output list of `g`. */
  ghost predicate InNodeOrder(g: Genome, out: seq<real>, copy: seq<real>)
    requires IndexesAgree(g)
  {
    var s := OutputOrder(g);
    && |out| == |g.outputs| && |copy| == |s|
    && forall i, j :: 0 <= i < |out| && 0 <= j < |copy| && g.outputs[i] == s[j] ==> out[i] == copy[j]
  }

  lemma AnswersInOrder(g: Genome, h: Genome, p: Process, q: Process, t: nat, out: seq<real>, copy: seq<real>)
    requires IndexesAgree(g) && Answers(p, t, g.outputs, out) && Answers(q, t, h.outputs, copy)
    requires |h.outputs| == |OutputOrder(g)| && forall i :: 0 <= i < |h.outputs| ==> q.v(t, h.outputs[i]) == p.v(t, OutputOrder(g)[i])
    ensures InNodeOrder(g, out, copy) && (Ascending(g.outputs) ==> out == copy)
  {
    if Ascending(g.outputs) {
      AscendingIsUnique(g.outputs, OutputOrder(g));
    }
  }

  /** A genome saved and loaded into a new object answers every sequence of input vectors as the original does with its
      past values reset, with the outputs in node order. */
  method SaveAndLoad(e: Encoding, act: Activation, ins: seq<seq<real>>, node: NodeRec, conn: ConnRec)
    returns (outs: seq<seq<real>>, copied: seq<seq<real>>)
    requires WellFormed(e.Value()) && e.rowOrder != []
    requires forall v :: v in ins ==> NetOf(e.Value()).InputsLead(|v|)
    modifies e
    ensures |outs| == |copied| == |ins|
    ensures forall t :: 0 <= t < |ins| ==> InNodeOrder(old(e.Value()), outs[t], copied[t])
    ensures Ascending(old(e.outputs)) ==> outs == copied
  {
    ghost var g := e.Value();
    var toks := Json(e);
    ghost var h, q;
    copied, h, q := CopyAnswers(toks, act, ins, node, conn, g);
    e.ResetPast();
    SameNetSameMeaning(g, e.Value());
    ghost var p;
    outs, p := EvalFromZero(e, act, ins);
    SameAnswers(g, h, KeptPlaces(g, node), p, q);
    forall t | 0 <= t < |ins| ensures InNodeOrder(g, outs[t], copied[t]) && (Ascending(g.outputs) ==> outs[t] == copied[t]) {
      AnswersInOrder(g, h, p, q, t, outs[t], copied[t]);
    }
  }

  /** Loading into an object that already has rows spoils its row list. */
  lemma RowListAfterLoad(rows: seq<nat>, n: nat)
    requires Permutation(rows)
    ensures Permutation(rows + UpTo(n)) <==> rows == [] || n == 0
  {
    var r := rows + UpTo(n);
    if rows != [] && n > 0 {
      assert 0 in rows;
      var i := PosOf(rows, 0);
      assert r[i] == r[|rows|] == 0;
    } else if n == 0 {
      assert r == rows;
    } else {
      forall i | 0 <= i < n ensures r[i] == i && i in r {
      }
    }
  }
}
