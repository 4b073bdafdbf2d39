/** The population-wide numbering of NEAT: innovations and nodes by (in, out) pair, rows by node, and what it
    means for a genome to agree with it. */
module Registries {
  import opened Sequences
  import opened Genomes
  import opened RowOrder

  type Pair = (nat, nat)

  /** `rowOf` is the row that each node number has, in every genome that has the node. */
  datatype Registry = Registry(
    innovations: map<Pair, nat>, lastInnovation: nat,
    nodes: map<Pair, nat>, nextNode: nat,
    rows: Rows, rowOf: map<nat, nat>)

  ghost predicate Injective<K, V>(m: map<K, V>) {
    forall a, b :: a in m && b in m && m[a] == m[b] ==> a == b
  }

  ghost predicate NumbersOk(reg: Registry) {
    && Injective(reg.innovations) && (forall p :: p in reg.innovations ==> reg.innovations[p] < reg.lastInnovation)
    && Injective(reg.nodes) && (forall p :: p in reg.nodes ==> reg.nodes[p] < reg.nextNode)
    && forall n :: n in reg.rowOf ==> n < reg.nextNode
  }

  /** Recorded rows are the rows nodes have. */
  ghost predicate RecordsOk(reg: Registry) {
    && RowsOk(reg.rows)
    && (forall n :: n in reg.rowOf ==> reg.rowOf[n] < reg.rows.last)
    && forall n: nat :: Recorded(reg.rows.history, n) >= 0 ==> n in reg.rowOf && reg.rowOf[n] == Recorded(reg.rows.history, n)
  }

  /** The node that splits the pair `p`, once some genome has it, has the row of its endpoints or a recorded
      one; and when the connection goes forward it lies strictly between its endpoints. */
  ghost predicate SplitOk(reg: Registry, p: Pair)
    requires p in reg.nodes
  {
    var n := reg.nodes[p];
    n in reg.rowOf ==>
      && p.0 in reg.rowOf && p.1 in reg.rowOf
      && (Recorded(reg.rows.history, n) >= 0 || reg.rowOf[p.0] == reg.rowOf[p.1] == reg.rowOf[n])
      && (Before(reg.rows.order, reg.rowOf[p.0], reg.rowOf[p.1]) ==>
        Before(reg.rows.order, reg.rowOf[p.0], reg.rowOf[n]) && Before(reg.rows.order, reg.rowOf[n], reg.rowOf[p.1]))
  }

  ghost predicate RegistryOk(reg: Registry) {
    NumbersOk(reg) && RecordsOk(reg) && forall p :: p in reg.nodes ==> SplitOk(reg, p)
  }

  /** Existing connections have the number the registry holds for their pair, and join existing nodes. */
  ghost predicate ConnsNumbered(reg: Registry, g: Genome) {
    forall k :: HasConn(g, k) ==>
      var c := g.conns[k];
      && c.innovation == k && HasNode(g, c.src) && HasNode(g, c.dst)
      && (c.src, c.dst) in reg.innovations && reg.innovations[(c.src, c.dst)] == k
  }

  /** Existing nodes have the row the registry holds for their number. */
  ghost predicate NodesPlaced(reg: Registry, g: Genome) {
    forall n :: HasNode(g, n) ==> n in reg.rowOf && g.nodes[n].row == reg.rowOf[n] && g.nodes[n].row < |g.rowOrder|
  }

  /** A genome's own row list may be older than the population's, but orders its rows in the same way. */
  ghost predicate OrderAgrees(reg: Registry, order: seq<nat>) {
    && Permutation(order) && |order| <= reg.rows.last
    && KeepsOrder(order, reg.rows.order, |order|)
  }

  ghost predicate Fits(reg: Registry, g: Genome) {
    && IndexesAgree(g) && Ascending(g.outputs)
    && ConnsNumbered(reg, g) && NodesPlaced(reg, g) && OrderAgrees(reg, g.rowOrder)
  }

  lemma FittingIsWellFormed(reg: Registry, g: Genome)
    requires Fits(reg, g)
    ensures WellFormed(g)
  {
  }

  ghost predicate Submap<K, V>(m: map<K, V>, m': map<K, V>) {
    forall k :: k in m ==> k in m' && m'[k] == m[k]
  }

  /** What every operation keeps: numbers and rows once given stay, and so does the relative order of rows. */
  ghost predicate Extends(reg: Registry, reg': Registry) {
    && Submap(reg.innovations, reg'.innovations) && Submap(reg.nodes, reg'.nodes) && Submap(reg.rowOf, reg'.rowOf)
    && reg.rows.last <= reg'.rows.last
    && KeepsOrder(reg.rows.order, reg'.rows.order, reg.rows.last)
  }

  lemma ExtendsIsTransitive(a: Registry, b: Registry, c: Registry)
    requires Extends(a, b) && Extends(b, c)
    ensures Extends(a, c)
  {
  }

  /** A genome that fits the registry fits every later one. */
  lemma StillFits(reg: Registry, reg': Registry, g: Genome)
    requires Fits(reg, g) && Extends(reg, reg')
    ensures Fits(reg', g)
  {
  }

  // ---------- allotting numbers ----------

  /** `obtain_innovation`. */
  function Innovate(reg: Registry, p: Pair): (Registry, nat) {
    if p in reg.innovations then (reg, reg.innovations[p])
    else (reg.(innovations := reg.innovations[p := reg.lastInnovation], lastInnovation := reg.lastInnovation + 1), reg.lastInnovation)
  }

  lemma InnovateExtends(reg: Registry, p: Pair)
    requires RegistryOk(reg)
    ensures var (reg', k) := Innovate(reg, p); RegistryOk(reg') && Extends(reg, reg') && p in reg'.innovations && reg'.innovations[p] == k
  {
    var (reg', k) := Innovate(reg, p);
    forall q | q in reg'.nodes ensures SplitOk(reg', q) {
      assert SplitOk(reg, q);
    }
  }

  /** `obtain_historical_node`. */
  function NodeFor(reg: Registry, p: Pair): (Registry, nat) {
    if p in reg.nodes then (reg, reg.nodes[p])
    else (reg.(nodes := reg.nodes[p := reg.nextNode], nextNode := reg.nextNode + 1), reg.nextNode)
  }

  lemma NodeForExtends(reg: Registry, p: Pair)
    requires RegistryOk(reg)
    ensures var (reg', n) := NodeFor(reg, p); RegistryOk(reg') && Extends(reg, reg') && p in reg'.nodes && reg'.nodes[p] == n
  {
    var (reg', n) := NodeFor(reg, p);
    forall q | q in reg'.nodes ensures SplitOk(reg', q) {
      assert q in reg.nodes ==> SplitOk(reg, q);
    }
  }

  /** `obtain_row`, for the node that splits the pair `p`. */
  ghost function RowFor(reg: Registry, p: Pair): (Registry, nat)
    requires RegistryOk(reg) && p in reg.nodes && p.0 in reg.rowOf && p.1 in reg.rowOf
  {
    var (rows, row) := Placed(reg.rows, reg.nodes[p], reg.rowOf[p.0], reg.rowOf[p.1]);
    (reg.(rows := rows, rowOf := reg.rowOf[reg.nodes[p] := row]), row)
  }

  /** From `was` to `now` one splitting node was placed, that of `p`. */
  ghost predicate PlacesSplit(was: Registry, now: Registry, p: Pair) {
    && p in now.nodes && p.0 in was.rowOf && p.1 in was.rowOf
    && was.rowOf[p.0] in was.rows.order && was.rowOf[p.1] in was.rows.order
    && var (rows, row) := Placed(was.rows, now.nodes[p], was.rowOf[p.0], was.rowOf[p.1]);
      now.rows == rows && now.rowOf == was.rowOf[now.nodes[p] := row]
  }

  /** The node that splits `p` gets the row it already has, if any genome has it. */
  lemma RowForAgain(reg: Registry, p: Pair)
    requires RegistryOk(reg) && p in reg.nodes && p.0 in reg.rowOf && p.1 in reg.rowOf
    ensures reg.nodes[p] in reg.rowOf ==> RowFor(reg, p).1 == reg.rowOf[reg.nodes[p]]
  {
    assert SplitOk(reg, p);
  }

  lemma RowForPlaces(reg: Registry, p: Pair)
    requires RegistryOk(reg) && p in reg.nodes && p.0 in reg.rowOf && p.1 in reg.rowOf
    ensures var (reg', row) := RowFor(reg, p);
      RowsOk(reg'.rows) && row < reg'.rows.last && reg.rows.last <= reg'.rows.last && KeepsOrder(reg.rows.order, reg'.rows.order, reg.rows.last)
  {
    var n := reg.nodes[p];
    assert Recorded(reg.rows.history, n) >= 0 ==> n in reg.rowOf;
    PlacedKeepsOrder(reg.rows, n, reg.rowOf[p.0], reg.rowOf[p.1]);
  }

  lemma RowForExtends(reg: Registry, p: Pair)
    requires RegistryOk(reg) && p in reg.nodes && p.0 in reg.rowOf && p.1 in reg.rowOf
    ensures Extends(reg, RowFor(reg, p).0)
  {
    RowForAgain(reg, p);
    RowForPlaces(reg, p);
  }

  lemma RowForRecords(reg: Registry, p: Pair)
    requires RegistryOk(reg) && p in reg.nodes && p.0 in reg.rowOf && p.1 in reg.rowOf
    ensures RecordsOk(RowFor(reg, p).0)
  {
    var (reg', row) := RowFor(reg, p);
    var n := reg.nodes[p];
    RowForPlaces(reg, p);
    forall m: nat | Recorded(reg'.rows.history, m) >= 0 ensures m in reg'.rowOf && reg'.rowOf[m] == Recorded(reg'.rows.history, m) {
      assert m != n ==> Recorded(reg.rows.history, m) == Recorded(reg'.rows.history, m);
    }
  }

  lemma RowForSplitsOthers(reg: Registry, p: Pair, q: Pair)
    requires RegistryOk(reg) && p in reg.nodes && p.0 in reg.rowOf && p.1 in reg.rowOf && q in reg.nodes && q != p
    ensures SplitOk(RowFor(reg, p).0, q)
  {
    var reg' := RowFor(reg, p).0;
    RowForExtends(reg, p);
    assert SplitOk(reg, q);
    var m := reg.nodes[q];
    if m in reg'.rowOf {
      assert m != reg.nodes[p] && m in reg.rowOf;
      var a, x, b := reg.rowOf[q.0], reg.rowOf[m], reg.rowOf[q.1];
      assert reg'.rowOf[q.0] == a && reg'.rowOf[m] == x && reg'.rowOf[q.1] == b;
      KeepsOrderOf(reg.rows.order, reg'.rows.order, reg.rows.last, a, b);
      KeepsOrderOf(reg.rows.order, reg'.rows.order, reg.rows.last, a, x);
      KeepsOrderOf(reg.rows.order, reg'.rows.order, reg.rows.last, x, b);
    }
  }

  lemma RecordedIsKept(reg: Registry, p: Pair)
    requires RegistryOk(reg) && p in reg.nodes && p.0 in reg.rowOf && p.1 in reg.rowOf
    requires Recorded(reg.rows.history, reg.nodes[p]) >= 0
    ensures RowFor(reg, p) == (reg, reg.rowOf[reg.nodes[p]])
  {
    RowForAgain(reg, p);
    assert reg.rowOf[reg.nodes[p] := reg.rowOf[reg.nodes[p]]] == reg.rowOf;
  }

  lemma RowForSplitsItself(reg: Registry, p: Pair)
    requires RegistryOk(reg) && p in reg.nodes && p.0 in reg.rowOf && p.1 in reg.rowOf
    ensures SplitOk(RowFor(reg, p).0, p)
  {
    var n := reg.nodes[p];
    assert SplitOk(reg, p);
    if Recorded(reg.rows.history, n) >= 0 {
      RecordedIsKept(reg, p);
    } else {
      var (reg', row) := RowFor(reg, p);
      var a, b := reg.rowOf[p.0], reg.rowOf[p.1];
      RowForExtends(reg, p);
      assert reg'.rowOf[p.0] == a && reg'.rowOf[n] == row && reg'.rowOf[p.1] == b;
      KeepsOrderOf(reg.rows.order, reg'.rows.order, reg.rows.last, a, b);
      PlacedBetween(reg.rows, n, a, b);
      BeforeIsPos(reg.rows.order, a, b);
    }
  }

  lemma RowForIsOk(reg: Registry, p: Pair)
    requires RegistryOk(reg) && p in reg.nodes && p.0 in reg.rowOf && p.1 in reg.rowOf
    ensures var (reg', row) := RowFor(reg, p);
      RegistryOk(reg') && Extends(reg, reg') && reg.nodes[p] in reg'.rowOf && reg'.rowOf[reg.nodes[p]] == row
  {
    var (reg', row) := RowFor(reg, p);
    RowForExtends(reg, p);
    RowForRecords(reg, p);
    forall q | q in reg'.nodes ensures SplitOk(reg', q) {
      if q == p {
        RowForSplitsItself(reg, p);
      } else {
        RowForSplitsOthers(reg, p, q);
      }
    }
  }
}
