/** `Genetic_Encoding::eval`: the in-place, row-by-row evaluation computes the synchronous recurrence. */
module Evaluation {
  import opened Sequences
  import opened Genomes
  import opened Recurrence

  function LinkOf(c: ConnGene): Link {
    if c.Conn? && c.enable then Link(c.src, c.dst, c.weight) else NoLink
  }

  function LinksOf(conns: seq<ConnGene>): seq<Link> {
    seq(|conns|, k requires 0 <= k < |conns| => LinkOf(conns[k]))
  }

  ghost function PlaceOf(g: Genome, n: nat): nat
    requires WellFormed(g) && HasNode(g, n)
  {
    PosOf(g.rowOrder, g.nodes[n].row)
  }

  /** The network a genome stands for. */
  ghost function NetOf(g: Genome): (net: Net)
    requires WellFormed(g)
    ensures net.Closed()
  {
    var net := Net(map n: nat | n < |g.nodes| && HasNode(g, n) :: Cell(g.nodes[n].fn, PlaceOf(g, n)), LinksOf(g.conns));
    assert forall k :: 0 <= k < |net.links| && net.links[k].Link? ==> HasConn(g, k);
    net
  }

  // ---------- the tables eval builds ----------

  predicate UsedRow(g: Genome, r: nat) {
    r < |g.nodesAtRow| && |g.nodesAtRow[r]| > 0
  }

  ghost function RowUsedAt(g: Genome): nat -> bool {
    (x: nat) => x < |g.rowOrder| && UsedRow(g, g.rowOrder[x])
  }

  /** The places of the row order whose row holds a node, in order. */
  ghost function UsedPlaces(g: Genome): seq<nat> {
    Selection(|g.rowOrder|, RowUsedAt(g))
  }

  ghost function FeedsNode(links: seq<Link>, n: nat): nat -> bool {
    (k: nat) => k < |links| && Feeds(links[k], n)
  }

  /** `slots` lists, in order, the slots that feed `n`. */
  ghost predicate ListsFeeders(links: seq<Link>, n: nat, slots: seq<nat>) {
    Selects(slots, |links|, FeedsNode(links, n))
  }

  /** `inputs_to_node`: for each of `size` nodes, the enabled connections that feed it. */
  method FeederTable(conns: seq<ConnGene>, size: nat) returns (table: seq<seq<nat>>)
    requires forall i :: 0 <= i < |conns| && LinkOf(conns[i]).Link? ==> conns[i].dst < size
    ensures |table| == size
    ensures forall n :: 0 <= n < size ==> ListsFeeders(LinksOf(conns), n, table[n])
  {
    table := [];
    var i := 0;
    while i < size
      invariant 0 <= i <= size
      invariant table == seq(i, _ => [])
    {
      table := table + [[]];
      i := i + 1;
    }
    i := 0;
    while i < |conns|
      invariant 0 <= i <= |conns|
      invariant |table| == size
      invariant forall n :: 0 <= n < size ==> Selects(table[n], i, FeedsNode(LinksOf(conns), n))
    {
      ghost var before := table;
      if conns[i].Conn? && conns[i].enable {
        var d := conns[i].dst;
        table := table[d := table[d] + [i]];
      }
      forall n | 0 <= n < size ensures Selects(table[n], i + 1, FeedsNode(LinksOf(conns), n)) {
        SelectsOn(before[n], i, FeedsNode(LinksOf(conns), n));
      }
      i := i + 1;
    }
  }

  /** `row_orderer_list_adapted`: the rows in use, in row order. */
  method AdaptedRows(e: Encoding) returns (rows: seq<nat>)
    ensures |rows| == |UsedPlaces(e.Value())|
    ensures forall j :: 0 <= j < |rows| ==> UsedPlaces(e.Value())[j] < |e.rowOrder| && rows[j] == e.rowOrder[UsedPlaces(e.Value())[j]]
  {
    rows := [];
    ghost var g := e.Value();
    ghost var used, places: seq<nat> := RowUsedAt(g), [];
    var i := 0;
    while i < |e.rowOrder|
      invariant 0 <= i <= |e.rowOrder|
      invariant Selects(places, i, used)
      invariant |rows| == |places| && forall j :: 0 <= j < |rows| ==> rows[j] == e.rowOrder[places[j]]
    {
      SelectsOn(places, i, used);
      if e.rowOrder[i] < |e.nodesAtRow| {
        if |e.nodesAtRow[e.rowOrder[i]]| > 0 {
          rows := rows + [e.rowOrder[i]];
          places := places + [i];
        }
      }
      i := i + 1;
    }
    SelectsOnce(places, UsedPlaces(g), |e.rowOrder|, used);
  }

  /** From a row to its place: the inverse of the row order. */
  method InverseRows(rowOrder: seq<nat>) returns (inverse: seq<nat>)
    requires Permutation(rowOrder)
    ensures |inverse| == |rowOrder|
    ensures forall r :: 0 <= r < |rowOrder| ==> inverse[r] == PosOf(rowOrder, r)
  {
    inverse := [];
    var i := 0;
    while i < |rowOrder|
      invariant 0 <= i <= |rowOrder| && |inverse| == i
      invariant forall r :: 0 <= r < i ==> inverse[r] == PosOf(rowOrder, r)
    {
      ghost var at := PosOf(rowOrder, i);
      ghost var before := inverse;
      var j := 0;
      while j < |rowOrder|
        invariant 0 <= j <= |rowOrder|
        invariant inverse == if at < j then before + [at] else before
      {
        if i == rowOrder[j] {
          PosOfIs(rowOrder, j);
          inverse := inverse + [j];
        }
        j := j + 1;
      }
      i := i + 1;
    }
  }

  // ---------- eval ----------

  /** Nothing but current and past values differs. */
  ghost predicate SameNet(g: Genome, h: Genome) {
    && g.conns == h.conns && g.rowOrder == h.rowOrder && g.nodesAtRow == h.nodesAtRow && g.outputs == h.outputs
    && |g.nodes| == |h.nodes|
    && forall n :: 0 <= n < |g.nodes| ==>
      (g.nodes[n].Node? <==> h.nodes[n].Node?)
      && (g.nodes[n].Node? ==> h.nodes[n] == g.nodes[n].(value := h.nodes[n].value, past := h.nodes[n].past))
  }

  lemma SameNetSameMeaning(g: Genome, h: Genome)
    requires WellFormed(g) && SameNet(g, h)
    ensures WellFormed(h) && NetOf(h) == NetOf(g)
  {
    assert forall n :: HasNode(g, n) <==> HasNode(h, n);
    assert forall k :: HasConn(g, k) <==> HasConn(h, k);
    assert IndexesAgree(h);
    assert ConnsAgree(h);
    assert RowsAgree(h);
    assert NetOf(h).cells == NetOf(g).cells;
  }

  /** The inverse row table and the genes of `g` place and name the nodes as `net` does. */
  ghost predicate Shows(net: Net, g: Genome, inverse: seq<nat>) {
    forall n :: n in net.cells ==>
      HasNode(g, n) && g.nodes[n].fn == net.cells[n].fn && g.nodes[n].row < |inverse| && inverse[g.nodes[n].row] == net.cells[n].place
  }

  /** Inside `eval` at time `t`: the rows placed before `done` are finished, and so are the values of the
      nodes in `valued` and the past values of the nodes in `moved`. */
  ghost predicate Halfway(p: Process, t: nat, g: Genome, done: nat, valued: seq<nat>, moved: seq<nat>)
    requires t < |p.ins|
  {
    forall n :: n in p.net.cells ==> (
      && HasNode(g, n)
      && (n < |p.ins[t]| || p.net.cells[n].place < done || n in valued ==> g.nodes[n].value == p.v(t, n))
      && (|p.ins[t]| <= n ==>
        g.nodes[n].past == p.Previous(if p.net.cells[n].place < done || n in moved then t + 1 else t, n)))
  }

  ghost predicate Readable(g: Genome, inverse: seq<nat>, n: nat, k: nat) {
    && HasConn(g, k) && HasNode(g, n) && HasNode(g, g.conns[k].src)
    && g.nodes[n].row < |inverse| && g.nodes[g.conns[k].src].row < |inverse|
  }

  /** What slot `k` brings to node `n`, read off the current and past values in place. */
  ghost function Read(g: Genome, inverse: seq<nat>, n: nat, k: nat): real
    requires Readable(g, inverse, n, k)
  {
    var m := g.nodes[g.conns[k].src];
    if inverse[m.row] >= inverse[g.nodes[n].row] then m.past else m.value * g.conns[k].weight
  }

  lemma ReadIsBring(p: Process, t: nat, g: Genome, inverse: seq<nat>, n: nat, valued: seq<nat>, k: nat)
    requires p.net.Closed() && t < |p.ins| && p.net.InputsLead(|p.ins[t]|) && Shows(p.net, g, inverse)
    requires p.net.links == LinksOf(g.conns) && k < |g.conns| && Feeds(p.net.links[k], n)
    requires n in p.net.cells && |p.ins[t]| <= n && Halfway(p, t, g, p.net.cells[n].place, valued, [])
    ensures Readable(g, inverse, n, k)
    ensures Read(g, inverse, n, k) == p.Bring(t, n, k)
  {
    assert p.net.links[k] == LinkOf(g.conns[k]);
  }

  /** The sum of what these slots bring, when the slots left out bring nothing. */
  method SumInputs(e: Encoding, slots: seq<nat>, inverse: seq<nat>, n: nat, ghost xs: seq<real>) returns (sum: real)
    requires Ascending(slots)
    requires forall j :: 0 <= j < |slots| ==>
      slots[j] < |xs| && Readable(e.Value(), inverse, n, slots[j]) && xs[slots[j]] == Read(e.Value(), inverse, n, slots[j])
    requires forall i :: 0 <= i < |xs| && i !in slots ==> xs[i] == 0.0
    ensures sum == Total(xs, |xs|)
  {
    sum := 0.0;
    var k := 0;
    ghost var at := 0;
    while k < |slots|
      invariant 0 <= k <= |slots| && 0 <= at <= |xs|
      invariant forall j :: 0 <= j < |slots| ==> (slots[j] < at <==> j < k)
      invariant sum == Total(xs, at)
    {
      TotalSkips(xs, at, slots[k]);
      at := slots[k] + 1;
      var c := e.conns[slots[k]];
      if inverse[e.nodes[c.src].row] >= inverse[e.nodes[n].row] {
        sum := sum + e.nodes[c.src].past;
      } else {
        sum := sum + e.nodes[c.src].value * c.weight;
      }
      k := k + 1;
    }
    TotalSkips(xs, at, |xs|);
  }

  /** `g` with the current and past value of node `n` changed. */
  function WithValues(g: Genome, n: nat, value: real, past: real): Genome
    requires HasNode(g, n)
  {
    g.(nodes := g.nodes[n := g.nodes[n].(value := value, past := past)])
  }

  lemma ValuedNode(p: Process, t: nat, g: Genome, done: nat, valued: seq<nat>, n: nat)
    requires t < |p.ins| && Halfway(p, t, g, done, valued, []) && n in p.net.cells
    ensures HasNode(g, n) && Halfway(p, t, WithValues(g, n, p.v(t, n), g.nodes[n].past), done, valued + [n], [])
  {
  }

  lemma MovedNode(p: Process, t: nat, g: Genome, done: nat, valued: seq<nat>, moved: seq<nat>, n: nat)
    requires t < |p.ins| && Halfway(p, t, g, done, valued, moved) && n in p.net.cells && n in valued
    ensures HasNode(g, n) && Halfway(p, t, WithValues(g, n, g.nodes[n].value, g.nodes[n].value), done, valued, moved + [n])
  {
  }

  lemma SameNetThroughout(f: Genome, g: Genome, n: nat, value: real, past: real)
    requires SameNet(f, g) && HasNode(g, n)
    ensures SameNet(f, WithValues(g, n, value, past))
  {
  }

  /** What `eval` needs to hold while it is between two rows. */
  ghost predicate Between(p: Process, t: nat, f: Genome, g: Genome, inverse: seq<nat>) {
    && p.net.Closed() && t < |p.ins| && p.net.InputsLead(|p.ins[t]|) && p.Solves()
    && p.net.links == LinksOf(g.conns) && SameNet(f, g) && Shows(p.net, f, inverse)
  }

  /** The value of one node, from the values and past values in place. */
  method NodeValue(e: Encoding, act: Activation, slots: seq<nat>, inverse: seq<nat>, n: nat,
                   ghost p: Process, ghost t: nat, ghost f: Genome, ghost valued: seq<nat>) returns (value: real)
    requires Between(p, t, f, e.Value(), inverse) && act == p.act
    requires n in p.net.cells && |p.ins[t]| <= n && Halfway(p, t, e.Value(), p.net.cells[n].place, valued, [])
    requires ListsFeeders(p.net.links, n, slots)
    ensures value == p.v(t, n)
  {
    ghost var xs := p.Brings(t, n);
    assert Shows(p.net, e.Value(), inverse);
    forall j | 0 <= j < |slots|
      ensures Readable(e.Value(), inverse, n, slots[j]) && xs[slots[j]] == Read(e.Value(), inverse, n, slots[j])
    {
      ReadIsBring(p, t, e.Value(), inverse, n, valued, slots[j]);
    }
    var sum := SumInputs(e, slots, inverse, n, xs);
    value := act(e.nodes[n].fn, sum);
    assert p.v(t, n) == p.Due(t, n);
  }

  /** One round of the row loop of `eval`: the nodes of the row placed at `place` get their values, and
      only then move them into their past. */
  method EvalRow(e: Encoding, act: Activation, line: seq<nat>, table: seq<seq<nat>>, inverse: seq<nat>,
                 ghost p: Process, ghost t: nat, ghost f: Genome, ghost place: nat)
    requires Between(p, t, f, e.Value(), inverse) && act == p.act && Halfway(p, t, e.Value(), place, [], [])
    requires forall n :: n in line ==> n in p.net.cells && p.net.cells[n].place == place && |p.ins[t]| <= n
    requires |table| == |e.nodes| && forall n :: 0 <= n < |table| ==> ListsFeeders(p.net.links, n, table[n])
    modifies e
    ensures Between(p, t, f, e.Value(), inverse) && Halfway(p, t, e.Value(), place, line, line)
  {
    var j := 0;
    while j < |line|
      invariant 0 <= j <= |line|
      invariant Between(p, t, f, e.Value(), inverse) && Halfway(p, t, e.Value(), place, line[..j], [])
      invariant |table| == |e.nodes|
    {
      var n := line[j];
      assert HasNode(e.Value(), n);
      var value := NodeValue(e, act, table[n], inverse, n, p, t, f, line[..j]);
      ValuedNode(p, t, e.Value(), place, line[..j], n);
      SameNetThroughout(f, e.Value(), n, value, e.nodes[n].past);
      e.nodes := e.nodes[n := e.nodes[n].(value := value)];
      PrefixSnoc(line, j);
      j := j + 1;
    }
    WholePrefix(line);
    j := 0;
    while j < |line|
      invariant 0 <= j <= |line|
      invariant Between(p, t, f, e.Value(), inverse) && Halfway(p, t, e.Value(), place, line, line[..j])
    {
      var n := line[j];
      MovedNode(p, t, e.Value(), place, line, line[..j], n);
      SameNetThroughout(f, e.Value(), n, e.nodes[n].value, e.nodes[n].value);
      e.nodes := e.nodes[n := e.nodes[n].(past := e.nodes[n].value)];
      PrefixSnoc(line, j);
      j := j + 1;
    }
    WholePrefix(line);
  }

  /** The place where the rows not yet evaluated start, when `i` rows in use are behind. */
  ghost function Frontier(f: Genome, i: nat): nat {
    var places := UsedPlaces(f);
    if i < |places| then places[i] else |f.rowOrder|
  }

  /** The list of the `i`-th row in use names exactly the nodes between two frontiers. */
  lemma RowBetweenFrontiers(f: Genome, i: nat)
    requires WellFormed(f) && i < |UsedPlaces(f)|
    ensures Frontier(f, i) < |f.rowOrder| && f.rowOrder[Frontier(f, i)] < |f.nodesAtRow|
    ensures var line := f.nodesAtRow[f.rowOrder[Frontier(f, i)]];
      forall n :: n in line ==> n in NetOf(f).cells && NetOf(f).cells[n].place == Frontier(f, i)
    ensures var line := f.nodesAtRow[f.rowOrder[Frontier(f, i)]];
      forall n :: n in NetOf(f).cells ==>
        (NetOf(f).cells[n].place < Frontier(f, i + 1) <==> NetOf(f).cells[n].place < Frontier(f, i) || n in line)
  {
    var places := UsedPlaces(f);
    var x := places[i];
    assert x in places;
    var line := f.nodesAtRow[f.rowOrder[x]];
    PosOfIs(f.rowOrder, x);
    forall n | n in line ensures n in NetOf(f).cells && NetOf(f).cells[n].place == x {
      assert HasNode(f, n);
    }
    assert x < Frontier(f, i + 1);
    forall n | n in NetOf(f).cells && x <= NetOf(f).cells[n].place < Frontier(f, i + 1) ensures n in line {
      assert HasNode(f, n);
      NodeInUsedRow(f, n);
      if x < PlaceOf(f, n) {
        NextAbove(places, i, PlaceOf(f, n));
      }
    }
  }

  lemma NodeInUsedRow(f: Genome, n: nat)
    requires WellFormed(f) && HasNode(f, n)
    ensures PlaceOf(f, n) in UsedPlaces(f)
    ensures f.rowOrder[PlaceOf(f, n)] == f.nodes[n].row && n in f.nodesAtRow[f.nodes[n].row]
  {
  }

  lemma InputsBeforeFrontier(f: Genome, k: nat, n: nat)
    requires WellFormed(f) && NetOf(f).InputsLead(k) && n in NetOf(f).cells
    ensures |UsedPlaces(f)| > 0
    ensures n < k <==> NetOf(f).cells[n].place < Frontier(f, 1)
  {
    var net := NetOf(f);
    var places := UsedPlaces(f);
    assert HasNode(f, n) && 0 in net.cells && HasNode(f, 0);
    NodeInUsedRow(f, n);
    NodeInUsedRow(f, 0);
    RowBetweenFrontiers(f, 0);
    var line := f.nodesAtRow[f.rowOrder[places[0]]];
    assert places[0] in places && line[0] in line;
    assert places[0] == net.cells[0].place;
    if k <= n {
      NextAbove(places, 0, net.cells[n].place);
    }
  }

  lemma AdvanceRow(p: Process, t: nat, g: Genome, done: nat, next: nat, line: seq<nat>)
    requires t < |p.ins| && Halfway(p, t, g, done, line, line)
    requires forall n :: n in p.net.cells ==> (p.net.cells[n].place < next <==> p.net.cells[n].place < done || n in line)
    ensures Halfway(p, t, g, next, [], [])
  {
  }

  /** Outside the input row, the stored past values are those of one step before time `t`. */
  ghost predicate HoldsPast(p: Process, t: nat, g: Genome, k: nat) {
    forall n :: n in p.net.cells ==> HasNode(g, n) && (k <= n ==> g.nodes[n].past == p.Previous(t, n))
  }

  /** `p` runs the network of `g`, and `g` can be evaluated on the input vector at time `t`. */
  ghost predicate Runs(p: Process, t: nat, g: Genome) {
    && WellFormed(g) && p.net == NetOf(g) && p.Solves()
    && t < |p.ins| && p.net.InputsLead(|p.ins[t]|)
  }

  lemma InputsDue(p: Process, t: nat, g: Genome)
    requires Runs(p, t, g)
    ensures forall n :: 0 <= n < |p.ins[t]| ==> HasNode(g, n) && p.v(t, n) == p.act(g.nodes[n].fn, p.ins[t][n])
  {
    forall n | 0 <= n < |p.ins[t]| ensures HasNode(g, n) && p.v(t, n) == p.act(g.nodes[n].fn, p.ins[t][n]) {
      assert n in p.net.cells && p.v(t, n) == p.Due(t, n);
    }
  }

  method LoadInputs(e: Encoding, act: Activation, inputs: seq<real>, ghost p: Process, ghost t: nat, ghost f: Genome)
    requires SameNet(f, e.Value()) && HoldsPast(p, t, e.Value(), |inputs|)
    requires forall n :: 0 <= n < |inputs| ==> HasNode(f, n) && p.v(t, n) == act(f.nodes[n].fn, inputs[n])
    modifies e`nodes
    ensures SameNet(f, e.Value()) && HoldsPast(p, t, e.Value(), |inputs|)
    ensures forall n :: 0 <= n < |inputs| ==> HasNode(e.Value(), n) && e.nodes[n].value == p.v(t, n)
  {
    var i := 0;
    while i < |inputs|
      invariant 0 <= i <= |inputs|
      invariant SameNet(f, e.Value()) && HoldsPast(p, t, e.Value(), |inputs|)
      invariant forall n :: 0 <= n < i ==> HasNode(e.Value(), n) && e.nodes[n].value == p.v(t, n)
    {
      assert HasNode(f, i) && HasNode(e.Value(), i) && e.nodes[i].fn == f.nodes[i].fn;
      SameNetThroughout(f, e.Value(), i, act(e.nodes[i].fn, inputs[i]), e.nodes[i].past);
      e.nodes := e.nodes[i := e.nodes[i].(value := act(e.nodes[i].fn, inputs[i]))];
      i := i + 1;
    }
  }

  lemma FrontiersRise(f: Genome, i: nat)
    requires 0 < i
    ensures Frontier(f, 1) <= Frontier(f, i)
  {
    var places := UsedPlaces(f);
    if 1 < |places| && i < |places| && 1 < i {
      assert places[1] < places[i];
    } else if 1 < |places| {
      assert places[1] in places;
    }
  }

  /** `line` names the nodes from place `done` up to place `next`, and none of them is an input. */
  ghost predicate Spans(net: Net, k: nat, done: nat, next: nat, line: seq<nat>) {
    && (forall n :: n in line ==> n in net.cells && net.cells[n].place == done && k <= n)
    && (forall n :: n in net.cells ==> (net.cells[n].place < next <==> net.cells[n].place < done || n in line))
  }

  /** The row loop of `eval`, over all rows in use but the first; `places` says where each row stands. */
  method EvalRows(e: Encoding, act: Activation, rows: seq<nat>, table: seq<seq<nat>>, inverse: seq<nat>,
                  ghost p: Process, ghost t: nat, ghost f: Genome, ghost places: nat -> nat)
    requires Between(p, t, f, e.Value(), inverse) && act == p.act && Halfway(p, t, e.Value(), places(1), [], [])
    requires |table| == |e.nodes| && forall n :: 0 <= n < |table| ==> ListsFeeders(p.net.links, n, table[n])
    requires forall i :: 1 <= i < |rows| ==>
      rows[i] < |f.nodesAtRow| && Spans(p.net, |p.ins[t]|, places(i), places(i + 1), f.nodesAtRow[rows[i]])
    modifies e
    ensures SameNet(f, e.Value()) && Halfway(p, t, e.Value(), places(if rows == [] then 1 else |rows|), [], [])
  {
    var i := 1;
    while i < |rows|
      invariant 1 <= i <= if rows == [] then 1 else |rows|
      invariant Between(p, t, f, e.Value(), inverse) && Halfway(p, t, e.Value(), places(i), [], [])
      invariant |table| == |e.nodes|
    {
      var line := e.nodesAtRow[rows[i]];
      assert Spans(p.net, |p.ins[t]|, places(i), places(i + 1), line);
      EvalRow(e, act, line, table, inverse, p, t, f, places(i));
      AdvanceRow(p, t, e.Value(), places(i), places(i + 1), line);
      i := i + 1;
    }
    assert i == if rows == [] then 1 else |rows|;
  }

  lemma RowsSpan(f: Genome, k: nat, i: nat)
    requires WellFormed(f) && NetOf(f).InputsLead(k) && 1 <= i < |UsedPlaces(f)|
    ensures Frontier(f, i) < |f.rowOrder| && f.rowOrder[Frontier(f, i)] < |f.nodesAtRow|
    ensures Spans(NetOf(f), k, Frontier(f, i), Frontier(f, i + 1), f.nodesAtRow[f.rowOrder[Frontier(f, i)]])
  {
    RowBetweenFrontiers(f, i);
    FrontiersRise(f, i);
    forall n | n in f.nodesAtRow[f.rowOrder[Frontier(f, i)]] ensures k <= n {
      InputsBeforeFrontier(f, k, n);
    }
  }

  lemma StartHalfway(p: Process, t: nat, f: Genome, g: Genome)
    requires Runs(p, t, f) && HoldsPast(p, t, g, |p.ins[t]|)
    requires forall n :: 0 <= n < |p.ins[t]| ==> HasNode(g, n) && g.nodes[n].value == p.v(t, n)
    ensures Halfway(p, t, g, Frontier(f, 1), [], [])
  {
    forall n | n in p.net.cells
      ensures |UsedPlaces(f)| > 0 && (n < |p.ins[t]| <==> p.net.cells[n].place < Frontier(f, 1))
    {
      InputsBeforeFrontier(f, |p.ins[t]|, n);
    }
  }

  /** The rows in use, and the places they stand at, are what the row loop needs. */
  lemma RowLoopReady(p: Process, t: nat, f: Genome, rows: seq<nat>, inverse: seq<nat>)
    requires Runs(p, t, f) && |rows| == |UsedPlaces(f)|
    requires forall j :: 0 <= j < |rows| ==> rows[j] == f.rowOrder[UsedPlaces(f)[j]]
    requires |inverse| == |f.rowOrder| && forall r :: 0 <= r < |inverse| ==> inverse[r] == PosOf(f.rowOrder, r)
    ensures p.net.links == LinksOf(f.conns) && p.net.Closed() && Shows(p.net, f, inverse)
    ensures forall i :: 1 <= i < |rows| ==>
      rows[i] < |f.nodesAtRow| && Spans(p.net, |p.ins[t]|, Frontier(f, i), Frontier(f, i + 1), f.nodesAtRow[rows[i]])
    ensures Frontier(f, if rows == [] then 1 else |rows|) == |f.rowOrder|
  {
    forall i | 1 <= i < |rows|
      ensures rows[i] < |f.nodesAtRow| && Spans(p.net, |p.ins[t]|, Frontier(f, i), Frontier(f, i + 1), f.nodesAtRow[rows[i]])
    {
      RowsSpan(f, |p.ins[t]|, i);
    }
  }

  lemma LinksEndAtNodes(f: Genome)
    requires WellFormed(f)
    ensures forall k :: 0 <= k < |f.conns| && LinkOf(f.conns[k]).Link? ==> f.conns[k].dst < |f.nodes|
  {
    assert forall k :: 0 <= k < |f.conns| && LinkOf(f.conns[k]).Link? ==> HasConn(f, k);
  }

  /** From the loaded inputs to the values of all nodes. */
  method EvalNodes(e: Encoding, act: Activation, ghost p: Process, ghost t: nat, ghost f: Genome)
    requires Runs(p, t, f) && SameNet(f, e.Value()) && act == p.act && HoldsPast(p, t, e.Value(), |p.ins[t]|)
    requires forall n :: 0 <= n < |p.ins[t]| ==> HasNode(e.Value(), n) && e.nodes[n].value == p.v(t, n)
    modifies e
    ensures SameNet(f, e.Value()) && Halfway(p, t, e.Value(), |f.rowOrder|, [], [])
  {
    LinksEndAtNodes(f);
    var table := FeederTable(e.conns, |e.nodes|);
    var rows := AdaptedRows(e);
    var inverse := InverseRows(e.rowOrder);
    UsedPlacesOfSameNet(f, e.Value());
    StartHalfway(p, t, f, e.Value());
    RowLoopReady(p, t, f, rows, inverse);
    EvalRows(e, act, rows, table, inverse, p, t, f, i => Frontier(f, i));
  }

  lemma UsedPlacesOfSameNet(f: Genome, g: Genome)
    requires SameNet(f, g)
    ensures UsedPlaces(g) == UsedPlaces(f)
  {
    SelectsOnce(UsedPlaces(f), UsedPlaces(g), |f.rowOrder|, RowUsedAt(f));
  }

  /** `out` holds the values at time `t` of these output nodes, in order. */
  ghost predicate Answers(p: Process, t: nat, outputs: seq<nat>, out: seq<real>) {
    |out| == |outputs| && forall i :: 0 <= i < |out| ==> out[i] == p.v(t, outputs[i])
  }

  method CollectOutputs(e: Encoding, ghost p: Process, ghost t: nat) returns (outputs: seq<real>)
    requires forall i :: 0 <= i < |e.outputs| ==> HasNode(e.Value(), e.outputs[i]) && e.nodes[e.outputs[i]].value == p.v(t, e.outputs[i])
    ensures Answers(p, t, e.outputs, outputs)
  {
    outputs := [];
    var i := 0;
    while i < |e.outputs|
      invariant 0 <= i <= |e.outputs| && |outputs| == i
      invariant forall j :: 0 <= j < i ==> outputs[j] == p.v(t, e.outputs[j])
    {
      outputs := outputs + [e.nodes[e.outputs[i]].value];
      i := i + 1;
    }
  }

  lemma EndHalfway(p: Process, t: nat, f: Genome, g: Genome)
    requires Runs(p, t, f) && Halfway(p, t, g, |f.rowOrder|, [], [])
    ensures HoldsPast(p, t + 1, g, |p.ins[t]|)
    ensures forall i :: 0 <= i < |f.outputs| ==> HasNode(g, f.outputs[i]) && g.nodes[f.outputs[i]].value == p.v(t, f.outputs[i])
  {
    assert forall n :: n in p.net.cells ==> p.net.cells[n].place < |f.rowOrder|;
    forall i | 0 <= i < |f.outputs| ensures f.outputs[i] in p.net.cells {
      assert f.outputs[i] in f.outputs && HasNode(f, f.outputs[i]);
    }
  }

  /** `eval`: given inputs for time `t`, it returns the values of the output nodes at time `t`, in the order
      of the output list, and is then ready for time `t + 1`. */
  method Eval(e: Encoding, act: Activation, inputs: seq<real>, ghost p: Process, ghost t: nat) returns (outputs: seq<real>)
    requires Runs(p, t, e.Value()) && inputs == p.ins[t] && act == p.act && HoldsPast(p, t, e.Value(), |inputs|)
    modifies e
    ensures SameNet(old(e.Value()), e.Value()) && HoldsPast(p, t + 1, e.Value(), |inputs|)
    ensures Answers(p, t, e.outputs, outputs)
  {
    ghost var f := e.Value();
    InputsDue(p, t, f);
    LoadInputs(e, act, inputs, p, t, f);
    EvalNodes(e, act, p, t, f);
    EndHalfway(p, t, f, e.Value());
    outputs := CollectOutputs(e, p, t);
  }

  /** One genome evaluated on one input vector after another, as a fitness function does: the outputs at
      every time are those of the recurrence. */
  method EvalAll(e: Encoding, ghost p: Process, act: Activation, ins: seq<seq<real>>) returns (outs: seq<seq<real>>)
    requires WellFormed(e.Value()) && p.net == NetOf(e.Value()) && p.Solves() && p.act == act && p.ins == ins
    requires forall t :: 0 <= t < |ins| ==> p.net.InputsLead(|ins[t]|)
    requires forall n :: n in p.net.cells ==> e.nodes[n].past == p.past(n)
    modifies e
    ensures SameNet(old(e.Value()), e.Value())
    ensures |outs| == |ins| && forall t :: 0 <= t < |ins| ==> Answers(p, t, e.outputs, outs[t])
  {
    ghost var f := e.Value();
    forall t | 0 <= t < |ins| ensures |ins[t]| == |ins[0]| {
      InputsLeadOnce(p.net, |ins[0]|, |ins[t]|);
    }
    outs := [];
    var t := 0;
    while t < |ins|
      invariant 0 <= t <= |ins| && |outs| == t
      invariant SameNet(f, e.Value()) && WellFormed(e.Value()) && p.net == NetOf(e.Value())
      invariant t < |ins| ==> HoldsPast(p, t, e.Value(), |ins[0]|)
      invariant forall s :: 0 <= s < t ==> Answers(p, s, f.outputs, outs[s])
    {
      var out := Eval(e, act, ins[t], p, t);
      SameNetSameMeaning(f, e.Value());
      outs := outs + [out];
      t := t + 1;
    }
  }
}
