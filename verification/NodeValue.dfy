/** The value of a node in terms of the genome alone: what `eval` adds up for it, connection by connection
    (genetic_encoding.cpp:844-866). */
module NodeValues {
  import opened Sequences
  import opened Genomes
  import opened Recurrence
  import opened Evaluation

  /** `p` runs the network of `g`, and there is an input vector at time `t`. */
  ghost predicate RunsOn(g: Genome, p: Process, t: nat) {
    WellFormed(g) && p.net == NetOf(g) && p.Solves() && t < |p.ins|
  }

  ghost predicate Carries(g: Genome, k: nat, n: nat) {
    HasConn(g, k) && g.conns[k].enable && g.conns[k].dst == n
  }

  /** What a connection adds: its weight times the present value of its source if the source's row comes earlier, and the
      previous value of the source, without its weight, if it does not. */
  ghost function AddedBy(g: Genome, p: Process, t: nat, k: nat): real
    requires WellFormed(g) && HasConn(g, k)
  {
    var c := g.conns[k];
    if PosOf(g.rowOrder, g.nodes[c.src].row) < PosOf(g.rowOrder, g.nodes[c.dst].row) then p.v(t, c.src) * c.weight
    else if t == 0 then p.past(c.src)
    else p.v(t - 1, c.src)
  }

  /** The value of an input is its function of the input. */
  lemma InputValue(g: Genome, p: Process, t: nat, n: nat)
    requires RunsOn(g, p, t) && HasNode(g, n) && n < |p.ins[t]|
    ensures p.v(t, n) == p.act(g.nodes[n].fn, p.ins[t][n])
  {
    assert p.v(t, n) == p.Due(t, n);
  }

  lemma SlotBrings(g: Genome, p: Process, t: nat, n: nat, k: nat)
    requires RunsOn(g, p, t) && HasNode(g, n) && k < |g.conns|
    ensures n in p.net.cells && |p.net.links| == |g.conns|
    ensures Carries(g, k, n) ==> p.Bring(t, n, k) == AddedBy(g, p, t, k)
    ensures !Carries(g, k, n) ==> p.Bring(t, n, k) == 0.0
  {
    assert p.net.links[k] == LinkOf(g.conns[k]);
  }

  /** `sums` adds up, slot by slot and from zero on, what the connections that carry something to the node add. */
  ghost predicate AddsUp(g: Genome, p: Process, t: nat, n: nat, sums: seq<real>)
    requires WellFormed(g)
  {
    && |sums| == |g.conns| + 1 && sums[0] == 0.0
    && forall k: nat, l: nat {:trigger sums[k], sums[l]} :: l == k + 1 <= |g.conns| ==>
      sums[l] == if Carries(g, k, n) then sums[k] + AddedBy(g, p, t, k) else sums[k]
  }

  lemma TotalsAddUp(g: Genome, p: Process, t: nat, n: nat, sums: seq<real>)
    requires RunsOn(g, p, t) && HasNode(g, n) && n in p.net.cells && |p.Brings(t, n)| == |g.conns| && |sums| == |g.conns| + 1
    requires forall k :: 0 <= k <= |g.conns| ==> sums[k] == Total(p.Brings(t, n), k)
    ensures AddsUp(g, p, t, n, sums)
  {
    forall k: nat, l: nat {:trigger sums[k], sums[l]} | l == k + 1 <= |g.conns|
      ensures sums[l] == if Carries(g, k, n) then sums[k] + AddedBy(g, p, t, k) else sums[k]
    {
      TotalOn(g, p, t, n, k);
    }
  }

  /** The value of any other node is its function of that sum. */
  lemma ValueIsSum(g: Genome, p: Process, t: nat, n: nat) returns (sums: seq<real>)
    requires RunsOn(g, p, t) && HasNode(g, n) && n >= |p.ins[t]|
    ensures AddsUp(g, p, t, n, sums) && p.v(t, n) == p.act(g.nodes[n].fn, sums[|g.conns|])
  {
    SlotCount(g, p, t, n);
    var xs := p.Brings(t, n);
    sums := seq(|g.conns| + 1, k requires 0 <= k <= |g.conns| => Total(xs, k));
    assert p.v(t, n) == p.Due(t, n);
    TotalsAddUp(g, p, t, n, sums);
  }

  lemma TotalOn(g: Genome, p: Process, t: nat, n: nat, k: nat)
    requires RunsOn(g, p, t) && HasNode(g, n) && k < |g.conns|
    ensures n in p.net.cells && |p.Brings(t, n)| == |g.conns|
    ensures Total(p.Brings(t, n), k + 1) == Total(p.Brings(t, n), k) + if Carries(g, k, n) then AddedBy(g, p, t, k) else 0.0
  {
    SlotBrings(g, p, t, n, k);
  }

  lemma SlotCount(g: Genome, p: Process, t: nat, n: nat)
    requires RunsOn(g, p, t) && HasNode(g, n)
    ensures n in p.net.cells && |p.net.links| == |g.conns| && p.net.cells[n].fn == g.nodes[n].fn
  {
  }

  lemma {:induction false} SumStays(g: Genome, p: Process, t: nat, n: nat, sums: seq<real>, from: nat, to: nat)
    requires WellFormed(g) && AddsUp(g, p, t, n, sums) && from <= to <= |g.conns|
    requires forall k: nat :: from <= k < to ==> !Carries(g, k, n)
    ensures sums[to] == sums[from]
  {
    if from < to {
      SumStays(g, p, t, n, sums, from, to - 1);
      assert !Carries(g, to - 1, n) && sums[to] == sums[to];
    }
  }

  /** A node that no connection carries anything to. */
  lemma NoFeeder(g: Genome, p: Process, t: nat, n: nat)
    requires RunsOn(g, p, t) && HasNode(g, n) && n >= |p.ins[t]| && forall k: nat :: !Carries(g, k, n)
    ensures p.v(t, n) == p.act(g.nodes[n].fn, 0.0)
  {
    var sums := ValueIsSum(g, p, t, n);
    SumStays(g, p, t, n, sums, 0, |g.conns|);
  }

  /** A node fed by one connection. */
  lemma OneFeeder(g: Genome, p: Process, t: nat, n: nat, k: nat)
    requires RunsOn(g, p, t) && HasNode(g, n) && n >= |p.ins[t]| && HasConn(g, k)
    requires forall i: nat :: Carries(g, i, n) <==> i == k
    ensures p.v(t, n) == p.act(g.nodes[n].fn, AddedBy(g, p, t, k))
  {
    var sums := ValueIsSum(g, p, t, n);
    var l := k + 1;
    SumStays(g, p, t, n, sums, 0, k);
    assert Carries(g, k, n) && sums[l] == sums[k] + AddedBy(g, p, t, k);
    SumStays(g, p, t, n, sums, l, |g.conns|);
  }

  /** A node fed by two. */
  lemma TwoFeeders(g: Genome, p: Process, t: nat, n: nat, j: nat, k: nat)
    requires RunsOn(g, p, t) && HasNode(g, n) && n >= |p.ins[t]| && j < k && HasConn(g, j) && HasConn(g, k)
    requires forall i: nat :: Carries(g, i, n) <==> i == j || i == k
    ensures p.v(t, n) == p.act(g.nodes[n].fn, AddedBy(g, p, t, j) + AddedBy(g, p, t, k))
  {
    var sums := ValueIsSum(g, p, t, n);
    var a, b := j + 1, k + 1;
    SumStays(g, p, t, n, sums, 0, j);
    assert Carries(g, j, n) && sums[a] == sums[j] + AddedBy(g, p, t, j);
    SumStays(g, p, t, n, sums, a, k);
    assert Carries(g, k, n) && sums[b] == sums[k] + AddedBy(g, p, t, k);
    SumStays(g, p, t, n, sums, b, |g.conns|);
  }

  lemma SameProduct(x: real, y: real, w: real)
    requires x == y
    ensures x * w == y * w
  {
  }
}
