/** What a recurrent network means: a synchronous recurrence over time, without reference to how a genome
    stores or evaluates it. */
module Recurrence {
  import opened Genomes

  /** The node functions are left open: every claim holds for all of them. */
  type Activation = (Func, real) -> real

  /** A node's function and the place of its row in the row order. */
  datatype Cell = Cell(fn: Func, place: nat)

  /** What a connection slot does: nothing, or carry one node's value to another. */
  datatype Link = NoLink | Link(src: nat, dst: nat, weight: real)

  datatype Net = Net(cells: map<nat, Cell>, links: seq<Link>) {
    ghost predicate Closed() {
      forall k :: 0 <= k < |links| && links[k].Link? ==> links[k].src in cells && links[k].dst in cells
    }

    /** The nodes numbered below `k` are exactly those of the first place in use. */
    ghost predicate InputsLead(k: nat) {
      && (forall n :: 0 <= n < k ==> n in cells && 0 in cells && cells[n].place == cells[0].place)
      && (forall n :: n in cells && k <= n ==> k > 0 && 0 in cells && cells[0].place < cells[n].place)
    }
  }

  /** A network has one input size. */
  lemma InputsLeadOnce(net: Net, j: nat, k: nat)
    requires net.InputsLead(j) && net.InputsLead(k)
    ensures j == k
  {
    assert j < k ==> j in net.cells;
    assert k < j ==> k in net.cells;
  }

  predicate Feeds(l: Link, n: nat) {
    l.Link? && l.dst == n
  }

  /** The sum of the first `k` of `xs`. */
  function Total(xs: seq<real>, k: nat): real
    requires k <= |xs|
  {
    if k == 0 then 0.0 else Total(xs, k - 1) + xs[k - 1]
  }

  lemma {:induction false} TotalSkips(xs: seq<real>, i: nat, k: nat)
    requires i <= k <= |xs| && forall j :: i <= j < k ==> xs[j] == 0.0
    ensures Total(xs, k) == Total(xs, i)
    decreases k
  {
    if i < k {
      TotalSkips(xs, i, k - 1);
    }
  }

  /** A network run on the input vectors `ins`, with `past` as the past values its nodes start with, and
      `v(t, n)` as the value of node `n` at time `t`. */
  datatype Process = Process(act: Activation, net: Net, past: nat -> real, ins: seq<seq<real>>, v: (nat, nat) -> real) {

    /** The value node `m` had one step before time `t`. */
    function Previous(t: nat, m: nat): real {
      if t == 0 then past(m) else v(t - 1, m)
    }

    /** What slot `k` brings to node `n`: nothing, the weighted present of a strictly earlier row, or the
        previous value, not weighted, of the same or a later row. */
    function Bring(t: nat, n: nat, k: nat): real
      requires net.Closed() && k < |net.links| && n in net.cells
    {
      var l := net.links[k];
      if !Feeds(l, n) then 0.0
      else if net.cells[l.src].place >= net.cells[n].place then Previous(t, l.src)
      else v(t, l.src) * l.weight
    }

    /** What each slot brings to node `n`. */
    function Brings(t: nat, n: nat): (r: seq<real>)
      requires net.Closed() && n in net.cells
    {
      seq(|net.links|, k requires 0 <= k < |net.links| => Bring(t, n, k))
    }

    /** What the recurrence says the value of `n` is. Nodes numbered below the size of the input vector
        are inputs. */
    function Due(t: nat, n: nat): real
      requires net.Closed() && n in net.cells && t < |ins|
    {
      act(net.cells[n].fn, if n < |ins[t]| then ins[t][n] else Total(Brings(t, n), |net.links|))
    }

    /** The values are those of the recurrence. */
    ghost predicate Solves()
      requires net.Closed()
    {
      forall t, n :: 0 <= t < |ins| && n in net.cells ==> v(t, n) == Due(t, n)
    }
  }

  /** What a slot brings, by unfolding the recurrence back to inputs and starting values. */
  ghost function UnfoldBrings(act: Activation, net: Net, past: nat -> real, ins: seq<seq<real>>, t: nat, n: nat): seq<real>
    requires net.Closed() && t < |ins| && n in net.cells
    decreases t, net.cells[n].place, 0
  {
    seq(|net.links|, k requires 0 <= k < |net.links| =>
      var l := net.links[k];
      if !Feeds(l, n) then 0.0
      else if net.cells[l.src].place < net.cells[n].place then Unfold(act, net, past, ins, t, l.src) * l.weight
      else if t == 0 then past(l.src)
      else Unfold(act, net, past, ins, t - 1, l.src))
  }

  ghost function Unfold(act: Activation, net: Net, past: nat -> real, ins: seq<seq<real>>, t: nat, n: nat): real
    requires net.Closed() && t < |ins| && n in net.cells
    decreases t, net.cells[n].place, 1
  {
    act(net.cells[n].fn, if n < |ins[t]| then ins[t][n] else Total(UnfoldBrings(act, net, past, ins, t, n), |net.links|))
  }

  /** The recurrence has a solution. */
  lemma SolutionExists(act: Activation, net: Net, past: nat -> real, ins: seq<seq<real>>) returns (p: Process)
    requires net.Closed()
    ensures p == Process(act, net, past, ins, p.v) && p.Solves()
  {
    p := Process(act, net, past, ins,
      (t: nat, n: nat) => if t < |ins| && n in net.cells then Unfold(act, net, past, ins, t, n) else 0.0);
    forall t, n | 0 <= t < |ins| && n in net.cells ensures p.v(t, n) == p.Due(t, n) {
      var xs, ys := UnfoldBrings(act, net, past, ins, t, n), p.Brings(t, n);
      forall k | 0 <= k < |net.links| ensures xs[k] == ys[k] {
      }
      assert xs == ys;
    }
  }

  // ---------- renaming ----------

  function Renamed(l: Link, rank: nat -> nat): Link {
    if l.Link? then Link(rank(l.src), rank(l.dst), l.weight) else NoLink
  }

  /** `b` is `a` with node `n` called `rank(n)` and places changed without changing their order; `at(k)` is
      how many of the first `k` slots of `a` are kept, and only slots that do nothing are dropped. */
  ghost predicate Renames(a: Net, b: Net, rank: nat -> nat, at: nat -> nat) {
    && (forall n :: n in a.cells ==> rank(n) in b.cells && b.cells[rank(n)].fn == a.cells[n].fn)
    && (forall m, n :: m in a.cells && n in a.cells ==> (b.cells[rank(m)].place < b.cells[rank(n)].place <==> a.cells[m].place < a.cells[n].place))
    && (forall m, n :: m in a.cells && n in a.cells && rank(m) == rank(n) ==> m == n)
    && at(0) == 0 && at(|a.links|) == |b.links|
    && forall k :: 0 <= k < |a.links| ==> KeepsSlot(a, b, rank, at, k)
  }

  predicate KeepsSlot(a: Net, b: Net, rank: nat -> nat, at: nat -> nat, k: nat)
    requires k < |a.links|
  {
    if at(k + 1) == at(k) then a.links[k].NoLink?
    else at(k + 1) == at(k) + 1 && at(k) < |b.links| && b.links[at(k)] == Renamed(a.links[k], rank)
  }

  /** Leaving zeroes out leaves the sum alone. */
  lemma {:induction false} TotalCompacts(xs: seq<real>, ys: seq<real>, at: nat -> nat, k: nat)
    requires at(0) == 0 && k <= |xs|
    requires forall i :: 0 <= i < |xs| ==>
      if at(i + 1) == at(i) then xs[i] == 0.0 else at(i + 1) == at(i) + 1 && at(i) < |ys| && ys[at(i)] == xs[i]
    ensures at(k) <= |ys| && Total(ys, at(k)) == Total(xs, k)
  {
    if k > 0 {
      TotalCompacts(xs, ys, at, k - 1);
    }
  }

  lemma RenamedBring(p: Process, q: Process, rank: nat -> nat, at: nat -> nat, t: nat, n: nat, k: nat)
    requires Renames(p.net, q.net, rank, at) && p.net.Closed() && q.net.Closed() && n in p.net.cells
    requires k < |p.net.links| && at(k + 1) != at(k)
    requires Feeds(p.net.links[k], n) ==> var m := p.net.links[k].src;
      if p.net.cells[m].place < p.net.cells[n].place then q.v(t, rank(m)) == p.v(t, m) else q.Previous(t, rank(m)) == p.Previous(t, m)
    ensures at(k) < |q.net.links| && q.Bring(t, rank(n), at(k)) == p.Bring(t, n, k)
  {
    assert KeepsSlot(p.net, q.net, rank, at, k);
  }

  lemma SameSumSameValue(p: Process, q: Process, t: nat, n: nat, r: nat)
    requires p.net.Closed() && q.net.Closed() && p.Solves() && q.Solves() && p.act == q.act && p.ins == q.ins && t < |p.ins|
    requires n in p.net.cells && r in q.net.cells && p.net.cells[n].fn == q.net.cells[r].fn
    requires if n < |p.ins[t]| then r == n
      else |p.ins[t]| <= r && Total(p.Brings(t, n), |p.net.links|) == Total(q.Brings(t, r), |q.net.links|)
    ensures q.v(t, r) == p.v(t, n)
  {
    assert p.v(t, n) == p.Due(t, n) && q.v(t, r) == q.Due(t, r);
  }

  /** A renamed network that keeps the numbers of its inputs has the values of the original at every time. */
  lemma {:induction false} RenamedValues(p: Process, q: Process, rank: nat -> nat, at: nat -> nat, t: nat, n: nat)
    requires p.net.Closed() && q.net.Closed() && p.Solves() && q.Solves() && Renames(p.net, q.net, rank, at)
    requires p.act == q.act && p.ins == q.ins
    requires forall m :: m in p.net.cells ==> q.past(rank(m)) == p.past(m)
    requires forall m, v :: m in p.net.cells && v in p.ins ==> if m < |v| then rank(m) == m else |v| <= rank(m)
    requires t < |p.ins| && n in p.net.cells
    ensures q.v(t, rank(n)) == p.v(t, n)
    decreases t, p.net.cells[n].place
  {
    var xs, ys := p.Brings(t, n), q.Brings(t, rank(n));
    forall k | 0 <= k < |xs|
      ensures if at(k + 1) == at(k) then xs[k] == 0.0 else at(k + 1) == at(k) + 1 && at(k) < |ys| && ys[at(k)] == xs[k]
    {
      assert KeepsSlot(p.net, q.net, rank, at, k);
      if Feeds(p.net.links[k], n) {
        var m := p.net.links[k].src;
        if p.net.cells[m].place < p.net.cells[n].place {
          RenamedValues(p, q, rank, at, t, m);
        } else if t > 0 {
          RenamedValues(p, q, rank, at, t - 1, m);
        }
      }
      if at(k + 1) != at(k) {
        RenamedBring(p, q, rank, at, t, n, k);
      }
    }
    TotalCompacts(xs, ys, at, |xs|);
    assert p.ins[t] in p.ins;
    SameSumSameValue(p, q, t, n, rank(n));
  }

  /** The recurrence has at most one solution. */
  lemma SolutionIsUnique(p: Process, q: Process, t: nat, n: nat)
    requires p.net.Closed() && q == p.(v := q.v) && p.Solves() && q.Solves()
    requires t < |p.ins| && n in p.net.cells
    ensures p.v(t, n) == q.v(t, n)
  {
    RenamedValues(p, q, m => m, k => k, t, n);
  }

  /** Renaming that keeps the numbers of the inputs keeps the inputs first. */
  lemma RenamedInputsLead(a: Net, b: Net, rank: nat -> nat, at: nat -> nat, k: nat)
    requires Renames(a, b, rank, at) && a.InputsLead(k)
    requires forall m :: m in a.cells ==> if m < k then rank(m) == m else k <= rank(m)
    requires forall r :: r in b.cells ==> exists m :: m in a.cells && rank(m) == r
    ensures b.InputsLead(k)
  {
    forall r | 0 <= r < k ensures r in b.cells && 0 in b.cells && b.cells[r].place == b.cells[0].place {
      assert r in a.cells && 0 in a.cells;
      assert rank(r) == r && rank(0) == 0;
    }
    forall r | r in b.cells && k <= r ensures k > 0 && 0 in b.cells && b.cells[0].place < b.cells[r].place {
      var m :| m in a.cells && rank(m) == r;
      assert 0 in a.cells && rank(0) == 0;
    }
  }
}
