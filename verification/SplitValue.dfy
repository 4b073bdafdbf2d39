/** What the two structural mutations do to a genome, gene by gene, and that splitting a forward connection with a node that
    passes its input on leaves the behaviour of the network as it was (NEAT.cpp:202-246 and 137-199). */
module SplitValues {
  import opened Sequences
  import opened Genomes
  import opened RowOrder
  import opened Registries
  import opened Mutations
  import opened Populations
  import opened Recurrence
  import opened Evaluation
  import opened NodeValues
  import opened Runs

  // ---------- gene by gene ----------

  /** Every old connection but `k` is as it was, and every old node. */
  ghost predicate KeepsGenes(g: Genome, h: Genome, k: int) {
    && (forall j :: HasConn(g, j) && j != k ==> HasConn(h, j) && h.conns[j] == g.conns[j])
    && forall m :: HasNode(g, m) ==> HasNode(h, m) && h.nodes[m] == g.nodes[m]
  }

  /** `h` is `g` with connection `k` switched off and a new node `n` between its ends: connection `a` leads to it with weight
      one, connection `b` on with the weight of the old one, both switched on. Nothing else is new. */
  ghost predicate SplitInTwo(g: Genome, h: Genome, k: nat, n: nat, fn: Func, a: nat, b: nat) {
    && HasConn(g, k) && g.conns[k].enable && HasConn(h, k) && h.conns[k] == g.conns[k].(enable := false)
    && !HasNode(g, n) && HasNode(h, n) && h.nodes[n].kind == Hidden && h.nodes[n].fn == fn
    && h.nodes[n].value == 0.0 && h.nodes[n].past == 0.0
    && !HasConn(g, a) && !HasConn(g, b) && a != b && |g.conns| <= |h.conns|
    && HasConn(h, a) && h.conns[a] == Conn(a, g.conns[k].src, n, 1.0, true)
    && HasConn(h, b) && h.conns[b] == Conn(b, n, g.conns[k].dst, g.conns[k].weight, true)
    && KeepsGenes(g, h, k)
    && (forall j :: HasConn(h, j) ==> HasConn(g, j) || j == a || j == b)
    && forall m :: HasNode(h, m) ==> HasNode(g, m) || m == n
  }

  /** The child of a split, gene by gene. */
  lemma SplitSays(was: Registry, now: Registry, g: Genome, k: nat, fn: Func, child: Genome) returns (n: nat, a: nat, b: nat)
    requires RegistryOk(now) && Fits(now, g) && SplitsOff(was, now, g, k, fn, child)
    ensures SplitInTwo(g, child, k, n, fn, a, b) && child.rowOrder == now.rows.order
    ensures (g.conns[k].src, g.conns[k].dst) in now.nodes && n == now.nodes[(g.conns[k].src, g.conns[k].dst)]
  {
    var c := g.conns[k];
    n := SplittingNode(now, g, k);
    a, b := SlotOf(now, c.src, n), SlotOf(now, n, c.dst);
    SplitFits(now, g, k, fn);
    var placed := SplitNode(now, g, k, fn);
    assert forall j :: HasConn(placed, j) <==> HasConn(g, j);
    assert forall m :: HasNode(placed, m) <==> HasNode(g, m) || m == n;
  }

  /** `h` is `g` with one more connection, switched on, from `i` to `j`. */
  ghost predicate OneJoined(g: Genome, h: Genome, i: nat, j: nat, weight: real, a: nat) {
    && !HasConn(g, a) && HasConn(h, a) && h.conns[a] == Conn(a, i, j, weight, true)
    && KeepsGenes(g, h, a) && h == g.(conns := h.conns) && forall k :: HasConn(h, k) ==> HasConn(g, k) || k == a
  }

  /** The child of a join, gene by gene. */
  lemma JoinSays(reg: Registry, g: Genome, i: nat, j: nat, weight: real, child: Genome) returns (a: nat)
    requires RegistryOk(reg) && Fits(reg, g) && IsJoin(reg, g, i, j, weight, child)
    ensures OneJoined(g, child, i, j, weight, a) && i != j && HasNode(g, i) && HasNode(g, j)
    ensures forall k :: HasConn(g, k) ==> (g.conns[k].src, g.conns[k].dst) != (i, j)
  {
    a := SlotOf(reg, i, j);
    JoinedIfOccupied(reg, g, i, j);
  }

  // ---------- the values ----------

  /** The old nodes stand in the same order, and the new one strictly between the ends of the split connection. */
  ghost predicate StandsBetween(g: Genome, h: Genome, k: nat, n: nat)
    requires WellFormed(g) && WellFormed(h) && HasConn(g, k) && HasNode(h, n) && KeepsGenes(g, h, k)
  {
    && (forall m, o :: HasNode(g, m) && HasNode(g, o) ==> (PlaceOf(h, m) < PlaceOf(h, o) <==> PlaceOf(g, m) < PlaceOf(g, o)))
    && PlaceOf(h, g.conns[k].src) < PlaceOf(h, n) < PlaceOf(h, g.conns[k].dst)
  }

  lemma SplitStandsBetween(was: Registry, now: Registry, g: Genome, k: nat, fn: Func, child: Genome, n: nat, a: nat, b: nat)
    requires RegistryOk(now) && Fits(now, g) && Fits(now, child) && SplitInTwo(g, child, k, n, fn, a, b)
    requires (g.conns[k].src, g.conns[k].dst) in now.nodes && n == now.nodes[(g.conns[k].src, g.conns[k].dst)]
    requires WellFormed(g) && WellFormed(child) && PlaceOf(g, g.conns[k].src) < PlaceOf(g, g.conns[k].dst)
    ensures StandsBetween(g, child, k, n)
  {
    forall m, o | HasNode(g, m) && HasNode(g, o) ensures PlaceOf(child, m) < PlaceOf(child, o) <==> PlaceOf(g, m) < PlaceOf(g, o) {
      SamePlaces(now, g, child, m, o);
    }
    var p := (g.conns[k].src, g.conns[k].dst);
    assert HasNode(g, p.0) && HasNode(g, p.1);
    SamePlaces(now, g, child, p.0, p.1);
    SplitStaysBetween(now, child, p);
  }

  /** Two nodes stand in the same order in any two genomes that have them. */
  lemma SamePlaces(reg: Registry, g: Genome, h: Genome, m: nat, o: nat)
    requires RegistryOk(reg) && Fits(reg, g) && Fits(reg, h) && HasNode(g, m) && HasNode(g, o) && HasNode(h, m) && HasNode(h, o)
    ensures WellFormed(g) && WellFormed(h) && (PlaceOf(h, m) < PlaceOf(h, o) <==> PlaceOf(g, m) < PlaceOf(g, o))
  {
    FittingIsWellFormed(reg, g);
    FittingIsWellFormed(reg, h);
    SameNodeSameRow(reg, g, h, m);
    SameNodeSameRow(reg, g, h, o);
    var a, b := g.nodes[m].row, g.nodes[o].row;
    KeepsOrderOf(g.rowOrder, reg.rows.order, |g.rowOrder|, a, b);
    KeepsOrderOf(h.rowOrder, reg.rows.order, |h.rowOrder|, a, b);
    BeforeIsPos(g.rowOrder, a, b);
    BeforeIsPos(h.rowOrder, a, b);
  }

  /** What slot `j` adds to node `m`. */
  ghost function Share(g: Genome, p: Process, t: nat, m: nat, j: nat): real
    requires WellFormed(g)
  {
    if Carries(g, j, m) then AddedBy(g, p, t, j) else 0.0
  }

  /** Two networks whose slots add the same to a node, but for what slot `k` adds in the one and slot `b` in the other, come
      to the same sum. */
  lemma {:induction false} SumsMeet(g: Genome, p: Process, h: Genome, q: Process, t: nat, m: nat, xs: seq<real>, ys: seq<real>,
                                    k: nat, b: nat, x: real, i: nat)
    requires WellFormed(g) && WellFormed(h) && AddsUp(g, p, t, m, xs) && AddsUp(h, q, t, m, ys)
    requires k < |g.conns| <= |h.conns| && b < |h.conns| && k != b && i <= |h.conns|
    requires Share(g, p, t, m, k) == x && Share(h, q, t, m, k) == 0.0 && Share(g, p, t, m, b) == 0.0 && Share(h, q, t, m, b) == x
    requires forall j: nat :: j < i && j != k && j != b ==> Share(h, q, t, m, j) == Share(g, p, t, m, j)
    ensures ys[i] - xs[if i <= |g.conns| then i else |g.conns|] == (if b < i then x else 0.0) - if k < i then x else 0.0
  {
    if i > 0 {
      var j: nat := i - 1;
      SumsMeet(g, p, h, q, t, m, xs, ys, k, b, x, j);
      assert ys[i] == ys[j] + Share(h, q, t, m, j);
      if i <= |g.conns| {
        assert xs[i] == xs[j] + Share(g, p, t, m, j);
      }
    }
  }

  /** A genome, its child with connection `k` split by node `n`, and runs of both on the same inputs from equal pasts. The
      function of the new node passes its input on. */
  datatype Splitting = Splitting(g: Genome, h: Genome, k: nat, n: nat, fn: Func, a: nat, b: nat, p: Process, q: Process) {
    ghost predicate Valid() {
      && WellFormed(g) && WellFormed(h) && SplitInTwo(g, h, k, n, fn, a, b) && StandsBetween(g, h, k, n)
      && p.net == NetOf(g) && q.net == NetOf(h) && p.Solves() && q.Solves() && p.act == q.act && p.ins == q.ins
      && (forall x: real :: p.act(fn, x) == x) && (forall m :: HasNode(g, m) ==> q.past(m) == p.past(m))
      && forall v :: v in p.ins ==> NetOf(g).InputsLead(|v|)
    }

    /** A node has the same value in both. */
    ghost predicate Same(t: nat, m: nat) {
      q.v(t, m) == p.v(t, m)
    }
  }

  lemma NewIsNoInput(s: Splitting, t: nat)
    requires s.Valid() && t < |s.p.ins|
    ensures s.n >= |s.p.ins[t]|
  {
    assert s.p.ins[t] in s.p.ins;
    assert s.n !in NetOf(s.g).cells;
  }

  lemma OnlyFirstHalf(s: Splitting, i: nat)
    requires s.Valid()
    ensures Carries(s.h, i, s.n) <==> i == s.a
  {
    if HasConn(s.g, i) {
      assert HasNode(s.g, s.g.conns[i].dst);
    }
    assert HasNode(s.g, s.g.conns[s.k].dst);
  }

  /** The new node has the value of the source of the split connection. */
  lemma NewNodeValue(s: Splitting, t: nat)
    requires s.Valid() && t < |s.p.ins|
    ensures s.q.v(t, s.n) == s.q.v(t, s.g.conns[s.k].src)
  {
    NewIsNoInput(s, t);
    forall i: nat ensures Carries(s.h, i, s.n) <==> i == s.a {
      OnlyFirstHalf(s, i);
    }
    OneFeeder(s.h, s.q, t, s.n, s.a);
  }

  lemma OldCarries(s: Splitting, m: nat, j: nat)
    requires s.Valid() && HasNode(s.g, m) && j != s.k && j != s.b
    ensures Carries(s.h, j, m) <==> Carries(s.g, j, m)
    ensures Carries(s.g, j, m) ==> HasConn(s.h, j) && s.h.conns[j] == s.g.conns[j] && HasNode(s.g, s.g.conns[j].src)
  {
  }

  /** A connection adds the same to its target in two networks that agree on what it reads. */
  lemma AddsAlike(g: Genome, p: Process, h: Genome, q: Process, t: nat, i: nat, j: nat, forward: bool)
    requires WellFormed(g) && WellFormed(h) && HasConn(g, i) && HasConn(h, j) && g.conns[i].weight == h.conns[j].weight
    requires forward == (PlaceOf(g, g.conns[i].src) < PlaceOf(g, g.conns[i].dst)) == (PlaceOf(h, h.conns[j].src) < PlaceOf(h, h.conns[j].dst))
    requires forward ==> q.v(t, h.conns[j].src) == p.v(t, g.conns[i].src)
    requires !forward ==> q.Previous(t, h.conns[j].src) == p.Previous(t, g.conns[i].src)
    ensures AddedBy(h, q, t, j) == AddedBy(g, p, t, i)
  {
    if forward {
      SameProduct(q.v(t, h.conns[j].src), p.v(t, g.conns[i].src), g.conns[i].weight);
    }
  }

  lemma EndsExist(g: Genome, k: nat)
    requires WellFormed(g) && HasConn(g, k)
    ensures HasNode(g, g.conns[k].src) && HasNode(g, g.conns[k].dst)
  {
  }

  /** An old slot, or the first of the new ones, adds the same to an old node, if the values it reads are the same. */
  lemma OldShare(s: Splitting, t: nat, m: nat, j: nat)
    requires s.Valid() && t < |s.p.ins| && HasNode(s.g, m) && j != s.k && j != s.b
    requires Carries(s.g, j, m) ==> var src := s.g.conns[j].src;
      HasNode(s.g, src) && if PlaceOf(s.g, src) < PlaceOf(s.g, m) then s.Same(t, src) else s.q.Previous(t, src) == s.p.Previous(t, src)
    ensures Share(s.h, s.q, t, m, j) == Share(s.g, s.p, t, m, j)
  {
    OldCarries(s, m, j);
    if Carries(s.g, j, m) {
      AddsAlike(s.g, s.p, s.h, s.q, t, j, j, PlaceOf(s.g, s.g.conns[j].src) < PlaceOf(s.g, m));
    }
  }

  lemma HalvesCarry(s: Splitting, m: nat)
    requires s.Valid() && HasNode(s.g, m)
    ensures !Carries(s.h, s.k, m) && !Carries(s.g, s.b, m)
    ensures Carries(s.g, s.k, m) <==> m == s.g.conns[s.k].dst
    ensures Carries(s.h, s.b, m) <==> m == s.g.conns[s.k].dst
  {
  }

  /** The old connection adds to its target what the second half adds now. */
  lemma SplitShare(s: Splitting, t: nat, m: nat) returns (x: real)
    requires s.Valid() && t < |s.p.ins| && HasNode(s.g, m)
    requires m == s.g.conns[s.k].dst ==> s.Same(t, s.g.conns[s.k].src)
    ensures Share(s.g, s.p, t, m, s.k) == x == Share(s.h, s.q, t, m, s.b)
    ensures Share(s.h, s.q, t, m, s.k) == 0.0 == Share(s.g, s.p, t, m, s.b)
  {
    x := Share(s.g, s.p, t, m, s.k);
    HalvesCarry(s, m);
    if m == s.g.conns[s.k].dst {
      NewNodeValue(s, t);
      EndsExist(s.g, s.k);
      EndsExist(s.h, s.b);
      AddsAlike(s.g, s.p, s.h, s.q, t, s.k, s.b, true);
    }
  }

  lemma SplitForward(s: Splitting)
    requires s.Valid()
    ensures HasNode(s.g, s.g.conns[s.k].src) && HasNode(s.g, s.g.conns[s.k].dst)
    ensures PlaceOf(s.g, s.g.conns[s.k].src) < PlaceOf(s.g, s.g.conns[s.k].dst)
  {
    EndsExist(s.g, s.k);
  }

  /** Up to here in time and, at this time, in all earlier rows, the old nodes have the same values. */
  ghost predicate SameSoFar(s: Splitting, t: nat, m: nat)
    requires s.Valid() && HasNode(s.g, m)
  {
    && (forall o: nat :: HasNode(s.g, o) && PlaceOf(s.g, o) < PlaceOf(s.g, m) ==> s.Same(t, o))
    && forall o: nat :: HasNode(s.g, o) ==> s.q.Previous(t, o) == s.p.Previous(t, o)
  }

  lemma SlotsAgree(s: Splitting, t: nat, m: nat, j: nat)
    requires s.Valid() && t < |s.p.ins| && HasNode(s.g, m) && SameSoFar(s, t, m) && j != s.k && j != s.b
    ensures Share(s.h, s.q, t, m, j) == Share(s.g, s.p, t, m, j)
  {
    if Carries(s.g, j, m) {
      EndsExist(s.g, j);
    }
    OldShare(s, t, m, j);
  }

  lemma SumsAgree(s: Splitting, t: nat, m: nat, xs: seq<real>, ys: seq<real>)
    requires s.Valid() && t < |s.p.ins| && HasNode(s.g, m) && m >= |s.p.ins[t]| && SameSoFar(s, t, m)
    requires AddsUp(s.g, s.p, t, m, xs) && AddsUp(s.h, s.q, t, m, ys)
    ensures ys[|s.h.conns|] == xs[|s.g.conns|]
  {
    forall j: nat | j != s.k && j != s.b ensures Share(s.h, s.q, t, m, j) == Share(s.g, s.p, t, m, j) {
      SlotsAgree(s, t, m, j);
    }
    SplitForward(s);
    var x := SplitShare(s, t, m);
    SumsMeet(s.g, s.p, s.h, s.q, t, m, xs, ys, s.k, s.b, x, |s.h.conns|);
  }

  lemma NodeAgrees(s: Splitting, t: nat, m: nat)
    requires s.Valid() && t < |s.p.ins| && HasNode(s.g, m) && SameSoFar(s, t, m)
    ensures s.Same(t, m)
  {
    if m < |s.p.ins[t]| {
      InputValue(s.g, s.p, t, m);
      InputValue(s.h, s.q, t, m);
    } else {
      var xs := ValueIsSum(s.g, s.p, t, m);
      var ys := ValueIsSum(s.h, s.q, t, m);
      SumsAgree(s, t, m, xs, ys);
    }
  }

  lemma PastsAgree(s: Splitting, o: nat)
    requires s.Valid() && HasNode(s.g, o)
    ensures s.q.past(o) == s.p.past(o)
  {
  }

  lemma {:induction false} PreviousStay(s: Splitting, t: nat)
    requires s.Valid() && t <= |s.p.ins|
    ensures forall o: nat :: HasNode(s.g, o) ==> s.q.Previous(t, o) == s.p.Previous(t, o)
    decreases t, 0
  {
    forall o: nat | HasNode(s.g, o) ensures s.q.Previous(t, o) == s.p.Previous(t, o) {
      if t == 0 {
        PastsAgree(s, o);
      } else {
        ValuesStay(s, t - 1, o);
      }
    }
  }

  lemma {:induction false} ValuesStay(s: Splitting, t: nat, m: nat)
    requires s.Valid() && t < |s.p.ins| && HasNode(s.g, m)
    ensures s.Same(t, m)
    decreases t, PlaceOf(s.g, m) + 1
  {
    PreviousStay(s, t);
    forall o: nat | HasNode(s.g, o) && PlaceOf(s.g, o) < PlaceOf(s.g, m) ensures s.Same(t, o) {
      ValuesStay(s, t, o);
    }
    NodeAgrees(s, t, m);
  }

  /** Splitting a forward connection with a node that passes its input on changes no value: in the child every old node has
      at every time the value it had, on the same inputs and from an equal past. */
  lemma SplitKeepsValues(was: Registry, now: Registry, g: Genome, k: nat, fn: Func, child: Genome, p: Process, q: Process, t: nat, m: nat)
    requires RegistryOk(now) && Fits(now, g) && Fits(now, child) && SplitsOff(was, now, g, k, fn, child)
    requires WellFormed(g) && WellFormed(child) && PlaceOf(g, g.conns[k].src) < PlaceOf(g, g.conns[k].dst)
    requires p.net == NetOf(g) && q.net == NetOf(child) && p.Solves() && q.Solves() && p.act == q.act && p.ins == q.ins
    requires (forall x: real :: p.act(fn, x) == x) && forall n :: HasNode(g, n) ==> q.past(n) == p.past(n)
    requires (forall v :: v in p.ins ==> NetOf(g).InputsLead(|v|)) && t < |p.ins| && HasNode(g, m)
    ensures q.v(t, m) == p.v(t, m)
  {
    var n, a, b := SplitSays(was, now, g, k, fn, child);
    SplitStandsBetween(was, now, g, k, fn, child, n, a, b);
    ValuesStay(Splitting(g, child, k, n, fn, a, b, p, q), t, m);
  }
}
