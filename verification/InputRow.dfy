/** The row of the inputs over whole runs: whatever a population does to its numbering is a sequence of acts, and the
    inputs are alone in the first row exactly as long as no act displaces them (NEAT.cpp). */
module InputRows {
  import opened Sequences
  import opened Genomes
  import opened RowOrder
  import opened Registries
  import opened Acts
  import opened Seeds
  import opened Populations
  import opened Runs
  import opened Evaluation

  /** The inputs have rows, and splitting nodes have higher numbers. */
  ghost predicate InputsPlaced(reg: Registry, k: nat) {
    && (forall n: nat :: n < k ==> n in reg.rowOf)
    && k <= reg.nextNode && forall p :: p in reg.nodes ==> reg.nodes[p] >= k
  }

  lemma AfterIsOk(reg: Registry, a: Act, k: nat)
    requires Can(reg, a) && InputsPlaced(reg, k)
    ensures RegistryOk(After(reg, a)) && Extends(reg, After(reg, a)) && InputsPlaced(After(reg, a), k)
  {
    match a
    case Number(p) => InnovateExtends(reg, p);
    case Name(p) => NodeForExtends(reg, p);
    case Place(p) => RowForIsOk(reg, p);
  }

  /** The node that splits a connection into an input, from another input or from the second row, is placed for the
      first time. */
  ghost predicate Displaces(reg: Registry, a: Act, k: nat) {
    && Can(reg, a) && a.Place? && reg.nodes[a.p] !in reg.rowOf
    && a.p.1 < k && (a.p.0 < k || (reg.rowOf[a.p.0] in reg.rows.order && PosOf(reg.rows.order, reg.rowOf[a.p.0]) == 1))
  }

  lemma PlacedAgain(reg: Registry, p: Pair)
    requires Can(reg, Place(p)) && reg.nodes[p] in reg.rowOf
    ensures After(reg, Place(p)).rowOf == reg.rowOf && After(reg, Place(p)).rows.order == reg.rows.order
  {
    RowForAgain(reg, p);
    assert SplitOk(reg, p);
  }

  lemma ActKeepsFirst(reg: Registry, a: Act, k: nat)
    requires Can(reg, a) && InputsPlaced(reg, k) && InputsFirst(reg, k)
    ensures InputsFirst(After(reg, a), k) <==> !Displaces(reg, a, k)
  {
    if a.Place? {
      if reg.nodes[a.p] in reg.rowOf {
        PlacedAgain(reg, a.p);
      } else {
        SplitKeepsInputsFirst(reg, a.p, k);
      }
    }
  }

  lemma FrontAfter(reg: Registry, a: Act)
    requires Can(reg, a) && reg.rows.order != []
    ensures var order := After(reg, a).rows.order;
      order != [] && (order[0] == reg.rows.order[0] || order[0] == reg.rows.last)
  {
  }

  lemma OnceDisplaced(reg: Registry, a: Act, k: nat)
    requires Can(reg, a) && InputsPlaced(reg, k) && k > 0 && !InputsFirst(reg, k)
    ensures !InputsFirst(After(reg, a), k)
  {
    var next := After(reg, a);
    AfterIsOk(reg, a, k);
    assert 0 in reg.rowOf && reg.rowOf[0] < reg.rows.last;
    FrontAfter(reg, a);
    var n :| n in reg.rowOf && !(reg.rowOf[n] == reg.rows.order[0] <==> n < k);
    assert next.rowOf[n] == reg.rowOf[n] && next.rowOf[0] == reg.rowOf[0];
    if next.rows.order[0] == reg.rows.order[0] {
      assert !(next.rowOf[n] == next.rows.order[0] <==> n < k);
    } else {
      assert !(next.rowOf[0] == next.rows.order[0] <==> 0 < k);
    }
  }

  lemma {:induction false} AllActsAreOk(reg: Registry, acts: seq<Act>, k: nat)
    requires RegistryOk(reg) && InputsPlaced(reg, k)
    ensures RegistryOk(AfterAll(reg, acts)) && InputsPlaced(AfterAll(reg, acts), k)
  {
    if acts != [] {
      var front, a := acts[..|acts| - 1], acts[|acts| - 1];
      AllActsAreOk(reg, front, k);
      if Can(AfterAll(reg, front), a) {
        AfterIsOk(AfterAll(reg, front), a, k);
      }
    }
  }

  ghost predicate NoneDisplaces(reg: Registry, acts: seq<Act>, k: nat) {
    forall i :: 0 <= i < |acts| ==> !Displaces(AfterAll(reg, acts[..i]), acts[i], k)
  }

  lemma NoneSnoc(reg: Registry, acts: seq<Act>, k: nat)
    requires acts != []
    ensures var n := |acts| - 1;
      NoneDisplaces(reg, acts, k) <==> NoneDisplaces(reg, acts[..n], k) && !Displaces(AfterAll(reg, acts[..n]), acts[n], k)
  {
    var n := |acts| - 1;
    forall i | 0 <= i < n ensures acts[..n][..i] == acts[..i] && acts[..n][i] == acts[i] {
    }
    if NoneDisplaces(reg, acts[..n], k) && !Displaces(AfterAll(reg, acts[..n]), acts[n], k) {
      forall i | 0 <= i < |acts| ensures !Displaces(AfterAll(reg, acts[..i]), acts[i], k) {
        assert i < n ==> !Displaces(AfterAll(reg, acts[..n][..i]), acts[..n][i], k);
      }
    }
    if NoneDisplaces(reg, acts, k) {
      forall i | 0 <= i < n ensures !Displaces(AfterAll(reg, acts[..n][..i]), acts[..n][i], k) {
        assert !Displaces(AfterAll(reg, acts[..i]), acts[i], k);
      }
    }
  }

  /** After any sequence of acts the inputs are alone in the first row if and only if no act displaced them. */
  lemma {:induction false} InputsFirstIff(reg: Registry, acts: seq<Act>, k: nat)
    requires RegistryOk(reg) && InputsPlaced(reg, k) && k > 0 && InputsFirst(reg, k)
    ensures InputsFirst(AfterAll(reg, acts), k) <==> NoneDisplaces(reg, acts, k)
  {
    if acts != [] {
      var front, a := acts[..|acts| - 1], acts[|acts| - 1];
      var m := AfterAll(reg, front);
      InputsFirstIff(reg, front, k);
      AllActsAreOk(reg, front, k);
      NoneSnoc(reg, acts, k);
      if Can(m, a) {
        if InputsFirst(m, k) {
          ActKeepsFirst(m, a, k);
        } else {
          OnceDisplaced(m, a, k);
        }
      }
    }
  }

  /** The nodes of the seed's first row are exactly the first `k`. */
  ghost predicate SeedInputsFirst(seed: Genome, k: nat) {
    0 < k <= |seed.nodes| && forall n :: HasNode(seed, n) ==>
      seed.rowOrder != [] && (seed.nodes[n].row == seed.rowOrder[0] <==> n < k)
  }

  lemma SeedPlacesInputs(seed: Genome, reg: Registry, k: nat)
    requires IsSeed(seed) && SeedInputsFirst(seed, k) && FromSeed(seed, reg)
    ensures InputsPlaced(reg, k) && InputsFirst(reg, k)
  {
    assert forall n: nat :: n < |seed.nodes| ==> HasNode(seed, n);
  }

  /** A whole run from a seed whose inputs are alone in the first row: they still are at the end if and only if none of the
      acts of the run displaced them, and then every genome made can be evaluated. */
  method RunWithInputs(seed: Genome, steps: seq<Step>, ghost k: nat) returns (p: Population, r: seq<Genome>, ghost h: History)
    requires IsSeed(seed) && NoPairTwice(seed) && SeedInputsFirst(seed, k)
    ensures fresh(p) && p.Valid() && AllFit(p.Reg(), r) && |r| > 0 && r[0] == seed
    ensures FromSeed(seed, p.start) && h.Leads(steps, p.start, [seed], p.Reg(), r)
    ensures InputsFirst(p.Reg(), k) <==> NoneDisplaces(p.start, p.log, k)
    ensures NoneDisplaces(p.start, p.log, k) ==> forall i :: 0 <= i < |r| ==> WellFormed(r[i]) && NetOf(r[i]).InputsLead(k)
  {
    p, r, h := RunFromSeed(seed, steps, k);
    SeedPlacesInputs(seed, p.start, k);
    InputsFirstIff(p.start, p.log, k);
  }

  // ---------- a run that displaces the inputs ----------

  /** With two inputs it can happen at any time: a connection from one to the other is split and its node placed. */
  lemma CanBeDisplaced(reg: Registry, k: nat)
    requires RegistryOk(reg) && InputsPlaced(reg, k) && k >= 2 && InputsFirst(reg, k) && (0, 1) !in reg.nodes
    ensures var a, b := Name((0, 1)), Place((0, 1));
      Can(reg, a) && Can(After(reg, a), b) && Displaces(After(reg, a), b, k) && !InputsFirst(After(After(reg, a), b), k)
  {
    var a, b := Name((0, 1)), Place((0, 1));
    AfterIsOk(reg, a, k);
    ActKeepsFirst(reg, a, k);
    ActKeepsFirst(After(reg, a), b, k);
  }

  /** The only enabled connection of the seed is `c`, and it joins two of its first `k` nodes or one of them to itself. */
  predicate OnlyJoinsInputs(seed: Genome, c: nat, k: nat) {
    && HasConn(seed, c) && seed.conns[c].enable && seed.conns[c].src < k && seed.conns[c].dst < k
    && forall i: nat :: i < |seed.conns| && i != c && HasConn(seed, i) ==> !seed.conns[i].enable
  }

  /** A node placed on a pair of one row is in that row. */
  lemma PlacedOnOneRow(was: Registry, now: Registry, p: Pair, k: nat)
    requires PlacesSplit(was, now, p) && Recorded(was.rows.history, now.nodes[p]) < 0 && now.nodes[p] >= k
    requires InputsFirst(was, k) && p.0 < k && p.1 < k
    ensures !InputsFirst(now, k)
  {
    assert now.rowOf[now.nodes[p]] == was.rows.order[0] == now.rows.order[0];
  }

  lemma SeedPlacesAll(seed: Genome, reg: Registry)
    requires IsSeed(seed) && FromSeed(seed, reg)
    ensures InputsPlaced(reg, |seed.nodes|)
  {
    assert forall n: nat :: n < |seed.nodes| ==> HasNode(seed, n);
  }

  /** Whatever is drawn, the mutation of such a seed puts a node that is no input into the row of the inputs. */
  lemma SplitDisplaces(seed: Genome, c: nat, k: nat, was: Registry, step: Step, now: Registry, r: seq<Genome>)
    requires IsSeed(seed) && SeedInputsFirst(seed, k) && FromSeed(seed, was) && OnlyJoinsInputs(seed, c, k)
    requires RegistryOk(now) && InputsPlaced(now, |seed.nodes|)
    requires step.SplitStep? && step.i == 0 && Follows(was, [seed], step, now, r)
    ensures |r| == 2 && !InputsFirst(now, k)
  {
    SeedPlacesInputs(seed, was, k);
    assert HasConn(seed, c) && [seed][0] == seed;
    var i :| SplitsOff(was, now, seed, i, step.fn, r[1]);
    assert i == c;
    PlacedOnOneRow(was, now, PairAt(seed, c), k);
  }

  /** The failure is reached: a run of one mutation from any such seed. */
  method DisplacingRun(seed: Genome, c: nat, draw: nat, fn: Func, ghost k: nat) returns (p: Population, r: seq<Genome>)
    requires IsSeed(seed) && NoPairTwice(seed) && SeedInputsFirst(seed, k) && OnlyJoinsInputs(seed, c, k)
    ensures fresh(p) && p.Valid() && FromSeed(seed, p.start) && |r| == 2 && r[0] == seed && Fits(p.Reg(), r[1])
    ensures exists i :: SplitsOff(p.start, p.Reg(), seed, i, fn, r[1])
    ensures !InputsFirst(p.Reg(), k)
  {
    var step := SplitStep(0, draw, fn);
    ghost var h;
    p, r, h := RunFromSeed(seed, [step], k);
    assert h.StepAt([step], 0);
    SeedPlacesAll(seed, p.start);
    AllActsAreOk(p.start, p.log, |seed.nodes|);
    SplitDisplaces(seed, c, k, p.start, step, p.Reg(), r);
  }

  /** Two inputs in one row, and an enabled connection from one to the other. */
  function TwoInputs(): Genome {
    Genome([Conn(0, 0, 1, 1.0, true)],
           [Node(0, Input, 0, Identity, 0.0, 0.0), Node(1, Input, 0, Identity, 0.0, 0.0)], [0], [[0, 1]], [])
  }

  lemma TwoInputsAgree()
    ensures IndexesAgree(TwoInputs())
  {
    assert TwoInputs().nodesAtRow[0] == [0, 1];
  }

  lemma TwoInputsCanStart()
    ensures IsSeed(TwoInputs()) && NoPairTwice(TwoInputs()) && SeedInputsFirst(TwoInputs(), 2) && OnlyJoinsInputs(TwoInputs(), 0, 2)
  {
    TwoInputsAgree();
  }
}
