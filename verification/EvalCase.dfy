/** A small genome evaluated twice, worked out in full: an input, an output that it feeds and that feeds itself, and a
    connection that is switched off (genetic_encoding.cpp:798-879). */
module EvalCases {
  import opened Sequences
  import opened Genomes
  import opened Recurrence
  import opened Evaluation
  import opened NodeValues

  function Looped(f: Func, h: Func, w: real, r: real, off: real): Genome {
    Genome([Conn(0, 0, 1, w, true), Conn(1, 1, 1, r, true), Conn(2, 0, 1, off, false)],
           [Node(0, Input, 0, f, 0.0, 0.0), Node(1, Output, 1, h, 0.0, 0.0)], [0, 1], [[0], [1]], [1])
  }

  lemma LoopedIndexes(f: Func, h: Func, w: real, r: real, off: real)
    ensures IndexesAgree(Looped(f, h, w, r, off))
  {
    var g := Looped(f, h, w, r, off);
    assert g.nodesAtRow[0] == [0] && g.nodesAtRow[1] == [1];
  }

  lemma LoopedIsWellFormed(f: Func, h: Func, w: real, r: real, off: real)
    ensures WellFormed(Looped(f, h, w, r, off)) && PosOf([0, 1], 0) == 0 && PosOf([0, 1], 1) == 1
    ensures NetOf(Looped(f, h, w, r, off)).InputsLead(1)
  {
    LoopedIndexes(f, h, w, r, off);
    PosOfIs([0, 1], 0);
    PosOfIs([0, 1], 1);
  }

  lemma LoopedCarries(f: Func, h: Func, w: real, r: real, off: real, i: nat)
    ensures Carries(Looped(f, h, w, r, off), i, 1) <==> i == 0 || i == 1
  {
  }

  lemma LoopedValues(f: Func, h: Func, w: real, r: real, off: real, p: Process, t: nat)
    requires RunsOn(Looped(f, h, w, r, off), p, t) && |p.ins[t]| == 1
    ensures p.v(t, 0) == p.act(f, p.ins[t][0])
    ensures t == 0 ==> p.v(t, 1) == p.act(h, p.v(t, 0) * w + p.past(1))
    ensures t > 0 ==> p.v(t, 1) == p.act(h, p.v(t, 0) * w + p.v(t - 1, 1))
  {
    var g := Looped(f, h, w, r, off);
    PosOfIs([0, 1], 0);
    PosOfIs([0, 1], 1);
    InputValue(g, p, t, 0);
    forall i: nat ensures Carries(g, i, 1) <==> i == 0 || i == 1 {
      LoopedCarries(f, h, w, r, off, i);
    }
    TwoFeeders(g, p, t, 1, 0, 1);
    assert g.conns[0] == Conn(0, 0, 1, w, true) && g.conns[1] == Conn(1, 1, 1, r, true);
    assert AddedBy(g, p, t, 0) == p.v(t, 0) * w;
  }

  lemma LoopedRuns(act: Activation, f: Func, h: Func, w: real, r: real, off: real, a: real, b: real, p: Process, s: nat, t: nat,
                   outs: seq<seq<real>>)
    requires WellFormed(Looped(f, h, w, r, off)) && p.net == NetOf(Looped(f, h, w, r, off)) && p.Solves()
    requires p.act == act && p.ins == [[a], [b]] && p.past(1) == 0.0 && s == 0 && t == 1
    requires |outs| == 2 && Answers(p, s, [1], outs[s]) && Answers(p, t, [1], outs[t])
    ensures var first := act(h, act(f, a) * w);
      outs == [[first], [act(h, act(f, b) * w + first)]]
  {
    LoopedValues(f, h, w, r, off, p, s);
    LoopedValues(f, h, w, r, off, p, t);
    SameProduct(p.v(s, 0), act(f, a), w);
    SameProduct(p.v(t, 0), act(f, b), w);
    SameAct(act, h, p.v(s, 0) * w + p.past(1), act(f, a) * w);
    SameAct(act, h, p.v(t, 0) * w + p.v(t - 1, 1), act(f, b) * w + p.v(s, 1));
    assert outs[s] == [p.v(s, 1)] && outs[t] == [p.v(t, 1)];
  }

  lemma SameAct(act: Activation, h: Func, x: real, y: real)
    requires x == y
    ensures act(h, x) == act(h, y)
  {
  }

  /** Whatever the node functions, the weights and the inputs: the connection forward carries the input's value times the
      weight, the loop carries the previous output without its weight, and the third connection carries nothing. */
  method EvalLooped(act: Activation, f: Func, h: Func, w: real, r: real, off: real, a: real, b: real) returns (outs: seq<seq<real>>)
    ensures var first := act(h, act(f, a) * w);
      outs == [[first], [act(h, act(f, b) * w + first)]]
  {
    var g := Looped(f, h, w, r, off);
    var e := new Encoding(g);
    LoopedIsWellFormed(f, h, w, r, off);
    ghost var p := SolutionExists(act, NetOf(g), (n: nat) => 0.0, [[a], [b]]);
    outs := EvalAll(e, p, act, [[a], [b]]);
    LoopedRuns(act, f, h, w, r, off, a, b, p, 0, 1, outs);
  }
}
