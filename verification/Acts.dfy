/** What a population does to its numbering, as acts on the registry (NEAT.cpp, `obtain_innovation`,
    `obtain_historical_node` and `obtain_row`). */
module Acts {
  import opened Registries

  datatype Act = Number(p: Pair) | Name(p: Pair) | Place(p: Pair)

  /** A splitting node is placed only once it is numbered and the nodes of its pair have rows. */
  ghost predicate Can(reg: Registry, a: Act) {
    RegistryOk(reg) && (a.Place? ==> a.p in reg.nodes && a.p.0 in reg.rowOf && a.p.1 in reg.rowOf)
  }

  ghost function After(reg: Registry, a: Act): Registry
    requires Can(reg, a)
  {
    match a
    case Number(p) => Innovate(reg, p).0
    case Name(p) => NodeFor(reg, p).0
    case Place(p) => RowFor(reg, p).0
  }

  /** After any sequence of acts; one that cannot happen is none. */
  ghost function AfterAll(reg: Registry, acts: seq<Act>): Registry {
    if acts == [] then reg else
      var m := AfterAll(reg, acts[..|acts| - 1]);
      if Can(m, acts[|acts| - 1]) then After(m, acts[|acts| - 1]) else m
  }

  lemma AfterSnoc(reg: Registry, acts: seq<Act>, a: Act)
    requires Can(AfterAll(reg, acts), a)
    ensures AfterAll(reg, acts + [a]) == After(AfterAll(reg, acts), a)
  {
    assert (acts + [a])[..|acts|] == acts;
  }

  /** Some pair that had no number before has number `k`. */
  ghost predicate Given(before: map<Pair, nat>, after: map<Pair, nat>, k: nat) {
    exists p :: p in after && p !in before && after[p] == k
  }

  /** Every number from `from` to `to` is given to some pair that had none before. */
  ghost predicate GivesAll(before: map<Pair, nat>, after: map<Pair, nat>, from: nat, to: nat) {
    && from <= to && (forall p :: p in before ==> p in after && after[p] == before[p])
    && (forall k: nat :: from <= k < to ==> Given(before, after, k))
    && forall p :: p in after && p !in before ==> from <= after[p] < to
  }

  lemma GivesOneMore(before: map<Pair, nat>, after: map<Pair, nat>, from: nat, to: nat, q: Pair)
    requires GivesAll(before, after, from, to) && q !in after
    ensures GivesAll(before, after[q := to], from, to + 1)
  {
    var more := after[q := to];
    forall k: nat | from <= k < to + 1 ensures Given(before, more, k) {
      if k < to {
        assert Given(before, after, k);
        var p :| p in after && p !in before && after[p] == k;
        assert more[p] == k;
      } else {
        assert more[q] == k;
      }
    }
  }

  /** Whatever a population does, innovations and nodes are numbered without gaps from where it started. */
  lemma {:induction false} NumbersHaveNoGaps(reg: Registry, acts: seq<Act>)
    ensures var now := AfterAll(reg, acts);
      && GivesAll(reg.innovations, now.innovations, reg.lastInnovation, now.lastInnovation)
      && GivesAll(reg.nodes, now.nodes, reg.nextNode, now.nextNode)
  {
    if acts != [] {
      var front, a := acts[..|acts| - 1], acts[|acts| - 1];
      var m := AfterAll(reg, front);
      NumbersHaveNoGaps(reg, front);
      if Can(m, a) && a.Number? && a.p !in m.innovations {
        GivesOneMore(reg.innovations, m.innovations, reg.lastInnovation, m.lastInnovation, a.p);
      }
      if Can(m, a) && a.Name? && a.p !in m.nodes {
        GivesOneMore(reg.nodes, m.nodes, reg.nextNode, m.nextNode, a.p);
      }
    }
  }
}
