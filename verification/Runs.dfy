/** Whole runs of a population: what holds after any sequence of mutations and crossovers, in any order, on
    any of the genomes made so far. */
module Runs {
  import opened Options
  import opened Sequences
  import opened Genomes
  import opened RowOrder
  import opened Registries
  import opened Mutations
  import opened Crossovers
  import opened Seeds
  import opened Populations
  import opened Sacks
  import opened Recurrence
  import opened Evaluation
  import Loading

  /** One operation on the genomes numbered `i` and `j`, with its random draws. */
  datatype Step =
    | SplitStep(i: nat, draw: nat, fn: Func)
    | JoinStep(i: nat, draw: nat, weight: real)
    | CrossStep(i: nat, j: nat, draws: Draws)
    | WeightStep(i: nat, weights: nat -> real)

  ghost predicate AllFit(reg: Registry, pool: seq<Genome>) {
    forall i :: 0 <= i < |pool| ==> Fits(reg, pool[i])
  }

  lemma AllStillFit(reg: Registry, reg': Registry, pool: seq<Genome>)
    requires AllFit(reg, pool) && Extends(reg, reg')
    ensures AllFit(reg', pool)
  {
    forall i | 0 <= i < |pool| ensures Fits(reg', pool[i]) {
      StillFits(reg, reg', pool[i]);
    }
  }

  lemma WeightsFit(reg: Registry, g: Genome, h: Genome)
    requires Fits(reg, g) && h == g.(conns := h.conns) && |h.conns| == |g.conns|
    requires forall k :: 0 <= k < |h.conns| ==> (h.conns[k].Conn? <==> g.conns[k].Conn?)
    requires forall k :: HasConn(g, k) ==> h.conns[k] == g.conns[k].(weight := h.conns[k].weight)
    ensures Fits(reg, h)
  {
    assert forall n :: HasNode(h, n) <==> HasNode(g, n);
    assert IndexesAgree(h);
    assert forall k :: HasConn(h, k) <==> HasConn(g, k);
  }

  ghost predicate Reweighted(g: Genome, weights: nat -> real, h: Genome) {
    && h == g.(conns := h.conns) && |h.conns| == |g.conns|
    && forall k :: 0 <= k < |h.conns| ==> h.conns[k] == if g.conns[k].Conn? then g.conns[k].(weight := weights(k)) else NoConn
  }

  /** `put_randoms_weight`. */
  method PutRandomWeights(g: Genome, weights: nat -> real) returns (h: Genome)
    ensures Reweighted(g, weights, h)
  {
    h := g;
    var i := 0;
    while i < |h.conns|
      invariant 0 <= i <= |h.conns| == |g.conns| && h == g.(conns := h.conns)
      invariant forall k :: i <= k < |h.conns| ==> h.conns[k] == g.conns[k]
      invariant forall k :: 0 <= k < i ==> h.conns[k] == if g.conns[k].Conn? then g.conns[k].(weight := weights(k)) else NoConn
    {
      if h.conns[i].Conn? {
        h := h.(conns := h.conns[i := h.conns[i].(weight := weights(i))]);
      }
      i := i + 1;
    }
  }

  /** Nodes, once there, pass to every child. */
  ghost predicate HasUpTo(g: Genome, k: nat) {
    forall n: nat :: n < k ==> HasNode(g, n)
  }

  ghost predicate AllHave(pool: seq<Genome>, k: nat) {
    forall i :: 0 <= i < |pool| ==> HasUpTo(pool[i], k)
  }

  lemma SplitHas(reg: Registry, g: Genome, c: nat, fn: Func, child: Genome, k: nat)
    requires HasUpTo(g, k) && IsSplit(reg, g, c, fn, child)
    ensures HasUpTo(child, k)
  {
    var n := SplittingNode(reg, g, c);
    var h := WithNode(g, Node(n, Hidden, reg.rowOf[n], fn, 0.0, 0.0));
    assert child.nodes == h.nodes;
    assert forall m: nat :: m < k ==> HasNode(h, m);
  }

  lemma JoinHas(reg: Registry, g: Genome, i: nat, j: nat, weight: real, child: Genome, k: nat)
    requires HasUpTo(g, k) && IsJoin(reg, g, i, j, weight, child)
    ensures HasUpTo(child, k)
  {
    forall n: nat | n < k ensures HasNode(child, n) {
      assert HasNode(g, n) && child.nodes == g.nodes;
    }
  }

  // ---------- runs ----------

  /** What a join makes: the genome itself if all its nodes are joined. */
  ghost predicate Joins(now: Registry, g: Genome, weight: real, child: Genome) {
    if forall i: nat, j: nat :: !CanJoin(g, i, j) then child == g else exists i: nat, j: nat :: IsJoin(now, g, i, j, weight, child)
  }

  /** `child` is what the operation makes of the genomes it names, while the numbering goes from `was` to `now`. */
  ghost predicate Makes(was: Registry, pool: seq<Genome>, step: Step, now: Registry, child: Genome) {
    step.i < |pool| && var g := pool[step.i];
    match step
    case SplitStep(_, _, fn) => exists k :: SplitsOff(was, now, g, k, fn, child)
    case JoinStep(_, _, weight) => Joins(now, g, weight, child)
    case CrossStep(_, j, draws) => j < |pool| && Crossed(g, pool[j], draws, child) && child.rowOrder == now.rows.order
    case WeightStep(_, weights) => Reweighted(g, weights, child)
  }

  /** The operation makes no child: it names no genome, or every enabled connection of the one it names is numbered and
      its splitting node is there. */
  ghost predicate MakesNone(pool: seq<Genome>, step: Step, now: Registry) {
    || step.i >= |pool|
    || (step.CrossStep? && step.j >= |pool|)
    || (step.SplitStep? && var g := pool[step.i];
        forall k :: HasConn(g, k) && g.conns[k].enable ==> PairAt(g, k) in now.nodes && HasNode(g, now.nodes[PairAt(g, k)]))
  }

  /** One operation: its child, if it makes one, joins the genomes. */
  ghost predicate Follows(was: Registry, pool: seq<Genome>, step: Step, now: Registry, next: seq<Genome>) {
    if |next| == |pool| then next == pool && MakesNone(pool, step, now)
    else |next| == |pool| + 1 && pool <= next && Makes(was, pool, step, now, next[|pool|])
  }

  /** The numbering and the genomes before each of the operations of a run and at its end. */
  datatype History = History(regs: seq<Registry>, pools: seq<seq<Genome>>) {
    ghost predicate Of(steps: seq<Step>) {
      && |regs| == |pools| == |steps| + 1
      && forall s :: 0 <= s < |steps| ==> StepAt(steps, s)
    }

    ghost predicate StepAt(steps: seq<Step>, s: nat)
      requires |regs| == |pools| == |steps| + 1 && s < |steps|
    {
      Follows(regs[s], pools[s], steps[s], regs[s + 1], pools[s + 1])
    }

    /** The run leads from one numbering and its genomes to another. */
    ghost predicate Leads(steps: seq<Step>, was: Registry, pool: seq<Genome>, now: Registry, r: seq<Genome>) {
      Of(steps) && regs[0] == was && pools[0] == pool && regs[|steps|] == now && pools[|steps|] == r
    }
  }

  lemma HistorySnoc(h: History, steps: seq<Step>, n: nat, was: Registry, pool: seq<Genome>, reg: Registry, r: seq<Genome>,
                    now: Registry, next: seq<Genome>) returns (longer: History)
    requires n < |steps| && h.Leads(steps[..n], was, pool, reg, r) && Follows(reg, r, steps[n], now, next)
    ensures longer.Leads(steps[..n + 1], was, pool, now, next)
  {
    longer := History(h.regs + [now], h.pools + [next]);
    var front, all := steps[..n], steps[..n + 1];
    forall s: nat | s < |all| ensures longer.StepAt(all, s) {
      assert s < n ==> h.StepAt(front, s);
    }
  }

  /** The child of one operation, if one comes out. */
  method Child(p: Population, pool: seq<Genome>, step: Step, ghost k: nat) returns (child: Option<Genome>)
    requires p.Valid() && AllFit(p.Reg(), pool) && AllHave(pool, k)
    modifies p
    ensures p.Valid() && Extends(old(p.Reg()), p.Reg())
    ensures child.Some? ==> Fits(p.Reg(), child.value) && HasUpTo(child.value, k) && Makes(old(p.Reg()), pool, step, p.Reg(), child.value)
    ensures child.None? ==> MakesNone(pool, step, p.Reg())
  {
    child := None;
    if step.i < |pool| {
      var g := pool[step.i];
      assert Fits(p.Reg(), g) && HasUpTo(g, k);
      match step {
        case SplitStep(_, draw, fn) =>
          child := SplitChild(p, g, draw, fn, k);
        case JoinStep(_, draw, weight) =>
          var c := JoinChild(p, g, draw, weight, k);
          child := Some(c);
        case CrossStep(_, j, draws) =>
          if j < |pool| {
            var c := p.Crossover(g, pool[j], draws);
            CrossedHas(g, pool[j], draws, c);
            child := Some(c);
          }
        case WeightStep(_, weights) =>
          var c := PutRandomWeights(g, weights);
          WeightsFit(p.Reg(), g, c);
          child := Some(c);
      }
    }
  }

  method JoinChild(p: Population, g: Genome, draw: nat, weight: real, ghost k: nat) returns (child: Genome)
    requires p.Valid() && Fits(p.Reg(), g) && HasUpTo(g, k)
    modifies p
    ensures p.Valid() && Extends(old(p.Reg()), p.Reg()) && Fits(p.Reg(), child) && HasUpTo(child, k)
    ensures Joins(p.Reg(), g, weight, child)
  {
    child := p.MutationConnection(g, draw, weight);
    if exists i: nat, j: nat :: CanJoin(g, i, j) {
      ghost var i: nat, j: nat :| IsJoin(p.Reg(), g, i, j, weight, child);
      JoinHas(p.Reg(), g, i, j, weight, child, k);
    }
  }

  method SplitChild(p: Population, g: Genome, draw: nat, fn: Func, ghost k: nat) returns (child: Option<Genome>)
    requires p.Valid() && Fits(p.Reg(), g) && HasUpTo(g, k)
    modifies p
    ensures p.Valid() && Extends(old(p.Reg()), p.Reg())
    ensures child.Some? ==>
      Fits(p.Reg(), child.value) && HasUpTo(child.value, k) && exists c :: SplitsOff(old(p.Reg()), p.Reg(), g, c, fn, child.value)
    ensures child.None? ==>
      forall c :: HasConn(g, c) && g.conns[c].enable ==> PairAt(g, c) in p.Reg().nodes && HasNode(g, p.Reg().nodes[PairAt(g, c)])
  {
    child := p.MutationNode(g, draw, fn);
    if child.Some? {
      ghost var c :| SplitsOff(old(p.Reg()), p.Reg(), g, c, fn, child.value);
      SplitHas(p.Reg(), g, c, fn, child.value, k);
    } else {
      forall c | HasConn(g, c) && g.conns[c].enable
        ensures PairAt(g, c) in p.Reg().nodes && HasNode(g, p.Reg().nodes[PairAt(g, c)])
      {
        assert !CanSplit(p.Reg(), g, c);
      }
    }
  }

  lemma ChildFollows(was: Registry, pool: seq<Genome>, step: Step, now: Registry, child: Option<Genome>)
    requires if child.Some? then Makes(was, pool, step, now, child.value) else MakesNone(pool, step, now)
    ensures Follows(was, pool, step, now, if child.Some? then pool + [child.value] else pool)
  {
  }

  lemma PoolGrows(was: Registry, now: Registry, pool: seq<Genome>, child: Option<Genome>, k: nat)
    requires AllFit(was, pool) && Extends(was, now) && AllHave(pool, k)
    requires child.Some? ==> Fits(now, child.value) && HasUpTo(child.value, k)
    ensures var r := if child.Some? then pool + [child.value] else pool; AllFit(now, r) && AllHave(r, k)
  {
    AllStillFit(was, now, pool);
  }

  /** One operation. Its child, if one comes out, joins the genomes. */
  method Take(p: Population, pool: seq<Genome>, step: Step, ghost k: nat) returns (r: seq<Genome>)
    requires p.Valid() && AllFit(p.Reg(), pool) && AllHave(pool, k)
    modifies p
    ensures p.Valid() && Extends(old(p.Reg()), p.Reg())
    ensures AllFit(p.Reg(), r) && AllHave(r, k) && pool <= r && Follows(old(p.Reg()), pool, step, p.Reg(), r)
  {
    ghost var reg := p.Reg();
    var child := Child(p, pool, step, k);
    PoolGrows(reg, p.Reg(), pool, child, k);
    ChildFollows(reg, pool, step, p.Reg(), child);
    r := if child.Some? then pool + [child.value] else pool;
  }

  /** Any sequence of operations. Every genome made on the way fits the registry at the end, the registry only ever
      extends, and each new genome is what its operation makes of the earlier ones. */
  method Run(p: Population, pool: seq<Genome>, steps: seq<Step>, ghost k: nat) returns (r: seq<Genome>, ghost h: History)
    requires p.Valid() && AllFit(p.Reg(), pool) && AllHave(pool, k)
    modifies p
    ensures p.Valid() && Extends(old(p.Reg()), p.Reg())
    ensures AllFit(p.Reg(), r) && AllHave(r, k) && pool <= r
    ensures h.Leads(steps, old(p.Reg()), pool, p.Reg(), r)
  {
    r := pool;
    h := History([p.Reg()], [pool]);
    var i := 0;
    while i < |steps|
      invariant 0 <= i <= |steps|
      invariant p.Valid() && Extends(old(p.Reg()), p.Reg())
      invariant AllFit(p.Reg(), r) && AllHave(r, k) && pool <= r
      invariant h.Leads(steps[..i], old(p.Reg()), pool, p.Reg(), r)
    {
      ghost var reg, last := p.Reg(), r;
      r := Take(p, r, steps[i], k);
      ExtendsIsTransitive(old(p.Reg()), reg, p.Reg());
      h := HistorySnoc(h, steps, i, old(p.Reg()), pool, reg, last, p.Reg(), r);
      i := i + 1;
    }
    assert steps[..i] == steps;
  }

  /** A whole run from a seed that repeats no (in, out) pair, with `k` inputs. As long as the first row is still
      exactly that of the inputs, `eval` can be called on every genome made. */
  method RunFromSeed(seed: Genome, steps: seq<Step>, ghost k: nat) returns (p: Population, r: seq<Genome>, ghost h: History)
    requires IsSeed(seed) && NoPairTwice(seed) && 0 < k <= |seed.nodes|
    ensures fresh(p) && p.Valid() && AllFit(p.Reg(), r) && |r| > 0 && r[0] == seed && FromSeed(seed, p.start)
    ensures h.Leads(steps, p.start, [seed], p.Reg(), r)
    ensures InputsFirst(p.Reg(), k) ==> forall i :: 0 <= i < |r| ==> WellFormed(r[i]) && NetOf(r[i]).InputsLead(k)
  {
    p := Start(seed);
    ghost var first := p.start;
    r, h := Run(p, [seed], steps, k);
    assert p.start == first;
    forall i | InputsFirst(p.Reg(), k) && 0 <= i < |r| ensures WellFormed(r[i]) && NetOf(r[i]).InputsLead(k) {
      FittingIsWellFormed(p.Reg(), r[i]);
      InputsStillLead(p.Reg(), r[i], k);
    }
  }

  /** What `load` makes of any genome that was saved is a seed to start from. */
  lemma LoadedIsSeed(g: Genome, h: Genome, kept: seq<nat>)
    requires WellFormed(g) && Loading.Renumbers(g, h, kept)
    ensures IsSeed(h)
  {
    Loading.RenumberedIsWellFormed(g, h, kept);
    forall r | 0 <= r < |h.nodes| ensures h.nodes[r].Node? {
      var n := Loading.NodeOfRank(g, |g.nodes|, r);
    }
    forall r | 0 <= r < |h.conns| ensures h.conns[r].Conn? {
      var k := Loading.ConnOfRank(g, |g.conns|, r);
    }
  }

  // ---------- the inputs' row ----------

  /** The nodes of the first row are exactly those numbered below `k`. */
  ghost predicate InputsFirst(reg: Registry, k: nat) {
    forall n :: n in reg.rowOf ==> reg.rows.order != [] && (reg.rowOf[n] == reg.rows.order[0] <==> n < k)
  }

  /** What `eval` asks of the inputs holds of every genome of a run while the registry keeps them first. */
  lemma InputsStillLead(reg: Registry, g: Genome, k: nat)
    requires RegistryOk(reg) && Fits(reg, g) && WellFormed(g) && InputsFirst(reg, k) && k > 0 && HasUpTo(g, k)
    ensures NetOf(g).InputsLead(k)
  {
    assert HasNode(g, 0);
    var a := g.nodes[0].row;
    forall n | HasNode(g, n) ensures n < k ==> PlaceOf(g, n) == PlaceOf(g, 0)
      ensures n >= k ==> PlaceOf(g, 0) < PlaceOf(g, n)
    {
      var b := g.nodes[n].row;
      if n >= k {
        BeforeAt(reg.rows.order, 0, PosOf(reg.rows.order, b));
        KeepsOrderOf(g.rowOrder, reg.rows.order, |g.rowOrder|, a, b);
        BeforeIsPos(g.rowOrder, a, b);
      }
    }
    var cells := NetOf(g).cells;
    forall n | 0 <= n < k ensures n in cells && 0 in cells && cells[n].place == cells[0].place {
      assert HasNode(g, n);
    }
    forall n | n in cells && k <= n ensures 0 in cells && cells[0].place < cells[n].place {
      assert HasNode(g, n);
    }
  }

  /** A splitting node placed for the first time leaves the inputs alone in the first row if and only if its
      connection does not lead into an input from another input or from the second row. */
  lemma SplitKeepsInputsFirst(reg: Registry, p: Pair, k: nat)
    requires RegistryOk(reg) && InputsFirst(reg, k) && p in reg.nodes && p.0 in reg.rowOf && p.1 in reg.rowOf
    requires reg.nodes[p] !in reg.rowOf && reg.nodes[p] >= k
    ensures InputsFirst(RowFor(reg, p).0, k) <==>
      !(p.1 < k && (p.0 < k || PosOf(reg.rows.order, reg.rowOf[p.0]) == 1))
  {
    var s, n := reg.rows, reg.nodes[p];
    var (reg', row) := RowFor(reg, p);
    assert Recorded(s.history, n) < 0;
    var i, o := PosOf(s.order, reg.rowOf[p.0]), PosOf(s.order, reg.rowOf[p.1]);
    PosOfIs(s.order, 0);
    assert (i == 0 <==> p.0 < k) && (o == 0 <==> p.1 < k);
    FirstRowStays(s, n, reg.rowOf[p.0], reg.rowOf[p.1]);
    assert reg'.rowOf[n] == row && reg'.rowOf[p.1] == reg.rowOf[p.1];
    assert forall m :: m in reg'.rowOf && m != n ==> m in reg.rowOf && reg'.rowOf[m] == reg.rowOf[m];
  }

  // ---------- historical marking ----------

  /** Between any two genomes of a run: a slot that both use holds the same (in, out) pair, different pairs
      never share a slot, and the pair of a slot joins nodes that exist where the slot is used. */
  lemma HistoricalMarking(reg: Registry, g: Genome, h: Genome, k: nat, l: nat)
    requires RegistryOk(reg) && Fits(reg, g) && Fits(reg, h) && HasConn(g, k) && HasConn(h, l)
    ensures PairAt(g, k) == PairAt(h, l) <==> k == l
    ensures g.conns[k].innovation == k && HasNode(g, g.conns[k].src) && HasNode(g, g.conns[k].dst)
  {
    assert reg.innovations[PairAt(g, k)] == k && reg.innovations[PairAt(h, l)] == l;
  }

  /** A node number stands for the same row in every genome of a run. */
  lemma SameNodeSameRow(reg: Registry, g: Genome, h: Genome, n: nat)
    requires Fits(reg, g) && Fits(reg, h) && HasNode(g, n) && HasNode(h, n)
    ensures g.nodes[n].row == h.nodes[n].row
  {
    assert NodesPlaced(reg, g) && NodesPlaced(reg, h);
  }

  // ---------- row order ----------

  /** In the row list of every genome of a run that has them, the node that splits a pair lies strictly between
      the two if the pair goes forward. */
  lemma SplitStaysBetween(reg: Registry, g: Genome, p: Pair)
    requires RegistryOk(reg) && Fits(reg, g) && p in reg.nodes
    requires HasNode(g, p.0) && HasNode(g, p.1) && HasNode(g, reg.nodes[p])
    requires PlaceOf(g, p.0) < PlaceOf(g, p.1)
    ensures PlaceOf(g, p.0) < PlaceOf(g, reg.nodes[p]) < PlaceOf(g, p.1)
  {
    var n := reg.nodes[p];
    var a, x, b := g.nodes[p.0].row, g.nodes[n].row, g.nodes[p.1].row;
    assert SplitOk(reg, p) && n in reg.rowOf;
    BeforeIsPos(g.rowOrder, a, b);
    KeepsOrderOf(g.rowOrder, reg.rows.order, |g.rowOrder|, a, b);
    KeepsOrderOf(g.rowOrder, reg.rows.order, |g.rowOrder|, a, x);
    KeepsOrderOf(g.rowOrder, reg.rows.order, |g.rowOrder|, x, b);
    BeforeIsPos(g.rowOrder, a, x);
    BeforeIsPos(g.rowOrder, x, b);
  }
}
