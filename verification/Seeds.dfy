/** The numbering that a population takes over from its seed genome (constructor, NEAT.cpp). */
module Seeds {
  import opened Sequences
  import opened Genomes
  import opened RowOrder
  import opened Registries
  import opened Tables

  /** A genome as `load` leaves it: no gaps, outputs in ascending order. */
  ghost predicate IsSeed(g: Genome) {
    && WellFormed(g) && Ascending(g.outputs)
    && (forall k :: 0 <= k < |g.conns| ==> g.conns[k].Conn?)
    && (forall n :: 0 <= n < |g.nodes| ==> g.nodes[n].Node?)
  }

  function PairAt(g: Genome, k: nat): Pair
    requires HasConn(g, k)
  {
    (g.conns[k].src, g.conns[k].dst)
  }

  ghost predicate NoPairTwice(g: Genome) {
    forall j, k :: HasConn(g, j) && HasConn(g, k) && j < k ==> PairAt(g, j) != PairAt(g, k)
  }

  /** Each pair among the first `n` connections has the number of the first connection that carries it. */
  ghost predicate SeedNumbers(g: Genome, m: map<Pair, nat>, n: nat) {
    && n <= |g.conns|
    && (forall p :: p in m ==> m[p] < n && HasConn(g, m[p]) && PairAt(g, m[p]) == p)
    && (forall k :: 0 <= k < n && HasConn(g, k) ==> PairAt(g, k) in m && m[PairAt(g, k)] <= k)
  }

  ghost function SeedRows(g: Genome): map<nat, nat> {
    map n: nat | n < |g.nodes| && g.nodes[n].Node? :: g.nodes[n].row
  }

  ghost function SeedRegistry(g: Genome, m: map<Pair, nat>, next: nat): Registry {
    Registry(m, next, map[], |g.nodes|, Rows(g.rowOrder, [], |g.rowOrder|), SeedRows(g))
  }

  lemma SeedNumbersOn(g: Genome, m: map<Pair, nat>, n: nat)
    requires SeedNumbers(g, m, n) && HasConn(g, n)
    ensures SeedNumbers(g, if PairAt(g, n) in m then m else m[PairAt(g, n) := n], n + 1)
  {
  }

  /** The registering loop of the constructor. */
  method RegisterSeed(seed: Genome) returns (table: seq<seq<int>>, last: nat, ghost m: map<Pair, nat>)
    requires IsSeed(seed)
    ensures Holds(table, m) && SeedNumbers(seed, m, |seed.conns|)
    ensures forall p :: p in m ==> m[p] < last
    ensures if m == map[] then last == 1 else exists p :: p in m && m[p] + 1 == last
  {
    table, last, m := [], 0, map[];
    var i := 0;
    while i < |seed.conns|
      invariant 0 <= i <= |seed.conns|
      invariant Holds(table, m) && SeedNumbers(seed, m, i)
      invariant forall p :: p in m ==> m[p] <= last
      invariant if m == map[] then last == 0 else exists p :: p in m && m[p] == last
    {
      var c := seed.conns[i];
      SeedNumbersOn(seed, m, i);
      var k, isNew;
      assert c.innovation == i by { assert HasConn(seed, i); }
      table, k, isNew := NumberOf(table, c.src, c.dst, c.innovation, m);
      if isNew {
        m := m[(c.src, c.dst) := i];
        last := if last < c.innovation then c.innovation else last;
      }
      i := i + 1;
    }
    last := last + 1;
  }

  /** If no pair occurs twice, the next number is the number of connections. */
  lemma NextNumber(g: Genome, m: map<Pair, nat>, last: nat)
    requires IsSeed(g) && SeedNumbers(g, m, |g.conns|)
    requires if m == map[] then last == 1 else exists p :: p in m && m[p] + 1 == last
    requires forall p :: p in m ==> m[p] < last
    ensures NoPairTwice(g) && |g.conns| > 0 ==> last == |g.conns|
  {
    if NoPairTwice(g) && |g.conns| > 0 {
      var k: nat := |g.conns| - 1;
      assert HasConn(g, k);
      var p := PairAt(g, k);
      assert p in m && HasConn(g, m[p]) && PairAt(g, m[p]) == p;
      assert m[p] == k;
    }
  }

  lemma SeedRegistryIsOk(g: Genome, m: map<Pair, nat>, next: nat)
    requires RowsAgree(g) && SeedNumbers(g, m, |g.conns|) && forall p :: p in m ==> m[p] < next
    ensures RegistryOk(SeedRegistry(g, m, next))
  {
    var reg := SeedRegistry(g, m, next);
    assert NumbersOk(reg);
    assert forall n :: n in reg.rowOf ==> HasNode(g, n);
    assert RecordsOk(reg);
  }

  lemma SeedConnsAreNumbered(g: Genome, m: map<Pair, nat>, next: nat)
    requires ConnsAgree(g) && SeedNumbers(g, m, |g.conns|)
    ensures ConnsNumbered(SeedRegistry(g, m, next), g) <==> NoPairTwice(g)
  {
    if NoPairTwice(g) {
      forall k | HasConn(g, k) ensures m[PairAt(g, k)] == k {
        assert PairAt(g, k) in m && HasConn(g, m[PairAt(g, k)]);
      }
    } else {
      var j, k :| HasConn(g, j) && HasConn(g, k) && j < k && PairAt(g, j) == PairAt(g, k);
      assert m[PairAt(g, k)] <= j;
    }
  }

  lemma SeedIsRegistered(g: Genome, m: map<Pair, nat>, next: nat)
    requires IsSeed(g) && SeedNumbers(g, m, |g.conns|)
    ensures Fits(SeedRegistry(g, m, next), g) <==> NoPairTwice(g)
  {
    SeedConnsAreNumbered(g, m, next);
    assert NodesPlaced(SeedRegistry(g, m, next), g);
    assert OrderAgrees(SeedRegistry(g, m, next), g.rowOrder);
  }
}
