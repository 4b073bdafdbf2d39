/** The growing tables in which a population records the numbers of (in, out) pairs (NEAT.cpp). */
module Tables {
  import opened Registries

  /** Entry (i, j) of a ragged table in which -1 stands for nothing. */
  function Entry(table: seq<seq<int>>, i: nat, j: nat): int {
    if i < |table| && j < |table[i]| then table[i][j] else -1
  }

  /** The table holds the map `m`. */
  ghost predicate Holds(table: seq<seq<int>>, m: map<Pair, nat>) {
    forall i: nat, j: nat ::
      if (i, j) in m then Entry(table, i, j) == m[(i, j)] else Entry(table, i, j) < 0
  }

  /** The table grown so that entry (i, j) has a place. */
  method Grown(table: seq<seq<int>>, i: nat, j: nat, ghost m: map<Pair, nat>) returns (r: seq<seq<int>>)
    requires Holds(table, m)
    ensures i < |r| && j < |r[i]| && Holds(r, m)
  {
    r := table;
    while |r| - 1 < i
      invariant Holds(r, m)
    {
      var longer := r + [[]];
      assert forall a: nat, b: nat :: Entry(longer, a, b) == Entry(r, a, b);
      r := longer;
    }
    while |r[i]| - 1 < j
      invariant i < |r| && Holds(r, m)
      decreases j - |r[i]|
    {
      var longer := r[i := r[i] + [-1]];
      assert forall a: nat, b: nat :: Entry(longer, a, b) == Entry(r, a, b) || Entry(r, a, b) == Entry(longer, a, b) == -1;
      r := longer;
    }
  }

  lemma HoldsUpdated(table: seq<seq<int>>, m: map<Pair, nat>, i: nat, j: nat, x: nat)
    requires Holds(table, m) && i < |table| && j < |table[i]|
    ensures Holds(table[i := table[i][j := x]], m[(i, j) := x])
  {
    var r := table[i := table[i][j := x]];
    forall a: nat, b: nat
      ensures Entry(r, a, b) == if a == i && b == j then x else Entry(table, a, b)
    {
    }
  }

  /** The number of the pair (i, j): the one the table has, or else `next`, which then goes into the table. */
  method NumberOf(table: seq<seq<int>>, i: nat, j: nat, next: nat, ghost m: map<Pair, nat>)
    returns (r: seq<seq<int>>, k: nat, isNew: bool)
    requires Holds(table, m)
    ensures isNew <==> (i, j) !in m
    ensures k == if isNew then next else m[(i, j)]
    ensures Holds(r, if isNew then m[(i, j) := next] else m)
  {
    r := Grown(table, i, j, m);
    assert r[i][j] == Entry(r, i, j);
    isNew := r[i][j] < 0;
    if isNew {
      HoldsUpdated(r, m, i, j, next);
      r := r[i := r[i][j := next]];
      k := next;
    } else {
      k := r[i][j];
    }
  }
}
