/** Two elements in a sack, and what is drawn of them (discrete_probabilities.cpp:19-47). */
module SackCases {
  import opened Sequences
  import opened Options
  import opened Sacks

  lemma TwoShares(a: real, b: real)
    requires a > 0.0 && b > 0.0
    ensures SumOf([a, b], [0, 1], 2) == a + b
    ensures ShareOf([a, b], [0, 1], 1, a + b) == Finite(a / (a + b)) && ShareOf([a, b], [0, 1], 2, a + b) == Finite(1.0)
  {
    assert SumOf([a, b], [0, 1], 0) == 0.0;
    assert SumOf([a, b], [0, 1], 1) == a;
    SharesAdd([a, b], [0, 1], 1, a + b);
    SharesAdd([a, b], [0, 1], 2, a + b);
    assert (a + b) / (a + b) == 1.0;
  }

  /** Two elements of values `a` and `b`: the first is drawn up to its part of the sum, the second from there on. */
  method DrawOfTwo(a: real, b: real, u: real) returns (r: Option<nat>)
    requires a > 0.0 && b > 0.0
    ensures r == if u <= a / (a + b) then Some(0) else if u <= 1.0 then Some(1) else None
  {
    var sack := new Sack();
    sack.AddElement(a);
    sack.AddElement(b);
    assert sack.values == [a, b] && sack.positions == [0, 1];
    TwoShares(a, b);
    r := sack.ObtainUniformRandomElement(u);
  }

  lemma LastIsAll(values: seq<real>, b: real)
    requires |values| == 2 && values[1] == b > 0.0
    ensures SumOf(values, [1], 1) == b && ShareOf(values, [1], 1, b) == Finite(1.0)
  {
    assert SumOf(values, [1], 0) == 0.0;
    SharesAdd(values, [1], 1, b);
    assert b / b == 1.0;
  }

  /** Two elements, the first taken out: only the second can still be drawn, and its part is all. */
  method DrawAfterTaking(a: real, b: real, u: real) returns (taken: nat, r: Option<nat>)
    requires b > 0.0
    ensures taken == 0 && r == if u <= 1.0 then Some(1) else None
  {
    var sack := new Sack();
    sack.AddElement(a);
    sack.AddElement(b);
    assert sack.positions == [0, 1];
    taken := sack.TakeOneRandomly(2);
    assert sack.positions == [1];
    LastIsAll(sack.values, b);
    r := sack.ObtainUniformRandomElement(u);
  }
}
