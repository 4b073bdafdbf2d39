/** `Discrete_Probabilities` (discrete_probabilities.cpp): numbered elements with values, drawn at random
    either evenly and without replacement, or in proportion to their values. Random numbers come in as
    arguments, so that every claim holds for all draws. */
module Sacks {
  import opened Sequences
  import opened Options

  ghost function SumOf(values: seq<real>, positions: seq<nat>, k: nat): real
    requires k <= |positions| && forall i :: 0 <= i < |positions| ==> positions[i] < |values|
  {
    if k == 0 then 0.0 else SumOf(values, positions, k - 1) + values[positions[k - 1]]
  }

  /** A quotient of two floating-point numbers, rounding aside: a division by zero is an infinity or not a number. */
  datatype Share = Finite(value: real) | PlusInfinity | MinusInfinity | NotANumber

  function Divided(part: real, sum: real): Share {
    if sum != 0.0 then Finite(part / sum)
    else if part > 0.0 then PlusInfinity else if part < 0.0 then MinusInfinity else NotANumber
  }

  function Plus(a: Share, b: Share): Share {
    if a.NotANumber? || b.NotANumber? then NotANumber
    else if a.Finite? then (if b.Finite? then Finite(a.value + b.value) else b)
    else if b.Finite? || a == b then a
    else NotANumber
  }

  /** `u <= a`. */
  predicate Covers(u: real, a: Share) {
    a.PlusInfinity? || (a.Finite? && u <= a.value)
  }

  /** The running sum of the shares of the first `k` elements. */
  ghost function ShareOf(values: seq<real>, positions: seq<nat>, k: nat, sum: real): Share
    requires k <= |positions| && forall i :: 0 <= i < |positions| ==> positions[i] < |values|
  {
    if k == 0 then Finite(0.0) else Plus(ShareOf(values, positions, k - 1, sum), Divided(values[positions[k - 1]], sum))
  }

  lemma WithoutLosesOne<T>(s: seq<T>, i: nat)
    requires i < |s|
    ensures multiset(s) == multiset(Without(s, i)) + multiset{s[i]}
    ensures Distinct(s) ==> Distinct(Without(s, i)) && s[i] !in Without(s, i)
    ensures forall x :: x in Without(s, i) ==> x in s
    ensures forall x :: x in s && x != s[i] ==> x in Without(s, i)
  {
    assert s == s[..i] + [s[i]] + s[i + 1..];
  }

  lemma {:induction false} SumWithout(values: seq<real>, positions: seq<nat>, i: nat, k: nat)
    requires i < |positions| && k <= |positions| && forall j :: 0 <= j < |positions| ==> positions[j] < |values|
    ensures k <= i ==> SumOf(values, Without(positions, i), k) == SumOf(values, positions, k)
    ensures k > i ==> SumOf(values, Without(positions, i), k - 1) == SumOf(values, positions, k) - values[positions[i]]
  {
    if k > 0 {
      SumWithout(values, positions, i, k - 1);
    }
  }

  method AllBut(s: seq<nat>, at: nat) returns (rest: seq<nat>)
    requires at < |s|
    ensures rest == Without(s, at)
  {
    rest := [];
    var i := 0;
    while i < |s|
      invariant 0 <= i <= |s|
      invariant rest == if i <= at then s[..i] else s[..at] + s[at + 1..i]
    {
      if i != at {
        rest := rest + [s[i]];
      }
      i := i + 1;
    }
  }

  class Sack {
    var id: nat
    var sumatory: real
    var positions: seq<nat>
    var values: seq<real>

    /** The elements still in the sack are distinct, and the running sum is the sum of their values. */
    ghost predicate Valid()
      reads this
    {
      && |values| == id && Distinct(positions)
      && (forall i :: 0 <= i < |positions| ==> positions[i] < id)
      && sumatory == SumOf(values, positions, |positions|)
    }

    constructor ()
      ensures Valid() && id == 0 && positions == [] && values == []
    {
      id, sumatory, positions, values := 0, 0.0, [], [];
    }

    method AddElement(value: real)
      requires Valid()
      modifies this
      ensures Valid() && id == old(id) + 1
      ensures positions == old(positions) + [old(id)] && values == old(values) + [value]
    {
      SumGrows(values, positions, |positions|, value);
      sumatory := sumatory + value;
      positions := positions + [id];
      id := id + 1;
      values := values + [value];
    }

    /** An element drawn evenly and taken out; its value no longer counts. */
    method TakeOneRandomly(draw: nat) returns (r: nat)
      requires Valid() && positions != []
      modifies this
      ensures Valid() && id == old(id) && values == old(values)
      ensures r == old(positions)[draw % |old(positions)|]
      ensures positions == Without(old(positions), draw % |old(positions)|)
    {
      var at := draw % |positions|;
      r := positions[at];
      WithoutLosesOne(positions, at);
      SumWithout(values, positions, at, |positions|);
      positions := AllBut(positions, at);
      sumatory := sumatory - values[r];
    }

    /** The first `i + 1` elements have at least the share `u` of the sum. */
    ghost predicate Reaches(i: int, u: real)
      requires Valid()
      reads this
    {
      0 <= i < |positions| && Covers(u, ShareOf(values, positions, i + 1, sumatory))
    }

    /** No non-empty list of at most the first `i` elements has the share `u` of the sum. */
    ghost predicate Misses(i: int, u: real)
      requires Valid()
      reads this
    {
      0 <= i <= |positions| && forall j :: 0 < j <= i ==> !Covers(u, ShareOf(values, positions, j, sumatory))
    }

    /** The first element at which the running share of the sum reaches `u`; none where the program reports
        that the probability was not found and exits. */
    method ObtainUniformRandomElement(u: real) returns (r: Option<nat>)
      requires Valid()
      ensures match r
        case Some(x) => exists i :: Reaches(i, u) && positions[i] == x && Misses(i, u)
        case None => Misses(|positions|, u)
    {
      var share := Finite(0.0);
      var i := 0;
      while i < |positions|
        invariant 0 <= i <= |positions|
        invariant share == ShareOf(values, positions, i, sumatory)
        invariant Misses(i, u)
      {
        share := Plus(share, Divided(values[positions[i]], sumatory));
        if Covers(u, share) {
          assert Reaches(i, u);
          return Some(positions[i]);
        }
        i := i + 1;
      }
      return None;
    }
  }

  /** A sack of `n` elements, each of which is its own number. */
  method FilledSack(n: nat) returns (sack: Sack)
    ensures fresh(sack) && sack.Valid() && sack.id == |sack.positions| == n
    ensures forall i :: 0 <= i < n ==> sack.positions[i] == i
  {
    sack := new Sack();
    var i := 0;
    while i < n
      invariant 0 <= i <= n && sack.Valid() && sack.id == |sack.positions| == i
      invariant forall j :: 0 <= j < i ==> sack.positions[j] == j
    {
      sack.AddElement(0.0);
      i := i + 1;
    }
  }

  lemma {:induction false} SumGrows(values: seq<real>, positions: seq<nat>, k: nat, value: real)
    requires k <= |positions| && forall i :: 0 <= i < |positions| ==> positions[i] < |values|
    ensures SumOf(values + [value], positions + [|values|], k) == SumOf(values, positions, k)
  {
    if k > 0 {
      SumGrows(values, positions, k - 1, value);
    }
  }

  lemma QuotientsAdd(a: real, b: real, sum: real)
    requires sum != 0.0
    ensures a / sum + b / sum == (a + b) / sum
  {
  }

  lemma {:induction false} SharesAdd(values: seq<real>, positions: seq<nat>, k: nat, sum: real)
    requires k <= |positions| && sum != 0.0 && forall i :: 0 <= i < |positions| ==> positions[i] < |values|
    ensures ShareOf(values, positions, k, sum) == Finite(SumOf(values, positions, k) / sum)
  {
    if k > 0 {
      SharesAdd(values, positions, k - 1, sum);
      QuotientsAdd(SumOf(values, positions, k - 1), values[positions[k - 1]], sum);
    }
  }

  lemma {:induction false} ZeroSumMisses(values: seq<real>, positions: seq<nat>, k: nat)
    requires 0 < k <= |positions| && (forall i :: 0 <= i < |positions| ==> positions[i] < |values|) && values[positions[0]] <= 0.0
    ensures ShareOf(values, positions, k, 0.0).NotANumber? || ShareOf(values, positions, k, 0.0).MinusInfinity?
  {
    if k > 1 {
      ZeroSumMisses(values, positions, k - 1);
    } else {
      assert ShareOf(values, positions, k - 1, 0.0) == Finite(0.0);
    }
  }

  /** A draw of at most one finds an element, and the error exit is not reached, if and only if there are elements and
      their values have a sum other than zero or the first of them is positive. */
  lemma DrawIsFoundIff(s: Sack, u: real)
    requires s.Valid() && u <= 1.0
    ensures !s.Misses(|s.positions|, u) <==>
            s.positions != [] && (s.sumatory != 0.0 || s.values[s.positions[0]] > 0.0)
  {
    var n := |s.positions|;
    if n > 0 {
      if s.sumatory != 0.0 {
        SharesAdd(s.values, s.positions, n, s.sumatory);
        assert s.sumatory / s.sumatory == 1.0;
        assert s.Reaches(n - 1, u);
      } else if s.values[s.positions[0]] > 0.0 {
        assert ShareOf(s.values, s.positions, 0, 0.0) == Finite(0.0);
        assert ShareOf(s.values, s.positions, 1, 0.0) == PlusInfinity;
        assert s.Reaches(0, u);
      } else {
        forall j | 0 < j <= n ensures !Covers(u, ShareOf(s.values, s.positions, j, s.sumatory)) {
          ZeroSumMisses(s.values, s.positions, j);
        }
      }
    }
  }
}
