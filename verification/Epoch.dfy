/** `epoch` (NEAT.cpp): the worse half of every niche is dropped, the rest is rated, and the children of the
    generation are put into niches. Reproduction comes in as the list of children. */
module Epochs {
  import opened Sequences
  import opened Genomes
  import opened Sacks
  import opened Speciation

  function Fraction(part: real, sum: real): real
    requires sum > 0.0
  {
    part / sum
  }

  ghost function FitnessSum(organisms: seq<Organism>, members: seq<nat>, k: nat): real
    requires k <= |members| && Within(members, |organisms|)
  {
    if k == 0 then 0.0 else FitnessSum(organisms, members, k - 1) + organisms[members[k - 1]].fitness
  }

  ghost predicate Within(members: seq<nat>, n: nat) {
    forall j :: 0 <= j < |members| ==> members[j] < n
  }

  /** The mean fitness of the members of a niche. */
  ghost function Mean(organisms: seq<Organism>, members: seq<nat>): real
    requires members != [] && Within(members, |organisms|)
  {
    Fraction(FitnessSum(organisms, members, |members|), |members| as real)
  }

  lemma {:induction false} SumBelow(organisms: seq<Organism>, members: seq<nat>, k: nat, bound: real)
    requires k <= |members| && Within(members, |organisms|)
    requires forall j :: 0 <= j < k ==> organisms[members[j]].fitness <= bound
    ensures FitnessSum(organisms, members, k) <= bound * k as real
  {
    if k > 0 {
      SumBelow(organisms, members, k - 1, bound);
    }
  }

  /** A member that no other member beats is not below the mean. */
  lemma BestIsNotBelowMean(organisms: seq<Organism>, members: seq<nat>, i: nat)
    requires members != [] && Within(members, |organisms|) && i in members && i < |organisms|
    requires forall j :: 0 <= j < |members| ==> organisms[members[j]].fitness <= organisms[i].fitness
    ensures organisms[i].fitness >= Mean(organisms, members)
  {
    var n, sum := |members| as real, FitnessSum(organisms, members, |members|);
    SumBelow(organisms, members, |members|, organisms[i].fitness);
    FractionBelow(sum, n, organisms[i].fitness);
  }

  lemma FractionAdds(a: real, b: real, sum: real)
    requires sum > 0.0
    ensures Fraction(a, sum) + Fraction(b, sum) == Fraction(a + b, sum)
  {
  }

  lemma FractionBelow(part: real, sum: real, bound: real)
    requires sum > 0.0 && part <= bound * sum
    ensures Fraction(part, sum) <= bound
  {
    assert Fraction(part, sum) * sum == part;
    assert (Fraction(part, sum) - bound) * sum <= 0.0;
  }

  lemma {:induction false} BestExists(organisms: seq<Organism>, members: seq<nat>, k: nat) returns (i: nat)
    requires 0 < k <= |members| && Within(members, |organisms|)
    ensures i in members && i < |organisms|
    ensures forall j :: 0 <= j < k ==> organisms[members[j]].fitness <= organisms[i].fitness
  {
    i := members[k - 1];
    if k > 1 {
      var b := BestExists(organisms, members, k - 1);
      i := if organisms[b].fitness > organisms[i].fitness then b else i;
    }
  }

  // ---------- the cut ----------

  method MeanOf(organisms: seq<Organism>, members: seq<nat>) returns (mean: real)
    requires members != [] && Within(members, |organisms|)
    ensures mean == Mean(organisms, members)
  {
    mean := 0.0;
    var j := 0;
    while j < |members|
      invariant 0 <= j <= |members| && mean == FitnessSum(organisms, members, j)
    {
      mean := mean + organisms[members[j]].fitness;
      j := j + 1;
    }
    mean := Fraction(mean, |members| as real);
  }

  /** `from` are the places, among the first `k` members, of those not below the mean. */
  ghost predicate Survivors(organisms: seq<Organism>, members: seq<nat>, mean: real, from: seq<nat>, k: nat) {
    && Within(members, |organisms|) && k <= |members| && Distinct(from)
    && (forall j :: 0 <= j < |from| ==> from[j] in members[..k] && from[j] < |organisms| && organisms[from[j]].fitness >= mean)
    && forall j :: 0 <= j < k && organisms[members[j]].fitness >= mean ==> members[j] in from
  }

  /** The survivors of one niche go to the end of the list, and their new places into the niche. */
  method CutNiche(organisms: seq<Organism>, members: seq<nat>, survivors: seq<Organism>)
    returns (r: seq<Organism>, places: seq<nat>, ghost from: seq<nat>)
    requires members != [] && Within(members, |organisms|) && Distinct(members)
    ensures Survivors(organisms, members, Mean(organisms, members), from, |members|)
    ensures |places| == |from| && |r| == |survivors| + |from| && survivors <= r
    ensures forall j :: 0 <= j < |from| ==> places[j] == |survivors| + j && r[|survivors| + j] == organisms[from[j]]
  {
    var mean := MeanOf(organisms, members);
    r, places, from := survivors, [], [];
    var j := 0;
    while j < |members|
      invariant 0 <= j <= |members| && Survivors(organisms, members, mean, from, j)
      invariant |places| == |from| && |r| == |survivors| + |from| && survivors <= r
      invariant forall j :: 0 <= j < |from| ==> places[j] == |survivors| + j && r[|survivors| + j] == organisms[from[j]]
    {
      PrefixSnoc(members, j);
      var i := members[j];
      assert i !in members[..j];
      ghost var was := from;
      if organisms[i].fitness >= mean {
        r := r + [organisms[i]];
        places := places + [|r| - 1];
        from := from + [i];
        assert from[|was|] == i;
        assert forall x :: x in was ==> x in from;
      }
      j := j + 1;
    }
  }

  /** What the cut of the first `c` niches leaves: `from` tells which organism each survivor was. */
  ghost predicate Cut(organisms: seq<Organism>, keep: set<nat>, c: nat, r: seq<Organism>, cut: seq<Niche>, from: seq<nat>) {
    && |r| == |from| && |cut| == c && Distinct(from)
    && (forall k :: 0 <= k < |from| ==> from[k] < |organisms| && r[k] == organisms[from[k]])
    && (forall i :: 0 <= i < |organisms| ==> (i in from <==> organisms[i].niche < c && i in keep))
    && forall b :: 0 <= b < c ==> ListsNiche(cut[b].members, r, b)
  }

  /** Organism `i` is not below the mean of its niche. */
  ghost predicate AboveMean(organisms: seq<Organism>, niches: seq<Niche>, i: nat)
    requires Partition(niches, organisms) && i < |organisms|
  {
    NicheIsWithin(niches, organisms, organisms[i].niche);
    organisms[i].fitness >= Mean(organisms, niches[organisms[i].niche].members)
  }

  ghost function KeepsOf(organisms: seq<Organism>, niches: seq<Niche>): set<nat>
    requires Partition(niches, organisms)
  {
    set i: nat | i < |organisms| && AboveMean(organisms, niches, i)
  }

  lemma NicheIsWithin(niches: seq<Niche>, organisms: seq<Organism>, c: nat)
    requires Partition(niches, organisms) && c < |niches|
    ensures niches[c].members != [] && Within(niches[c].members, |organisms|) && Distinct(niches[c].members)
    ensures forall j :: 0 <= j < |niches[c].members| ==> organisms[niches[c].members[j]].niche == c
  {
    assert ListsNiche(niches[c].members, organisms, c);
    forall j | 0 <= j < |niches[c].members|
      ensures niches[c].members[j] < |organisms| && organisms[niches[c].members[j]].niche == c
    {
      var i: nat := niches[c].members[j];
      assert i in niches[c].members;
    }
  }

  lemma SomeSurvive(organisms: seq<Organism>, members: seq<nat>, from: seq<nat>)
    requires members != [] && Within(members, |organisms|)
    requires Survivors(organisms, members, Mean(organisms, members), from, |members|)
    ensures from != []
  {
    var i := BestExists(organisms, members, |members|);
    BestIsNotBelowMean(organisms, members, i);
    assert organisms[members[PosOf(members, i)]].fitness >= Mean(organisms, members);
  }

  /** The survivors of niche `c` are exactly its members that are not below the mean. */
  lemma SurvivorsOfNiche(organisms: seq<Organism>, niches: seq<Niche>, c: nat, more: seq<nat>)
    requires Partition(niches, organisms) && c < |niches| && Within(niches[c].members, |organisms|)
    requires Survivors(organisms, niches[c].members, Mean(organisms, niches[c].members), more, |niches[c].members|)
    ensures forall i: nat :: i in more <==> i < |organisms| && organisms[i].niche == c && i in KeepsOf(organisms, niches)
  {
    var members := niches[c].members;
    assert ListsNiche(members, organisms, c);
    WholePrefix(members);
    forall i: nat ensures i in more <==> i < |organisms| && organisms[i].niche == c && i in KeepsOf(organisms, niches) {
      if i in more {
        assert more[PosOf(more, i)] == i;
      }
      if i in members {
        assert members[PosOf(members, i)] == i;
      }
    }
  }

  lemma CutOrigins(organisms: seq<Organism>, r: seq<Organism>, from: seq<nat>, r': seq<Organism>, more: seq<nat>, c: nat)
    requires |r| == |from| && |r'| == |r| + |more| && r <= r' && Distinct(from) && Distinct(more)
    requires forall k :: 0 <= k < |from| ==> from[k] < |organisms| && r[k] == organisms[from[k]]
    requires forall j :: 0 <= j < |more| ==> more[j] < |organisms| && r'[|r| + j] == organisms[more[j]]
    requires forall i: nat :: i in from ==> i < |organisms| && organisms[i].niche < c
    requires forall i: nat :: i in more ==> i < |organisms| && organisms[i].niche == c
    ensures Distinct(from + more)
    ensures forall k :: 0 <= k < |from + more| ==> (from + more)[k] < |organisms| && r'[k] == organisms[(from + more)[k]]
  {
    forall j, k | 0 <= j < k < |from + more| ensures (from + more)[j] != (from + more)[k] {
      if j < |from| <= k {
        assert from[j] in from && more[k - |from|] in more;
      }
    }
    forall k | |from| <= k < |from + more| ensures r'[k] == organisms[(from + more)[k]] {
      assert r'[|r| + (k - |r|)] == organisms[more[k - |r|]];
    }
  }

  lemma ListsNicheOn(members: seq<nat>, r: seq<Organism>, r': seq<Organism>, b: nat, c: nat)
    requires ListsNiche(members, r, b) && r <= r' && b < c
    requires forall k :: |r| <= k < |r'| ==> r'[k].niche == c
    ensures ListsNiche(members, r', b)
  {
  }

  lemma NewNicheListed(r: seq<Organism>, r': seq<Organism>, places: seq<nat>, c: nat)
    requires |r'| == |r| + |places| && r <= r' && places != []
    requires forall j :: 0 <= j < |places| ==> places[j] == |r| + j
    requires forall k :: 0 <= k < |r| ==> r'[k].niche < c
    requires forall k :: |r| <= k < |r'| ==> r'[k].niche == c
    ensures ListsNiche(places, r', c)
  {
    forall k: nat | k < |r'| && r'[k].niche == c ensures k in places {
      assert places[k - |r|] == k;
    }
  }

  lemma CutOn(organisms: seq<Organism>, keep: set<nat>, c: nat, r: seq<Organism>, cut: seq<Niche>, from: seq<nat>,
              r': seq<Organism>, places: seq<nat>, more: seq<nat>, junk: bool)
    requires Cut(organisms, keep, c, r, cut, from) && more != [] && Distinct(more)
    requires forall i: nat :: i in more <==> i < |organisms| && organisms[i].niche == c && i in keep
    requires |places| == |more| && |r'| == |r| + |more| && r <= r'
    requires forall j :: 0 <= j < |more| ==> places[j] == |r| + j && more[j] < |organisms| && r'[|r| + j] == organisms[more[j]]
    ensures Cut(organisms, keep, c + 1, r', cut + [Niche(junk, places)], from + more)
  {
    forall i: nat | i in from ensures i < |organisms| && organisms[i].niche < c {
      assert from[PosOf(from, i)] == i;
    }
    CutOrigins(organisms, r, from, r', more, c);
    forall k | 0 <= k < |r'| ensures if k < |r| then r'[k].niche < c else r'[k].niche == c {
      if k < |r| {
        assert from[k] in from;
      } else {
        assert more[k - |r|] in more;
      }
    }
    NewNicheListed(r, r', places, c);
    forall b | 0 <= b < c ensures ListsNiche(cut[b].members, r', b) {
      ListsNicheOn(cut[b].members, r, r', b, c);
    }
  }

  /** The worse of every niche are dropped. `exist` of the rebuilt niches is never set, so it is arbitrary. */
  method CutAll(organisms: seq<Organism>, niches: seq<Niche>, junk: nat -> bool)
    returns (r: seq<Organism>, cut: seq<Niche>, ghost from: seq<nat>)
    requires Partition(niches, organisms)
    ensures Cut(organisms, KeepsOf(organisms, niches), |niches|, r, cut, from) && Partition(cut, r)
  {
    r, cut, from := [], [], [];
    var c := 0;
    while c < |niches|
      invariant 0 <= c <= |niches| && Cut(organisms, KeepsOf(organisms, niches), c, r, cut, from)
    {
      NicheIsWithin(niches, organisms, c);
      ghost var more;
      var r', places;
      r', places, more := CutNiche(organisms, niches[c].members, r);
      SomeSurvive(organisms, niches[c].members, more);
      SurvivorsOfNiche(organisms, niches, c, more);
      CutOn(organisms, KeepsOf(organisms, niches), c, r, cut, from, r', places, more, junk(c));
      r, cut, from := r', cut + [Niche(junk(c), places)], from + more;
      c := c + 1;
    }
    CutIsPartition(organisms, niches, r, cut, from);
  }

  lemma CutIsPartition(organisms: seq<Organism>, niches: seq<Niche>, r: seq<Organism>, cut: seq<Niche>, from: seq<nat>)
    requires Partition(niches, organisms) && Cut(organisms, KeepsOf(organisms, niches), |niches|, r, cut, from)
    ensures Partition(cut, r)
  {
    forall k | 0 <= k < |r| ensures r[k].niche < |cut| {
      assert from[k] in from;
    }
  }

  /** The best of every niche survive the cut. */
  lemma BestSurvive(organisms: seq<Organism>, niches: seq<Niche>, r: seq<Organism>, cut: seq<Niche>, from: seq<nat>, i: nat)
    requires Partition(niches, organisms) && Cut(organisms, KeepsOf(organisms, niches), |niches|, r, cut, from) && i < |organisms|
    requires forall j :: 0 <= j < |organisms| && organisms[j].niche == organisms[i].niche ==> organisms[j].fitness <= organisms[i].fitness
    ensures i in from && organisms[i] in r
  {
    var c := organisms[i].niche;
    NicheIsWithin(niches, organisms, c);
    assert ListsNiche(niches[c].members, organisms, c);
    assert i in niches[c].members;
    BestIsNotBelowMean(organisms, niches[c].members, i);
    assert r[PosOf(from, i)] == organisms[i];
  }

  // ---------- the rating ----------

  /** The sum of the mean fitness of the first `c` niches. */
  ghost function SumOfMeans(organisms: seq<Organism>, niches: seq<Niche>, c: nat): real
    requires Partition(niches, organisms) && c <= |niches|
  {
    if c == 0 then 0.0 else
      NicheIsWithin(niches, organisms, c - 1);
      SumOfMeans(organisms, niches, c - 1) + Mean(organisms, niches[c - 1].members)
  }

  /** `best` is the larger of `was` and the fitness of the first `k` members; the champion is whoever has it. */
  ghost predicate BestOf(organisms: seq<Organism>, members: seq<nat>, k: nat, was: real, holder: Organism, best: real, champion: Organism)
    requires k <= |members| && Within(members, |organisms|)
  {
    && best >= was && (forall j :: 0 <= j < k ==> organisms[members[j]].fitness <= best)
    && (if best == was then champion == holder else champion in organisms && champion.fitness == best)
  }

  /** The shared fitness of an organism is its fitness divided by the size of its niche. */
  function Rated(o: Organism, size: nat): Organism
    requires size > 0
  {
    o.(sharedFitness := Fraction(o.fitness, size as real))
  }

  /** The mean times the number of members is what the fitness of the members adds up to. */
  lemma MeanIsAverage(organisms: seq<Organism>, members: seq<nat>) returns (sums: seq<real>)
    requires members != [] && Within(members, |organisms|)
    ensures |sums| == |members| + 1 && sums[0] == 0.0 && Mean(organisms, members) * |members| as real == sums[|members|]
    ensures forall k, l {:trigger sums[k], sums[l]} :: 0 <= k && l == k + 1 <= |members| ==>
      sums[l] == sums[k] + organisms[members[k]].fitness
  {
    sums := seq(|members| + 1, k requires 0 <= k <= |members| => FitnessSum(organisms, members, k));
    var sum, n := FitnessSum(organisms, members, |members|), |members| as real;
    FractionTimes(sum, n);
  }

  lemma FractionTimes(part: real, sum: real)
    requires sum > 0.0
    ensures Fraction(part, sum) * sum == part
  {
  }

  lemma BestOn(organisms: seq<Organism>, members: seq<nat>, k: nat, was: real, holder: Organism, best: real, champion: Organism)
    requires k < |members| && Within(members, |organisms|) && BestOf(organisms, members, k, was, holder, best, champion)
    ensures var o := organisms[members[k]];
      if o.fitness > best then BestOf(organisms, members, k + 1, was, holder, o.fitness, o)
      else BestOf(organisms, members, k + 1, was, holder, best, champion)
  {
  }

  lemma SumOn(organisms: seq<Organism>, members: seq<nat>, k: nat, sum: real, total: real, size: real)
    requires k < |members| && Within(members, |organisms|) && size > 0.0
    requires total == sum + Fraction(FitnessSum(organisms, members, k), size)
    ensures total + Fraction(organisms[members[k]].fitness, size) == sum + Fraction(FitnessSum(organisms, members, k + 1), size)
  {
    FractionAdds(FitnessSum(organisms, members, k), organisms[members[k]].fitness, size);
  }

  method RateNiche(organisms: seq<Organism>, all: seq<Organism>, members: seq<nat>, was: real, holder: Organism, sum: real)
    returns (r: seq<Organism>, best: real, champion: Organism, total: real)
    requires members != [] && Within(members, |all|) && Distinct(members) && |organisms| == |all|
    requires forall j :: 0 <= j < |members| ==> organisms[members[j]] == all[members[j]]
    ensures |r| == |all|
    ensures forall k :: 0 <= k < |r| ==> r[k] == if k in members then Rated(all[k], |members|) else organisms[k]
    ensures BestOf(all, members, |members|, was, holder, best, champion)
    ensures total == sum + Mean(all, members)
  {
    r, best, champion, total := organisms, was, holder, sum;
    ghost var size := |members| as real;
    assert total == sum + Fraction(FitnessSum(all, members, 0), size);
    var j := 0;
    while j < |members|
      invariant 0 <= j <= |members| && |r| == |all|
      invariant forall k :: 0 <= k < |r| ==> r[k] == if k in members[..j] then Rated(all[k], |members|) else organisms[k]
      invariant BestOf(all, members, j, was, holder, best, champion)
      invariant total == sum + Fraction(FitnessSum(all, members, j), size)
    {
      var i := members[j];
      PrefixSnoc(members, j);
      assert i !in members[..j];
      BestOn(all, members, j, was, holder, best, champion);
      if r[i].fitness > best {
        best, champion := r[i].fitness, r[i];
      }
      SumOn(all, members, j, sum, total, size);
      r := r[i := Rated(r[i], |members|)];
      total := total + r[i].sharedFitness;
      j := j + 1;
    }
    WholePrefix(members);
  }

  /** After the first `c` niches: who is rated, how, and who is champion. */
  ghost predicate RatedTo(all: seq<Organism>, niches: seq<Niche>, c: nat, r: seq<Organism>)
    requires Partition(niches, all)
  {
    && |r| == |all|
    && forall k :: 0 <= k < |r| ==> r[k] == if all[k].niche < c then (
      NicheIsWithin(niches, all, all[k].niche);
      Rated(all[k], |niches[all[k].niche].members|)) else all[k]
  }

  /** The shared fitness of a rated organism times the size of its niche is its fitness, and nothing else of it changes. */
  lemma RatedByShare(all: seq<Organism>, niches: seq<Niche>, r: seq<Organism>, k: nat)
    requires Partition(niches, all) && RatedTo(all, niches, |niches|, r) && k < |all|
    ensures |r| == |all| && r[k].sharedFitness * |niches[all[k].niche].members| as real == all[k].fitness
    ensures r[k] == all[k].(sharedFitness := r[k].sharedFitness)
  {
    NicheIsWithin(niches, all, all[k].niche);
    FractionTimes(all[k].fitness, |niches[all[k].niche].members| as real);
  }

  lemma {:induction false} SharesAddUp(all: seq<Organism>, members: seq<nat>, r: seq<Organism>, sums: seq<real>, k: nat)
    requires members != [] && Within(members, |all|) && |r| == |all| && k <= |members| && |sums| == |members| + 1
    requires forall j :: 0 <= j < |members| ==> r[members[j]] == Rated(all[members[j]], |members|)
    requires sums[0] == 0.0
    requires forall i, l {:trigger sums[i], sums[l]} :: 0 <= i && l == i + 1 <= |members| ==> sums[l] == sums[i] + r[members[i]].sharedFitness
    ensures sums[k] == Fraction(FitnessSum(all, members, k), |members| as real)
  {
    if k > 0 {
      SharesAddUp(all, members, r, sums, k - 1);
      FractionAdds(FitnessSum(all, members, k - 1), all[members[k - 1]].fitness, |members| as real);
      assert sums[k] == sums[k - 1] + r[members[k - 1]].sharedFitness;
    }
  }

  /** What the shared fitness of the members of a niche adds up to is the mean fitness of the niche. */
  lemma SharesMakeMean(all: seq<Organism>, niches: seq<Niche>, r: seq<Organism>, c: nat, sums: seq<real>)
    requires Partition(niches, all) && RatedTo(all, niches, |niches|, r) && c < |niches|
    requires |sums| == |niches[c].members| + 1 && sums[0] == 0.0 && Within(niches[c].members, |all|) && |r| == |all|
    requires forall i, l {:trigger sums[i], sums[l]} :: 0 <= i && l == i + 1 < |sums| ==>
      sums[l] == sums[i] + r[niches[c].members[i]].sharedFitness
    ensures niches[c].members != [] && sums[|sums| - 1] == Mean(all, niches[c].members)
  {
    NicheIsWithin(niches, all, c);
    SharesAddUp(all, niches[c].members, r, sums, |niches[c].members|);
  }

  ghost predicate MeanAdded(organisms: seq<Organism>, niches: seq<Niche>, sums: seq<real>, c: nat)
    requires c < |niches| && |sums| == |niches| + 1
  {
    && niches[c].members != [] && Within(niches[c].members, |organisms|)
    && sums[c + 1] == sums[c] + Mean(organisms, niches[c].members)
  }

  /** The sum of the means is built up mean by mean. */
  lemma MeansAddUp(organisms: seq<Organism>, niches: seq<Niche>) returns (sums: seq<real>)
    requires Partition(niches, organisms)
    ensures |sums| == |niches| + 1 && sums[0] == 0.0 && sums[|niches|] == SumOfMeans(organisms, niches, |niches|)
    ensures forall c :: 0 <= c < |niches| ==> MeanAdded(organisms, niches, sums, c)
  {
    sums := seq(|niches| + 1, c requires 0 <= c <= |niches| => SumOfMeans(organisms, niches, c));
    assert SumOfMeans(organisms, niches, 0) == 0.0;
    forall c | 0 <= c < |niches| ensures MeanAdded(organisms, niches, sums, c) {
      NicheIsWithin(niches, organisms, c);
      assert SumOfMeans(organisms, niches, c + 1) == SumOfMeans(organisms, niches, c) + Mean(organisms, niches[c].members);
    }
  }

  ghost predicate ChampionOf(all: seq<Organism>, c: nat, was: real, holder: Organism, best: real, champion: Organism) {
    && best >= was && (forall k :: 0 <= k < |all| && all[k].niche < c ==> all[k].fitness <= best)
    && (if best == was then champion == holder else champion in all && champion.fitness == best)
  }

  lemma ChampionOn(all: seq<Organism>, members: seq<nat>, c: nat, was: real, holder: Organism,
                   best: real, champion: Organism, best': real, champion': Organism)
    requires ChampionOf(all, c, was, holder, best, champion) && ListsNiche(members, all, c) && Within(members, |all|)
    requires BestOf(all, members, |members|, best, champion, best', champion')
    ensures ChampionOf(all, c + 1, was, holder, best', champion')
  {
    forall k | 0 <= k < |all| && all[k].niche < c + 1 ensures all[k].fitness <= best' {
      if all[k].niche == c {
        assert k in members;
        assert members[PosOf(members, k)] == k;
      }
    }
  }

  /** Every survivor is rated, and the champion of all times is looked for among them. */
  method RateAll(all: seq<Organism>, niches: seq<Niche>, was: real, holder: Organism)
    returns (r: seq<Organism>, best: real, champion: Organism, total: real)
    requires Partition(niches, all)
    ensures RatedTo(all, niches, |niches|, r) && total == SumOfMeans(all, niches, |niches|)
    ensures ChampionOf(all, |niches|, was, holder, best, champion)
  {
    r, best, champion, total := all, was, holder, 0.0;
    var c := 0;
    while c < |niches|
      invariant 0 <= c <= |niches| && RatedTo(all, niches, c, r)
      invariant total == SumOfMeans(all, niches, c) && ChampionOf(all, c, was, holder, best, champion)
    {
      NicheIsWithin(niches, all, c);
      assert ListsNiche(niches[c].members, all, c);
      ghost var best0, champion0, r0 := best, champion, r;
      r, best, champion, total := RateNiche(r, all, niches[c].members, best, champion, total);
      ChampionOn(all, niches[c].members, c, was, holder, best0, champion0, best, champion);
      c := c + 1;
    }
  }

  /** Dropping the worse of every niche does not hide the champion of the whole population. */
  lemma ChampionOfAll(organisms: seq<Organism>, niches: seq<Niche>, r: seq<Organism>, cut: seq<Niche>, from: seq<nat>,
                      was: real, holder: Organism, best: real, champion: Organism)
    requires Partition(niches, organisms) && Cut(organisms, KeepsOf(organisms, niches), |niches|, r, cut, from)
    requires Partition(cut, r) && ChampionOf(r, |cut|, was, holder, best, champion)
    ensures ChampionOf(organisms, |niches|, was, holder, best, champion)
  {
    forall i | 0 <= i < |organisms| ensures organisms[i].fitness <= best {
      var c := organisms[i].niche;
      NicheIsWithin(niches, organisms, c);
      assert ListsNiche(niches[c].members, organisms, c);
      var members := niches[c].members;
      var b := BestExists(organisms, members, |members|);
      forall j | 0 <= j < |organisms| && organisms[j].niche == c ensures organisms[j].fitness <= organisms[b].fitness {
        assert j in members;
        assert members[PosOf(members, j)] == j;
      }
      BestSurvive(organisms, niches, r, cut, from, b);
      assert r[PosOf(r, organisms[b])].fitness <= best;
      assert i in members;
    }
    if best != was {
      var k := PosOf(r, champion);
      assert organisms[from[k]] == champion;
    }
  }

  lemma NichesAreWithin(niches: seq<Niche>, organisms: seq<Organism>)
    requires Partition(niches, organisms)
    ensures forall c :: 0 <= c < |niches| ==> Within(niches[c].members, |organisms|)
  {
    forall c | 0 <= c < |niches| ensures Within(niches[c].members, |organisms|) {
      NicheIsWithin(niches, organisms, c);
    }
  }

  /** What the cut and the rating make of a generation: the survivors as they were, which organism each was,
      the rebuilt niches, the rated survivors, the total shared fitness, and the champion of all times. */
  datatype Verdict = Verdict(survivors: seq<Organism>, from: seq<nat>, cut: seq<Niche>, rated: seq<Organism>,
                             total: real, best: real, champion: Organism)

  ghost predicate IsVerdict(organisms: seq<Organism>, niches: seq<Niche>, was: real, holder: Organism, v: Verdict)
    requires Partition(niches, organisms)
  {
    && Cut(organisms, KeepsOf(organisms, niches), |niches|, v.survivors, v.cut, v.from) && Partition(v.cut, v.survivors)
    && RatedTo(v.survivors, v.cut, |v.cut|, v.rated) && v.total == SumOfMeans(v.survivors, v.cut, |v.cut|)
    && ChampionOf(organisms, |niches|, was, holder, v.best, v.champion)
  }

  /** The verdicts that the cut and the rating can come to. */
  ghost function Verdicts(organisms: seq<Organism>, niches: seq<Niche>, was: real, holder: Organism): iset<Verdict>
    requires Partition(niches, organisms)
  {
    iset v | IsVerdict(organisms, niches, was, holder, v)
  }

  // ---------- the whole epoch ----------

  method CutAndRate(organisms: seq<Organism>, niches: seq<Niche>, was: real, holder: Organism, junk: nat -> bool)
    returns (rated: seq<Organism>, cut: seq<Niche>, best: real, champion: Organism, total: real, ghost v: Verdict)
    requires Partition(niches, organisms)
    ensures v == Verdict(v.survivors, v.from, cut, rated, total, best, champion)
    ensures v in Verdicts(organisms, niches, was, holder)
    ensures |rated| == |v.survivors|
  {
    var survivors;
    ghost var from;
    survivors, cut, from := CutAll(organisms, niches, junk);
    rated, best, champion, total := RateAll(survivors, cut, was, holder);
    ChampionOfAll(organisms, niches, survivors, cut, from, was, holder, best, champion);
    v := Verdict(survivors, from, cut, rated, total, best, champion);
  }

  class Generation {
    var organisms: seq<Organism>
    var prevOrganisms: seq<Organism>
    var currentNiches: seq<Niche>
    var prevNiches: seq<Niche>
    var fitnessChampion: real
    var champion: Organism
    var totalSharedFitness: real

    /** The niches are a partition of the organisms. */
    ghost predicate Valid()
      reads this
    {
      Partition(currentNiches, organisms)
    }

    /** The constructor's last part: the seed is the only previous organism and alone in the only niche. */
    constructor (m: Measure, seed: Organism, first: seq<Organism>, draws: NicheDraws)
      ensures Valid() && fitnessChampion == 0.0 && champion == seed && |organisms| == |first|
    {
      organisms, prevOrganisms := first, [seed];
      currentNiches, prevNiches := [Niche(true, [0])], [];
      fitnessChampion, champion, totalSharedFitness := 0.0, seed, 0.0;
      new;
      ghost var passed, reps, home, kept := Spatiation(m, draws);
    }

    /** `spatiation`. The niches of the generation before are passed on if they are marked and have members. */
    method Spatiation(m: Measure, draws: NicheDraws)
      returns (ghost passed: seq<nat>, ghost reps: seq<Genome>, ghost home: seq<nat>, ghost kept: seq<nat>)
      requires forall c :: 0 <= c < |currentNiches| ==> Within(currentNiches[c].members, |prevOrganisms|)
      modifies this`organisms, this`currentNiches, this`prevNiches
      ensures Valid() && prevNiches == old(currentNiches) && unchanged(`prevOrganisms)
      ensures |organisms| == |old(organisms)|
      ensures forall i :: 0 <= i < |organisms| ==> organisms[i] == old(organisms)[i].(niche := organisms[i].niche)
      ensures Selects(passed, |prevNiches|, IsReal(prevNiches)) && |passed| <= |reps|
      ensures forall q :: 0 <= q < |passed| ==> IsMember(prevNiches[passed[q]], prevOrganisms, reps[q])
      ensures |home| == |organisms| && Settled(m, old(organisms), reps, |passed|, home)
      ensures forall i :: 0 <= i < |organisms| ==> organisms[i].niche < |kept| && kept[organisms[i].niche] == home[i]
    {
      prevNiches := currentNiches;
      var inherited, groups;
      inherited, passed := RealNiches(prevNiches);
      assert forall q :: 0 <= q < |inherited| ==> IsReal(prevNiches)(passed[q]) && Within(prevNiches[passed[q]].members, |prevOrganisms|);
      groups, reps, home := PlaceAll(m, organisms, prevOrganisms, inherited, draws);
      currentNiches, kept := ExistingNiches(groups, home);
      organisms := NumberNiches(currentNiches, organisms, groups, kept, home);
      NichesArePartition(currentNiches, organisms, groups, kept, home);
    }

    /** `epoch`, with the children that reproduction draws. */
    method Epoch(m: Measure, children: seq<Organism>, junk: nat -> bool, draws: NicheDraws) returns (ghost v: Verdict)
      requires Valid()
      modifies this
      ensures Valid() && |organisms| == |children|
      ensures v in Verdicts(old(organisms), old(currentNiches), old(fitnessChampion), old(champion))
      ensures prevNiches == v.cut && prevOrganisms == v.rated && totalSharedFitness == v.total
      ensures fitnessChampion == v.best && champion == v.champion
    {
      prevOrganisms, currentNiches, fitnessChampion, champion, totalSharedFitness, v :=
        CutAndRate(organisms, currentNiches, fitnessChampion, champion, junk);
      NichesAreWithin(v.cut, v.survivors);
      organisms := children;
      ghost var passed, reps, home, kept := Spatiation(m, draws);
    }
  }
}
