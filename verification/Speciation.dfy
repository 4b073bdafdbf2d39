/** `spatiation` (NEAT.cpp): the organisms of a generation are put into niches. Compatibility of genomes is a
    parameter, and random draws come in as functions. */
module Speciation {
  import opened Options
  import opened Sequences
  import opened Genomes
  import opened Sacks

  datatype Organism = Organism(genome: Genome, fitness: real, sharedFitness: real, niche: nat)

  datatype Niche = Niche(exist: bool, members: seq<nat>)

  datatype NicheDraws = NicheDraws(member: nat -> nat, niche: (nat, nat) -> nat)

  /** How far apart two genomes are, and how close a niche wants its members. */
  datatype Measure = Measure(distance: (Genome, Genome) -> real, threshold: real) {
    predicate Near(a: Genome, b: Genome) {
      distance(a, b) < threshold
    }
  }

  // ---------- what the grouping keeps ----------

  /** `members` are exactly the organisms whose home is `q`. */
  ghost predicate Lives(members: seq<nat>, home: seq<nat>, q: nat) {
    Ascending(members) && forall i: nat :: i in members <==> i < |home| && home[i] == q
  }

  /** Organism `i` opened niche `q`, and stands for it: no niche opened before it would take the organism. */
  ghost predicate Founds(m: Measure, organisms: seq<Organism>, reps: seq<Genome>, inherited: nat, i: nat, q: nat)
    requires i < |organisms| && q < |reps|
  {
    q >= inherited && reps[q] == organisms[i].genome && forall r :: 0 <= r < q ==> m.distance(organisms[i].genome, reps[r]) >= m.threshold
  }

  /** Every organism so far is near the representative of its niche or has founded it, and every niche that
      was not inherited has its founder as the first member. */
  ghost predicate Settled(m: Measure, organisms: seq<Organism>, reps: seq<Genome>, inherited: nat, home: seq<nat>) {
    && inherited <= |reps| && |home| <= |organisms|
    && (forall i :: 0 <= i < |home| ==> home[i] < |reps|)
    && (forall i :: 0 <= i < |home| ==>
      m.distance(organisms[i].genome, reps[home[i]]) < m.threshold || Founds(m, organisms, reps, inherited, i, home[i]))
    && (forall q :: inherited <= q < |reps| ==> HasFounder(m, organisms, reps, inherited, home, q))
  }

  ghost predicate IsFirst(home: seq<nat>, i: nat, q: nat) {
    i < |home| && home[i] == q && forall j :: 0 <= j < i ==> home[j] != q
  }

  /** The first organism of niche `q` is the one that opened it. */
  ghost predicate HasFounder(m: Measure, organisms: seq<Organism>, reps: seq<Genome>, inherited: nat, home: seq<nat>, q: nat)
    requires |home| <= |organisms| && q < |reps|
  {
    exists i: nat :: IsFirst(home, i, q) && Founds(m, organisms, reps, inherited, i, q)
  }

  ghost predicate Grouped(groups: seq<Niche>, home: seq<nat>) {
    forall q :: 0 <= q < |groups| ==> Lives(groups[q].members, home, q) && (groups[q].exist <==> groups[q].members != [])
  }

  lemma LivesOn(members: seq<nat>, home: seq<nat>, q: nat, x: nat)
    requires Lives(members, home, q)
    ensures Lives(if x == q then members + [|home|] else members, home + [x], q)
  {
    var r := if x == q then members + [|home|] else members;
    assert forall j :: 0 <= j < |members| ==> members[j] in members;
    forall i: nat ensures i in r <==> i < |home| + 1 && (home + [x])[i] == q {
      if x == q && i == |home| {
        assert r[|members|] == i;
      }
    }
  }

  lemma GroupedOn(groups: seq<Niche>, home: seq<nat>, x: nat)
    requires Grouped(groups, home) && x < |groups|
    ensures Grouped(groups[x := Niche(true, groups[x].members + [|home|])], home + [x])
  {
    var r := groups[x := Niche(true, groups[x].members + [|home|])];
    forall q | 0 <= q < |r| ensures Lives(r[q].members, home + [x], q) && (r[q].exist <==> r[q].members != []) {
      LivesOn(groups[q].members, home, q, x);
    }
  }

  lemma JoinsNiche(m: Measure, organisms: seq<Organism>, reps: seq<Genome>, inherited: nat, home: seq<nat>, x: nat)
    requires Settled(m, organisms, reps, inherited, home) && |home| < |organisms| && x < |reps|
    requires m.Near(organisms[|home|].genome, reps[x])
    ensures Settled(m, organisms, reps, inherited, home + [x])
  {
    forall q | inherited <= q < |reps| ensures HasFounder(m, organisms, reps, inherited, home + [x], q) {
      assert HasFounder(m, organisms, reps, inherited, home, q);
      var i: nat :| IsFirst(home, i, q) && Founds(m, organisms, reps, inherited, i, q);
      assert IsFirst(home + [x], i, q);
    }
  }

  lemma OpensNiche(m: Measure, organisms: seq<Organism>, reps: seq<Genome>, inherited: nat, home: seq<nat>)
    requires Settled(m, organisms, reps, inherited, home) && |home| < |organisms|
    requires forall q :: 0 <= q < |reps| ==> !m.Near(organisms[|home|].genome, reps[q])
    ensures Settled(m, organisms, reps + [organisms[|home|].genome], inherited, home + [|reps|])
  {
    var reps', home' := reps + [organisms[|home|].genome], home + [|reps|];
    assert Founds(m, organisms, reps', inherited, |home|, |reps|);
    assert IsFirst(home', |home|, |reps|);
    forall i, q | 0 <= i < |organisms| && 0 <= q < |reps| && Founds(m, organisms, reps, inherited, i, q)
      ensures Founds(m, organisms, reps', inherited, i, q)
    {
    }
    forall q | inherited <= q < |reps| ensures HasFounder(m, organisms, reps', inherited, home', q) {
      assert HasFounder(m, organisms, reps, inherited, home, q);
      var i: nat :| IsFirst(home, i, q) && Founds(m, organisms, reps, inherited, i, q);
      assert IsFirst(home', i, q);
    }
  }

  // ---------- the search for a niche ----------

  /** The representative of niche `q`: of an inherited niche it is a previous organism, of a new one its founder. */
  function RepOf(organisms: seq<Organism>, prev: seq<Organism>, places: seq<nat>, inherited: nat, q: nat): Genome
    requires q < |places| && (if q >= inherited then places[q] < |organisms| else places[q] < |prev|)
  {
    if q >= inherited then organisms[places[q]].genome else prev[places[q]].genome
  }

  ghost predicate Represents(organisms: seq<Organism>, prev: seq<Organism>, places: seq<nat>, inherited: nat, reps: seq<Genome>) {
    && |reps| == |places|
    && forall q :: 0 <= q < |places| ==>
      && (if q >= inherited then places[q] < |organisms| else places[q] < |prev|)
      && reps[q] == RepOf(organisms, prev, places, inherited, q)
  }

  /** Every niche is tried, in random order, until one takes the organism. */
  method FindNiche(m: Measure, organisms: seq<Organism>, prev: seq<Organism>, places: seq<nat>, inherited: nat,
                   i: nat, draws: NicheDraws, ghost reps: seq<Genome>) returns (r: Option<nat>)
    requires i < |organisms| && Represents(organisms, prev, places, inherited, reps)
    ensures match r
      case Some(q) => q < |reps| && m.distance(organisms[i].genome, reps[q]) < m.threshold
      case None => forall q :: 0 <= q < |reps| ==> m.distance(organisms[i].genome, reps[q]) >= m.threshold
  {
    var sack := FilledSack(|places|);
    forall q | 0 <= q < |reps| ensures q in sack.positions {
      assert sack.positions[q] == q;
    }
    var j := 0;
    while j < |places|
      invariant 0 <= j <= |places| && fresh(sack) && sack.Valid() && sack.id == |places| && |sack.positions| == |places| - j
      invariant forall q :: 0 <= q < |reps| ==> q in sack.positions || !m.Near(organisms[i].genome, reps[q])
    {
      ghost var before := sack.positions;
      var q := sack.TakeOneRandomly(draws.niche(i, j));
      WithoutLosesOne(before, draws.niche(i, j) % |before|);
      assert reps[q] == RepOf(organisms, prev, places, inherited, q);
      if m.Near(organisms[i].genome, RepOf(organisms, prev, places, inherited, q)) {
        return Some(q);
      }
      j := j + 1;
    }
    return None;
  }

  /** The niches passed on: those that are marked as existing and have members. */
  method RealNiches(niches: seq<Niche>) returns (r: seq<Niche>, ghost from: seq<nat>)
    ensures Selects(from, |niches|, IsReal(niches)) && |r| == |from|
    ensures forall q :: 0 <= q < |r| ==> r[q] == niches[from[q]]
  {
    r, from := [], [];
    var i := 0;
    while i < |niches|
      invariant 0 <= i <= |niches|
      invariant Selects(from, i, IsReal(niches)) && |r| == |from|
      invariant forall q :: 0 <= q < |r| ==> r[q] == niches[from[q]]
    {
      SelectsOn(from, i, IsReal(niches));
      if niches[i].exist && |niches[i].members| > 0 {
        r, from := r + [niches[i]], from + [i];
      }
      i := i + 1;
    }
  }

  function IsReal(niches: seq<Niche>): nat -> bool {
    (i: nat) => i < |niches| && niches[i].exist && niches[i].members != []
  }

  method PickRepresentatives(passed: seq<Niche>, prev: seq<Organism>, draws: NicheDraws) returns (places: seq<nat>)
    requires forall q :: 0 <= q < |passed| ==> passed[q].members != [] && forall i :: i in passed[q].members ==> i < |prev|
    ensures |places| == |passed| && forall q :: 0 <= q < |passed| ==> places[q] in passed[q].members
  {
    places := [];
    var i := 0;
    while i < |passed|
      invariant 0 <= i == |places| <= |passed|
      invariant forall q :: 0 <= q < i ==> places[q] in passed[q].members
    {
      places := places + [passed[i].members[draws.member(i) % |passed[i].members|]];
      i := i + 1;
    }
  }

  /** One organism is put into a niche: one that takes it, or else a new one. */
  method Place(m: Measure, organisms: seq<Organism>, prev: seq<Organism>, inherited: nat, i: nat, draws: NicheDraws,
               groups: seq<Niche>, places: seq<nat>, ghost reps: seq<Genome>, ghost home: seq<nat>)
    returns (groups': seq<Niche>, places': seq<nat>, ghost reps': seq<Genome>, ghost home': seq<nat>)
    requires i < |organisms| && Represents(organisms, prev, places, inherited, reps)
    requires |home| == i && |groups| == |reps| && Grouped(groups, home) && Settled(m, organisms, reps, inherited, home)
    ensures Represents(organisms, prev, places', inherited, reps') && reps <= reps'
    ensures |home'| == i + 1 && |groups'| == |reps'| && Grouped(groups', home') && Settled(m, organisms, reps', inherited, home')
  {
    var found := FindNiche(m, organisms, prev, places, inherited, i, draws, reps);
    match found {
      case Some(q) =>
        GroupedOn(groups, home, q);
        JoinsNiche(m, organisms, reps, inherited, home, q);
        groups' := groups[q := Niche(true, groups[q].members + [i])];
        places', reps', home' := places, reps, home + [q];
      case None =>
        NewIsEmpty(groups, home, |reps|);
        GroupedOn(groups + [Niche(false, [])], home, |reps|);
        OpensNiche(m, organisms, reps, inherited, home);
        groups' := groups + [Niche(true, [])];
        groups' := groups'[|groups| := Niche(true, groups'[|groups|].members + [i])];
        assert groups' == (groups + [Niche(false, [])])[|reps| := Niche(true, [] + [i])];
        places', reps', home' := places + [i], reps + [organisms[i].genome], home + [|reps|];
    }
  }

  lemma NewIsEmpty(groups: seq<Niche>, home: seq<nat>, n: nat)
    requires Grouped(groups, home) && |groups| == n && forall i :: 0 <= i < |home| ==> home[i] < n
    ensures Grouped(groups + [Niche(false, [])], home)
  {
    assert Lives([], home, n);
  }

  ghost predicate IsMember(niche: Niche, prev: seq<Organism>, g: Genome) {
    exists i :: i in niche.members && i < |prev| && prev[i].genome == g
  }

  /** All organisms are put into niches. `reps` are the representatives, `home` the niche of each organism. */
  method PlaceAll(m: Measure, organisms: seq<Organism>, prev: seq<Organism>, passed: seq<Niche>, draws: NicheDraws)
    returns (groups: seq<Niche>, ghost reps: seq<Genome>, ghost home: seq<nat>)
    requires forall q :: 0 <= q < |passed| ==> passed[q].members != [] && forall i :: i in passed[q].members ==> i < |prev|
    ensures |groups| == |reps| && |home| == |organisms|
    ensures Grouped(groups, home) && Settled(m, organisms, reps, |passed|, home)
    ensures |passed| <= |reps| && forall q :: 0 <= q < |passed| ==> IsMember(passed[q], prev, reps[q])
  {
    var places := PickRepresentatives(passed, prev, draws);
    groups := seq(|passed|, _ => Niche(false, []));
    reps, home := seq(|passed|, q requires 0 <= q < |passed| => prev[places[q]].genome), [];
    ghost var first := reps;
    assert forall q :: 0 <= q < |passed| ==> IsMember(passed[q], prev, first[q]);
    var i := 0;
    while i < |organisms|
      invariant 0 <= i <= |organisms|
      invariant Represents(organisms, prev, places, |passed|, reps) && first <= reps
      invariant |home| == i && |groups| == |reps| && Grouped(groups, home) && Settled(m, organisms, reps, |passed|, home)
    {
      groups, places, reps, home := Place(m, organisms, prev, |passed|, i, draws, groups, places, reps, home);
      i := i + 1;
    }
  }

  // ---------- the result ----------

  /** `members` are exactly the organisms whose niche field is `c`, and there are some. */
  ghost predicate ListsNiche(members: seq<nat>, organisms: seq<Organism>, c: nat) {
    members != [] && Ascending(members) && forall i: nat :: i in members <==> i < |organisms| && organisms[i].niche == c
  }

  /** The niches are a partition of the organisms into non-empty lists, and every organism knows its niche. */
  ghost predicate Partition(niches: seq<Niche>, organisms: seq<Organism>) {
    && (forall c :: 0 <= c < |niches| ==> ListsNiche(niches[c].members, organisms, c))
    && (forall i :: 0 <= i < |organisms| ==> organisms[i].niche < |niches|)
  }

  /** Niche `c` is group `kept[c]`; the kept groups are those that have members. */
  ghost predicate KeptNiches(niches: seq<Niche>, groups: seq<Niche>, kept: seq<nat>) {
    && Selects(kept, |groups|, IsReal(groups)) && |niches| == |kept|
    && forall c :: 0 <= c < |niches| ==> niches[c] == groups[kept[c]]
  }

  /** The niche of every organism, by the number of the niche that lists it. */
  method NumberNiches(niches: seq<Niche>, organisms: seq<Organism>, ghost groups: seq<Niche>, ghost kept: seq<nat>, ghost home: seq<nat>)
    returns (r: seq<Organism>)
    requires KeptNiches(niches, groups, kept) && Grouped(groups, home) && |home| == |organisms|
    requires forall i :: 0 <= i < |home| ==> home[i] < |groups|
    ensures |r| == |organisms| && forall i :: 0 <= i < |r| ==> r[i] == organisms[i].(niche := r[i].niche)
    ensures forall i :: 0 <= i < |r| ==> r[i].niche < |kept| && kept[r[i].niche] == home[i]
  {
    r := organisms;
    var c := 0;
    while c < |niches|
      invariant 0 <= c <= |niches| && |r| == |organisms|
      invariant forall i :: 0 <= i < |r| ==> r[i] == organisms[i].(niche := r[i].niche)
      invariant forall i, b :: 0 <= i < |r| && 0 <= b < c && kept[b] == home[i] ==> r[i].niche == b
    {
      r := NumberMembers(niches[c], r, c, kept[c], home);
      c := c + 1;
    }
    forall i | 0 <= i < |r| ensures r[i].niche < |kept| && kept[r[i].niche] == home[i] {
      assert Lives(groups[home[i]].members, home, home[i]);
      assert i in groups[home[i]].members;
      assert IsReal(groups)(home[i]);
      var b := PosOf(kept, home[i]);
      assert kept[b] == home[i];
    }
  }

  /** The niches that exist are kept. */
  method ExistingNiches(groups: seq<Niche>, ghost home: seq<nat>) returns (niches: seq<Niche>, ghost kept: seq<nat>)
    requires Grouped(groups, home)
    ensures KeptNiches(niches, groups, kept)
  {
    niches, kept := [], [];
    var i := 0;
    while i < |groups|
      invariant 0 <= i <= |groups|
      invariant Selects(kept, i, IsReal(groups)) && |niches| == |kept|
      invariant forall c :: 0 <= c < |niches| ==> niches[c] == groups[kept[c]]
    {
      SelectsOn(kept, i, IsReal(groups));
      if groups[i].exist {
        niches, kept := niches + [groups[i]], kept + [i];
      }
      i := i + 1;
    }
  }

  method NumberMembers(niche: Niche, organisms: seq<Organism>, c: nat, ghost q: nat, ghost home: seq<nat>)
    returns (r: seq<Organism>)
    requires Lives(niche.members, home, q) && |home| == |organisms|
    ensures |r| == |organisms|
    ensures forall i :: 0 <= i < |r| ==> r[i] == if home[i] == q then organisms[i].(niche := c) else organisms[i]
  {
    r := organisms;
    var j := 0;
    while j < |niche.members|
      invariant 0 <= j <= |niche.members| && |r| == |organisms|
      invariant forall i :: 0 <= i < |r| ==> r[i] == if i in niche.members[..j] then organisms[i].(niche := c) else organisms[i]
    {
      var i := niche.members[j];
      assert i in niche.members;
      PrefixSnoc(niche.members, j);
      r := r[i := r[i].(niche := c)];
      j := j + 1;
    }
    WholePrefix(niche.members);
  }

  lemma NichesArePartition(niches: seq<Niche>, organisms: seq<Organism>, groups: seq<Niche>, kept: seq<nat>, home: seq<nat>)
    requires KeptNiches(niches, groups, kept) && Grouped(groups, home) && |home| == |organisms|
    requires forall i :: 0 <= i < |organisms| ==> organisms[i].niche < |kept| && kept[organisms[i].niche] == home[i]
    ensures Partition(niches, organisms)
  {
    forall c | 0 <= c < |niches| ensures ListsNiche(niches[c].members, organisms, c) {
      assert Lives(groups[kept[c]].members, home, kept[c]) && IsReal(groups)(kept[c]);
    }
  }
}
