/** Facts about sequences that several modules share. */
module Sequences {

  /** The sequence `s` grown, if needed, with `hole` so that slot `i` exists, and then `x` written to it. */
  function PutAt<T>(s: seq<T>, i: nat, x: T, hole: T): (r: seq<T>)
    ensures |r| == (if i < |s| then |s| else i + 1)
    ensures r[i] == x
    ensures forall j :: 0 <= j < |r| && j != i ==> r[j] == if j < |s| then s[j] else hole
  {
    if i < |s| then s[i := x] else s + seq(i - |s|, _ => hole) + [x]
  }

  function Without<T>(s: seq<T>, i: nat): (r: seq<T>)
    requires i < |s|
    ensures |r| == |s| - 1
    ensures forall j :: 0 <= j < |r| ==> r[j] == s[if j < i then j else j + 1]
  {
    s[..i] + s[i + 1..]
  }

  ghost predicate Distinct<T>(s: seq<T>) {
    forall i, j :: 0 <= i < j < |s| ==> s[i] != s[j]
  }

  ghost predicate Ascending(s: seq<nat>) {
    forall i, j :: 0 <= i < j < |s| ==> s[i] < s[j]
  }

  /** Every number below `|p|` occurs exactly once. */
  ghost predicate Permutation(p: seq<nat>) {
    && (forall i :: 0 <= i < |p| ==> p[i] < |p|)
    && Distinct(p)
    && (forall r :: 0 <= r < |p| ==> r in p)
  }

  /** The place of `x` in `s`. */
  ghost function PosOf<T>(s: seq<T>, x: T): (i: nat)
    requires x in s
    ensures i < |s| && s[i] == x
  {
    var i :| 0 <= i < |s| && s[i] == x;
    i
  }

  lemma PosOfIs<T>(s: seq<T>, i: nat)
    requires Distinct(s) && i < |s|
    ensures PosOf(s, s[i]) == i
  {
  }

  /** `a` stands before `b` in `s`. */
  ghost predicate Before<T>(s: seq<T>, a: T, b: T) {
    exists i, j :: 0 <= i < j < |s| && s[i] == a && s[j] == b
  }

  /** Numbers below `n` stand in `t` in the order in which they stand in `s`. */
  ghost predicate KeepsOrder(s: seq<nat>, t: seq<nat>, n: nat) {
    forall a: nat, b: nat :: a < n && b < n ==> (Before(t, a, b) <==> Before(s, a, b))
  }

  lemma KeepsOrderOf(s: seq<nat>, t: seq<nat>, n: nat, a: nat, b: nat)
    requires KeepsOrder(s, t, n) && a < n && b < n
    ensures Before(t, a, b) == Before(s, a, b)
  {
  }

  lemma BeforeAt<T>(s: seq<T>, i: nat, j: nat)
    requires Distinct(s) && i < |s| && j < |s|
    ensures Before(s, s[i], s[j]) <==> i < j
  {
  }

  lemma BeforeIsPos<T>(s: seq<T>, a: T, b: T)
    requires Distinct(s) && a in s && b in s
    ensures Before(s, a, b) <==> PosOf(s, a) < PosOf(s, b)
  {
    if Before(s, a, b) {
      var i, j :| 0 <= i < j < |s| && s[i] == a && s[j] == b;
      PosOfIs(s, i);
      PosOfIs(s, j);
    }
  }

  lemma PrefixSnoc<T>(s: seq<T>, j: nat)
    requires j < |s|
    ensures s[..j + 1] == s[..j] + [s[j]]
  {
  }

  lemma WholePrefix<T>(s: seq<T>)
    ensures s[..|s|] == s
  {
  }

  lemma NextAbove(s: seq<nat>, i: nat, x: nat)
    requires Ascending(s) && i < |s| && x in s && s[i] < x
    ensures i + 1 < |s| && s[i + 1] <= x
  {
    var j := PosOf(s, x);
    assert i < j;
  }

  lemma EmptyOrNot<T>(s: seq<T>)
    ensures s == [] || s[0] in s
  {
  }

  /** An ascending list is determined by its elements. */
  lemma {:induction false} AscendingIsUnique(a: seq<nat>, b: seq<nat>)
    requires Ascending(a) && Ascending(b) && forall x :: x in a <==> x in b
    ensures a == b
  {
    EmptyOrNot(b);
    if a != [] {
      assert a[|a| - 1] in a;
      var i := PosOf(b, a[|a| - 1]);
      assert b[|b| - 1] in b;
      var j := PosOf(a, b[|b| - 1]);
      assert i == |b| - 1;
      var x, y := a[..|a| - 1], b[..|b| - 1];
      forall z ensures z in x <==> z in y {
        if z in x {
          assert z in b && z != b[|b| - 1];
        }
        if z in y {
          assert z in a && z != a[|a| - 1];
        }
      }
      AscendingIsUnique(x, y);
    }
  }

  /** `places` lists, in order, the numbers below `n` that `keep` picks. */
  ghost predicate Selects(places: seq<nat>, n: nat, keep: nat -> bool) {
    && Ascending(places)
    && (forall j :: 0 <= j < |places| ==> places[j] < n && keep(places[j]))
    && forall x :: 0 <= x < n && keep(x) ==> x in places
  }

  lemma SelectsOn(places: seq<nat>, n: nat, keep: nat -> bool)
    requires Selects(places, n, keep)
    ensures Selects(Appended(places, n, keep(n)), n + 1, keep)
  {
    var r := Appended(places, n, keep(n));
    forall x | 0 <= x < n + 1 && keep(x) ensures x in r {
      var j := if x < n then PosOf(places, x) else |places|;
      assert r[j] == x;
    }
  }

  function Appended<T>(s: seq<T>, x: T, put: bool): seq<T> {
    if put then s + [x] else s
  }

  ghost function Selection(n: nat, keep: nat -> bool): (r: seq<nat>)
    ensures Selects(r, n, keep)
  {
    if n == 0 then [] else
      var before := Selection(n - 1, keep);
      SelectsOn(before, n - 1, keep);
      Appended(before, n - 1, keep(n - 1))
  }

  lemma SelectsOnce(a: seq<nat>, b: seq<nat>, n: nat, keep: nat -> bool)
    requires Selects(a, n, keep) && Selects(b, n, keep)
    ensures a == b
  {
    AscendingIsUnique(a, b);
  }

  /** What `f` makes of every element, one after the other. */
  ghost function Collect<T, U>(s: seq<T>, f: T -> seq<U>): seq<U> {
    if s == [] then [] else Collect(s[..|s| - 1], f) + f(s[|s| - 1])
  }

  lemma CollectSnoc<T, U>(s: seq<T>, x: T, f: T -> seq<U>)
    ensures Collect(s + [x], f) == Collect(s, f) + f(x)
  {
    assert (s + [x])[..|s|] == s;
  }

  lemma {:induction false} CollectConcat<T, U>(a: seq<T>, b: seq<T>, f: T -> seq<U>)
    ensures Collect(a + b, f) == Collect(a, f) + Collect(b, f)
  {
    if b == [] {
      assert a + b == a;
    } else {
      var c, x := b[..|b| - 1], b[|b| - 1];
      assert b == c + [x] && a + b == (a + c) + [x];
      CollectConcat(a, c, f);
      CollectSnoc(a + c, x, f);
      CollectSnoc(c, x, f);
    }
  }

  /** The elements before `i` are replaced by what `f` makes of them; the others still stand. */
  ghost predicate Halfway<T>(was: seq<T>, f: T -> seq<T>, i: nat, now: seq<T>) {
    i <= |was| && now == Collect(was[..i], f) + was[i..]
  }

  /** Element `p` replaced by what `f` makes of it. */
  ghost function ReplacedBy<T>(now: seq<T>, p: nat, made: seq<T>): seq<T>
    requires p < |now|
  {
    now[..p] + made + now[p + 1..]
  }

  lemma HalfwayOn<T>(was: seq<T>, f: T -> seq<T>, i: nat, now: seq<T>)
    requires Halfway(was, f, i, now) && i < |was|
    ensures |Collect(was[..i], f)| < |now| && now[|Collect(was[..i], f)|] == was[i]
    ensures Halfway(was, f, i + 1, ReplacedBy(now, |Collect(was[..i], f)|, f(was[i])))
    ensures |Collect(was[..i + 1], f)| == |Collect(was[..i], f)| + |f(was[i])|
  {
    PrefixSnoc(was, i);
    CollectSnoc(was[..i], was[i], f);
    var p := |Collect(was[..i], f)|;
    assert was[i..] == [was[i]] + was[i + 1..];
    assert now[..p] == Collect(was[..i], f) && now[p + 1..] == was[i + 1..];
  }

  lemma HalfwayEnds<T>(was: seq<T>, f: T -> seq<T>, i: nat, now: seq<T>)
    requires Halfway(was, f, i, now)
    ensures |Collect(was[..i], f)| < |now| <==> i < |was|
    ensures i == |was| ==> now == Collect(was, f)
  {
    if i == |was| {
      WholePrefix(was);
    }
  }
}
