/** `obtain_row`: how the population places the row of a node that splits a connection. */
module RowOrder {
  import opened Sequences

  /** `row_orderer_list`, `historical_row` (-1 for nothing recorded) and `last_row`. */
  datatype Rows = Rows(order: seq<nat>, history: seq<int>, last: nat)

  /** The row order is a permutation of the rows allotted so far. */
  ghost predicate RowsOk(s: Rows) {
    Permutation(s.order) && |s.order| == s.last
  }

  function Recorded(history: seq<int>, node: nat): int {
    if node < |history| then history[node] else -1
  }

  /** The history grown so that `node` has a slot. */
  function Padded(history: seq<int>, node: nat): (r: seq<int>)
    ensures node < |r|
    ensures forall n: nat :: (Recorded(r, n) >= 0 <==> Recorded(history, n) >= 0) && (Recorded(history, n) >= 0 ==> Recorded(r, n) == Recorded(history, n))
  {
    if node < |history| then history else history + seq(node + 1 - |history|, _ => -1)
  }

  function Inserted<T>(s: seq<T>, at: nat, x: T): (r: seq<T>)
    requires at <= |s|
    ensures |r| == |s| + 1 && r[at] == x
    ensures forall i :: 0 <= i < |r| && i != at ==> r[i] == s[if i < at then i else i - 1]
  {
    s[..at] + [x] + s[at..]
  }

  /** Two rows that stand next to each other get a new row; rows that stand apart share the row next to
      the input; a row split from itself stays as it is and nothing is recorded. */
  ghost function Placed(s: Rows, node: nat, rowIn: nat, rowOut: nat): (Rows, nat)
    requires rowIn in s.order && rowOut in s.order
  {
    var i, o := PosOf(s.order, rowIn), PosOf(s.order, rowOut);
    if Recorded(s.history, node) >= 0 then (s, Recorded(s.history, node))
    else if i == o then (s.(history := Padded(s.history, node)), rowIn)
    else if o == i + 1 then (Rows(Inserted(s.order, i + 1, s.last), Padded(s.history, node)[node := s.last], s.last + 1), s.last)
    else if i == o + 1 then (Rows(Inserted(s.order, i - 1, s.last), Padded(s.history, node)[node := s.last], s.last + 1), s.last)
    else
      var row := s.order[if i > o then i - 1 else i + 1];
      (s.(history := Padded(s.history, node)[node := row]), row)
  }

  /** A new row is put into the order, and it is not there yet. */
  ghost predicate Grows(s: Rows, node: nat, rowIn: nat, rowOut: nat)
    requires rowIn in s.order && rowOut in s.order
  {
    var i, o := PosOf(s.order, rowIn), PosOf(s.order, rowOut);
    Recorded(s.history, node) < 0 && (o == i + 1 || i == o + 1)
  }

  lemma InsertedPermutation(p: seq<nat>, at: nat)
    requires Permutation(p) && at <= |p|
    ensures Permutation(Inserted(p, at, |p|))
  {
    var r := Inserted(p, at, |p|);
    forall x | 0 <= x < |r| ensures x in r {
      var i := if x == |p| then at else (var j := PosOf(p, x); if j < at then j else j + 1);
      assert r[i] == x;
    }
  }

  lemma InsertedKeepsOrder(p: seq<nat>, at: nat, x: nat, a: nat, b: nat)
    requires at <= |p| && a != x && b != x
    ensures Before(Inserted(p, at, x), a, b) <==> Before(p, a, b)
  {
    var r := Inserted(p, at, x);
    if Before(p, a, b) {
      var i, j :| 0 <= i < j < |p| && p[i] == a && p[j] == b;
      assert r[if i < at then i else i + 1] == a && r[if j < at then j else j + 1] == b;
    }
    if Before(r, a, b) {
      var i, j :| 0 <= i < j < |r| && r[i] == a && r[j] == b;
      assert p[if i < at then i else i - 1] == a && p[if j < at then j else j - 1] == b;
    }
  }

  /** The order stays a permutation, and rows already there keep their relative order. */
  lemma PlacedKeepsOrder(s: Rows, node: nat, rowIn: nat, rowOut: nat)
    requires RowsOk(s) && rowIn in s.order && rowOut in s.order
    requires Recorded(s.history, node) < s.last
    ensures var (r, row) := Placed(s, node, rowIn, rowOut); RowsOk(r) && row in r.order && s.last <= r.last
    ensures KeepsOrder(s.order, Placed(s, node, rowIn, rowOut).0.order, s.last)
  {
    var (r, row) := Placed(s, node, rowIn, rowOut);
    if Grows(s, node, rowIn, rowOut) {
      var i, o := PosOf(s.order, rowIn), PosOf(s.order, rowOut);
      var at := if o == i + 1 then i + 1 else i - 1;
      InsertedPermutation(s.order, at);
      forall a: nat, b: nat | a < s.last && b < s.last ensures Before(r.order, a, b) <==> Before(s.order, a, b) {
        InsertedKeepsOrder(s.order, at, s.last, a, b);
      }
    }
  }

  /** `x` stands strictly between `a` and `b`, whichever of them comes first. */
  ghost predicate Between<T>(s: seq<T>, a: T, x: T, b: T) {
    (Before(s, a, x) && Before(s, x, b)) || (Before(s, b, x) && Before(s, x, a))
  }

  /** A node placed for the first time lies strictly between its endpoints if and only if they are in
      different rows and the connection does not go back by exactly one row. Then it lies before both. */
  lemma PlacedBetween(s: Rows, node: nat, rowIn: nat, rowOut: nat)
    requires RowsOk(s) && rowIn in s.order && rowOut in s.order && Recorded(s.history, node) < 0
    ensures var (r, row) := Placed(s, node, rowIn, rowOut);
      && (Between(r.order, rowIn, row, rowOut) <==> rowIn != rowOut && PosOf(s.order, rowIn) != PosOf(s.order, rowOut) + 1)
      && (PosOf(s.order, rowIn) < PosOf(s.order, rowOut) ==> Before(r.order, rowIn, row) && Before(r.order, row, rowOut))
      && (PosOf(s.order, rowIn) == PosOf(s.order, rowOut) + 1 ==> Before(r.order, row, rowOut) && Before(r.order, rowOut, rowIn))
  {
    var (r, row) := Placed(s, node, rowIn, rowOut);
    PlacedKeepsOrder(s, node, rowIn, rowOut);
    var i, o := PosOf(s.order, rowIn), PosOf(s.order, rowOut);
    // The places of rowIn, rowOut and the new node's row in the new order.
    var (i', o', x) :=
      if i == o then (i, o, i)
      else if o == i + 1 then (i, o + 1, i + 1)
      else if i == o + 1 then (i + 1, o + 1, o)
      else (i, o, if i > o then i - 1 else i + 1);
    assert r.order[i'] == rowIn && r.order[o'] == rowOut && r.order[x] == row;
    BeforeAt(r.order, i', x);
    BeforeAt(r.order, x, o');
    BeforeAt(r.order, o', x);
    BeforeAt(r.order, x, i');
    BeforeAt(r.order, o', i');
  }

  /** Which row it is: one already recorded stays; the row itself if input and output share it; else the row next to that of
      the input, on the side of the output, and a new one if the two stand next to each other; but if the connection goes back
      by one row, a new row in front of both. */
  lemma PlacedNextToInput(s: Rows, node: nat, rowIn: nat, rowOut: nat)
    requires RowsOk(s) && rowIn in s.order && rowOut in s.order && Recorded(s.history, node) < s.last
    ensures var (r, row) := Placed(s, node, rowIn, rowOut); row in r.order && rowIn in r.order && rowOut in r.order
    ensures var (r, row) := Placed(s, node, rowIn, rowOut);
      Recorded(s.history, node) >= 0 ==> row == Recorded(s.history, node) && r == s
    ensures var (r, row) := Placed(s, node, rowIn, rowOut); var i, o := PosOf(s.order, rowIn), PosOf(s.order, rowOut);
      Recorded(s.history, node) < 0 ==>
        && (if i == o then Recorded(r.history, node) < 0 else Recorded(r.history, node) == row)
        && (if o == i + 1 || i == o + 1 then row == s.last && r.last == s.last + 1 else row in s.order && r.order == s.order && r.last == s.last)
        && (i == o ==> row == rowIn)
        && (i < o ==> PosOf(r.order, row) == PosOf(r.order, rowIn) + 1)
        && (i > o + 1 ==> PosOf(r.order, row) == PosOf(r.order, rowIn) - 1)
        && (i == o + 1 ==> PosOf(r.order, row) == PosOf(r.order, rowOut) - 1 && PosOf(r.order, rowOut) < PosOf(r.order, rowIn))
  {
    var (r, row) := Placed(s, node, rowIn, rowOut);
    PlacedKeepsOrder(s, node, rowIn, rowOut);
    if Recorded(s.history, node) < 0 {
      var i, o := PosOf(s.order, rowIn), PosOf(s.order, rowOut);
      var (i', o', x) :=
        if i == o then (i, o, i)
        else if o == i + 1 then (i, o + 1, i + 1)
        else if i == o + 1 then (i + 1, o + 1, o)
        else (i, o, if i > o then i - 1 else i + 1);
      assert r.order[i'] == rowIn && r.order[o'] == rowOut && r.order[x] == row;
      PosOfIs(r.order, i');
      PosOfIs(r.order, o');
      PosOfIs(r.order, x);
    }
  }

  /** The first row stays first if and only if the node is not placed for the first time on a connection from
      the second row back into the first: then its new row comes before the row of the inputs. */
  lemma FirstRowStays(s: Rows, node: nat, rowIn: nat, rowOut: nat)
    requires RowsOk(s) && rowIn in s.order && rowOut in s.order
    ensures var (r, _) := Placed(s, node, rowIn, rowOut);
      r.order != [] && (r.order[0] == s.order[0] <==>
        !(Recorded(s.history, node) < 0 && PosOf(s.order, rowIn) == 1 && PosOf(s.order, rowOut) == 0))
  {
  }
}
