/** The closed formula of a substrate node (`SpatialNode::GetNodeFunction`, SpatialNode.cpp:89-145) and how it is read:
    by the usual precedence of the operators, with the node function a function, as the file for octave defines it, or
    a macro, as the header for C++ does (UserFunctions.hpp:10-19). */
module Formulas {

  /** A node and all it is fed by. */
  datatype Net = Source(name: string, id: nat) | Inner(name: string, inputs: Inputs)
  datatype Inputs = NoInput | Feed(node: Net, weight: real, more: Inputs)

  /** The values of the inputs, and the operations of the machine: nothing is required of them, so that they may round. */
  datatype World = World(xs: seq<real>, exp: real -> real, mul: (real, real) -> real, div: (real, real) -> real)

  // ---------- what a node means ----------

  function At(xs: seq<real>, id: nat): real {
    if id < |xs| then xs[id] else 0.0
  }

  /** The sigmoid without its last factor, for an argument of the exponential function. */
  function Half(e: real, w: World): real {
    w.div(1.0, 1.0 + w.exp(e)) - 0.5
  }

  function Sigmoid(x: real, w: World): real {
    w.mul(Half(w.mul(-4.9, x), w), 2.0)
  }

  /** `OutputNodeFunction`: every other name is an error and gives zero. */
  function Apply(name: string, x: real, w: World): real {
    if name == "SIGMOID" then Sigmoid(x, w) else 0.0
  }

  /** The output of a node: its function of its input, or of the weighted sum of the outputs of its inputs. */
  function Value(t: Net, w: World): real
    decreases t, 1
  {
    Apply(t.name, Gathered(t, w), w)
  }

  function Gathered(t: Net, w: World): real
    decreases t, 0
  {
    match t
    case Source(_, id) => At(w.xs, id)
    case Inner(_, inputs) => SumFrom(0.0, inputs, w)
  }

  function SumFrom(acc: real, i: Inputs, w: World): real
    decreases i
  {
    match i
    case NoInput => acc
    case Feed(node, weight, more) => SumFrom(acc + w.mul(Value(node, w), weight), more, w)
  }

  /** The function of every node is defined. */
  predicate Known(t: Net)
    decreases t, 1
  {
    t.name == "SIGMOID" && InsideKnown(t)
  }

  predicate InsideKnown(t: Net)
    decreases t, 0
  {
    t.Inner? ==> AllKnown(t.inputs)
  }

  predicate AllKnown(i: Inputs)
    decreases i
  {
    i.Feed? ==> Known(i.node) && AllKnown(i.more)
  }

  // ---------- the text of a formula ----------

  datatype Token =
    | Name(name: string) | Input(id: nat) | Number(value: real)
    | Open | Close | Plus | Minus | Times | Over | Exp | Cast

  datatype Text = End | Then(head: Token, tail: Text)

  function Length(x: Text): nat {
    match x
    case End => 0
    case Then(_, tail) => 1 + Length(tail)
  }

  /** The text `GetNodeFunction` writes for a node, followed by `rest`. */
  function Formula(t: Net, rest: Text): Text {
    Then(Name(t.name), Then(Open, Inside(t, Then(Close, rest))))
  }

  function Inside(t: Net, rest: Text): Text
    decreases t, 0
  {
    match t
    case Source(_, id) => Then(Input(id), rest)
    case Inner(_, NoInput) => Then(Number(0.0), rest)
    case Inner(_, Feed(node, weight, more)) => Weighted(node, weight, MoreText(more, rest))
  }

  function Weighted(node: Net, weight: real, rest: Text): Text
    decreases node, 1
  {
    var after := Then(Times, Then(Number(weight), rest));
    Then(Name(node.name), Then(Open, Inside(node, Then(Close, after))))
  }

  function MoreText(more: Inputs, rest: Text): Text {
    match more
    case NoInput => rest
    case Feed(node, weight, others) => Then(Plus, Weighted(node, weight, MoreText(others, rest)))
  }

  // ---------- reading by precedence ----------

  datatype Reading = Fail | Got(value: real, rest: Text)

  /** A sum: terms joined by plus and minus, from the left. */
  function Expr(x: Text, w: World): (r: Reading)
    ensures r.Got? ==> Length(r.rest) < Length(x)
    decreases Length(x), 3
  {
    match Term(x, w)
    case Fail => Fail
    case Got(v, rest) => MoreTerms(v, rest, w)
  }

  function MoreTerms(acc: real, x: Text, w: World): (r: Reading)
    ensures r.Got? ==> Length(r.rest) <= Length(x)
    decreases Length(x), 3
  {
    if x.Then? && (x.head.Plus? || x.head.Minus?) then
      match Term(x.tail, w)
      case Fail => Fail
      case Got(v, rest) => MoreTerms(if x.head.Plus? then acc + v else acc - v, rest, w)
    else Got(acc, x)
  }

  /** A product: factors joined by times and divide, from the left. */
  function Term(x: Text, w: World): (r: Reading)
    ensures r.Got? ==> Length(r.rest) < Length(x)
    decreases Length(x), 2
  {
    match Factor(x, w)
    case Fail => Fail
    case Got(v, rest) => MoreFactors(v, rest, w)
  }

  function MoreFactors(acc: real, x: Text, w: World): (r: Reading)
    ensures r.Got? ==> Length(r.rest) <= Length(x)
    decreases Length(x), 2
  {
    if x.Then? && (x.head.Times? || x.head.Over?) then
      match Factor(x.tail, w)
      case Fail => Fail
      case Got(v, rest) => MoreFactors(if x.head.Times? then w.mul(acc, v) else w.div(acc, v), rest, w)
    else Got(acc, x)
  }

  /** A number, an input, a sign or a cast before a factor, parentheses, or a defined function with its argument. */
  function Factor(x: Text, w: World): (r: Reading)
    ensures r.Got? ==> Length(r.rest) < Length(x)
    decreases Length(x), 1
  {
    if x.End? then Fail else match x.head
    case Number(value) => Got(value, x.tail)
    case Input(id) => Got(At(w.xs, id), x.tail)
    case Minus => (match Factor(x.tail, w) case Fail => Fail case Got(v, rest) => Got(-v, rest))
    case Cast => Factor(x.tail, w)
    case Open => Group(x.tail, w)
    case Exp => (match Argument(x.tail, w) case Fail => Fail case Got(v, rest) => Got(w.exp(v), rest))
    case Name(name) =>
      if name != "SIGMOID" then Fail else
      (match Argument(x.tail, w) case Fail => Fail case Got(v, rest) => Got(Sigmoid(v, w), rest))
    case _ => Fail
  }

  /** What stands between an opening parenthesis, just read, and its closing one. */
  function Group(x: Text, w: World): (r: Reading)
    ensures r.Got? ==> Length(r.rest) < Length(x)
    decreases Length(x), 4
  {
    match Expr(x, w)
    case Fail => Fail
    case Got(v, rest) => if rest.Then? && rest.head.Close? then Got(v, rest.tail) else Fail
  }

  function Argument(x: Text, w: World): (r: Reading)
    ensures r.Got? ==> Length(r.rest) < Length(x)
    decreases Length(x), 4
  {
    if x.Then? && x.head.Open? then Group(x.tail, w) else Fail
  }

  /** The value of a whole text. */
  function Read(x: Text, w: World): Reading {
    match Expr(x, w)
    case Fail => Fail
    case Got(v, rest) => if rest == End then Got(v, rest) else Fail
  }

  // ---------- the function reading ----------

  /** What a reading must be: a value if every function is defined, or nothing. */
  function Wanted(known: bool, v: real, rest: Text): Reading {
    if known then Got(v, rest) else Fail
  }

  predicate Stops(x: Text) {
    x.End? || x.head.Close? || x.head.Plus?
  }

  lemma MoreTextStops(i: Inputs, rest: Text)
    ensures Stops(MoreText(i, Then(Close, rest)))
  {
  }

  lemma TermFails(acc: real, x: Text, w: World)
    requires Term(x, w) == Fail
    ensures Expr(x, w) == MoreTerms(acc, Then(Plus, x), w) == Fail
  {
  }

  lemma TermReads(acc: real, x: Text, v: real, rest: Text, w: World)
    requires Term(x, w) == Got(v, rest)
    ensures Expr(x, w) == MoreTerms(v, rest, w)
    ensures MoreTerms(acc, Then(Plus, x), w) == MoreTerms(acc + v, rest, w)
  {
  }

  lemma NameFails(name: string, x: Text, w: World)
    requires name != "SIGMOID" || Expr(x, w) == Fail
    ensures Factor(Then(Name(name), Then(Open, x)), w) == Fail
  {
    assert Argument(Then(Open, x), w) == Group(x, w);
  }

  lemma NameReads(name: string, x: Text, v: real, rest: Text, w: World)
    requires name == "SIGMOID" && Expr(x, w) == Got(v, Then(Close, rest))
    ensures Factor(Then(Name(name), Then(Open, x)), w) == Got(Sigmoid(v, w), rest)
  {
    assert Group(x, w) == Got(v, rest);
    assert Argument(Then(Open, x), w) == Group(x, w);
  }

  lemma AloneReads(v: real, x: Text, rest: Text, w: World)
    requires Factor(x, w) == Got(v, Then(Close, rest))
    ensures Expr(x, w) == Got(v, Then(Close, rest))
  {
    assert MoreFactors(v, Then(Close, rest), w) == Got(v, Then(Close, rest));
    assert MoreTerms(v, Then(Close, rest), w) == Got(v, Then(Close, rest));
  }

  lemma ProductReads(x: Text, v: real, weight: real, rest: Text, w: World)
    requires Factor(x, w) == Got(v, Then(Times, Then(Number(weight), rest))) && Stops(rest)
    ensures Term(x, w) == Got(w.mul(v, weight), rest)
  {
    var tail := Then(Number(weight), rest);
    assert Factor(tail, w) == Got(weight, rest);
    assert MoreFactors(w.mul(v, weight), rest, w) == Got(w.mul(v, weight), rest);
  }

  lemma ReadFactor(t: Net, rest: Text, w: World)
    ensures Factor(Formula(t, rest), w) == Wanted(Known(t), Value(t, w), rest)
    decreases t, 1
  {
    var x := Inside(t, Then(Close, rest));
    ReadInside(t, rest, w);
    if Known(t) {
      NameReads(t.name, x, Gathered(t, w), rest, w);
    } else {
      NameFails(t.name, x, w);
    }
  }

  lemma {:induction false} ReadInside(t: Net, rest: Text, w: World)
    ensures Expr(Inside(t, Then(Close, rest)), w) == Wanted(InsideKnown(t), Gathered(t, w), Then(Close, rest))
    decreases t, 0
  {
    var after := Then(Close, rest);
    match t
    case Source(_, id) => AloneReads(At(w.xs, id), Inside(t, after), rest, w);
    case Inner(_, NoInput) => AloneReads(0.0, Inside(t, after), rest, w);
    case Inner(_, Feed(node, weight, more)) =>
      var tail := MoreText(more, after);
      var x, v := Weighted(node, weight, tail), w.mul(Value(node, w), weight);
      ReadWeighted(node, weight, more, rest, w);
      if Known(node) {
        TermReads(0.0, x, v, tail, w);
        ReadMore(v, more, rest, w);
        assert 0.0 + v == v;
      } else {
        TermFails(0.0, x, w);
      }
  }

  /** A weighted input is one term. */
  lemma ReadWeighted(node: Net, weight: real, more: Inputs, rest: Text, w: World)
    ensures var tail := MoreText(more, Then(Close, rest));
      Term(Weighted(node, weight, tail), w) == Wanted(Known(node), w.mul(Value(node, w), weight), tail)
    decreases node, 2
  {
    var tail := MoreText(more, Then(Close, rest));
    var x := Then(Times, Then(Number(weight), tail));
    MoreTextStops(more, rest);
    ReadFactor(node, x, w);
    if Known(node) {
      ProductReads(Formula(node, x), Value(node, w), weight, tail, w);
    }
  }

  lemma {:induction false} ReadMore(acc: real, i: Inputs, rest: Text, w: World)
    ensures MoreTerms(acc, MoreText(i, Then(Close, rest)), w) == Wanted(AllKnown(i), SumFrom(acc, i, w), Then(Close, rest))
    decreases i
  {
    match i
    case NoInput =>
    case Feed(node, weight, more) =>
      var tail := MoreText(more, Then(Close, rest));
      var x, v := Weighted(node, weight, tail), w.mul(Value(node, w), weight);
      ReadWeighted(node, weight, more, rest, w);
      if Known(node) {
        TermReads(acc, x, v, tail, w);
        ReadMore(acc + v, more, rest, w);
      } else {
        TermFails(acc, x, w);
      }
  }

  lemma WholeReads(x: Text, v: real, w: World)
    requires Factor(x, w) == Got(v, End)
    ensures Read(x, w) == Got(v, End)
  {
    assert MoreFactors(v, End, w) == Got(v, End);
    assert Term(x, w) == Got(v, End);
    assert MoreTerms(v, End, w) == Got(v, End);
  }

  /** The formula of a node, read with the node function a function, has the value of the node; if a node function is
      not defined, it cannot be read. */
  lemma FormulaMeansValue(t: Net, w: World)
    ensures Read(Formula(t, End), w) == Wanted(Known(t), Value(t, w), End)
  {
    ReadFactor(t, End, w);
    if Known(t) {
      WholeReads(Formula(t, End), Value(t, w), w);
    } else {
      assert Term(Formula(t, End), w) == Fail;
    }
  }
}
