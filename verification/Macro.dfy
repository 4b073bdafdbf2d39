/** The formula of a node read as the generated C++ header makes the compiler read it: `SIGMOID(X)` is a macro, and its
    body uses X without parentheses (UserFunctions.hpp:10-19, HyperNeat.cpp:382-397). */
module Macros {
  import opened Formulas

  // ---------- the text after the macros are replaced ----------

  /** `(double)((1.0 / (1.0 + exp(-4.9*` and then `x`. */
  function Head(x: Text): Text {
    Then(Cast, Then(Open, Then(Open, Then(Number(1.0), Then(Over, Then(Open, Then(Number(1.0), Then(Plus, Then(Exp,
    Then(Open, Scaled(x)))))))))))
  }

  /** `-4.9*` and then `x`. */
  function Scaled(x: Text): Text {
    Then(Minus, Then(Number(4.9), Then(Times, x)))
  }

  /** `)))-0.5)*2.0` and then `rest`, without the first parenthesis. */
  function Foot(rest: Text): Text {
    Then(Close, Then(Close, Then(Minus, Then(Number(0.5), Then(Close, Then(Times, Then(Number(2.0), rest)))))))
  }

  /** The text of a node, every call of the macro replaced by its body. */
  function Expanded(t: Net, rest: Text): Text {
    Head(Within(t, Then(Close, Foot(rest))))
  }

  function Within(t: Net, rest: Text): Text
    decreases t, 0
  {
    match t
    case Source(_, id) => Then(Input(id), rest)
    case Inner(_, NoInput) => Then(Number(0.0), rest)
    case Inner(_, Feed(node, weight, more)) => WeightedText(node, weight, OthersText(more, rest))
  }

  function WeightedText(node: Net, weight: real, rest: Text): Text
    decreases node, 1
  {
    Head(Within(node, Then(Close, Foot(Then(Times, Then(Number(weight), rest))))))
  }

  function OthersText(more: Inputs, rest: Text): Text {
    match more
    case NoInput => rest
    case Feed(node, weight, others) => Then(Plus, WeightedText(node, weight, OthersText(others, rest)))
  }

  // ---------- what it says ----------

  function MacroValue(t: Net, w: World): real
    decreases t, 1
  {
    w.mul(Half(MacroArgument(t, w), w), 2.0)
  }

  /** The argument of the exponential function: only the first of the terms is scaled. */
  function MacroArgument(t: Net, w: World): real
    decreases t, 0
  {
    match t
    case Source(_, id) => w.mul(-4.9, At(w.xs, id))
    case Inner(_, NoInput) => w.mul(-4.9, 0.0)
    case Inner(_, Feed(node, weight, more)) =>
      MacroSum(w.mul(w.mul(w.mul(-4.9, Half(MacroArgument(node, w), w)), 2.0), weight), more, w)
  }

  function MacroSum(acc: real, i: Inputs, w: World): real
    decreases i
  {
    match i
    case NoInput => acc
    case Feed(node, weight, more) => MacroSum(acc + w.mul(MacroValue(node, w), weight), more, w)
  }

  // ---------- reading the macro body ----------

  lemma ReadScaled(x: Text, v: real, rest: Text, w: World)
    requires MoreFactors(-4.9, Then(Times, x), w) == Got(v, rest)
    ensures Term(Scaled(x), w) == Got(v, rest)
  {
    assert Factor(Then(Number(4.9), Then(Times, x)), w) == Got(4.9, Then(Times, x));
    assert Factor(Scaled(x), w) == Got(-4.9, Then(Times, x));
  }

  /** `1.0 + exp( x )`. */
  lemma ReadDivisor(x: Text, e: real, rest: Text, w: World)
    requires Expr(x, w) == Got(e, Then(Close, Then(Close, rest)))
    ensures Group(Then(Number(1.0), Then(Plus, Then(Exp, Then(Open, x)))), w) == Got(1.0 + w.exp(e), rest)
  {
    var after := Then(Close, rest);
    var power := Then(Exp, Then(Open, x));
    assert Argument(Then(Open, x), w) == Got(e, after);
    assert Factor(power, w) == Got(w.exp(e), after);
    assert MoreFactors(w.exp(e), after, w) == Got(w.exp(e), after);
    assert Term(power, w) == Got(w.exp(e), after);
    var sum := Then(Number(1.0), Then(Plus, power));
    assert Factor(sum, w) == Got(1.0, Then(Plus, power));
    assert MoreFactors(1.0, Then(Plus, power), w) == Got(1.0, Then(Plus, power));
    assert Term(sum, w) == Got(1.0, Then(Plus, power));
    TermReads(1.0, power, w.exp(e), after, w);
    assert MoreTerms(1.0 + w.exp(e), after, w) == Got(1.0 + w.exp(e), after);
  }

  /** `1.0 / ( d )`. */
  lemma ReadFraction(d: Text, v: real, rest: Text, w: World)
    requires Group(d, w) == Got(v, Then(Close, rest))
    ensures Group(Then(Number(1.0), Then(Over, Then(Open, d))), w) == Got(w.div(1.0, v), rest)
  {
    var after := Then(Close, rest);
    var x := Then(Number(1.0), Then(Over, Then(Open, d)));
    assert Factor(x, w) == Got(1.0, Then(Over, Then(Open, d)));
    assert Factor(Then(Open, d), w) == Got(v, after);
    assert MoreFactors(w.div(1.0, v), after, w) == Got(w.div(1.0, v), after);
    assert Term(x, w) == Got(w.div(1.0, v), after);
    assert MoreTerms(w.div(1.0, v), after, w) == Got(w.div(1.0, v), after);
  }

  /** `( f ) - 0.5 )`. */
  lemma ReadLessHalf(f: Text, v: real, rest: Text, w: World)
    requires Group(f, w) == Got(v, Then(Minus, Then(Number(0.5), Then(Close, rest))))
    ensures Group(Then(Open, f), w) == Got(v - 0.5, rest)
  {
    var half := Then(Number(0.5), Then(Close, rest));
    assert Factor(Then(Open, f), w) == Got(v, Then(Minus, half));
    assert MoreFactors(v, Then(Minus, half), w) == Got(v, Then(Minus, half));
    assert Term(Then(Open, f), w) == Got(v, Then(Minus, half));
    assert Factor(half, w) == Got(0.5, Then(Close, rest));
    assert MoreFactors(0.5, Then(Close, rest), w) == Got(0.5, Then(Close, rest));
    assert Term(half, w) == Got(0.5, Then(Close, rest));
    assert MoreTerms(v - 0.5, Then(Close, rest), w) == Got(v - 0.5, Then(Close, rest));
    assert MoreTerms(v, Then(Minus, half), w) == Got(v - 0.5, Then(Close, rest));
  }

  lemma ReadHead(x: Text, e: real, rest: Text, w: World)
    requires Expr(Scaled(x), w) == Got(e, Then(Close, Foot(rest)))
    ensures Factor(Head(x), w) == Got(Half(e, w), Then(Times, Then(Number(2.0), rest)))
  {
    var times := Then(Times, Then(Number(2.0), rest));
    var less := Then(Minus, Then(Number(0.5), Then(Close, times)));
    var power := Then(Exp, Then(Open, Scaled(x)));
    var divisor := Then(Number(1.0), Then(Plus, power));
    var fraction := Then(Number(1.0), Then(Over, Then(Open, divisor)));
    ReadDivisor(Scaled(x), e, Then(Close, less), w);
    ReadFraction(divisor, 1.0 + w.exp(e), less, w);
    ReadLessHalf(fraction, w.div(1.0, 1.0 + w.exp(e)), times, w);
    assert Factor(Then(Open, Then(Open, fraction)), w) == Got(Half(e, w), times);
  }

  // ---------- reading the whole ----------

  lemma OthersTextStops(i: Inputs, rest: Text)
    ensures Stops(OthersText(i, Then(Close, rest)))
  {
  }

  lemma ReadNode(t: Net, rest: Text, w: World)
    ensures Factor(Expanded(t, rest), w) == Got(Half(MacroArgument(t, w), w), Then(Times, Then(Number(2.0), rest)))
    decreases t, 1
  {
    ReadWithin(t, Foot(rest), w);
    ReadHead(Within(t, Then(Close, Foot(rest))), MacroArgument(t, w), rest, w);
  }

  /** `*2.0* weight`, behind something read so far. */
  lemma TwoFactors(acc: real, weight: real, rest: Text, w: World)
    requires Stops(rest)
    ensures MoreFactors(acc, Then(Times, Then(Number(2.0), Then(Times, Then(Number(weight), rest)))), w)
         == Got(w.mul(w.mul(acc, 2.0), weight), rest)
  {
    var last := Then(Number(weight), rest);
    var first := Then(Number(2.0), Then(Times, last));
    var a, b := w.mul(acc, 2.0), w.mul(w.mul(acc, 2.0), weight);
    assert Factor(last, w) == Got(weight, rest);
    assert MoreFactors(b, rest, w) == Got(b, rest);
    assert MoreFactors(a, Then(Times, last), w) == Got(b, rest);
    assert Factor(first, w) == Got(2.0, Then(Times, last));
  }

  /** A weighted input behind a plus, and behind the factor -4.9. */
  lemma ReadInput(node: Net, weight: real, more: Inputs, rest: Text, w: World)
    ensures var tail := OthersText(more, Then(Close, rest));
      && Term(WeightedText(node, weight, tail), w) == Got(w.mul(MacroValue(node, w), weight), tail)
      && Term(Scaled(WeightedText(node, weight, tail)), w)
         == Got(w.mul(w.mul(w.mul(-4.9, Half(MacroArgument(node, w), w)), 2.0), weight), tail)
    decreases node, 2
  {
    var tail := OthersText(more, Then(Close, rest));
    var times := Then(Times, Then(Number(weight), tail));
    var h := Half(MacroArgument(node, w), w);
    OthersTextStops(more, rest);
    ReadNode(node, times, w);
    TwoFactors(h, weight, tail, w);
    TwoFactors(w.mul(-4.9, h), weight, tail, w);
    ReadScaled(Expanded(node, times), w.mul(w.mul(w.mul(-4.9, h), 2.0), weight), tail, w);
  }

  lemma ReadScaledAlone(x: Text, v: real, rest: Text, w: World)
    requires Factor(x, w) == Got(v, Then(Close, rest))
    ensures Expr(Scaled(x), w) == Got(w.mul(-4.9, v), Then(Close, rest))
  {
    var p, after := w.mul(-4.9, v), Then(Close, rest);
    assert MoreFactors(p, after, w) == Got(p, after);
    ReadScaled(x, p, after, w);
    TermReads(0.0, Scaled(x), p, after, w);
    assert MoreTerms(p, after, w) == Got(p, after);
  }

  lemma {:induction false} ReadWithin(t: Net, rest: Text, w: World)
    ensures Expr(Scaled(Within(t, Then(Close, rest))), w) == Got(MacroArgument(t, w), Then(Close, rest))
    decreases t, 0
  {
    var after := Then(Close, rest);
    match t
    case Source(_, id) => ReadScaledAlone(Within(t, after), At(w.xs, id), rest, w);
    case Inner(_, NoInput) => ReadScaledAlone(Within(t, after), 0.0, rest, w);
    case Inner(_, Feed(node, weight, more)) =>
      var tail := OthersText(more, after);
      var first := w.mul(w.mul(w.mul(-4.9, Half(MacroArgument(node, w), w)), 2.0), weight);
      ReadInput(node, weight, more, rest, w);
      TermReads(0.0, Scaled(WeightedText(node, weight, tail)), first, tail, w);
      ReadOthers(first, more, rest, w);
  }

  lemma {:induction false} ReadOthers(acc: real, i: Inputs, rest: Text, w: World)
    ensures MoreTerms(acc, OthersText(i, Then(Close, rest)), w) == Got(MacroSum(acc, i, w), Then(Close, rest))
    decreases i
  {
    match i
    case NoInput =>
    case Feed(node, weight, more) =>
      var tail := OthersText(more, Then(Close, rest));
      var v := w.mul(MacroValue(node, w), weight);
      ReadInput(node, weight, more, rest, w);
      TermReads(acc, WeightedText(node, weight, tail), v, tail, w);
      ReadOthers(acc + v, more, rest, w);
  }

  /** The formula of a node, read with the node function a macro. */
  lemma MacroReading(t: Net, w: World)
    ensures Read(Expanded(t, End), w) == Got(MacroValue(t, w), End)
  {
    var x, h := Expanded(t, End), Half(MacroArgument(t, w), w);
    ReadNode(t, End, w);
    assert Factor(Then(Number(2.0), End), w) == Got(2.0, End);
    assert MoreFactors(w.mul(h, 2.0), End, w) == Got(w.mul(h, 2.0), End);
    assert Term(x, w) == Got(w.mul(h, 2.0), End);
    assert MoreTerms(w.mul(h, 2.0), End, w) == Got(w.mul(h, 2.0), End);
  }

  // ---------- when the two readings agree ----------

  /** Exact arithmetic, with a positive exponential function that takes no value twice. */
  ghost predicate Exact(w: World) {
    && (forall a, b :: w.mul(a, b) == a * b)
    && (forall a, b :: b != 0.0 ==> w.div(a, b) == a / b)
    && (forall a :: w.exp(a) > 0.0)
    && (forall a, b :: w.exp(a) == w.exp(b) ==> a == b)
  }

  /** At most one input adds to the sum: the others add up to nothing. */
  predicate Lone(t: Net, w: World) {
    t.Inner? && t.inputs.Feed? ==> SumFrom(0.0, t.inputs.more, w) == 0.0
  }

  predicate AllLone(t: Net, w: World)
    decreases t, 1
  {
    Lone(t, w) && InsideLone(t, w)
  }

  predicate InsideLone(t: Net, w: World)
    decreases t, 0
  {
    t.Inner? ==> InputsLone(t.inputs, w)
  }

  predicate InputsLone(i: Inputs, w: World)
    decreases i
  {
    i.Feed? ==> AllLone(i.node, w) && InputsLone(i.more, w)
  }

  lemma {:induction false} SumSplits(acc: real, i: Inputs, w: World)
    ensures SumFrom(acc, i, w) == acc + SumFrom(0.0, i, w)
    decreases i
  {
    match i
    case NoInput =>
    case Feed(node, weight, more) =>
      var v := w.mul(Value(node, w), weight);
      SumSplits(acc + v, more, w);
      SumSplits(0.0 + v, more, w);
  }

  lemma FractionOnce(a: real, b: real)
    requires a > 0.0 && b > 0.0 && 1.0 / a == 1.0 / b
    ensures a == b
  {
    assert 1.0 == (1.0 / a) * a && 1.0 == (1.0 / b) * b;
    assert (1.0 / a) * (a - b) == 0.0;
  }

  lemma HalfOnce(e: real, f: real, w: World)
    requires Exact(w)
    ensures w.mul(Half(e, w), 2.0) == w.mul(Half(f, w), 2.0) <==> e == f
  {
    if w.mul(Half(e, w), 2.0) == w.mul(Half(f, w), 2.0) {
      var a, b := 1.0 + w.exp(e), 1.0 + w.exp(f);
      assert w.div(1.0, a) == 1.0 / a && w.div(1.0, b) == 1.0 / b;
      FractionOnce(a, b);
    }
  }

  lemma ScaledProduct(h: real, weight: real, w: World)
    requires Exact(w)
    ensures w.mul(w.mul(w.mul(-4.9, h), 2.0), weight) == -4.9 * w.mul(w.mul(h, 2.0), weight)
  {
    var p := w.mul(w.mul(h, 2.0), weight);
    assert p == (h * 2.0) * weight;
    assert (-4.9 * h) * 2.0 == -4.9 * (h * 2.0);
    assert (-4.9 * (h * 2.0)) * weight == -4.9 * ((h * 2.0) * weight);
  }

  lemma FirstAndRest(node: Net, weight: real, more: Inputs, w: World)
    requires Exact(w) && MacroValue(node, w) == Value(node, w) && InputsAgree(more, w)
    ensures var v, s := w.mul(Value(node, w), weight), SumFrom(0.0, more, w);
      && MacroSum(w.mul(w.mul(w.mul(-4.9, Half(MacroArgument(node, w), w)), 2.0), weight), more, w) == -4.9 * v + s
      && SumFrom(0.0 + v, more, w) == v + s
  {
    var v := w.mul(Value(node, w), weight);
    ScaledProduct(Half(MacroArgument(node, w), w), weight, w);
    SumsAgree(-4.9 * v, more, w);
    SumSplits(-4.9 * v, more, w);
    SumSplits(0.0 + v, more, w);
  }

  lemma ArgumentAgrees(t: Net, w: World)
    requires Exact(w) && (t.Inner? ==> InputsAgree(t.inputs, w))
    ensures MacroArgument(t, w) == w.mul(-4.9, Gathered(t, w)) <==> Lone(t, w)
  {
    if t.Inner? && t.inputs.Feed? {
      FirstAndRest(t.inputs.node, t.inputs.weight, t.inputs.more, w);
    }
  }

  /** If the inputs of a node are read right, the node is read right exactly if it is lone. */
  lemma NodeAgrees(t: Net, w: World)
    requires Exact(w) && Known(t)
    requires t.Inner? ==> InputsAgree(t.inputs, w)
    ensures MacroValue(t, w) == Value(t, w) <==> Lone(t, w)
  {
    HalfOnce(MacroArgument(t, w), w.mul(-4.9, Gathered(t, w)), w);
    ArgumentAgrees(t, w);
  }

  predicate InputsAgree(i: Inputs, w: World) {
    i.Feed? ==> MacroValue(i.node, w) == Value(i.node, w) && InputsAgree(i.more, w)
  }

  lemma {:induction false} SumsAgree(acc: real, i: Inputs, w: World)
    requires InputsAgree(i, w)
    ensures MacroSum(acc, i, w) == SumFrom(acc, i, w)
    decreases i
  {
    match i
    case NoInput =>
    case Feed(node, weight, more) => SumsAgree(acc + w.mul(Value(node, w), weight), more, w);
  }

  /** As a macro and as a function a formula says the same if at every node at most one input adds to the sum. */
  lemma {:induction false} ReadingsAgree(t: Net, w: World)
    requires Exact(w) && Known(t) && AllLone(t, w)
    ensures MacroValue(t, w) == Value(t, w)
    decreases t, 0
  {
    if t.Inner? {
      InputsReadingsAgree(t.inputs, w);
    }
    NodeAgrees(t, w);
  }

  lemma {:induction false} InputsReadingsAgree(i: Inputs, w: World)
    requires Exact(w) && AllKnown(i) && InputsLone(i, w)
    ensures InputsAgree(i, w)
    decreases i
  {
    match i
    case NoInput =>
    case Feed(node, weight, more) =>
      ReadingsAgree(node, w);
      InputsReadingsAgree(more, w);
  }

  /** For a node whose inputs are all lone, the generated header gives the output of the running network exactly if the
      inputs after the first add up to nothing. */
  lemma HeaderIsRight(t: Net, w: World)
    requires Exact(w) && Known(t) && InsideLone(t, w)
    ensures Read(Expanded(t, End), w) == Read(Formula(t, End), w) <==> Lone(t, w)
  {
    if t.Inner? {
      InputsReadingsAgree(t.inputs, w);
    }
    NodeAgrees(t, w);
    MacroReading(t, w);
    FormulaMeansValue(t, w);
  }

  /** Every node has at most one input. */
  predicate Chain(t: Net) {
    t.Inner? && t.inputs.Feed? ==> t.inputs.more.NoInput? && Chain(t.inputs.node)
  }

  /** In a chain no value of the inputs makes a difference. */
  lemma {:induction false} ChainsAreLone(t: Net, w: World)
    requires Chain(t)
    ensures AllLone(t, w)
  {
    if t.Inner? && t.inputs.Feed? {
      ChainsAreLone(t.inputs.node, w);
      assert InputsLone(t.inputs.more, w);
    }
  }

  /** Two inputs of weight one: whenever the second has an output other than zero, the header is wrong. */
  lemma TwoInputsMisread(a: nat, b: nat, w: World)
    requires Exact(w) && Value(Source("SIGMOID", b), w) != 0.0
    ensures var t := Inner("SIGMOID", Feed(Source("SIGMOID", a), 1.0, Feed(Source("SIGMOID", b), 1.0, NoInput)));
      Read(Expanded(t, End), w) != Read(Formula(t, End), w)
  {
    var first, second := Source("SIGMOID", a), Source("SIGMOID", b);
    var others := Feed(second, 1.0, NoInput);
    var t := Inner("SIGMOID", Feed(first, 1.0, others));
    assert InputsLone(NoInput, w) && AllKnown(NoInput);
    assert AllLone(first, w) && AllLone(second, w) && Known(first) && Known(second);
    assert InputsLone(others, w) && AllKnown(others);
    assert SumFrom(0.0, others, w) == SumFrom(0.0 + w.mul(Value(second, w), 1.0), NoInput, w);
    HeaderIsRight(t, w);
  }

  // ---------- right whatever the values ----------

  /** A positive function that takes no value twice, and none of one or more. */
  function Bend(x: real): (r: real)
    ensures 0.0 < r < 1.0
  {
    if x >= 0.0 then
      FractionOf(2.0 + x);
      1.0 - 1.0 / (2.0 + x)
    else
      FractionOf(2.0 - x);
      1.0 / (2.0 - x)
  }

  lemma FractionOf(a: real)
    requires a >= 2.0
    ensures 0.0 < 1.0 / a <= 0.5
  {
    var r := 1.0 / a;
    assert r * a == 1.0;
    assert r > 0.0;
    assert r * (a - 2.0) >= 0.0;
  }

  lemma BendOnce(a: real, b: real)
    requires Bend(a) == Bend(b)
    ensures a == b
  {
    var x, y := if a >= 0.0 then 2.0 + a else 2.0 - a, if b >= 0.0 then 2.0 + b else 2.0 - b;
    FractionOf(x);
    FractionOf(y);
    if a >= 0.0 && b < 0.0 {
      FractionBelowHalf(y);
    } else if a < 0.0 && b >= 0.0 {
      FractionBelowHalf(x);
    } else {
      FractionOnce(x, y);
    }
  }

  lemma FractionBelowHalf(a: real)
    requires a > 2.0
    ensures 0.0 < 1.0 / a < 0.5
  {
    FractionOf(a);
    var r := 1.0 / a;
    assert r * a == 1.0;
    assert r * (a - 2.0) > 0.0;
  }

  /** An exact world in which every node has a positive output. */
  function Bent(): World {
    World([], Bend, (a: real, b: real) => a * b, (a: real, b: real) => if b == 0.0 then 0.0 else a / b)
  }

  lemma BentIsExact()
    ensures Exact(Bent())
  {
    var w := Bent();
    forall a, b | w.exp(a) == w.exp(b) ensures a == b {
      BendOnce(a, b);
    }
  }

  lemma BentIsPositive(t: Net)
    requires Known(t)
    ensures Value(t, Bent()) > 0.0
  {
    var w := Bent();
    var e := w.exp(w.mul(-4.9, Gathered(t, w)));
    assert 1.0 < 1.0 + e < 2.0;
    FractionAboveHalf(1.0 + e);
  }

  lemma FractionAboveHalf(a: real)
    requires 1.0 < a < 2.0
    ensures 1.0 / a > 0.5
  {
    var r := 1.0 / a;
    assert r * a == 1.0 && r > 0.0;
    assert r * (2.0 - a) > 0.0;
  }

  /** All weights are above zero, or all below. */
  predicate OneSign(i: Inputs, above: bool) {
    i.Feed? ==> (if above then i.weight > 0.0 else i.weight < 0.0) && OneSign(i.more, above)
  }

  lemma SignOfProduct(v: real, weight: real)
    requires v > 0.0
    ensures (weight > 0.0 ==> v * weight > 0.0) && (weight < 0.0 ==> v * weight < 0.0)
  {
  }

  lemma {:induction false} SignedSum(acc: real, i: Inputs, above: bool)
    requires AllKnown(i) && OneSign(i, above)
    ensures var sum := SumFrom(acc, i, Bent()); if i.NoInput? then sum == acc else if above then sum > acc else sum < acc
    decreases i
  {
    match i
    case NoInput =>
    case Feed(node, weight, more) =>
      var p := Bent().mul(Value(node, Bent()), weight);
      BentIsPositive(node);
      SignOfProduct(Value(node, Bent()), weight);
      SignedSum(acc + p, more, above);
  }

  predicate AllChains(i: Inputs) {
    i.Feed? ==> Chain(i.node) && AllChains(i.more)
  }

  lemma {:induction false} ChainInputsAreLone(i: Inputs, w: World)
    requires AllChains(i)
    ensures InputsLone(i, w)
    decreases i
  {
    if i.Feed? {
      ChainsAreLone(i.node, w);
      ChainInputsAreLone(i.more, w);
    }
  }

  /** For a node fed by chains, whose weights after the first have one sign (as the weight of a second input alone has),
      the generated header is right in all exact worlds if and only if the node has at most one input. With both signs it
      can be right by chance in all of them: two equal inputs with opposite weights add up to nothing. */
  lemma RightEverywhereIff(t: Net, above: bool)
    requires Known(t) && t.Inner? && t.inputs.Feed? && AllChains(t.inputs) && OneSign(t.inputs.more, above)
    ensures (forall w :: Exact(w) ==> Read(Expanded(t, End), w) == Read(Formula(t, End), w)) <==> t.inputs.more.NoInput?
  {
    forall w | Exact(w) ensures Read(Expanded(t, End), w) == Read(Formula(t, End), w) <==> Lone(t, w) {
      RightIfLone(t, w);
    }
    BentIsExact();
    BentIsNotLone(t, above);
  }

  lemma RightIfLone(t: Net, w: World)
    requires Exact(w) && Known(t) && t.Inner? && AllChains(t.inputs)
    ensures Read(Expanded(t, End), w) == Read(Formula(t, End), w) <==> Lone(t, w)
  {
    ChainInputsAreLone(t.inputs, w);
    HeaderIsRight(t, w);
  }

  lemma BentIsNotLone(t: Net, above: bool)
    requires Known(t) && t.Inner? && t.inputs.Feed? && OneSign(t.inputs.more, above)
    ensures Lone(t, Bent()) <==> t.inputs.more.NoInput?
  {
    assert AllKnown(t.inputs) && AllKnown(t.inputs.more);
    SignedSum(0.0, t.inputs.more, above);
  }

  // ---------- networks of positive weights ----------

  predicate AllPositive(t: Net) {
    t.Inner? ==> PositiveInputs(t.inputs)
  }

  predicate PositiveInputs(i: Inputs) {
    i.Feed? ==> i.weight > 0.0 && AllPositive(i.node) && PositiveInputs(i.more)
  }

  lemma FractionFalls(a: real, b: real)
    requires 0.0 < a < b
    ensures 1.0 / a > 1.0 / b
  {
    var r, s := 1.0 / a, 1.0 / b;
    assert r * a == 1.0 && s * b == 1.0;
    assert s > 0.0;
    assert s * (b - a) > 0.0;
    assert (r - s) * a > 0.0;
  }

  lemma BendRises(a: real, b: real)
    requires a < b
    ensures Bend(a) < Bend(b)
  {
    if a >= 0.0 {
      FractionFalls(2.0 + a, 2.0 + b);
    } else if b < 0.0 {
      FractionFalls(2.0 - b, 2.0 - a);
    } else {
      FractionBelowHalf(2.0 - a);
      FractionOf(2.0 + b);
    }
  }

  /** The output for an argument of the exponential function, in the bent world. */
  function Output(e: real): (r: real)
    ensures r > 0.0
  {
    var w := Bent();
    assert 1.0 < 1.0 + w.exp(e) < 2.0;
    FractionAboveHalf(1.0 + w.exp(e));
    w.mul(Half(e, w), 2.0)
  }

  lemma OutputFalls(a: real, b: real)
    ensures a <= b ==> Output(b) <= Output(a)
    ensures Output(a) == Output(b) <==> a == b
  {
    var w := Bent();
    BentIsExact();
    HalfOnce(a, b, w);
    if a < b {
      BendRises(a, b);
      FractionFalls(1.0 + w.exp(a), 1.0 + w.exp(b));
    }
  }

  lemma ProductRises(a: real, b: real, weight: real)
    requires 0.0 < a <= b && weight > 0.0
    ensures var w := Bent(); 0.0 < w.mul(a, weight) <= w.mul(b, weight) && (w.mul(a, weight) == w.mul(b, weight) <==> a == b)
  {
    assert a * weight > 0.0;
    assert (b - a) * weight >= 0.0;
    if a < b {
      assert (b - a) * weight > 0.0;
    }
  }

  /** In the bent world a sum of positive inputs grows with every input, in both readings. */
  lemma {:induction false} PositiveSums(acc: real, i: Inputs)
    requires AllKnown(i) && PositiveInputs(i)
    ensures var s, m := SumFrom(acc, i, Bent()), MacroSum(acc, i, Bent());
      if i.NoInput? then s == m == acc else s > acc && m > acc
    decreases i
  {
    if i.Feed? {
      var w := Bent();
      var v, m := Value(i.node, w), MacroValue(i.node, w);
      assert m == Output(MacroArgument(i.node, w));
      BentIsPositive(i.node);
      SignOfProduct(v, i.weight);
      SignOfProduct(m, i.weight);
      PositiveSums(acc + w.mul(v, i.weight), i.more);
      PositiveSums(acc + w.mul(m, i.weight), i.more);
    }
  }

  /** The sum of a node's inputs as the macro reads it: the first is scaled, the others are not. */
  function MacroGathered(i: Inputs, w: World): real
    requires i.Feed?
  {
    MacroSum(w.mul(w.mul(w.mul(-4.9, Half(MacroArgument(i.node, w), w)), 2.0), i.weight), i.more, w)
  }

  lemma GatheredSplits(i: Inputs, w: World)
    requires i.Feed? && Exact(w)
    ensures MacroGathered(i, w) == MacroSum(-4.9 * w.mul(MacroValue(i.node, w), i.weight), i.more, w)
    ensures SumFrom(0.0, i, w) == SumFrom(w.mul(Value(i.node, w), i.weight), i.more, w)
  {
    ScaledProduct(Half(MacroArgument(i.node, w), w), i.weight, w);
    assert 0.0 + w.mul(Value(i.node, w), i.weight) == w.mul(Value(i.node, w), i.weight);
  }

  lemma ScaledBelow(i: Inputs, p: real, q: real)
    requires AllKnown(i) && PositiveInputs(i) && 0.0 < p <= q
    ensures var e, s := MacroSum(-4.9 * p, i, Bent()), SumFrom(q, i, Bent());
      e >= -4.9 * s && (e == -4.9 * s <==> i.NoInput? && p == q)
  {
    PositiveSums(-4.9 * p, i);
    PositiveSums(q, i);
  }

  lemma FirstIsScaled(i: Inputs)
    requires i.Feed? && AllKnown(i) && PositiveInputs(i)
    requires 0.0 < MacroValue(i.node, Bent()) <= Value(i.node, Bent())
    ensures var e, s := MacroGathered(i, Bent()), SumFrom(0.0, i, Bent());
      e >= -4.9 * s && (e == -4.9 * s <==> i.more.NoInput? && MacroValue(i.node, Bent()) == Value(i.node, Bent()))
  {
    var w := Bent();
    var p, q := w.mul(MacroValue(i.node, w), i.weight), w.mul(Value(i.node, w), i.weight);
    BentIsExact();
    GatheredSplits(i, w);
    ProductRises(MacroValue(i.node, w), Value(i.node, w), i.weight);
    ScaledBelow(i.more, p, q);
  }

  lemma MacroIsOutput(t: Net)
    ensures MacroValue(t, Bent()) == Output(MacroArgument(t, Bent())) > 0.0
    ensures Known(t) ==> Value(t, Bent()) == Output(-4.9 * Gathered(t, Bent()))
  {
  }

  /** Read as a macro, a node of a network with positive weights has at most its output, and less than that as soon as one
      of the nodes has a second input. */
  lemma {:induction false} MacroIsBelow(t: Net)
    requires Known(t) && AllPositive(t)
    ensures MacroValue(t, Bent()) <= Value(t, Bent())
    ensures MacroValue(t, Bent()) == Value(t, Bent()) <==> Chain(t)
    decreases t
  {
    if t.Inner? && t.inputs.Feed? {
      assert AllKnown(t.inputs) && PositiveInputs(t.inputs);
      MacroIsBelow(t.inputs.node);
      MacroIsOutput(t.inputs.node);
      FirstIsScaled(t.inputs);
    }
    MacroIsOutput(t);
    OutputFalls(-4.9 * Gathered(t, Bent()), MacroArgument(t, Bent()));
  }

  /** For every network with positive weights, however deep, the generated header is right in all exact worlds if and only
      if no node has a second input. */
  lemma PositiveRightIff(t: Net)
    requires Known(t) && AllPositive(t)
    ensures (forall w :: Exact(w) ==> Read(Expanded(t, End), w) == Read(Formula(t, End), w)) <==> Chain(t)
  {
    forall w ensures Read(Expanded(t, End), w) == Read(Formula(t, End), w) <==> MacroValue(t, w) == Value(t, w) {
      MacroReading(t, w);
      FormulaMeansValue(t, w);
    }
    if Chain(t) {
      forall w | Exact(w) ensures MacroValue(t, w) == Value(t, w) {
        ChainsAreLone(t, w);
        ReadingsAgree(t, w);
      }
    }
    BentIsExact();
    MacroIsBelow(t);
  }
}
