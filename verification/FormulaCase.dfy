/** Small formulas in full: what is written for a node with two inputs, what it is worth, and how texts are read
    (SpatialNode.cpp, UserFunctions.cpp, UserFunctions.hpp:10-19). */
module FormulaCases {
  import opened Formulas
  import opened Macros

  /** `1 - 2 * 3 + 4`, `(1 - 2) * 3` and `8 / 2 / 2`. */
  lemma Precedence(w: World)
    requires Exact(w)
    ensures Read(Then(Number(1.0), Then(Minus, Then(Number(2.0), Then(Times, Then(Number(3.0), Then(Plus, Then(Number(4.0), End))))))), w)
         == Got(-1.0, End)
    ensures Read(Then(Open, Then(Number(1.0), Then(Minus, Then(Number(2.0), Then(Close, Then(Times, Then(Number(3.0), End))))))), w)
         == Got(-3.0, End)
    ensures Read(Then(Number(8.0), Then(Over, Then(Number(2.0), Then(Over, Then(Number(2.0), End))))), w) == Got(2.0, End)
  {
    SumFirst(w);
    GroupFirst(w);
    FromTheLeft(w);
  }

  lemma SumFirst(w: World)
    requires Exact(w)
    ensures Read(Then(Number(1.0), Then(Minus, Then(Number(2.0), Then(Times, Then(Number(3.0), Then(Plus, Then(Number(4.0), End))))))), w)
         == Got(-1.0, End)
  {
    var four := Then(Number(4.0), End);
    var plus := Then(Plus, four);
    var three := Then(Number(3.0), plus);
    var two := Then(Number(2.0), Then(Times, three));
    var minus := Then(Minus, two);
    assert Factor(four, w) == Got(4.0, End);
    assert MoreFactors(4.0, End, w) == Got(4.0, End);
    assert Term(four, w) == Got(4.0, End);
    assert Factor(three, w) == Got(3.0, plus);
    assert MoreFactors(6.0, plus, w) == Got(6.0, plus);
    assert MoreFactors(2.0, Then(Times, three), w) == Got(6.0, plus);
    assert Term(two, w) == Got(6.0, plus);
    assert MoreTerms(-1.0, End, w) == Got(-1.0, End);
    assert MoreTerms(-5.0, plus, w) == Got(-1.0, End);
    assert MoreTerms(1.0, minus, w) == Got(-1.0, End);
    assert MoreFactors(1.0, minus, w) == Got(1.0, minus);
    assert Term(Then(Number(1.0), minus), w) == Got(1.0, minus);
  }

  lemma GroupFirst(w: World)
    requires Exact(w)
    ensures Read(Then(Open, Then(Number(1.0), Then(Minus, Then(Number(2.0), Then(Close, Then(Times, Then(Number(3.0), End))))))), w)
         == Got(-3.0, End)
  {
    var three := Then(Number(3.0), End);
    var times := Then(Times, three);
    var close := Then(Close, times);
    var two := Then(Number(2.0), close);
    var minus := Then(Minus, two);
    var one := Then(Number(1.0), minus);
    assert MoreFactors(2.0, close, w) == Got(2.0, close);
    assert Term(two, w) == Got(2.0, close);
    assert MoreTerms(-1.0, close, w) == Got(-1.0, close);
    assert MoreTerms(1.0, minus, w) == Got(-1.0, close);
    assert MoreFactors(1.0, minus, w) == Got(1.0, minus);
    assert Term(one, w) == Got(1.0, minus);
    assert Group(one, w) == Got(-1.0, times);
    assert Factor(Then(Open, one), w) == Got(-1.0, times);
    assert MoreFactors(-3.0, End, w) == Got(-3.0, End);
    assert MoreFactors(-1.0, times, w) == Got(-3.0, End);
    assert MoreTerms(-3.0, End, w) == Got(-3.0, End);
  }

  lemma FromTheLeft(w: World)
    requires Exact(w)
    ensures Read(Then(Number(8.0), Then(Over, Then(Number(2.0), Then(Over, Then(Number(2.0), End))))), w) == Got(2.0, End)
  {
    var last := Then(Number(2.0), End);
    var over := Then(Over, last);
    assert MoreFactors(2.0, End, w) == Got(2.0, End);
    assert w.div(4.0, 2.0) == 2.0 && w.div(8.0, 2.0) == 4.0;
    assert MoreFactors(4.0, over, w) == Got(2.0, End);
    assert MoreFactors(8.0, Then(Over, Then(Number(2.0), over)), w) == Got(2.0, End);
    assert MoreTerms(2.0, End, w) == Got(2.0, End);
  }

  /** The node function in exact arithmetic. */
  lemma SigmoidSays(x: real, w: World)
    requires Exact(w)
    ensures 1.0 + w.exp(-4.9 * x) > 0.0 && Sigmoid(x, w) == (1.0 / (1.0 + w.exp(-4.9 * x)) - 0.5) * 2.0
    ensures Apply("SIGMOID", x, w) == Sigmoid(x, w)
  {
  }

  /** A node with any other function is worth nothing, whatever it is fed by. */
  lemma OtherNameIsZero(t: Net, w: World)
    requires t.name != "SIGMOID"
    ensures Value(t, w) == 0.0
  {
  }

  function TwoFed(u: real, v: real): Net {
    Inner("SIGMOID", Feed(Source("SIGMOID", 0), u, Feed(Source("SIGMOID", 1), v, NoInput)))
  }

  /** `SIGMOID(SIGMOID(x0)*u+SIGMOID(x1)*v)`. */
  lemma TwoFedText(u: real, v: real)
    ensures Formula(TwoFed(u, v), End) ==
      Then(Name("SIGMOID"), Then(Open,
        Then(Name("SIGMOID"), Then(Open, Then(Input(0), Then(Close, Then(Times, Then(Number(u),
        Then(Plus,
        Then(Name("SIGMOID"), Then(Open, Then(Input(1), Then(Close, Then(Times, Then(Number(v),
      Then(Close, End))))))))))))))))
  {
    var close := Then(Close, End);
    var b := Source("SIGMOID", 1);
    assert MoreText(NoInput, close) == close;
    assert MoreText(Feed(b, v, NoInput), close) == Then(Plus, Weighted(b, v, close));
    assert Formula(TwoFed(u, v), End) ==
      Then(Name("SIGMOID"), Then(Open, Weighted(Source("SIGMOID", 0), u, Then(Plus, Weighted(b, v, close)))));
  }

  lemma TwoFedValue(u: real, v: real, w: World)
    ensures Value(TwoFed(u, v), w) == Sigmoid(w.mul(Sigmoid(At(w.xs, 0), w), u) + w.mul(Sigmoid(At(w.xs, 1), w), v), w)
  {
    var a, b := Source("SIGMOID", 0), Source("SIGMOID", 1);
    var x, y := w.mul(Value(a, w), u), w.mul(Value(b, w), v);
    assert SumFrom(0.0 + x + y, NoInput, w) == x + y;
    assert SumFrom(0.0 + x, Feed(b, v, NoInput), w) == x + y;
    assert Gathered(TwoFed(u, v), w) == x + y;
  }

  /** `(double)((1.0 / (1.0 + exp(-4.9*x0)))-0.5)*2.0`. */
  lemma SourceExpanded()
    ensures Expanded(Source("SIGMOID", 0), End) ==
      Then(Cast, Then(Open, Then(Open, Then(Number(1.0), Then(Over, Then(Open, Then(Number(1.0), Then(Plus, Then(Exp, Then(Open,
      Then(Minus, Then(Number(4.9), Then(Times, Then(Input(0),
      Then(Close, Then(Close, Then(Close, Then(Minus, Then(Number(0.5), Then(Close, Then(Times, Then(Number(2.0), End))))))))))))))))))))))
  {
  }
}
