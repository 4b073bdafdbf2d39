/** A genome file in full: what `JSON` writes of a small genome, word for word, and what `load` reads from it
    (genetic_encoding.cpp:229-423). */
module TokenCases {
  import opened Options
  import opened Genomes
  import opened TokenFile
  import opened Loading

  /** Two inputs of which one feeds an output; in both lists one slot is empty. */
  function Sample(): Genome {
    Genome([NoConn, Conn(1, 0, 3, 0.5, true), Conn(2, 3, 3, -2.0, false)],
           [Node(0, Input, 0, Gaussian, 0.0, 0.0), Node(1, Input, 0, Sigmoid, 0.0, 0.0), NoNode, Node(3, Output, 1, Sin, 0.0, 0.0),
            Node(4, Hidden, 1, Cos, 0.0, 0.0), Node(5, Hidden, 1, Identity, 0.0, 0.0)],
           [0, 1], [[0, 1], [3, 4, 5]], [3])
  }

  function FirstNodes(): seq<Token> {
    [Word("exist"), Num(1), Word("node"), Num(0), Word("type"), Num(0), Word("row"), Num(0), Word("function"), Word("gaussian"),
     Word("exist"), Num(1), Word("node"), Num(1), Word("type"), Num(0), Word("row"), Num(0), Word("function"), Word("sigmoid"),
     Word("exist"), Num(0)]
  }

  function LastNodes(): seq<Token> {
    [Word("exist"), Num(1), Word("node"), Num(3), Word("type"), Num(2), Word("row"), Num(1), Word("function"), Word("sin"),
     Word("exist"), Num(1), Word("node"), Num(4), Word("type"), Num(1), Word("row"), Num(1), Word("function"), Word("cos"),
     Word("exist"), Num(1), Word("node"), Num(5), Word("type"), Num(1), Word("row"), Num(1), Word("function"), Word("identity"),
     Word("]")]
  }

  function ConnText(): seq<Token> {
    [Word("exist"), Num(0),
     Word("exist"), Num(1), Word("innovation"), Num(1), Word("in"), Num(0), Word("out"), Num(3), Word("weight"), Weight(0.5),
     Word("enable"), Num(1),
     Word("exist"), Num(1), Word("innovation"), Num(2), Word("in"), Num(3), Word("out"), Num(3), Word("weight"), Weight(-2.0),
     Word("enable"), Num(0),
     Word("]")]
  }

  function SampleText(): seq<Token> {
    [Word("Genetic_Encoding"), Word("row_order"), Num(0), Num(1), Word("]"), Word("nodes")] + FirstNodes() + LastNodes()
    + [Word("connection_genes")] + ConnText()
  }

  lemma SampleRows()
    ensures RowTokens([0, 1], 0) == [Num(0), Num(1), Word("]")]
  {
    assert RowTokens([0, 1], 2) == [];
    assert RowTokens([0, 1], 1) == [Num(1)] + [CLOSE] + [];
  }

  lemma SampleLastNodes()
    ensures NodeTokens(Sample().nodes, 3) == LastNodes()
  {
    var nodes := Sample().nodes;
    assert NodeTokens(nodes, 6) == [CLOSE];
    assert NodeTokens(nodes, 5) == NodeLine(nodes[5]) + [CLOSE];
    assert NodeTokens(nodes, 4) == NodeLine(nodes[4]) + NodeTokens(nodes, 5);
  }

  lemma SampleFirstNodes()
    ensures var nodes := Sample().nodes; NodeLine(nodes[0]) + NodeLine(nodes[1]) + NodeLine(nodes[2]) == FirstNodes()
  {
  }

  lemma InFrontOf<T>(a: seq<T>, b: seq<T>, c: seq<T>, d: seq<T>)
    ensures a + (b + (c + d)) == a + b + c + d
  {
  }

  lemma SampleNodes()
    ensures NodeTokens(Sample().nodes, 0) == FirstNodes() + LastNodes()
  {
    var nodes := Sample().nodes;
    SampleFirstNodes();
    SampleLastNodes();
    assert NodeTokens(nodes, 2) == NodeLine(nodes[2]) + NodeTokens(nodes, 3);
    assert NodeTokens(nodes, 1) == NodeLine(nodes[1]) + NodeTokens(nodes, 2);
    InFrontOf(NodeLine(nodes[0]), NodeLine(nodes[1]), NodeLine(nodes[2]), NodeTokens(nodes, 3));
  }

  lemma SampleConns()
    ensures var conns := Sample().conns;
      ConnTokens(conns, 0) == ConnText()
  {
    var conns := Sample().conns;
    assert ConnTokens(conns, 3) == [CLOSE];
    assert ConnTokens(conns, 2) == ConnLine(conns[2]) + [CLOSE];
    assert ConnTokens(conns, 1) == ConnLine(conns[1]) + ConnTokens(conns, 2);
  }

  /** What `JSON` writes of this genome, word for word. */
  lemma SampleIsWritten()
    ensures TokensOf(Sample()) == SampleText()
  {
    SampleRows();
    SampleNodes();
    SampleConns();
  }

  /** And what `load` reads from it, whatever its reading variables hold before. */
  method ReadSample(node: NodeRec, conn: ConnRec) returns (file: Option<File>)
    ensures file.Some? && file.value.rows == [0, 1] && |file.value.nodes| == 6 && |file.value.conns| == 3
    ensures file.value.nodes[0] == NodeRec(true, 0, 0, 0, Gaussian) && file.value.nodes[1] == NodeRec(true, 1, 0, 0, Sigmoid)
    ensures !file.value.nodes[2].exist && file.value.nodes[3] == NodeRec(true, 3, 2, 1, Sin)
    ensures file.value.nodes[4] == NodeRec(true, 4, 1, 1, Cos) && file.value.nodes[5] == NodeRec(true, 5, 1, 1, Identity)
    ensures !file.value.conns[0].exist && file.value.conns[1] == ConnRec(true, 1, 0, 3, 0.5, true)
    ensures file.value.conns[2] == ConnRec(true, 2, 3, 3, -2.0, false)
  {
    var nodes, conns := Sample().nodes, Sample().conns;
    SampleIsWritten();
    FileReadsBack(Sample(), node, conn);
    file := ReadFile(SampleText(), node, conn);
    forall j: nat | j < 6 {
      NodeRecAt(nodes, 0, node, j);
    }
    forall j: nat | j < 3 {
      ConnRecAt(conns, 0, conn, j);
    }
  }

  /** A word is read as the number zero, a weight is cut towards zero, and no other name is a function. */
  lemma OddTokens(text: string)
    ensures Atoi(Word(text)) == 0 && Atof(Word(text)) == 0.0 && Atof(Num(7)) == 7.0
    ensures Atoi(Weight(1.5)) == 1 && Atoi(Weight(-1.5)) == -1
    ensures FuncNamed(Word(text)).Some? <==> text in ["gaussian", "sigmoid", "sin", "cos", "identity"]
  {
    assert (1.5).Floor == 1;
  }
}
