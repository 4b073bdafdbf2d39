/** The text form of a genome: the tokens `JSON` writes and the tokens `load` reads, cut as `strtok` cuts
    them. A number token carries its exact value. */
module TokenFile {
  import opened Options
  import opened Genomes


  datatype Token = Word(text: string) | Num(n: int) | Weight(w: real)

  const CLOSE := Word("]")

  function NameOf(f: Func): string {
    match f
    case Gaussian => "gaussian"
    case Sigmoid => "sigmoid"
    case Sin => "sin"
    case Cos => "cos"
    case Identity => "identity"
  }

  /** `obtain_function_fromm_name`; no result where the program reports an incorrect name and exits. */
  function FuncNamed(t: Token): Option<Func> {
    if t == Word("gaussian") then Some(Gaussian)
    else if t == Word("sigmoid") then Some(Sigmoid)
    else if t == Word("sin") then Some(Sin)
    else if t == Word("cos") then Some(Cos)
    else if t == Word("identity") then Some(Identity)
    else None
  }

  function Atoi(t: Token): int {
    match t
    case Word(_) => 0
    case Num(n) => n
    case Weight(w) => if w >= 0.0 then w.Floor else -((-w).Floor)
  }

  function Atof(t: Token): real {
    match t
    case Word(_) => 0.0
    case Num(n) => n as real
    case Weight(w) => w
  }

  predicate Closes(t: Token) {
    t.Word? && |t.text| > 0 && t.text[0] == ']'
  }

  function KindCode(k: Kind): int {
    match k
    case Input => 0
    case Hidden => 1
    case Output => 2
  }

  function KindOf(code: int): Kind {
    if code == 0 then Input else if code == 2 then Output else Hidden
  }

  // ---------- writing ----------

  function NodeLine(g: NodeGene): seq<Token> {
    match g
    case NoNode => [Word("exist"), Num(0)]
    case Node(id, kind, row, fn, _, _) =>
      [Word("exist"), Num(1), Word("node"), Num(id), Word("type"), Num(KindCode(kind)),
       Word("row"), Num(row), Word("function"), Word(NameOf(fn))]
  }

  function ConnLine(c: ConnGene): seq<Token> {
    match c
    case NoConn => [Word("exist"), Num(0)]
    case Conn(innovation, src, dst, weight, enable) =>
      [Word("exist"), Num(1), Word("innovation"), Num(innovation), Word("in"), Num(src), Word("out"), Num(dst),
       Word("weight"), Weight(weight), Word("enable"), Num(if enable then 1 else 0)]
  }

  /** The row numbers from the `i`-th on. The closing bracket is written after the last number, and so it
      is not written at all when there is none. */
  function RowTokens(rows: seq<nat>, i: nat): seq<Token>
    requires i <= |rows|
    decreases |rows| - i
  {
    if i == |rows| then []
    else [Num(rows[i])] + (if i < |rows| - 1 then [] else [CLOSE]) + RowTokens(rows, i + 1)
  }

  function NodeTokens(nodes: seq<NodeGene>, i: nat): seq<Token>
    requires i <= |nodes|
    decreases |nodes| - i
  {
    if i == |nodes| then [CLOSE] else NodeLine(nodes[i]) + NodeTokens(nodes, i + 1)
  }

  function ConnTokens(conns: seq<ConnGene>, i: nat): seq<Token>
    requires i <= |conns|
    decreases |conns| - i
  {
    if i == |conns| then [CLOSE] else ConnLine(conns[i]) + ConnTokens(conns, i + 1)
  }

  function TokensOf(g: Genome): seq<Token> {
    [Word("Genetic_Encoding"), Word("row_order")] + (RowTokens(g.rowOrder, 0)
    + ([Word("nodes")] + (NodeTokens(g.nodes, 0)
    + ([Word("connection_genes")] + ConnTokens(g.conns, 0)))))
  }

  lemma Assoc<T>(a: seq<T>, b: seq<T>, c: seq<T>)
    ensures a + b + c == a + (b + c)
  {
  }

  /** `JSON`. */
  method Json(e: Encoding) returns (o: seq<Token>)
    ensures o == TokensOf(e.Value())
  {
    o := [Word("Genetic_Encoding"), Word("row_order")];
    ghost var head := o;
    var i := 0;
    while i < |e.rowOrder|
      invariant 0 <= i <= |e.rowOrder|
      invariant o + RowTokens(e.rowOrder, i) == head + RowTokens(e.rowOrder, 0)
    {
      o := o + [Num(e.rowOrder[i])];
      if !(i < |e.rowOrder| - 1) {
        o := o + [CLOSE];
      }
      i := i + 1;
    }
    assert o == head + RowTokens(e.rowOrder, 0);
    o := o + [Word("nodes")];
    head := o;
    i := 0;
    while i < |e.nodes|
      invariant 0 <= i <= |e.nodes|
      invariant o + NodeTokens(e.nodes, i) == head + NodeTokens(e.nodes, 0)
    {
      o := o + NodeLine(e.nodes[i]);
      i := i + 1;
    }
    o := o + [CLOSE];
    o := o + [Word("connection_genes")];
    head := o;
    i := 0;
    while i < |e.conns|
      invariant 0 <= i <= |e.conns|
      invariant o + ConnTokens(e.conns, i) == head + ConnTokens(e.conns, 0)
    {
      o := o + ConnLine(e.conns[i]);
      i := i + 1;
    }
    o := o + [CLOSE];
    JsonParts(e.Value(), o);
  }

  lemma JsonParts(g: Genome, o: seq<Token>)
    requires o == [Word("Genetic_Encoding"), Word("row_order")] + RowTokens(g.rowOrder, 0) + [Word("nodes")] + NodeTokens(g.nodes, 0)
      + [Word("connection_genes")] + ConnTokens(g.conns, 0)
    ensures o == TokensOf(g)
  {
    var head, rows, nodes, conns := [Word("Genetic_Encoding"), Word("row_order")], RowTokens(g.rowOrder, 0), NodeTokens(g.nodes, 0), ConnTokens(g.conns, 0);
    var n, c := [Word("nodes")], [Word("connection_genes")];
    Assoc(head + rows + n + nodes, c, conns);
    Assoc(head + rows + n, nodes, c + conns);
    Assoc(head + rows, n, nodes + (c + conns));
    Assoc(head, rows, n + (nodes + (c + conns)));
  }

  // ---------- reading ----------

  /** A node as read. A missing node keeps the other fields of the node read before it. */
  datatype NodeRec = NodeRec(exist: bool, id: int, kind: int, row: int, fn: Func)

  datatype ConnRec = ConnRec(exist: bool, innovation: int, src: int, dst: int, weight: real, enable: bool)

  datatype File = File(rows: seq<int>, nodes: seq<NodeRec>, conns: seq<ConnRec>)

  /** What is read, and the tokens left. None where the program runs off the end of the text, or exits. */
  function ParseRows(toks: seq<Token>, acc: seq<int>): Option<(seq<int>, seq<Token>)> {
    if |toks| == 0 then None
    else if Closes(toks[0]) then Some((acc, toks[1..]))
    else ParseRows(toks[1..], acc + [Atoi(toks[0])])
  }

  function ParseNodes(toks: seq<Token>, acc: seq<NodeRec>, last: NodeRec): Option<(seq<NodeRec>, seq<Token>)> {
    if |toks| == 0 then None
    else if Closes(toks[0]) then Some((acc, toks[1..]))
    else if |toks| < 2 then None
    else if Atoi(toks[1]) == 0 then
      var rec := last.(exist := false);
      ParseNodes(toks[2..], acc + [rec], rec)
    else if |toks| < 10 || FuncNamed(toks[9]).None? then None
    else
      var rec := NodeRec(true, Atoi(toks[3]), Atoi(toks[5]), Atoi(toks[7]), FuncNamed(toks[9]).value);
      ParseNodes(toks[10..], acc + [rec], rec)
  }

  function ParseConns(toks: seq<Token>, acc: seq<ConnRec>, last: ConnRec): Option<(seq<ConnRec>, seq<Token>)> {
    if |toks| == 0 then None
    else if Closes(toks[0]) then Some((acc, toks[1..]))
    else if |toks| < 2 then None
    else if Atoi(toks[1]) == 0 then
      var rec := last.(exist := false);
      ParseConns(toks[2..], acc + [rec], rec)
    else if |toks| < 12 then None
    else
      var rec := ConnRec(true, Atoi(toks[3]), Atoi(toks[5]), Atoi(toks[7]), Atof(toks[9]), Atoi(toks[11]) != 0);
      ParseConns(toks[12..], acc + [rec], rec)
  }

  /** The whole text. `node` and `conn` are what the two reading variables hold before anything is read. */
  function ParseFile(toks: seq<Token>, node: NodeRec, conn: ConnRec): Option<File> {
    if |toks| < 2 then None
    else match ParseRows(toks[2..], [])
      case None => None
      case Some((rows, rest)) =>
        if |rest| == 0 then None
        else match ParseNodes(rest[1..], [], node)
          case None => None
          case Some((nodes, rest2)) =>
            if |rest2| == 0 then None
            else match ParseConns(rest2[1..], [], conn)
              case None => None
              case Some((conns, _)) => Some(File(rows, nodes, conns))
  }

  /** The reading part of `load`. */
  method ReadFile(toks: seq<Token>, node: NodeRec, conn: ConnRec) returns (r: Option<File>)
    ensures r == ParseFile(toks, node, conn)
  {
    if |toks| < 2 {
      return None;
    }
    var rest, rows := toks[2..], [];
    while true
      invariant ParseRows(toks[2..], []) == ParseRows(rest, rows)
      decreases |rest|
    {
      if |rest| == 0 {
        return None;
      }
      if Closes(rest[0]) {
        break;
      }
      rest, rows := rest[1..], rows + [Atoi(rest[0])];
    }
    rest := rest[1..];
    if |rest| == 0 {
      return None;
    }
    rest := rest[1..];
    ghost var start := rest;
    var nodes, last := [], node;
    while true
      invariant ParseNodes(start, [], node) == ParseNodes(rest, nodes, last)
      decreases |rest|
    {
      if |rest| == 0 {
        return None;
      }
      if Closes(rest[0]) {
        break;
      }
      if |rest| < 2 {
        return None;
      }
      if Atoi(rest[1]) == 0 {
        last := last.(exist := false);
        rest, nodes := rest[2..], nodes + [last];
      } else {
        if |rest| < 10 || FuncNamed(rest[9]).None? {
          return None;
        }
        last := NodeRec(true, Atoi(rest[3]), Atoi(rest[5]), Atoi(rest[7]), FuncNamed(rest[9]).value);
        rest, nodes := rest[10..], nodes + [last];
      }
    }
    rest := rest[1..];
    if |rest| == 0 {
      return None;
    }
    rest := rest[1..];
    start := rest;
    var conns, lastConn := [], conn;
    while true
      invariant ParseConns(start, [], conn) == ParseConns(rest, conns, lastConn)
      decreases |rest|
    {
      if |rest| == 0 {
        return None;
      }
      if Closes(rest[0]) {
        break;
      }
      if |rest| < 2 {
        return None;
      }
      if Atoi(rest[1]) == 0 {
        lastConn := lastConn.(exist := false);
        rest, conns := rest[2..], conns + [lastConn];
      } else {
        if |rest| < 12 {
          return None;
        }
        lastConn := ConnRec(true, Atoi(rest[3]), Atoi(rest[5]), Atoi(rest[7]), Atof(rest[9]), Atoi(rest[11]) != 0);
        rest, conns := rest[12..], conns + [lastConn];
      }
    }
    return Some(File(rows, nodes, conns));
  }

  // ---------- reading back what was written ----------

  function NodeRecOf(g: NodeGene, last: NodeRec): NodeRec {
    match g
    case NoNode => last.(exist := false)
    case Node(id, kind, row, fn, _, _) => NodeRec(true, id, KindCode(kind), row, fn)
  }

  function ConnRecOf(c: ConnGene, last: ConnRec): ConnRec {
    match c
    case NoConn => last.(exist := false)
    case Conn(innovation, src, dst, weight, enable) => ConnRec(true, innovation, src, dst, weight, enable)
  }

  /** The records of the node slots from the `i`-th on. */
  function NodeRecs(nodes: seq<NodeGene>, i: nat, last: NodeRec): (r: seq<NodeRec>)
    requires i <= |nodes|
    ensures |r| == |nodes| - i
    decreases |nodes| - i
  {
    if i == |nodes| then [] else [NodeRecOf(nodes[i], last)] + NodeRecs(nodes, i + 1, NodeRecOf(nodes[i], last))
  }

  function ConnRecs(conns: seq<ConnGene>, i: nat, last: ConnRec): (r: seq<ConnRec>)
    requires i <= |conns|
    ensures |r| == |conns| - i
    decreases |conns| - i
  {
    if i == |conns| then [] else [ConnRecOf(conns[i], last)] + ConnRecs(conns, i + 1, ConnRecOf(conns[i], last))
  }

  lemma SplitAt<T>(a: seq<T>, b: seq<T>)
    ensures (a + b)[|a|..] == b
    ensures forall i :: 0 <= i < |a| ==> (a + b)[i] == a[i]
  {
  }

  lemma RowStep(n: int, rest: seq<Token>, acc: seq<int>)
    ensures ParseRows([Num(n)] + rest, acc) == ParseRows(rest, acc + [n])
  {
    SplitAt([Num(n)], rest);
  }

  lemma NodeStep(g: NodeGene, rest: seq<Token>, acc: seq<NodeRec>, last: NodeRec)
    ensures ParseNodes(NodeLine(g) + rest, acc, last) == ParseNodes(rest, acc + [NodeRecOf(g, last)], NodeRecOf(g, last))
  {
    SplitAt(NodeLine(g), rest);
  }

  lemma ConnStep(c: ConnGene, rest: seq<Token>, acc: seq<ConnRec>, last: ConnRec)
    ensures ParseConns(ConnLine(c) + rest, acc, last) == ParseConns(rest, acc + [ConnRecOf(c, last)], ConnRecOf(c, last))
  {
    SplitAt(ConnLine(c), rest);
  }

  lemma CloseStep(tail: seq<Token>, rows: seq<int>, nodes: seq<NodeRec>, node: NodeRec, conns: seq<ConnRec>, conn: ConnRec)
    ensures ParseRows([CLOSE] + tail, rows) == Some((rows, tail))
    ensures ParseNodes([CLOSE] + tail, nodes, node) == Some((nodes, tail))
    ensures ParseConns([CLOSE] + tail, conns, conn) == Some((conns, tail))
  {
    SplitAt([CLOSE], tail);
  }

  lemma {:induction false} RowsReadBack(rows: seq<nat>, i: nat, tail: seq<Token>, acc: seq<int>, node: NodeRec, conn: ConnRec)
    requires i < |rows|
    ensures ParseRows(RowTokens(rows, i) + tail, acc) == Some((acc + rows[i..], tail))
    decreases |rows| - i
  {
    var x := [rows[i] as int];
    var more := RowTokens(rows, i + 1);
    assert rows[i..] == x + rows[i + 1..];
    if i < |rows| - 1 {
      assert RowTokens(rows, i) == [Num(rows[i])] + more;
      Assoc([Num(rows[i])], more, tail);
      RowStep(rows[i], more + tail, acc);
      RowsReadBack(rows, i + 1, tail, acc + x, node, conn);
      Assoc(acc, x, rows[i + 1..]);
    } else {
      assert RowTokens(rows, i) == [Num(rows[i])] + [CLOSE];
      Assoc([Num(rows[i])], [CLOSE], tail);
      RowStep(rows[i], [CLOSE] + tail, acc);
      CloseStep(tail, acc + x, [], node, [], conn);
      assert rows[i..] == x;
    }
  }

  lemma {:induction false} NodesReadBack(nodes: seq<NodeGene>, i: nat, tail: seq<Token>, acc: seq<NodeRec>, last: NodeRec, conn: ConnRec)
    requires i <= |nodes|
    ensures ParseNodes(NodeTokens(nodes, i) + tail, acc, last) == Some((acc + NodeRecs(nodes, i, last), tail))
    decreases |nodes| - i
  {
    if i == |nodes| {
      CloseStep(tail, [], acc, last, [], conn);
      assert acc + NodeRecs(nodes, i, last) == acc;
    } else {
      var rec := NodeRecOf(nodes[i], last);
      Assoc(NodeLine(nodes[i]), NodeTokens(nodes, i + 1), tail);
      NodeStep(nodes[i], NodeTokens(nodes, i + 1) + tail, acc, last);
      NodesReadBack(nodes, i + 1, tail, acc + [rec], rec, conn);
      Assoc(acc, [rec], NodeRecs(nodes, i + 1, rec));
    }
  }

  lemma {:induction false} ConnsReadBack(conns: seq<ConnGene>, i: nat, tail: seq<Token>, acc: seq<ConnRec>, node: NodeRec, last: ConnRec)
    requires i <= |conns|
    ensures ParseConns(ConnTokens(conns, i) + tail, acc, last) == Some((acc + ConnRecs(conns, i, last), tail))
    decreases |conns| - i
  {
    if i == |conns| {
      CloseStep(tail, [], [], node, acc, last);
      assert acc + ConnRecs(conns, i, last) == acc;
    } else {
      var rec := ConnRecOf(conns[i], last);
      Assoc(ConnLine(conns[i]), ConnTokens(conns, i + 1), tail);
      ConnStep(conns[i], ConnTokens(conns, i + 1) + tail, acc, last);
      ConnsReadBack(conns, i + 1, tail, acc + [rec], node, rec);
      Assoc(acc, [rec], ConnRecs(conns, i + 1, rec));
    }
  }

  /** The three parts of a text, as the reader meets them. */
  lemma PartsOfText(g: Genome) returns (nodePart: seq<Token>, connPart: seq<Token>)
    ensures TokensOf(g)[2..] == RowTokens(g.rowOrder, 0) + nodePart
    ensures nodePart == [Word("nodes")] + (NodeTokens(g.nodes, 0) + connPart) && nodePart[1..] == NodeTokens(g.nodes, 0) + connPart
    ensures connPart == [Word("connection_genes")] + ConnTokens(g.conns, 0) && connPart[1..] == ConnTokens(g.conns, 0)
  {
    connPart := [Word("connection_genes")] + ConnTokens(g.conns, 0);
    nodePart := [Word("nodes")] + (NodeTokens(g.nodes, 0) + connPart);
    var head := [Word("Genetic_Encoding"), Word("row_order")];
    SplitAt(head, RowTokens(g.rowOrder, 0) + nodePart);
  }

  /** A genome with a row list reads back as it was written. */
  lemma FileReadsBack(g: Genome, node: NodeRec, conn: ConnRec)
    requires g.rowOrder != []
    ensures ParseFile(TokensOf(g), node, conn) == Some(File(g.rowOrder, NodeRecs(g.nodes, 0, node), ConnRecs(g.conns, 0, conn)))
  {
    var nodePart, connPart := PartsOfText(g);
    RowsReadBack(g.rowOrder, 0, nodePart, [], node, conn);
    NodesReadBack(g.nodes, 0, connPart, [], node, conn);
    assert connPart[1..] == ConnTokens(g.conns, 0) + [];
    ConnsReadBack(g.conns, 0, [], [], node, conn);
    assert [] + g.rowOrder[0..] == g.rowOrder;
    assert [] + NodeRecs(g.nodes, 0, node) == NodeRecs(g.nodes, 0, node);
    assert [] + ConnRecs(g.conns, 0, conn) == ConnRecs(g.conns, 0, conn);
  }

  lemma {:induction false} RowReaderEatsNodes(nodes: seq<NodeGene>, i: nat, tail: seq<Token>, acc: seq<int>, node: NodeRec, conn: ConnRec)
    requires i <= |nodes| && forall j :: i <= j < |nodes| ==> nodes[j].NoNode?
    ensures exists rows :: ParseRows(NodeTokens(nodes, i) + tail, acc) == Some((rows, tail))
    decreases |nodes| - i
  {
    if i == |nodes| {
      CloseStep(tail, acc, [], node, [], conn);
    } else {
      var rest := NodeTokens(nodes, i + 1) + tail;
      Assoc([Word("exist"), Num(0)], NodeTokens(nodes, i + 1), tail);
      assert NodeTokens(nodes, i) + tail == [Word("exist")] + ([Num(0)] + rest);
      SplitAt([Word("exist")], [Num(0)] + rest);
      RowStep(0, rest, acc + [0]);
      RowReaderEatsNodes(nodes, i + 1, tail, acc + [0] + [0], node, conn);
    }
  }

  lemma {:induction false} NodeReaderEatsConns(conns: seq<ConnGene>, i: nat, acc: seq<NodeRec>, node: NodeRec, conn: ConnRec)
    requires i <= |conns| && forall j :: i <= j < |conns| ==> conns[j].NoConn?
    ensures exists recs :: ParseNodes(ConnTokens(conns, i), acc, node) == Some((recs, []))
    decreases |conns| - i
  {
    if i == |conns| {
      CloseStep([], [], acc, node, [], conn);
      assert [CLOSE] + [] == [CLOSE];
    } else {
      NodeStep(NoNode, ConnTokens(conns, i + 1), acc, node);
      NodeReaderEatsConns(conns, i + 1, acc + [NodeRecOf(NoNode, node)], NodeRecOf(NoNode, node), conn);
    }
  }

  /** A well-formed genome reads back exactly when its row list is not empty: without it the closing
      bracket of the list is missing, the node list is taken for rows, and the reader runs off the end. */
  lemma ReadsBackIffHasRows(g: Genome, node: NodeRec, conn: ConnRec)
    requires WellFormed(g)
    ensures ParseFile(TokensOf(g), node, conn).Some? <==> g.rowOrder != []
  {
    if g.rowOrder != [] {
      FileReadsBack(g, node, conn);
    } else {
      assert forall n :: 0 <= n < |g.nodes| ==> !HasNode(g, n);
      assert forall k :: 0 <= k < |g.conns| ==> !HasConn(g, k);
      var nodePart, connPart := PartsOfText(g);
      SplitAt([Word("nodes")], NodeTokens(g.nodes, 0) + connPart);
      RowReaderEatsNodes(g.nodes, 0, connPart, [] + [0], node, conn);
      assert RowTokens(g.rowOrder, 0) + nodePart == nodePart;
      assert connPart != [];
      NodeReaderEatsConns(g.conns, 0, [], node, conn);
    }
  }
}
