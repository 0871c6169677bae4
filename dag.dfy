/**
 * `generate_dag`: assemble the unit's symbol table, then, for each of the
 * unit's own symbols in order, add it as a node, cut its text out of the
 * shared line list (which `fetch_range` overwrites as it goes) and add an edge
 * from every token naming a table entry to the symbol.
 */
module Dag {
  import opened Wrappers
  import opened Strings
  import opened Symbols
  import opened SymbolTable
  import opened Scanner
  import opened Graph

  /** The shared line list and the graph built so far. */
  datatype DagState = DagState(lines: seq<string>, nodes: set<string>, edges: set<(string, string)>)

  /** The tokens that name an entry of the table. */
  function References(tokens: seq<string>, table: Table): (refs: set<string>)
    ensures forall t :: t in refs <==> t in tokens && t in table
  {
    set t | t in tokens && t in table
  }

  /** The edges from each reference to the symbol whose text holds it. */
  function EdgesTo(refs: set<string>, name: string): set<(string, string)>
  {
    set t | t in refs :: (t, name)
  }

  function Names(syms: seq<Symbol>): set<string>
  {
    set s | s in syms :: s.name
  }

  /** One pass of the outer loop of `generate_dag`. */
  function ScanSymbol(st: DagState, table: Table, sym: Symbol): Result<DagState, FetchError>
  {
    var f := FetchRangeSpec(st.lines, sym.location.range);
    match f.text
    case Err(e) => Err(e)
    case Ok(text) =>
      var refs := References(Tokenize(text), table);
      Ok(DagState(f.lines, st.nodes + {sym.name} + refs, st.edges + EdgesTo(refs, sym.name)))
  }

  /** The outer loop over the unit's own symbols; the first IndexError ends it. */
  function Scan(lines: seq<string>, table: Table, syms: seq<Symbol>): Result<DagState, FetchError>
    decreases |syms|
  {
    if syms == [] then Ok(DagState(lines, {}, {}))
    else
      match Scan(lines, table, syms[..|syms| - 1])
      case Err(e) => Err(e)
      case Ok(st) => ScanSymbol(st, table, syms[|syms| - 1])
  }

  /** Both line indices of a range lie inside a list of `n` lines. */
  predicate InBounds(r: Range, n: nat)
  {
    r.start.line < n && r.end.line < n
  }

  /**
   * The scan fails exactly when some symbol's range reaches past the last
   * line: `fetch_range` never changes how many lines there are.
   */
  lemma {:induction false} ScanSucceedsIff(lines: seq<string>, table: Table, syms: seq<Symbol>)
    ensures Scan(lines, table, syms).Ok? <==>
      forall i :: 0 <= i < |syms| ==> InBounds(syms[i].location.range, |lines|)
    ensures Scan(lines, table, syms).Ok? ==> |Scan(lines, table, syms).value.lines| == |lines|
    decreases |syms|
  {
    if syms != [] {
      var n := |syms| - 1;
      var prefix := syms[..n];
      ScanSucceedsIff(lines, table, prefix);
      assert forall i :: 0 <= i < n ==> prefix[i] == syms[i];
      assert (forall i :: 0 <= i < |syms| ==> InBounds(syms[i].location.range, |lines|)) <==>
        (forall i :: 0 <= i < n ==> InBounds(prefix[i].location.range, |lines|))
        && InBounds(syms[n].location.range, |lines|);
      match Scan(lines, table, prefix)
      case Err(e) =>
        assert Scan(lines, table, syms) == Err(e);
      case Ok(st) =>
        ScanSymbolOk(st, table, syms[n]);
        assert Scan(lines, table, syms) == ScanSymbol(st, table, syms[n]);
    }
  }

  /** One pass succeeds exactly when the symbol's range is inside the lines, and keeps their number. */
  lemma ScanSymbolOk(st: DagState, table: Table, sym: Symbol)
    ensures ScanSymbol(st, table, sym).Ok? <==> InBounds(sym.location.range, |st.lines|)
    ensures ScanSymbol(st, table, sym).Ok? ==> |ScanSymbol(st, table, sym).value.lines| == |st.lines|
  {
  }

  /** The names of a non-empty list are those of all but its last symbol, and the last one's. */
  lemma NamesOfLast(syms: seq<Symbol>)
    requires syms != []
    ensures Names(syms) == Names(syms[..|syms| - 1]) + {syms[|syms| - 1].name}
  {
    var m := |syms| - 1;
    assert syms == syms[..m] + [syms[m]];
    assert forall s :: s in syms <==> s in syms[..m] || s == syms[m];
  }


  /** Once a symbol's range fails, the scan of any longer list fails with that error. */
  lemma {:induction false} ScanErrorPersists(lines: seq<string>, table: Table, syms: seq<Symbol>, k: nat, e: FetchError)
    requires k <= |syms| && Scan(lines, table, syms[..k]) == Err(e)
    ensures Scan(lines, table, syms) == Err(e)
    decreases |syms|
  {
    if k < |syms| {
      var n := |syms| - 1;
      assert syms[..n][..k] == syms[..k];
      ScanErrorPersists(lines, table, syms[..n], k, e);
      ScanPassesError(lines, table, syms);
    } else {
      assert syms[..k] == syms;
    }
  }

  /** A failed scan of all but the last symbol is the result of the whole scan. */
  lemma ScanPassesError(lines: seq<string>, table: Table, syms: seq<Symbol>)
    requires syms != [] && Scan(lines, table, syms[..|syms| - 1]).Err?
    ensures Scan(lines, table, syms) == Scan(lines, table, syms[..|syms| - 1])
  {
  }

  /** Every prefix of a successful scan succeeds. */
  lemma PrefixScanOk(lines: seq<string>, table: Table, syms: seq<Symbol>, k: nat)
    requires k <= |syms| && Scan(lines, table, syms).Ok?
    ensures Scan(lines, table, syms[..k]).Ok?
  {
    if Scan(lines, table, syms[..k]).Err? {
      ScanErrorPersists(lines, table, syms, k, Scan(lines, table, syms[..k]).error);
    }
  }

  /**
   * The text `fetch_range` returns for the unit's i-th symbol in a successful
   * scan, cut from the lines as the earlier symbols left them.
   */
  function CutText(lines: seq<string>, table: Table, syms: seq<Symbol>, i: nat): string
    requires i < |syms| && Scan(lines, table, syms).Ok?
  {
    PrefixScanOk(lines, table, syms, i);
    PrefixScanOk(lines, table, syms, i + 1);
    ScanStep(lines, table, syms, i);
    FetchRangeSpec(Scan(lines, table, syms[..i]).value.lines, syms[i].location.range).text.value
  }

  /** A symbol's cut text does not depend on the symbols after it. */
  lemma CutTextPrefix(lines: seq<string>, table: Table, syms: seq<Symbol>, k: nat, i: nat)
    requires i < k <= |syms| && Scan(lines, table, syms).Ok?
    ensures Scan(lines, table, syms[..k]).Ok?
    ensures CutText(lines, table, syms[..k], i) == CutText(lines, table, syms, i)
  {
    PrefixScanOk(lines, table, syms, k);
    assert syms[..k][..i] == syms[..i] && syms[..k][i] == syms[i];
  }

  /**
   * The edges of a successful scan are exactly the pairs (t, n) where some
   * symbol of the unit is named n, t is one of the tokens of that symbol's
   * cut text, and t is a key of the table.
   */
  lemma {:induction false} ScanEdgesExact(lines: seq<string>, table: Table, syms: seq<Symbol>, t: string, n: string)
    requires Scan(lines, table, syms).Ok?
    ensures (t, n) in Scan(lines, table, syms).value.edges <==>
      t in table && exists i :: 0 <= i < |syms| && syms[i].name == n && t in Tokenize(CutText(lines, table, syms, i))
    decreases |syms|
  {
    if syms != [] {
      var m := |syms| - 1;
      var prefix := syms[..m];
      ScanSnoc(lines, table, syms);
      ScanEdgesExact(lines, table, prefix, t, n);
      var before := Scan(lines, table, prefix).value.edges;
      var last := Tokenize(CutText(lines, table, syms, m));
      if (t, n) in Scan(lines, table, syms).value.edges {
        if (t, n) in before {
          var i :| 0 <= i < m && prefix[i].name == n && t in Tokenize(CutText(lines, table, prefix, i));
          CutTextPrefix(lines, table, syms, m, i);
          assert syms[i] == prefix[i];
        } else {
          assert t in References(last, table) && n == syms[m].name;
        }
      }
      if t in table && exists i :: 0 <= i < |syms| && syms[i].name == n && t in Tokenize(CutText(lines, table, syms, i)) {
        var i :| 0 <= i < |syms| && syms[i].name == n && t in Tokenize(CutText(lines, table, syms, i));
        if i < m {
          CutTextPrefix(lines, table, syms, m, i);
          assert syms[i] == prefix[i];
          assert (t, n) in before;
        } else {
          assert i == m && t in last;
          assert t in References(last, table);
          assert (t, n) in EdgesTo(References(last, table), syms[m].name);
        }
      }
    }
  }

  /**
   * The last symbol of a successful scan adds itself as a node, and the
   * references in its own cut text as nodes and as edges to it.
   */
  lemma ScanSnoc(lines: seq<string>, table: Table, syms: seq<Symbol>)
    requires syms != [] && Scan(lines, table, syms).Ok?
    ensures Scan(lines, table, syms[..|syms| - 1]).Ok?
    ensures var m := |syms| - 1;
      var refs := References(Tokenize(CutText(lines, table, syms, m)), table);
      && Scan(lines, table, syms).value.nodes == Scan(lines, table, syms[..m]).value.nodes + {syms[m].name} + refs
      && Scan(lines, table, syms).value.edges == Scan(lines, table, syms[..m]).value.edges + EdgesTo(refs, syms[m].name)
  {
    var m := |syms| - 1;
    PrefixScanOk(lines, table, syms, m);
    ScanStep(lines, table, syms, m);
    assert syms[..m + 1] == syms;
  }

  /** The first components of a set of edges. */
  function Sources(edges: set<(string, string)>): set<string>
  {
    set e | e in edges :: e.0
  }

  lemma SourcesOfUnion(a: set<(string, string)>, refs: set<string>, name: string)
    ensures Sources(a + EdgesTo(refs, name)) == Sources(a) + refs
  {
    assert forall t :: t in refs ==> (t, name) in EdgesTo(refs, name);
  }

  /** Every edge of a successful scan runs from a table key to one of the unit's symbols. */
  lemma ScanEdges(lines: seq<string>, table: Table, syms: seq<Symbol>)
    requires Scan(lines, table, syms).Ok?
    ensures forall e :: e in Scan(lines, table, syms).value.edges ==> e.0 in table && e.1 in Names(syms)
  {
    forall e | e in Scan(lines, table, syms).value.edges
      ensures e.0 in table && e.1 in Names(syms)
    {
      ScanEdgesExact(lines, table, syms, e.0, e.1);
      var i :| 0 <= i < |syms| && syms[i].name == e.1 && e.0 in Tokenize(CutText(lines, table, syms, i));
      assert syms[i] in syms;
    }
  }

  /** The nodes of a successful scan are the unit's symbols and the table keys they reference. */
  lemma {:induction false} ScanNodes(lines: seq<string>, table: Table, syms: seq<Symbol>)
    requires Scan(lines, table, syms).Ok?
    ensures Scan(lines, table, syms).value.nodes == Names(syms) + Sources(Scan(lines, table, syms).value.edges)
    decreases |syms|
  {
    if syms != [] {
      var m := |syms| - 1;
      var sym := syms[m];
      ScanSnoc(lines, table, syms);
      ScanNodes(lines, table, syms[..m]);
      var before := Scan(lines, table, syms[..m]).value;
      NamesOfLast(syms);
      SourcesOfUnion(before.edges, References(Tokenize(CutText(lines, table, syms, m)), table), sym.name);
    }
  }

  /**
   * What a successful scan builds: every symbol of the unit is a node, even
   * one with no edges; the other nodes are referenced table keys; every edge
   * runs from a table key to one of the unit's symbols and both its ends are nodes.
   */
  lemma ScanGraphShape(lines: seq<string>, table: Table, syms: seq<Symbol>)
    requires Scan(lines, table, syms).Ok?
    ensures var st := Scan(lines, table, syms).value;
      && Names(syms) <= st.nodes
      && st.nodes == Names(syms) + Sources(st.edges)
      && (forall e :: e in st.edges ==> e.0 in table && e.1 in Names(syms))
      && (forall e :: e in st.edges ==> e.0 in st.nodes && e.1 in st.nodes)
  {
    ScanEdges(lines, table, syms);
    ScanNodes(lines, table, syms);
    var st := Scan(lines, table, syms).value;
    forall e | e in st.edges ensures e.0 in Sources(st.edges) {
    }
  }

  /** Scanning a single symbol is one pass from the empty graph. */
  lemma ScanOne(lines: seq<string>, table: Table, sym: Symbol)
    ensures Scan(lines, table, [sym]) == ScanSymbol(DagState(lines, {}, {}), table, sym)
  {
    assert [sym][..0] == [];
  }

  /**
   * A unit of one line and one symbol whose range covers that whole line: the
   * symbol is a node, and its edges come from the tokens of the whole line.
   */
  lemma ScanWholeLine(l: string, table: Table, sym: Symbol)
    requires sym.location.range == Range(Position(0, 0), Position(0, |l|))
    ensures var refs := References(Tokenize(l), table);
      Scan([l], table, [sym]) == Ok(DagState([l], {sym.name} + refs, EdgesTo(refs, sym.name)))
  {
    ScanOne([l], table, sym);
    FetchWholeLine(l);
    var refs := References(Tokenize(l), table);
    assert {} + {sym.name} + refs == {sym.name} + refs;
    assert {} + EdgesTo(refs, sym.name) == EdgesTo(refs, sym.name);
  }

  /**
   * A symbol whose one-line text is the call `f(x)`, where the table names `f`
   * but neither `x` nor the empty token, gets exactly the edge f -> symbol.
   */
  lemma ReferenceMakesOneEdge(table: Table, sym: Symbol, f: string, x: string)
    requires Avoids(f, TokenDelimiters) && Avoids(x, TokenDelimiters)
    requires f in table && x !in table && "" !in table
    requires sym.location.range == Range(Position(0, 0), Position(0, |f + "(" + x + ")"|))
    ensures var text := f + "(" + x + ")";
      Scan([text], table, [sym]) == Ok(DagState([text], {sym.name, f}, {(f, sym.name)}))
  {
    var text := f + "(" + x + ")";
    var refs := References(Tokenize(text), table);
    assert refs == {f} by {
      TokenizeCall(f, x);
      assert refs == References([f, x, ""], table);
    }
    assert EdgesTo(refs, sym.name) == {(f, sym.name)};
    assert {sym.name} + refs == {sym.name, f};
    ScanWholeLine(text, table, sym);
  }

  /**
   * A symbol whose one-line text is the sum `x + y`, where the table names
   * neither operand nor the empty token, gets no edge but is still a node.
   */
  lemma UnknownTokensMakeNoEdge(table: Table, sym: Symbol, x: string, y: string)
    requires Avoids(x, TokenDelimiters) && Avoids(y, TokenDelimiters)
    requires x !in table && y !in table && "" !in table
    requires sym.location.range == Range(Position(0, 0), Position(0, |x + " + " + y|))
    ensures var text := x + " + " + y;
      Scan([text], table, [sym]) == Ok(DagState([text], {sym.name}, {}))
  {
    var text := x + " + " + y;
    var refs := References(Tokenize(text), table);
    assert refs == {} by {
      TokenizeSum(x, y);
      assert refs == References([x, "", "", y], table);
    }
    assert EdgesTo(refs, sym.name) == {};
    assert {sym.name} + refs == {sym.name};
    ScanWholeLine(text, table, sym);
  }

  /** The scan of one more symbol is one more pass over the state the shorter scan left. */
  lemma ScanStep(lines: seq<string>, table: Table, syms: seq<Symbol>, i: nat)
    requires i < |syms| && Scan(lines, table, syms[..i]).Ok?
    ensures Scan(lines, table, syms[..i + 1]) == ScanSymbol(Scan(lines, table, syms[..i]).value, table, syms[i])
  {
    assert syms[..i + 1][..i] == syms[..i];
  }

  /** The inner loop of `generate_dag`: an edge from every token that names a table entry. */
  method AddReferences(graph: DiGraph, tokens: seq<string>, table: Table, name: string)
    requires graph.Valid() && name in graph.nodes
    modifies graph
    ensures graph.Valid()
    ensures graph.nodes == old(graph.nodes) + References(tokens, table)
    ensures graph.edges == old(graph.edges) + EdgesTo(References(tokens, table), name)
  {
    for j := 0 to |tokens|
      invariant graph.Valid()
      invariant graph.nodes == old(graph.nodes) + References(tokens[..j], table)
      invariant graph.edges == old(graph.edges) + EdgesTo(References(tokens[..j], table), name)
    {
      assert tokens[..j + 1] == tokens[..j] + [tokens[j]];
      if tokens[j] in table {
        graph.AddEdge(tokens[j], name);
      }
    }
    assert tokens[..|tokens|] == tokens;
  }

  /**
   * One pass of the outer loop of `generate_dag`: add the symbol as a node,
   * cut its text out of the shared lines, and add an edge from every token of
   * that text that names a table entry. The new lines and graph are those
   * `ScanSymbol` gives for the old ones; an IndexError is returned.
   */
  method AddSymbol(graph: DiGraph, lines: array<string>, table: Table, sym: Symbol)
    returns (error: Option<FetchError>)
    requires graph.Valid()
    modifies graph, lines
    ensures graph.Valid()
    ensures match ScanSymbol(DagState(old(lines[..]), old(graph.nodes), old(graph.edges)), table, sym)
      case Err(e) => error == Some(e)
      case Ok(st) => error == None && lines[..] == st.lines && graph.nodes == st.nodes && graph.edges == st.edges
  {
    graph.AddNode(sym.name);
    var fetched := FetchRange(lines, sym.location.range);
    if fetched.Err? {
      return Some(fetched.error);
    }
    AddReferences(graph, Tokenize(fetched.value), table, sym.name);
    error := None;
  }

  /**
   * `generate_dag(root_path, uri)` with the file's text, its `use` statements
   * and its document symbols given as values. The graph it returns is the
   * one the scan describes; an IndexError from `fetch_range` is returned.
   */
  method GenerateDag(moduleSources: seq<ModuleSource>, internalSymbols: seq<Symbol>, text: string)
    returns (res: Result<DiGraph, FetchError>)
    ensures var spec := Scan(SplitLines(text), Assemble(moduleSources, internalSymbols), internalSymbols);
      match res
      case Ok(graph) =>
        && fresh(graph) && graph.Valid() && spec.Ok?
        && graph.nodes == spec.value.nodes && graph.edges == spec.value.edges
      case Err(e) => spec == Err(e)
  {
    var symbols := AssembleSymbolTable(moduleSources, internalSymbols);
    var graph := new DiGraph();
    var split := SplitLines(text);
    var lines := new string[|split|](i requires 0 <= i < |split| => split[i]);
    for i := 0 to |internalSymbols|
      invariant fresh(graph) && graph.Valid()
      invariant Scan(split, symbols, internalSymbols[..i]).Ok?
      invariant var st := Scan(split, symbols, internalSymbols[..i]).value;
        lines[..] == st.lines && graph.nodes == st.nodes && graph.edges == st.edges
    {
      ScanStep(split, symbols, internalSymbols, i);
      var error := AddSymbol(graph, lines, symbols, internalSymbols[i]);
      if error.Some? {
        ScanErrorPersists(split, symbols, internalSymbols, i + 1, error.value);
        return Err(error.value);
      }
    }
    assert internalSymbols[..|internalSymbols|] == internalSymbols;
    res := Ok(graph);
  }
}
