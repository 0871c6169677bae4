/**
 * `assemble_symbol_table`: symbols imported through resolved `use` statements,
 * then the unit's own symbols, written into one name-keyed table in order, so
 * that a later write of a name replaces an earlier one.
 */
module SymbolTable {
  import opened Wrappers
  import opened Symbols

  const InternalTag: string := "internal"

  /**
   * What the table records as an entry's origin. The source stores the whole
   * module-source record for a `use ..., only:` import and just a string for
   * the others: the module's name, or "internal" for the unit's own symbols.
   */
  datatype Source = Tag(name: string) | Record(moduleSource: ModuleSource)

  datatype Entry = Entry(symbol: Symbol, source: Source)

  type Table = map<string, Entry>

  /**
   * Whether the import loop copies `sym` from the module named by `ms`: its
   * container must be that module, and a non-empty `only:` list must name it.
   */
  predicate Admits(ms: ModuleSource, sym: Symbol)
  {
    (|ms.only| > 0 ==> sym.name in ms.only) && sym.containerName == Some(ms.name)
  }

  function Provenance(ms: ModuleSource): Source
  {
    if |ms.only| > 0 then Record(ms) else Tag(ms.name)
  }

  /** The table after the import loop over `syms` for module source `ms`. */
  function Import(t: Table, ms: ModuleSource, syms: seq<Symbol>): Table
    decreases |syms|
  {
    if syms == [] then t
    else
      var before := Import(t, ms, syms[..|syms| - 1]);
      var sym := syms[|syms| - 1];
      if Admits(ms, sym) then before[sym.name := Entry(sym, Provenance(ms))] else before
  }

  /** One module source: skipped when unresolved, otherwise its symbols imported. */
  function ImportModule(t: Table, ms: ModuleSource): Table
  {
    match ms.definition
    case None => t
    case Some(d) => Import(t, ms, d.symbols)
  }

  function ImportModules(t: Table, sources: seq<ModuleSource>): Table
    decreases |sources|
  {
    if sources == [] then t
    else ImportModule(ImportModules(t, sources[..|sources| - 1]), sources[|sources| - 1])
  }

  /** The unit's own symbols, each written over whatever the name held. */
  function AddInternal(t: Table, syms: seq<Symbol>): Table
    decreases |syms|
  {
    if syms == [] then t
    else
      var sym := syms[|syms| - 1];
      AddInternal(t, syms[..|syms| - 1])[sym.name := Entry(sym, Tag(InternalTag))]
  }

  /** The table `assemble_symbol_table` returns. */
  function Assemble(sources: seq<ModuleSource>, internal: seq<Symbol>): Table
  {
    AddInternal(ImportModules(map[], sources), internal)
  }

  /** The import loop over `syms` writes `syms[i]` under the name `k`. */
  predicate Writes(ms: ModuleSource, syms: seq<Symbol>, i: int, k: string)
  {
    0 <= i < |syms| && Admits(ms, syms[i]) && syms[i].name == k
  }

  /** ... and no later symbol of the loop writes `k` again. */
  predicate LastWrite(ms: ModuleSource, syms: seq<Symbol>, i: int, k: string)
  {
    Writes(ms, syms, i, k) && forall j :: i < j < |syms| ==> !Writes(ms, syms, j, k)
  }

  /** `ms` is resolved and the i-th symbol reported for it is imported under `k`. */
  predicate Offers(ms: ModuleSource, i: int, k: string)
  {
    ms.definition.Some? && Writes(ms, ms.definition.value.symbols, i, k)
  }

  /** The unit's i-th own symbol is named `k`. */
  predicate Defines(syms: seq<Symbol>, i: int, k: string)
  {
    0 <= i < |syms| && syms[i].name == k
  }

  predicate LastDefinition(syms: seq<Symbol>, i: int, k: string)
  {
    Defines(syms, i, k) && forall j :: i < j < |syms| ==> !Defines(syms, j, k)
  }

  /** Where some symbol writes `k`, some symbol is the last to write it. */
  lemma {:induction false} LastWriteExists(ms: ModuleSource, syms: seq<Symbol>, i: int, k: string)
    requires Writes(ms, syms, i, k)
    ensures exists j :: LastWrite(ms, syms, j, k)
    decreases |syms| - i
  {
    if !LastWrite(ms, syms, i, k) {
      var j :| i < j < |syms| && Writes(ms, syms, j, k);
      LastWriteExists(ms, syms, j, k);
    }
  }

  lemma {:induction false} LastDefinitionExists(syms: seq<Symbol>, i: int, k: string)
    requires Defines(syms, i, k)
    ensures exists j :: LastDefinition(syms, j, k)
    decreases |syms| - i
  {
    if !LastDefinition(syms, i, k) {
      var j :| i < j < |syms| && Defines(syms, j, k);
      LastDefinitionExists(syms, j, k);
    }
  }

  /** An import loop adds exactly the names of the symbols it admits. */
  lemma {:induction false} ImportKeys(t: Table, ms: ModuleSource, syms: seq<Symbol>, k: string)
    ensures k in Import(t, ms, syms) <==> k in t || exists i :: Writes(ms, syms, i, k)
    decreases |syms|
  {
    if syms != [] {
      var n := |syms| - 1;
      var pre := syms[..n];
      ImportKeys(t, ms, pre, k);
      if !Writes(ms, syms, n, k) {
        if i :| Writes(ms, syms, i, k) {
          assert Writes(ms, pre, i, k);
        }
        if i :| Writes(ms, pre, i, k) {
          assert Writes(ms, syms, i, k);
        }
      }
    }
  }

  /** A name no admitted symbol carries keeps its entry through an import loop. */
  lemma {:induction false} ImportUnwritten(t: Table, ms: ModuleSource, syms: seq<Symbol>, k: string)
    requires forall i :: !Writes(ms, syms, i, k)
    requires k in t
    ensures k in Import(t, ms, syms) && Import(t, ms, syms)[k] == t[k]
    decreases |syms|
  {
    if syms != [] {
      var n := |syms| - 1;
      forall i ensures !Writes(ms, syms[..n], i, k) {
        assert !Writes(ms, syms, i, k);
      }
      ImportUnwritten(t, ms, syms[..n], k);
      assert !Writes(ms, syms, n, k);
    }
  }

  /** After an import loop a name holds the last admitted symbol of that name. */
  lemma {:induction false} ImportLastWrite(t: Table, ms: ModuleSource, syms: seq<Symbol>, i: int, k: string)
    requires LastWrite(ms, syms, i, k)
    ensures k in Import(t, ms, syms) && Import(t, ms, syms)[k] == Entry(syms[i], Provenance(ms))
    decreases |syms|
  {
    var n := |syms| - 1;
    if i < n {
      assert !Writes(ms, syms, n, k);
      forall j | i < j < n ensures !Writes(ms, syms[..n], j, k) {
        assert !Writes(ms, syms, j, k);
      }
      ImportLastWrite(t, ms, syms[..n], i, k);
    }
  }

  /** The unit's own symbols add exactly their names. */
  lemma {:induction false} AddInternalKeys(t: Table, syms: seq<Symbol>, k: string)
    ensures k in AddInternal(t, syms) <==> k in t || exists i :: Defines(syms, i, k)
    decreases |syms|
  {
    if syms != [] {
      var n := |syms| - 1;
      var pre := syms[..n];
      AddInternalKeys(t, pre, k);
      if !Defines(syms, n, k) {
        if i :| Defines(syms, i, k) {
          assert Defines(pre, i, k);
        }
        if i :| Defines(pre, i, k) {
          assert Defines(syms, i, k);
        }
      }
    }
  }

  lemma {:induction false} AddInternalUnwritten(t: Table, syms: seq<Symbol>, k: string)
    requires forall i :: !Defines(syms, i, k)
    requires k in t
    ensures k in AddInternal(t, syms) && AddInternal(t, syms)[k] == t[k]
    decreases |syms|
  {
    if syms != [] {
      var n := |syms| - 1;
      forall i ensures !Defines(syms[..n], i, k) {
        assert !Defines(syms, i, k);
      }
      AddInternalUnwritten(t, syms[..n], k);
      assert !Defines(syms, n, k);
    }
  }

  lemma {:induction false} AddInternalLastDefinition(t: Table, syms: seq<Symbol>, i: int, k: string)
    requires LastDefinition(syms, i, k)
    ensures k in AddInternal(t, syms) && AddInternal(t, syms)[k] == Entry(syms[i], Tag(InternalTag))
    decreases |syms|
  {
    var n := |syms| - 1;
    if i < n {
      assert !Defines(syms, n, k);
      forall j | i < j < n ensures !Defines(syms[..n], j, k) {
        assert !Defines(syms, j, k);
      }
      AddInternalLastDefinition(t, syms[..n], i, k);
    }
  }

  /** Processing module sources in two batches is processing them in one. */
  lemma {:induction false} ImportModulesAppend(t: Table, a: seq<ModuleSource>, b: seq<ModuleSource>)
    ensures ImportModules(t, a + b) == ImportModules(ImportModules(t, a), b)
    decreases |b|
  {
    if b == [] {
      assert a + b == a;
    } else {
      var n := |b| - 1;
      assert (a + b)[..|a + b| - 1] == a + b[..n];
      assert (a + b)[|a + b| - 1] == b[n];
      ImportModulesAppend(t, a, b[..n]);
    }
  }

  /** Module sources none of which offers `k` leave the entry for `k` as it was. */
  lemma {:induction false} ImportModulesUntouched(t: Table, sources: seq<ModuleSource>, k: string)
    requires forall m, i :: 0 <= m < |sources| ==> !Offers(sources[m], i, k)
    ensures k in ImportModules(t, sources) <==> k in t
    ensures k in t ==> ImportModules(t, sources)[k] == t[k]
    decreases |sources|
  {
    if sources != [] {
      var n := |sources| - 1;
      var ms := sources[n];
      var base := ImportModules(t, sources[..n]);
      ImportModulesUntouched(t, sources[..n], k);
      if ms.definition.Some? {
        var syms := ms.definition.value.symbols;
        assert forall i :: !Writes(ms, syms, i, k) by {
          forall i ensures !Writes(ms, syms, i, k) {
            assert !Offers(sources[n], i, k);
          }
        }
        ImportKeys(base, ms, syms, k);
        if k in base {
          ImportUnwritten(base, ms, syms, k);
        }
      }
    }
  }

  /** Every entry the imports leave under `k` was there before or is an offered symbol of some source. */
  lemma {:induction false} ImportModulesOrigin(t: Table, sources: seq<ModuleSource>, k: string)
    requires k in ImportModules(t, sources)
    ensures (k in t && ImportModules(t, sources)[k] == t[k]) ||
      exists m, i :: 0 <= m < |sources| && Offers(sources[m], i, k) &&
        ImportModules(t, sources)[k] == Entry(sources[m].definition.value.symbols[i], Provenance(sources[m]))
    decreases |sources|
  {
    if sources != [] {
      var n := |sources| - 1;
      var pre := sources[..n];
      var ms := sources[n];
      var base := ImportModules(t, pre);
      if ms.definition.None? {
        ImportModulesOrigin(t, pre, k);
        assert forall m :: 0 <= m < n ==> sources[m] == pre[m];
      } else {
        var syms := ms.definition.value.symbols;
        if i :| Writes(ms, syms, i, k) {
          LastWriteExists(ms, syms, i, k);
          var j :| LastWrite(ms, syms, j, k);
          ImportLastWrite(base, ms, syms, j, k);
          assert Offers(sources[n], j, k);
        } else {
          ImportKeys(base, ms, syms, k);
          ImportUnwritten(base, ms, syms, k);
          ImportModulesOrigin(t, pre, k);
          assert forall m :: 0 <= m < n ==> sources[m] == pre[m];
        }
      }
    }
  }

  /** Imports only add names: a name the table holds survives later imports. */
  lemma {:induction false} ImportModulesKeepsKeys(t: Table, sources: seq<ModuleSource>, k: string)
    requires k in t
    ensures k in ImportModules(t, sources)
    decreases |sources|
  {
    if sources != [] {
      var n := |sources| - 1;
      ImportModulesKeepsKeys(t, sources[..n], k);
      var ms := sources[n];
      if ms.definition.Some? {
        ImportKeys(ImportModules(t, sources[..n]), ms, ms.definition.value.symbols, k);
      }
    }
  }

  /**
   * Every symbol of the unit ends up in the table under its name, tagged
   * "internal", whatever any module offered; of several own symbols sharing a
   * name, the last one is kept.
   */
  lemma InternalSymbolsWin(sources: seq<ModuleSource>, internal: seq<Symbol>, i: int)
    requires 0 <= i < |internal|
    ensures internal[i].name in Assemble(sources, internal)
    ensures Assemble(sources, internal)[internal[i].name].source == Tag(InternalTag)
    ensures Assemble(sources, internal)[internal[i].name].symbol.name == internal[i].name
    ensures LastDefinition(internal, i, internal[i].name) ==>
      Assemble(sources, internal)[internal[i].name] == Entry(internal[i], Tag(InternalTag))
  {
    var k := internal[i].name;
    LastDefinitionExists(internal, i, k);
    var j :| LastDefinition(internal, j, k);
    AddInternalLastDefinition(ImportModules(map[], sources), internal, j, k);
  }

  /**
   * Every key of the table is the name of one of the unit's own symbols, or
   * else its entry is a symbol of that name which some resolved module source
   * reported and admitted (container is the module; in the `only:` list when
   * there is one), tagged as that module source's import.
   */
  lemma TableKeyOrigin(sources: seq<ModuleSource>, internal: seq<Symbol>, k: string)
    requires k in Assemble(sources, internal)
    ensures Assemble(sources, internal)[k].symbol.name == k
    ensures (exists i :: Defines(internal, i, k)) ||
      exists m :: 0 <= m < |sources| && sources[m].definition.Some? &&
        var e := Assemble(sources, internal)[k];
        e.symbol in sources[m].definition.value.symbols && Admits(sources[m], e.symbol) &&
        e.source == Provenance(sources[m])
  {
    var imported := ImportModules(map[], sources);
    if i :| Defines(internal, i, k) {
      InternalSymbolsWin(sources, internal, i);
    } else {
      AddInternalKeys(imported, internal, k);
      AddInternalUnwritten(imported, internal, k);
      ImportModulesOrigin(map[], sources, k);
      var m, i :| 0 <= m < |sources| && Offers(sources[m], i, k) &&
        imported[k] == Entry(sources[m].definition.value.symbols[i], Provenance(sources[m]));
      assert sources[m].definition.value.symbols[i] in sources[m].definition.value.symbols;
    }
  }

  /** A symbol a resolved module source admits is in the table under its name. */
  lemma AdmittedSymbolPresent(sources: seq<ModuleSource>, internal: seq<Symbol>, m: int, i: int, k: string)
    requires 0 <= m < |sources| && Offers(sources[m], i, k)
    ensures k in Assemble(sources, internal)
  {
    var ms := sources[m];
    var pre := sources[..m];
    assert sources[..m + 1] == pre + [ms];
    assert sources == sources[..m + 1] + sources[m + 1..];
    assert (pre + [ms])[..m] == pre;
    ImportKeys(ImportModules(map[], pre), ms, ms.definition.value.symbols, k);
    ImportModulesAppend(map[], sources[..m + 1], sources[m + 1..]);
    ImportModulesKeepsKeys(ImportModules(map[], sources[..m + 1]), sources[m + 1..], k);
    AddInternalKeys(ImportModules(map[], sources), internal, k);
  }

  /**
   * Later writes win across module sources: when no own symbol is named `k`,
   * the entry is the last symbol of that name admitted by the last module
   * source that admits one.
   */
  lemma LaterSourcesOverride(sources: seq<ModuleSource>, internal: seq<Symbol>, m: int, i: int, k: string)
    requires 0 <= m < |sources| && sources[m].definition.Some?
    requires LastWrite(sources[m], sources[m].definition.value.symbols, i, k)
    requires forall m', j :: m < m' < |sources| ==> !Offers(sources[m'], j, k)
    requires forall j :: 0 <= j < |internal| ==> internal[j].name != k
    ensures k in Assemble(sources, internal)
    ensures Assemble(sources, internal)[k] == Entry(sources[m].definition.value.symbols[i], Provenance(sources[m]))
  {
    var ms := sources[m];
    var pre := sources[..m];
    var post := sources[m + 1..];
    assert sources[..m + 1] == pre + [ms];
    assert sources == sources[..m + 1] + post;
    assert (pre + [ms])[..m] == pre;
    ImportLastWrite(ImportModules(map[], pre), ms, ms.definition.value.symbols, i, k);
    ImportModulesAppend(map[], sources[..m + 1], post);
    assert forall m', j :: 0 <= m' < |post| ==> !Offers(post[m'], j, k) by {
      forall m', j | 0 <= m' < |post| ensures !Offers(post[m'], j, k) {
        assert post[m'] == sources[m + 1 + m'];
      }
    }
    ImportModulesUntouched(ImportModules(map[], sources[..m + 1]), post, k);
    AddInternalUnwritten(ImportModules(map[], sources), internal, k);
  }

  /** A `use` statement that did not resolve changes nothing, wherever it stands. */
  lemma UnresolvedSourceIgnored(before: seq<ModuleSource>, ms: ModuleSource, after: seq<ModuleSource>, internal: seq<Symbol>)
    requires ms.definition.None?
    ensures Assemble(before + [ms] + after, internal) == Assemble(before + after, internal)
  {
    ImportModulesAppend(map[], before + [ms], after);
    ImportModulesAppend(map[], before, after);
    assert (before + [ms])[..|before|] == before;
  }

  /** With no `use` statements the table holds exactly the unit's own symbols, all tagged internal. */
  lemma NoModulesOnlyInternal(internal: seq<Symbol>, k: string)
    ensures k in Assemble([], internal) <==> exists i :: Defines(internal, i, k)
    ensures k in Assemble([], internal) ==> Assemble([], internal)[k].source == Tag(InternalTag)
  {
    AddInternalKeys(map[], internal, k);
    if i :| Defines(internal, i, k) {
      InternalSymbolsWin([], internal, i);
    }
  }

  /** `assemble_symbol_table`, loop for loop. */
  method AssembleSymbolTable(moduleSources: seq<ModuleSource>, internalSymbols: seq<Symbol>)
    returns (symbols: Table)
    ensures symbols == Assemble(moduleSources, internalSymbols)
  {
    symbols := map[];
    for m := 0 to |moduleSources|
      invariant symbols == ImportModules(map[], moduleSources[..m])
    {
      var moduleSource := moduleSources[m];
      ghost var base := symbols;
      if moduleSource.definition.Some? {
        var moduleSymbols := moduleSource.definition.value.symbols;
        if |moduleSource.only| > 0 {
          for i := 0 to |moduleSymbols|
            invariant symbols == Import(base, moduleSource, moduleSymbols[..i])
          {
            var symbol := moduleSymbols[i];
            assert moduleSymbols[..i + 1][..i] == moduleSymbols[..i];
            if symbol.name in moduleSource.only && symbol.containerName == Some(moduleSource.name) {
              symbols := symbols[symbol.name := Entry(symbol, Record(moduleSource))];
            }
          }
        } else {
          for i := 0 to |moduleSymbols|
            invariant symbols == Import(base, moduleSource, moduleSymbols[..i])
          {
            var symbol := moduleSymbols[i];
            assert moduleSymbols[..i + 1][..i] == moduleSymbols[..i];
            if symbol.containerName == Some(moduleSource.name) {
              symbols := symbols[symbol.name := Entry(symbol, Tag(moduleSource.name))];
            }
          }
        }
        assert moduleSymbols[..|moduleSymbols|] == moduleSymbols;
      }
      assert moduleSources[..m + 1][..m] == moduleSources[..m];
    }
    assert moduleSources[..|moduleSources|] == moduleSources;
    ghost var imported := symbols;
    for i := 0 to |internalSymbols|
      invariant symbols == AddInternal(imported, internalSymbols[..i])
    {
      var symbol := internalSymbols[i];
      assert internalSymbols[..i + 1][..i] == internalSymbols[..i];
      symbols := symbols[symbol.name := Entry(symbol, Tag(InternalTag))];
    }
    assert internalSymbols[..|internalSymbols|] == internalSymbols;
  }
}
