# Fortran dependency graph: a Dafny model of its core

The repository builds a dependency graph of the symbols of a Fortran file
(subroutines, functions, modules). It asks a language server for the file's
document symbols and a module parser for its `use` statements. It merges both
into a name-keyed symbol table. It then cuts each of the file's own symbols
out of the source text, splits that text into tokens, and adds an edge
`token -> symbol` for every token that names a table entry.

This project models three pieces of that logic and proves what they do:

- **Symbol-table assembly** (`assemble_symbol_table`), module `SymbolTable`.
  The nested loops are a method, `AssembleSymbolTable`. It is proved equal to
  the left fold `Assemble`. Lemmas about `Assemble` state the precedence rules:
  own symbols win, later writes win, unresolved `use` statements change nothing,
  and the `only:` list and the container check filter the imports.
- **Range extraction and the reference scan** (`fetch_range` and the loop of
  `generate_dag`), modules `Scanner`, `Graph` and `Dag`.
  - `FetchRange` assigns into the caller's `array<string>` in place. It is
    proved against `FetchRangeSpec`.
  - `GenerateDag` reuses one line array for every symbol, so the cuts pile up
    as they do in the source. It fills a `DiGraph` class (node set plus edge
    set; adding an edge adds its ends). It is proved against the fold `Scan`.
  - The tokeniser is the hand-written function `Strings.Split` over the fixed
    delimiter class.
- **Node identity** (`node.py`), module `Nodes`. A datatype with `ToString`
  (`name|uri`) and `FromString` (split on `|`). Lemmas cover the round trip
  and the loss of identity when a field holds a pipe.

Module `Strings` gives Python's one-character `split`, `"\n".join` and
clamping slices `s[k:]`, `s[:k]`. It proves split and join inverse to each
other. Module `Wrappers` holds `Option` and `Result`.

Collaborators become values:

- The language server's symbol list for a resolved `use` statement travels in
  the module source's `Definition(uri, symbols)`.
- The unit's own symbols are an input sequence.
- The file's text is an input string.

Behaviour of the code that the model keeps on purpose:

- A one-line range yields `line[start:][:end]`, not `line[start:end]`. The
  text runs to column `start + end` (`FetchSingleLine`).
- `fetch_range` overwrites the caller's lines. A later symbol whose range
  touches an already cut line sees the cut line (`RepeatedFetchSeesEarlierCut`).
- When only the end line is past the last line, the start line has already
  been overwritten when the IndexError is raised.
- A newline is not a token delimiter, so a token that spans a line break
  keeps the newline. A name directly before or after a line break inside the
  range is not recognised: `g` in `g\n  h`, and `h` in `(\nh`
  (`NewlineStaysInToken`). When the next line starts with a name, the two
  form one token (`NewlineGluesTokens`).
- Empty tokens (between adjacent delimiters) are looked up like any other.
- The `only:` branch stores the whole module-source record as the entry's
  source. The other import branch stores the module's name, and own symbols
  store `"internal"`. So a module named `internal` imported without `only:` is
  tagged like an own symbol.

Other facts of the code that shape the model:

- Both import branches require the symbol's container to be the module
  (dag.py:38, 46), with or without an `only:` list.
- Graph nodes are bare symbol names (dag.py:86, 90). `generate_dag` never
  builds a `Node`, so `node.py` is modelled on its own.
- `generate_dag` handles one file. The graph over all of a project's files is
  left as a TODO at dag.py:110.

## Model

| member | source | states |
|---|---|---|
| `SymbolTable.Admits` | dag.py:36-46 | definition: the import loops copy a symbol when its container is the module and, for a non-empty `only:` list, its name is in that list |
| `SymbolTable.Provenance` | dag.py:40-49 | definition: the entry's source is the whole module-source record when `only:` is non-empty, otherwise the module's name |
| `SymbolTable.Import` | dag.py:35-50 | definition: the inner import loop as a left fold, writing each admitted symbol under its name |
| `SymbolTable.ImportModule` | dag.py:30-33 | definition: an unresolved module source is skipped, a resolved one imports the symbols reported for its definition |
| `SymbolTable.ImportModules` | dag.py:29-50 | definition: the outer loop over module sources as a left fold |
| `SymbolTable.AddInternal` | dag.py:52-54 | definition: each own symbol written over whatever its name held, tagged "internal" |
| `SymbolTable.Assemble` | dag.py:27-56 | definition: the returned table, imports first and own symbols after |
| `SymbolTable.AssembleSymbolTable` | dag.py:27-56 | the nested loops return exactly the left fold `Assemble`: imports in order, then own symbols |
| `SymbolTable.InternalSymbolsWin` | dag.py:52-54 | every own symbol's name is a key tagged "internal"; among own symbols sharing a name, the last is kept, over any imported entry |
| `SymbolTable.UnresolvedSourceIgnored` | dag.py:30 | removing a `use` statement whose definition is None, wherever it stands, leaves the table unchanged |
| `SymbolTable.TableKeyOrigin` | dag.py:29-56 | each entry's symbol carries the entry's key; a key that is not an own symbol's name holds a symbol that some resolved module source reported and admitted, tagged with that source's provenance |
| `SymbolTable.AdmittedSymbolPresent` | dag.py:34-50 | a symbol that a resolved module source admits always leaves its name in the table |
| `SymbolTable.LaterSourcesOverride` | dag.py:29-50 | later writes win: with no own symbol of that name, the entry is the last admitted symbol of the last module source that admits the name |
| `SymbolTable.NoModulesOnlyInternal` | dag.py:52-56 | with no `use` statements the keys are exactly the own symbols' names, all tagged "internal" |
| `SymbolTable.ImportKeys` | dag.py:34-50 | one import loop adds exactly the names of the symbols it admits: in the `only:` list when that list is non-empty, and with the module as container |
| `SymbolTable.ImportLastWrite` | dag.py:35-50 | after one import loop a name holds the last admitted symbol of that name, tagged with the record (`only:` branch) or the module name |
| `SymbolTable.ImportUnwritten` | dag.py:35-50 | a name that no admitted symbol carries keeps its previous entry |
| `SymbolTable.ImportModulesAppend` | dag.py:29 | processing module sources in two batches equals processing them in one |
| `Scanner.FetchRangeSpec` | dag.py:59-73 | only the start and end lines change; the start line becomes its tail and the end line its head (for one line, the head of the tail); an index past the end is an error, and the start line is already cut when only the end index is bad |
| `Scanner.FetchRange` | dag.py:59-73 | in-place version on the caller's array: the new array contents and the result are those `FetchRangeSpec` gives for the old contents |
| `Scanner.FetchMultiLine` | dag.py:69-72 | over newline-free lines, a multi-line range yields the start line's tail, the middle lines and the end line's head joined by newlines; the text holds `end - start` newlines and splits back into those pieces |
| `Scanner.FetchSingleLine` | dag.py:69-72 | for any start character, a one-line range yields `Take(Drop(line, start), end)`; for a start inside the line that is `line[a .. min(a + end, len)]`, so the cut ends at column start + end, not at column end; a start past the line's end, which an earlier cut can cause, yields "" |
| `Scanner.FetchBackwards` | dag.py:72 | an end line before the start line yields the empty text |
| `Scanner.FetchWholeLine` | dag.py:69-72 | a range covering the whole of the only line yields that line and leaves it unchanged |
| `Scanner.RepeatedFetchSeesEarlierCut` | dag.py:69-70 | the same one-line range fetched twice on the shared list yields "cd" the first time and "" the second |
| `Scanner.SplitLines` | dag.py:84 | the file's lines hold no newline, number one more than the newlines, and join back into the text |
| `Scanner.Tokenize` | dag.py:88 | one token more than there are delimiters; no token holds a delimiter; the tokens together hold every other character, in order; putting the text's delimiters back between consecutive tokens gives the text, so every cut is at a delimiter |
| `Scanner.TokenizeSum` | dag.py:88 | for delimiter-free x and y, `x + y` splits into x, "", "", y |
| `Scanner.TokenizeCall` | dag.py:88 | for delimiter-free f and x, `f(x)` splits into f, x and a trailing "" |
| `Scanner.NewlineGluesTokens` | dag.py:84-88 | a newline is not a delimiter: a line ending in `g` followed by a line `h` gives the single token "g\nh" |
| `Scanner.NewlineStaysInToken` | dag.py:84-88 | for delimiter-free g and h, `g` + newline + blank + `h` gives the tokens "g\n" and h, and `(` + newline + `h` gives "" and "\nh": the newline stays in the token beside it |
| `Strings.Split` | dag.py:88 | splitting on a character class gives one piece more than there are delimiter occurrences, and no piece holds a delimiter |
| `Strings.SplitInterleavesDelimiters` | dag.py:88 | putting the text's delimiters back, in order, between consecutive pieces gives the text: each piece is exactly the run between two delimiters |
| `Strings.SplitKeepsOtherCharacters` | dag.py:88 | concatenating the pieces gives the text with its delimiters removed |
| `Strings.SplitThenJoin` | dag.py:84 | joining the pieces of a split with the delimiter gives back the text |
| `Strings.JoinThenSplit` | dag.py:72 | splitting a join of delimiter-free lines gives back the lines |
| `Strings.JoinOccurrences` | dag.py:72 | a newline join of newline-free lines holds one newline fewer than there are lines |
| `Strings.Join` | dag.py:72 | definition: `sep.join(parts)`, with no separator before the first or after the last part |
| `Strings.Drop` | dag.py:69 | definition: `s[k:]`, empty when k is past the end |
| `Strings.Take` | dag.py:70 | definition: `s[:k]`, the whole string when k is past the end |
| `Graph.DiGraph.AddNode` | dag.py:86 | adds the node, and adding it again changes nothing; edges unchanged |
| `Graph.DiGraph.AddEdge` | dag.py:90 | adds the edge and both of its endpoints; every edge's ends stay nodes |
| `Dag.ScanSymbol` | dag.py:86-90 | definition: one pass of the outer loop: add the symbol, cut its text, add each referenced token as a node and an edge to the symbol |
| `Dag.Scan` | dag.py:85-90 | definition: the outer loop as a left fold over the own symbols; the first IndexError ends it |
| `Dag.AddReferences` | dag.py:88-90 | the token loop adds exactly an edge from each token naming a table entry to the symbol, and those tokens as nodes |
| `Dag.AddSymbol` | dag.py:86-90 | one pass of the outer loop on the shared array and graph: the new lines, nodes and edges are those `ScanSymbol` gives for the old ones, and an IndexError is returned |
| `Dag.GenerateDag` | dag.py:76-99 | the returned graph has exactly the nodes and edges of the scan over the file's lines with the assembled table; an IndexError from any range is returned |
| `Dag.ScanSymbolOk` | dag.py:87 | one pass succeeds exactly when both line indices of the range are inside the lines, and keeps the number of lines |
| `Dag.ScanSucceedsIff` | dag.py:85-87 | the scan succeeds exactly when every symbol's start and end lines lie inside the file; the line count never changes |
| `Dag.ScanErrorPersists` | dag.py:85-87 | the first failing range ends the whole scan with its error |
| `Dag.ScanEdges` | dag.py:88-90 | every edge runs from a key of the symbol table to the name of one of the unit's own symbols |
| `Dag.ScanEdgesExact` | dag.py:85-90 | an edge (t, n) is in the graph exactly when t is a table key and some own symbol named n has t among the tokens of its cut text (the text `fetch_range` returned for it on the lines the earlier symbols left) |
| `Dag.ScanNodes` | dag.py:86-90 | the nodes are exactly the own symbols' names plus the sources of the edges |
| `Dag.ScanGraphShape` | dag.py:85-90 | every own symbol is a node even without edges, and both ends of every edge are nodes |
| `Dag.ReferenceMakesOneEdge` | dag.py:85-90 | a symbol whose whole one-line text is `f(x)`, where only f is in the table, gets exactly the edge f -> symbol, and the nodes are the symbol and f |
| `Dag.UnknownTokensMakeNoEdge` | dag.py:85-90 | a symbol whose whole one-line text is `x + y`, where x, y and "" are not in the table, is a node with no edge |
| `Nodes.ToString` | node.py:12-13 | the string is the name, then `|` at index len(name), then the uri; its length is len(name) + len(uri) + 1 |
| `Nodes.FromString` | node.py:9-10 | succeeds exactly when the string holds one pipe; a node it returns has pipe-free fields and prints back as the input, so the name is the text before the pipe and the uri the text after |
| `Nodes.RoundTrip` | node.py:9-13 | parsing the printed form of a node with pipe-free fields gives that node back |
| `Nodes.PipeInFieldBreaksRoundTrip` | node.py:9-13 | a pipe in either field makes the printed form fail to parse |
| `Nodes.ToStringInjective` | node.py:4-13 | pipe-free nodes print to equal strings exactly when they are equal, so the same name in two files gives two nodes |

## Left out

- `draw_dag_and_save` and `draw_dag_interactive`: rendering through graphviz, matplotlib and pyvis produces output only.
- `lsp.get_document_symbols` and `modules.get_module_sources`: outside code whose source is not part of this model. Their answers are inputs. `generate_dag` asks the language server for the unit's symbols twice; the model assumes both answers are the same list.
- Opening and reading the file, the `print` logging in `generate_dag`, and the `__main__` block: I/O and hard-coded paths. The file's text is an input string.
- The regular-expression engine: only the fixed one-character class is modelled, by `Strings.Split`.
- networkx internals such as node and edge attributes: the graph is a node set and an edge set.
- A symbol record with no `containerName` key raises KeyError in the source. The model's `containerName` is an Option, and None never matches a module name.
- Negative line or character numbers, which Python would index from the end: positions are natural numbers, as the language server reports them.
- `Node` construction with the wrong number of pieces raises TypeError in the source; `Nodes.FromString` returns None instead. `from_string` is an instance method in the source; here it is a plain function.
