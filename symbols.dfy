/**
 * The records the language server and the module parser hand to dag.py.
 * Both are oracles whose answers the model receives as values: a module
 * source's resolved definition carries the symbol list the language server
 * reports for that definition's file.
 */
module Symbols {
  import opened Wrappers

  /** A zero-based line and character offset. */
  datatype Position = Position(line: nat, character: nat)

  datatype Range = Range(start: Position, end: Position)

  datatype Location = Location(uri: string, range: Range)

  /** A document symbol; `containerName` is None when the server reports null. */
  datatype Symbol = Symbol(name: string, containerName: Option<string>, location: Location)

  /** The file a `use` statement resolved to, with the symbols reported for it. */
  datatype Definition = Definition(uri: string, symbols: seq<Symbol>)

  /** A `use` statement: the module it names, its `only:` list, and its resolution. */
  datatype ModuleSource = ModuleSource(name: string, only: seq<string>, definition: Option<Definition>)
}
