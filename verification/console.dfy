/**
 What the debugger prints, as tagged lines rather than bytes. Number
 formatting (`%.8f`) and pointer identities (`%08X`) are not modelled: a line
 carries the value itself.
 */
module Console {
  import opened Optional
  import opened Values

  /** Where `watch` found a name. */
  datatype Scope = Local | Up | Global

  datatype Out =
    | Where(source: string, line: int, name: string, what: string)  // frame summary line
    | InvalidCommand                                                  // an empty line
    | UnknownCommand                                                  // no command matches the word
    | InvalidArgument
    | InvalidPath
    | NoLocalInfo(level: int)
    | NoUpInfo(level: int)
    | LocalsHeader(level: int)
    | UpVarsHeader(level: int)
    | StackHeader
    | BreakPointsHeader
    | Footer
    | Var(scope: Option<Scope>, name: string, value: Value)          // printVar
    | Pair(indent: nat, key: Value, value: Value)                     // printTabPair
    | NotDefined(name: string)
    | BreakPointAt(path: string, line: int)
    | HelpText
    | Executed(script: string)

  /** The summary line of a frame; a missing name or an empty kind prints as "(N/A)". */
  function Summary(f: Frame): (o: Out)
    ensures o.Where? && o.source == f.source && o.line == f.line
    ensures o.name == f.name.GetOr("(N/A)")
    ensures o.what == if f.what == "" then "(N/A)" else f.what
  {
    Where(f.source, f.line, f.name.GetOr("(N/A)"), if f.what == "" then "(N/A)" else f.what)
  }
}
