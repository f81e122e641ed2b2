/**
 The persistent debugger state kept in the Lua registry under "debugger"
 (`cmd`, `stacklevel`, `breakpoints`), together with whether the line/call/
 return hook is installed.
 */
module Session {
  import opened Registry

  /** The resume command last chosen at the prompt (`enum CMD`). */
  datatype Cmd = Step | Over | Finish | Run

  datatype Session = Session(cmd: Cmd, level: nat, hooked: bool, bps: BreakPoints)

  /** State right after `luaopen_robert_debugger`: stepping, depth 0, no breakpoints, hook installed. */
  const Init: Session := Session(Step, 0, true, map[])

  /** The state every reachable session is in: a registry without empty or non-positive entries. */
  ghost predicate Valid(s: Session) {
    Registry.Valid(s.bps)
  }

  lemma InitValid()
    ensures Valid(Init) && Init.hooked && Init.cmd == Step && Init.level == 0
  {
  }
}
