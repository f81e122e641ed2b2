# Lua 5.1 console debugger, modelled in Dafny

This project models the engine of a small command-line debugger for Lua 5.1
(`debugger.c`). The engine is a C module that installs a line/call/return hook
into the Lua runtime.

- **Stepping.** On each line event the hook decides whether to suspend. The
  decision depends on the last resume command: step, over, finish or run. It
  also depends on a call-depth counter and on a registry of breakpoints, keyed
  by canonical source path and line.
- **The prompt.** When the hook suspends, an interactive prompt prints where
  execution stopped. It then reads commands until a resume command is typed.
- **The commands.** The other commands inspect the paused program:
  - list locals or up-values of a stack level;
  - print the call stack;
  - watch a variable, resolved as a local, then an up-value, then a global,
    with an optional table-expansion depth;
  - set, delete and list breakpoints.

## Modules

- `Values` — Lua values, a heap of tables addressed by reference, frames and stacks.
- `Text` — the whitespace tokenizer `parseOneArg`, `_stricmp`/`_strlwr`, and base-10 `strtol`.
- `Order` — lexicographic string order, and sorting a finite set by repeated least-element extraction.
- `Registry` — the breakpoint registry: `setBreakPoint`, `delBreakPoint` and the sorted `listBreakPoints`.
- `Session` — the persisted debugger state: resume command, call depth, registry, and whether the hook is installed.
- `Hook` — the hook dispatcher, `checkBreakPoint`, and the call-depth bookkeeping.
- `Console` — the lines the debugger prints, as tagged values.
- `Inspect` — `sortKey`, `printVar`, `expandTable`, `watch`, `listLocals`, `listUpVars` and `printStack`.
- `Prompt` — command lookup, the per-command dispatch, and the read loop of `prompt`.
- `Debugger` — a whole run: a sequence of hook events with the prompt entered whenever the hook suspends.

### Environment parameters

The environment becomes parameters:

- **File system.** A `FileSys` value holds `_fullpath`, `_access`, and whether
  the build is `PATH_CASE_SENSITIVE`.
- **Input.** The operator's input is a finite list of lines.
- **Program state.** The paused program is a `Stack` plus a `Heap`.
- **End of input.** Running out of input lines leaves the prompt waiting; a
  whole run then ends as `Blocked`.

### Behaviour of the code worth knowing

- **Call depth.** The depth counter is clamped at 0 on every return, so after
  a run of call/return events it is not `max(#calls - #returns, 0)`. It is
  `max(start + net, largest net of any suffix)`, as `Hook.WalkClosedForm`
  proves. `Hook.ClampedWalkIsNotNetCount` gives the input `[Ret, Ret, Call]`
  from depth 0: the depth is 1, while the net-count formula gives 0.
- **`watch` resolution.** The first scope holding the name does not
  necessarily win. The local scan keeps only the last local with the name,
  whatever its value. When that value is nil, resolution falls through to the
  up-values, even when an earlier local of the same name holds a value
  (`Inspect.NilLocalFallsThrough`). The up-value scan works the same way: the
  last up-value wins when it is non-nil (`Inspect.UpShadows`), and a nil one
  falls through to the environment (`Inspect.NilUpFallsThrough`).
- **Sorting table keys.** `sortKey` calls `table.sort` with no comparator.
  That raises a Lua error on any two keys that are not both numbers or both
  strings. The model makes this an error outcome, which ends the prompt
  (`Aborted`) and the run (`Raised`). `Inspect.ExpandTableRaised` states
  exactly when a dump raises. `Prompt.PromptAbortsOnlyInWatch` and
  `Debugger.Drive` prove that this cannot happen when every table's keys are
  comparable.
- **Command names.** `Prompt.LookupLower` is a second lookup on lower-cased
  words, written as literal comparisons. `Prompt.NamedOnce` uses it to prove
  that no word names two commands.

## Model

| member | source | states |
|---|---|---|
| Session.InitValid | debugger.c:65-79 | Loading the module leaves the debugger stepping, at depth 0, with an empty and valid registry and the hook installed. |
| Console.Summary | debugger.c:214-215 | The frame summary line carries the frame's source and line; a missing name or an empty kind prints as "(N/A)". `printStack` prints the same line per frame (lines 550-551). |
| Hook.CheckBreakPoint | debugger.c:157-187 | Suspends exactly when the frame's canonical source and current line are registered. A hit resets the depth to 0 and changes nothing else. A miss changes nothing. |
| Hook.Hook | debugger.c:86-149 | Only the depth can change. A call adds 1 and a return or tail return subtracts 1, never below 0. On a line event: step always suspends, finish never does, over suspends at depth 0 or on a breakpoint, and run suspends only on a breakpoint. Any suspension is at depth 0. |
| Hook.Deliver | debugger.c:79 | Events reach the dispatcher only while the hook is installed; otherwise nothing changes. |
| Hook.MaxSuffixNet | debugger.c:128-145 | The largest net count over the suffixes of a run bounds the run's own net count from above. |
| Hook.NetAppend | debugger.c:128-145 | The net count of calls minus returns is additive over concatenation. |
| Hook.WalkClosedForm | debugger.c:128-145 | The clamped depth after any event run equals `max(start + net, largest suffix net)`. |
| Hook.ClampedWalkIsNotNetCount | debugger.c:139-142 | On `[Ret, Ret, Call]` from depth 0 the depth is 1 while the net count is -1. |
| Text.SkipSpace | debugger.c:303 | Returns the first non-space position at or after the start; everything skipped is whitespace. |
| Text.SkipWord | debugger.c:308 | Returns the first whitespace position at or after the start; everything skipped is non-space. |
| Text.SkipSpaceUnique | debugger.c:303 | Any position that follows only whitespace and stands at a non-space character or the end is the one the scan returns. |
| Text.SkipWordPast | debugger.c:308 | The word scan goes at least past every non-space character that directly follows the start. |
| Text.ParseOneArg | debugger.c:299-313 | None exactly when the text is all whitespace. Otherwise the result is the first word: only spaces before it, none inside it, and it cannot be extended. |
| Text.FirstWordUnique | debugger.c:299-313 | The first word of a text is unique, so the tokenizer's answer is the only correct one. |
| Text.Rest | debugger.c:232 | After a token, the handler sees the text past the delimiter, or nothing when the token ends the line. |
| Text.Lower | debugger.c:164-166 | Same length as the input; each character lowered independently, ASCII capitals only. |
| Text.EqualsIgnoreCaseMeansLowerEqual | debugger.c:234-283 | `_stricmp` equality holds exactly when the lower-cased strings are equal. |
| Text.LowerIdempotent | debugger.c:665-667 | Lowering a lowered path changes nothing. |
| Text.DigitsValueShowNat | debugger.c:491 | The digit string of a natural number reads back as that number. |
| Text.StrToL | debugger.c:491 | `strtol` gives a negative number only when a minus sign follows the leading whitespace. The same reading serves `watch` (line 571), `listUpVars` (line 520) and `sb`/`db` (line 653). |
| Text.StrToLReads | debugger.c:491 | After the leading whitespace, an optional sign and the longest run of digits give the value, negated after a minus; with no digit the result is 0. |
| Text.SkipSpacePrefix | debugger.c:491 | Whitespace put in front of a text does not change what `strtol` reads. |
| Text.StrToLLeadingSpace | debugger.c:491 | Leading whitespace does not change the number `strtol` reads. |
| Text.ReadUnsigned | debugger.c:491 | Decimal digits followed by a non-digit read back as their value. |
| Text.ReadNegative | debugger.c:491 | A minus sign, decimal digits and then a non-digit read back as the negated value. |
| Text.StrToLShowInt | debugger.c:491 | `strtol` reads back any integer written in decimal, with or without a sign, even when a non-digit follows. |
| Registry.KeyIsLowered | debugger.c:164-166 | On case-insensitive builds a registry key contains no capital letter. |
| Registry.Add | debugger.c:669-684 | Exactly one (path, line) pair is added and every other pair is kept. The path gains an entry. Validity is preserved for positive lines. |
| Registry.Remove | debugger.c:669-695 | Exactly one pair is removed and every other pair is kept. The path's entry survives exactly when lines remain. Other entries are untouched. Validity is preserved. |
| Registry.AddIdempotent | debugger.c:680-684 | Adding a breakpoint twice is the same as adding it once. |
| Registry.RemoveAbsent | debugger.c:680-695 | Deleting a breakpoint that is not registered leaves a valid registry unchanged. This includes the empty entry the code creates and then drops. |
| Registry.RemoveUndoesAdd | debugger.c:669-695 | Deleting a newly added breakpoint restores the registry exactly. |
| Registry.ParseBpArgs | debugger.c:651-656 | Rejected when the file word or the line word is missing. An accepted file is the first word: non-empty and space-free. An accepted line is positive. |
| Registry.ParseBpArgsLine | debugger.c:651-656 | With both words present, the arguments are rejected exactly when the line word reads as 0 or less, and an accepted line is the number read. |
| Registry.FirstWordOf | debugger.c:651-652 | A space-free word followed by whitespace or the end is what the tokenizer returns first. |
| Registry.LineWordReadsBack | debugger.c:652-653 | A positive number written in decimal is found as the next word and reads back as itself. |
| Registry.ParseBpArgsAccepts | debugger.c:651-656 | `file n` with a space-free file and a positive `n` is accepted as exactly that file and line. |
| Registry.SetBreakPoint | debugger.c:644-697 | Reports a bad argument exactly when the arguments do not parse. The command takes effect exactly when the path resolves to an existing file. It then adds or removes exactly the resolved pair and nothing else, and validity is preserved. |
| Registry.SetBreakPointIdempotent | debugger.c:644-697 | Running the same `sb` command twice gives the same result as running it once. |
| Registry.DotIsFileWord | debugger.c:658-660 | An accepted `. n` has the file word ".". |
| Registry.DotTarget | debugger.c:658-665 | `. n` resolves to the paused frame's source, under the key the breakpoint check computes for it. |
| Registry.DotMeansCurrentSource | debugger.c:658-660 | `sb . n` registers the paused frame's source under the key the breakpoint check looks up. |
| Registry.Group | debugger.c:746-751 | Lists one path's lines in increasing order, each exactly once. |
| Registry.IncreasingConcat | debugger.c:737-753 | Two increasing listings, the first wholly below the second, concatenate to an increasing listing. |
| Registry.Listing | debugger.c:737-753 | Per-path groups in path order form an increasing listing. It contains every registered pair of those paths and nothing unregistered. |
| Registry.ListBreakPoints | debugger.c:727-757 | Every registered (path, line) pair appears and nothing else does. The pairs are strictly increasing by path, then line, so none is repeated. The sort cannot raise on these keys. |
| Registry.PairLessStrictTotal | debugger.c:734-746 | The (path, line) order is a strict total order. |
| Registry.ListBreakPointsUnique | debugger.c:727-757 | Any sequence holding exactly the registered pairs in increasing order is the listing. |
| Order.StrLessStrictTotal | debugger.c:715-718 | Lexicographic string order, as `table.sort` applies it under the C locale, is a strict total order. |
| Order.LeastExists | debugger.c:715-718 | Every non-empty set under a strict total order has a least element. |
| Order.SortSet | debugger.c:704-721 | Sorting a key set gives each element exactly once, strictly increasing. |
| Order.IncreasingUnique | debugger.c:704-721 | Two increasing sequences with the same elements are equal, so the sorted order depends only on the set. |
| Inspect.KeyLessStrictTotal | debugger.c:715-718 | Lua's `<` is a strict total order on a key set that is all numbers, all strings, or has at most one key. |
| Inspect.SortKeys | debugger.c:704-721 | Fails exactly when `table.sort` would meet two keys it cannot compare. Otherwise it returns every key once, increasing. |
| Inspect.SortKeysUnique | debugger.c:704-721 | An increasing arrangement of exactly the keys is what the sort returns. |
| Inspect.ExpandTable | debugger.c:407-426 | Depth 0 prints nothing. Every line is a pair line indented within the depth bound. The top-level lines are the table's pairs in sorted-key order. It cannot raise when all keys are comparable. |
| Inspect.ExpandPairs | debugger.c:415-424 | The top-level lines are one pair per key in order, each nested dump sitting deeper. It cannot raise when all keys are comparable. |
| Inspect.ExpandTableRaised | debugger.c:407-426 | A dump raises exactly when some table met within the depth limit, following table-valued entries, has keys `table.sort` cannot order. |
| Inspect.ExpandPairsRaised | debugger.c:415-424 | The loop over the sorted keys raises exactly when some key's value is a table whose own dump, one level shallower, raises. |
| Inspect.SortedChildren | debugger.c:414-418 | The sorted keys reach exactly the table's own entries. |
| Inspect.PairsUnfold | debugger.c:415-424 | One turn of the loop: the key's pair line and its value's nested dump, then the rest unless that dump raised. |
| Inspect.ExpandPairsLayout | debugger.c:415-424 | Without a raise, the output is the keys' blocks end to end: each pair line followed by exactly the dump of its value at one level less and two columns further in when the value is a table, and by nothing otherwise. |
| Inspect.ExpandPairsStops | debugger.c:415-424 | With a raise, the output ends with the block of the first key whose nested dump raised, and no earlier nested dump raised. |
| Inspect.ExpandTableLayout | debugger.c:407-426 | A positive depth without a raise prints the blocks of the sorted keys, each pair line followed by exactly its value's nested dump. |
| Inspect.PairsStep | debugger.c:416-422 | A pair line, the deeper dump of its value, then the later pairs: all stay within the depth bound, and the top-level lines are the pairs in key order. |
| Inspect.AtIndentAppend | debugger.c:415-424 | The top-level lines of concatenated output are the concatenation of each part's top-level lines. |
| Inspect.PrintVar | debugger.c:431-481 | Prints one line naming the variable. A table value is expanded only when the depth is positive, and its top-level lines are its sorted pairs. |
| Inspect.PrintVarExpands | debugger.c:449-454 | A table printed with a positive depth is followed by exactly its dump to that depth, two columns in, and raises exactly when that dump does. |
| Inspect.LastMatch | debugger.c:577-583 | The scan keeps its start value when nothing matches, and otherwise holds some binding's value. |
| Inspect.LastMatchIsLastBinding | debugger.c:577-583 | The scan ends holding the value of the last binding with the name. |
| Inspect.LastMatchMeaning | debugger.c:577-598 | Scanning from nil gives nil exactly when the name is unbound or its last binding is nil. Otherwise it gives the last binding's value. |
| Inspect.LastIndex | debugger.c:578-583 | Gives the position of the last binding of a bound name. |
| Inspect.Resolve | debugger.c:576-614 | A resolved value is never nil. |
| Inspect.ResolveRefOk | debugger.c:576-611 | A resolved value lives in the heap, so it can be printed and expanded. |
| Inspect.LocalShadows | debugger.c:584-588 | A non-nil last local hides any up-value or global of the same name. |
| Inspect.GlobalWhenOutOfScope | debugger.c:605-614 | With no local or up-value of the name, `watch` reports the environment's entry. |
| Inspect.NilLocalFallsThrough | debugger.c:577-588 | When the last local of a name is nil, resolution is as if the frame had no locals. |
| Inspect.UpShadows | debugger.c:590-603 | With no usable local, a non-nil last up-value of the name is what `watch` reports, as an up-value. |
| Inspect.NilUpFallsThrough | debugger.c:590-605 | When the last up-value of a name is nil and no local is usable, resolution is as if the function had no up-values. |
| Inspect.UndefinedIffUnbound | debugger.c:576-617 | "Not defined" is reported exactly when each scope lacks a non-nil last binding of the name. |
| Inspect.WatchDepth | debugger.c:570-574 | A missing depth means 0 and a negative depth is clamped to 0. |
| Inspect.Watch | debugger.c:560-618 | A missing name prints "Invalid argument!". An unresolvable name prints "not defined". Otherwise the output starts with the variable, in the scope resolution found. It cannot raise when all keys are comparable. |
| Inspect.WatchExpands | debugger.c:560-618 | After the variable's line, a table with a positive depth argument is followed by exactly its dump to that depth, raising exactly when the dump raises. Any other value prints its line alone. |
| Inspect.Visible | debugger.c:504-508 | Keeps exactly the bindings not named "(*temporary)". |
| Inspect.VisibleAppend | debugger.c:504-508 | Filtering keeps slot order: the visible part of two runs of slots is the two visible parts in order. |
| Inspect.VisibleOne | debugger.c:504-508 | A single slot is shown exactly when it is not named "(*temporary)". |
| Inspect.VarLines | debugger.c:504-508 | One unexpanded, scope-less line per binding, in order. |
| Inspect.StackLevelArg | debugger.c:490-494 | The level argument is at least 1, with a missing or smaller value meaning 1. |
| Inspect.ListLocals | debugger.c:483-510 | Beyond the stack it prints only "no local info". Otherwise it prints a header, that frame's visible locals and a footer. |
| Inspect.ListUpVars | debugger.c:512-541 | Beyond the stack it prints only "no up-value info". Otherwise it prints a header, that frame's up-values and a footer. |
| Inspect.PrintStack | debugger.c:543-555 | Prints a header, one summary per frame innermost first, and a footer. |
| Prompt.AliasesLower | debugger.c:234-283 | Every command name is free of capital letters. |
| Prompt.TestIsNames | debugger.c:234-283 | The two `_stricmp` tests for a command succeed exactly when the word names it. |
| Prompt.LookupLowerOfAlias | debugger.c:234-283 | Each short or full name selects its own command, so no name is shared. |
| Prompt.NamedOnce | debugger.c:234-283 | No word names two different commands. |
| Prompt.FindByName | debugger.c:234-288 | The `_stricmp` chain finds a command exactly when it is in the chain and the word names it. |
| Prompt.LookupByAlias | debugger.c:234-288 | A word selects a command exactly when it names it, case-insensitively, by short or full name. |
| Prompt.AllCommands | debugger.c:234-288 | The chain lists every command. |
| Prompt.Parse | debugger.c:224-288 | Blank exactly when the line has no word. An unknown word names no command. Otherwise the line names the command, and the handler gets the text after the word. |
| Prompt.ParseResumes | debugger.c:234-258 | A line parses to a resume command exactly when it names one of step, over, finish or run. |
| Prompt.ParseNamed | debugger.c:226-288 | A line naming a command parses to that command with the rest of the line. |
| Prompt.Framed | debugger.c:736-755 | The listing prints a header, one line per pair in order, and a footer. |
| Prompt.Perform | debugger.c:259-285 | Only `watch` can raise, and not when all keys are comparable. Only `sb`/`db` change the registry, and they add or remove exactly the resolved pair. Otherwise they leave the registry alone and print one error. Validity is preserved, and `lb` prints the sorted listing. |
| Prompt.PerformDispatch | debugger.c:259-285 | Each command runs its own handler. `ll`, `lu`, `ps` and `h` print exactly what `listLocals`, `listUpVars`, `printStack` and `showHelp` print, and keep the registry. `w` prints the watch dump and fails exactly when that dump raised. `sb`/`db` apply `setBreakPoint`, printing "Invalid argument!" for a bad argument and "Invalid path!" for a file that does not resolve. |
| Prompt.Choose | debugger.c:234-257 | Stores the chosen mode and keeps depth and registry. The hook is removed exactly when it was already off, or the mode is run with an empty registry. |
| Prompt.Body | debugger.c:226-288 | An empty line prints "Invalid command!" and an unknown word prints the help hint. Only a `watch` line can fail, and only `sb`/`db` lines change the registry, which stays valid. |
| Prompt.BodyDispatch | debugger.c:258-285 | A line naming a command runs exactly that command, through `Perform`, on the text after its word. |
| Prompt.Loop | debugger.c:217-289 | Never changes the depth. Without a resume, mode and hook are unchanged. It reads up to and including the first resume request, whose mode it stores. It aborts only right after a `watch`. |
| Prompt.LoopStopsAtFirstResume | debugger.c:217-289 | No request before the last one read resumes. If the input ran out, none did. |
| Prompt.LoopNeverAborts | debugger.c:268-270 | With comparable keys everywhere, the loop never ends in a Lua error. |
| Prompt.LoopKeepsValid | debugger.c:274-279 | The loop keeps the registry valid. |
| Prompt.LoopChangesOnlyBySetting | debugger.c:274-279 | The registry changes only if an `sb` or `db` request was read. |
| Prompt.LoopStep | debugger.c:217-289 | One turn of the loop. When input is exhausted, or a resume request is read, the loop ends and this turn prints nothing. Otherwise the request's output comes first. Then either its Lua error ends the loop, or the loop continues with the registry the request left. |
| Prompt.LoopBatchAborts | debugger.c:217-289 | In a stretch of requests that do not resume, a Lua error ends the loop there. The loop then printed exactly the outputs of the requests up to the error, in order. |
| Prompt.Requests | debugger.c:222-232 | Parses each line, and flags a resume exactly where the line names one. |
| Prompt.Prompt | debugger.c:206-297 | The frame summary comes first and the depth is unchanged. On a resume, the last line read named the stored mode and the hook follows the run-disarm rule. Otherwise mode and hook are unchanged. |
| Prompt.PromptOutput | debugger.c:213-289 | The prompt prints the frame summary, then everything the loop prints, in order. It ends in the loop's session, after the loop's number of lines and in the same way. |
| Prompt.PromptReadsUntilResume | debugger.c:217-289 | No line before the last one read resumes. If input ran out, no line resumed. |
| Prompt.PromptAbortsOnlyInWatch | debugger.c:268-270 | A Lua error ends the prompt only right after a `watch` line, and never when all keys are comparable. |
| Prompt.PromptKeepsValid | debugger.c:206-297 | The prompt keeps the registry valid. |
| Prompt.PromptChangesOnlyBySetting | debugger.c:274-279 | The registry changes only if an `sb` or `db` line was read. |
| Prompt.SetThenRun | debugger.c:246-257 | `sb` with a resolvable target, then `run`, resumes in run mode after two lines. The hook stays installed and the breakpoint is registered. |
| Debugger.Drive | debugger.c:86-149 | Across a whole run: the hook never comes back once removed, and the registry stays valid. A finished run read at most the input. It never ends in a Lua error when all keys are comparable. |
| Debugger.EventsOkSuffix | debugger.c:86-89 | The runtime's guarantee about event frames holds for every later part of the run. |
| Debugger.DriveQuiet | debugger.c:86-149 | An event that does not suspend only moves the session on. |
| Debugger.DriveStops | debugger.c:206-215 | An event that suspends opens the prompt with that frame's summary. |
| Debugger.OverPassesBody | debugger.c:108-145 | Under over, events before each of which the depth is positive, with no breakpoint on their lines, pass silently and move the depth by calls minus returns. |
| Debugger.OverPassesCall | debugger.c:108-145 | Under over at depth 0, such a call and its matching return pass silently and leave the depth at 0. |
| Debugger.DisarmedIsInert | debugger.c:251-253 | Once the hook is removed, a run prints nothing, reads nothing and changes nothing. |
| Debugger.FinishIsSilent | debugger.c:120-122 | Under finish nothing is printed or read, and only the depth moves, by the clamped walk. |
| Debugger.FinishDepth | debugger.c:120-145 | The depth after a finish run, in closed form. |
| Debugger.RunStopsAtFirstHit | debugger.c:123-124 | Under run, lines without breakpoints pass silently; the first hit opens the prompt with that frame's summary. |
| Debugger.StepStopsAtNextLine | debugger.c:102-107 | Under step, calls and returns pass, and the first line event opens the prompt with that frame's summary. |
| Debugger.OverStepsOverCall | debugger.c:108-145 | Under over at depth 0, a call whose events never drop below the call's depth and return to it, with no breakpoint on their lines, passes, and the first line after the matching return opens the prompt. |

## Left out

- **Console output.** Console colours, the help text's wording, and byte-level
  output formatting are not modelled. This covers `%.8f` numbers, `%08X`
  pointer identities and the tab layout. Output is a sequence of tagged lines
  carrying the values themselves.
- **Lua numbers** are modelled as exact reals, not IEEE doubles.
- **Line length.** `fgets` splits lines longer than 1023 characters, and its
  behaviour at end of file is not modelled. Input is a finite list of whole
  lines, and running out of lines is a distinct outcome.
- **`strtol` width.** The result of `strtol` is stored in a C `int`. Overflow
  and truncation of huge numbers are not modelled; numbers are unbounded.
- **Metamethods.** An `__lt` metamethod used by `table.sort` is not modelled,
  nor is an `__index` metamethod consulted by `lua_getfield` when `watch`
  reads a global. Globals are raw reads of the environment table.
- Prompt.Perform: `exec` compiles and runs Lua code, a call into the Lua
  runtime. It is modelled only as "Invalid argument!" on an empty argument,
  and otherwise as an `Executed` line carrying the script. Effects of the
  script on the program are not modelled. Also not modelled: after a compile
  error the code still calls `lua_pcall` on whatever value is on top of the
  Lua stack.
- Debugger.Drive: the heap is fixed for a whole run. Program execution
  between events, including anything `exec` does, is not modelled; the
  debugger itself never writes to it.
- **Lua stack.** The balanced-stack bookkeeping and its `assert`s are not
  modelled. This covers `lua_gettop` checks and the pushes and pops around
  each call.
- **`short_src` truncation** by the runtime is not modelled. A frame carries
  its source name as given.
- Hook.CheckBreakPoint: when `_fullpath` fails the result buffer is
  unspecified. The model treats this as a miss.
- Debugger.Drive: a Lua error out of `watch` ends the modelled run as
  `Raised`. In the runtime the error propagates out of the hook into the
  debuggee, which may catch it with `pcall` and go on running with the hook
  still installed; that continuation is not modelled.
