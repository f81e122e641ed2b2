/**
 The prompt controller (`prompt`): read a line, take its first word as a
 command (case-insensitively, by short alias or full name), run it, and loop
 until one of the four resume commands is given; that command is stored as
 the session's `cmd`, and "run" with no breakpoints removes the hook.
 Input is a finite list of lines; running out of lines leaves the prompt waiting.
 */
module Prompt {
  import opened Optional
  import opened Values
  import opened Text
  import opened Console
  import opened Session
  import Registry
  import Inspect

  /** The prompt's commands; the four resume commands carry the mode they select. */
  datatype Command =
    | Resume(mode: Cmd)
    | ListLocals
    | ListUpVars
    | PrintStack
    | Watch
    | Exec
    | SetBreakPoint
    | DelBreakPoint
    | ListBreakPoints
    | Help

  /**
   The two names `prompt` accepts for each command, short alias and full name,
   in lower case: the source compares with `_stricmp`, so "Over", "Finish",
   "listLocals" and the other mixed-case spellings it writes match exactly the
   words whose lower-case form is listed here.
   */
  function Aliases(c: Command): (string, string) {
    match c
    case Resume(Step) => ("s", "step")
    case Resume(Over) => ("o", "over")
    case Resume(Finish) => ("f", "finish")
    case Resume(Run) => ("r", "run")
    case ListLocals => ("ll", "listlocals")
    case ListUpVars => ("lu", "listupvars")
    case PrintStack => ("ps", "printstack")
    case Watch => ("w", "watch")
    case Exec => ("e", "exec")
    case SetBreakPoint => ("sb", "setbreakpoint")
    case DelBreakPoint => ("db", "delbreakpoint")
    case ListBreakPoints => ("lb", "listbreakpoints")
    case Help => ("h", "help")
  }

  /** `word` names command `c`: its lower-case form is one of the command's names. */
  predicate Names(word: string, c: Command) {
    Lower(word) == Aliases(c).0 || Lower(word) == Aliases(c).1
  }

  /** The commands in the order `prompt` tries them. */
  const Commands: seq<Command> := [
    Resume(Step), Resume(Over), Resume(Finish), Resume(Run), ListLocals, ListUpVars,
    PrintStack, Watch, Exec, SetBreakPoint, DelBreakPoint, ListBreakPoints, Help]

  /** The `_stricmp` chain of `prompt`: the first command in `cs` one of whose names equals `w` ignoring case. */
  function Find(w: string, cs: seq<Command>): Option<Command>
    decreases |cs|
  {
    if cs == [] then None
    else if EqualsIgnoreCase(w, Aliases(cs[0]).0) || EqualsIgnoreCase(w, Aliases(cs[0]).1) then Some(cs[0])
    else Find(w, cs[1..])
  }

  /** The command a command word selects, if any. */
  function Lookup(w: string): Option<Command> {
    Find(w, Commands)
  }

  /** `_stricmp` against a name without capitals is equality after lower-casing. */
  lemma MatchesName(w: string, a: string)
    requires forall k | 0 <= k < |a| :: !('A' <= a[k] <= 'Z')
    ensures EqualsIgnoreCase(w, a) <==> Lower(w) == a
  {
    EqualsIgnoreCaseMeansLowerEqual(w, a);
    assert Lower(a) == a;
  }

  lemma AliasesLower(c: Command)
    ensures forall k | 0 <= k < |Aliases(c).0| :: !('A' <= Aliases(c).0[k] <= 'Z')
    ensures forall k | 0 <= k < |Aliases(c).1| :: !('A' <= Aliases(c).1[k] <= 'Z')
  {
  }

  /** The test `prompt` makes for one command is `Names`. */
  lemma TestIsNames(w: string, c: Command)
    ensures EqualsIgnoreCase(w, Aliases(c).0) || EqualsIgnoreCase(w, Aliases(c).1) <==> Names(w, c)
  {
    AliasesLower(c);
    MatchesName(w, Aliases(c).0);
    MatchesName(w, Aliases(c).1);
  }

  lemma AllCommands(c: Command)
    ensures c in Commands
  {
    match c
    case Resume(Step) => assert Commands[0] == c;
    case Resume(Over) => assert Commands[1] == c;
    case Resume(Finish) => assert Commands[2] == c;
    case Resume(Run) => assert Commands[3] == c;
    case ListLocals => assert Commands[4] == c;
    case ListUpVars => assert Commands[5] == c;
    case PrintStack => assert Commands[6] == c;
    case Watch => assert Commands[7] == c;
    case Exec => assert Commands[8] == c;
    case SetBreakPoint => assert Commands[9] == c;
    case DelBreakPoint => assert Commands[10] == c;
    case ListBreakPoints => assert Commands[11] == c;
    case Help => assert Commands[12] == c;
  }

  /**
   A reference lookup on lower-case words, written as literal comparisons; it
   shows that no word names two commands.
   */
  function LookupLower(lw: string): Option<Command> {
    if lw == "s" || lw == "step" then Some(Resume(Step))
    else if lw == "o" || lw == "over" then Some(Resume(Over))
    else if lw == "f" || lw == "finish" then Some(Resume(Finish))
    else if lw == "r" || lw == "run" then Some(Resume(Run))
    else if lw == "ll" || lw == "listlocals" then Some(ListLocals)
    else if lw == "lu" || lw == "listupvars" then Some(ListUpVars)
    else if lw == "ps" || lw == "printstack" then Some(PrintStack)
    else if lw == "w" || lw == "watch" then Some(Watch)
    else if lw == "e" || lw == "exec" then Some(Exec)
    else if lw == "sb" || lw == "setbreakpoint" then Some(SetBreakPoint)
    else if lw == "db" || lw == "delbreakpoint" then Some(DelBreakPoint)
    else if lw == "lb" || lw == "listbreakpoints" then Some(ListBreakPoints)
    else if lw == "h" || lw == "help" then Some(Help)
    else None
  }

  /** Each name is found, and found as its own command: no two commands share a name. */
  lemma LookupLowerOfAlias(c: Command)
    ensures LookupLower(Aliases(c).0) == Some(c)
    ensures LookupLower(Aliases(c).1) == Some(c)
  {
    var (short, full) := Aliases(c);
    match c
    case Resume(Step) => assert LookupLower(short) == LookupLower(full) == Some(c);
    case Resume(Over) => assert LookupLower(short) == LookupLower(full) == Some(c);
    case Resume(Finish) => assert LookupLower(short) == LookupLower(full) == Some(c);
    case Resume(Run) => assert LookupLower(short) == LookupLower(full) == Some(c);
    case ListLocals => assert LookupLower(short) == LookupLower(full) == Some(c);
    case ListUpVars => assert LookupLower(short) == LookupLower(full) == Some(c);
    case PrintStack => assert LookupLower(short) == LookupLower(full) == Some(c);
    case Watch => assert LookupLower(short) == LookupLower(full) == Some(c);
    case Exec => assert LookupLower(short) == LookupLower(full) == Some(c);
    case SetBreakPoint => assert LookupLower(short) == LookupLower(full) == Some(c);
    case DelBreakPoint => assert LookupLower(short) == LookupLower(full) == Some(c);
    case ListBreakPoints => assert LookupLower(short) == LookupLower(full) == Some(c);
    case Help => assert LookupLower(short) == LookupLower(full) == Some(c);
  }

  /** No word names two different commands. */
  lemma NamedOnce(w: string, c: Command, d: Command)
    requires Names(w, c) && Names(w, d)
    ensures c == d
  {
    LookupLowerOfAlias(c);
    LookupLowerOfAlias(d);
  }

  lemma {:induction false} FindByName(w: string, cs: seq<Command>, c: Command)
    ensures Find(w, cs) == Some(c) <==> c in cs && Names(w, c)
    decreases |cs|
  {
    if cs != [] {
      TestIsNames(w, cs[0]);
      if Names(w, cs[0]) {
        if c in cs && Names(w, c) {
          NamedOnce(w, c, cs[0]);
        }
      } else {
        FindByName(w, cs[1..], c);
        if c in cs && Names(w, c) {
          assert c != cs[0];
          assert c in cs[1..];
        }
      }
    }
  }

  /** A word selects a command exactly when it names that command. */
  lemma LookupByAlias(w: string, c: Command)
    ensures Lookup(w) == Some(c) <==> Names(w, c)
  {
    AllCommands(c);
    FindByName(w, Commands, c);
  }

  /** `Lookup` finds exactly the command the word names, and nothing when it names none. */
  lemma CommandOfWord(w: string)
    ensures forall c :: Lookup(w) == Some(c) <==> Names(w, c)
  {
    forall c ensures Lookup(w) == Some(c) <==> Names(w, c) {
      LookupByAlias(w, c);
    }
  }

  /** The first word of `line` names command `c`. */
  predicate Says(line: string, c: Command) {
    match ParseOneArg(line)
    case None => false
    case Some(t) => Names(Word(line, t), c)
  }

  /** What follows the command word, as the handlers receive it. */
  function Arg(line: string): string {
    match ParseOneArg(line)
    case None => []
    case Some(t) => Rest(line, t)
  }

  /** `line` gives one of the four resume commands. */
  predicate Resumes(line: string) {
    Says(line, Resume(Step)) || Says(line, Resume(Over)) || Says(line, Resume(Finish)) || Says(line, Resume(Run))
  }

  /** An input line as the loop body sees it after `parseOneArg` and the `_stricmp` chain. */
  datatype Request =
    | Blank                               // no word at all: "Invalid command!"
    | Unknown                             // a word that names no command
    | Given(c: Command, arg: string)      // a command and the text after its word

  /** Tokenise a line and look its first word up. */
  function Parse(line: string): (r: Request)
    ensures r.Blank? <==> ParseOneArg(line).None?
    ensures r.Unknown? ==> forall c :: !Says(line, c)
    ensures r.Given? ==> Says(line, r.c) && r.arg == Arg(line)
  {
    match ParseOneArg(line)
    case None => Blank
    case Some(t) =>
      var w := Word(line, t);
      CommandOfWord(w);
      match Lookup(w)
      case None => Unknown
      case Some(c) => Given(c, Rest(line, t))
  }

  /** A line parses to a resume command exactly when it names one. */
  lemma ParseResumes(line: string)
    ensures Parse(line).Given? && Parse(line).c.Resume? <==> Resumes(line)
  {
    var r := Parse(line);
    if r.Given? && r.c.Resume? {
      assert Says(line, Resume(r.c.mode));
      match r.c.mode
      case Step =>
      case Over =>
      case Finish =>
      case Run =>
    }
    if Resumes(line) {
      var m := if Says(line, Resume(Step)) then Step
        else if Says(line, Resume(Over)) then Over
        else if Says(line, Resume(Finish)) then Finish
        else Run;
      assert Says(line, Resume(m));
      var w := Word(line, ParseOneArg(line).value);
      NamedOnce(w, r.c, Resume(m));
    }
  }

  /** What a non-resume command does: stay with a (possibly changed) registry, or fail with a Lua error. */
  datatype Outcome =
    | Stay(bps: Registry.BreakPoints, out: seq<Out>)
    | Error(out: seq<Out>)

  /** Header, one "File … Line …" line per pair in order, footer. */
  function Framed(xs: seq<(string, int)>): (r: seq<Out>)
    ensures |r| == |xs| + 2
    ensures r[0] == BreakPointsHeader && r[|r| - 1] == Footer
    ensures forall i | 0 <= i < |xs| :: r[i + 1] == BreakPointAt(xs[i].0, xs[i].1)
  {
    [BreakPointsHeader] + seq(|xs|, i requires 0 <= i < |xs| => BreakPointAt(xs[i].0, xs[i].1)) + [Footer]
  }

  /** The `listBreakPoints` output. */
  function BreakPointLines(bps: Registry.BreakPoints): seq<Out> {
    Framed(Registry.ListBreakPoints(bps))
  }

  /**
   What `sb`/`db` do to the registry: with a valid target, exactly that pair
   is added (`del` false) or removed (`del` true); otherwise the registry is
   untouched and one error message is printed.
   */
  ghost predicate BreakPointEffect(bps: Registry.BreakPoints, r: Outcome, target: Option<(string, int)>, del: bool) {
    && r.Stay?
    && (target.Some? && !del ==>
          forall q, n :: Registry.Contains(r.bps, q, n) <==> Registry.Contains(bps, q, n) || (q, n) == target.value)
    && (target.Some? && del ==>
          forall q, n :: Registry.Contains(r.bps, q, n) <==> Registry.Contains(bps, q, n) && (q, n) != target.value)
    && (target.None? ==> r.bps == bps && r.out in {[InvalidArgument], [InvalidPath]})
  }

  /** The registry and message after `setBreakPoint`. */
  function Apply(bps: Registry.BreakPoints, r: Registry.BpResult): Outcome {
    match r
    case Applied(b) => Stay(b, [])
    case BadArgument => Stay(bps, [InvalidArgument])
    case BadPath => Stay(bps, [InvalidPath])
  }

  /** Run one non-resume command with argument text `rest` at the paused frame. */
  function Perform(bps: Registry.BreakPoints, c: Command, rest: string, st: Stack, heap: Heap, fs: Registry.FileSys): (r: Outcome)
    requires !c.Resume?
    requires Closed(heap) && FrameOk(heap, st.current)
    ensures r.Error? ==> c == Watch
    ensures Inspect.AllComparable(heap) ==> r.Stay?
    ensures r.Stay? && r.bps != bps ==> c == SetBreakPoint || c == DelBreakPoint
    ensures r.Stay? && Registry.Valid(bps) ==> Registry.Valid(r.bps)
    ensures c == SetBreakPoint ==> BreakPointEffect(bps, r, Registry.Target(fs, st.current.source, rest), false)
    ensures c == DelBreakPoint ==> BreakPointEffect(bps, r, Registry.Target(fs, st.current.source, rest), true)
    ensures c == ListBreakPoints ==> r == Stay(bps, BreakPointLines(bps))
    ensures c == Exec ==> r == Stay(bps, if rest == [] then [InvalidArgument] else [Executed(rest)])
  {
    match c
    case ListLocals => Stay(bps, Inspect.ListLocals(st, rest))
    case ListUpVars => Stay(bps, Inspect.ListUpVars(st, rest))
    case PrintStack => Stay(bps, Inspect.PrintStack(st))
    case Watch =>
      var d := Inspect.Watch(heap, st.current, rest);
      if d.raised then Error(d.lines) else Stay(bps, d.lines)
    case Exec => Stay(bps, if rest == [] then [InvalidArgument] else [Executed(rest)])
    case SetBreakPoint => Apply(bps, Registry.SetBreakPoint(bps, st.current.source, rest, false, fs))
    case DelBreakPoint => Apply(bps, Registry.SetBreakPoint(bps, st.current.source, rest, true, fs))
    case ListBreakPoints => Stay(bps, BreakPointLines(bps))
    case Help => Stay(bps, [HelpText])
  }

  /**
   Each command runs its own handler: the listings and `help` print exactly
   what their handler prints and keep the registry, `watch` prints its dump
   and fails exactly when the dump raised, and `sb`/`db` apply
   `setBreakPoint`, printing the message of the error it reports.
   */
  lemma PerformDispatch(bps: Registry.BreakPoints, c: Command, rest: string, st: Stack, heap: Heap, fs: Registry.FileSys)
    requires !c.Resume?
    requires Closed(heap) && FrameOk(heap, st.current)
    ensures var r := Perform(bps, c, rest, st, heap, fs);
      && (c == ListLocals ==> r == Stay(bps, Inspect.ListLocals(st, rest)))
      && (c == ListUpVars ==> r == Stay(bps, Inspect.ListUpVars(st, rest)))
      && (c == PrintStack ==> r == Stay(bps, Inspect.PrintStack(st)))
      && (c == Help ==> r == Stay(bps, [HelpText]))
      && (c == Watch ==>
            var d := Inspect.Watch(heap, st.current, rest);
            r.out == d.lines && (r.Error? <==> d.raised) && (r.Stay? ==> r.bps == bps))
      && (c == SetBreakPoint ==> r == Apply(bps, Registry.SetBreakPoint(bps, st.current.source, rest, false, fs)))
      && (c == DelBreakPoint ==> r == Apply(bps, Registry.SetBreakPoint(bps, st.current.source, rest, true, fs)))
  {
  }

  /**
   Store the chosen mode; "run" with an empty registry also removes the hook
   (`lua_sethook(L, hook, 0, 0)`), which no command puts back.
   */
  function Choose(s: Session, m: Cmd): (r: Session)
    ensures r.cmd == m && r.level == s.level && r.bps == s.bps
    ensures !r.hooked <==> !s.hooked || (m == Run && s.bps == map[])
  {
    s.(cmd := m, hooked := if m == Run && s.bps == map[] then false else s.hooked)
  }

  /** How a prompt ended: a resume command, the input ran out, or a Lua error escaped a command. */
  datatype PromptEnd = Resumed | OutOfInput | Aborted

  /** The session after the prompt, what it printed, and how many input lines it read. */
  datatype PromptResult = PromptResult(session: Session, out: seq<Out>, consumed: nat, end: PromptEnd)

  predicate IsResume(q: Request) {
    q.Given? && q.c.Resume?
  }

  /** The loop body for a request that does not resume: print a complaint or run the command. */
  function Body(bps: Registry.BreakPoints, q: Request, st: Stack, heap: Heap, fs: Registry.FileSys): (r: Outcome)
    requires !IsResume(q)
    requires Closed(heap) && FrameOk(heap, st.current)
    ensures q.Blank? ==> r == Stay(bps, [InvalidCommand])
    ensures q.Unknown? ==> r == Stay(bps, [UnknownCommand])
    ensures r.Error? ==> q.Given? && q.c == Watch
    ensures Inspect.AllComparable(heap) ==> r.Stay?
    ensures r.Stay? && r.bps != bps ==> q.Given? && (q.c == SetBreakPoint || q.c == DelBreakPoint)
    ensures r.Stay? && Registry.Valid(bps) ==> Registry.Valid(r.bps)
  {
    match q
    case Blank => Stay(bps, [InvalidCommand])
    case Unknown => Stay(bps, [UnknownCommand])
    case Given(c, arg) => Perform(bps, c, arg, st, heap, fs)
  }

  /** A line naming a command runs exactly that command on the text after its word. */
  lemma BodyDispatch(bps: Registry.BreakPoints, q: Request, st: Stack, heap: Heap, fs: Registry.FileSys)
    requires !IsResume(q)
    requires Closed(heap) && FrameOk(heap, st.current)
    ensures q.Given? ==> Body(bps, q, st, heap, fs) == Perform(bps, q.c, q.arg, st, heap, fs)
  {
  }

  /**
   The read-dispatch loop of `prompt`, from request `k` on; `consumed`
   counts the requests read from the start of the input.
   */
  function Loop(s: Session, reqs: seq<Request>, k: nat, st: Stack, heap: Heap, fs: Registry.FileSys): (r: PromptResult)
    requires k <= |reqs|
    requires Closed(heap) && FrameOk(heap, st.current)
    ensures k <= r.consumed <= |reqs|
    ensures r.session.level == s.level
    ensures r.end != Resumed ==> r.session.cmd == s.cmd && r.session.hooked == s.hooked
    ensures r.end == Resumed ==>
      && r.consumed > k
      && reqs[r.consumed - 1].Given? && reqs[r.consumed - 1].c == Resume(r.session.cmd)
      && (!r.session.hooked <==> !s.hooked || (r.session.cmd == Run && r.session.bps == map[]))
    ensures r.end == OutOfInput ==> r.consumed == |reqs|
    ensures r.end == Aborted ==> r.consumed > k && reqs[r.consumed - 1].Given? && reqs[r.consumed - 1].c == Watch
    decreases |reqs| - k
  {
    if k == |reqs| then PromptResult(s, [], k, OutOfInput)
    else if IsResume(reqs[k]) then PromptResult(Choose(s, reqs[k].c.mode), [], k + 1, Resumed)
    else
      match Body(s.bps, reqs[k], st, heap, fs)
      case Error(o) => PromptResult(s, o, k + 1, Aborted)
      case Stay(b, o) =>
        var l := Loop(s.(bps := b), reqs, k + 1, st, heap, fs);
        PromptResult(l.session, o + l.out, l.consumed, l.end)
  }

  /** The loop stops at the first resume request: none before the last one read resumes. */
  lemma {:induction false} LoopStopsAtFirstResume(s: Session, reqs: seq<Request>, k: nat, st: Stack, heap: Heap, fs: Registry.FileSys)
    requires k <= |reqs|
    requires Closed(heap) && FrameOk(heap, st.current)
    ensures var r := Loop(s, reqs, k, st, heap, fs);
      && (forall i | k <= i < r.consumed - 1 :: !IsResume(reqs[i]))
      && (r.end == OutOfInput ==> forall i | k <= i < |reqs| :: !IsResume(reqs[i]))
    decreases |reqs| - k
  {
    if k < |reqs| && !IsResume(reqs[k]) {
      var o := Body(s.bps, reqs[k], st, heap, fs);
      if o.Stay? {
        LoopStopsAtFirstResume(s.(bps := o.bps), reqs, k + 1, st, heap, fs);
      }
    }
  }

  /** A Lua error escapes the loop only from `watch` meeting keys `table.sort` cannot order. */
  lemma {:induction false} LoopNeverAborts(s: Session, reqs: seq<Request>, k: nat, st: Stack, heap: Heap, fs: Registry.FileSys)
    requires k <= |reqs|
    requires Closed(heap) && FrameOk(heap, st.current)
    ensures Inspect.AllComparable(heap) ==> Loop(s, reqs, k, st, heap, fs).end != Aborted
    decreases |reqs| - k
  {
    if k < |reqs| && !IsResume(reqs[k]) {
      var o := Body(s.bps, reqs[k], st, heap, fs);
      if o.Stay? {
        LoopNeverAborts(s.(bps := o.bps), reqs, k + 1, st, heap, fs);
      }
    }
  }

  /** The prompt keeps the registry's invariant. */
  lemma {:induction false} LoopKeepsValid(s: Session, reqs: seq<Request>, k: nat, st: Stack, heap: Heap, fs: Registry.FileSys)
    requires k <= |reqs|
    requires Closed(heap) && FrameOk(heap, st.current)
    requires Registry.Valid(s.bps)
    ensures Registry.Valid(Loop(s, reqs, k, st, heap, fs).session.bps)
    decreases |reqs| - k
  {
    if k < |reqs| && !IsResume(reqs[k]) {
      var o := Body(s.bps, reqs[k], st, heap, fs);
      if o.Stay? {
        LoopKeepsValid(s.(bps := o.bps), reqs, k + 1, st, heap, fs);
      }
    }
  }

  /** Only an `sb` or `db` request changes the registry. */
  lemma {:induction false} LoopChangesOnlyBySetting(s: Session, reqs: seq<Request>, k: nat, st: Stack, heap: Heap, fs: Registry.FileSys)
    requires k <= |reqs|
    requires Closed(heap) && FrameOk(heap, st.current)
    ensures var r := Loop(s, reqs, k, st, heap, fs);
      r.session.bps != s.bps ==>
        exists i | k <= i < r.consumed :: reqs[i].Given? && (reqs[i].c == SetBreakPoint || reqs[i].c == DelBreakPoint)
    decreases |reqs| - k
  {
    if k < |reqs| && !IsResume(reqs[k]) {
      var o := Body(s.bps, reqs[k], st, heap, fs);
      if o.Stay? {
        LoopChangesOnlyBySetting(s.(bps := o.bps), reqs, k + 1, st, heap, fs);
      }
    }
  }

  /**
   One turn of the loop: input exhausted or a resume request ends it with
   nothing printed; otherwise the request's output comes first, and either
   its Lua error ends the loop or the loop goes on with the registry the
   request left.
   */
  lemma LoopStep(s: Session, reqs: seq<Request>, k: nat, st: Stack, heap: Heap, fs: Registry.FileSys)
    requires k <= |reqs|
    requires Closed(heap) && FrameOk(heap, st.current)
    ensures var r := Loop(s, reqs, k, st, heap, fs);
      && (k == |reqs| ==> r == PromptResult(s, [], k, OutOfInput))
      && (k < |reqs| && IsResume(reqs[k]) ==> r == PromptResult(Choose(s, reqs[k].c.mode), [], k + 1, Resumed))
      && (k < |reqs| && !IsResume(reqs[k]) ==>
            var o := Body(s.bps, reqs[k], st, heap, fs);
            && (o.Error? ==> r == PromptResult(s, o.out, k + 1, Aborted))
            && (o.Stay? ==>
                  var l := Loop(s.(bps := o.bps), reqs, k + 1, st, heap, fs);
                  r == PromptResult(l.session, o.out + l.out, l.consumed, l.end)))
  {
  }

  /**
   The requests `k` to `n - 1` run one after another, none resuming: each
   starts from the registry the previous one left, the outputs are
   concatenated in order, and the first Lua error stops the batch.
   */
  ghost function Batch(bps: Registry.BreakPoints, reqs: seq<Request>, k: nat, n: nat, st: Stack, heap: Heap, fs: Registry.FileSys): (r: Outcome)
    requires k <= n <= |reqs|
    requires forall i | k <= i < n :: !IsResume(reqs[i])
    requires Closed(heap) && FrameOk(heap, st.current)
    ensures r.Stay? && Registry.Valid(bps) ==> Registry.Valid(r.bps)
    decreases n - k
  {
    if k == n then Stay(bps, [])
    else
      match Body(bps, reqs[k], st, heap, fs)
      case Error(o) => Error(o)
      case Stay(b, o) =>
        match Batch(b, reqs, k + 1, n, st, heap, fs)
        case Error(o2) => Error(o + o2)
        case Stay(b2, o2) => Stay(b2, o + o2)
  }

  /** A Lua error within a stretch of requests that do not resume ends the loop there, with exactly the batch's output. */
  lemma {:induction false} LoopBatchAborts(s: Session, reqs: seq<Request>, k: nat, n: nat, st: Stack, heap: Heap, fs: Registry.FileSys)
    requires k <= n <= |reqs|
    requires forall i | k <= i < n :: !IsResume(reqs[i])
    requires Closed(heap) && FrameOk(heap, st.current)
    requires Batch(s.bps, reqs, k, n, st, heap, fs).Error?
    ensures var r := Loop(s, reqs, k, st, heap, fs);
      r.out == Batch(s.bps, reqs, k, n, st, heap, fs).out && r.end == Aborted && r.consumed <= n
    decreases n - k
  {
    LoopStep(s, reqs, k, st, heap, fs);
    var o := Body(s.bps, reqs[k], st, heap, fs);
    if o.Stay? {
      LoopBatchAborts(s.(bps := o.bps), reqs, k + 1, n, st, heap, fs);
    }
  }

  /** Every input line, parsed. */
  function Requests(lines: seq<string>): (reqs: seq<Request>)
    ensures |reqs| == |lines|
    ensures forall i | 0 <= i < |lines| :: reqs[i] == Parse(lines[i])
    ensures forall i | 0 <= i < |lines| :: IsResume(reqs[i]) <==> Resumes(lines[i])
  {
    var reqs := seq(|lines|, i requires 0 <= i < |lines| => Parse(lines[i]));
    AllParseResumes(lines, reqs);
    reqs
  }

  lemma AllParseResumes(lines: seq<string>, reqs: seq<Request>)
    requires |reqs| == |lines|
    requires forall i | 0 <= i < |lines| :: reqs[i] == Parse(lines[i])
    ensures forall i | 0 <= i < |lines| :: IsResume(reqs[i]) <==> Resumes(lines[i])
  {
    forall i | 0 <= i < |lines| ensures IsResume(reqs[i]) <==> Resumes(lines[i]) {
      ParseResumes(lines[i]);
    }
  }

  /**
   `prompt(L, ar)`: print where execution stopped, then read and run
   commands until one resumes it.
   */
  function Prompt(s: Session, lines: seq<string>, st: Stack, heap: Heap, fs: Registry.FileSys): (r: PromptResult)
    requires Closed(heap) && FrameOk(heap, st.current)
    ensures |r.out| >= 1 && r.out[0] == Summary(st.current)
    ensures r.consumed <= |lines|
    ensures r.session.level == s.level
    ensures r.end != Resumed ==> r.session.cmd == s.cmd && r.session.hooked == s.hooked
    ensures r.end == Resumed ==>
      && r.consumed >= 1
      && Says(lines[r.consumed - 1], Resume(r.session.cmd))
      && (!r.session.hooked <==> !s.hooked || (r.session.cmd == Run && r.session.bps == map[]))
  {
    var reqs := Requests(lines);
    var l := Loop(s, reqs, 0, st, heap, fs);
    PromptResult(l.session, [Summary(st.current)] + l.out, l.consumed, l.end)
  }

  /** The prompt prints the frame summary and then, in order, everything the loop prints. */
  lemma PromptOutput(s: Session, lines: seq<string>, st: Stack, heap: Heap, fs: Registry.FileSys)
    requires Closed(heap) && FrameOk(heap, st.current)
    ensures var r := Prompt(s, lines, st, heap, fs);
      var l := Loop(s, Requests(lines), 0, st, heap, fs);
      r.out == [Summary(st.current)] + l.out && r.session == l.session && r.consumed == l.consumed && r.end == l.end
  {
  }

  /**
   The prompt reads lines until the first one that resumes; if none does, it
   reads them all and is still waiting.
   */
  lemma PromptReadsUntilResume(s: Session, lines: seq<string>, st: Stack, heap: Heap, fs: Registry.FileSys)
    requires Closed(heap) && FrameOk(heap, st.current)
    ensures var r := Prompt(s, lines, st, heap, fs);
      && (forall i | 0 <= i < r.consumed - 1 :: !Resumes(lines[i]))
      && (r.end == OutOfInput ==> r.consumed == |lines| && forall i | 0 <= i < |lines| :: !Resumes(lines[i]))
  {
    LoopStopsAtFirstResume(s, Requests(lines), 0, st, heap, fs);
  }

  /**
   The prompt is left by a Lua error only right after a `watch` line, and
   never when every table's keys can be ordered.
   */
  lemma PromptAbortsOnlyInWatch(s: Session, lines: seq<string>, st: Stack, heap: Heap, fs: Registry.FileSys)
    requires Closed(heap) && FrameOk(heap, st.current)
    ensures var r := Prompt(s, lines, st, heap, fs);
      && (r.end == Aborted ==> r.consumed >= 1 && Says(lines[r.consumed - 1], Watch))
      && (Inspect.AllComparable(heap) ==> r.end != Aborted)
  {
    var reqs := Requests(lines);
    var l := Loop(s, reqs, 0, st, heap, fs);
    LoopNeverAborts(s, reqs, 0, st, heap, fs);
    var r := Prompt(s, lines, st, heap, fs);
    assert r.end == l.end && r.consumed == l.consumed;
    if l.end == Aborted {
      assert reqs[l.consumed - 1] == Parse(lines[l.consumed - 1]);
    }
  }

  /** The prompt keeps the registry's invariant. */
  lemma PromptKeepsValid(s: Session, lines: seq<string>, st: Stack, heap: Heap, fs: Registry.FileSys)
    requires Closed(heap) && FrameOk(heap, st.current)
    ensures Registry.Valid(s.bps) ==> Registry.Valid(Prompt(s, lines, st, heap, fs).session.bps)
  {
    if Registry.Valid(s.bps) {
      LoopKeepsValid(s, Requests(lines), 0, st, heap, fs);
    }
  }

  /** The registry changes only if the prompt read an `sb` or `db` line. */
  lemma PromptChangesOnlyBySetting(s: Session, lines: seq<string>, st: Stack, heap: Heap, fs: Registry.FileSys)
    requires Closed(heap) && FrameOk(heap, st.current)
    ensures var r := Prompt(s, lines, st, heap, fs);
      r.session.bps != s.bps ==>
        exists i | 0 <= i < r.consumed :: Says(lines[i], SetBreakPoint) || Says(lines[i], DelBreakPoint)
  {
    var reqs := Requests(lines);
    LoopChangesOnlyBySetting(s, reqs, 0, st, heap, fs);
    var l := Loop(s, reqs, 0, st, heap, fs);
    var r := Prompt(s, lines, st, heap, fs);
    assert r.session == l.session && r.consumed == l.consumed;
    if l.session.bps != s.bps {
      var i :| 0 <= i < l.consumed && reqs[i].Given? && (reqs[i].c == SetBreakPoint || reqs[i].c == DelBreakPoint);
      assert reqs[i] == Parse(lines[i]);
      assert Says(lines[i], reqs[i].c);
    }
  }

  /** A line that names a command parses to that command with the rest of the line as argument. */
  lemma ParseNamed(line: string, c: Command)
    requires Says(line, c)
    ensures Parse(line) == Given(c, Arg(line))
  {
    var w := Word(line, ParseOneArg(line).value);
    NamedOnce(w, Parse(line).c, c);
  }

  /**
   Setting a breakpoint and then typing "run" resumes in "run" mode with the
   breakpoint registered and the hook still installed.
   */
  lemma SetThenRun(s: Session, setLine: string, goLine: string, st: Stack, heap: Heap, fs: Registry.FileSys)
    requires Closed(heap) && FrameOk(heap, st.current)
    requires Says(setLine, SetBreakPoint) && Registry.Target(fs, st.current.source, Arg(setLine)).Some?
    requires Says(goLine, Resume(Run))
    ensures var r := Prompt(s, [setLine, goLine], st, heap, fs);
      var target := Registry.Target(fs, st.current.source, Arg(setLine)).value;
      && r.end == Resumed && r.consumed == 2
      && r.session.cmd == Run && r.session.hooked == s.hooked
      && Registry.Contains(r.session.bps, target.0, target.1)
  {
    ParseNamed(setLine, SetBreakPoint);
    ParseNamed(goLine, Resume(Run));
    var reqs := Requests([setLine, goLine]);
    assert reqs[0] == Given(SetBreakPoint, Arg(setLine)) && reqs[1] == Given(Resume(Run), Arg(goLine));
    var o := Body(s.bps, reqs[0], st, heap, fs);
    assert o.Stay?;
    var target := Registry.Target(fs, st.current.source, Arg(setLine)).value;
    assert Registry.Contains(o.bps, target.0, target.1);
    var s' := s.(bps := o.bps);
    assert Loop(s', reqs, 1, st, heap, fs).session == Choose(s', Run);
    var l := Loop(s, reqs, 0, st, heap, fs);
    assert l.session == Choose(s', Run) && l.consumed == 2 && l.end == Resumed;
  }
}
