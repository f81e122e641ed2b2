/**
 The hook dispatcher (`hook`) and the breakpoint check (`checkBreakPoint`).
 Lua calls the hook on every line, call, return and tail return while it is
 installed. The dispatcher updates the call depth and decides whether to
 suspend into the prompt; the prompt itself is modelled in the Prompt module.
 */
module Hook {
  import opened Optional
  import opened Values
  import opened Registry
  import opened Session

  /** Hook events (`LUA_HOOKLINE`, `LUA_HOOKCALL`, `LUA_HOOKRET`, `LUA_HOOKTAILRET`); a line event carries the stack. */
  datatype Event = Line(at: Stack) | Call | Ret | TailRet

  /** What one hook invocation leaves behind, and whether it enters the prompt. */
  datatype HookResult = HookResult(session: Session, suspend: bool)

  /** The frame's source, canonicalised, has a breakpoint at its current line. */
  predicate Hit(s: Session, fs: FileSys, f: Frame) {
    match Canon(fs, f.source)
    case None => false
    case Some(key) => Contains(s.bps, key, f.line)
  }

  /**
   `checkBreakPoint`: on a hit, reset the depth so that a later "over" counts
   from the frame being paused in, and suspend; on a miss, change nothing.
   */
  function CheckBreakPoint(s: Session, fs: FileSys, f: Frame): (r: HookResult)
    ensures r.suspend <==> Hit(s, fs, f)
    ensures r.suspend ==> r.session == s.(level := 0)
    ensures !r.suspend ==> r.session == s
  {
    if Hit(s, fs, f) then HookResult(s.(level := 0), true) else HookResult(s, false)
  }

  /** The depth after a non-line event: up on a call, down but never below 0 on a return. */
  function Track(level: nat, e: Event): nat {
    match e
    case Call => level + 1
    case Ret => if level > 0 then level - 1 else 0
    case TailRet => if level > 0 then level - 1 else 0
    case Line(_) => level
  }

  /** `hook`: one event, with the hook installed. */
  function Hook(s: Session, e: Event, fs: FileSys): (r: HookResult)
    // only the depth may change, and entering the prompt always happens at depth 0
    ensures r.session == s.(level := r.session.level)
    ensures r.suspend ==> e.Line? && r.session.level == 0
    // call-depth bookkeeping
    ensures !e.Line? ==> r.session.level == Track(s.level, e)
    ensures e.Call? ==> r.session.level == s.level + 1
    ensures (e.Ret? || e.TailRet?) ==> r.session.level == if s.level == 0 then 0 else s.level - 1
    // the line-event decision per command
    ensures e.Line? && s.cmd == Step ==> r.suspend
    ensures e.Line? && s.cmd == Finish ==> r == HookResult(s, false)
    ensures e.Line? && s.cmd == Over ==> (r.suspend <==> s.level == 0 || Hit(s, fs, e.at.current))
    ensures e.Line? && s.cmd == Run ==> (r.suspend <==> Hit(s, fs, e.at.current))
    ensures e.Line? && !r.suspend ==> r.session == s
  {
    match e
    case Line(st) =>
      (match s.cmd
       case Step => HookResult(s.(level := 0), true)
       case Over => if s.level == 0 then HookResult(s, true) else CheckBreakPoint(s, fs, st.current)
       case Finish => HookResult(s, false)
       case Run => CheckBreakPoint(s, fs, st.current))
    case _ => HookResult(s.(level := Track(s.level, e)), false)
  }

  /** An event reaches `hook` only while the hook is installed; otherwise nothing happens. */
  function Deliver(s: Session, e: Event, fs: FileSys): (r: HookResult)
    ensures !s.hooked ==> r == HookResult(s, false)
    ensures s.hooked ==> r == Hook(s, e, fs)
  {
    if s.hooked then Hook(s, e, fs) else HookResult(s, false)
  }

  /** Calls minus returns, the unclamped depth change of a run of events. */
  function Net(evs: seq<Event>): int {
    if evs == [] then 0
    else
      (match evs[0]
       case Call => 1
       case Ret => -1
       case TailRet => -1
       case Line(_) => 0) + Net(evs[1..])
  }

  /** The largest `Net` of any suffix of `evs` (the empty suffix counts, so it is never negative). */
  function MaxSuffixNet(evs: seq<Event>): (m: nat)
    ensures m >= Net(evs)
  {
    if evs == [] then 0
    else
      var rest := MaxSuffixNet(evs[1..]);
      if Net(evs) > rest then Net(evs) else rest
  }

  lemma {:induction false} NetAppend(a: seq<Event>, b: seq<Event>)
    ensures Net(a + b) == Net(a) + Net(b)
  {
    if a == [] {
      assert a + b == b;
    } else {
      assert (a + b)[0] == a[0];
      assert (a + b)[1..] == a[1..] + b;
      NetAppend(a[1..], b);
    }
  }

  /** The depth after a run of events none of which changes it otherwise: `Track` applied in order. */
  function Walk(level: nat, evs: seq<Event>): nat
    decreases |evs|
  {
    if evs == [] then level else Walk(Track(level, evs[0]), evs[1..])
  }

  /**
   The clamped walk in closed form: the depth is the start plus calls minus
   returns, unless some suffix of the run climbs higher from 0 after the
   depth was clamped.
   */
  lemma {:induction false} WalkClosedForm(level: nat, evs: seq<Event>)
    ensures Walk(level, evs) == if level + Net(evs) >= MaxSuffixNet(evs) then level + Net(evs) else MaxSuffixNet(evs)
    decreases |evs|
  {
    if evs != [] {
      WalkClosedForm(Track(level, evs[0]), evs[1..]);
    }
  }

  /** Two returns then a call leave the depth at 1, not at max(calls - returns, 0) = 0. */
  lemma ClampedWalkIsNotNetCount()
    ensures Net([Ret, Ret, Call]) == -1
    ensures Walk(0, [Ret, Ret, Call]) == 1
  {
    var evs := [Ret, Ret, Call];
    assert evs[1..] == [Ret, Call] && evs[1..][1..] == [Call] && evs[1..][1..][1..] == [];
  }
}
