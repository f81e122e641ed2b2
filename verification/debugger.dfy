/**
 A debugging session end to end: the hook sees a run of events; every event
 that suspends enters the prompt, which reads commands from the remaining
 input. The Lua heap is the one the prompts inspect; the debugger itself never
 writes to it.
 */
module Debugger {
  import opened Values
  import opened Console
  import opened Registry
  import opened Session
  import opened Hook
  import Prompt
  import Inspect

  /** Why a run stopped: all events delivered, a prompt waiting for more input, or a Lua error out of `watch`. */
  datatype Halt = Finished | Blocked | Raised

  /** The session afterwards, everything printed, the unread input, and why it stopped. */
  datatype Trace = Trace(session: Session, out: seq<Out>, rest: seq<string>, halt: Halt)

  /** Every line event's stack is one the heap can describe, as at any real hook call. */
  ghost predicate EventsOk(heap: Heap, evs: seq<Event>) {
    Closed(heap) && forall i | 0 <= i < |evs| && evs[i].Line? :: FrameOk(heap, evs[i].at.current)
  }

  /** Deliver `evs` in order, entering the prompt whenever the hook suspends. */
  function Drive(s: Session, evs: seq<Event>, heap: Heap, fs: FileSys, input: seq<string>): (r: Trace)
    requires EventsOk(heap, evs)
    ensures r.halt == Finished ==> |r.rest| <= |input|
    ensures r.session.hooked ==> s.hooked
    ensures Registry.Valid(s.bps) ==> Registry.Valid(r.session.bps)
    ensures Inspect.AllComparable(heap) ==> r.halt != Raised
    decreases |evs|
  {
    if evs == [] then Trace(s, [], input, Finished)
    else
      var h := Deliver(s, evs[0], fs);
      assert EventsOk(heap, evs[1..]) by {
        assert forall i | 1 <= i < |evs| :: evs[1..][i - 1] == evs[i];
      }
      if !h.suspend then Drive(h.session, evs[1..], heap, fs, input)
      else
        assert FrameOk(heap, evs[0].at.current);
        var p := Prompt.Prompt(h.session, input, evs[0].at, heap, fs);
        Prompt.PromptKeepsValid(h.session, input, evs[0].at, heap, fs);
        Prompt.PromptAbortsOnlyInWatch(h.session, input, evs[0].at, heap, fs);
        match p.end
        case Resumed =>
          var t := Drive(p.session, evs[1..], heap, fs, input[p.consumed..]);
          Trace(t.session, p.out + t.out, t.rest, t.halt)
        case OutOfInput => Trace(p.session, p.out, [], Blocked)
        case Aborted => Trace(p.session, p.out, input[p.consumed..], Raised)
  }

  /** Once the hook is removed nothing happens any more: no command can put it back. */
  lemma {:induction false} DisarmedIsInert(s: Session, evs: seq<Event>, heap: Heap, fs: FileSys, input: seq<string>)
    requires EventsOk(heap, evs)
    requires !s.hooked
    ensures Drive(s, evs, heap, fs, input) == Trace(s, [], input, Finished)
    decreases |evs|
  {
    if evs != [] {
      assert EventsOk(heap, evs[1..]) by {
        assert forall i | 1 <= i < |evs| :: evs[1..][i - 1] == evs[i];
      }
      DisarmedIsInert(s, evs[1..], heap, fs, input);
    }
  }

  /**
   Under "finish" the prompt is never entered: nothing is printed, no input is
   read, and only the depth moves, by the clamped walk.
   */
  lemma {:induction false} FinishIsSilent(s: Session, evs: seq<Event>, heap: Heap, fs: FileSys, input: seq<string>)
    requires EventsOk(heap, evs)
    requires s.hooked && s.cmd == Finish
    ensures Drive(s, evs, heap, fs, input) == Trace(s.(level := Walk(s.level, evs)), [], input, Finished)
    decreases |evs|
  {
    if evs != [] {
      assert EventsOk(heap, evs[1..]) by {
        assert forall i | 1 <= i < |evs| :: evs[1..][i - 1] == evs[i];
      }
      var h := Deliver(s, evs[0], fs);
      assert h.session == s.(level := Track(s.level, evs[0]));
      FinishIsSilent(h.session, evs[1..], heap, fs, input);
    }
  }

  /** The depth after a "finish" run, in closed form. */
  lemma FinishDepth(s: Session, evs: seq<Event>, heap: Heap, fs: FileSys, input: seq<string>)
    requires EventsOk(heap, evs)
    requires s.hooked && s.cmd == Finish
    ensures var level := Drive(s, evs, heap, fs, input).session.level;
      level == if s.level + Net(evs) >= MaxSuffixNet(evs) then s.level + Net(evs) else MaxSuffixNet(evs)
  {
    FinishIsSilent(s, evs, heap, fs, input);
    WalkClosedForm(s.level, evs);
  }

  /** No line event of `evs` is at a registered breakpoint. */
  predicate NoHits(s: Session, fs: FileSys, evs: seq<Event>) {
    forall i | 0 <= i < |evs| && evs[i].Line? :: !Hit(s, fs, evs[i].at.current)
  }

  /**
   Under "run" the program goes on until a line with a breakpoint: before it,
   nothing is printed and no input is read; at it, the prompt opens with that
   frame's summary.
   */
  lemma {:induction false} RunStopsAtFirstHit(s: Session, pre: seq<Event>, st: Stack, post: seq<Event>,
                                             heap: Heap, fs: FileSys, input: seq<string>)
    requires EventsOk(heap, pre + [Line(st)] + post)
    requires s.hooked && s.cmd == Run
    requires NoHits(s, fs, pre) && Hit(s, fs, st.current)
    ensures var r := Drive(s, pre + [Line(st)] + post, heap, fs, input);
      |r.out| >= 1 && r.out[0] == Summary(st.current)
    decreases |pre|
  {
    var evs := pre + [Line(st)] + post;
    if pre == [] {
      assert evs[0] == Line(st);
    } else {
      assert evs[0] == pre[0];
      assert evs[1..] == pre[1..] + [Line(st)] + post;
      assert EventsOk(heap, evs[1..]) by {
        assert forall i | 1 <= i < |evs| :: evs[1..][i - 1] == evs[i];
      }
      var h := Deliver(s, evs[0], fs);
      assert !h.suspend && h.session == s.(level := h.session.level) by {
        if pre[0].Line? {
          assert !Hit(s, fs, pre[0].at.current);
        }
      }
      assert NoHits(h.session, fs, pre[1..]) by {
        forall i | 0 <= i < |pre[1..]| && pre[1..][i].Line?
          ensures !Hit(h.session, fs, pre[1..][i].at.current)
        {
          assert pre[1..][i] == pre[i + 1];
        }
      }
      RunStopsAtFirstHit(h.session, pre[1..], st, post, heap, fs, input);
    }
  }

  lemma EventsOkSuffix(heap: Heap, evs: seq<Event>, k: nat)
    requires EventsOk(heap, evs) && k <= |evs|
    ensures EventsOk(heap, evs[k..])
  {
    assert forall i | k <= i < |evs| :: evs[k..][i - k] == evs[i];
  }

  /** An event that does not suspend only moves the session on. */
  lemma DriveQuiet(s: Session, evs: seq<Event>, heap: Heap, fs: FileSys, input: seq<string>)
    requires EventsOk(heap, evs) && evs != []
    requires !Deliver(s, evs[0], fs).suspend
    ensures EventsOk(heap, evs[1..])
    ensures Drive(s, evs, heap, fs, input) == Drive(Deliver(s, evs[0], fs).session, evs[1..], heap, fs, input)
  {
    EventsOkSuffix(heap, evs, 1);
  }

  /** An event that suspends opens the prompt on its frame. */
  lemma DriveStops(s: Session, evs: seq<Event>, heap: Heap, fs: FileSys, input: seq<string>)
    requires EventsOk(heap, evs) && evs != []
    requires Deliver(s, evs[0], fs).suspend
    ensures var r := Drive(s, evs, heap, fs, input);
      |r.out| >= 1 && r.out[0] == Summary(evs[0].at.current)
  {
    EventsOkSuffix(heap, evs, 1);
  }

  /**
   Under "step" the prompt opens at the first line event: calls and returns
   before it pass without a stop.
   */
  lemma {:induction false} StepStopsAtNextLine(s: Session, pre: seq<Event>, st: Stack, post: seq<Event>,
                                              heap: Heap, fs: FileSys, input: seq<string>)
    requires EventsOk(heap, pre + [Line(st)] + post)
    requires s.hooked && s.cmd == Step
    requires forall i | 0 <= i < |pre| :: !pre[i].Line?
    ensures var r := Drive(s, pre + [Line(st)] + post, heap, fs, input);
      |r.out| >= 1 && r.out[0] == Summary(st.current)
    decreases |pre|
  {
    var evs := pre + [Line(st)] + post;
    if pre == [] {
      assert evs[0] == Line(st);
      DriveStops(s, evs, heap, fs, input);
    } else {
      assert evs[0] == pre[0];
      assert evs[1..] == pre[1..] + [Line(st)] + post;
      DriveQuiet(s, evs, heap, fs, input);
      assert forall i | 0 <= i < |pre[1..]| :: pre[1..][i] == pre[i + 1];
      StepStopsAtNextLine(Deliver(s, evs[0], fs).session, pre[1..], st, post, heap, fs, input);
    }
  }

  /**
   Under "over", events that keep the depth above 0 just before each of them,
   with no breakpoint on their lines, pass silently: only the depth moves, by
   calls minus returns.
   */
  lemma {:induction false} OverPassesBody(s: Session, body: seq<Event>, rest: seq<Event>,
                                          heap: Heap, fs: FileSys, input: seq<string>)
    requires EventsOk(heap, body + rest)
    requires s.hooked && s.cmd == Over
    requires NoHits(s, fs, body)
    requires forall j | 0 <= j < |body| :: s.level + Net(body[..j]) > 0
    ensures EventsOk(heap, rest)
    ensures s.level + Net(body) >= 0
    ensures Drive(s, body + rest, heap, fs, input)
      == Drive(s.(level := s.level + Net(body)), rest, heap, fs, input)
    decreases |body|
  {
    var evs := body + rest;
    if body == [] {
      assert evs == rest;
    } else {
      assert evs[0] == body[0];
      assert evs[1..] == body[1..] + rest;
      assert body[..0] == [];
      var s1 := s.(level := Track(s.level, body[0]));
      assert Deliver(s, evs[0], fs) == HookResult(s1, false) by {
        if body[0].Line? {
          assert !Hit(s, fs, body[0].at.current);
        }
      }
      DriveQuiet(s, evs, heap, fs, input);
      assert Net(body) == s1.level - s.level + Net(body[1..]);
      forall j | 0 <= j < |body[1..]| ensures s1.level + Net(body[1..][..j]) > 0 {
        assert body[..j + 1][0] == body[0];
        assert body[..j + 1][1..] == body[1..][..j];
      }
      assert NoHits(s1, fs, body[1..]) by {
        forall i | 0 <= i < |body[1..]| && body[1..][i].Line?
          ensures !Hit(s1, fs, body[1..][i].at.current)
        {
          assert body[1..][i] == body[i + 1];
        }
      }
      OverPassesBody(s1, body[1..], rest, heap, fs, input);
    }
  }

  /**
   Under "over" at depth 0, a call whose events never return below the
   call's own level and come back to it, with no breakpoint on their lines,
   passes silently, and the matching return brings the depth back to 0.
   */
  lemma OverPassesCall(s: Session, body: seq<Event>, tail: seq<Event>,
                       heap: Heap, fs: FileSys, input: seq<string>)
    requires EventsOk(heap, [Call] + (body + [Ret] + tail))
    requires s.hooked && s.cmd == Over && s.level == 0
    requires NoHits(s, fs, body)
    requires forall j | 0 <= j <= |body| :: Net(body[..j]) >= 0
    requires Net(body) == 0
    ensures EventsOk(heap, tail)
    ensures Drive(s, [Call] + (body + [Ret] + tail), heap, fs, input) == Drive(s, tail, heap, fs, input)
  {
    var b := body + [Ret];
    var evs := [Call] + (b + tail);
    assert evs[0] == Call && evs[1..] == b + tail;
    var s1 := s.(level := 1);
    assert Deliver(s, Call, fs) == HookResult(s1, false);
    DriveQuiet(s, evs, heap, fs, input);
    assert NoHits(s1, fs, b) by {
      forall i | 0 <= i < |b| && b[i].Line? ensures !Hit(s1, fs, b[i].at.current) {
        assert b[i] == body[i];
      }
    }
    forall j | 0 <= j < |b| ensures s1.level + Net(b[..j]) > 0 {
      assert b[..j] == body[..j];
    }
    OverPassesBody(s1, b, tail, heap, fs, input);
    NetAppend(body, [Ret]);
    assert [Ret][1..] == [];
    assert s1.(level := s1.level + Net(b)) == s;
  }

  /**
   "over" at depth 0 steps over a call: the called function's events pass
   without a stop, and the first line after the matching return opens the
   prompt.
   */
  lemma OverStepsOverCall(s: Session, body: seq<Event>, st: Stack, post: seq<Event>,
                          heap: Heap, fs: FileSys, input: seq<string>)
    requires EventsOk(heap, [Call] + body + [Ret, Line(st)] + post)
    requires s.hooked && s.cmd == Over && s.level == 0
    requires NoHits(s, fs, body)
    requires forall j | 0 <= j <= |body| :: Net(body[..j]) >= 0
    requires Net(body) == 0
    ensures var r := Drive(s, [Call] + body + [Ret, Line(st)] + post, heap, fs, input);
      |r.out| >= 1 && r.out[0] == Summary(st.current)
  {
    var tail := [Line(st)] + post;
    assert [Call] + body + [Ret, Line(st)] + post == [Call] + (body + [Ret] + tail);
    OverPassesCall(s, body, tail, heap, fs, input);
    assert tail[0] == Line(st);
    DriveStops(s, tail, heap, fs, input);
  }
}
