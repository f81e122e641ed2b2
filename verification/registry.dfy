/**
 The breakpoint registry (`debugger.breakpoints` in the Lua registry): a map
 from canonical source path to the set of lines with a breakpoint, plus the
 `setBreakPoint`/`delBreakPoint` command and the sorted `listBreakPoints`.

 Path canonicalisation (`_fullpath`) and the existence test (`_access`) are
 supplied by the host file system as a `FileSys` value.
 */
module Registry {
  import opened Optional
  import opened Text
  import opened Order

  type BreakPoints = map<string, set<int>>

  /**
   The host file system as the registry sees it: `_fullpath` (absent when it
   fails), `_access(path, 0) == 0`, and whether the build defines
   `PATH_CASE_SENSITIVE` (otherwise keys are lower-cased with `_strlwr`).
   */
  datatype FileSys = FileSys(
    fullpath: string -> Option<string>,
    accessible: string -> bool,
    caseSensitive: bool)

  /** The registry key of an absolute path. */
  function Key(fs: FileSys, full: string): string {
    if fs.caseSensitive then full else Lower(full)
  }

  /** Canonical key of a source name, absent when `_fullpath` fails. */
  function Canon(fs: FileSys, path: string): Option<string> {
    match fs.fullpath(path)
    case None => None
    case Some(full) => Some(Key(fs, full))
  }

  /** Unless paths are case-sensitive, a key has no capital letters. */
  lemma KeyIsLowered(fs: FileSys, full: string)
    requires !fs.caseSensitive
    ensures Lower(Key(fs, full)) == Key(fs, full)
  {
    LowerIdempotent(full);
  }

  /** No path maps to an empty line set, and every line is positive. */
  ghost predicate Valid(bps: BreakPoints) {
    forall p | p in bps :: bps[p] != {} && forall l | l in bps[p] :: l > 0
  }

  predicate Contains(bps: BreakPoints, path: string, line: int) {
    path in bps && line in bps[path]
  }

  /** The lines registered for `path`; a path without an entry has none. */
  function LinesOf(bps: BreakPoints, path: string): set<int> {
    if path in bps then bps[path] else {}
  }

  /** Add one breakpoint, creating the path's entry on first use. */
  function Add(bps: BreakPoints, path: string, line: int): (r: BreakPoints)
    ensures forall q, m :: Contains(r, q, m) <==> Contains(bps, q, m) || (q == path && m == line)
    ensures r.Keys == bps.Keys + {path}
    ensures Valid(bps) && line > 0 ==> Valid(r)
  {
    bps[path := LinesOf(bps, path) + {line}]
  }

  /**
   Delete one breakpoint. The source first creates an empty entry when the path
   has none, clears the line, and then deletes the entry if it has no lines
   left; so an entry never outlives its last line.
   */
  function Remove(bps: BreakPoints, path: string, line: int): (r: BreakPoints)
    ensures forall q, m :: Contains(r, q, m) <==> Contains(bps, q, m) && !(q == path && m == line)
    ensures path in r <==> LinesOf(bps, path) - {line} != {}
    ensures forall q | q != path :: q in r <==> q in bps
    ensures Valid(bps) ==> Valid(r)
  {
    var rest := LinesOf(bps, path) - {line};
    if rest == {} then bps - {path} else bps[path := rest]
  }

  lemma AddIdempotent(bps: BreakPoints, path: string, line: int)
    ensures Add(Add(bps, path, line), path, line) == Add(bps, path, line)
  {
  }

  /** Deleting a breakpoint that is not there changes nothing. */
  lemma RemoveAbsent(bps: BreakPoints, path: string, line: int)
    requires Valid(bps) && !Contains(bps, path, line)
    ensures Remove(bps, path, line) == bps
  {
    if path in bps {
      assert bps[path] - {line} == bps[path];
    }
  }

  /** Adding a new breakpoint and deleting it again restores the registry. */
  lemma RemoveUndoesAdd(bps: BreakPoints, path: string, line: int)
    requires Valid(bps) && !Contains(bps, path, line)
    ensures Remove(Add(bps, path, line), path, line) == bps
  {
    var a := Add(bps, path, line);
    if path in bps {
      assert LinesOf(a, path) - {line} == bps[path];
    } else {
      assert LinesOf(a, path) - {line} == {};
      assert a - {path} == bps;
    }
  }

  /** The breakpoint named by the arguments of `sb`/`db`: a file token and a positive line. */
  function ParseBpArgs(arg: string): (r: Option<(string, int)>)
    ensures r.Some? ==> r.value.1 > 0 && |r.value.0| > 0
    ensures r.Some? ==> forall k | 0 <= k < |r.value.0| :: !IsSpace(r.value.0[k])
    // rejected when there is no file word, or no line word after it
    ensures ParseOneArg(arg).None? ==> r.None?
    ensures ParseOneArg(arg).Some? && ParseOneArg(Rest(arg, ParseOneArg(arg).value)).None? ==> r.None?
    // an accepted file is the first word
    ensures r.Some? ==> r.value.0 == Word(arg, ParseOneArg(arg).value)
  {
    match ParseOneArg(arg)
    case None => None
    case Some(ft) =>
      var rest := Rest(arg, ft);
      match ParseOneArg(rest)
      case None => None
      case Some(lt) =>
        var line := StrToL(Word(rest, lt));
        if line <= 0 then None else Some((Word(arg, ft), line))
  }

  /**
   With both words present, the arguments are rejected exactly when the line
   word reads as 0 or less, and an accepted line is the number it reads as.
   */
  lemma ParseBpArgsLine(arg: string)
    ensures ParseOneArg(arg).Some? && ParseOneArg(Rest(arg, ParseOneArg(arg).value)).Some? ==>
      var rest := Rest(arg, ParseOneArg(arg).value);
      var line := StrToL(Word(rest, ParseOneArg(rest).value));
      && (ParseBpArgs(arg).None? <==> line <= 0)
      && (ParseBpArgs(arg).Some? ==> ParseBpArgs(arg).value.1 == line)
  {
  }

  /** The first word of `w + s`, when `w` is a word and `s` starts with whitespace or is empty. */
  lemma FirstWordOf(w: string, s: string)
    requires |w| > 0 && forall k | 0 <= k < |w| :: !IsSpace(w[k])
    requires s == [] || IsSpace(s[0])
    ensures ParseOneArg(w + s) == Some(Token(0, |w|))
    ensures Word(w + s, Token(0, |w|)) == w
  {
    var a := w + s;
    assert a[0] == w[0];
    assert IsFirstWord(a, 0, |w|) by {
      assert forall k | 0 <= k < |w| :: a[k] == w[k];
      assert |w| < |a| ==> a[|w|] == s[0];
    }
    var t := ParseOneArg(a).value;
    FirstWordUnique(a, t.start, t.stop, 0, |w|);
    assert a[..|w|] == w;
  }

  /** A decimal line number followed by a non-digit parses as that number. */
  lemma LineWordReadsBack(n: int, rest: string)
    requires n > 0
    requires rest == [] || !IsDigit(rest[0])
    ensures ParseOneArg(ShowInt(n) + rest).Some?
    ensures StrToL(Word(ShowInt(n) + rest, ParseOneArg(ShowInt(n) + rest).value)) == n
  {
    var ds := ShowInt(n);
    var a := ds + rest;
    assert a[0] == ds[0] && !IsSpace(ds[0]);
    var t := ParseOneArg(a).value;
    assert t.start == 0;
    var stop := SkipWord(a, 0);
    assert t.stop == stop;
    assert forall k | 0 <= k < |ds| :: a[k] == ds[k];
    SkipWordPast(a, 0, |ds|);
    var tail := rest[..stop - |ds|];
    assert Word(a, t) == ds + tail;
    assert tail == [] || tail[0] == rest[0];
    StrToLShowInt(n, tail);
  }

  /**
   The arguments of `sb`/`db` are accepted as written: a file word, one
   space, and a positive line number (anything after the number that does not
   continue it is ignored, as `strtol` does).
   */
  lemma ParseBpArgsAccepts(file: string, n: int, rest: string)
    requires |file| > 0 && forall k | 0 <= k < |file| :: !IsSpace(file[k])
    requires n > 0
    requires rest == [] || !IsDigit(rest[0])
    ensures ParseBpArgs(file + " " + ShowInt(n) + rest) == Some((file, n))
  {
    var tail := ShowInt(n) + rest;
    var arg := file + (" " + tail);
    assert arg == file + " " + ShowInt(n) + rest;
    FirstWordOf(file, " " + tail);
    assert Rest(arg, Token(0, |file|)) == tail;
    LineWordReadsBack(n, rest);
  }

  /** "." stands for the source of the frame the prompt is paused in. */
  function ResolveFile(file: string, src: string): string {
    if file == "." then src else file
  }

  /** The registry key and line an `sb`/`db` command addresses, if its path is usable. */
  function Target(fs: FileSys, src: string, arg: string): Option<(string, int)> {
    match ParseBpArgs(arg)
    case None => None
    case Some(fl) =>
      match fs.fullpath(ResolveFile(fl.0, src))
      case None => None
      case Some(full) => if fs.accessible(full) then Some((Key(fs, full), fl.1)) else None
  }

  /** Outcome of `setBreakPoint`: the new registry, or which message was printed. */
  datatype BpResult = Applied(bps: BreakPoints) | BadArgument | BadPath

  /**
   `setBreakPoint(L, src, p, end, del)`: validate the arguments ("Invalid
   argument!"), resolve and check the path ("Invalid path!"), then add the
   breakpoint or delete it.
   */
  function SetBreakPoint(bps: BreakPoints, src: string, arg: string, del: bool, fs: FileSys): (r: BpResult)
    ensures r.BadArgument? <==> ParseBpArgs(arg).None?
    ensures r.Applied? <==> Target(fs, src, arg).Some?
    ensures r.Applied? && !del ==>
      forall q, m :: Contains(r.bps, q, m) <==> Contains(bps, q, m) || (q, m) == Target(fs, src, arg).value
    ensures r.Applied? && del ==>
      forall q, m :: Contains(r.bps, q, m) <==> Contains(bps, q, m) && (q, m) != Target(fs, src, arg).value
    ensures r.Applied? && Valid(bps) ==> Valid(r.bps)
  {
    match ParseBpArgs(arg)
    case None => BadArgument
    case Some(fl) =>
      match fs.fullpath(ResolveFile(fl.0, src))
      case None => BadPath
      case Some(full) =>
        if !fs.accessible(full) then BadPath
        else
          var key := Key(fs, full);
          Applied(if del then Remove(bps, key, fl.1) else Add(bps, key, fl.1))
  }

  /** Setting the same breakpoint twice is the same as setting it once. */
  lemma SetBreakPointIdempotent(bps: BreakPoints, src: string, arg: string, fs: FileSys)
    requires SetBreakPoint(bps, src, arg, false, fs).Applied?
    ensures SetBreakPoint(SetBreakPoint(bps, src, arg, false, fs).bps, src, arg, false, fs)
         == SetBreakPoint(bps, src, arg, false, fs)
  {
    var t := Target(fs, src, arg).value;
    AddIdempotent(bps, t.0, t.1);
  }

  /** An accepted `. n` names the file ".". */
  lemma DotIsFileWord(rest: string)
    ensures ParseBpArgs(". " + rest).Some? ==> ParseBpArgs(". " + rest).value.0 == "."
  {
    assert ". " + rest == "." + (" " + rest);
    FirstWordOf(".", " " + rest);
  }

  /** `. n` addresses the current source, under the key the breakpoint check computes for it. */
  lemma DotTarget(fs: FileSys, src: string, rest: string)
    requires Target(fs, src, ". " + rest).Some?
    ensures Canon(fs, src).Some? && Target(fs, src, ". " + rest).value.0 == Canon(fs, src).value
  {
    DotIsFileWord(rest);
  }

  /** `sb . n` registers the current source under the same key the breakpoint check computes. */
  lemma DotMeansCurrentSource(bps: BreakPoints, src: string, rest: string, fs: FileSys)
    requires SetBreakPoint(bps, src, ". " + rest, false, fs).Applied?
    ensures Canon(fs, src).Some?
    ensures Contains(SetBreakPoint(bps, src, ". " + rest, false, fs).bps, Canon(fs, src).value,
                     Target(fs, src, ". " + rest).value.1)
  {
    DotTarget(fs, src, rest);
  }

  /** Lexicographic order on (path, line) pairs: by path, then by line. */
  predicate PairLess(a: (string, int), b: (string, int)) {
    StrLess(a.0, b.0) || (a.0 == b.0 && a.1 < b.1)
  }

  /** The pairs of one path, in increasing line order. */
  function Group(p: string, lines: set<int>): (r: seq<(string, int)>)
    ensures forall j | 0 <= j < |r| :: r[j].0 == p && r[j].1 in lines
    ensures forall l | l in lines :: (p, l) in r
    ensures Increasing(r, PairLess)
  {
    IntLessStrictTotal(lines);
    var sorted := SortSet(lines, IntLess);
    var r := seq(|sorted|, i requires 0 <= i < |sorted| => (p, sorted[i]));
    assert forall l | l in lines :: (p, l) in r by {
      forall l | l in lines ensures (p, l) in r {
        var i :| 0 <= i < |sorted| && sorted[i] == l;
        assert r[i] == (p, l);
      }
    }
    r
  }

  lemma IncreasingConcat<T>(a: seq<T>, b: seq<T>, less: (T, T) -> bool)
    requires Increasing(a, less) && Increasing(b, less)
    requires forall i, j | 0 <= i < |a| && 0 <= j < |b| :: less(a[i], b[j])
    ensures Increasing(a + b, less)
  {
    forall i, j | 0 <= i < j < |a + b| ensures less((a + b)[i], (a + b)[j]) {
      if j < |a| {
      } else if i >= |a| {
        assert (a + b)[i] == b[i - |a|] && (a + b)[j] == b[j - |a|];
      } else {
        assert (a + b)[j] == b[j - |a|];
      }
    }
  }

  /** The listing of the registry entries for the given paths, in order. */
  function Listing(bps: BreakPoints, paths: seq<string>): (r: seq<(string, int)>)
    requires forall i | 0 <= i < |paths| :: paths[i] in bps
    requires Increasing(paths, StrLess)
    ensures forall j | 0 <= j < |r| :: r[j].0 in paths && Contains(bps, r[j].0, r[j].1)
    ensures forall i, l | 0 <= i < |paths| && l in bps[paths[i]] :: (paths[i], l) in r
    ensures Increasing(r, PairLess)
  {
    if paths == [] then []
    else
      var p := paths[0];
      var group := Group(p, bps[p]);
      var tail := Listing(bps, paths[1..]);
      ListingStep(bps, paths, group, tail);
      group + tail
  }

  /** One path's group in front of the listing of the later paths keeps all three properties of `Listing`. */
  lemma ListingStep(bps: BreakPoints, paths: seq<string>, group: seq<(string, int)>, tail: seq<(string, int)>)
    requires |paths| > 0
    requires forall i | 0 <= i < |paths| :: paths[i] in bps
    requires Increasing(paths, StrLess)
    requires forall j | 0 <= j < |group| :: group[j].0 == paths[0] && group[j].1 in bps[paths[0]]
    requires forall l | l in bps[paths[0]] :: (paths[0], l) in group
    requires Increasing(group, PairLess) && Increasing(tail, PairLess)
    requires forall j | 0 <= j < |tail| :: tail[j].0 in paths[1..] && Contains(bps, tail[j].0, tail[j].1)
    requires forall i, l | 0 <= i < |paths| - 1 && l in bps[paths[1..][i]] :: (paths[1..][i], l) in tail
    ensures forall j | 0 <= j < |group + tail| :: (group + tail)[j].0 in paths && Contains(bps, (group + tail)[j].0, (group + tail)[j].1)
    ensures forall i, l | 0 <= i < |paths| && l in bps[paths[i]] :: (paths[i], l) in group + tail
    ensures Increasing(group + tail, PairLess)
  {
    forall i, j | 0 <= i < |group| && 0 <= j < |tail| ensures PairLess(group[i], tail[j]) {
      var k :| 0 <= k < |paths[1..]| && paths[1..][k] == tail[j].0;
      assert paths[k + 1] == tail[j].0;
    }
    IncreasingConcat(group, tail, PairLess);
    forall j | 0 <= j < |group + tail|
      ensures (group + tail)[j].0 in paths && Contains(bps, (group + tail)[j].0, (group + tail)[j].1)
    {
      if j >= |group| {
        assert (group + tail)[j] == tail[j - |group|];
        var k :| 0 <= k < |paths[1..]| && paths[1..][k] == tail[j - |group|].0;
        assert paths[k + 1] == tail[j - |group|].0;
      }
    }
    forall i, l | 0 <= i < |paths| && l in bps[paths[i]] ensures (paths[i], l) in group + tail {
      if i > 0 {
        assert paths[1..][i - 1] == paths[i];
      }
    }
  }

  /**
   `listBreakPoints`: every registered (path, line) pair exactly once, sorted
   by path and then by line. Path keys are all strings and line keys all
   numbers, so the two `table.sort` calls never meet incomparable keys.
   */
  function ListBreakPoints(bps: BreakPoints): (r: seq<(string, int)>)
    ensures forall j | 0 <= j < |r| :: Contains(bps, r[j].0, r[j].1)
    ensures forall p, l | Contains(bps, p, l) :: (p, l) in r
    ensures Increasing(r, PairLess)
  {
    StrLessStrictTotal(bps.Keys);
    var paths := SortSet(bps.Keys, StrLess);
    var r := Listing(bps, paths);
    assert forall p, l | Contains(bps, p, l) :: (p, l) in r by {
      forall p, l | Contains(bps, p, l) ensures (p, l) in r {
        var i :| 0 <= i < |paths| && paths[i] == p;
      }
    }
    r
  }

  lemma PairLessStrictTotal(s: set<(string, int)>)
    ensures StrictTotalOn(s, PairLess)
  {
    forall a | a in s ensures !PairLess(a, a) {
      StrLessIrreflexive(a.0);
    }
    forall a, b, c | a in s && b in s && c in s && PairLess(a, b) && PairLess(b, c)
      ensures PairLess(a, c)
    {
      if StrLess(a.0, b.0) && StrLess(b.0, c.0) {
        StrLessTransitive(a.0, b.0, c.0);
      }
    }
    forall a, b | a in s && b in s && a != b ensures PairLess(a, b) || PairLess(b, a) {
      if a.0 != b.0 {
        StrLessTotal(a.0, b.0);
      }
    }
  }

  /**
   The listing is the only one with its two properties: any sequence that holds
   exactly the registered pairs in increasing (path, line) order is it.
   */
  lemma ListBreakPointsUnique(bps: BreakPoints, xs: seq<(string, int)>)
    requires forall j | 0 <= j < |xs| :: Contains(bps, xs[j].0, xs[j].1)
    requires forall p, l | Contains(bps, p, l) :: (p, l) in xs
    requires Increasing(xs, PairLess)
    ensures xs == ListBreakPoints(bps)
  {
    var r := ListBreakPoints(bps);
    PairLessStrictTotal(set x | x in xs);
    forall x ensures x in xs <==> x in r {
      if x in r {
        var j :| 0 <= j < |r| && r[j] == x;
      }
      if x in xs {
        var j :| 0 <= j < |xs| && xs[j] == x;
      }
    }
    IncreasingUnique(xs, r, PairLess);
  }
}
