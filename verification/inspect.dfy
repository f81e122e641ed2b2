/**
 The inspection engine: `watch` name resolution (locals, then up-values, then
 the function environment), `printVar` and the depth-bounded `expandTable`
 dump with its `sortKey` ordering, and the `listLocals`, `listUpVars` and
 `printStack` listings.
 */
module Inspect {
  import opened Optional
  import opened Values
  import opened Order
  import opened Text
  import opened Console

  /**
   Lua's `<` on two table keys: numbers numerically, strings lexically. Any
   other pairing has no order (without metamethods, comparing them raises).
   */
  predicate KeyLess(a: Value, b: Value) {
    if a.Number? && b.Number? then a.n < b.n
    else if a.Str? && b.Str? then StrLess(a.s, b.s)
    else false
  }

  /**
   `table.sort` can order these keys: fewer than two (it then compares
   nothing), or all numbers, or all strings.
   */
  predicate Comparable(keys: set<Value>) {
    || |keys| <= 1
    || (forall k | k in keys :: k.Number?)
    || (forall k | k in keys :: k.Str?)
  }

  lemma AtMostOne(keys: set<Value>, a: Value, b: Value)
    requires |keys| <= 1 && a in keys && b in keys
    ensures a == b
  {
    assert keys - {a} == {} by {
      assert |keys - {a}| == |keys| - 1;
    }
    assert b == a || b in keys - {a};
  }

  lemma KeyLessStrictTotal(keys: set<Value>)
    requires Comparable(keys)
    ensures StrictTotalOn(keys, KeyLess)
  {
    forall a | a in keys ensures !KeyLess(a, a) {
      if a.Str? { StrLessIrreflexive(a.s); }
    }
    forall a, b, c | a in keys && b in keys && c in keys && KeyLess(a, b) && KeyLess(b, c)
      ensures KeyLess(a, c)
    {
      if a.Str? && b.Str? && c.Str? { StrLessTransitive(a.s, b.s, c.s); }
    }
    forall a, b | a in keys && b in keys && a != b ensures KeyLess(a, b) || KeyLess(b, a) {
      if |keys| <= 1 {
        AtMostOne(keys, a, b);
      } else if a.Str? && b.Str? {
        StrLessTotal(a.s, b.s);
      }
    }
  }

  /**
   `sortKey`: the keys of a table in the order `table.sort` leaves them, or
   none when the sort would raise a comparison error.
   */
  function SortKeys(keys: set<Value>): (r: Option<seq<Value>>)
    ensures r.None? <==> !Comparable(keys)
    ensures r.Some? ==> |r.value| == |keys|
    ensures r.Some? ==> forall k | k in keys :: k in r.value
    ensures r.Some? ==> forall i | 0 <= i < |r.value| :: r.value[i] in keys
    ensures r.Some? ==> Increasing(r.value, KeyLess)
  {
    if Comparable(keys) then
      KeyLessStrictTotal(keys);
      Some(SortSet(keys, KeyLess))
    else None
  }

  /** Any increasing arrangement of exactly the keys is the one `SortKeys` gives. */
  lemma SortKeysUnique(keys: set<Value>, xs: seq<Value>)
    requires Comparable(keys)
    requires forall x :: x in xs <==> x in keys
    requires Increasing(xs, KeyLess)
    ensures SortKeys(keys) == Some(xs)
  {
    var r := SortKeys(keys).value;
    KeyLessStrictTotal(keys);
    assert (set x | x in xs) == keys;
    forall x ensures x in xs <==> x in r {
      if x in r {
        var j :| 0 <= j < |r| && r[j] == x;
      }
    }
    IncreasingUnique(xs, r, KeyLess);
  }

  /** Printed lines, and whether a Lua error escaped from `table.sort` part-way. */
  datatype Dump = Dump(lines: seq<Out>, raised: bool)

  /** Every table in the heap has keys `table.sort` can order. */
  ghost predicate AllComparable(heap: Heap) {
    forall t | t in heap :: Comparable(heap[t].Keys)
  }

  /** Pair lines only, indented at least `indent` and at most `indent + 2 * (depth - 1)`. */
  ghost predicate WithinDepth(lines: seq<Out>, indent: nat, depth: nat) {
    forall i | 0 <= i < |lines| ::
      lines[i].Pair? && indent <= lines[i].indent && lines[i].indent + 2 <= indent + 2 * depth
  }

  /** The lines printed at exactly `indent`: the top level of a dump. */
  function AtIndent(lines: seq<Out>, indent: nat): (r: seq<Out>)
    ensures |r| <= |lines|
  {
    if lines == [] then []
    else
      (if lines[0].Pair? && lines[0].indent == indent then [lines[0]] else [])
      + AtIndent(lines[1..], indent)
  }

  lemma {:induction false} AtIndentAppend(a: seq<Out>, b: seq<Out>, indent: nat)
    ensures AtIndent(a + b, indent) == AtIndent(a, indent) + AtIndent(b, indent)
  {
    if a == [] {
      assert a + b == b;
    } else {
      assert (a + b)[0] == a[0];
      assert (a + b)[1..] == a[1..] + b;
      AtIndentAppend(a[1..], b, indent);
    }
  }

  lemma {:induction false} AtIndentDeeper(lines: seq<Out>, indent: nat, depth: nat)
    requires WithinDepth(lines, indent + 2, depth)
    ensures AtIndent(lines, indent) == []
  {
    if lines != [] {
      AtIndentDeeper(lines[1..], indent, depth);
    }
  }

  /** One pair line per key, in the given order, with the key's raw value. */
  function PairsOf(heap: Heap, id: nat, keys: seq<Value>, indent: nat): seq<Out>
    requires id in heap
  {
    seq(|keys|, i requires 0 <= i < |keys| => Pair(indent, keys[i], RawGet(heap, id, keys[i])))
  }

  /**
   `expandTable(L, level, leadingSp)`: nothing at depth 0; otherwise one pair
   line per key in sorted order, each table value followed by its own dump one
   level shallower and two columns further in.
   */
  function ExpandTable(heap: Heap, id: nat, depth: nat, indent: nat): (d: Dump)
    requires Closed(heap) && id in heap
    ensures depth == 0 ==> d == Dump([], false)
    ensures WithinDepth(d.lines, indent, depth)
    ensures depth > 0 && !d.raised ==>
      SortKeys(heap[id].Keys).Some? &&
      AtIndent(d.lines, indent) == PairsOf(heap, id, SortKeys(heap[id].Keys).value, indent)
    ensures AllComparable(heap) ==> !d.raised
    decreases depth, 1, 0
  {
    if depth == 0 then Dump([], false)
    else
      match SortKeys(heap[id].Keys)
      case None => Dump([], true)
      case Some(keys) => ExpandPairs(heap, id, keys, depth, indent)
  }

  /** The loop of `expandTable` over the sorted keys. */
  function ExpandPairs(heap: Heap, id: nat, keys: seq<Value>, depth: nat, indent: nat): (d: Dump)
    requires Closed(heap) && id in heap && depth > 0
    requires forall i | 0 <= i < |keys| :: keys[i] in heap[id]
    ensures WithinDepth(d.lines, indent, depth)
    ensures !d.raised ==> AtIndent(d.lines, indent) == PairsOf(heap, id, keys, indent)
    ensures AllComparable(heap) ==> !d.raised
    decreases depth, 0, |keys|
  {
    if keys == [] then Dump([], false)
    else
      var v := heap[id][keys[0]];
      var head := Pair(indent, keys[0], v);
      var sub := if v.Table? then ExpandTable(heap, v.id, depth - 1, indent + 2) else Dump([], false);
      if sub.raised then Dump([head] + sub.lines, true)
      else
        var rest := ExpandPairs(heap, id, keys[1..], depth, indent);
        PairsStep(heap, id, keys, depth, indent, sub.lines, rest.lines, rest.raised);
        Dump([head] + sub.lines + rest.lines, rest.raised)
  }

  /** One step of `ExpandPairs`: a pair line, its deeper dump, then the remaining pairs' lines. */
  lemma PairsStep(heap: Heap, id: nat, keys: seq<Value>, depth: nat, indent: nat,
                  sub: seq<Out>, rest: seq<Out>, raised: bool)
    requires id in heap && depth > 0 && keys != [] && keys[0] in heap[id]
    requires WithinDepth(sub, indent + 2, depth - 1)
    requires WithinDepth(rest, indent, depth)
    requires !raised ==> AtIndent(rest, indent) == PairsOf(heap, id, keys[1..], indent)
    ensures var lines := [Pair(indent, keys[0], heap[id][keys[0]])] + sub + rest;
      && WithinDepth(lines, indent, depth)
      && (!raised ==> AtIndent(lines, indent) == PairsOf(heap, id, keys, indent))
  {
    var head := Pair(indent, keys[0], heap[id][keys[0]]);
    var lines := [head] + sub + rest;
    assert forall i | 0 <= i < |lines| :: lines[i] == head || lines[i] in sub || lines[i] in rest;
    AtIndentDeeper(sub, indent, depth - 1);
    AtIndentAppend([head] + sub, rest, indent);
    AtIndentAppend([head], sub, indent);
    assert PairsOf(heap, id, keys, indent) == [head] + PairsOf(heap, id, keys[1..], indent);
  }

  /**
   Some table met within `depth` levels of `id`, following table-valued
   entries, has keys `table.sort` cannot order.
   */
  ghost predicate Unsortable(heap: Heap, id: nat, depth: nat)
    requires Closed(heap) && id in heap
    decreases depth, 0
  {
    && depth > 0
    && (|| !Comparable(heap[id].Keys)
        || exists k | k in heap[id] :: UnsortableAt(heap, heap[id][k], depth - 1))
  }

  /** `v` is a table and `Unsortable` from it. */
  ghost predicate UnsortableAt(heap: Heap, v: Value, depth: nat)
    requires Closed(heap) && RefOk(heap, v)
    decreases depth, 1
  {
    v.Table? && Unsortable(heap, v.id, depth)
  }

  /** The dump printed below a pair line whose value is `v`. */
  function Nested(heap: Heap, v: Value, depth: nat, indent: nat): Dump
    requires Closed(heap) && RefOk(heap, v)
  {
    if v.Table? then ExpandTable(heap, v.id, depth, indent) else Dump([], false)
  }

  /** The lines one key contributes: its pair line, then its value's nested dump. */
  function Block(heap: Heap, id: nat, k: Value, depth: nat, indent: nat): seq<Out>
    requires Closed(heap) && id in heap && k in heap[id] && depth > 0
  {
    [Pair(indent, k, heap[id][k])] + Nested(heap, heap[id][k], depth - 1, indent + 2).lines
  }

  /** One block per key, in the order of `keys`. */
  function Blocks(heap: Heap, id: nat, keys: seq<Value>, depth: nat, indent: nat): (r: seq<seq<Out>>)
    requires Closed(heap) && id in heap && depth > 0
    requires forall i | 0 <= i < |keys| :: keys[i] in heap[id]
    ensures |r| == |keys|
  {
    if keys == [] then []
    else [Block(heap, id, keys[0], depth, indent)] + Blocks(heap, id, keys[1..], depth, indent)
  }

  function Flatten<T>(ss: seq<seq<T>>): seq<T> {
    if ss == [] then [] else ss[0] + Flatten(ss[1..])
  }

  /**
   A table's dump raises exactly when some table met within the depth limit
   has keys that cannot be sorted.
   */
  lemma {:induction false} ExpandTableRaised(heap: Heap, id: nat, depth: nat, indent: nat)
    requires Closed(heap) && id in heap
    ensures ExpandTable(heap, id, depth, indent).raised <==> Unsortable(heap, id, depth)
    decreases depth, 1, 0
  {
    if depth > 0 {
      match SortKeys(heap[id].Keys)
      case None =>
      case Some(keys) =>
        ExpandPairsRaised(heap, id, keys, depth, indent);
        SortedChildren(heap, id, keys, depth - 1);
    }
  }

  /** A sorted list of all the keys reaches the same children as the table itself. */
  lemma SortedChildren(heap: Heap, id: nat, keys: seq<Value>, depth: nat)
    requires Closed(heap) && id in heap
    requires SortKeys(heap[id].Keys) == Some(keys)
    ensures forall i | 0 <= i < |keys| :: keys[i] in heap[id]
    ensures Unsortable(heap, id, depth + 1) <==>
      exists i | 0 <= i < |keys| :: UnsortableAt(heap, heap[id][keys[i]], depth)
  {
    if exists k | k in heap[id] :: UnsortableAt(heap, heap[id][k], depth) {
      var k :| k in heap[id] && UnsortableAt(heap, heap[id][k], depth);
      var i :| 0 <= i < |keys| && keys[i] == k;
    }
  }

  /** The loop over the sorted keys raises exactly when one key's value is `UnsortableAt`. */
  lemma {:induction false} ExpandPairsRaised(heap: Heap, id: nat, keys: seq<Value>, depth: nat, indent: nat)
    requires Closed(heap) && id in heap && depth > 0
    requires forall i | 0 <= i < |keys| :: keys[i] in heap[id]
    ensures ExpandPairs(heap, id, keys, depth, indent).raised <==>
      exists i | 0 <= i < |keys| :: UnsortableAt(heap, heap[id][keys[i]], depth - 1)
    decreases depth, 0, |keys|
  {
    if keys != [] {
      var v := heap[id][keys[0]];
      if v.Table? {
        ExpandTableRaised(heap, v.id, depth - 1, indent + 2);
      }
      ExpandPairsRaised(heap, id, keys[1..], depth, indent);
      SomeKeySplit(heap, id, keys, depth - 1);
    }
  }

  /** Some key of a non-empty list is `UnsortableAt`: the first, or one of the rest. */
  lemma SomeKeySplit(heap: Heap, id: nat, keys: seq<Value>, depth: nat)
    requires Closed(heap) && id in heap && keys != []
    requires forall i | 0 <= i < |keys| :: keys[i] in heap[id]
    ensures (exists i | 0 <= i < |keys| :: UnsortableAt(heap, heap[id][keys[i]], depth)) <==>
      || UnsortableAt(heap, heap[id][keys[0]], depth)
      || exists i | 0 <= i < |keys[1..]| :: UnsortableAt(heap, heap[id][keys[1..][i]], depth)
  {
    if exists i | 0 <= i < |keys| :: UnsortableAt(heap, heap[id][keys[i]], depth) {
      var i :| 0 <= i < |keys| && UnsortableAt(heap, heap[id][keys[i]], depth);
      if i > 0 {
        assert keys[1..][i - 1] == keys[i];
      }
    }
  }

  /** One turn of the loop over the keys, in terms of blocks. */
  lemma PairsUnfold(heap: Heap, id: nat, keys: seq<Value>, depth: nat, indent: nat)
    requires Closed(heap) && id in heap && depth > 0 && keys != []
    requires forall i | 0 <= i < |keys| :: keys[i] in heap[id]
    ensures var sub := Nested(heap, heap[id][keys[0]], depth - 1, indent + 2);
      var b := Block(heap, id, keys[0], depth, indent);
      var rest := ExpandPairs(heap, id, keys[1..], depth, indent);
      ExpandPairs(heap, id, keys, depth, indent)
        == if sub.raised then Dump(b, true) else Dump(b + rest.lines, rest.raised)
    ensures Flatten(Blocks(heap, id, keys, depth, indent))
      == Block(heap, id, keys[0], depth, indent) + Flatten(Blocks(heap, id, keys[1..], depth, indent))
  {
  }

  /**
   The layout of the loop over the keys when nothing raises: the keys'
   blocks end to end, each pair line followed by exactly its value's nested
   dump.
   */
  lemma {:induction false} ExpandPairsLayout(heap: Heap, id: nat, keys: seq<Value>, depth: nat, indent: nat)
    requires Closed(heap) && id in heap && depth > 0
    requires forall i | 0 <= i < |keys| :: keys[i] in heap[id]
    ensures var d := ExpandPairs(heap, id, keys, depth, indent);
      !d.raised ==>
        && (forall i | 0 <= i < |keys| :: !Nested(heap, heap[id][keys[i]], depth - 1, indent + 2).raised)
        && d.lines == Flatten(Blocks(heap, id, keys, depth, indent))
    decreases |keys|
  {
    if keys != [] {
      PairsUnfold(heap, id, keys, depth, indent);
      ExpandPairsLayout(heap, id, keys[1..], depth, indent);
      forall i | 0 < i < |keys| ensures keys[i] == keys[1..][i - 1] {}
    }
  }

  /**
   `lines` is the output up to and including the block of `keys[j]`, the
   first key whose nested dump raised.
   */
  ghost predicate StopsAt(heap: Heap, id: nat, keys: seq<Value>, depth: nat, indent: nat,
                          lines: seq<Out>, j: nat)
    requires Closed(heap) && id in heap && depth > 0 && j < |keys|
    requires forall i | 0 <= i < |keys| :: keys[i] in heap[id]
  {
    && Nested(heap, heap[id][keys[j]], depth - 1, indent + 2).raised
    && (forall i | 0 <= i < j :: !Nested(heap, heap[id][keys[i]], depth - 1, indent + 2).raised)
    && lines == Flatten(Blocks(heap, id, keys[..j + 1], depth, indent))
  }

  /** The first key's nested dump raised: the output is its block alone. */
  lemma StopsFirst(heap: Heap, id: nat, keys: seq<Value>, depth: nat, indent: nat)
    requires Closed(heap) && id in heap && depth > 0 && keys != []
    requires forall i | 0 <= i < |keys| :: keys[i] in heap[id]
    requires Nested(heap, heap[id][keys[0]], depth - 1, indent + 2).raised
    ensures StopsAt(heap, id, keys, depth, indent, Block(heap, id, keys[0], depth, indent), 0)
  {
    PairsUnfold(heap, id, keys[..1], depth, indent);
    assert keys[..1][1..] == [];
  }

  /** A first key that did not raise puts its block in front and moves the stop one key on. */
  lemma StopsLater(heap: Heap, id: nat, keys: seq<Value>, depth: nat, indent: nat,
                   lines: seq<Out>, j: nat)
    requires Closed(heap) && id in heap && depth > 0 && keys != [] && j < |keys| - 1
    requires forall i | 0 <= i < |keys| :: keys[i] in heap[id]
    requires !Nested(heap, heap[id][keys[0]], depth - 1, indent + 2).raised
    requires StopsAt(heap, id, keys[1..], depth, indent, lines, j)
    ensures StopsAt(heap, id, keys, depth, indent, Block(heap, id, keys[0], depth, indent) + lines, j + 1)
  {
    var tail := keys[1..];
    PairsUnfold(heap, id, keys[..j + 2], depth, indent);
    assert keys[..j + 2][1..] == tail[..j + 1];
    assert keys[j + 1] == tail[j];
    forall i | 0 <= i < j + 1
      ensures !Nested(heap, heap[id][keys[i]], depth - 1, indent + 2).raised
    {
      if i > 0 { assert keys[i] == tail[i - 1]; }
    }
  }

  /**
   When the loop over the keys raises, its output stops with the block of the
   first key whose nested dump raised.
   */
  lemma {:induction false} ExpandPairsStops(heap: Heap, id: nat, keys: seq<Value>, depth: nat, indent: nat)
    requires Closed(heap) && id in heap && depth > 0
    requires forall i | 0 <= i < |keys| :: keys[i] in heap[id]
    ensures var d := ExpandPairs(heap, id, keys, depth, indent);
      d.raised ==> exists j | 0 <= j < |keys| :: StopsAt(heap, id, keys, depth, indent, d.lines, j)
    decreases |keys|
  {
    if keys != [] {
      var d := ExpandPairs(heap, id, keys, depth, indent);
      PairsUnfold(heap, id, keys, depth, indent);
      if Nested(heap, heap[id][keys[0]], depth - 1, indent + 2).raised {
        StopsFirst(heap, id, keys, depth, indent);
      } else if d.raised {
        var rest := ExpandPairs(heap, id, keys[1..], depth, indent);
        ExpandPairsStops(heap, id, keys[1..], depth, indent);
        var j :| 0 <= j < |keys[1..]| && StopsAt(heap, id, keys[1..], depth, indent, rest.lines, j);
        StopsLater(heap, id, keys, depth, indent, rest.lines, j);
      }
    }
  }

  /**
   The layout of a whole table dump: a positive depth that does not raise
   prints the blocks of the sorted keys, each followed by exactly its
   value's dump one level shallower and two columns further in.
   */
  lemma ExpandTableLayout(heap: Heap, id: nat, depth: nat, indent: nat)
    requires Closed(heap) && id in heap
    ensures var d := ExpandTable(heap, id, depth, indent);
      depth > 0 && !d.raised ==>
        && SortKeys(heap[id].Keys).Some?
        && var keys := SortKeys(heap[id].Keys).value;
           && (forall i | 0 <= i < |keys| :: !Nested(heap, heap[id][keys[i]], depth - 1, indent + 2).raised)
           && d.lines == Flatten(Blocks(heap, id, keys, depth, indent))
  {
    if depth > 0 && SortKeys(heap[id].Keys).Some? {
      ExpandPairsLayout(heap, id, SortKeys(heap[id].Keys).value, depth, indent);
    }
  }

  /**
   `printVar(name, L, scope, tabLevel)`: one line naming the variable; a table
   is then dumped to `depth` levels when `depth` is positive.
   */
  function PrintVar(heap: Heap, name: string, v: Value, scope: Option<Scope>, depth: int): (d: Dump)
    requires Closed(heap) && RefOk(heap, v)
    ensures |d.lines| >= 1 && d.lines[0] == Var(scope, name, v)
    ensures !(v.Table? && depth > 0) ==> d == Dump([Var(scope, name, v)], false)
    ensures v.Table? && depth > 0 ==> WithinDepth(d.lines[1..], 2, depth)
    ensures v.Table? && depth > 0 && !d.raised ==>
      SortKeys(heap[v.id].Keys).Some? &&
      AtIndent(d.lines[1..], 2) == PairsOf(heap, v.id, SortKeys(heap[v.id].Keys).value, 2)
    ensures AllComparable(heap) ==> !d.raised
  {
    var first := Var(scope, name, v);
    if v.Table? && depth > 0 then
      var e := ExpandTable(heap, v.id, depth, 2);
      assert ([first] + e.lines)[1..] == e.lines;
      Dump([first] + e.lines, e.raised)
    else Dump([first], false)
  }

  /** A table asked for with a positive depth is followed by exactly its dump, two columns in. */
  lemma PrintVarExpands(heap: Heap, name: string, v: Value, scope: Option<Scope>, depth: int)
    requires Closed(heap) && RefOk(heap, v)
    ensures v.Table? && depth > 0 ==>
      var d := PrintVar(heap, name, v, scope, depth);
      var e := ExpandTable(heap, v.id, depth, 2);
      d.lines[1..] == e.lines && d.raised == e.raised
  {
    if v.Table? && depth > 0 {
      var e := ExpandTable(heap, v.id, depth, 2);
      assert ([Var(scope, name, v)] + e.lines)[1..] == e.lines;
    }
  }

  /**
   The C scan over `lua_getlocal`/`lua_getupvalue`: a candidate slot starts
   at `acc` and every binding with the name overwrites it, whatever its value.
   */
  function LastMatch(bs: seq<Binding>, name: string, acc: Value): (r: Value)
    ensures Unbound(bs, name) ==> r == acc
    ensures r == acc || exists i | 0 <= i < |bs| :: r == bs[i].value
  {
    if bs == [] then acc
    else
      var r := LastMatch(bs[1..], name, if bs[0].name == name then bs[0].value else acc);
      assert forall i | 1 <= i < |bs| :: bs[1..][i - 1] == bs[i];
      r
  }

  /** The scan ends holding the value of the last binding with the name. */
  lemma {:induction false} LastMatchIsLastBinding(bs: seq<Binding>, name: string, acc: Value, i: nat)
    requires i < |bs| && bs[i].name == name && forall j | i < j < |bs| :: bs[j].name != name
    ensures LastMatch(bs, name, acc) == bs[i].value
  {
    var next := if bs[0].name == name then bs[0].value else acc;
    if i == 0 {
      assert Unbound(bs[1..], name) by {
        forall k | 0 <= k < |bs[1..]| ensures bs[1..][k].name != name {
          assert bs[1..][k] == bs[k + 1];
        }
      }
    } else {
      assert bs[1..][i - 1] == bs[i];
      assert forall j | i - 1 < j < |bs[1..]| :: bs[1..][j] == bs[j + 1];
      LastMatchIsLastBinding(bs[1..], name, next, i - 1);
    }
  }

  /** `name` is bound in `bs`, the last such binding holding `v`. */
  ghost predicate LastBinding(bs: seq<Binding>, name: string, v: Value) {
    exists i | 0 <= i < |bs| :: bs[i].name == name && bs[i].value == v &&
      forall j | i < j < |bs| :: bs[j].name != name
  }

  ghost predicate Unbound(bs: seq<Binding>, name: string) {
    forall i | 0 <= i < |bs| :: bs[i].name != name
  }

  /**
   Resolution for `watch`: the last local with the name, if its value is not
   nil; else the last up-value with the name, if not nil; else the raw entry of
   the function's environment, if not nil; else nothing.
   */
  function Resolve(heap: Heap, f: Frame, name: string): (r: Option<(Scope, Value)>)
    requires f.env in heap
    ensures r.Some? ==> r.value.1 != Nil
  {
    var l := LastMatch(f.locals, name, Nil);
    if l != Nil then Some((Local, l))
    else
      var u := LastMatch(f.upvalues, name, Nil);
      if u != Nil then Some((Up, u))
      else
        var g := RawGet(heap, f.env, Str(name));
        if g != Nil then Some((Global, g)) else None
  }

  /** A resolved value lives in the heap, so it can be printed and expanded. */
  lemma ResolveRefOk(heap: Heap, f: Frame, name: string)
    requires Closed(heap) && FrameOk(heap, f)
    ensures Resolve(heap, f, name).Some? ==> RefOk(heap, Resolve(heap, f, name).value.1)
  {
  }

  /**
   The scan from nil yields nil exactly when the name is unbound or its last
   binding is nil, and otherwise the last binding's value.
   */
  lemma LastMatchMeaning(bs: seq<Binding>, name: string)
    ensures Unbound(bs, name) ==> LastMatch(bs, name, Nil) == Nil
    ensures forall v :: LastBinding(bs, name, v) ==> LastMatch(bs, name, Nil) == v
    ensures LastMatch(bs, name, Nil) == Nil <==> Unbound(bs, name) || LastBinding(bs, name, Nil)
  {
    forall v | LastBinding(bs, name, v) ensures LastMatch(bs, name, Nil) == v {
      var i :| 0 <= i < |bs| && bs[i].name == name && bs[i].value == v &&
        forall j | i < j < |bs| :: bs[j].name != name;
      LastMatchIsLastBinding(bs, name, Nil, i);
    }
    if !Unbound(bs, name) {
      var i := LastIndex(bs, name);
      LastMatchIsLastBinding(bs, name, Nil, i);
    }
  }

  /** A local with a non-nil value hides up-values and globals of the same name. */
  lemma LocalShadows(heap: Heap, f: Frame, name: string, v: Value)
    requires f.env in heap
    requires LastBinding(f.locals, name, v) && v != Nil
    ensures Resolve(heap, f, name) == Some((Local, v))
  {
    LastMatchMeaning(f.locals, name);
  }

  /** With no local or up-value of that name in scope, `watch` reports the global. */
  lemma GlobalWhenOutOfScope(heap: Heap, f: Frame, name: string)
    requires f.env in heap
    requires Unbound(f.locals, name) && Unbound(f.upvalues, name)
    requires Str(name) in heap[f.env] && heap[f.env][Str(name)] != Nil
    ensures Resolve(heap, f, name) == Some((Global, heap[f.env][Str(name)]))
  {
  }

  /**
   A local whose last binding is nil does not stop the search: resolution is
   as if the frame had no locals at all, even when an earlier local of the same
   name holds a value.
   */
  lemma NilLocalFallsThrough(heap: Heap, f: Frame, name: string)
    requires f.env in heap
    requires LastBinding(f.locals, name, Nil)
    ensures Resolve(heap, f, name) == Resolve(heap, f.(locals := []), name)
  {
    LastMatchMeaning(f.locals, name);
  }

  /**
   With no usable local (none of that name, or the last one nil), a non-nil
   last up-value wins over the function's environment.
   */
  lemma UpShadows(heap: Heap, f: Frame, name: string, v: Value)
    requires f.env in heap
    requires Unbound(f.locals, name) || LastBinding(f.locals, name, Nil)
    requires LastBinding(f.upvalues, name, v) && v != Nil
    ensures Resolve(heap, f, name) == Some((Up, v))
  {
    LastMatchMeaning(f.locals, name);
    LastMatchMeaning(f.upvalues, name);
  }

  /**
   An up-value whose last binding is nil does not stop the search either:
   with no usable local, resolution goes to the environment as if the
   function had no up-values.
   */
  lemma NilUpFallsThrough(heap: Heap, f: Frame, name: string)
    requires f.env in heap
    requires Unbound(f.locals, name) || LastBinding(f.locals, name, Nil)
    requires LastBinding(f.upvalues, name, Nil)
    ensures Resolve(heap, f, name) == Resolve(heap, f.(locals := [], upvalues := []), name)
  {
    LastMatchMeaning(f.locals, name);
    LastMatchMeaning(f.upvalues, name);
  }

  /** Nothing of that name anywhere: "not defined". */
  lemma UndefinedIffUnbound(heap: Heap, f: Frame, name: string)
    requires f.env in heap
    ensures Resolve(heap, f, name).None? <==>
      (Unbound(f.locals, name) || LastBinding(f.locals, name, Nil)) &&
      (Unbound(f.upvalues, name) || LastBinding(f.upvalues, name, Nil)) &&
      RawGet(heap, f.env, Str(name)) == Nil
  {
    LastMatchMeaning(f.locals, name);
    LastMatchMeaning(f.upvalues, name);
  }

  /** The position of the last binding of a bound name. */
  lemma LastIndex(bs: seq<Binding>, name: string) returns (i: nat)
    requires !Unbound(bs, name)
    ensures i < |bs| && bs[i].name == name && forall j | i < j < |bs| :: bs[j].name != name
    ensures LastBinding(bs, name, bs[i].value)
  {
    i := |bs| - 1;
    while bs[i].name != name
      invariant 0 <= i < |bs|
      invariant forall j | i < j < |bs| :: bs[j].name != name
      invariant exists k | 0 <= k <= i :: bs[k].name == name
      decreases i
    {
      i := i - 1;
    }
  }

  /** The expansion depth argument of `watch`: missing means 0, negative is clamped to 0. */
  function WatchDepth(rest: string): (d: nat)
    ensures ParseOneArg(rest).None? ==> d == 0
    ensures ParseOneArg(rest).Some? ==>
      var t := ParseOneArg(rest).value;
      d == if StrToL(Word(rest, t)) < 0 then 0 else StrToL(Word(rest, t))
  {
    match ParseOneArg(rest)
    case None => 0
    case Some(t) => var n := StrToL(Word(rest, t)); if n < 0 then 0 else n
  }

  /** `watch name [depth]` from the perspective of the paused frame. */
  function Watch(heap: Heap, f: Frame, arg: string): (d: Dump)
    requires Closed(heap) && FrameOk(heap, f)
    ensures ParseOneArg(arg).None? ==> d == Dump([InvalidArgument], false)
    ensures ParseOneArg(arg).Some? ==>
      var t := ParseOneArg(arg).value;
      var name := Word(arg, t);
      match Resolve(heap, f, name)
      case None => d == Dump([NotDefined(name)], false)
      case Some(sv) => |d.lines| >= 1 && d.lines[0] == Var(Some(sv.0), name, sv.1)
    ensures AllComparable(heap) ==> !d.raised
  {
    match ParseOneArg(arg)
    case None => Dump([InvalidArgument], false)
    case Some(t) =>
      var name := Word(arg, t);
      var depth := WatchDepth(Rest(arg, t));
      ResolveRefOk(heap, f, name);
      match Resolve(heap, f, name)
      case None => Dump([NotDefined(name)], false)
      case Some(sv) => PrintVar(heap, name, sv.1, Some(sv.0), depth)
  }

  /**
   What `watch` prints after the variable's line: for a table, when the
   depth argument reads as positive, exactly that table's dump to that depth,
   two columns in, raising when the dump raises; otherwise nothing.
   */
  lemma WatchExpands(heap: Heap, f: Frame, arg: string)
    requires Closed(heap) && FrameOk(heap, f)
    ensures ParseOneArg(arg).Some? ==>
      var t := ParseOneArg(arg).value;
      var name := Word(arg, t);
      var depth := WatchDepth(Rest(arg, t));
      var d := Watch(heap, f, arg);
      Resolve(heap, f, name).Some? ==>
        var sv := Resolve(heap, f, name).value;
        && RefOk(heap, sv.1)
        && (sv.1.Table? && depth > 0 ==>
              var e := ExpandTable(heap, sv.1.id, depth, 2);
              d.lines[1..] == e.lines && d.raised == e.raised)
        && (!(sv.1.Table? && depth > 0) ==> d == Dump([Var(Some(sv.0), name, sv.1)], false))
  {
    if ParseOneArg(arg).Some? {
      var t := ParseOneArg(arg).value;
      var name := Word(arg, t);
      ResolveRefOk(heap, f, name);
      if Resolve(heap, f, name).Some? {
        var sv := Resolve(heap, f, name).value;
        PrintVarExpands(heap, name, sv.1, Some(sv.0), WatchDepth(Rest(arg, t)));
      }
    }
  }

  /** The locals `listLocals` shows: all but the VM's "(*temporary)" slots, in order. */
  function Visible(bs: seq<Binding>): (r: seq<Binding>)
    ensures forall i | 0 <= i < |r| :: r[i].name != "(*temporary)" && r[i] in bs
    ensures forall i | 0 <= i < |bs| && bs[i].name != "(*temporary)" :: bs[i] in r
    ensures |r| <= |bs|
  {
    if bs == [] then []
    else (if bs[0].name == "(*temporary)" then [] else [bs[0]]) + Visible(bs[1..])
  }

  /** `Visible` keeps the slot order: it filters each part of a sequence separately. */
  lemma {:induction false} VisibleAppend(a: seq<Binding>, b: seq<Binding>)
    ensures Visible(a + b) == Visible(a) + Visible(b)
  {
    if a == [] {
      assert a + b == b;
    } else {
      assert (a + b)[0] == a[0];
      assert (a + b)[1..] == a[1..] + b;
      VisibleAppend(a[1..], b);
    }
  }

  /** A single slot is shown exactly when it is not a temporary. */
  lemma VisibleOne(b: Binding)
    ensures Visible([b]) == if b.name == "(*temporary)" then [] else [b]
  {
    assert [b][1..] == [];
  }

  /** One unexpanded `printVar` line per binding, no scope shown. */
  function VarLines(bs: seq<Binding>): (r: seq<Out>)
    ensures |r| == |bs|
    ensures forall i | 0 <= i < |bs| :: r[i] == Var(None, bs[i].name, bs[i].value)
  {
    seq(|bs|, i requires 0 <= i < |bs| => Var(None, bs[i].name, bs[i].value))
  }

  /** The 1-based stack level argument: missing or below 1 means 1. */
  function StackLevelArg(arg: string): (level: int)
    ensures level >= 1
    ensures ParseOneArg(arg).None? ==> level == 1
    ensures ParseOneArg(arg).Some? ==>
      var n := StrToL(Word(arg, ParseOneArg(arg).value));
      level == if n < 1 then 1 else n
  {
    match ParseOneArg(arg)
    case None => 1
    case Some(t) => var n := StrToL(Word(arg, t)); if n < 1 then 1 else n
  }

  /** `listLocals [level]`. */
  function ListLocals(st: Stack, arg: string): (r: seq<Out>)
    ensures var level := StackLevelArg(arg);
      if level - 1 > |st.callers| then r == [NoLocalInfo(level)]
      else
        var f := FrameAt(st, level - 1).value;
        && |r| >= 2 && r[0] == LocalsHeader(level) && r[|r| - 1] == Footer
        && r[1..|r| - 1] == VarLines(Visible(f.locals))
  {
    var level := StackLevelArg(arg);
    match FrameAt(st, level - 1)
    case None => [NoLocalInfo(level)]
    case Some(f) =>
      var r := [LocalsHeader(level)] + VarLines(Visible(f.locals)) + [Footer];
      assert r[1..|r| - 1] == VarLines(Visible(f.locals));
      r
  }

  /** `listUpVars [level]`. */
  function ListUpVars(st: Stack, arg: string): (r: seq<Out>)
    ensures var level := StackLevelArg(arg);
      if level - 1 > |st.callers| then r == [NoUpInfo(level)]
      else
        var f := FrameAt(st, level - 1).value;
        && |r| >= 2 && r[0] == UpVarsHeader(level) && r[|r| - 1] == Footer
        && r[1..|r| - 1] == VarLines(f.upvalues)
  {
    var level := StackLevelArg(arg);
    match FrameAt(st, level - 1)
    case None => [NoUpInfo(level)]
    case Some(f) =>
      var r := [UpVarsHeader(level)] + VarLines(f.upvalues) + [Footer];
      assert r[1..|r| - 1] == VarLines(f.upvalues);
      r
  }

  /** `printStack`: one summary line per frame, innermost first. */
  function PrintStack(st: Stack): (r: seq<Out>)
    ensures |r| == |st.callers| + 3
    ensures r[0] == StackHeader && r[|r| - 1] == Footer
    ensures r[1] == Summary(st.current)
    ensures forall i | 0 <= i < |st.callers| :: r[i + 2] == Summary(st.callers[i])
  {
    var fs := Frames(st);
    [StackHeader] + seq(|fs|, i requires 0 <= i < |fs| => Summary(fs[i])) + [Footer]
  }
}
