/**
 The slice of the Lua 5.1 runtime the debugger looks at: tagged values, the
 table heap, and the activation records (frames) handed to the hook.

 Tables are mutable, shared and possibly cyclic in Lua, so a table value is a
 reference `Table(id)` into a heap of finite maps. Functions, userdata, light
 userdata and threads are opaque handles whose only observable is an identity.
 */
module Values {
  import opened Optional

  /** The closed set of Lua 5.1 value kinds (`lua_type`). */
  datatype Value =
    | Nil
    | Boolean(b: bool)
    | Number(n: real)
    | Str(s: string)
    | Table(id: nat)
    | Function(fid: nat)
    | Userdata(uid: nat)
    | LightUserdata(lid: nat)
    | Thread(tid: nat)

  /** The table store: identity to contents. */
  type Heap = map<nat, map<Value, Value>>

  /** Raw table read (`lua_rawget`): an absent key reads as nil. */
  function RawGet(heap: Heap, id: nat, key: Value): (v: Value)
    requires id in heap
    ensures key !in heap[id] ==> v == Nil
    ensures key in heap[id] ==> v == heap[id][key]
  {
    if key in heap[id] then heap[id][key] else Nil
  }

  /** A value whose table reference, if any, points into the heap. */
  predicate RefOk(heap: Heap, v: Value) {
    v.Table? ==> v.id in heap
  }

  /**
   A heap Lua could have built: no table holds a nil key or a nil value
   (assigning nil removes the entry), and every table value stored in a
   table is itself in the heap.
   */
  ghost predicate Closed(heap: Heap) {
    forall t, k | t in heap && k in heap[t] :: k != Nil && heap[t][k] != Nil && RefOk(heap, heap[t][k])
  }

  /** One named slot of a frame: a local variable or an up-value. */
  datatype Binding = Binding(name: string, value: Value)

  /**
   One activation record as `lua_getinfo` and `lua_getlocal`/`lua_getupvalue`
   describe it: the short source name, the current line, the function's name
   (absent when Lua cannot tell), its kind ("Lua", "C", "main", or empty), the
   locals active at the current instruction in declaration order, the
   function's up-values in index order, and its environment table.
   */
  datatype Frame = Frame(
    source: string,
    line: int,
    name: Option<string>,
    what: string,
    locals: seq<Binding>,
    upvalues: seq<Binding>,
    env: nat)

  /** The call stack at a hook event: the frame being run and its callers, innermost first. */
  datatype Stack = Stack(current: Frame, callers: seq<Frame>)

  /** `lua_getstack(L, level)`: level 0 is the running frame, level k its k-th caller. */
  function FrameAt(st: Stack, level: nat): (r: Option<Frame>)
    ensures r.Some? <==> level <= |st.callers|
    ensures level == 0 ==> r == Some(st.current)
    ensures 0 < level <= |st.callers| ==> r == Some(st.callers[level - 1])
  {
    if level == 0 then Some(st.current)
    else if level - 1 < |st.callers| then Some(st.callers[level - 1])
    else None
  }

  /** All frames of a stack, innermost first. */
  function Frames(st: Stack): seq<Frame> {
    [st.current] + st.callers
  }

  ghost predicate BindingsOk(heap: Heap, bs: seq<Binding>) {
    forall i | 0 <= i < |bs| :: RefOk(heap, bs[i].value)
  }

  /** A frame whose environment and visible values all live in the heap. */
  ghost predicate FrameOk(heap: Heap, f: Frame) {
    && f.env in heap
    && BindingsOk(heap, f.locals)
    && BindingsOk(heap, f.upvalues)
  }
}
