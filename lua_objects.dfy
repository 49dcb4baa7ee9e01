/** The interpreter objects the continuation core works on: values, closed-over
    variables, Lua closures, call frames, execution contexts ("threads"),
    continuation objects and the registry.  Only the parts the core reads or
    writes are modelled. */
module LuaObjects {

  datatype Option<T> = None | Some(value: T)

  /** Status codes and limits of the public interface (lua.h, lauxlib.h). */
  const LUA_OK := 0
  const LUA_YIELD := 1
  const LUA_ERRRUN := 2
  const LUA_MINSTACK := 20
  const LUA_NOREF := -2
  const LUA_REFNIL := -1
  /** Initial stack size of a new thread: twice LUA_MINSTACK. */
  const BASIC_STACK_SIZE := 2 * LUA_MINSTACK

  /** The bits of a frame's callstatus set that the core looks at
      (CIST_C, CIST_HOOKED, CIST_HOOKYIELD); all other bits are carried along. */
  datatype StatusBit = CFrame | Hooked | HookYield | OtherBit(bit: nat)

  type Instruction = bv32

  /** GETARG_A: the A field of an instruction in Lua 5.4's layout
      (7 opcode bits, then 8 bits of A). */
  function ArgA(i: Instruction): (a: nat)
    ensures a < 256
  {
    ((i >> 7) & 0xFF) as nat
  }

  /** The per-kind part of a frame: a Lua frame's code, saved program counter
      (an index into that code), trap flag and count of extra arguments; or a C
      frame's continuation data. */
  datatype FrameData =
    | LuaData(code: seq<Instruction>, savedpc: int, trap: int, nextraargs: int)
    | CData(k: int, oldErrFunc: int, ctx: int)

  /** A call frame.  `func` and `top` are addresses in the owning thread's
      stack (the thread's `base` is the address of slot 0). */
  datatype CallInfo = CallInfo(func: int, top: int, callstatus: set<StatusBit>, u2: int, u: FrameData)

  /** isLua(ci): the frame is not a C frame. */
  predicate IsLua(ci: CallInfo) {
    CFrame !in ci.callstatus
  }

  /** The union part agrees with the kind the status bits declare. */
  predicate WellFormed(ci: CallInfo) {
    IsLua(ci) <==> ci.u.LuaData?
  }

  datatype Tag = VCont | OtherTag(code: int)

  /** A tagged value.  Tables appear only as the result bundle of an escape and
      are kept as their array part. */
  datatype Value =
    | Nil
    | Boolean(b: bool)
    | Integer(n: int)
    | Str(s: string)
    | LightUserdata(addr: int)
    | Table(items: seq<Value>)
    | LuaFunction(cl: LClosure)
    | CFunction(id: nat)
    | ContFunction(cont: Continuation?)
    | EscapeFunction(lj: int, origin: Thread)
    | ThreadRef(th: Thread)

  /** lua_rawget: nil for an absent key. */
  function Lookup(m: map<Value, Value>, k: Value): Value {
    if k in m then m[k] else Nil
  }

  /** lua_toboolean: everything but nil and false is true. */
  predicate Truthy(v: Value) {
    v != Nil && v != Boolean(false)
  }

  /** LUA_TFUNCTION: Lua closures and every kind of C function. */
  predicate IsFunction(v: Value) {
    v.LuaFunction? || v.CFunction? || v.ContFunction? || v.EscapeFunction?
  }

  /** A closed-over variable: open (aliasing slot `index` of `home`'s stack)
      or closed (owning `value`). */
  class UpVal {
    var open: bool
    var home: Thread?
    var index: int
    var value: Value

    constructor Closed(v: Value)
      ensures !open && home == null && value == v
    {
      open, home, index, value := false, null, 0, v;
    }
  }

  /** A Lua closure; its upvalue array is part of the closure, so its
      identity never changes. */
  class LClosure {
    const upvals: array<UpVal?>

    constructor (ups: array<UpVal?>)
      ensures upvals == ups
    {
      upvals := ups;
    }
  }

  /** An execution context.  `cis` holds every CallInfo node the thread has
      allocated: `cis[0]` is base_ci, node k's `previous` is node k-1, and
      `ci` is the index of the current frame. */
  class Thread {
    var stack: array<Value>
    var base: int
    var top: int
    var cis: seq<CallInfo>
    var ci: int
    var nci: int
    var status: int

    ghost predicate Valid()
      reads this
    {
      && 0 <= top <= stack.Length
      && 0 <= ci < |cis|
      && forall k :: 0 <= k < |cis| ==> WellFormed(cis[k])
    }

    /** The state lua_newthread gives a new thread whose stack is allocated at
        address `addr`: a nil entry slot, one C base frame, status LUA_OK. */
    constructor Fresh(addr: int)
      ensures Valid() && fresh(stack)
      ensures stack.Length == BASIC_STACK_SIZE && base == addr && top == 1
      ensures cis == [CallInfo(addr, addr + 1 + LUA_MINSTACK, {CFrame}, 0, CData(0, 0, 0))]
      ensures ci == 0 && nci == 0 && status == LUA_OK
    {
      stack := new Value[BASIC_STACK_SIZE](_ => Nil);
      base, top := addr, 1;
      cis := [CallInfo(addr, addr + 1 + LUA_MINSTACK, {CFrame}, 0, CData(0, 0, 0))];
      ci, nci, status := 0, 0, LUA_OK;
    }

    /** Grows the stack to at least `size` slots, keeping its contents; a
        stack that is already large enough is left as it is. */
    method GrowStack(size: int)
      modifies this`stack
      ensures stack.Length >= size && stack.Length >= old(stack.Length)
      ensures old(stack.Length) >= size ==> stack == old(stack)
      ensures stack[..old(stack.Length)] == old(stack[..])
      ensures stack == old(stack) || fresh(stack)
    {
      if stack.Length < size {
        var a := new Value[size](_ => Nil);
        forall i | 0 <= i < stack.Length {
          a[i] := stack[i];
        }
        stack := a;
      }
    }

    /** luaD_checkstack: afterwards more than `n` slots are free above top;
        the stack is only reallocated when fewer were free. */
    method CheckStack(n: int)
      modifies this`stack
      ensures stack.Length > top + n && stack.Length >= old(stack.Length)
      ensures old(stack.Length) > top + n ==> stack == old(stack)
      ensures stack[..old(stack.Length)] == old(stack[..])
      ensures stack == old(stack) || fresh(stack)
    {
      GrowStack(top + n + 1);
    }

    /** Pushes `v`; the C interface demands a free slot. */
    method Push(v: Value)
      requires 0 <= top < stack.Length
      modifies this`top, stack
      ensures top == old(top) + 1
      ensures stack[..] == old(stack[..])[old(top) := v]
    {
      stack[top] := v;
      top := top + 1;
    }
  }

  /** A continuation object: the originating thread, the snapshot thread,
      the registry reference anchoring it, and its type tag. */
  class Continuation {
    var tt: Tag
    var L: Thread?
    var thread: Thread?
    var ref: int

    constructor (l: Thread, th: Thread, r: int)
      ensures tt == VCont && L == l && thread == th && ref == r
    {
      tt, L, thread, ref := VCont, l, th, r;
    }
  }

  /** The registry table.  Integer keys are references handed out by luaL_ref;
      `nextRef` is above every reference in use. */
  class Registry {
    var table: map<Value, Value>
    var nextRef: int

    ghost predicate Valid()
      reads this
    {
      nextRef >= 1 && forall k :: Integer(k) in table ==> k < nextRef
    }

    /** luaL_ref: pops the value on top of `L`'s stack and stores it under a
        fresh reference, or answers LUA_REFNIL for nil. */
    method Ref(L: Thread) returns (r: int)
      requires Valid() && 1 <= L.top <= L.stack.Length
      modifies this, L`top
      ensures Valid() && L.top == old(L.top) - 1
      ensures var v := L.stack[L.top];
        if v == Nil then r == LUA_REFNIL && table == old(table) && nextRef == old(nextRef)
        else r == old(nextRef) && Integer(r) !in old(table) && table == old(table)[Integer(r) := v]
             && nextRef == old(nextRef) + 1
    {
      L.top := L.top - 1;
      var v := L.stack[L.top];
      if v == Nil {
        r := LUA_REFNIL;
      } else {
        r := nextRef;
        table := table[Integer(r) := v];
        nextRef := nextRef + 1;
      }
    }

    /** lua_rawset on a light userdata key: a nil value removes the entry. */
    method RawSet(k: Value, v: Value)
      requires Valid() && k.LightUserdata?
      modifies this`table
      ensures Valid()
      ensures table == if v == Nil then old(table) - {k} else old(table)[k := v]
    {
      if v == Nil {
        table := table - {k};
      } else {
        table := table[k := v];
      }
    }

    /** luaL_unref: frees a reference; negative references are ignored. */
    method Unref(r: int)
      requires Valid()
      modifies this`table
      ensures Valid()
      ensures table == if r >= 0 then old(table) - {Integer(r)} else old(table)
    {
      if r >= 0 {
        table := table - {Integer(r)};
      }
    }
  }
}
