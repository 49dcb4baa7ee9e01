/** The escape-continuation library of lcontlib.c: `callec` (and its alias
    `callcc`) runs a function under a protected jump point and hands it an
    escape closure; calling the closure while the run is active packs its
    arguments into a registry entry and jumps back, and `callec` then returns
    them.

    The jump buffer's address `lj` names one activation: registry key
    LightUserdata(lj) holds the result table and LightUserdata(lj + 1) the
    validity flag.  What the called function does is a parameter: given the
    function value and the escape closure, `call` tells how the function ends
    (returns, raises, or calls an escape closure). */
module ContLib {
  import opened LuaObjects

  const CROSS_COROUTINE := "cannot escape across coroutine boundaries"
  const NO_LONGER_VALID := "escape continuation is no longer valid"
  /** The message of luaL_checktype's argument error, kept abstract. */
  const NOT_A_FUNCTION := "bad argument #1 (function expected)"

  /** The registry key of activation `lj`'s result table. */
  function ResultKey(lj: int): Value { LightUserdata(lj) }

  /** The registry key of activation `lj`'s validity flag. */
  function FlagKey(lj: int): Value { LightUserdata(lj + 1) }

  /** The two keys of one activation never collide. */
  lemma KeysDistinct(lj: int)
    ensures ResultKey(lj) != FlagKey(lj)
  {
  }

  // ---------------------------------------------------------------------
  // The C function's view of the value stack
  // ---------------------------------------------------------------------

  /** The slots of one C function call as the C interface sees them:
      stack index i is vals[i - 1] and the top is |vals|. */
  class ApiStack {
    var vals: seq<Value>

    constructor (init: seq<Value>)
      ensures vals == init
    {
      vals := init;
    }

    method Push(v: Value)
      modifies this
      ensures vals == old(vals) + [v]
    {
      vals := vals + [v];
    }

    /** lua_pop(n). */
    method Pop(n: nat)
      requires n <= |vals|
      modifies this
      ensures vals == old(vals[..|vals| - n])
    {
      vals := vals[..|vals| - n];
    }

    /** lua_insert(idx): the top value moves to `idx`, the values from `idx`
        up shift one place. */
    method Insert(idx: nat)
      requires 1 <= idx <= |vals|
      modifies this
      ensures vals == old(vals[..idx - 1] + [vals[|vals| - 1]] + vals[idx - 1..|vals| - 1])
    {
      vals := vals[..idx - 1] + [vals[|vals| - 1]] + vals[idx - 1..|vals| - 1];
    }

    /** lua_remove(idx): the value at `idx` goes, the ones above shift down. */
    method Remove(idx: nat)
      requires 1 <= idx <= |vals|
      modifies this
      ensures vals == old(vals[..idx - 1] + vals[idx..])
    {
      vals := vals[..idx - 1] + vals[idx..];
    }

    /** lua_settop(idx) for a non-negative index: cut, or fill with nil. */
    method SetTop(idx: nat)
      modifies this
      ensures vals == if idx <= |old(vals)| then old(vals[..idx]) else old(vals) + seq(idx - |old(vals)|, _ => Nil)
    {
      if idx <= |vals| {
        vals := vals[..idx];
      } else {
        vals := vals + seq(idx - |vals|, _ => Nil);
      }
    }

    /** lua_rawseti(t, i): pops a value and stores it under integer key `i`
        of the table at index `t` (a table is kept as its array part). */
    method RawSetI(t: nat, i: nat)
      requires 1 <= t < |vals| && vals[t - 1].Table? && 1 <= i <= |vals[t - 1].items| + 1
      modifies this
      ensures var items, v := old(vals[t - 1].items), old(vals[|vals| - 1]);
        vals == old(vals[..|vals| - 1])[t - 1 := Table(if i <= |items| then items[i - 1 := v] else items + [v])]
    {
      var items, v := vals[t - 1].items, vals[|vals| - 1];
      vals := vals[..|vals| - 1][t - 1 := Table(if i <= |items| then items[i - 1 := v] else items + [v])];
    }
  }

  // ---------------------------------------------------------------------
  // Length of the result table
  // ---------------------------------------------------------------------

  /** `n` is a border of `items`: slot n is set (or n is 0) and slot n + 1
      is nil (or n is the end). */
  predicate IsBorder(items: seq<Value>, n: int) {
    0 <= n <= |items| && (n == 0 || items[n - 1] != Nil) && (n == |items| || items[n] == Nil)
  }

  /** The binary search of luaH_getn between a set slot `i` (or 0) and a nil
      slot `j`. */
  function BinSearch(items: seq<Value>, i: nat, j: nat): (b: nat)
    requires i < j <= |items| && (i == 0 || items[i - 1] != Nil) && items[j - 1] == Nil
    ensures i <= b < j && IsBorder(items, b)
    decreases j - i
  {
    if j - i <= 1 then i
    else
      var m := (i + j) / 2;
      if items[m - 1] == Nil then BinSearch(items, i, m) else BinSearch(items, m, j)
  }

  /** lua_rawlen of the escape table, as luaH_getn computes it for a table
      whose array part is exactly `items` and whose hash part is empty. */
  function RawLen(items: seq<Value>): (n: nat)
    ensures IsBorder(items, n)
  {
    var limit := |items|;
    if limit > 0 && items[limit - 1] == Nil then
      if limit >= 2 && items[limit - 2] != Nil then limit - 1
      else BinSearch(items, 0, limit)
    else limit
  }

  /** Without nil entries the only border is the end, so the length is the
      number of packed values. */
  lemma RawLenNoNils(items: seq<Value>)
    requires forall i :: 0 <= i < |items| ==> items[i] != Nil
    ensures RawLen(items) == |items|
  {
  }

  // ---------------------------------------------------------------------
  // k_escape
  // ---------------------------------------------------------------------

  /** How a C function ends: it raises a value, or it jumps to the jump
      buffer at `target` with `status`. */
  datatype Jump = Raise(e: Value) | LongJump(target: int, status: int)

  /** What k_escape does when the escape closure of activation `lj`,
      created on thread `origin`, is called on thread `L` with `args`, and
      the registry it leaves. */
  function KEscapeSpec(L: Thread, origin: Thread, lj: int, args: seq<Value>, reg: map<Value, Value>): (Jump, map<Value, Value>)
  {
    if L != origin then (Raise(Str(CROSS_COROUTINE)), reg)
    else if !Truthy(Lookup(reg, FlagKey(lj))) then (Raise(Str(NO_LONGER_VALID)), reg)
    else (LongJump(lj, LUA_ERRRUN), reg[ResultKey(lj) := Table(args)])
  }

  /** k_escape, on its own stack frame holding `args`. */
  method KEscape(L: Thread, origin: Thread, lj: int, args: seq<Value>, reg: Registry) returns (j: Jump)
    requires reg.Valid()
    modifies reg`table
    ensures reg.Valid()
    ensures (j, reg.table) == KEscapeSpec(L, origin, lj, args, old(reg.table))
  {
    if L != origin {
      return Raise(Str(CROSS_COROUTINE));
    }
    var fr := new ApiStack(args);
    fr.Push(Lookup(reg.table, FlagKey(lj)));
    if !Truthy(fr.vals[|fr.vals| - 1]) {
      fr.Pop(1);
      return Raise(Str(NO_LONGER_VALID));
    }
    fr.Pop(1);
    var n := |fr.vals|;
    fr.Push(Table([]));
    var t := n + 1;
    var i := 1;
    while i <= n
      invariant 1 <= i <= n + 1
      invariant fr.vals == args + [Table(args[..i - 1])]
      invariant reg.table == old(reg.table)
    {
      fr.Push(fr.vals[i - 1]);
      fr.RawSetI(t, i);
      assert args[..i] == args[..i - 1] + [args[i - 1]];
      i := i + 1;
    }
    assert args[..n] == args;
    reg.RawSet(ResultKey(lj), fr.vals[t - 1]);
    fr.Pop(1);
    j := LongJump(lj, LUA_ERRRUN);
  }

  // ---------------------------------------------------------------------
  // callec_runner under luaD_runwithjump
  // ---------------------------------------------------------------------

  /** How the called function ends: it returns `results`, raises `e`, or
      (as its last act) calls the escape closure of activation `lj` created
      on thread `origin` with `args`. */
  datatype Body =
    | Return(results: seq<Value>)
    | Throw(e: Value)
    | CallEscape(lj: int, origin: Thread, args: seq<Value>)

  /** The protected run of activation `lj` comes back to callec with a status,
      the stack and the registry; or a jump to another activation passes
      over it. */
  datatype Run =
    | Ran(status: int, stack: seq<Value>, reg: map<Value, Value>)
    | Passed(target: int, reg: map<Value, Value>)

  /** luaD_runwithjump(callec_runner) on callec's stack `vals`.  A jump back
      to this activation leaves `residue` above the original slots (for an
      error, followed by the error value). */
  function RunSpec(L: Thread, vals: seq<Value>, lj: int, reg: map<Value, Value>,
                   call: (Value, Value) -> Body, residue: seq<Value>): Run
  {
    if |vals| < 1 || !IsFunction(vals[0]) then Ran(LUA_ERRRUN, vals + [Str(NOT_A_FUNCTION)], reg)
    else
      var armed := reg[FlagKey(lj) := Boolean(true)];
      match call(vals[|vals| - 1], EscapeFunction(lj, L))
      case Return(rs) => Ran(LUA_OK, vals[..|vals| - 1] + rs, armed)
      case Throw(e) => Ran(LUA_ERRRUN, vals + residue + [e], armed)
      case CallEscape(lj2, origin, args) =>
        var (j, after) := KEscapeSpec(L, origin, lj2, args, armed);
        match j
        case Raise(e) => Ran(LUA_ERRRUN, vals + residue + [e], after)
        case LongJump(target, st) =>
          if target == lj then Ran(st, vals + residue, after) else Passed(target, after)
  }

  /** luaD_runwithjump running callec_runner: check that argument 1 is a
      function, arm the flag, push the escape closure (upvalues `lj` and `L`)
      and call, with one argument, the value below it, i.e. the last
      argument of callec. */
  method RunWithJump(L: Thread, fr: ApiStack, reg: Registry, lj: int,
                     call: (Value, Value) -> Body, residue: seq<Value>) returns (run: Run)
    requires reg.Valid()
    modifies fr, reg`table
    ensures reg.Valid() && run.reg == reg.table
    ensures run == RunSpec(L, old(fr.vals), lj, old(reg.table), call, residue)
    ensures run.Ran? ==> fr.vals == run.stack
  {
    var vals := fr.vals;
    if |vals| < 1 || !IsFunction(vals[0]) {
      fr.Push(Str(NOT_A_FUNCTION));
      return Ran(LUA_ERRRUN, fr.vals, reg.table);
    }
    reg.RawSet(FlagKey(lj), Boolean(true));
    var esc := EscapeFunction(lj, L);
    fr.Push(esc);
    var fn := fr.vals[|fr.vals| - 2];
    match call(fn, esc)
    case Return(rs) =>
      fr.Pop(2);
      fr.vals := fr.vals + rs;
      run := Ran(LUA_OK, fr.vals, reg.table);
    case Throw(e) =>
      fr.vals := vals + residue + [e];
      run := Ran(LUA_ERRRUN, fr.vals, reg.table);
    case CallEscape(lj2, origin, args) =>
      var j := KEscape(L, origin, lj2, args, reg);
      match j
      case Raise(e) =>
        fr.vals := vals + residue + [e];
        run := Ran(LUA_ERRRUN, fr.vals, reg.table);
      case LongJump(target, st) =>
        if target == lj {
          fr.vals := vals + residue;
          run := Ran(st, fr.vals, reg.table);
        } else {
          run := Passed(target, reg.table);
        }
  }

  // ---------------------------------------------------------------------
  // luaB_callec and luaB_callcc
  // ---------------------------------------------------------------------

  /** How callec ends: returning values, raising a value, or being unwound by
      a jump to the activation at `target`. */
  datatype CallResult = Returns(vals: seq<Value>) | Raises(e: Value) | Unwinds(target: int)

  /** What luaB_callec does once the protected run came back with status
      `st`, stack `stack` and registry `after`: the flag is cleared; a result
      table means an escape, whose entries 1 .. rawlen are returned and whose
      registry entry is cleared; otherwise an error status is re-raised and
      a normal run returns everything on the stack. */
  function FinishSpec(st: int, stack: seq<Value>, after: map<Value, Value>, lj: int): (CallResult, map<Value, Value>)
    requires st != LUA_OK ==> |stack| >= 1
  {
    var cleared := after - {FlagKey(lj)};
    var v := Lookup(cleared, ResultKey(lj));
    if v.Table? then (Returns(v.items[..RawLen(v.items)]), cleared - {ResultKey(lj)})
    else if st != LUA_OK then (Raises(stack[|stack| - 1]), cleared)
    else (Returns(stack), cleared)
  }

  /** Every run that comes back with an error status has the error value on
      top. */
  lemma {:induction false} ErrorOnTop(L: Thread, vals: seq<Value>, lj: int, reg: map<Value, Value>,
                                      call: (Value, Value) -> Body, residue: seq<Value>)
    ensures var run := RunSpec(L, vals, lj, reg, call, residue);
      run.Ran? && run.status != LUA_OK ==> |run.stack| >= 1
  {
  }

  /** luaB_callec on stack `vals`, with activation address `lj`. */
  function CallecSpec(L: Thread, vals: seq<Value>, lj: int, reg: map<Value, Value>,
                      call: (Value, Value) -> Body, residue: seq<Value>): (CallResult, map<Value, Value>)
  {
    ErrorOnTop(L, vals, lj, reg, call, residue);
    match RunSpec(L, vals, lj, reg, call, residue)
    case Passed(target, after) => (Unwinds(target), after)
    case Ran(st, stack, after) => FinishSpec(st, stack, after, lj)
  }

  /** A run that comes back with a result table under this activation's key
      (when there was none before) was an escape to it and left the original
      slots below whatever it left above them. */
  lemma {:induction false} TableOnlyAfterEscape(L: Thread, vals: seq<Value>, lj: int, reg: map<Value, Value>,
                                                call: (Value, Value) -> Body, residue: seq<Value>)
    requires ResultKey(lj) !in reg
    ensures var run := RunSpec(L, vals, lj, reg, call, residue);
      run.Ran? && Lookup(run.reg - {FlagKey(lj)}, ResultKey(lj)).Table? ==> run.stack == vals + residue
  {
    KeysDistinct(lj);
  }

  /** The push-back loop of luaB_callec: entries 1 .. len of the table at
      index `t` pushed in order. */
  method PushEntries(fr: ApiStack, t: nat, len: nat)
    requires 1 <= t <= |fr.vals| && fr.vals[t - 1].Table? && len <= |fr.vals[t - 1].items|
    modifies fr
    ensures fr.vals == old(fr.vals) + old(fr.vals[t - 1].items[..len])
  {
    var items := fr.vals[t - 1].items;
    var i := 1;
    while i <= len
      invariant 1 <= i <= len + 1
      invariant fr.vals == old(fr.vals) + items[..i - 1]
    {
      fr.Push(items[i - 1]);
      assert items[..i] == items[..i - 1] + [items[i - 1]];
      i := i + 1;
    }
  }

  /** The escape path of luaB_callec, with the result table on top: the
      entry is cleared, the table moved just above callec's `base` slots and
      everything above it dropped, its entries 1 .. rawlen pushed, and the
      table removed. */
  method DeliverEscape(fr: ApiStack, reg: Registry, lj: int, base: nat) returns (r: CallResult)
    requires reg.Valid() && base < |fr.vals| && fr.vals[|fr.vals| - 1].Table?
    modifies fr, reg`table
    ensures reg.Valid() && reg.table == old(reg.table) - {ResultKey(lj)}
    ensures var items := old(fr.vals[|fr.vals| - 1].items);
      r == Returns(items[..RawLen(items)]) && fr.vals == old(fr.vals[..base]) + r.vals
  {
    ghost var vals := fr.vals[..base];
    var v := fr.vals[|fr.vals| - 1];
    var len := RawLen(v.items);
    reg.RawSet(ResultKey(lj), Nil);
    fr.Insert(base + 1);
    fr.SetTop(base + 1);
    assert fr.vals == vals + [v];
    PushEntries(fr, base + 1, len);
    fr.Remove(base + 1);
    assert fr.vals == vals + v.items[..len];
    r := Returns(fr.vals[|fr.vals| - len..]);
  }

  /** The part of luaB_callec after the protected run, on the stack the run
      left; `base` is the height of callec's own slots, below which an escape
      leaves the stack as it was. */
  method Finish(fr: ApiStack, reg: Registry, lj: int, st: int, base: nat) returns (r: CallResult)
    requires reg.Valid() && (st != LUA_OK ==> |fr.vals| >= 1)
    requires Lookup(reg.table - {FlagKey(lj)}, ResultKey(lj)).Table? ==> base <= |fr.vals|
    modifies fr, reg`table
    ensures reg.Valid()
    ensures (r, reg.table) == FinishSpec(st, old(fr.vals), old(reg.table), lj)
    ensures r.Returns? ==> |r.vals| <= |fr.vals| && fr.vals[|fr.vals| - |r.vals|..] == r.vals
    ensures Lookup(old(reg.table) - {FlagKey(lj)}, ResultKey(lj)).Table? ==>
      fr.vals == old(fr.vals[..base]) + r.vals
  {
    reg.RawSet(FlagKey(lj), Nil);
    fr.Push(Lookup(reg.table, ResultKey(lj)));
    var v := fr.vals[|fr.vals| - 1];
    if v.Table? {
      r := DeliverEscape(fr, reg, lj, base);
    } else {
      fr.Pop(1);
      if st != LUA_OK {
        return Raises(fr.vals[|fr.vals| - 1]);
      }
      r := Returns(fr.vals);
    }
  }

  /** luaB_callec, the jump buffer of this activation at `lj`.  The result
      key is not in use when a new activation's buffer is created. */
  method Callec(L: Thread, fr: ApiStack, reg: Registry, lj: int,
                call: (Value, Value) -> Body, residue: seq<Value>) returns (r: CallResult)
    requires reg.Valid() && ResultKey(lj) !in reg.table
    modifies fr, reg`table
    ensures reg.Valid()
    ensures (r, reg.table) == CallecSpec(L, old(fr.vals), lj, old(reg.table), call, residue)
    ensures r.Returns? ==> |r.vals| <= |fr.vals| && fr.vals[|fr.vals| - |r.vals|..] == r.vals
    ensures var run := RunSpec(L, old(fr.vals), lj, old(reg.table), call, residue);
      run.Ran? && Lookup(run.reg - {FlagKey(lj)}, ResultKey(lj)).Table? ==> fr.vals == old(fr.vals) + r.vals
  {
    var base := |fr.vals|;
    TableOnlyAfterEscape(L, fr.vals, lj, reg.table, call, residue);
    ErrorOnTop(L, fr.vals, lj, reg.table, call, residue);
    var run := RunWithJump(L, fr, reg, lj, call, residue);
    if run.Passed? {
      return Unwinds(run.target);
    }
    r := Finish(fr, reg, lj, run.status, base);
  }

  /** luaB_callcc: the same function as callec. */
  method Callcc(L: Thread, fr: ApiStack, reg: Registry, lj: int,
                call: (Value, Value) -> Body, residue: seq<Value>) returns (r: CallResult)
    requires reg.Valid() && ResultKey(lj) !in reg.table
    modifies fr, reg`table
    ensures reg.Valid()
    ensures (r, reg.table) == CallecSpec(L, old(fr.vals), lj, old(reg.table), call, residue)
    ensures r.Returns? ==> |r.vals| <= |fr.vals| && fr.vals[|fr.vals| - |r.vals|..] == r.vals
    ensures var run := RunSpec(L, old(fr.vals), lj, old(reg.table), call, residue);
      run.Ran? && Lookup(run.reg - {FlagKey(lj)}, ResultKey(lj)).Table? ==> fr.vals == old(fr.vals) + r.vals
  {
    r := Callec(L, fr, reg, lj, call, residue);
  }

  // ---------------------------------------------------------------------
  // Properties of the protocol
  // ---------------------------------------------------------------------

  /** A rejected escape (wrong thread, or flag not set) jumps nowhere and
      leaves the registry, its result entry included, as it was. */
  lemma RejectedEscapeWritesNothing(L: Thread, origin: Thread, lj: int, args: seq<Value>, reg: map<Value, Value>)
    requires L != origin || !Truthy(Lookup(reg, FlagKey(lj)))
    ensures var (j, after) := KEscapeSpec(L, origin, lj, args, reg);
      && j == Raise(Str(if L != origin then CROSS_COROUTINE else NO_LONGER_VALID))
      && after == reg
  {
  }

  /** Whenever callec itself finishes (returns or raises), the flag of its
      activation is gone. */
  lemma FlagClearedOnExit(L: Thread, vals: seq<Value>, lj: int, reg: map<Value, Value>,
                          call: (Value, Value) -> Body, residue: seq<Value>)
    ensures var (r, after) := CallecSpec(L, vals, lj, reg, call, residue);
      !r.Unwinds? ==> FlagKey(lj) !in after
  {
  }

  /** Single extent: once callec has finished, its escape closure (called on
      any thread, with any arguments) is rejected and changes nothing. */
  lemma StaleAfterExit(L: Thread, vals: seq<Value>, lj: int, reg: map<Value, Value>,
                       call: (Value, Value) -> Body, residue: seq<Value>, T: Thread, args: seq<Value>)
    ensures var (r, after) := CallecSpec(L, vals, lj, reg, call, residue);
      !r.Unwinds? ==>
        KEscapeSpec(T, L, lj, args, after) ==
          (Raise(Str(if T != L then CROSS_COROUTINE else NO_LONGER_VALID)), after)
  {
    FlagClearedOnExit(L, vals, lj, reg, call, residue);
  }

  /** When callec finishes, the registry is what it was before, less the
      flag of this activation (the result entry is consumed on the escape
      path). */
  lemma {:induction false} RegistryRestored(L: Thread, vals: seq<Value>, lj: int, reg: map<Value, Value>,
                                            call: (Value, Value) -> Body, residue: seq<Value>)
    requires ResultKey(lj) !in reg
    ensures var (r, after) := CallecSpec(L, vals, lj, reg, call, residue);
      !r.Unwinds? ==> after == reg - {FlagKey(lj)}
  {
    KeysDistinct(lj);
    if |vals| >= 1 && IsFunction(vals[0]) {
      var armed := reg[FlagKey(lj) := Boolean(true)];
      match call(vals[|vals| - 1], EscapeFunction(lj, L))
      case Return(rs) =>
      case Throw(e) =>
      case CallEscape(lj2, origin, args) =>
        var (j, after) := KEscapeSpec(L, origin, lj2, args, armed);
        if j.LongJump? && lj2 == lj {
          assert after == armed[ResultKey(lj) := Table(args)];
          assert after - {FlagKey(lj)} - {ResultKey(lj)} == reg - {FlagKey(lj)};
        }
    }
  }

  /** Escape round trip: when the function calls its own escape closure on
      the same thread, callec returns the escape's arguments up to the
      table's length, which is all of them when none is nil. */
  lemma EscapeReturnsArguments(L: Thread, vals: seq<Value>, lj: int, reg: map<Value, Value>,
                               call: (Value, Value) -> Body, residue: seq<Value>, args: seq<Value>)
    requires ResultKey(lj) !in reg && |vals| >= 1 && IsFunction(vals[0])
    requires call(vals[|vals| - 1], EscapeFunction(lj, L)) == CallEscape(lj, L, args)
    ensures CallecSpec(L, vals, lj, reg, call, residue).0 == Returns(args[..RawLen(args)])
    ensures (forall i :: 0 <= i < |args| ==> args[i] != Nil) ==>
      CallecSpec(L, vals, lj, reg, call, residue).0 == Returns(args)
  {
    KeysDistinct(lj);
    if forall i :: 0 <= i < |args| ==> args[i] != Nil {
      RawLenNoNils(args);
    }
  }

  /** Normal return: callec returns every value on its stack after the
      call, that is its arguments below the function followed by the
      function's results; with the function as only argument, exactly its
      results. */
  lemma NormalReturn(L: Thread, vals: seq<Value>, lj: int, reg: map<Value, Value>,
                     call: (Value, Value) -> Body, residue: seq<Value>, results: seq<Value>)
    requires ResultKey(lj) !in reg && |vals| >= 1 && IsFunction(vals[0])
    requires call(vals[|vals| - 1], EscapeFunction(lj, L)) == Return(results)
    ensures CallecSpec(L, vals, lj, reg, call, residue).0 == Returns(vals[..|vals| - 1] + results)
    ensures |vals| == 1 ==> CallecSpec(L, vals, lj, reg, call, residue).0 == Returns(results)
  {
    KeysDistinct(lj);
  }

  /** An error of the function is re-raised unchanged, and so is the
      argument error when argument 1 is not a function. */
  lemma ErrorRethrown(L: Thread, vals: seq<Value>, lj: int, reg: map<Value, Value>,
                      call: (Value, Value) -> Body, residue: seq<Value>, e: Value)
    requires ResultKey(lj) !in reg
    ensures (|vals| < 1 || !IsFunction(vals[0])) ==>
      CallecSpec(L, vals, lj, reg, call, residue).0 == Raises(Str(NOT_A_FUNCTION))
    ensures |vals| >= 1 && IsFunction(vals[0]) && call(vals[|vals| - 1], EscapeFunction(lj, L)) == Throw(e) ==>
      CallecSpec(L, vals, lj, reg, call, residue).0 == Raises(e)
  {
    KeysDistinct(lj);
  }

  /** An escape closure created on another thread is rejected before any
      registry write: callec raises the cross-coroutine error and the
      registry keeps everything but this activation's flag. */
  lemma CrossContextRejected(L: Thread, vals: seq<Value>, lj: int, reg: map<Value, Value>,
                             call: (Value, Value) -> Body, residue: seq<Value>,
                             lj2: int, origin: Thread, args: seq<Value>)
    requires ResultKey(lj) !in reg && |vals| >= 1 && IsFunction(vals[0]) && origin != L
    requires call(vals[|vals| - 1], EscapeFunction(lj, L)) == CallEscape(lj2, origin, args)
    ensures CallecSpec(L, vals, lj, reg, call, residue) == (Raises(Str(CROSS_COROUTINE)), reg - {FlagKey(lj)})
  {
    KeysDistinct(lj);
    assert reg[FlagKey(lj) := Boolean(true)] - {FlagKey(lj)} == reg - {FlagKey(lj)};
  }

  /** Staleness across activations: the escape closure of a finished callec
      at `lj1`, called inside a later callec at a different address, makes
      the later call raise "no longer valid". */
  lemma {:induction false} StaleEscapeInLaterCall(L: Thread, vals1: seq<Value>, lj1: int, reg: map<Value, Value>,
                                                  call1: (Value, Value) -> Body, residue1: seq<Value>,
                                                  vals2: seq<Value>, lj2: int, call2: (Value, Value) -> Body,
                                                  residue2: seq<Value>, args: seq<Value>)
    requires lj2 != lj1
    requires var (r1, after1) := CallecSpec(L, vals1, lj1, reg, call1, residue1);
      !r1.Unwinds? && ResultKey(lj2) !in after1
    requires |vals2| >= 1 && IsFunction(vals2[0])
    requires call2(vals2[|vals2| - 1], EscapeFunction(lj2, L)) == CallEscape(lj1, L, args)
    ensures var after1 := CallecSpec(L, vals1, lj1, reg, call1, residue1).1;
      CallecSpec(L, vals2, lj2, after1, call2, residue2).0 == Raises(Str(NO_LONGER_VALID))
  {
    FlagClearedOnExit(L, vals1, lj1, reg, call1, residue1);
    var after1 := CallecSpec(L, vals1, lj1, reg, call1, residue1).1;
    KeysDistinct(lj2);
    assert Lookup(after1[FlagKey(lj2) := Boolean(true)], FlagKey(lj1)) == Nil;
  }

  /** A jump to another (outer) activation passes over callec without its
      cleanup: the flag of this activation stays set and the target's result
      entry holds the escape's arguments. */
  lemma OuterEscapeSkipsCleanup(L: Thread, vals: seq<Value>, lj: int, reg: map<Value, Value>,
                                call: (Value, Value) -> Body, residue: seq<Value>,
                                lj2: int, args: seq<Value>)
    requires |vals| >= 1 && IsFunction(vals[0]) && lj2 != lj && Truthy(Lookup(reg, FlagKey(lj2)))
    requires call(vals[|vals| - 1], EscapeFunction(lj, L)) == CallEscape(lj2, L, args)
    ensures var (r, after) := CallecSpec(L, vals, lj, reg, call, residue);
      && r == Unwinds(lj2)
      && Truthy(Lookup(after, FlagKey(lj)))
      && Lookup(after, ResultKey(lj2)) == Table(args)
  {
  }

  /** The validity flag is keyed by address only: an escape closure kept
      from a finished callec at `lj` is accepted again by a later callec
      whose jump buffer has the same address, and escapes that call. */
  lemma {:induction false} SameAddressRearms(L: Thread, vals1: seq<Value>, lj: int, reg: map<Value, Value>,
                                             call1: (Value, Value) -> Body, residue1: seq<Value>,
                                             vals2: seq<Value>, call2: (Value, Value) -> Body,
                                             residue2: seq<Value>, args: seq<Value>)
    requires ResultKey(lj) !in reg
    requires !CallecSpec(L, vals1, lj, reg, call1, residue1).0.Unwinds?
    requires |vals2| >= 1 && IsFunction(vals2[0])
    requires call2(vals2[|vals2| - 1], EscapeFunction(lj, L)) == CallEscape(lj, L, args)
    ensures var after1 := CallecSpec(L, vals1, lj, reg, call1, residue1).1;
      CallecSpec(L, vals2, lj, after1, call2, residue2).0 == Returns(args[..RawLen(args)])
  {
    RegistryRestored(L, vals1, lj, reg, call1, residue1);
    KeysDistinct(lj);
    var after1 := CallecSpec(L, vals1, lj, reg, call1, residue1).1;
    EscapeReturnsArguments(L, vals2, lj, after1, call2, residue2, args);
  }
}
