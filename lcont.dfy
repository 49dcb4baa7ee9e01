/** The snapshot, relocation and resume engine of lcont.c. */
module Cont {
  import opened LuaObjects

  /** Size of the buffer that stages a trampoline invocation's arguments. */
  const MAXRESULTS := 250

  const INVALID_CONTINUATION := "invalid continuation"
  const ERROR_IN_CONTINUATION := "error in continuation"

  // ---------------------------------------------------------------------
  // Finding the capture frame (findCallerCI)
  // ---------------------------------------------------------------------

  /** Indices of the Lua frames at or below frame `i`, innermost first. */
  function LuaFramesDown(cis: seq<CallInfo>, i: int): seq<nat>
    requires i < |cis|
    decreases i + 1
  {
    if i < 0 then []
    else (if IsLua(cis[i]) then [i] else []) + LuaFramesDown(cis, i - 1)
  }

  /** The frame findCallerCI answers: the `level`-th Lua frame counting from
      the innermost Lua frame at or below `ci` (the first for level <= 1).
      When there are fewer Lua frames the walk stops at base_ci, which is
      answered when it is a Lua frame. */
  function CallerSpec(cis: seq<CallInfo>, ci: int, level: int): (r: Option<nat>)
    requires 0 <= ci < |cis|
    ensures r.Some? ==> r.value <= ci && IsLua(cis[r.value])
  {
    LuaFramesDownFacts(cis, ci);
    var fs := LuaFramesDown(cis, ci);
    assert fs != [] ==> fs[0] in fs;
    assert 1 < level <= |fs| ==> fs[level - 1] in fs;
    if fs == [] then None
    else if level <= 1 then Some(fs[0])
    else if level <= |fs| then Some(fs[level - 1])
    else if IsLua(cis[0]) then Some(0)
    else None
  }

  /** `k` is listed exactly when it is a Lua frame at or below `i`, and the
      list is strictly decreasing. */
  lemma {:induction false} LuaFramesDownFacts(cis: seq<CallInfo>, i: int)
    requires i < |cis|
    ensures forall k :: k in LuaFramesDown(cis, i) <==> 0 <= k <= i && IsLua(cis[k])
    ensures forall a, b :: 0 <= a < b < |LuaFramesDown(cis, i)| ==>
      LuaFramesDown(cis, i)[a] > LuaFramesDown(cis, i)[b]
    decreases i + 1
  {
    if i >= 0 {
      LuaFramesDownFacts(cis, i - 1);
      var rest := LuaFramesDown(cis, i - 1);
      forall j | 0 <= j < |rest| ensures rest[j] <= i - 1 {
        assert rest[j] in rest;
      }
    }
  }

  /** findCallerCI answers nothing exactly when there is no Lua frame to
      start from, or the level overshoots and base_ci is a C frame. */
  lemma CallerSpecFacts(cis: seq<CallInfo>, ci: int, level: int)
    requires 0 <= ci < |cis|
    ensures var r := CallerSpec(cis, ci, level);
      (r.None? <==> (forall k :: 0 <= k <= ci ==> !IsLua(cis[k]))
                       || (level > |LuaFramesDown(cis, ci)| && level > 1 && !IsLua(cis[0])))
  {
    LuaFramesDownFacts(cis, ci);
    var fs := LuaFramesDown(cis, ci);
    if fs != [] {
      assert fs[0] in fs;
    } else {
      assert forall k :: 0 <= k <= ci && IsLua(cis[k]) ==> k in fs;
    }
    if level > 1 && level <= |fs| {
      assert fs[level - 1] in fs;
    }
  }

  lemma DropHead(fs: seq<nat>, j: int, c: nat, rest: seq<nat>)
    requires 0 <= j < |fs| && fs[j..] == [c] + rest
    ensures rest == fs[j + 1..]
  {
    assert fs[j + 1..] == fs[j..][1..];
  }

  /** Where the level walk of findCallerCI stops decides its answer. */
  lemma WalkStopAnswers(cis: seq<CallInfo>, ci: int, level: int, c: int, j: int, lv: int)
    requires 0 <= c <= ci < |cis|
    requires var fs := LuaFramesDown(cis, ci);
      && fs != [] && lv <= level && (level > 1 ==> lv >= 1)
      && 0 <= j <= |fs| && LuaFramesDown(cis, c) == fs[j..]
      && (IsLua(cis[c]) ==> j < |fs| && fs[j] == c && lv == level - j)
      && (!IsLua(cis[c]) ==> lv == level - j + 1)
      && (lv <= 1 && level > 1 ==> IsLua(cis[c]))
      && (level <= 1 ==> c == fs[0])
    requires !(lv > 1 && c > 0)
    ensures CallerSpec(cis, ci, level) == if IsLua(cis[c]) then Some(c) else None
  {
    var fs := LuaFramesDown(cis, ci);
    if lv > 1 {
      assert c == 0;
      assert LuaFramesDown(cis, 0) == (if IsLua(cis[0]) then [0] else []) + LuaFramesDown(cis, -1);
    }
  }

  /** The first loop of findCallerCI: from frame `i` down to the nearest Lua
      frame, or -1 (NULL) when there is none. */
  method SkipCFrames(cis: seq<CallInfo>, i: int) returns (c: int)
    requires 0 <= i < |cis|
    ensures -1 <= c <= i && LuaFramesDown(cis, c) == LuaFramesDown(cis, i)
    ensures c >= 0 ==> IsLua(cis[c])
  {
    c := i;
    while c >= 0 && !IsLua(cis[c])
      invariant -1 <= c <= i
      invariant LuaFramesDown(cis, c) == LuaFramesDown(cis, i)
    {
      c := c - 1;
    }
  }

  /** findCallerCI: skip C frames down to a Lua frame, then walk further
      down until `level - 1` more Lua frames have been met or base_ci is
      reached. */
  method FindCallerCI(L: Thread, level: int) returns (r: Option<nat>)
    requires L.Valid()
    ensures r == CallerSpec(L.cis, L.ci, level)
    ensures r.Some? ==> r.value <= L.ci && IsLua(L.cis[r.value])
  {
    var cis := L.cis;
    var c := SkipCFrames(cis, L.ci);
    CallerSpecFacts(cis, L.ci, level);
    if c < 0 {
      return None;
    }
    ghost var fs := LuaFramesDown(cis, L.ci);
    assert fs == [c] + LuaFramesDown(cis, c - 1);
    ghost var j := 0;
    var lv := level;
    while lv > 1 && c > 0
      invariant 0 <= c <= L.ci && lv <= level && (level > 1 ==> lv >= 1)
      invariant 0 <= j <= |fs| && LuaFramesDown(cis, c) == fs[j..]
      invariant IsLua(cis[c]) ==> j < |fs| && fs[j] == c && lv == level - j
      invariant !IsLua(cis[c]) ==> lv == level - j + 1
      invariant lv <= 1 && level > 1 ==> IsLua(cis[c])
      invariant level <= 1 ==> c == fs[0]
    {
      ghost var rest := LuaFramesDown(cis, c - 1);
      if IsLua(cis[c]) {
        DropHead(fs, j, c, rest);
        j := j + 1;
      }
      c := c - 1;
      if IsLua(cis[c]) {
        lv := lv - 1;
      }
    }
    WalkStopAnswers(cis, L.ci, level, c, j, lv);
    if IsLua(cis[c]) {
      r := Some(c);
    } else {
      r := None;
    }
  }

  // ---------------------------------------------------------------------
  // Relocating frames and copying slots (setupThreadForResume, cloneThreadForInvoke)
  // ---------------------------------------------------------------------

  function Min(a: int, b: int): int { if a <= b then a else b }
  function Max(a: int, b: int): int { if a >= b then a else b }

  /** One frame copied into a stack whose base lies `delta` away: func and
      top shifted by `delta`, u2 kept, a Lua frame's saved pc and extra
      argument count kept with its trap reset, a C frame's data kept; with
      `clearHooked` the CIST_HOOKED bit is dropped. */
  function CopyFrame(src: CallInfo, delta: int, clearHooked: bool): CallInfo {
    CallInfo(src.func + delta, src.top + delta,
             if clearHooked then src.callstatus - {Hooked} else src.callstatus,
             src.u2,
             if IsLua(src) && src.u.LuaData? then LuaData(src.u.code, src.u.savedpc, 0, src.u.nextraargs)
             else src.u)
  }

  /** A copied frame lies at the same offset from its new stack base as the
      original from the old base, and has the same kind and well-formedness. */
  lemma CopyFrameKeepsOffsets(src: CallInfo, oldBase: int, newBase: int, clearHooked: bool)
    ensures var r := CopyFrame(src, newBase - oldBase, clearHooked);
      && r.func - newBase == src.func - oldBase
      && r.top - newBase == src.top - oldBase
      && r.top - r.func == src.top - src.func
      && (IsLua(r) <==> IsLua(src))
      && (WellFormed(src) ==> WellFormed(r))
      && (r.callstatus == if clearHooked then src.callstatus - {Hooked} else src.callstatus)
      && (IsLua(src) && src.u.LuaData? ==>
            r.u.LuaData? && r.u.savedpc == src.u.savedpc && r.u.code == src.u.code
            && r.u.nextraargs == src.u.nextraargs && r.u.trap == 0)
  {
  }

  /** Copying twice is copying once by the summed offset: a snapshot cloned
      and then injected sits where one relocation would put it. */
  lemma CopyFrameTwice(src: CallInfo, d1: int, d2: int)
    ensures CopyFrame(CopyFrame(src, d1, false), d2, false) == CopyFrame(src, d1 + d2, false)
  {
  }

  /** The "ready to resume" mark on the top copied frame: CIST_HOOKYIELD when
      it is a Lua frame. */
  function MarkedForResume(f: CallInfo): CallInfo {
    if IsLua(f) then f.(callstatus := f.callstatus + {HookYield}) else f
  }

  /** The frame count loop of setupThreadForResume: walk from base_ci until
      the node after `s` (or the end of the list). */
  method CountChain(cis: seq<CallInfo>, s: nat) returns (n: nat)
    requires s < |cis|
    ensures n == s + 1
  {
    n := 0;
    while n < |cis| && n != s + 1
      invariant 0 <= n <= s + 1
    {
      n := n + 1;
    }
  }

  /** Copies slots [0, n) of `src`'s stack into `dst`'s and sets `dst`'s top
      to n. */
  method CopySlots(dst: Thread, src: Thread, n: int)
    requires 0 <= n <= dst.stack.Length && n <= src.stack.Length && dst.stack != src.stack
    modifies dst`top, dst.stack
    ensures dst.top == n
    ensures dst.stack[..n] == src.stack[..n]
    ensures dst.stack[n..] == old(dst.stack[n..])
  {
    var i := 0;
    while i < n
      invariant 0 <= i <= n
      invariant dst.stack[..i] == src.stack[..i]
      invariant dst.stack[i..] == old(dst.stack[i..])
    {
      dst.stack[i] := src.stack[i];
      assert dst.stack[..i + 1] == dst.stack[..i] + [src.stack[i]];
      i := i + 1;
    }
    dst.top := n;
  }

  /** The frame copy loop: nodes 0 .. count-1 of `src` rewritten into `dst`,
      relocated by `delta`, extending `dst`'s list where it is too short and
      advancing `dst.ci`; the loop stops early when `src`'s list ends. */
  method CopyFrames(dst: Thread, src: Thread, count: int, delta: int, clearHooked: bool) returns (copied: nat)
    requires dst.Valid() && src.Valid() && dst.ci == 0 && dst != src
    modifies dst`cis, dst`ci
    ensures dst.Valid()
    ensures copied == if count <= 0 then 0 else Min(count, |src.cis|)
    ensures |dst.cis| == Max(|old(dst.cis)|, copied)
    ensures forall i :: 0 <= i < copied ==> dst.cis[i] == CopyFrame(src.cis[i], delta, clearHooked)
    ensures forall i :: copied <= i < |dst.cis| ==> dst.cis[i] == old(dst.cis[i])
    ensures dst.ci == if copied == 0 then 0 else copied - 1
  {
    var i := 0;
    while i < count
      invariant 0 <= i < |src.cis| && (count > 0 ==> i <= count) && (count <= 0 ==> i == 0)
      invariant |dst.cis| == Max(|old(dst.cis)|, i) && 0 <= dst.ci < |dst.cis|
      invariant dst.ci == if i == 0 then 0 else i - 1
      invariant forall k :: 0 <= k < i ==> dst.cis[k] == CopyFrame(src.cis[k], delta, clearHooked)
      invariant forall k :: i <= k < |dst.cis| ==> dst.cis[k] == old(dst.cis[k])
      invariant forall k :: 0 <= k < |dst.cis| ==> WellFormed(dst.cis[k])
      decreases count - i
    {
      if i > 0 {
        if i == |dst.cis| {
          dst.cis := dst.cis + [CallInfo(0, 0, {CFrame}, 0, CData(0, 0, 0))];
        }
        dst.ci := i;
      }
      CopyFrameKeepsOffsets(src.cis[i], 0, delta, clearHooked);
      dst.cis := dst.cis[i := CopyFrame(src.cis[i], delta, clearHooked)];
      i := i + 1;
      if i == |src.cis| {
        copied := i;
        return;
      }
    }
    copied := i;
  }

  // ---------------------------------------------------------------------
  // Upvalue rehoming (second half of setupThreadForResume)
  // ---------------------------------------------------------------------

  /** The upvalue arrays of the Lua closures among `slots`. */
  function ClosureArrays(slots: seq<Value>): set<array<UpVal?>> {
    set v | v in slots && v.LuaFunction? :: v.cl.upvals
  }

  /** The value behind an open upvalue: the slot it aliases. */
  ghost function Target(home: Thread, i: int): Value
    reads home, home.stack
  {
    if 0 <= i < home.stack.Length then home.stack[i] else Nil
  }

  /** The value a rehomed cell receives for the old cell `u`, when `src`'s
      slots [0, total) were copied into `snap`: the copied slot when `u` was
      open into that range, the aliased slot when it was open elsewhere, the
      owned value when it was closed. */
  ghost function RehomedValue(u: UpVal, src: Thread, total: int, snap: array<Value>): Value
    reads u, u.home, snap
    reads if u.home != null then {u.home.stack} else {}
  {
    if !u.open then u.value
    else if u.home == src && 0 <= u.index < total then
      (if u.index < snap.Length then snap[u.index] else Nil)
    else if u.home != null then Target(u.home, u.index)
    else Nil
  }

  /** `c` is a closed cell holding what rehoming gives for `u`. */
  ghost predicate RehomedFrom(c: UpVal?, u: UpVal, src: Thread, total: int, snap: array<Value>)
    reads c, u, u.home, snap
    reads if u.home != null then {u.home.stack} else {}
  {
    c != null && !c.open && c.value == RehomedValue(u, src, total, snap)
  }

  /** The inner loop: every non-null upvalue of `cl` replaced by a fresh
      closed cell. */
  method RehomeClosure(cl: LClosure, src: Thread, total: int, snap: array<Value>)
    requires 0 <= total <= snap.Length
    modifies cl.upvals
    ensures forall j :: 0 <= j < cl.upvals.Length ==>
      var u := old(cl.upvals[j]);
      (u == null ==> cl.upvals[j] == null) &&
      (u != null ==> fresh(cl.upvals[j]) && RehomedFrom(cl.upvals[j], u, src, total, snap))
  {
    var j := 0;
    while j < cl.upvals.Length
      invariant 0 <= j <= cl.upvals.Length
      invariant forall k :: 0 <= k < j ==>
        var u := old(cl.upvals[k]);
        (u == null ==> cl.upvals[k] == null) &&
        (u != null ==> fresh(cl.upvals[k]) && RehomedFrom(cl.upvals[k], u, src, total, snap))
      invariant forall k :: j <= k < cl.upvals.Length ==> cl.upvals[k] == old(cl.upvals[k])
    {
      var u := cl.upvals[j];
      if u != null {
        var v: Value;
        if u.open {
          if u.home == src && 0 <= u.index < total {
            v := snap[u.index];
          } else if u.home != null && 0 <= u.index < u.home.stack.Length {
            v := u.home.stack[u.index];
          } else {
            v := Nil;
          }
        } else {
          v := u.value;
        }
        var nu := new UpVal.Closed(v);
        cl.upvals[j] := nu;
      }
      j := j + 1;
    }
  }

  /** The outer loop: every Lua closure in the snapshot's slots [0, total)
      rehomed.  A closure that occurs twice is rehomed twice; the second pass
      copies the closed cells of the first, so the values come out the same. */
  method RehomeUpvalues(snap: Thread, src: Thread, total: int)
    requires 0 <= total <= snap.stack.Length && total <= src.stack.Length
    requires snap.stack[..total] == src.stack[..total]
    modifies ClosureArrays(src.stack[..total])
    ensures forall k, j :: 0 <= k < total && snap.stack[k].LuaFunction? && 0 <= j < snap.stack[k].cl.upvals.Length ==>
      var u := old(snap.stack[k].cl.upvals[j]);
      (u == null ==> snap.stack[k].cl.upvals[j] == null) &&
      (u != null ==> fresh(snap.stack[k].cl.upvals[j]) && RehomedFrom(snap.stack[k].cl.upvals[j], u, src, total, snap.stack))
  {
    var i := 0;
    while i < total
      invariant 0 <= i <= total
      invariant forall k, j :: 0 <= k < total && snap.stack[k].LuaFunction? && 0 <= j < snap.stack[k].cl.upvals.Length ==>
        var u := old(snap.stack[k].cl.upvals[j]);
        snap.stack[k].cl.upvals[j] == u ||
        (u != null && fresh(snap.stack[k].cl.upvals[j]) && RehomedFrom(snap.stack[k].cl.upvals[j], u, src, total, snap.stack))
      invariant forall k, j :: 0 <= k < i && snap.stack[k].LuaFunction? && 0 <= j < snap.stack[k].cl.upvals.Length ==>
        var u := old(snap.stack[k].cl.upvals[j]);
        u != null ==> fresh(snap.stack[k].cl.upvals[j]) && RehomedFrom(snap.stack[k].cl.upvals[j], u, src, total, snap.stack)
    {
      var o := snap.stack[i];
      if o.LuaFunction? {
        assert o in src.stack[..total];
        RehomeClosure(o.cl, src, total, snap.stack);
      }
      i := i + 1;
    }
  }

  // ---------------------------------------------------------------------
  // Building a snapshot and capturing a continuation
  // ---------------------------------------------------------------------

  /** The copying half of setupThreadForResume: every live slot of `L`
      copied into `thread`, the frame chain base_ci .. frame `s` rebuilt
      relocated to `thread`'s stack (CIST_HOOKED cleared, CIST_HOOKYIELD on a
      Lua top frame), the thread marked LUA_YIELD with `nci` frames. */
  method CopyContext(thread: Thread, L: Thread, s: nat)
    requires L.Valid() && thread.Valid() && s <= L.ci
    requires thread != L && thread.stack != L.stack && thread.ci == 0
    modifies thread, thread.stack
    ensures thread.Valid() && thread.base == old(thread.base)
    ensures thread.stack == old(thread.stack) || fresh(thread.stack)
    ensures thread.top == L.top && thread.stack[..L.top] == L.stack[..L.top]
    ensures thread.stack.Length > old(thread.top) + L.top + LUA_MINSTACK
    ensures old(thread.stack.Length) > old(thread.top) + L.top + LUA_MINSTACK ==> thread.stack == old(thread.stack)
    ensures |thread.cis| == Max(|old(thread.cis)|, s + 1)
    ensures forall i :: 0 <= i < s ==> thread.cis[i] == CopyFrame(L.cis[i], thread.base - L.base, true)
    ensures thread.cis[s] == MarkedForResume(CopyFrame(L.cis[s], thread.base - L.base, true))
    ensures thread.ci == s && thread.nci == s + 1 && thread.status == LUA_YIELD
  {
    var total := L.top;
    thread.CheckStack(total + LUA_MINSTACK);
    CopySlots(thread, L, total);
    var delta := thread.base - L.base;
    var count := CountChain(L.cis, s);
    var copied := CopyFrames(thread, L, count, delta, true);
    if IsLua(thread.cis[thread.ci]) {
      thread.cis := thread.cis[thread.ci := MarkedForResume(thread.cis[thread.ci])];
    }
    thread.status := LUA_YIELD;
    thread.nci := count;
  }

  /** setupThreadForResume: the copy above, then the upvalues of every Lua
      closure among the copied slots rehomed into fresh closed cells.  The
      closures themselves are shared with `L`. */
  method SetupThreadForResume(thread: Thread, L: Thread, s: nat)
    requires L.Valid() && thread.Valid() && s <= L.ci
    requires thread != L && thread.stack != L.stack && thread.ci == 0
    modifies thread, thread.stack, ClosureArrays(L.stack[..L.top])
    ensures thread.Valid() && thread.base == old(thread.base)
    ensures thread.stack == old(thread.stack) || fresh(thread.stack)
    ensures thread.top == L.top && thread.stack[..L.top] == L.stack[..L.top]
    ensures thread.stack.Length > old(thread.top) + L.top + LUA_MINSTACK
    ensures old(thread.stack.Length) > old(thread.top) + L.top + LUA_MINSTACK ==> thread.stack == old(thread.stack)
    ensures |thread.cis| == Max(|old(thread.cis)|, s + 1)
    ensures forall i :: 0 <= i < s ==> thread.cis[i] == CopyFrame(L.cis[i], thread.base - L.base, true)
    ensures thread.cis[s] == MarkedForResume(CopyFrame(L.cis[s], thread.base - L.base, true))
    ensures thread.ci == s && thread.nci == s + 1 && thread.status == LUA_YIELD
    ensures forall k, j :: 0 <= k < L.top && L.stack[k].LuaFunction? && 0 <= j < L.stack[k].cl.upvals.Length ==>
      var u := old(L.stack[k].cl.upvals[j]);
      (u == null ==> L.stack[k].cl.upvals[j] == null) &&
      (u != null ==> fresh(L.stack[k].cl.upvals[j]) && RehomedFrom(L.stack[k].cl.upvals[j], u, L, L.top, thread.stack))
  {
    CopyContext(thread, L, s);
    RehomeUpvalues(thread, L, L.top);
  }

  lemma ClosureArraysPushThread(slots: seq<Value>, th: Thread)
    ensures ClosureArrays(slots + [ThreadRef(th)]) == ClosureArrays(slots)
  {
    assert forall v :: v in slots + [ThreadRef(th)] && v.LuaFunction? ==> v in slots;
  }

  /** The middle of luaCont_capture: a new thread with its stack at `addr`,
      pushed on `L`, and the snapshot of frame `s` built in it. */
  method NewSnapshot(L: Thread, s: nat, addr: int) returns (th: Thread)
    requires L.Valid() && s <= L.ci && L.top < L.stack.Length
    modifies L`top, L.stack, ClosureArrays(L.stack[..L.top])
    ensures fresh(th) && th != L && L.top == old(L.top) + 1
    ensures L.stack[..] == old(L.stack[..])[old(L.top) := ThreadRef(th)]
    ensures th.Valid() && th.base == addr
    ensures th.top == L.top && th.stack[..th.top] == old(L.stack[..L.top]) + [ThreadRef(th)]
    ensures th.stack.Length > L.top + 1 + LUA_MINSTACK
    ensures L.top + 1 + LUA_MINSTACK < BASIC_STACK_SIZE ==> th.stack.Length == BASIC_STACK_SIZE
    ensures |th.cis| == s + 1 && th.ci == s && th.nci == s + 1 && th.status == LUA_YIELD
    ensures forall i :: 0 <= i < s ==> th.cis[i] == CopyFrame(L.cis[i], addr - L.base, true)
    ensures th.cis[s] == MarkedForResume(CopyFrame(L.cis[s], addr - L.base, true))
    ensures forall k, j :: 0 <= k < L.top && L.stack[k].LuaFunction? && 0 <= j < L.stack[k].cl.upvals.Length ==>
      var u := old(L.stack[k].cl.upvals[j]);
      (u == null ==> L.stack[k].cl.upvals[j] == null) &&
      (u != null ==> fresh(L.stack[k].cl.upvals[j]) && RehomedFrom(L.stack[k].cl.upvals[j], u, L, L.top, th.stack))
  {
    th := new Thread.Fresh(addr);
    ghost var slots := L.stack[..L.top];
    L.Push(ThreadRef(th));
    assert L.stack[..L.top] == slots + [ThreadRef(th)];
    ClosureArraysPushThread(slots, th);
    SetupThreadForResume(th, L, s);
  }

  /** The part of luaCont_capture after the capture frame `s` is found:
      the snapshot, its registry reference and the continuation object. */
  method CaptureFrame(L: Thread, s: nat, reg: Registry, addr: int) returns (cont: Continuation)
    requires L.Valid() && reg.Valid() && s <= L.ci && L.top < L.stack.Length
    modifies L`top, L.stack, reg, ClosureArrays(L.stack[..L.top])
    ensures L.top == old(L.top) && reg.Valid()
    ensures fresh(cont) && fresh(cont.thread) && cont.thread != L
    ensures cont.tt == VCont && cont.L == L && cont.ref == old(reg.nextRef)
    ensures reg.table == old(reg.table)[Integer(cont.ref) := ThreadRef(cont.thread)]
    ensures L.stack[..] == old(L.stack[..])[L.top := ThreadRef(cont.thread)]
    ensures var th := cont.thread;
      && th.Valid() && th.base == addr
      && th.top == L.top + 1 && th.stack[..th.top] == old(L.stack[..L.top]) + [ThreadRef(th)]
      && th.stack.Length > L.top + 2 + LUA_MINSTACK
      && (L.top + 2 + LUA_MINSTACK < BASIC_STACK_SIZE ==> th.stack.Length == BASIC_STACK_SIZE)
      && |th.cis| == s + 1 && th.ci == s && th.nci == s + 1 && th.status == LUA_YIELD
      && (forall i :: 0 <= i < s ==> th.cis[i] == CopyFrame(L.cis[i], addr - L.base, true))
      && th.cis[s] == MarkedForResume(CopyFrame(L.cis[s], addr - L.base, true))
    ensures forall k, j :: 0 <= k < L.top && L.stack[k].LuaFunction? && 0 <= j < L.stack[k].cl.upvals.Length ==>
      var u := old(L.stack[k].cl.upvals[j]);
      (u == null ==> L.stack[k].cl.upvals[j] == null) &&
      (u != null ==> fresh(L.stack[k].cl.upvals[j])
                     && RehomedFrom(L.stack[k].cl.upvals[j], u, L, L.top + 1, cont.thread.stack))
  {
    var thread := NewSnapshot(L, s, addr);
    var ref := reg.Ref(L);
    cont := new Continuation(L, thread, ref);
  }

  /** luaCont_capture: find the capture frame; when there is one, push a
      new thread (at stack address `addr`) on `L`, build the snapshot in it
      (so the snapshot's last slot is that thread itself), anchor it through a
      registry reference (which pops it) and wrap it in a continuation. */
  method Capture(L: Thread, level: int, reg: Registry, addr: int) returns (cont: Continuation?)
    requires L.Valid() && reg.Valid() && L.top < L.stack.Length
    modifies L`top, L.stack, reg, ClosureArrays(L.stack[..L.top])
    ensures L.top == old(L.top) && reg.Valid()
    ensures cont == null <==> CallerSpec(L.cis, L.ci, level).None?
    ensures cont == null ==>
      && L.stack[..] == old(L.stack[..]) && reg.table == old(reg.table) && reg.nextRef == old(reg.nextRef)
      && forall k, j :: 0 <= k < L.top && L.stack[k].LuaFunction? && 0 <= j < L.stack[k].cl.upvals.Length ==>
           L.stack[k].cl.upvals[j] == old(L.stack[k].cl.upvals[j])
    ensures cont != null ==> IsValid(cont, L) && forall T: Thread :: T != L ==> !IsValid(cont, T)
    ensures cont != null ==>
      && fresh(cont) && fresh(cont.thread) && cont.thread != L
      && cont.tt == VCont && cont.L == L && cont.ref == old(reg.nextRef)
      && reg.table == old(reg.table)[Integer(cont.ref) := ThreadRef(cont.thread)]
      && L.stack[..] == old(L.stack[..])[L.top := ThreadRef(cont.thread)]
    ensures cont != null ==>
      var th, s := cont.thread, CallerSpec(L.cis, L.ci, level).value;
      && th.Valid() && th.base == addr
      && th.top == L.top + 1 && th.stack[..th.top] == old(L.stack[..L.top]) + [ThreadRef(th)]
      && th.stack.Length > L.top + 2 + LUA_MINSTACK
      && (L.top + 2 + LUA_MINSTACK < BASIC_STACK_SIZE ==> th.stack.Length == BASIC_STACK_SIZE)
      && |th.cis| == s + 1 && th.ci == s && th.nci == s + 1 && th.status == LUA_YIELD
      && (forall i :: 0 <= i < s ==> th.cis[i] == CopyFrame(L.cis[i], addr - L.base, true))
      && th.cis[s] == MarkedForResume(CopyFrame(L.cis[s], addr - L.base, true))
    ensures cont != null ==>
      forall k, j :: 0 <= k < L.top && L.stack[k].LuaFunction? && 0 <= j < L.stack[k].cl.upvals.Length ==>
        var u := old(L.stack[k].cl.upvals[j]);
        (u == null ==> L.stack[k].cl.upvals[j] == null) &&
        (u != null ==> fresh(L.stack[k].cl.upvals[j])
                       && RehomedFrom(L.stack[k].cl.upvals[j], u, L, L.top + 1, cont.thread.stack))
  {
    var caller := FindCallerCI(L, level);
    if caller.None? {
      return null;
    }
    cont := CaptureFrame(L, caller.value, reg, addr);
  }

  // ---------------------------------------------------------------------
  // Validity and the resume-based invocation (luaCont_isvalid, luaCont_invoke)
  // ---------------------------------------------------------------------

  /** luaCont_isvalid: the four checks in the order the source makes them. */
  predicate IsValid(cont: Continuation?, L: Thread?)
    reads cont
  {
    cont != null && cont.L == L && cont.tt == VCont && cont.thread != null
  }

  /** luaD_checkstack(dst, n) followed by pushes of src[from], ..., src[from+n-1]. */
  method CheckAndPush(dst: Thread, src: array<Value>, from: int, n: int)
    requires dst.Valid() && 0 <= from && 0 <= n && from + n <= src.Length && src != dst.stack
    modifies dst`stack, dst`top, dst.stack
    ensures dst.Valid() && dst.top == old(dst.top) + n
    ensures dst.stack == old(dst.stack) || fresh(dst.stack)
    ensures dst.stack[..old(dst.top)] == old(dst.stack[..dst.top])
    ensures dst.stack[old(dst.top)..dst.top] == src[from..from + n]
  {
    dst.CheckStack(n);
    var i := 0;
    while i < n
      invariant 0 <= i <= n && dst.top == old(dst.top) + i && dst.stack.Length > old(dst.top) + n
      invariant dst.stack != src && (dst.stack == old(dst.stack) || fresh(dst.stack))
      invariant dst.stack[..old(dst.top)] == old(dst.stack[..dst.top])
      invariant dst.stack[old(dst.top)..dst.top] == src[from..from + i]
    {
      dst.Push(src[from + i]);
      assert dst.stack[old(dst.top)..dst.top] == src[from..from + i] + [src[from + i]];
      i := i + 1;
    }
  }

  /** luaCont_invoke with lua_resume abstracted: the resume answers the
      pair (`status`, `nresults`) and its effect on the snapshot's slots is not
      modelled.  The arguments are taken from the bottom of `L`'s stack, as the
      source does.  Answers None on return, Some(message) when it raises. */
  method Invoke(L: Thread, cont: Continuation?, nargs: int, status: int, nresults: int) returns (err: Option<string>)
    requires L.Valid() && 0 <= nargs <= L.stack.Length
    requires IsValid(cont, L) ==>
      var th := cont.thread;
      && th != L && th.stack != L.stack && th.Valid() && th.top >= 1
      && 0 <= nresults <= th.top + nargs
      && (status != LUA_OK && status != LUA_YIELD ==> L.top < L.stack.Length)
    modifies L`stack, L`top, L.stack
    modifies if cont != null && cont.thread != null then {cont.thread, cont.thread.stack} else {}
    ensures !IsValid(cont, L) ==>
      err == Some(INVALID_CONTINUATION) && L.stack == old(L.stack) && L.top == old(L.top)
      && L.stack[..] == old(L.stack[..])
    ensures !IsValid(cont, L) && cont != null && cont.thread != null ==>
      unchanged(cont.thread) && cont.thread.stack[..] == old(cont.thread.stack[..])
    ensures IsValid(cont, L) ==>
      var th := cont.thread;
      && th.Valid() && th.top == old(th.top) + nargs
      && th.stack[..old(th.top)] == old(th.stack[..th.top])
      && th.stack[old(th.top)..th.top] == old(L.stack[..nargs])
    ensures IsValid(cont, L) && (status == LUA_OK || status == LUA_YIELD) ==>
      && err == None && L.Valid() && L.top == old(L.top) + nresults
      && L.stack[..old(L.top)] == old(L.stack[..L.top])
      && L.stack[old(L.top)..L.top] == cont.thread.stack[..nresults]
    ensures IsValid(cont, L) && status != LUA_OK && status != LUA_YIELD ==>
      && err == Some(ERROR_IN_CONTINUATION) && L.Valid() && L.top == old(L.top) + 1
      && L.stack[..old(L.top)] == old(L.stack[..L.top])
      && L.stack[old(L.top)] == cont.thread.stack[cont.thread.top - 1]
  {
    if !IsValid(cont, L) {
      return Some(INVALID_CONTINUATION);
    }
    var thread := cont.thread;
    CheckAndPush(thread, L.stack, 0, nargs);
    if status == LUA_OK || status == LUA_YIELD {
      CheckAndPush(L, thread.stack, 0, nresults);
      err := None;
    } else {
      L.Push(thread.stack[thread.top - 1]);
      err := Some(ERROR_IN_CONTINUATION);
    }
  }

  // ---------------------------------------------------------------------
  // Multi-shot invocation (cloneThreadForInvoke, luaCont_doinvoke)
  // ---------------------------------------------------------------------

  /** setupClonedClosureUpvalues (defined in the source but never called):
      the clone closure takes over the original's upvalue cells one by one. */
  method ShareUpvalues(clone: LClosure, orig: LClosure)
    requires clone.upvals.Length <= orig.upvals.Length
    modifies clone.upvals
    ensures clone.upvals[..] == old(orig.upvals[..clone.upvals.Length])
  {
    var i := 0;
    while i < clone.upvals.Length
      invariant 0 <= i <= clone.upvals.Length
      invariant clone.upvals[..i] == old(orig.upvals[..i])
      invariant orig.upvals[i..] == old(orig.upvals[i..])
      invariant orig.upvals != clone.upvals ==> orig.upvals[..] == old(orig.upvals[..])
    {
      clone.upvals[i] := orig.upvals[i];
      assert clone.upvals[..i + 1] == clone.upvals[..i] + [old(orig.upvals[i])];
      i := i + 1;
    }
  }

  /** How many frames the clone loop of cloneThreadForInvoke copies from `t`:
      `t.nci` of them, unless the list ends first. */
  function ClonedFrames(t: Thread): nat
    reads t
  {
    if t.nci <= 0 then 0 else Min(t.nci, |t.cis|)
  }

  /** cloneThreadForInvoke: a new thread (stack at `addr`) pushed on `L` and
      anchored by a registry reference (which pops it), holding a copy of
      `orig`'s live slots and of its first `orig.nci` frames relocated without
      touching their status bits; status and nci are copied, nci even when the
      frame loop stopped early.  Closures are copied as references, so their
      upvalue cells are shared with `orig`, which is left as it was. */
  method CloneThread(L: Thread, orig: Thread, reg: Registry, addr: int) returns (clone: Thread, ref: int)
    requires L.Valid() && orig.Valid() && reg.Valid() && L.top < L.stack.Length
    requires orig != L && orig.stack != L.stack
    modifies L`top, L.stack, reg
    ensures fresh(clone) && fresh(clone.stack) && clone.Valid() && clone.base == addr
    ensures L.top == old(L.top) && L.stack[..] == old(L.stack[..])[L.top := ThreadRef(clone)]
    ensures reg.Valid() && ref == old(reg.nextRef) && reg.nextRef == ref + 1
    ensures Integer(ref) !in old(reg.table) && reg.table == old(reg.table)[Integer(ref) := ThreadRef(clone)]
    ensures clone.top == orig.top && clone.stack[..clone.top] == orig.stack[..orig.top]
    ensures clone.stack.Length > orig.top + 1
    ensures orig.top + 1 < BASIC_STACK_SIZE ==> clone.stack.Length == BASIC_STACK_SIZE
    ensures var n := ClonedFrames(orig);
      && |clone.cis| == Max(1, n)
      && (forall i :: 0 <= i < n ==> clone.cis[i] == CopyFrame(orig.cis[i], addr - orig.base, false))
      && clone.ci == (if n == 0 then 0 else n - 1)
    ensures clone.nci == orig.nci && clone.status == orig.status
    ensures unchanged(orig) && orig.stack[..] == old(orig.stack[..])
  {
    clone := new Thread.Fresh(addr);
    L.Push(ThreadRef(clone));
    ref := reg.Ref(L);
    var stackSize := orig.top;
    clone.CheckStack(stackSize);
    CopySlots(clone, orig, stackSize);
    var n := CopyFrames(clone, orig, orig.nci, clone.base - orig.base, false);
    clone.status := orig.status;
    clone.nci := orig.nci;
  }

  /** Every live frame of `t` (base_ci through the current one) lies inside
      `t`'s own stack: its func slot and its top are within the array. */
  ghost predicate FramesInStack(t: Thread)
    reads t
  {
    forall k :: 0 <= k <= t.ci && k < |t.cis| ==>
      0 <= t.cis[k].func - t.base && t.cis[k].top - t.base <= t.stack.Length
  }

  /** The snapshot's stack is only grown to hold the live slots plus
      LUA_MINSTACK, while a copied frame keeps its top offset.  A frame whose
      top lies beyond BASIC_STACK_SIZE in `L` (a Lua function with many
      registers) therefore lies past a snapshot that did not need to grow. */
  lemma SnapshotFramePastStack(th: Thread, L: Thread, s: nat)
    requires s <= th.ci && s < |th.cis| && s < |L.cis|
    requires th.stack.Length == BASIC_STACK_SIZE
    requires th.cis[s] == MarkedForResume(CopyFrame(L.cis[s], th.base - L.base, true))
    requires L.cis[s].top - L.base > BASIC_STACK_SIZE
    ensures !FramesInStack(th)
  {
  }

  /** The clone's stack is only grown to hold the snapshot's live slots, so a
      frame lying inside the snapshot's larger stack can lie past the clone's. */
  lemma CloneFramePastStack(clone: Thread, orig: Thread, i: nat)
    requires FramesInStack(orig) && i <= orig.ci && i < |orig.cis|
    requires i <= clone.ci && i < |clone.cis|
    requires clone.stack.Length == BASIC_STACK_SIZE
    requires clone.cis[i] == CopyFrame(orig.cis[i], clone.base - orig.base, false)
    requires orig.cis[i].top - orig.base > BASIC_STACK_SIZE
    ensures !FramesInStack(clone)
  {
  }

  /** luaV_injectcontext, stated by its effect: `L`'s live slots, frame list,
      current frame and frame count become `th`'s, the frames relocated into
      `L`'s stack. */
  method InjectContext(L: Thread, th: Thread)
    requires L.Valid() && th.Valid() && L != th && L.stack != th.stack
    modifies L`stack, L`top, L`cis, L`ci, L`nci, L.stack
    ensures L.Valid() && (L.stack == old(L.stack) || fresh(L.stack))
    ensures L.top == th.top && L.stack[..L.top] == th.stack[..th.top]
    ensures |L.cis| == |th.cis|
    ensures forall i :: 0 <= i < |th.cis| ==> L.cis[i] == CopyFrame(th.cis[i], L.base - th.base, false)
    ensures L.ci == th.ci && L.nci == th.nci
  {
    L.GrowStack(th.top);
    CopySlots(L, th, th.top);
    var cs, delta := th.cis, L.base - th.base;
    forall i | 0 <= i < |cs| ensures WellFormed(CopyFrame(cs[i], delta, false)) {
      CopyFrameKeepsOffsets(cs[i], 0, delta, false);
    }
    L.cis := seq(|cs|, i requires 0 <= i < |cs| => CopyFrame(cs[i], delta, false));
    L.ci, L.nci := th.ci, th.nci;
  }

  /** The staging loop of luaCont_doinvoke: the arguments at `from` .. are
      saved in a buffer of MAXRESULTS entries, as many as fit. */
  method StageArgs(L: Thread, from: int, n: int) returns (saved: array<Value>)
    requires 0 <= from && 0 <= n && from + n <= L.stack.Length
    ensures fresh(saved) && saved.Length == MAXRESULTS
    ensures saved[..Min(n, MAXRESULTS)] == L.stack[from..from + Min(n, MAXRESULTS)]
  {
    saved := new Value[MAXRESULTS](_ => Nil);
    var i := 0;
    while i < n && i < MAXRESULTS
      invariant 0 <= i <= Min(n, MAXRESULTS)
      invariant saved[..i] == L.stack[from..from + i]
    {
      saved[i] := L.stack[from + i];
      assert saved[..i + 1] == saved[..i] + [saved[i]];
      i := i + 1;
    }
  }

  /** The placing step of luaCont_doinvoke: room for `n` more values plus
      LUA_MINSTACK, the staged values written at `pos` .., and top raised to
      cover them. */
  method PlaceArgs(L: Thread, pos: int, saved: array<Value>, n: int)
    requires L.Valid() && 0 <= pos <= L.top && 0 <= n <= saved.Length && saved != L.stack
    modifies L`stack, L`top, L.stack
    ensures L.Valid() && (L.stack == old(L.stack) || fresh(L.stack))
    ensures L.top == Max(old(L.top), pos + n)
    ensures L.stack[pos..pos + n] == saved[..n]
    ensures forall j :: 0 <= j < old(L.top) && !(pos <= j < pos + n) ==> L.stack[j] == old(L.stack[j])
  {
    L.CheckStack(n + LUA_MINSTACK);
    var i := 0;
    while i < n
      invariant 0 <= i <= n && L.top == old(L.top) && L.stack.Length > L.top + n + LUA_MINSTACK
      invariant saved != L.stack && (L.stack == old(L.stack) || fresh(L.stack))
      invariant forall k :: 0 <= k < i ==> L.stack[pos + k] == saved[k]
      invariant forall j :: 0 <= j < old(L.top) && !(pos <= j < pos + i) ==> L.stack[j] == old(L.stack[j])
    {
      L.stack[pos + i] := saved[i];
      i := i + 1;
    }
    assert L.stack[pos..pos + n] == saved[..n];
    if pos + n > L.top {
      L.top := pos + n;
    }
  }

  /** The call site a trampoline invocation returns to: a Lua frame that
      has executed its call instruction. */
  predicate IsCallSite(f: CallInfo) {
    f.u.LuaData? && 1 <= f.u.savedpc <= |f.u.code|
  }

  /** The slot, relative to stack base `base`, of the call site's result
      register: one past the frame's function slot plus the A field of the
      instruction before the saved pc. */
  function ResultSlot(f: CallInfo, base: int): int
    requires IsCallSite(f)
  {
    f.func - base + 1 + ArgA(f.u.code[f.u.savedpc - 1])
  }

  /** Relocating a call site keeps it a call site with the same result slot
      relative to the new base. */
  lemma ResultSlotRelocates(f: CallInfo, oldBase: int, newBase: int)
    requires IsCallSite(f)
    ensures IsCallSite(CopyFrame(f, newBase - oldBase, false))
    ensures ResultSlot(CopyFrame(f, newBase - oldBase, false), newBase) == ResultSlot(f, oldBase)
  {
  }

  /** What the trampoline reads from a snapshot `t` without checking: the
      current frame of its clone (the last frame copied) is a call site. */
  ghost predicate HasCallSite(t: Thread)
    reads t
  {
    t.Valid() && ClonedFrames(t) >= 1 && IsCallSite(t.cis[ClonedFrames(t) - 1])
  }

  /** Steps 1 to 3 of luaCont_doinvoke once the clone exists: read the result
      register from the clone's call site, inject the clone's context into
      `L`, and place the staged arguments there. */
  method Trampoline(L: Thread, clone: Thread, saved: array<Value>, nargs: int)
    requires L.Valid() && clone.Valid() && L != clone && L.stack != clone.stack && saved != L.stack
    requires 0 <= nargs <= saved.Length && IsCallSite(clone.cis[clone.ci])
    requires 0 <= ResultSlot(clone.cis[clone.ci], clone.base) <= clone.top
    modifies L`stack, L`top, L`cis, L`ci, L`nci, L.stack
    ensures var pos := ResultSlot(clone.cis[clone.ci], clone.base);
      && L.Valid() && L.top == Max(clone.top, pos + nargs)
      && L.stack[pos..pos + nargs] == saved[..nargs]
      && (forall j :: 0 <= j < clone.top && !(pos <= j < pos + nargs) ==> L.stack[j] == clone.stack[j])
    ensures |L.cis| == |clone.cis|
    ensures forall i :: 0 <= i < |clone.cis| ==> L.cis[i] == CopyFrame(clone.cis[i], L.base - clone.base, false)
    ensures L.ci == clone.ci && L.nci == clone.nci
  {
    var frame := clone.cis[clone.ci];
    var ra := ArgA(frame.u.code[frame.u.savedpc - 1]);
    InjectContext(L, clone);
    ResultSlotRelocates(frame, clone.base, L.base);
    var pos := L.cis[L.ci].func - L.base + 1 + ra;
    assert L.stack[..L.top] == clone.stack[..clone.top];
    PlaceArgs(L, pos, saved, nargs);
    forall j | 0 <= j < clone.top && !(pos <= j < pos + nargs) ensures L.stack[j] == clone.stack[j] {
      assert clone.stack[..clone.top][j] == clone.stack[j];
    }
  }

  /** Injecting a clone puts the snapshot's first `n` frames where a single
      relocation by the summed offset would. */
  lemma {:induction false} InjectedClone(orig: seq<CallInfo>, n: nat, clone: seq<CallInfo>, inj: seq<CallInfo>,
                                         d1: int, d2: int)
    requires n <= |orig| && n <= |clone| && |inj| == |clone|
    requires forall i :: 0 <= i < n ==> clone[i] == CopyFrame(orig[i], d1, false)
    requires forall i :: 0 <= i < |clone| ==> inj[i] == CopyFrame(clone[i], d2, false)
    ensures forall i :: 0 <= i < n ==> inj[i] == CopyFrame(orig[i], d1 + d2, false)
  {
    forall i | 0 <= i < n ensures inj[i] == CopyFrame(orig[i], d1 + d2, false) {
      CopyFrameTwice(orig[i], d1, d2);
    }
  }

  /** Taking a reference and releasing it again leaves the registry as it
      was. */
  lemma RefReleased(table: map<Value, Value>, ref: int, v: Value)
    requires ref >= 0 && Integer(ref) !in table
    ensures table[Integer(ref) := v] - {Integer(ref)} == table
  {
  }

  datatype Outcome = Normal(n: int) | Raised(msg: string)

  /** The first half of a valid luaCont_doinvoke: the clone of `orig`
      (anchored by a new reference) and the staged arguments above `func`. */
  method CloneAndStage(L: Thread, orig: Thread, func: int, reg: Registry, addr: int)
    returns (clone: Thread, ref: int, saved: array<Value>)
    requires L.Valid() && reg.Valid() && 0 <= func < L.top < L.stack.Length && L.top - (func + 1) <= MAXRESULTS
    requires orig != L && orig.stack != L.stack && HasCallSite(orig)
    modifies L`top, L.stack, reg
    ensures fresh(clone) && fresh(clone.stack) && fresh(saved) && clone.Valid()
    ensures clone.base == addr && saved != L.stack && saved != clone.stack
    ensures L.top == old(L.top) && L.stack[..L.top] == old(L.stack[..L.top])
    ensures saved.Length == MAXRESULTS && saved[..L.top - (func + 1)] == old(L.stack[func + 1..L.top])
    ensures reg.Valid() && ref == old(reg.nextRef) && ref >= 0 && reg.nextRef == ref + 1
    ensures Integer(ref) !in old(reg.table) && reg.table == old(reg.table)[Integer(ref) := ThreadRef(clone)]
    ensures clone.top == orig.top && clone.stack[..clone.top] == orig.stack[..orig.top]
    ensures var n := ClonedFrames(orig);
      && |clone.cis| == n && clone.ci == n - 1 && clone.nci == orig.nci
      && (forall i :: 0 <= i < n ==> clone.cis[i] == CopyFrame(orig.cis[i], addr - orig.base, false))
      && IsCallSite(clone.cis[clone.ci])
      && ResultSlot(clone.cis[clone.ci], clone.base) == ResultSlot(orig.cis[n - 1], orig.base)
    ensures unchanged(orig) && orig.stack[..] == old(orig.stack[..])
  {
    ghost var args := L.stack[func + 1..L.top];
    clone, ref := CloneThread(L, orig, reg, addr);
    assert L.stack[func + 1..L.top] == args;
    saved := StageArgs(L, func + 1, L.top - (func + 1));
    ResultSlotRelocates(orig.cis[ClonedFrames(orig) - 1], orig.base, addr);
  }

  /** A valid luaCont_doinvoke of snapshot `orig` called at slot `func`. */
  method InvokeSnapshot(L: Thread, orig: Thread, func: int, reg: Registry, addr: int) returns (nargs: int)
    requires L.Valid() && reg.Valid() && 0 <= func < L.top < L.stack.Length && L.top - (func + 1) <= MAXRESULTS
    requires orig != L && orig.stack != L.stack && HasCallSite(orig)
    requires 0 <= ResultSlot(orig.cis[ClonedFrames(orig) - 1], orig.base) <= orig.top
    modifies L`stack, L`top, L`cis, L`ci, L`nci, L.stack, reg
    ensures var n := ClonedFrames(orig);
      var pos := ResultSlot(orig.cis[n - 1], orig.base);
      && nargs == old(L.top) - (func + 1) && L.Valid()
      && L.top == Max(orig.top, pos + nargs)
      && L.stack[pos..pos + nargs] == old(L.stack[func + 1..L.top])
      && (forall j :: 0 <= j < orig.top && !(pos <= j < pos + nargs) ==> L.stack[j] == orig.stack[j])
      && |L.cis| == n
      && (forall i :: 0 <= i < n ==> L.cis[i] == CopyFrame(orig.cis[i], L.base - orig.base, false))
      && L.ci == n - 1 && L.nci == orig.nci
    ensures reg.Valid() && reg.table == old(reg.table) && reg.nextRef == old(reg.nextRef) + 1
    ensures unchanged(orig) && orig.stack[..] == old(orig.stack[..])
  {
    nargs := L.top - (func + 1);
    var clone, cloneRef, saved := CloneAndStage(L, orig, func, reg, addr);
    Trampoline(L, clone, saved, nargs);
    ghost var table0 := old(reg.table);
    if cloneRef != LUA_NOREF {
      reg.Unref(cloneRef);
    }
    RefReleased(table0, cloneRef, ThreadRef(clone));
    InjectedClone(orig.cis, ClonedFrames(orig), clone.cis, L.cis, addr - orig.base, L.base - addr);
  }

  /** luaCont_doinvoke: the continuation called at slot `func` of `L` (with
      the arguments above it) is validated, its snapshot cloned (the clone's
      stack at `addr`), the arguments staged, the clone's context injected
      into `L`, the arguments written at the call site's result register and
      the clone's reference released.  The snapshot itself is not touched,
      so the continuation can be invoked again. */
  method DoInvoke(L: Thread, func: int, reg: Registry, addr: int) returns (r: Outcome)
    requires L.Valid() && reg.Valid() && 0 <= func < L.top < L.stack.Length
    requires L.stack[func].ContFunction? && L.top - (func + 1) <= MAXRESULTS
    requires var cont := L.stack[func].cont;
      IsValid(cont, L) ==>
        && cont.thread != L && cont.thread.stack != L.stack && HasCallSite(cont.thread)
        && var t := cont.thread;
           0 <= ResultSlot(t.cis[ClonedFrames(t) - 1], t.base) <= t.top
    modifies L`stack, L`top, L`cis, L`ci, L`nci, L.stack, reg
    ensures var cont := old(L.stack[func].cont);
      !IsValid(cont, L) ==>
        && r == Raised(INVALID_CONTINUATION)
        && L.stack == old(L.stack) && L.stack[..] == old(L.stack[..]) && L.top == old(L.top)
        && L.cis == old(L.cis) && L.ci == old(L.ci) && L.nci == old(L.nci)
        && reg.table == old(reg.table) && reg.nextRef == old(reg.nextRef)
    ensures var cont := old(L.stack[func].cont);
      IsValid(cont, L) ==>
        var t, nargs := cont.thread, old(L.top) - (func + 1);
        var n := ClonedFrames(t);
        var pos := ResultSlot(t.cis[n - 1], t.base);
        && r == Normal(nargs) && L.Valid() && unchanged(t) && t.stack[..] == old(t.stack[..])
        && L.top == Max(t.top, pos + nargs)
        && L.stack[pos..pos + nargs] == old(L.stack[func + 1..L.top])
        && (forall j :: 0 <= j < t.top && !(pos <= j < pos + nargs) ==> L.stack[j] == t.stack[j])
        && |L.cis| == n
        && (forall i :: 0 <= i < n ==> L.cis[i] == CopyFrame(t.cis[i], L.base - t.base, false))
        && L.ci == n - 1 && L.nci == t.nci
        && reg.Valid() && reg.table == old(reg.table) && reg.nextRef == old(reg.nextRef) + 1
  {
    var cont := L.stack[func].cont;
    if !IsValid(cont, L) {
      return Raised(INVALID_CONTINUATION);
    }
    var nargs := InvokeSnapshot(L, cont.thread, func, reg, addr);
    r := Normal(nargs);
  }

  /** luaCont_free: the snapshot's registry reference is released unless it
      is LUA_NOREF (the object's memory is not modelled). */
  method Free(cont: Continuation, reg: Registry)
    requires reg.Valid()
    modifies reg`table
    ensures reg.Valid()
    ensures reg.table == if cont.ref >= 0 then old(reg.table) - {Integer(cont.ref)} else old(reg.table)
  {
    if cont.ref != LUA_NOREF {
      reg.Unref(cont.ref);
    }
  }
}
