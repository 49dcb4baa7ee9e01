# Continuations for a Lua 5.4 interpreter: a Dafny model

This project models the core of a continuation extension to the Lua 5.4
interpreter and proves properties of that model. The core is `lcont.c` and `lcontlib.c`.

- `lua_objects.dfy` (module `LuaObjects`) holds the interpreter objects the
  core reads and writes:
  - tagged values, closed-over variables (`UpVal`), Lua closures and call frames (`CallInfo`);
  - execution contexts (`Thread`: a value-stack array, a top index, the frame list, `nci`, `status`);
  - continuation objects and the registry, with `luaL_ref`/`luaL_unref`/`lua_rawset`.
- `lcont.dfy` (module `Cont`) is the snapshot engine, written as imperative methods over those objects:
  - finding the capture frame (`findCallerCI`);
  - building a snapshot thread (`setupThreadForResume`): a slot copy, a frame-chain copy relocated by one delta, status bits, and upvalue rehoming;
  - `luaCont_capture`, `luaCont_isvalid`, and `luaCont_invoke` with the resume abstracted;
  - cloning a snapshot (`cloneThreadForInvoke`);
  - the trampoline invocation (`luaCont_doinvoke`) and `luaCont_free`.

  Each method is proved against its specification: a pure function such as `CallerSpec` or `CopyFrame`, or an explicit statement of the new state.
- `lcontlib.dfy` (module `ContLib`) is the escape-continuation protocol:
  - `k_escape`, `callec_runner` under the protected run, `luaB_callec` and its alias `luaB_callcc`;
  - one C function's stack view with push, pop, insert, remove and settop;
  - the registry as a map in which activation `lj` owns two keys: `lj` for the result table and `lj + 1` for the flag.

  The non-local jump is a value, `Jump`/`Run`/`CallResult`. The methods are proved equal to the pure functions `KEscapeSpec`, `RunSpec` and `CallecSpec`. Lemmas about these functions state the protocol's guarantees.

Where the code and its description disagree, the model follows the code:

- `callcc` is only an alias of `callec` (lcontlib.c:21). It is not a full, heap-escaping continuation capture.
- The clone copies `min(nci, length of the frame list)` frames and still sets `nci` to the original's value. Its frame count therefore matches the original only when the list is at least `nci` long. For a snapshot built by `setupThreadForResume` the list is exactly `nci` long.
- The clone keeps the frames' status bits as they are, and cloning does not rehome upvalues. The clone's slots hold the same closure references as the original's, so the upvalue cells are shared.
- `luaCont_invoke` reads its arguments from the bottom of `L`'s stack (lcont.c:281), not from above its function slot.
- In the same way, `luaCont_invoke` copies back the snapshot's slots 0 .. nresults-1, the bottom of its stack (lcont.c:298-301), not the values the resume left on top. With the resume's effect not modelled, those slots are the captured slots followed by the pushed arguments.
- Rehoming replaces the upvalue cells inside the closure objects themselves (lcont.c:175), and the snapshot's slots reference the same closure objects as `L`'s (the slot copy at lcont.c:79 copies references). So the closures still running on `L` lose their open upvalues, and a later capture replaces the cells an earlier snapshot sees. Each snapshot therefore does not get upvalues of its own. `Cont.SetupThreadForResume` and `Cont.Capture` state this effect on the closures in `L`'s slots.
- The frame copies (lcont.c:111-123 and 417-429) do not copy a frame's `nresults` field.
- A copied frame can lie past its new stack. The snapshot's stack is only grown until it holds the live slots plus LUA_MINSTACK (lcont.c:75), and the clone's until it holds the live slots (lcont.c:386). But each frame's `top` is copied with only the offset added (lcont.c:112, 418), and a Lua frame's top is its function slot plus the function's register count, which can reach far above the live slots. For example, a Lua function with 60 registers at slot 1 that captures from register 0 has a copied top 62 slots above the snapshot's base, in a 40-slot snapshot. This breaks the rule that every frame stays inside its own thread's stack. `Cont.SnapshotFramePastStack` and `Cont.CloneFramePastStack` state it, given the stack sizes that `Cont.Capture` and `Cont.CloneThread` guarantee.
- `callec_runner` checks that argument 1 is a function, but `lua_call(L, 1, LUA_MULTRET)` calls the value just below the escape closure. That is callec's last argument (lcontlib.c:75). On a normal return callec returns every value on its stack (lcontlib.c:117), so its arguments other than the called function come back in front of the function's results.
- lcont.h declares `luaCont_doinvoke` as returning `void` (lcont.h:27). The definition returns the argument count (lcont.c:446), and the model follows the definition.

Two lemmas record behaviour of the protocol as written:

- `ContLib.OuterEscapeSkipsCleanup`: a jump to an outer activation passes over the inner `callec` without its cleanup, so the inner flag stays set.
- `ContLib.SameAddressRearms`: the flag is keyed by the jump buffer's address alone. An escape closure kept from a finished `callec` is therefore accepted again by a later `callec` whose buffer has the same address.

## Model

| member | source | states |
|---|---|---|
| LuaObjects.ArgA | lcont.c:488-490 | the A field of an instruction is a register number below 256 |
| LuaObjects.Thread.Fresh | lcont.c:207 | a new thread has a 40-slot stack at the given address, top 1, a single C base frame, `ci` 0, `nci` 0 and status LUA_OK |
| LuaObjects.Thread.GrowStack | lcont.c:386 | the stack holds at least `size` slots afterwards; it never shrinks, its old contents are kept, and a stack already that large is not reallocated |
| LuaObjects.Thread.CheckStack | lcont.c:75 | afterwards more than `n` slots are free above top; the old contents are kept; the stack is reallocated only when fewer were free |
| LuaObjects.Thread.Push | lcont.c:282-283 | the value is stored at the old top and top grows by one; nothing else changes |
| LuaObjects.Registry.Ref | lcont.c:219 | pops the top value; nil gives LUA_REFNIL and no entry; any other value is stored under a reference not in use before |
| LuaObjects.Registry.Unref | lcont.c:563-565 | a non-negative reference's entry is removed; the rest of the registry is unchanged |
| LuaObjects.Registry.RawSet | lcontlib.c:67-69 | a light-userdata key is set, or removed when the value is nil |
| Cont.CallerSpec | lcont.c:34-54 | the frame found is at or below the current one and is a Lua frame |
| Cont.LuaFramesDownFacts | lcont.c:38-47 | the list of Lua frames at or below a frame holds exactly those frames, innermost first |
| Cont.CallerSpecFacts | lcont.c:34-54 | there is no answer exactly when no frame up to the current one is Lua, or when the level exceeds the Lua frames and base_ci is not Lua |
| Cont.SkipCFrames | lcont.c:38-40 | the first loop stops at the innermost Lua frame, or runs off the list when there is none |
| Cont.FindCallerCI | lcont.c:34-54 | the two loops answer `CallerSpec`: the innermost Lua frame for level 1 or less, otherwise the level-th Lua frame counting outward, else base_ci when it is Lua |
| Cont.CopyFrame | lcont.c:111-123 | definition: a frame copy shifts func and top by the stack offset, optionally clears CIST_HOOKED, keeps u2, and for a Lua frame keeps savedpc and nextraargs with trap reset to 0; a C frame's data is copied; also used for the clone's copy (lcont.c:417-429) |
| Cont.MarkedForResume | lcont.c:131-136 | definition: the top frame gains CIST_HOOKYIELD when it is a Lua frame, and is left alone otherwise |
| Cont.CopyFrameKeepsOffsets | lcont.c:110-123 | a relocated frame keeps its func/top offsets from the stack base, its kind, saved pc, code and extra-argument count; trap becomes 0 and CIST_HOOKED is cleared when asked |
| Cont.CopyFrameTwice | lcont.c:417-418 | relocating by one delta (the clone's offset, lcont.c:396) and then another (the injection into `L`, lcont.c:501) is relocating once by their sum |
| Cont.CountChain | lcont.c:89-92 | the chain from base_ci through the capture frame has exactly its index plus one nodes |
| Cont.CopySlots | lcont.c:78-81 | the first `n` slots of the destination equal the source's, the destination top is `n`, and the slots above are unchanged |
| Cont.CopyFrames | lcont.c:97-129 | the copied frames are the source's relocated by `delta` (with or without clearing CIST_HOOKED); their number is `count` or the source list length if smaller; the remaining nodes are untouched |
| Cont.RehomedValue | lcont.c:158-172 | definition: the value a new closed cell receives: the old closed value; for an open upvalue into the copied range of the original stack, the snapshot slot at the same offset; otherwise the slot the open upvalue designates |
| Cont.RehomeClosure | lcont.c:149-174 | every non-null upvalue of the closure is replaced by a new closed cell holding the value the old one designated; null entries stay null |
| Cont.RehomeUpvalues | lcont.c:144-177 | for every Lua closure on the copied stack, every non-null upvalue becomes a new closed cell; the cell holds the snapshot slot at the same index when the old upvalue was open into [bottom, top), else the old target or closed value |
| Cont.CopyContext | lcont.c:62-140 | the snapshot has `L`'s slots and top, and frames 0 .. s relocated by one delta with CIST_HOOKED cleared; the top frame is marked CIST_HOOKYIELD if Lua; it has `ci` s, `nci` s+1 and status LUA_YIELD; its stack has more than its old top + `L.top` + LUA_MINSTACK slots and is kept as it was when it already had that many |
| Cont.SetupThreadForResume | lcont.c:62-182 | the `CopyContext` state, stack size bound included, plus the rehoming of every closure on the copied stack |
| Cont.NewSnapshot | lcont.c:207-216 | the new thread is pushed on `L`, the snapshot built includes that slot, and its stack keeps the initial 40 slots unless the live slots plus LUA_MINSTACK need more |
| Cont.CaptureFrame | lcont.c:205-238 | for a found frame: the new thread is pushed, the snapshot is built in it (its stack 40 slots unless the live slots plus LUA_MINSTACK need more), a new reference anchors it (popping it) and the continuation records `L`, the snapshot, the reference and the tag LUA_VCONT |
| Cont.Capture | lcont.c:189-238 | no continuation exactly when `findCallerCI` finds no frame; then nothing changes (`L`'s slots, the registry and its counter, every closure's upvalues); otherwise the snapshot of the found frame (its stack 40 slots unless the live slots plus LUA_MINSTACK need more), a new registry reference holding it, `L`'s top restored, and a continuation valid for `L` and for no other thread |
| Cont.IsValid | lcont.c:244-254 | definition: a continuation is valid for `L` when it is non-null, belongs to `L`, has tag LUA_VCONT and has a snapshot thread, checked in that order |
| Cont.CheckAndPush | lcont.c:277-284 | after the stack check, the `n` values are pushed in order above the kept old slots |
| Cont.Invoke | lcont.c:261-312 | an invalid continuation raises "invalid continuation" and changes neither `L` nor the snapshot; otherwise the arguments are pushed on the snapshot; on LUA_OK/LUA_YIELD the snapshot's slots 0 .. nresults-1 (the bottom of its stack, not the values above its top) are pushed on `L` in order, else the snapshot's top value is pushed and "error in continuation" is raised |
| Cont.ShareUpvalues | lcont.c:344-365 | the clone closure's upvalue slots become the original's cells |
| Cont.ClonedFrames | lcont.c:399-433 | definition: the number of frames the clone loop copies: none when `nci` is not positive, else `nci` or the length of the frame list if that is smaller (the loop stops when the source list ends) |
| Cont.CloneThread | lcont.c:367-443 | the clone has the original's live slots and top, its first frames relocated with status bits unchanged, its status and `nci`; its stack keeps the initial 40 slots unless the live slots need more; it is anchored by a new reference; the original thread is unchanged |
| Cont.FramesInStack | lcont.c:112 | definition: every live frame's func slot and top lie inside its own thread's stack |
| Cont.SnapshotFramePastStack | lcont.c:75-112 | a snapshot whose stack did not need to grow (40 slots) has a frame past its stack whenever the copied frame's top lies more than 40 slots above `L`'s base |
| Cont.CloneFramePastStack | lcont.c:385-418 | a clone whose stack did not need to grow (40 slots) has a frame past its stack even when every frame of the original lies inside the original's stack |
| Cont.InjectContext | lcont.c:501 | `L`'s slots, top, frame list (relocated into `L`'s stack), current frame and `nci` become the clone's |
| Cont.StageArgs | lcont.c:480-483 | the buffer holds the first min(nargs, MAXRESULTS) arguments in order |
| Cont.PlaceArgs | lcont.c:517-530 | the staged arguments sit at the result position, top covers them, and the other live slots are unchanged |
| Cont.ResultSlot | lcont.c:488-511 | definition: the result position of a call site: its func slot, plus one, plus the A field of the instruction before savedpc, relative to the stack base |
| Cont.ResultSlotRelocates | lcont.c:488-511 | relocation keeps a call site and its result slot relative to the stack base |
| Cont.Trampoline | lcont.c:486-530 | after injection the arguments sit at func+1+A of the clone's current frame, and the other clone slots are as in the clone |
| Cont.CloneAndStage | lcont.c:467-483 | the clone is fresh, anchored by a new reference, has the snapshot's live slots and its first frames relocated to the clone's stack; its current frame is still a call site with the same result slot; the buffer holds the arguments; `L`'s live slots are unchanged |
| Cont.InjectedClone | lcont.c:417-418 | the clone's relocated frames (lcont.c:417-418), injected into `L` (lcont.c:501), are the snapshot's frames relocated once, straight from the snapshot's stack to `L`'s |
| Cont.RefReleased | lcont.c:548-550 | releasing a fresh reference restores the registry as it was before |
| Cont.InvokeSnapshot | lcont.c:467-555 | for a valid continuation: `L` takes the snapshot's frames relocated into its stack, the snapshot's slots under the arguments at the result slot, top = max(snapshot top, result position + nargs); the registry is as before; the snapshot is unchanged |
| Cont.DoInvoke | lcont.c:446-555 | an invalid continuation raises and changes nothing; otherwise frames and slots come from the snapshot relocated into `L`; arg i lands at func+1+RA+i; top = max(snapshot top, result position + nargs); the clone's reference is released; `nargs` is returned; the snapshot is unchanged |
| Cont.Free | lcont.c:561-568 | the continuation's reference is released unless it is LUA_NOREF |
| ContLib.ApiStack.Push | lcontlib.c:67-68 | `lua_push*`: the value is appended at the top; the slots below are unchanged |
| ContLib.ApiStack.Pop | lcontlib.c:111 | `lua_pop(L, n)`: exactly the top `n` values are removed |
| ContLib.ApiStack.Insert | lcontlib.c:98 | `lua_insert`: the top value moves to the given position and the values from there up shift one slot higher, in order |
| ContLib.ApiStack.Remove | lcontlib.c:107 | `lua_remove`: the value at the given position is removed and the values above it shift down, in order |
| ContLib.ApiStack.SetTop | lcontlib.c:99 | `lua_settop`: the stack is cut to the given height, or filled up to it with nils |
| ContLib.ApiStack.RawSetI | lcontlib.c:48 | `lua_rawseti`: the top value is popped and stored as entry `i` of the table at the given position (appended when `i` is one past its end) |
| ContLib.KEscapeSpec | lcontlib.c:23-59 | definition: a call from another thread raises the cross-coroutine error; a non-truthy flag under `lj + 1` raises the "no longer valid" error; otherwise the result key `lj` gets a table of the arguments and a jump to `lj` with LUA_ERRRUN follows |
| ContLib.RunSpec | lcontlib.c:61-81 | definition: a first argument that is not a function ends the run with LUA_ERRRUN and the error on top; otherwise the flag is armed and the called value's outcome decides: its results appended, its error on top, or an escape that returns to this activation, is rejected, or unwinds to another one |
| ContLib.FinishSpec | lcontlib.c:82-118 | definition: after clearing the flag, a table under the result key yields its entries 1 .. rawlen and removes that key; else an error status re-raises the top value; else the whole stack is returned |
| ContLib.CallecSpec | lcontlib.c:78-119 | definition: a run that unwinds to another activation skips the cleanup; every other run is finished by `FinishSpec` |
| ContLib.KeysDistinct | lcontlib.c:31-32 | an activation's result key and flag key differ |
| ContLib.BinSearch | lcontlib.c:92 | the search between a set slot and a nil slot ends on a border |
| ContLib.RawLen | lcontlib.c:92 | the length of the result table is a border of its entries |
| ContLib.RawLenNoNils | lcontlib.c:92 | with no nil entries the length is the number of entries |
| ContLib.KEscape | lcontlib.c:23-59 | answers `KEscapeSpec`: a wrong thread or a non-truthy flag raises and writes nothing; otherwise the result key gets a table of the arguments in order, then a jump with LUA_ERRRUN |
| ContLib.RunWithJump | lcontlib.c:61-81 | answers `RunSpec`: the argument check, flag armed, escape closure passed to the value below it, and the three ways the call ends |
| ContLib.TableOnlyAfterEscape | lcontlib.c:87-90 | a result table after the run means an escape to this activation and the original slots are intact |
| ContLib.ErrorOnTop | lcontlib.c:112-114 | an error status comes with the error value on top |
| ContLib.PushEntries | lcontlib.c:100-105 | entries 1 .. len are pushed in order |
| ContLib.DeliverEscape | lcontlib.c:90-108 | the result entry is cleared and callec's slots are followed by exactly the table's entries 1 .. rawlen |
| ContLib.Finish | lcontlib.c:82-118 | answers `FinishSpec`; on the escape path only the returned entries are left above callec's slots |
| ContLib.Callec | lcontlib.c:78-119 | answers `CallecSpec`; returned values are the top of the stack, and after an escape to this activation they are exactly what is left above callec's own slots |
| ContLib.Callcc | lcontlib.c:21 | callcc has exactly callec's contract, including the stack left after an escape |
| ContLib.RejectedEscapeWritesNothing | lcontlib.c:27-38 | a rejected escape raises the matching message and leaves the registry unchanged |
| ContLib.FlagClearedOnExit | lcontlib.c:82-85 | whenever callec returns or raises, its flag key is absent |
| ContLib.StaleAfterExit | lcontlib.c:31-37 | after callec has finished, its escape closure is rejected on any thread and changes nothing |
| ContLib.RegistryRestored | lcontlib.c:82-96 | when callec finishes, the registry equals the one before less the flag key |
| ContLib.EscapeReturnsArguments | lcontlib.c:40-57 | calling the own escape closure makes callec return the arguments up to the table length, all of them when none is nil |
| ContLib.NormalReturn | lcontlib.c:75 | a normal return yields the slots below the called function followed by its results; with one argument, exactly the results |
| ContLib.ErrorRethrown | lcontlib.c:112-115 | the function's error is re-raised unchanged, and a non-function argument raises the argument error |
| ContLib.CrossContextRejected | lcontlib.c:27-29 | an escape closure from another thread makes callec raise the cross-coroutine error; only the flag key leaves the registry |
| ContLib.StaleEscapeInLaterCall | lcontlib.c:31-37 | a finished activation's escape closure, called inside a later callec at another address, raises "no longer valid" |
| ContLib.OuterEscapeSkipsCleanup | lcontlib.c:81-85 | a jump to another activation unwinds callec with its flag still set and the target's result entry holding the arguments |
| ContLib.SameAddressRearms | lcontlib.c:67-69 | a kept escape closure is accepted by a later callec whose buffer has the same address, and escapes it |

## Left out

- The `fprintf(stderr, ...)` tracing has no effect on state and is not modelled.
- Garbage-collector bookkeeping is not modelled: `allgc`, mark bits and `luaC_objbarrier`. Allocation (`luaM_new`, `lua_newthread`, `luaE_extendCI`) yields fresh objects, and nothing is ever collected or freed.
- `lua_newthread` places the new stack at an address the caller supplies (`addr`).
- `luaL_ref`'s free list is not modelled; references come from a counter.
- Stack reallocation keeps the stack's base address. `luaD_reallocstack`'s correction of frame pointers is not modelled.
- `MAXRESULTS` is taken to be 250. The header that defines it is not part of this model, and `Cont.StageArgs` and the requires of `Cont.DoInvoke` depend on that value.
- LuaObjects.Thread.CheckStack and LuaObjects.Thread.GrowStack: growth never fails. `luaD_checkstack` raises a stack-overflow or memory error once the stack would pass LUAI_MAXSTACK, at lcont.c:75, 279, 297, 386 and 517. Those raises are not modelled during capture, invoke, clone or doinvoke. In particular, a raise at lcont.c:517 would leave `L` already injected and the clone's reference unreleased, and that outcome is not modelled. `lua_newthread`'s NULL branch (lcont.c:208-211) is not modelled either: the model's allocation always succeeds.
- Cont.PlaceArgs and Cont.DoInvoke: the arguments' position is computed as an absolute pointer (lcont.c:511) before `luaD_checkstack(L, nargs + LUA_MINSTACK)` (lcont.c:517), and that pointer is then written through (lcont.c:521) and compared with top (lcont.c:532-533). In Lua 5.4 `luaD_checkstack` may reallocate the stack; the pointer would then point into the old block. With the base address fixed, the model cannot show this hazard. ldo.c is not part of this model.
- `lua_resume` (lcont.c:289) is abstracted to its answer, `status` and `nresults`. Its effect on the snapshot's slots is not modelled.
- `luaV_injectcontext` is not part of this model. `Cont.InjectContext` states its effect as "`L`'s slots and frames become the clone's".
- `GETARG_A` is assumed to use Lua 5.4's layout (7 opcode bits, then 8 bits of A). lopcodes.h is not part of this model.
- `luaCont_iscontinvoke` and `luaCont_getcallfunc` are left out: a comparison against a function pointer defined elsewhere.
- The CallInfo fields `nresults` and the `next`/`previous` pointers are not modelled. The frame list is a sequence indexed from base_ci. A thread's open-upvalue list and to-be-closed upvalues are not modelled either; new closed cells are not linked there.
- `luaD_runwithjump` and `luaD_longjump` are not part of this model. The model assumes that:
  - a jump back leaves callec's slots in place, with an arbitrary `residue` above them;
  - an error leaves the error value on top.
- The called function is abstracted to its final act: return, raise, or call an escape closure. Nested calls, other registry writes and coroutine switches are not modelled.
- Tables are modelled only as the escape table's array part. `lua_rawlen` is `luaH_getn`'s computation for such a table; ltable.c is not part of this model.
- Error values are plain strings. The prefix `luaL_error` adds and the exact text of `luaL_checktype`'s message are not modelled, and `luaG_runerror`'s raise is an outcome value.
- Cont.DoInvoke: requires `nargs <= MAXRESULTS`. The source stages only that many arguments and then copies `nargs`.
- Cont.DoInvoke: also requires that the clone's current frame is a Lua frame past its call instruction, with the result slot inside the snapshot's live slots. The source reads these without checking.
- Cont.Invoke: requires the snapshot to hold at least one slot, the results to lie within its live slots, and, on the error path, a free slot on `L` for the error value (lcont.c:308-309). The source reads and writes these without checking.
- ContLib.Callec: requires that no entry exists under the activation's result key beforehand. The address of a new jump buffer is not in use. With a table there and no results, the source's `lua_insert` would reach past the top.
