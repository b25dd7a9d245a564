# Verified models of the ADCH++ hub and of its Lua runtime

This Dafny project models the parts of ADCH++ whose correctness rests on invariants, and proves them. It covers the Lua 5.1.4
runtime that the hub ships (`lua/`) and the hub's own protocol code (`adchpp/`). `dafny verify dfyconfig.toml` checks all of it.

The models keep the form of the source. Code that changes things step by step is a class or a method with the source's fields
and loops (`FuncState`, `GlobalState`, `Table`, `MatchState`, `DumpState`, `LoadState`, `Client`, `ManagedSocket`, `AdcCommand`,
`TigerHash`, `auxsort`, the loops of `SimpleXML` and `Encoder`); each of its methods is proved against a specification made of
functions and predicates on values, and the main theorems are lemmas about that specification or postconditions of methods that
perform whole runs.

## Parts

* `Basics.dfy`: bytes, optional values, positions in texts, concatenation, powers of two.
* `LuaVM.dfy`, `LuaCode.dfy`, `LuaBoolCode.dfy`, `LuaExprCode.dfy`, `LuaCodeGen.dfy`: the code generator for `and`, `or`, `not` and
  comparisons. Jump lists live in the offset fields of the jumps themselves. `PendingCode` gives unfinished code a meaning: an
  execution falls off its end, or leaves through a jump of the true or the false list. Patching and appending only extend that
  meaning (`Simulate`), and so every operation of lua/lcode.c can be proved on its own. At the end stands a statement about the
  interpreter loop: the emitted code computes the value of the expression, changes no other register in use, and stays within the
  registers that the function reserves.
* `LuaHeap.dfy`, `LuaPhase.dfy`, `LuaWorld.dfy`, `LuaGC.dfy`: the incremental collector, its write barriers, and the string table that
  it sweeps, as a machine over a heap. One invariant holds between any two steps, of the collector or of the program, in any
  order, and from it follows that the program behaves as in a world where nothing is ever freed.
* `LuaNodes.dfy`, `LuaSizes.dfy`, `LuaEntries.dfy`, `LuaTableSteps.dfy`, `LuaTable.dfy`: tables with array and hash part against a
  finite map, the optimal array size, traversal, and the length operator.
* `LuaPattern.dfy`, `LuaPatternText.dfy`, `LuaMatch.dfy`: the backtracking matcher against a declarative matching relation, and against
  the list of all matches of a pattern that is given as data; `find` and `gsub`.
* `LuaSort.dfy`: the quicksort of `table.sort`.
* `LuaChunk.dfy`, `LuaLayout.dfy`, `LuaDump.dfy`: precompiled chunks, their layout byte by byte, and the round trip.
* `ClientStream.dfy`: framing of the client's byte stream. `WriteQueue.dfy`: the queue of asynchronous writes.
* `AdcCommands.dfy`, `XmlText.dfy`, `XmlTree.dfy`, `Base32.dfy`, `TigerHash.dfy`: the codecs and the streaming hash.

## Where the code does less than one might expect

These are results, each with its exact condition:

* A command is parsed back from its printed form if and only if it is `Printable` (`AdcCommands.RoundTrip`). An empty last
  parameter, a command without parameters of the types C, I, H and U, and identifiers with blanks or backslashes are lost.
* An XML value survives printing and loading if and only if its first newline stands at the beginning or behind a carriage return
  (`XmlText.ValueRoundTrip`, `XmlText.BareNewlineIsLost`). Everything that was loaded once survives (`XmlText.LoadedIsStable`).
  The data of a tag with children is not printed, so that trees are compared without it.
* A stream is shut down with bytes still queued if and only if the disconnect that takes effect finds the queue stalled: something
  is queued and no write is in flight (`WriteQueue.ManagedSocket.Run`, `Perform`). This state arises only after an error of the
  stream, and does arise then (`WriteQueue.ManagedSocket.WriteError`, `WriteQueue.ErrorLeavesQueue`).
* `luaH_set` refuses a new key with "table overflow" if and only if its main position is taken, no node is free, and more than 2^26
  keys are left for the hash part at the optimal array size (`LuaTable.Table.Set`). Although the array part may have grown by
  then, no entry is lost (`LuaTableSteps.OverflowKeeps`).
* `fromBase32` stores a byte without room for it if and only if it is given no room at all and a recognised character
  (`Base32.FromBase32`).
* A prototype without a source comes back from a chunk with the source "=?" or that of the prototype around it; all others come
  back as they were (`LuaChunk.LoadedWhole`, `LuaChunk.RoundTripExact`).

## Model

| member | source | states |
|---|---|---|
| `PendingCode.ExecRuns` | lua/lvm.c:403-430 | Code without pending jumps, run to its end by the big-step reading, is run to the same registers by turns of the interpreter loop. |
| `PendingCode.Simulate` | lua/lcode.c:151-160 | Patching pending jumps, stripping or redirecting the values of their tests and appending code only extends what code did before: every execution goes on where it left. |
| `PendingCode.ExitIsMember` | lua/lcode.c:59-66 | An execution leaves unfinished code only through a jump of its true or false list. |
| `JumpLists.ListIsUnique` | lua/lcode.c:100-106 | A jump list threaded through the code is determined by its head: no other jump can be reached from there, and the list is finite. |
| `JumpLists.ListJoin` | lua/lcode.c:185-196 | Linking the last jump of one list to the head of a disjoint one gives the list of both, in order; no other instruction changes. |
| `JumpLists.PatchOneMore` | lua/lcode.c:151-160 | Patching a list one jump at a time patches the set: value-producing tests to one target, all others to the other. |
| `JumpLists.JumpSurvives` | lua/lcode.c:151-160 | Patching a set of jumps leaves every other jump, and its controlling test, as it was. |
| `JumpLists.StepInFrame` | lua/ldo.c:270-295 | An instruction whose registers are below the size of the frame does the same whatever the other registers hold, and changes none of them. |
| `CodeGen.FuncState.FixJump` | lua/lcode.c:80-87 | The offset is set exactly if its absolute value is at most 131071; otherwise it is an error and nothing changes. |
| `CodeGen.FuncState.Concat` | lua/lcode.c:185-196 | The resulting list is the first one and then the second; only members of the first are relinked. |
| `CodeGen.FuncState.NeedValue` | lua/lcode.c:122-128 | True exactly when some jump of the list does not bring a value. |
| `CodeGen.FuncState.PatchTestReg` | lua/lcode.c:131-141 | A value-producing test gets the register, or loses its value if that register is its operand; other code stays. |
| `CodeGen.FuncState.RemoveValues` | lua/lcode.c:144-147 | All tests of the list, and nothing else, lose their values. |
| `CodeGen.FuncState.PatchListAux` | lua/lcode.c:150-160 | Every member of the list that produces a value leads to `vtarget`, every other one to `dtarget`; nothing else changes. |
| `CodeGen.FuncState.DischargeJpc` | lua/lcode.c:163-166 | All jumps that waited for this position lead here without values, and none waits any more. |
| `CodeGen.FuncState.Code` | lua/lcode.c:797-809 | The instruction is appended after the waiting jumps are patched to it. |
| `CodeGen.FuncState.Jump` | lua/lcode.c:59-66 | A new jump at the end heads a list that continues with the jumps that waited for this position. |
| `CodeGen.FuncState.CondJump` | lua/lcode.c:74-77 | A test and its jump are appended; the jump is a list of its own. |
| `CodeGen.FuncState.PatchToHere` | lua/lcode.c:179-182 | The list waits for this position together with those that waited already. |
| `CodeGen.FuncState.CheckStack` | lua/lcode.c:199-206 | It is an error exactly if 250 registers or more would be in use; otherwise the size of the frame becomes the number of registers in use and asked for if it was smaller, and stays as it is if not. |
| `CodeGen.FuncState.ReserveRegs` | lua/lcode.c:209-212 | The registers are in use and fit the frame, or nothing changes and it is an error. |
| `CodeGen.FuncState.DischargeVars` | lua/lcode.c:304-334 | A variable turns into a register or a relocatable instruction with the same value. |
| `CodeGen.FuncState.Discharge2Reg` | lua/lcode.c:343-379 | The value ends in the given register, unless it is a pending comparison, which stays. |
| `CodeGen.FuncState.JumpOnCond` | lua/lcode.c:524-536 | The code leaves through the new jump exactly when the truth of the expression is the condition; a NOT just emitted is undone instead. |
| `CodeGen.FuncState.JumpOnComparison` | lua/lcode.c:516-521 | A pending comparison jumps on the outcome wanted. |
| `CodeGen.FuncState.GoIfTrue` | lua/lcode.c:539-564 | The code falls through exactly when the expression is true; the other exits are the false list. |
| `CodeGen.FuncState.GoIfFalse` | lua/lcode.c:567-591 | The code falls through exactly when the expression is false; the other exits are the true list. |
| `CodeGen.FuncState.CodeNot` | lua/lcode.c:594-626 | The code denotes the negation; true and false lists are interchanged and bring no values. |
| `CodeGen.FuncState.SettleExits` | lua/lcode.c:390-411 | Loads of false and true are emitted only if some exit does not bring a value; then all exits are patched. |
| `CodeGen.FuncState.Exp2Reg` | lua/lcode.c:390-411 | Wherever execution comes from, the value of the expression is in the register and no exit is left. |
| `CodeGen.FuncState.Exp2NextReg` | lua/lcode.c:414-419 | The value is in the next free register. |
| `CodeGen.FuncState.Exp2AnyReg` | lua/lcode.c:422-433 | The value is in some register, and its exits are patched. |
| `CodeGen.FuncState.CodeComp` | lua/lcode.c:681-694 | A pending comparison denotes the comparison of both operands, with `>` and `>=` exchanged and `~=` negated. |
| `CodeGen.FuncState.PosfixAnd` | lua/lcode.c:745-754 | The code of both operands denotes their conjunction, with the exits of both. |
| `CodeGen.FuncState.PosfixOr` | lua/lcode.c:755-761 | The code of both operands denotes their disjunction, with the exits of both. |
| `CodeGen.FuncState.Subexpr` | lua/lparser.c:828-853 | For every expression of local variables, upvalues, comparisons, not, and, or: the code emitted denotes the expression, whatever lists were pending before; an error means that a limit is exceeded. |
| `CodeGen.FuncState.AssignLocal` | lua/lcode.c:472-477 | Running the code from its beginning ends at the instruction behind it, with the value that section 2.5.3 of the Lua 5.1 Reference Manual requires in the destination and all other registers in use unchanged. Every register that any of its instructions reads or writes is below `maxstacksize`. |
| `CodeGen.FuncState.PushExp` | lua/lcode.c:414-419 | The same, for the next free register as the destination; the frame has grown if it had to. |
| `CodeGen.FuncState.constructor` | lua/lparser.c:328-354 | A new function has no code, its parameters are in registers, and its frame has room for them and for at least two. |
| `BoolCode.EvalAgree` | lua/lcode.c:718-742 | The value of an expression depends only on the registers of its local variables. |
| `BoolCode.JumpOn` | lua/lcode.c:524-536 | A test of the value, with its jump behind it, adds exactly the exits with that truth. |
| `BoolCode.Negate` | lua/lcode.c:594-626 | Negating the value, interchanging the exits and dropping their values denotes the negation. |
| `ExprCode.Connect` | lua/lcode.c:745-761 | Code that decides the first operand, followed by code of the second, denotes the connective with the value of the deciding operand. |
| `ExprCode.CompareOperands` | lua/lcode.c:681-694 | Code of two operands in registers, a comparison and a jump denote the comparison, though the second operand's code runs in between. |
| `ExprCode.Finish` | lua/lcode.c:390-411 | With all exits patched to the loads or to the end, every execution falls through with the value in the register. |
| `LuaHeap.ReachIsLeast` | lua/lgc.c:501-512 | What is reachable is the least closed set with the roots in it, wherever some closed set of allocated objects has them. |
| `LuaHeap.ReachIsStable` | lua/lgc.c:407-428 | What is reachable depends on the contents of the reachable objects alone. |
| `LuaHeap.Flip` | lua/lgc.c:525-553 | When nothing is left to traverse, exchanging the whites makes dead exactly objects that nothing live refers to. |
| `LuaHeap.ReachableIsLive` | lua/lgc.h:69-70 | A reachable object is allocated and not dead. |
| `LuaHeap.StepIsSafe` | lua/lgc.c:407-428 | A step that frees only dead objects leaves what is reachable, and its contents, as they were. |
| `LuaHeap.BucketSwept` | lua/lgc.c:572-580 | Sweeping a bucket keeps the lists, the count and the uniqueness of strings, and the buckets before it stay fresh. |
| `LuaHeap.RehashDone` | lua/lstring.c:22-47 | Rehashing every bucket gives a table with the same strings in the buckets of the new size. |
| `LuaPhase.WriteMarking` | lua/lgc.h:86-97 | While marking, a write without barrier can break the tri-colour invariant only if a black object gets a reference to a white one. |
| `LuaPhase.BackMarking` | lua/lgc.c:675-683 | Graying a black table restores the tri-colour invariant that a write has broken. |
| `LuaPhase.ForwardCleans` | lua/lgc.c:662-672 | Marking the new reference makes the written object clean again. |
| `LuaPhase.StackMarking` | lua/lgc.c:297-306 | The main thread is never black, so its stack may be written without a barrier. |
| `LuaPhase.AllocMarking` | lua/lgc.c:686-692 | A new white object keeps the tri-colour invariant in the mark phase. |
| `LuaPhase.LinkString` | lua/lstring.c:50-72 | A new string at the head of its bucket keeps the table, if no equal string was there. |
| `LuaPhase.ReviveKeeps` | lua/lstring.c:85-90 | A dead string given the current white is safe to use again. |
| `LuaGC.GlobalState.MarkObject` | lua/lgc.c:69-112 | The object is not white afterwards; only white objects change colour, and those that must be traversed are queued. |
| `LuaGC.GlobalState.ReallyMarkObject` | lua/lgc.c:69-112 | The same for a white object of any kind, including the recursion through userdata and upvalues. |
| `LuaGC.GlobalState.PropagateMark` | lua/lgc.c:277-320 | One gray object is traversed: the tri-colour invariant holds, and the set of objects still to be traversed or marked shrinks. |
| `LuaGC.GlobalState.PropagateAll` | lua/lgc.c:323-327 | Nothing gray is left to traverse. |
| `LuaGC.GlobalState.MarkRoot` | lua/lgc.c:501-512 | A new mark phase begins; what it marks lies within every closed set that holds the roots. |
| `LuaGC.GlobalState.Atomic` | lua/lgc.c:525-553 | The mark phase ends and the whites are exchanged: what is not dead lies within every closed set that holds the roots. |
| `LuaGC.GlobalState.SweepList` | lua/lgc.c:407-428 | Of the objects passed, exactly the dead ones that are not fixed are freed, the others get the current white, and the list holds the rest. |
| `LuaGC.GlobalState.FreeObj` | lua/lgc.c:378-400 | The object is gone, and the number of strings is kept. |
| `LuaGC.GlobalState.Resize` | lua/lstring.c:22-47 | The table has the new size and the same strings, each in its bucket; nothing happens while strings are swept. |
| `LuaGC.GlobalState.CheckSizes` | lua/lgc.c:431-436 | The table of strings is halved exactly if less than a quarter of it is in use and it is larger than 64; its strings and their order by buckets stay. |
| `LuaGC.GlobalState.SingleStep` | lua/lgc.c:556-607 | Any step of the collector keeps its invariant, what is reachable and its contents, and brings the cycle nearer to its end: the steps still to go, which the state bounds, are fewer. |
| `LuaGC.GlobalState.Step` | lua/lgc.c:610-633 | So many steps keep the invariant, what is reachable or fixed, and the contents of these objects. Each counts: the first one begins to mark, and afterwards the cycle has ended or is nearer to its end by at least as many steps; nothing survives the cycle but what is fixed or within the closed set that was there when it began. |
| `LuaGC.GlobalState.EndOfCycle` | lua/lgc.c:610-620 | As many steps as the state asks for end a cycle that has begun, in any of its states. |
| `LuaGC.GlobalState.WholeCycleFrees` | lua/lgc.c:556-620 | As many steps as the state asks for, from the pause on, end in the pause, and every object is gone that was neither reachable nor fixed when marking began; all others are there, with their contents. |
| `LuaGC.GlobalState.FullGC` | lua/lgc.c:636-659 | Afterwards the allocated objects are exactly those that were reachable or fixed, with their contents. |
| `LuaGC.GlobalState.Write` | lua/lgc.h:86-97 | A write into any object, with its barrier, keeps the collector's invariant in every state, and changes only that object's references. |
| `LuaGC.GlobalState.BarrierF` | lua/lgc.c:662-672 | The forward barrier restores the invariant, by marking while propagating and by whitening while sweeping. |
| `LuaGC.GlobalState.BarrierBack` | lua/lgc.c:675-683 | The backward barrier restores the invariant by graying the table. |
| `LuaGC.GlobalState.SetStack` | lua/lgc.c:256-270 | The stack may be changed at any time without a barrier. |
| `LuaGC.GlobalState.SetMetatable` | lua/lapi.c:697-728 | So may the metatable of a basic type, which the atomic phase marks again. |
| `LuaGC.GlobalState.NewObject` | lua/lgc.c:686-692 | A new object at the head of the list keeps the invariant, also in the middle of a sweep. |
| `LuaGC.GlobalState.NewUserdata` | lua/lstring.c:96-110 | A new userdata behind the main thread keeps it, too. |
| `LuaGC.GlobalState.HashOf` | lua/lstring.c:75-80 | The loop computes the hash of the string. |
| `LuaGC.GlobalState.NewLstr` | lua/lstring.c:75-93 | The result is the one string with these bytes: an existing one, brought back if it was dead, or a new one exactly if none existed; nothing else changes but the size of the table. |
| `LuaGC.GlobalState.AddString` | lua/lstring.c:50-72 | A new string is linked into its bucket; the table doubles exactly if it is full, not too large, and not being swept. |
| `LuaGC.GlobalState.ReachableIsUsable` | lua/lgc.h:69-70 | Under the invariant every object the program can reach is allocated and not dead. |
| `LuaGC.GlobalState.Run` | lua/lgc.c:556-607 | A program cannot tell that there is a collector. Over every interleaving of collector steps, full collections, barriered writes, stack changes, allocations and string creation: every action that is sensible in a world where nothing is ever freed is done, and afterwards the program reaches exactly the objects that it would reach in that world after the same actions, with the same contents, all allocated and not dead; a string that it can reach is not made again, and no two strings are equal. |
| `LuaGC.GlobalState.SeesAll` | lua/lgc.h:69-70 | If a world without a collector shows every allocated object and the same roots, then the same objects are reachable in both, and all of them can be used. |
| `LuaGC.GlobalState.Perform` | lua/lgc.c:556-692 | One action does in the heap what it does in such a world. The steps of the collector change nothing there, and each brings the cycle nearer to its end; a full collection leaves exactly what is reachable or fixed. |
| `LuaGC.GlobalState.constructor` | lua/lstate.c:143-190 | A new state satisfies the invariant, and everything in it is reachable. |
| `LuaNodes.WalkRanks` | lua/ltable.c:469-491 | Along a chain the ranks grow, so chains have no cycles. |
| `LuaNodes.RekeyKeeps` | lua/ltable.c:399-429 | A new key at an empty main position keeps all chains, whatever other chain runs through that node. |
| `LuaNodes.ChainKeeps` | lua/ltable.c:418-425 | A new key at a free node, linked behind its main position, keeps all chains. |
| `LuaNodes.MoveKeeps` | lua/ltable.c:409-417 | Moving a colliding node out of a main position that is not its own keeps all chains, and every key reachable from its main position. |
| `LuaSizes.CountOne` | lua/ltable.c:211-219 | A key is counted in the slice of its logarithm and in no other. |
| `LuaSizes.NoneLarger` | lua/ltable.c:189-208 | When the loop stops early no larger size can be more than half full. |
| `LuaSizes.ComputeSizes` | lua/ltable.c:189-208 | The size is the largest power of two n, or 0, such that more than half of 1..n is in use, and the count is that of the keys in 1..n. |
| `LuaEntries.EntriesUpdate` | lua/ltable.c:494-505 | Tables whose values differ in one key stand for maps that differ in that key. |
| `LuaEntries.FullWhenUsed` | lua/ltable.c:382-388 | Every node has a key exactly when as many keys were set as there are nodes. |
| `LuaEntries.HashedCount` | lua/ltable.c:333-349 | For any array size, the keys are those of the array part and those left for the hash part. |
| `LuaTableSteps.OverflowKeeps` | lua/ltable.c:333-349 | When the hash part of a rehash overflows after the array part has grown, no entry is lost: if the grown array covered a key of the hash part, the hash part would not have overflowed. |
| `LuaTableSteps.OverflowsWhen` | lua/ltable.c:272-294 | Too many keys for the hash part: more than 2^26 at the optimal array size, which is unique. |
| `LuaTableSteps.Distinct` | lua/ltable.c:162-179 | Different positions with values have different keys. |
| `LuaTable.Table.New` | lua/ltable.c:358-371 | A new table is empty and has room for the given numbers of elements, unless the size overflows. |
| `LuaTable.Table.GetFreePos` | lua/ltable.c:382-388 | A free node, or none exactly because every node has a key. |
| `LuaTable.Table.FindNode` | lua/ltable.c:481-488 | The node with the key, or none exactly because no node has it. |
| `LuaTable.Table.Get` | lua/ltable.c:469-491 | The value of the key in the finite map that the table stands for, nil if it has none. |
| `LuaTable.Table.Collide` | lua/ltable.c:399-429 | With a free node the new key is placed and the chains and contents are kept. |
| `LuaTable.Table.FindPrevious` | lua/ltable.c:409-412 | The node before the colliding one in its chain. |
| `LuaTable.Table.NewKey` | lua/ltable.c:399-429 | The key has a place and the map is unchanged; when a node is free there is no rehash, so that the recursion through `luaH_set` and `rehash` ends. It overflows exactly if a rehash is needed (main position taken, no node free) and the keys with the new one leave too many for the hash part at the optimal array size; the map is kept then, too. |
| `LuaTable.Table.SetSlot` | lua/ltable.c:494-505 | A place for the value of the key, with the map unchanged; nil and NaN keys are refused and change nothing; it overflows exactly as `newkey` does. |
| `LuaTable.Table.Set` | lua/ltable.c:494-505 | The map is updated in that key, or the key removed, over any collisions, node moves and rehashes; every error keeps the map and the invariant, and an overflow happens exactly if a rehash is needed and leaves too many keys for the hash part at the optimal array size. |
| `LuaTable.Table.NumUseArray` | lua/ltable.c:222-244 | The counts of the array part by slices, and their sum. |
| `LuaTable.Table.CountInt` | lua/ltable.c:211-219 | The key is counted if it may live in an array part. |
| `LuaTable.Table.NumUseHash` | lua/ltable.c:247-260 | The counts with the integer keys of the hash part, and the number of all its keys. |
| `LuaTable.Table.Rehash` | lua/ltable.c:333-349 | The map is preserved, and there is a place for the extra key without another rehash, unless too many keys are left for the hash part at the optimal array size: then, and only then, it overflows. |
| `LuaTable.Table.CountKeys` | lua/ltable.c:333-348 | The optimal array size for the keys with the extra one, and the number of keys left for the hash part. |
| `LuaTable.Table.SetNodeVector` | lua/ltable.c:272-294 | Free nodes, at least as many as asked for, or an overflow exactly when the size has too many bits. |
| `LuaTable.Table.Resize` | lua/ltable.c:297-324 | Every entry is inserted again without any rehash, and the map is preserved; if the hash part would be too large the array part has only grown and the nodes are untouched. |
| `LuaTable.Table.RemoveEntry` | lua/lgc.c:62-66 | The key becomes a dead key exactly if it is an object of the collector; chains and map are kept. |
| `LuaTable.Table.FindIndex` | lua/ltable.c:137-159 | The position of a key, also of one that was removed since; it fails exactly when no node has or had the key. |
| `LuaTable.Table.Next` | lua/ltable.c:162-179 | The first entry with a value behind the key's position, or the end exactly when none is left. |
| `LuaTable.Table.Traverse` | lua/ltable.c:162-179 | From nil on, with existing fields assigned to or cleared and keys collected between the steps: no key is visited twice, each visit gives the value of that moment, and every key that is there at the end was visited. |
| `LuaTable.Table.GetN` | lua/ltable.c:560-576 | The length is a border: zero or the index of a value, followed by an index without one. |
| `LuaTable.Table.UnboundSearch` | lua/ltable.c:532-553 | So is the result of the search beyond the array part, with its fall back to a linear search. |
| `LuaPattern.FirstTells` | lua/lstrlib.c:365-440 | For every pattern and capture state: the search fails only if no match exists in the declarative relation, and a match it finds is one. |
| `LuaPattern.SearchIsComplete` | lua/lstrlib.c:365-440 | Without captures to begin with, `match` returns NULL exactly when no end position satisfies the relation of section 5.4.1 of the Lua 5.1 Reference Manual, otherwise a legal end. |
| `LuaPattern.RunIsLongest` | lua/lstrlib.c:301-305 | The first loop of `max_expand` counts the longest run of the item. |
| `LuaPattern.LongestIsGreedy` | lua/lstrlib.c:301-313 | The repetition chosen is the longest after which the rest of the pattern matches. |
| `LuaPattern.ShortestIsLazy` | lua/lstrlib.c:316-326 | The repetition chosen is the shortest after which the rest of the pattern matches. |
| `LuaPattern.WellFormedIsSafe` | lua/lstrlib.c:186-223 | A pattern that is well formed by itself raises no error on any subject. |
| `LuaPattern.ClassMeans` | lua/lstrlib.c:226-243 | The characters that each of the classes `%a` to `%z` accepts, by their codes. |
| `LuaPattern.ClassComplement` | lua/lstrlib.c:242 | A class letter in upper case accepts exactly what the one in lower case does not. |
| `LuaPattern.ClassOther` | lua/lstrlib.c:240 | Any other character accepts only itself. |
| `LuaPatternText.ItemsMean` | lua/lstrlib.c:245-265 | A set is the union of its items: ranges with both ends, classes and single characters; and it ends at its bracket. |
| `LuaPatternText.SetMeans` | lua/lstrlib.c:245-277 | `[...]` accepts what some of its items accepts, and `[^...]` accepts exactly the rest. |
| `LuaPatternText.BalanceMeans` | lua/lstrlib.c:281-298 | `%bxy` matches exactly from an x up to where as many y as x have come for the first time. |
| `LuaPatternText.FirstIsBest` | lua/lstrlib.c:365-440 | From any place of the spelling of a pattern and after any captures, `match` finds the first of the matches of what is left of the pattern, in the order of preference. |
| `LuaPatternText.BestOfSpelling` | lua/lstrlib.c:365-440 | For every pattern given as data (items with any suffix, captures, balances, frontiers, back references, an end anchor): on its spelling `match` raises no error and finds the first in the list of all its matches in the order of preference, with the captures, or nothing exactly if the list is empty. The list is defined without reference to the matcher. |
| `LuaPatternText.SpellingIsWellFormed` | lua/lstrlib.c:186-223 | Every such spelling is a well-formed pattern. |
| `LuaMatch.ClassEndOf` | lua/lstrlib.c:202-223 | The end of a pattern item, or an error for a malformed one. |
| `LuaMatch.MatchBracketClass` | lua/lstrlib.c:245-265 | Membership in a set of classes, ranges and characters, or in its complement. |
| `LuaMatch.MatchBalance` | lua/lstrlib.c:281-298 | The end of the balanced string, if there is one. |
| `LuaMatch.MatchState.Match` | lua/lstrlib.c:365-440 | The result and captures are those of the specified search; a failed match has restored the level and every capture below it; it ends for all patterns. |
| `LuaMatch.MatchState.MaxExpand` | lua/lstrlib.c:301-313 | The loops agree with the greedy search. |
| `LuaMatch.MatchState.MinExpand` | lua/lstrlib.c:316-326 | The loop agrees with the lazy search. |
| `LuaMatch.MatchState.StartCapture` | lua/lstrlib.c:329-340 | A capture is opened for the rest of the match and undone if that fails; a 33rd is an error. |
| `LuaMatch.MatchState.EndCapture` | lua/lstrlib.c:343-351 | The last open capture is closed for the rest of the match and reopened if that fails. |
| `LuaMatch.MatchState.CaptureToClose` | lua/lstrlib.c:194-199 | The last unfinished capture. |
| `LuaMatch.MatchState.CheckCapture` | lua/lstrlib.c:186-191 | The capture a back reference names, unless it is missing or unfinished. |
| `LuaMatch.FindAux` | lua/lstrlib.c:495-535 | The leftmost match from the initial position on; none exactly when no position matches. |
| `LuaMatch.Gsub` | lua/lstrlib.c:644-680 | The result is the subject with the matches replaced, in order, without overlap and each once, at most as many as asked for; all positions up to the end of the last match, and to the end of the subject if neither the limit nor an anchor ended the loop, that are not in a match were tried and do not match; an anchored pattern is tried at the beginning only. |
| `LuaMatch.SelfReplacement` | lua/lstrlib.c:661-674 | Everything outside the matches is copied once: replacing each match by itself gives the subject back. |
| `LuaSort.OrderThree` | lua/ltablib.c:196-216 | The first, middle and last element are put in order. |
| `LuaSort.Scan` | lua/ltablib.c:226-234 | The scans stop inside the range: an index never leaves it, and the order function is never found invalid. |
| `LuaSort.Partition` | lua/ltablib.c:218-243 | The elements are shuffled so that those up to the pivot are at most it and those from it on at least it. |
| `LuaSort.AuxSort` | lua/ltablib.c:193-254 | For every strict weak order: a sorted permutation of the range, nothing else touched, no error. Fewer than 2^n elements are sorted with at most n calls inside each other, since every nested call has a smaller n. |
| `LuaSort.Sort` | lua/ltablib.c:256-264 | The whole list is sorted and a permutation of what it was, within the room that the source makes for nested calls: 40 for less than 2^40 elements. |
| `LuaChunk.OfLeLe` | lua/lundump.c:54-67 | An integer is the same after it was written as bytes and read, if it fits. |
| `LuaChunk.StringReads` | lua/lundump.c:76-88 | A string, or none, is read as it was written. |
| `LuaChunk.ConstantsRead` | lua/lundump.c:100-126 | Constants are read as they were written. |
| `LuaChunk.DebugReads` | lua/lundump.c:137-159 | Debug information is read as it was written, exactly when no program counter in it is negative. |
| `LuaChunk.ProtoReads` | lua/lundump.c:163-181 | A written prototype is read back, up to its last byte, exactly when it is loadable; a source left out because it is the parent's is found again. |
| `LuaChunk.RoundTrip` | lua/lundump.c:195-209 | Undump inverts dump and reads exactly the dumped bytes, whatever follows, exactly when the prototype is loadable; otherwise it fails. |
| `LuaChunk.LoadableMeans` | lua/lundump.c:163-181 | Loadable means: nested no deeper than the limit, no negative integer, and every nested prototype accepted by the code check. |
| `LuaChunk.RoundTripExact` | lua/ldump.c:129-141 | Without stripping the same prototype comes back if and only if every prototype knows its source, it is nested no deeper than the limit, has no negative integer and is accepted by the code check. |
| `LuaChunk.RoundTripStripped` | lua/ldump.c:111-141 | A stripped chunk gives the prototype without debug information and with source "=?" throughout. |
| `LuaLayout.ProtoSpells` | lua/ldump.c:61-141 | A prototype lies at a place of a byte string exactly if its text stands there: source, head (first and last line, upvalues, parameters, flag, registers), code, constants with the tags 0, 1, 3 and 4, prototypes, lines, local variables, upvalues, each integer in four bytes and each size in eight, the low byte first. |
| `LuaLayout.ChunkIsLayout` | lua/ldump.c:143-164 | A byte string begins with the chunk of a function exactly if it begins with the twelve bytes of the header and a prototype in this layout. |
| `LuaLayout.ChunkLoads` | lua/lundump.c:163-227 | A byte string in this layout is loaded as the function that it holds, exactly if every prototype has a source, it is nested no deeper than 200, has no negative integer and is accepted by the code check. |
| `LuaLayout.Truncated` | lua/lundump.c:43-52 | Every beginning of a chunk that loads, but the whole of it, is refused for its end. |
| `LuaLayout.NoChunk` | lua/lundump.c:183-193 | Whatever does not begin with the twelve bytes of the header is refused. |
| `LuaLayout.Refused` | lua/lundump.c:61-181 | Integers from 2^31 on, other tags of constants, and a nesting of more than 200 calls are refused. |
| `LuaDump.DumpState.DumpBlock` | lua/ldump.c:29-37 | After an error nothing more is written. |
| `LuaDump.DumpState.DumpString` | lua/ldump.c:61-74 | The length with the final zero and the bytes, or a zero length for no string. |
| `LuaDump.DumpState.DumpConstants` | lua/ldump.c:80-109 | The constants and the nested prototypes are written. |
| `LuaDump.DumpState.DumpDebug` | lua/ldump.c:111-127 | The debug information is written, or empty lists when stripping. |
| `LuaDump.DumpState.DumpFunction` | lua/ldump.c:129-141 | A whole prototype is written, or a beginning of it if the writer fails. |
| `LuaDump.DumpState.Dump` | lua/ldump.c:153-164 | The chunk is written, or the writer's error is returned and a beginning of the chunk is written. |
| `LuaDump.LoadState.LoadInt` | lua/lundump.c:61-67 | The integer, or an error for a negative one or the end of the input. |
| `LuaDump.LoadState.LoadString` | lua/lundump.c:76-88 | The string, or none, or an error at the end of the input. |
| `LuaDump.LoadState.LoadConstant` | lua/lundump.c:109-127 | The constant, or an error for an unknown tag. |
| `LuaDump.LoadState.LoadProtoList` | lua/lundump.c:128-134 | The nested prototypes, with the depth counter restored. |
| `LuaDump.LoadState.LoadDebug` | lua/lundump.c:137-159 | The debug information. |
| `LuaDump.LoadState.LoadFunction` | lua/lundump.c:163-181 | The prototype or the error of the specified reader, for every input. |
| `LuaDump.LoadState.Undump` | lua/lundump.c:195-209 | The chunk or the error of the specified reader, for every input. |
| `ClientStream.FeedThen` | adchpp/Client.cpp:91-158 | Feeding a stream in two parts is feeding it whole. |
| `ClientStream.FeedData` | adchpp/Client.cpp:96-100 | Data mode takes exactly the bytes asked for, newlines included. |
| `ClientStream.Conservation` | adchpp/Client.cpp:91-158 | Every byte taken before a disconnect goes to exactly one line, bad line, blank line, data byte or the buffer, in order. |
| `ClientStream.FeedStops` | adchpp/Client.cpp:91-158 | After a disconnect nothing is delivered. |
| `ClientStream.Client.OnData` | adchpp/Client.cpp:91-158 | A chunk has the effect of its bytes fed one after the other. |
| `ClientStream.Client.TakeData` | adchpp/Client.cpp:96-100 | In data mode the handler gets what it still wants of the chunk. |
| `ClientStream.Client.EndOfLine` | adchpp/Client.cpp:127-155 | A complete line is delivered, refused, dropped if blank, or ends the connection if too long; a line whose handler fails to parse it is reported as a bad one after what the handler did. |
| `ClientStream.Client.OnChunks` | adchpp/Client.cpp:91-158 | Any split of a stream into chunks has the same effect. |
| `WriteQueue.Offer` | adchpp/SocketManager.cpp:97-116 | What is offered to the transport is a beginning of the queue, not empty: one buffer whole, or of several at most 64 and 1024 bytes. |
| `WriteQueue.ManagedSocket.Write` | adchpp/ManagedSocket.cpp:57-80 | A buffer is queued as a whole or refused as a whole, exactly as its size, the queue, the limit and the time of the last overflow tell; one that is accepted over the limit is noted with its time; a connection with an overflow noted too long ago ends. |
| `WriteQueue.ManagedSocket.PrepareWrite` | adchpp/ManagedSocket.cpp:110-119 | If something is queued exactly one write is in flight; exactly a write that has hung for more than a minute disconnects. |
| `WriteQueue.ManagedSocket.CompleteWrite` | adchpp/ManagedSocket.cpp:121-154 | What was acknowledged leaves the queue; the overflow is forgotten exactly if the queue has become shorter than the limit; the stream is shut down exactly when a disconnect waits and everything accepted is acknowledged. |
| `WriteQueue.ManagedSocket.Consume` | adchpp/ManagedSocket.cpp:128-137 | Acknowledged bytes are dropped from the front, whole buffers and parts. |
| `WriteQueue.ManagedSocket.Disconnect` | adchpp/ManagedSocket.cpp:263-278 | The first disconnect takes effect, with its reason and its time; the stream is shut down at once exactly if nothing is in flight, and at most once; something queued is cut off exactly if it is stalled. |
| `WriteQueue.ManagedSocket.Perform` | adchpp/ManagedSocket.cpp:57-154 | Any event keeps the invariant; there is never a second shutdown, and what is queued is cut off exactly by an event that makes a stalled socket disconnect. What the event did is told for the log. |
| `WriteQueue.ManagedSocket.Run` | adchpp/ManagedSocket.cpp:57-154 | In every run, errors of the stream included: the bytes acknowledged followed by the queue are the accepted writes in order; the stream is shut down at most once, and with something queued if and only if an effective disconnect came while the queue was stalled (something queued, no write in flight). Without an error the queue is never stalled. The log tells every event with the queue before and after it, and when an overflow is noted follows from the log alone. |
| `WriteQueue.NotedMeans` | adchpp/ManagedSocket.cpp:57-144 | The time noted is that of the last write accepted over the limit, as long as the queue has not been shorter than the limit since. |
| `WriteQueue.LateWriteEnds` | adchpp/ManagedSocket.cpp:57-144 | Over whole runs, told by events and times alone: when a write was accepted over the limit and the queue has not been below it since, the next one over the limit is refused and ends the connection if and only if it comes more than the timeout later. |
| `WriteQueue.FirstWriteIsTaken` | adchpp/ManagedSocket.cpp:57-144 | Where the queue has been below the limit after every write over it, a write that is not of low priority is accepted, however long. |
| `WriteQueue.ManagedSocket.WriteError` | adchpp/ManagedSocket.cpp:151-153 | An error ends writing and is reported once; what was in flight stays queued, and the queue is stalled. |
| `WriteQueue.ManagedSocket.Report` | adchpp/ManagedSocket.cpp:231-278 | The end of a connection is reported exactly once, with the reason of its first cause. |
| `WriteQueue.ErrorLeavesQueue` | adchpp/ManagedSocket.cpp:121-154 | After an error and then a disconnect the stream is shut down with a buffer still queued, for every buffer. |
| `AdcCommands.EscapedIsClean` | adchpp/AdcCommand.cpp:47-58 | Escaped text has no space and no newline. |
| `AdcCommands.SplitEscaped` | adchpp/AdcCommand.cpp:97-145 | The parser undoes escaping, whatever follows. |
| `AdcCommands.RoundTrip` | adchpp/AdcCommand.cpp:60-228 | A command is parsed back from its printed form if and only if it is printable: known type, no zero byte in its name, plain identifiers and features, a last parameter that is not empty, parameters or features where its type needs them, and valid parameters. |
| `AdcCommands.PrintedParses` | adchpp/AdcCommand.cpp:60-185 | A printable command is parsed as itself. |
| `AdcCommands.ParsedIsPrintable` | adchpp/AdcCommand.cpp:60-185 | What is parsed back was printable. |
| `AdcCommands.AdcCommand.Escape` | adchpp/AdcCommand.cpp:47-58 | The escaped text is appended. |
| `AdcCommands.AdcCommand.ToString` | adchpp/AdcCommand.cpp:194-228 | The printed form of the command. |
| `AdcCommands.AdcCommand.TakeWord` | adchpp/AdcCommand.cpp:114-140 | The next word becomes the next field of its type or a parameter, or is refused with the fault of its length or its encoding. |
| `AdcCommands.AdcCommand.Parse` | adchpp/AdcCommand.cpp:60-185 | The command that the line stands for, or, exactly when it stands for none, the message of its first fault; the identifiers of a line without them are those of the hub and of nobody. |
| `XmlText.EscapedIsClean` | adchpp/SimpleXML.cpp:68-79 | Escaped text has no angle bracket, and in attributes no quote; it is empty only for an empty text. |
| `XmlText.DecodeEscaped` | adchpp/SimpleXML.cpp:39-54 | Decoding undoes escaping for every text. |
| `XmlText.ValueRoundTrip` | adchpp/SimpleXML.cpp:35-81 | A value survives printing and loading if and only if its first newline, if any, stands at the beginning or behind a carriage return. |
| `XmlText.LoadedIsStable` | adchpp/SimpleXML.cpp:55-66 | Whatever was loaded once survives from then on. |
| `XmlText.BareNewlineIsLost` | adchpp/SimpleXML.cpp:55-66 | A value with a bare newline behind some text does not survive. |
| `XmlText.EscapeSaving` | adchpp/SimpleXML.cpp:68-79 | The replacing loop computes the escaped text. |
| `XmlText.EscapeLoading` | adchpp/SimpleXML.cpp:39-66 | The loops compute the decoded text with its newlines converted. |
| `XmlTree.LoadAttribsPrinted` | adchpp/SimpleXML.cpp:175-199 | Printed attributes are loaded again, in order. |
| `XmlTree.ElementPrinted` | adchpp/SimpleXML.cpp:254-292 | A printed tag is parsed as the loaded tag, at any place of a text. |
| `XmlTree.ChildrenPrinted` | adchpp/SimpleXML.cpp:201-300 | Printed children and the end tag behind them are parsed as the loaded children, and the parser stops behind the end tag. |
| `XmlTree.RoundTrip` | adchpp/SimpleXML.cpp:99-300 | Parsing a printed tree with valid names gives one root with the same names and children; attributes and leaf data are the same if and only if all values survive, and then it is printed as the same text. |
| `XmlTree.SecondRoundTrip` | adchpp/SimpleXML.cpp:99-300 | From the second time on, printing and parsing changes nothing, for every tree with valid names. |
| `XmlTree.AppendAttribString` | adchpp/SimpleXML.cpp:83-97 | Every attribute behind a space, with its value escaped. |
| `XmlTree.ToXML` | adchpp/SimpleXML.cpp:99-138 | The printed form of the tag. |
| `XmlTree.LoadAttribsLoop` | adchpp/SimpleXML.cpp:175-199 | The attributes and the position behind them, or the error, for every text. |
| `XmlTree.FromXML` | adchpp/SimpleXML.cpp:201-300 | The content of a tag, or the error, for every text. |
| `XmlTree.ReadChild` | adchpp/SimpleXML.cpp:254-292 | One child, or the error, for every text. |
| `XmlTree.Load` | adchpp/SimpleXML.cpp:333-347 | The tree, or an error if there is not exactly one root. |
| `Tiger.PaddedIsWhole` | adchpp/TigerHash.cpp:152-170 | The padded message consists of whole blocks, and the padding is the shortest with room for the length. |
| `Tiger.FoldBoth` | adchpp/TigerHash.cpp:119-150 | Compressing whole blocks and then the rest is compressing it all. |
| `Tiger.FinishOne` | adchpp/TigerHash.cpp:152-170 | If there is room, one block holds the rest, the padding and the length. |
| `Tiger.FinishTwo` | adchpp/TigerHash.cpp:158-163 | If there is none, two blocks do. |
| `Tiger.LengthWraps` | adchpp/TigerHash.cpp:167-168 | The number of bits modulo 2^64 can be computed from the counter, which wraps around. |
| `Tiger.TigerHash.constructor` | adchpp/TigerHash.h:30-34 | The hash of no bytes. |
| `Tiger.TigerHash.Resume` | adchpp/TigerHash.h:36-40 | A hash that goes on from a saved state, valid at a block boundary. |
| `Tiger.TigerHash.Update` | adchpp/TigerHash.cpp:119-150 | The bytes are added to those hashed so far, however they fill the buffer. |
| `Tiger.TigerHash.Finalize` | adchpp/TigerHash.cpp:152-170 | The state after all blocks of the padded message. |
| `Tiger.HashOf` | adchpp/TigerHash.cpp:119-170 | However the message is cut into updates, the result is the digest of the message. |
| `Tiger.Resumed` | adchpp/TigerHash.h:36-40 | Going on from a state saved at a block boundary gives the same digest as never stopping. |
| `Base32.LetterIsStandard` | adchpp/Encoder.cpp:47-52 | The alphabet is that of section 6 of RFC 4648. |
| `Base32.TableInverts` | adchpp/Encoder.cpp:27-52 | The decoding table inverts the alphabet: it knows exactly its characters, and its letters in lower case. |
| `Base32.EncodingIsUnique` | adchpp/Encoder.cpp:54-81 | A byte string has only one encoding. |
| `Base32.ToBase32` | adchpp/Encoder.cpp:54-81 | The encoding is appended: one character for every five bits begun, with the same bits. |
| `Base32.FromBase32` | adchpp/Encoder.cpp:83-113 | The bytes hold the bits of the recognised characters, as many as there is room for, and zeros behind them; a byte is stored where there is no room if and only if there is no room at all and the text has a recognised character. |
| `Base32.RoundTrip` | adchpp/Encoder.cpp:54-113 | Decoding the encoding of n bytes into n bytes gives them back. |
| `Base32.JunkIsSkipped` | adchpp/Encoder.cpp:88-93 | Unrecognised characters other than zero may stand anywhere. |
| `Base32.CaseDoesNotMatter` | adchpp/Encoder.cpp:27-44 | Neither does the case of letters matter. |
| `Base32.DecodingIsUnique` | adchpp/Encoder.cpp:83-113 | Decoding depends on nothing but the recognised characters. |

## Left out

Collector and strings:

* Weak tables, finalizers, coroutines and open upvalues: one main thread, strong tables, closed upvalues, userdata without `__gc`.
* `LuaGC.GlobalState.constructor`: the strings fixed when a state opens (reserved words, names of metamethods, the memory error
  message) are left out; the invariant allows for fixed strings.
* Pacing (`GCthreshold`, `gcdept`, `estimate`): the number of steps in `Step` is a parameter. `luaC_freeall` and the shrinking of the
  string buffer and of the stack.
* The order in which one traversal marks the references of an object: an object holds them as one sequence.
* `LuaHeap.Bucket`: takes a remainder where `lmod` masks bits, which is the same for the sizes that occur, powers of two.
* The link fields `next` and `gclist` are sequences; the removal of empty table entries by the collector is in the table model
  (`RemoveEntry`) instead of the heap model.
* Memory allocation never fails in any of the models.

Code generator:

* Literal constants as operands, for which `luaK_goiftrue` and `luaK_goiffalse` make no jump, or one without a test that takes along
  the jumps waiting for its position with the values they carry; arithmetic, calls, varargs, tables and constant folding.
* Line information and the growth of the code array, so that "code size overflow" is not an error of the model.
* `CodeGen.FuncState.Subexpr`: says nothing about the code when it returns an error; that an error is raised only where a limit is
  exceeded is stated.
* The parser is represented by the calls that it makes for an expression tree.

Tables:

* Numbers are integers, other numbers and NaN; the hash function is arbitrary. `luaH_getnum` and `luaH_getstr` are the one search.
* `luaH_resizearray`, and array parts larger than the largest that a rehash chooses.
* A dead key that is found by `next` is compared by identity: the reuse of an object's address is not modelled.
* Barriers and metamethod flags in `luaH_set`.

Patterns, sort and chunks:

* Locale: character classes are those of the C locale. `gmatch`, plain search and the interpretation of `%` in replacement strings;
  a replacement is any function of the match and its captures. A zero byte in a pattern ends it.
* The Lua stack and the C stack.
* `LuaSort.AuxSort`: order functions that are not strict weak orders, which may run out of the range before the error is raised.
* Numbers in chunks are eight bytes without meaning, `luaG_checkcode` is any predicate, and sizes are those of a 64-bit little-endian
  machine. A constant string of length zero in a malformed chunk is read as an empty string.

Hub:

* Sockets, timers, threads, TLS and statistics. The transport acknowledges any beginning of what it was offered; time is a parameter.
* The reply text of a refused command, and the buffers shared between the reader and the line in progress: contents only.
* `ClientStream.Client.OnChunks`: the data handler sees bytes one at a time, which is no loss for a handler that does not care how its
  bytes are cut; it does not disconnect. Command handlers are deterministic.
* `ClientStream.Client.TakeData`: a data handler that changes the data mode itself or disconnects is left out.
* `AdcCommands.RoundTrip`: identifiers are the four characters that are sent for them, and the check of UTF-8 is any predicate. The
  serialized buffer of `getBuffer` and the numeric command code are not modelled.
* `XmlTree.RoundTrip`: tags are values, without parent pointers and cursors; error texts and partial trees after an error are left out.
  Reading behind the end of the text, as `loadAttribs` does after a last attribute, yields no match.
* The compression function of Tiger is any function of a state and a block; the message schedule and the tables are left out.
