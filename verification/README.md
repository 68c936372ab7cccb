# Verified model of the native-app glue and the Dobby hooking library

The repository bundles two pieces of systems code: the Android native-app glue, in which two
threads hand windows, input queues, lifecycle states and a saved-state buffer to each other, and
the Dobby library, which relocates machine code, patches it, allocates executable memory and reads
export tries. This project models that code in Dafny and proves what it guarantees.

Form. The glue is concurrent, so it is a transition system whose steps are the statements of the two
threads; its theorems hold in every state of every interleaving. Emission loops, parsers, allocators,
the hook registry, the label assembler and the variable cache are methods and classes that change
state as the originals do, each proved against a function on values, about which the theorems are
then proved.

## Components

| files | component |
|---|---|
| `Wrappers` | types shared by the components |
| `AppGlue`, `AppGlueInvariant`, `AppGlueTheorems`, `AppGlueCalls` | the two-thread handshake, its inductive invariant, its guarantees, whole calls |
| `A64`, `LiteralPool`, `Arm64Relocation` | an A64 interpreter, the assembler's literal pool, the ARM64 relocator |
| `Arm64Encoding`, `Arm64Execution`, `Arm64Simulation`, `Arm64Theorem` | bit-level facts, single steps, rewritten groups, the simulation theorem |
| `Leb128`, `ExportTrie`, `ExportTrieMeaning`, `ExportTrieSerializer` | LEB128 readers, the export-trie walk, the map a trie denotes, a serializer |
| `Thumb2Branch`, `ThumbLiteral`, `ThumbAssembler` | Thumb-2 branch encoding, literal labels, the assembler class |
| `X64Relocation`, `X64Targets` | the x64 relocator with its retry loop, and the targets of relocated instructions |
| `LiteMutableArray`, `MemoryArena`, `MemoryArenaRuns` | the growable array, the page allocator, its whole runs |
| `NearWindow`, `NearMemoryArena` | wrapping address arithmetic, the near-page search and allocator |
| `Hooks`, `Interceptor` | hooks on values, the circular registry, DobbyHook and DobbyDestroy |
| `CacheFormat`, `CacheRoundTrip`, `VariableCache` | the cache file, what a round trip keeps, the linked list |

## Where the code does not do what it is for

Each of these is stated exactly, as an equivalence or for all inputs, and the code is modelled as it is.

- A 32-bit ARM64 literal load is relocated as a 64-bit load (the assembler encodes the X form whatever
  the register, Dobby/source/core/modules/assembler/assembler-arm64.h:472-474 and 538-543). `WordLoadExact`:
  the result is right if and only if the word above the literal is zero or the register is XZR or X17; blocks
  are held to exactly that condition.
- B.AL and B.NV are inverted as if they were conditions. `ConditionBoundary`: the inverted branch is right
  if and only if the condition is below 1110.
- A Thumb-2 load emitted for a label that is already bound ignores the pc bias and, at whatever distance, never
  reads the label (`BoundLoadMisses`).
- The signed reader extends the sign by an undefined shift for exactly the values below -2^62 (`SlebRoundTrip`).
- A two-byte x64 short jump never keeps its target (`ShortJumpsMiss`), and a 32-bit operand keeps it if and
  only if the length is unchanged and the distance fits (`TargetKeptIff`).
- If relocation fails, the hook is installed all the same with nothing saved. `HookThenDestroy`: destroying
  a hook restores the code if and only if the trampoline bytes that were not saved over equal it.
- A chunk larger than a page leaves its page (`ChunkInsideIff`). A range of zero opens the near window to
  the whole address space (`ZeroOffset`).
- A near window can be empty (`EmptyWindow`). `CandidatesNearIff`: all pages asked for are within range if and
  only if the window is not empty, or nothing is asked for, or its lower end is within range. A granted page serves
  the request if and only if it is within range and larger than the request (`NewPageSuits`, `ServeGranted`); as long
  as granted pages do not, the allocator lists them and searches on (`SearchesOn`).
- A cache that holds a name twice, as loading over another cache produces, loses its newest value when it is
  written and loaded again (`StaleAfterReload`). `OverridesIff`: loading acts as map override if and only if the
  first and the last entry of every name agree.

## Model

| member | source | states |
|---|---|---|
| `AppGlueInvariant.InvKept` | src/android_native_app_glue.c:71-318 | every statement of either thread, every callback and every spurious wake-up keeps the invariant on the mutex, the pipe, window, input queue, lifecycle, saved state, destruction and pending broadcasts |
| `AppGlueInvariant.RunInv` | src/android_native_app_glue.c:71-357 | the invariant holds in every state of every interleaving |
| `AppGlueTheorems.CommandsInOrder` | src/android_native_app_glue.c:185-269 | commands executed, in flight and in the pipe are exactly those issued, in order |
| `AppGlueTheorems.OutstandingWindowCommands` | src/android_native_app_glue.c:281-294 | outside the body of set_window, draining the outstanding window commands makes the pending window current; a waiting set_window has an outstanding command |
| `AppGlueTheorems.WindowStaysNull` | src/android_native_app_glue.c:281-294 | from the return of set_window(NULL) to the next set_window the window is NULL in every state, whatever is left in the pipe |
| `AppGlueTheorems.InputStaysNull` | src/android_native_app_glue.c:271-279 | the same for set_input(NULL) and the input queue |
| `AppGlueTheorems.LooperFollowsQueue` | src/android_native_app_glue.c:73-88 | the looper is attached to exactly the current non-NULL queue, except inside the replacing critical section and after destruction; process_input never sees a NULL or detached queue |
| `AppGlueTheorems.LifecycleIsCurrent` | src/android_native_app_glue.c:296-303 | set_activity_state returns with its own command current, and outside such a wait every outstanding lifecycle command equals the current state |
| `AppGlueTheorems.BufferOwnedOnce` | src/android_native_app_glue.c:335-357 | every saved-state buffer is held, freed or handed over, exactly once; none is held when the client makes a new one or when the structure is gone |
| `AppGlueTheorems.SavedStateIsQuiet` | src/android_native_app_glue.c:138-148 | from stateSaved until the buffer is taken the pipe is empty, and it is taken with the app thread polling |
| `AppGlueTheorems.NoUseAfterFree` | src/android_native_app_glue.c:305-318 | when the structure is freed the app thread has finished and no further step of any kind is possible |
| `AppGlueTheorems.RankDecreases` | src/android_native_app_glue.c:185-221 | every app-thread statement decreases a rank that only new commands raise |
| `AppGlueTheorems.WaiterNotStranded` | src/android_native_app_glue.c:257-311 | when the app thread cannot move, a waiter has been woken, its condition holds and the mutex is free |
| `AppGlueTheorems.NoDeadlock` | src/android_native_app_glue.c:256-311 | unless the activity thread is idle or gone, one of the threads can move |
| `AppGlueTheorems.WaitIsBounded` | src/android_native_app_glue.c:257-311 | every wait ends, whatever spurious wake-ups and input events fall into it: the app thread takes at most as many steps as its rank, and both threads together at most as many as a measure of the first state plus two for each spurious wake-up |
| `AppGlueCalls.DeliveredInOrder` | src/android_native_app_glue.c:185-190 | the client callback is given every command issued, once and in order; what it has not been given is the command just read and the pipe |
| `AppGlueCalls.CallIssues` | src/android_native_app_glue.c:271-307 | from its invocation to its return a call issues exactly its commands, for a window TERM_WINDOW if one was pending and INIT_WINDOW if one is set |
| `AppGlueCalls.FreedExactly` | src/android_native_app_glue.c:21-44 | a buffer is freed exactly on reading SAVE_STATE, after RESUME and at the end, if one is held, and none is left held then |
| `AppGlueCalls.RestoredKept` | src/android_native_app_glue.c:236-240 | the state restored at creation stays available until a free or the return of onSaveInstanceState |
| `AppGlueCalls.WokenExactly` | src/android_native_app_glue.c:86-214 | the app thread wakes a blocked waiter exactly where the source broadcasts |
| `AppGlueCalls.SaveHandsOver` | src/android_native_app_glue.c:347-356 | the return of onSaveInstanceState hands over exactly the buffer held and leaves none |
| `AppGlueCalls.SaveReturnsBuffer` | src/android_native_app_glue.c:335-357 | during a call of onSaveInstanceState the client is asked exactly once, and what the call hands over is what the client stores then, nothing if it stores nothing |
| `Arm64Encoding.DecodesImm14` | Dobby/source/InstructionRelocation/arm64/ARM64InstructionRelocation.cc:37-116 | for every word the relocator's shifting decoder gives the sign-extended 14-bit branch offset |
| `Arm64Encoding.DecodesImm19` | Dobby/source/InstructionRelocation/arm64/ARM64InstructionRelocation.cc:37-116 | the same for the 19-bit offset |
| `Arm64Encoding.DecodesImm26` | Dobby/source/InstructionRelocation/arm64/ARM64InstructionRelocation.cc:37-116 | the same for the 26-bit offset |
| `Arm64Encoding.DecodesImm21` | Dobby/source/InstructionRelocation/arm64/ARM64InstructionRelocation.cc:37-116 | the same for the split immediate of ADR and ADRP |
| `Arm64Encoding.EncodedImm26` | Dobby/source/InstructionRelocation/arm64/ARM64InstructionRelocation.cc:77-86 | for every 26-bit field, decoding a B encoded with it gives the two's complement offset in bytes |
| `Arm64Encoding.EncodedImm19` | Dobby/source/InstructionRelocation/arm64/ARM64InstructionRelocation.cc:67-76 | for every opcode, 19-bit field and register, decoding gives the two's complement offset in bytes and the register |
| `Arm64Encoding.EncodedImm14` | Dobby/source/InstructionRelocation/arm64/ARM64InstructionRelocation.cc:57-66 | the same for a test-and-branch with a 14-bit field |
| `Arm64Encoding.EncodedImm21` | Dobby/source/InstructionRelocation/arm64/ARM64InstructionRelocation.cc:87-103 | for every 21-bit field split around the opcode of ADR or ADRP, decoding joins and extends it |
| `Arm64Encoding.PagesAre` | Dobby/source/InstructionRelocation/arm64/ARM64InstructionRelocation.cc:104-108 | the ADRP decoder counts pages of 4096 bytes |
| `Arm64Encoding.PageSplits` | Dobby/source/InstructionRelocation/arm64/ARM64InstructionRelocation.cc:167 | aligning an address drops its offset within a page of 4096 bytes |
| `Arm64Encoding.ClassesAgree` | Dobby/source/InstructionRelocation/arm64/ARM64InstructionRelocation.cc:137-266 | the relocator's masks select the instruction classes of the architecture |
| `Arm64Encoding.InvertedTest` | Dobby/source/InstructionRelocation/arm64/ARM64InstructionRelocation.cc:192-216 | the rewritten TBZ/TBNZ is taken exactly when the original is not, skips three words, and differs only in the condition bit and the immediate |
| `Arm64Encoding.InvertedCompare` | Dobby/source/InstructionRelocation/arm64/ARM64InstructionRelocation.cc:218-241 | the same for CBZ/CBNZ |
| `Arm64Encoding.InvertedCond` | Dobby/source/InstructionRelocation/arm64/ARM64InstructionRelocation.cc:242-266 | the same for B.cond, if and only if the condition is below 1110 |
| `Arm64Encoding.TestMeaning` | Dobby/source/InstructionRelocation/arm64/ARM64InstructionRelocation.cc:29-35 | TBZ and TBNZ, encoded for any of the 64 bits, branch on that bit being clear or set |
| `Arm64Encoding.BitIs` | Dobby/source/InstructionRelocation/arm64/ARM64InstructionRelocation.cc:29-35 | bits of the tested register are counted from the lowest, 0, to the highest, 63 |
| `Arm64Encoding.CompareMeaning` | Dobby/source/InstructionRelocation/arm64/ARM64InstructionRelocation.cc:217-241 | the four forms of CBZ and CBNZ branch on the 32-bit or 64-bit register being zero or not |
| `Arm64Encoding.ConditionMeaning` | Dobby/source/InstructionRelocation/arm64/ARM64InstructionRelocation.cc:242-266 | the sixteen conditions in terms of the flags |
| `Arm64Relocation.EmitBlock` | Dobby/source/InstructionRelocation/arm64/ARM64InstructionRelocation.cc:124-284 | the cursor loop emits the words and labels of the rewritten groups, or fails where the source is unimplemented, and ends at the address behind the block |
| `Arm64Relocation.BindLabels` | Dobby/source/core/modules/assembler/assembler-arm64.h:666-683 | the label loop binds every label in order |
| `Arm64Relocation.Relocate` | Dobby/source/InstructionRelocation/arm64/ARM64InstructionRelocation.cc:124-316 | the whole relocator yields the image of the block, about which the theorems below speak |
| `LiteralPool.BindAllLinks` | Dobby/source/core/modules/assembler/assembler-arm64.h:72-95 | after binding, each load is linked to its own literal, which holds its data, and no other word changed |
| `Arm64Execution.ImageContents` | Dobby/source/InstructionRelocation/arm64/ARM64InstructionRelocation.cc:299-313 | the image holds every group's words with its load linked to its literal, then a branch to the rest of the original |
| `Arm64Execution.MovSteps` | Dobby/source/core/modules/assembler/assembler-arm64.h:641-652 | the movz and three movk put the 64-bit immediate into the register and change nothing else |
| `Arm64Simulation.RunLoadGroup` | Dobby/source/InstructionRelocation/arm64/ARM64InstructionRelocation.cc:137-156 | a rewritten literal load leaves the 64-bit value of the original address in its register and the address in X17 |
| `Arm64Simulation.RunBranchGroup` | Dobby/source/InstructionRelocation/arm64/ARM64InstructionRelocation.cc:176-191 | a rewritten B or BL reaches the original target, BL linking to the relocated successor |
| `Arm64Simulation.RunConditionalGroup` | Dobby/source/InstructionRelocation/arm64/ARM64InstructionRelocation.cc:192-266 | for every word, address and machine the sequence reaches the target exactly when the original is taken, else the word after it with nothing changed |
| `Arm64Simulation.ConditionBoundary` | Dobby/source/InstructionRelocation/arm64/ARM64InstructionRelocation.cc:242-266 | for any B.cond the rewritten branch decides like the original if and only if the condition is below 1110 |
| `Arm64Simulation.AlwaysBranchSkipped` | Dobby/source/InstructionRelocation/arm64/ARM64InstructionRelocation.cc:242-266 | B.AL is always taken, its rewriting never |
| `Arm64Simulation.WordLoadExact` | Dobby/source/InstructionRelocation/arm64/ARM64InstructionRelocation.cc:137-156 | a relocated 32-bit literal load agrees with the original if and only if the word above is zero or the result is not kept |
| `Arm64Simulation.WordLoadDiffers` | Dobby/source/InstructionRelocation/arm64/ARM64InstructionRelocation.cc:147-148 | a concrete word for which it does not |
| `Arm64Theorem.Simulates` | Dobby/source/InstructionRelocation/arm64/ARM64InstructionRelocation.cc:124-316 | from any word of the block on, original and image leave their code from the same word and to the same address, within five image steps per word |
| `Arm64Theorem.RelocationCorrect` | Dobby/source/InstructionRelocation/arm64/ARM64InstructionRelocation.cc:124-316 | for every relocatable block and all machines equal apart from X17, both exit at the same address; if the original exits by a call, the machines are equal apart from X17 and the link registers, which hold the successor of that call and its relocated successor; otherwise they are equal apart from X17 |
| `Leb128.ReadUleb128` | Dobby/builtin-plugin/SymbolResolver/macho/dobby_symbol_resolver.cc:51-72 | the accumulator loop computes the reading proved right by the round trip, with its past-the-end case |
| `Leb128.ReadSleb128` | Dobby/builtin-plugin/SymbolResolver/macho/dobby_symbol_resolver.cc:74-94 | the same for signed numbers |
| `Leb128.SkipUleb` | Dobby/builtin-plugin/SymbolResolver/macho/dobby_symbol_resolver.cc:141-144 | the byte-skip loop stops behind the first byte without continuation bit |
| `Leb128.SkipMatchesRead` | Dobby/builtin-plugin/SymbolResolver/macho/dobby_symbol_resolver.cc:139-154 | skipping advances exactly as far as reading, for all bytes |
| `Leb128.UlebRoundTrip` | Dobby/builtin-plugin/SymbolResolver/macho/dobby_symbol_resolver.cc:51-72 | reading the canonical encoding of any unsigned 64-bit value gives the value and advances by its length, whatever surrounds it |
| `Leb128.SlebRoundTrip` | Dobby/builtin-plugin/SymbolResolver/macho/dobby_symbol_resolver.cc:74-94 | for every signed 64-bit value: reading its canonical encoding gives the value and advances by its length, except for those below -2^62, where the shift is undefined |
| `ExportTrie.ScanEdge` | Dobby/builtin-plugin/SymbolResolver/macho/dobby_symbol_resolver.cc:125-138 | the edge loop yields where the label ends and whether it is a prefix of the rest of the symbol |
| `ExportTrie.FindChild` | Dobby/builtin-plugin/SymbolResolver/macho/dobby_symbol_resolver.cc:124-163 | the loop over the edges takes the first that matches, with its malformed and out-of-bounds exits |
| `ExportTrie.WalkExportedTrie` | Dobby/builtin-plugin/SymbolResolver/macho/dobby_symbol_resolver.cc:98-184 | the node loop with its visited array computes the walk of the theorems below and reads the nodes of its trace |
| `ExportTrieMeaning.StoredUnique` | Dobby/builtin-plugin/SymbolResolver/macho/dobby_symbol_resolver.cc:98-184 | bytes at an offset represent at most one trie |
| `ExportTrieMeaning.ChooseMeaning` | Dobby/builtin-plugin/SymbolResolver/macho/dobby_symbol_resolver.cc:124-163 | over stored edges the loop finds a child exactly if an edge is a prefix of the rest of the symbol |
| `ExportTrieMeaning.EdgeDecides` | Dobby/builtin-plugin/SymbolResolver/macho/dobby_symbol_resolver.cc:139-163 | for any bytes: an edge whose label is a prefix of the rest of the symbol leads to its child if its offset is neither zero nor above the size and ends the search otherwise; any other edge is skipped |
| `ExportTrieMeaning.RecordedOffset` | Dobby/builtin-plugin/SymbolResolver/macho/dobby_symbol_resolver.cc:169-175 | visited offsets are kept by their low 32 bits, so that the cycle check never recognizes a node at 4 GiB or above |
| `ExportTrieMeaning.WalkCorrect` | Dobby/builtin-plugin/SymbolResolver/macho/dobby_symbol_resolver.cc:98-184 | for every well-formed stored trie and every symbol the walk never faults, finds it if and only if the trie maps it along at most 126 edges, and returns the position of its terminal data |
| `ExportTrieMeaning.WalkBounded` | Dobby/builtin-plugin/SymbolResolver/macho/dobby_symbol_resolver.cc:164-180 | for all bytes, well formed or not, the trace of the walk has at most 127 nodes and none twice |
| `ExportTrieSerializer.SerializeStored` | Dobby/builtin-plugin/SymbolResolver/macho/dobby_symbol_resolver.cc:98-184 | every trie the format can express has a serialization that stores it |
| `ExportTrieSerializer.WalkSerialized` | Dobby/builtin-plugin/SymbolResolver/macho/dobby_symbol_resolver.cc:98-184 | for every such well-formed trie and every symbol, walking its serialization finds exactly what the trie maps along at most 126 edges |
| `Thumb2Branch.DecodeEncode` | Dobby/source/InstructionRelocation/arm/ARMInstructionRelocation.h:222-246 | the relocator's decoders give back offset and link class if and only if the offset is even and within 16 MiB |
| `Thumb2Branch.EncodeDecode` | Dobby/source/InstructionRelocation/arm/ARMInstructionRelocation.cc:407-444 | encoding what the B.W or BL decoder read gives back the same halfwords |
| `Thumb2Branch.SpreadIsNegation` | Dobby/source/InstructionRelocation/arm/ARMInstructionRelocation.cc:416 | the sign bits of the decoded offset are the shifted negation `-S << 24` |
| `ThumbLiteral.LoadSecondFields` | Dobby/source/InstructionRelocation/arm/ARMInstructionRelocation.h:188-189 | the second halfword of a load keeps the low twelve bits of any offset, and the bits above are or-ed into the register |
| `ThumbLiteral.LinkLoadMeaning` | Dobby/source/InstructionRelocation/arm/ARMInstructionRelocation.h:36-47 | linking an open load succeeds if and only if the label is 0 to 4095 bytes from the aligned pc; it then reads the label, keeps its register, and no other byte changed |
| `ThumbLiteral.BindEntriesMeaning` | Dobby/source/InstructionRelocation/arm/ARMInstructionRelocation.h:312-336 | binding all labels succeeds if and only if all distances are in reach; then every load reads its label's word, the words follow the code in label order, and all other bytes are unchanged |
| `ThumbAssembler.FixupKeepsBound` | Dobby/source/InstructionRelocation/arm/ARMInstructionRelocation.h:323-325 | fixing up one label's word keeps every load linked and every other word in place |
| `ThumbAssembler.BoundLoadMisses` | Dobby/source/InstructionRelocation/arm/ARMInstructionRelocation.h:290-293 | a load emitted for a bound label never reads the label, at any distance; within 4096 bytes it reads four minus the misalignment of the pc past it |
| `ThumbAssembler.ThumbTurboAssembler.AppendRelocLabelEntry` | Dobby/source/InstructionRelocation/arm/ARMInstructionRelocation.h:338-343 | a new label is appended and the assembling invariant kept |
| `ThumbAssembler.ThumbTurboAssembler.EmitThumb2LoadLiteral` | Dobby/source/InstructionRelocation/arm/ARMInstructionRelocation.h:165-190 | the two halfwords of a literal load are appended, an offset of 4096 or more running into the register as in the source |
| `ThumbAssembler.ThumbTurboAssembler.T2_Ldr` | Dobby/source/InstructionRelocation/arm/ARMInstructionRelocation.h:290-299 | an unbound label records the position of an open load; all waiting loads stay open and apart |
| `ThumbAssembler.ThumbTurboAssembler.LinkConfusedInstructions` | Dobby/source/InstructionRelocation/arm/ARMInstructionRelocation.h:19-51 | the loop links every waiting load of a label or reports the failing check |
| `ThumbAssembler.ThumbTurboAssembler.ThumbPseudoBind` | Dobby/source/InstructionRelocation/arm/ARMInstructionRelocation.h:312-321 | an unused label is bound at the end of the code, a bound one stays, and its loads are linked |
| `ThumbAssembler.ThumbTurboAssembler.RelocBind` | Dobby/source/InstructionRelocation/arm/ARMInstructionRelocation.h:327-336 | from any assembling state, success if and only if all distances are in reach, and then all labels are bound one word apart with every load reading its word |
| `ThumbAssembler.ThumbTurboAssembler.RelocBindFixup` | Dobby/source/InstructionRelocation/arm/ARMInstructionRelocation.h:323-325 | only the label's own word changes, to its data |
| `X64Relocation.GenRelocateCodeFixed` | Dobby/source/InstructionRelocation/x64/X64InstructionRelocation.cc:18-132 | one pass emits the specified code, extends the origin to an instruction boundary and compares the length with the chunk |
| `X64Relocation.PassLength` | Dobby/source/InstructionRelocation/x64/X64InstructionRelocation.cc:35-122 | length and boundary do not depend on where the chunk lies |
| `X64Relocation.PassAgain` | Dobby/source/InstructionRelocation/x64/X64InstructionRelocation.cc:114-116 | a pass over the extended origin yields the same code |
| `X64Relocation.GenRelocateCodeAndBranch` | Dobby/source/InstructionRelocation/x64/X64InstructionRelocation.cc:134-160 | the retry loop terminates; the final chunk has the least of 32, 48, 64, … that fits, and no larger chunk is ever asked for |
| `X64Targets.TargetKeptIff` | Dobby/source/InstructionRelocation/x64/X64InstructionRelocation.cc:43-80 | for every relative instruction the target is kept if and only if the length is unchanged and the new operand can be encoded |
| `X64Targets.ShortJumpsMiss` | Dobby/source/InstructionRelocation/x64/X64InstructionRelocation.cc:43-60 | a two-byte short jump never keeps its target |
| `X64Targets.RelocatedTarget` | Dobby/source/InstructionRelocation/x64/X64InstructionRelocation.cc:61-80 | for every same-length rel32 or RIP-relative instruction of every block, only the operand bytes differ, and they lead to the original target if and only if it is within 32-bit reach |
| `X64Targets.PlainCopied` | Dobby/source/InstructionRelocation/x64/X64InstructionRelocation.cc:87-90 | every other instruction of every block is copied byte for byte to its place |
| `X64Targets.ShortJumpBytes` | Dobby/source/InstructionRelocation/x64/X64InstructionRelocation.cc:43-60 | a short jump becomes the near jump, a conditional one of the same condition, with the new operand |
| `X64Targets.RelocatedBlock` | Dobby/source/InstructionRelocation/x64/X64InstructionRelocation.cc:35-116 | the instructions from the first byte to the first boundary at or above the size are relocated without a gap; this succeeds if and only if none of them is LOOP or JCXZ |
| `X64Targets.JumpsToRest` | Dobby/source/InstructionRelocation/x64/X64InstructionRelocation.cc:107-112 | the code ends in an indirect jump whose quadword is the first original address not relocated |
| `LiteMutableArrays.LiteMutableArray.PushObject` | Dobby/external/xnucxx/LiteMutableArray.cc:20-28 | the object is appended, or nothing changes if there is neither room nor memory |
| `LiteMutableArrays.LiteMutableArray.EnsureCapacity` | Dobby/external/xnucxx/LiteMutableArray.cc:38-70 | contents survive growth, to the next capacity above the one needed |
| `MemoryArena.Arena.FindPage` | Dobby/source/MemoryAllocator/MemoryArena.cc:18-27 | the iterator loop finds the first page of the permission with room |
| `MemoryArena.Arena.AllocateChunk` | Dobby/source/MemoryAllocator/MemoryArena.cc:11-61 | pages and answer are those of the allocator on values, including the refusal and the page that is used although the list could not grow |
| `MemoryArenaRuns.NewChunkApart` | Dobby/source/MemoryAllocator/MemoryArena.cc:48-57 | a new chunk overlaps no chunk handed out before |
| `MemoryArenaRuns.AllocateSource` | Dobby/source/MemoryAllocator/MemoryArena.cc:18-60 | an answer is cut from the first page that fits or from a new page; there is none exactly when no page fits and the system refuses |
| `MemoryArenaRuns.ServedByFirst` | Dobby/source/MemoryAllocator/MemoryArena.cc:18-57 | the first page of the permission with more bytes left than asked for serves the request and loses exactly those; a new page is needed if and only if there is none |
| `MemoryArenaRuns.ChunkInsideIff` | Dobby/source/MemoryAllocator/MemoryArena.cc:22-57 | a chunk lies inside its page if and only if it is no larger than a page |
| `MemoryArenaRuns.RunSafe` | Dobby/source/MemoryAllocator/MemoryArena.cc:11-61 | for every sequence of requests up to the page size, with the system giving disjoint pages and listing them or not: all answers are pairwise disjoint, of the requested length, inside a page of the requested permission, and each page is tiled by its chunks |
| `NearWindow.Saturating` | Dobby/source/MemoryAllocator/NearMemoryArena.cc:46-52 | for non-zero offsets the wrapping helpers saturate |
| `NearWindow.ZeroOffset` | Dobby/source/MemoryAllocator/NearMemoryArena.cc:46-52 | for a zero offset they jump to the ends of the address space |
| `NearWindow.NextPageIs` | Dobby/source/MemoryAllocator/NearMemoryArena.cc:60-64 | the next page is aligned and strictly above, except in the last page |
| `NearWindow.PrevPageIs` | Dobby/source/MemoryAllocator/NearMemoryArena.cc:54-58 | the previous page is aligned and a page below, except in the first page |
| `NearWindow.Distance` | Dobby/source/MemoryAllocator/NearMemoryArena.cc:223 | the distance of two addresses, directly or around the address space, whichever is shorter |
| `NearWindow.WindowNear` | Dobby/source/MemoryAllocator/NearMemoryArena.cc:67-70 | every address of the window is less than the range from the position |
| `NearWindow.WindowNonEmpty` | Dobby/source/MemoryAllocator/NearMemoryArena.cc:67-70 | two pages of range make the window non-empty |
| `NearWindow.EmptyWindow` | Dobby/source/MemoryAllocator/NearMemoryArena.cc:67-70 | an input for which the window is empty and its lower end out of range, the case `CandidatesNearIff` excludes |
| `NearMemoryArena.CandidatesNear` | Dobby/source/MemoryAllocator/NearMemoryArena.cc:67-142 | for every sorted layout and non-empty window each page asked for is aligned, in the window and within range |
| `NearMemoryArena.CandidatesNearIff` | Dobby/source/MemoryAllocator/NearMemoryArena.cc:67-142 | for every sorted layout, position and non-zero range: all pages asked for are within range if and only if the window is not empty, or nothing is asked for, or its lower end is within range |
| `NearMemoryArena.CandidatesExactly` | Dobby/source/MemoryAllocator/NearMemoryArena.cc:67-142 | a page is asked for if and only if it is the lowest one, with the first region above it or the last one reaching above the window, or a blank next to a region in the window |
| `NearMemoryArena.ReadsPastIff` | Dobby/source/MemoryAllocator/NearMemoryArena.cc:128-131 | the unsigned comparison lets the loop read behind the layout if and only if its single region lies in the window |
| `NearMemoryArena.GrantedAsked` | Dobby/source/MemoryAllocator/NearMemoryArena.cc:81-141 | the search stops at the first page granted and fails only if all are refused |
| `NearMemoryArena.SearchNearBlankPage` | Dobby/source/MemoryAllocator/NearMemoryArena.cc:67-142 | the search asks for the candidates in order up to the first one granted and returns the answer; it reads past the layout exactly when a single region lies in the window and nothing was granted |
| `NearMemoryArena.SuitsIff` | Dobby/source/MemoryAllocator/NearMemoryArena.cc:220-229 | a page passes the scan if and only if it has the permission, its cursor is less than the range from the position, directly or around, and it has room |
| `NearMemoryArena.NewPageSuits` | Dobby/source/MemoryAllocator/NearMemoryArena.cc:220-229 | a page fresh from the search passes the scan if and only if it is within range and larger than the request |
| `NearMemoryArena.ServeGranted` | Dobby/source/MemoryAllocator/NearMemoryArena.cc:218-246 | after a granted search, the second scan cuts the new page if it suits, and otherwise only the list has grown |
| `NearMemoryArena.SearchesOn` | Dobby/source/MemoryAllocator/NearMemoryArena.cc:218-246 | while searches are granted pages that do not suit, any number of them lists every page and answers nothing |
| `NearMemoryArena.ServedNear` | Dobby/source/MemoryAllocator/NearMemoryArena.cc:210-249 | with a non-empty window, a request below the page size and a system that grants the address asked for or refuses: the first listed page that qualifies is cut in one scan; otherwise the page granted, at its address and within range, in two; otherwise nothing changes and the fallback answers |
| `NearMemoryArena.NearArena.AllocateChunk` | Dobby/source/MemoryAllocator/NearMemoryArena.cc:210-249 | for every size, window, layout and succession of system answers: pages, answer and number of scans are those of the allocator on values |
| `Interceptor.Interceptor.AddHookEntry` | Dobby/source/Interceptor.cpp:45-50 | the ring stays circular with next and prev inverse, and the entry becomes the newest |
| `Interceptor.Interceptor.FindHookEntryNode` | Dobby/source/Interceptor.cpp:15-33 | the newest entry of an address is found, or none exists |
| `Interceptor.Interceptor.RemoveHookEntry` | Dobby/source/Interceptor.cpp:52-56 | exactly the newest entry of the address is removed and the ring kept |
| `Interceptor.Interceptor.Unlink` | Dobby/source/include/list_structure.h:34-43 | unlinking a node leaves the ring of the others |
| `Interceptor.Interceptor.ListAdd` | Dobby/source/include/list_structure.h:23-28 | the new node is linked between its neighbours, whose other links stay |
| `Interceptor.Interceptor.GetHookEntryCount` | Dobby/source/Interceptor.cpp:58-71 | the number of active hooks |
| `Interceptor.Process.DobbyHook` | Dobby/source/InterceptRouting/Routing/FunctionInlineReplace/FunctionInlineReplaceExport.cc:7-42 | memory and registry change as the hook step on values, including both refusals |
| `Interceptor.Process.DobbyDestroy` | Dobby/source/dobby.cpp:21-36 | memory and registry change as the destroy step on values |
| `Hooks.RestoredByte` | Dobby/source/dobby.cpp:21-36 | restoring the newest hook of an address uncovers exactly what lies below it |
| `Hooks.RunExplained` | Dobby/source/InterceptRouting/InterceptRouting.cpp:35-69 | for every sequence of hooks and destroys, at the same address or on disjoint ranges, with relocation succeeding and trampolines no longer than the saved prologues, the memory is the original overlaid by the active trampolines, newest on top, and every saved prologue is what lies below its hook |
| `Hooks.OriginalOutside` | Dobby/source/InterceptRouting/InterceptRouting.cpp:35-69 | outside the ranges of active hooks the memory is the original |
| `Hooks.AllRestored` | Dobby/source/dobby.cpp:21-36 | when no hook is active the memory is the original |
| `Hooks.HookSucceedsIff` | Dobby/source/InterceptRouting/Routing/FunctionInlineReplace/FunctionInlineReplaceExport.cc:8-40 | a hook is installed if and only if the address is not zero and the newest hook there, if any, has another replacement; it is then the newest, its trampoline lies at the address and no other byte changed |
| `Hooks.DestroySucceedsIff` | Dobby/source/dobby.cpp:21-36 | destroying succeeds if and only if there is a hook at the address; the newest is removed, what it saved lies at the address and no other byte changed |
| `Hooks.HookThenDestroy` | Dobby/source/InterceptRouting/InterceptRouting.cpp:12-40 | for every hook call, destroying it restores the code if and only if the trampoline bytes that were not saved over equal it |
| `VariableCache.Cache.CacheSet` | Dobby/external/misc-helper/variable_cache.c:38-51 | the first entry of the name is updated in place, or a new entry pushed in front |
| `VariableCache.Cache.CacheGet` | Dobby/external/misc-helper/variable_cache.c:53-59 | the value of the first entry of the name, 0 if there is none |
| `VariableCache.Cache.SerializedToFile` | Dobby/external/misc-helper/variable_cache.c:66-90 | the file is the serialization of the list |
| `VariableCache.Cache.UnserializedFromFile` | Dobby/external/misc-helper/variable_cache.c:92-118 | for every file, short reads included, the list is the one loaded by the function on values, or the bytes read overrun a buffer |
| `CacheFormat.LoadSerialized` | Dobby/external/misc-helper/variable_cache.c:66-118 | loading a written list over any other puts it in front of it, reversed |
| `CacheFormat.LoadBlock` | Dobby/external/misc-helper/variable_cache.c:99-115 | for any block lengths and any bytes behind them, key and value are the next bytes as far as they go, and the buffers are overrun exactly if these exceed 128 and 8 bytes or the key has no end |
| `CacheRoundTrip.SetActs` | Dobby/external/misc-helper/variable_cache.c:38-51 | setting is map update and keeps names distinct |
| `CacheRoundTrip.BuildIs` | Dobby/external/misc-helper/variable_cache.c:26-59 | after any assignments a lookup gives the last value assigned |
| `CacheRoundTrip.GetIs` | Dobby/external/misc-helper/variable_cache.c:53-59 | after any assignments cache_get gives the last value assigned, and 0 for a name never assigned |
| `CacheRoundTrip.RoundTrip` | Dobby/external/misc-helper/variable_cache.c:26-118 | a cache built by assignments, written and loaded into an empty one, keeps every lookup although its order is reversed |
| `CacheRoundTrip.OverridesIff` | Dobby/external/misc-helper/variable_cache.c:92-118 | a reversed list in front of another acts as map override if and only if the first and last entry of every name agree |
| `CacheRoundTrip.LoadOverrides` | Dobby/external/misc-helper/variable_cache.c:66-118 | loading a written cache over another acts as map override under the same equivalence |
| `CacheRoundTrip.StaleAfterReload` | Dobby/external/misc-helper/variable_cache.c:92-118 | a cache loaded over another, written and loaded again, falls back to the older value |

## Left out

- Glue: configuration, logging, `savedStateSize`, failing pipe and thread creation; pipe writes are assumed to succeed. The client is the documented loop that polls until `destroyRequested` (include/android_native_app_glue.h:29-65), since the repository's own `android_main` is an empty stub (src/hook.cpp:6-7).
- Relocated blocks: branches into the block itself, instructions that depend on X17 and SIMD literal loads are excluded from `RelocationCorrect`, and 32-bit literal loads meet the condition of `WordLoadExact`; LDRSW and PRFM literals are unimplemented in the source. The image is below 1 MiB, the reach of its own literal loads, and the original run does not overwrite it. Reading one word past the block, and cache maintenance, are not modelled. Instructions whose meaning does not involve the pc have an arbitrary semantics.
- Export trie: the trie is at most 4 GiB, as its 32-bit size field says (Dobby/builtin-plugin/SymbolResolver/macho/dobby_symbol_resolver.cc:222-223); reads past the end are a fault of the model; wrap-around of `p + terminalSize` is not modelled.
- A32, Thumb-1 and Thumb-2 conditional-branch rewriting: only the B.W and BL decoders and the literal labels are modelled.
- ThumbAssembler.ThumbTurboAssembler.T2_Ldr: unbound labels are appended before they are used, as all callers do, and each once.
- x64 decoder: its result is a parameter with a contract (positive length, operand offsets inside the instruction, operand as encoded); a decoder that reports length zero would make the source loop forever. LOOP and JCXZ are unimplemented in the source. The x86 file is a near copy.
- MemoryArena.Arena.AllocateChunk: the arithmetic does not wrap; negative sizes are not modelled, nor a refusal to record a chunk in its page, which nothing reads.
- NearMemoryArena.NearArena.AllocateChunk: the heap is assumed to have room for the page list; the scan of live memory for blank bytes is a parameter; disjointness from existing mappings depends on the system and is not stated.
- NearMemoryArena.CandidatesNear: the regions of the layout end below the top of the address space, so that their ends do not wrap.
- Interceptor.Process.DobbyHook: the trampoline, the prologue length and the success of relocation are parameters; a prologue longer than the 64-byte buffer, page permissions and ARM's address bit are not modelled.
- VariableCache.Cache.CacheSet: names are below 128 bytes, which the source does not check.
- VariableCache.Cache.UnserializedFromFile: a negative length is taken as a count that `read` refuses; failing to open the file is not modelled, nor what happens once a buffer is overrun.
- LiteMutableBuffer and CodeBufferBase: the code buffer is a sequence; its growth would repeat the argument made for LiteMutableArray.
- The overlay user interface, foreign-memory access, ELF, PE and dyld handling, supervisor-call monitor, plug-ins and wrappers for mmap, mprotect and threads: foreign calls and tables, which would add only easy members.
