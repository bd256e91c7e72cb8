# A verified model of the SVM program runtime

This project models six parts of the Solana SVM runtime in Dafny and proves what
they promise. `dafny verify dfyconfig.toml` checks all of it.

**Program cache.** For every program the cache keeps a list of versions tagged with
deployment slot, effective slot and runtime environment. `assign_program` inserts,
`prune` follows the root, two routines evict, `extract` answers lookups of a batch on
some fork, and threads share the loading of missing programs. `ForkGraph`,
`ProgramEntry`, `VersionList`, `Lookup`, `Prune` and `Eviction` hold the parts,
`ProgramCache` the cache itself as a class, `CacheRuns` the cache as a state machine,
`CooperativeLoading` the loading protocol in every interleaving.

**Parameter serializer.** An instruction's accounts and data are laid out for the
guest in two ABIs and three host layouts (flat copy, separate regions, direct
mapping). `GuestImage` writes the guest's bytes down once; `MemoryLayout` says what
guest memory a list of regions amounts to; `Serializer` and `Serialization` show that
every layout amounts to that image; `GuestParser` is the guest's own parser for ABI
version 0; `Deserialization` reads everything back.

**CPI preparation and the invocation stack.** `CpiPreparation` merges the account
metas of a nested call in two passes and checks privileges; `CallChain` follows them
down a chain of calls; `InvocationStack` is the stack with its re-entrancy rule.

**CPI synchronisation.** `CpiSync` copies an account between the caller's memory and
its record on entry and exit; `CpiRuns` follows that over any sequence of calls;
`CpiRoom` starts such a sequence from a serialized input and says when an exit stays
inside the room its account has there.

**SBPF assembler and disassembler.** `Ebpf` encodes instructions, `AsmParser` is the
grammar, `Mnemonics` the instruction map, `Assembler` and `AssemblerLabels` the two
passes, `Disassembler` the printer; `AsmText`, `AsmNames` and `AsmRoundTrip` prove that
assembling undoes disassembling.

**Two small cores.** `AlignedMemory` is the buffer that skips writing zeros it knows
are there; `Metrics` the integer moving averages and the retention score.

Properties that fail for some inputs come with the exact condition, and with an input
on the failing side:

- the 16-bit callee map: `MergeMetas`, `PrepareTopLevel`; `TooManyMetas`.
- the second length word after a call: `LengthWordAfterExit`; `StaleWordStays`.
- the room of an account: a deprecated loader without address restrictions accepts exits
  that write over the owner of the account and over the next account. `AcceptedExits`
  says which configurations do, `SerializedLengthDecides` for which lengths;
  `ExitsCollide` shows two accepted exits, the second of which undoes the first.
- negative fills: `PassesAgree`, `JumpsHitLabels`; `BackwardFillMisses`.
- immediates wider than 32 bits: `DecodeEncode`; `WideImmediateIsCut`.
- the dropped frame-pointer bump: `AssemblerUndoesDisassembler`; `BumpIsDropped`.
- saturating averages: `EmaAbove`; `SaturationBreaksLowerBound` with one observation,
  `WeightingBreaksLowerBound` with two.

## Model

| member | source | states |
|---|---|---|
| `ForkGraphs.OnForkLinear` | program-runtime/src/loaded_programs.rs:126-145 | two ancestors of one slot lie on one line of the tree of forks |
| `VersionLists.Bisect` | program-runtime/src/loaded_programs.rs:853-874 | on any list, sorted or not, the search ends at an equal version or between a smaller and a greater one |
| `VersionLists.AssignKeepsWeakOrder` | program-runtime/src/loaded_programs.rs:831-924 | an assign keeps the list sorted by (effective, deployment) slot, whatever environments earlier assigns passed |
| `VersionLists.AssignKeepsCanonical` | program-runtime/src/loaded_programs.rs:831-924 | under one environment an assign keeps the list strictly sorted on the full key and free of conflicting versions |
| `Lookups.Scan` | program-runtime/src/loaded_programs.rs:1059-1131 | the backward scan returns the declarative answer: newest on-branch effective or pending version decides; pending gives the tombstone; otherwise the newest fitting version of that slot, if criteria and payload allow |
| `Pruning.PruneVersions` | program-runtime/src/loaded_programs.rs:956-1003 | the loop keeps exactly the survivors: at or above the new root on its forks, the newest ancestor, older ancestors of another environment |
| `Pruning.BranchAgrees` | program-runtime/src/loaded_programs.rs:964-993 | for a batch at or above the new root, membership of its branch is judged alike before pruning, by pruning and after |
| `Pruning.DecidingVersionSurvives` | program-runtime/src/loaded_programs.rs:964-993 | the version that decides a lookup is the same before and after pruning |
| `Pruning.FittingVersionSurvives` | program-runtime/src/loaded_programs.rs:978-993 | the newest version satisfying a predicate survives whenever the environment rule spares it |
| `Pruning.PrunePreservesLookup` | program-runtime/src/loaded_programs.rs:938-1015 | pruning changes no lookup answer at or above the new root, for every environment and criterion |
| `Eviction.EvictionOnlyLosesHits` | program-runtime/src/loaded_programs.rs:411-431 | unloading any versions only turns hits into misses; every other answer stays |
| `Eviction.CandidateIsFound` | program-runtime/src/loaded_programs.rs:1342-1372 | the search for a candidate inside an eviction never fails |
| `Eviction.UnloadProgress` | program-runtime/src/loaded_programs.rs:1342-1372 | each unload removes at most one loaded version, and exactly the candidate when versions are distinguishable |
| `CacheRuns.RunKeepsWeakOrder` | program-runtime/src/loaded_programs.rs:831-1015 | over every run each list stays sorted by (effective, deployment) slot |
| `CacheRuns.RunKeepsCanonical` | program-runtime/src/loaded_programs.rs:831-1015 | over every run with one assign environment each list stays strictly sorted, with at most one version per deployment slot and environment |
| `CacheRuns.StepOrigin` | program-runtime/src/loaded_programs.rs:831-1015 | no step invents a version: each was there before, up to unloading, or is the one assigned |
| `CacheRuns.RunKeepsRooted` | program-runtime/src/loaded_programs.rs:964-993 | over every run, versions at or below the root lie on the rooted fork |
| `CacheRuns.ForkSafety` | program-runtime/src/loaded_programs.rs:1068-1077 | over every run, a lookup only returns versions deployed at its slot or an ancestor of it |
| `CacheRuns.PruneIsInvisible` | program-runtime/src/loaded_programs.rs:938-1015 | over every run from an empty cache, a rerooting changes no answer at or above the new root |
| `CooperativeLoading.RunKeepsTasks` | program-runtime/src/loaded_programs.rs:1133-1143 | in every interleaving the tasks handed out are exactly the loading map |
| `CooperativeLoading.OneLoaderPerProgram` | program-runtime/src/loaded_programs.rs:1133-1143 | a program has at most one outstanding loader |
| `CooperativeLoading.OneTaskPerExtract` | program-runtime/src/loaded_programs.rs:1133-1143 | one extract hands out at most one task |
| `CooperativeLoading.FinishingNotifies` | program-runtime/src/loaded_programs.rs:1174-1199 | a task that stops being pending was notified in between |
| `CooperativeLoading.WaitReturns` | program-runtime/src/loaded_programs.rs:599-645 | a thread that read its cookie before seeing the program being loaded is not blocked once that task is done, exactly unless a multiple of 2^64 notifications passed |
| `ProgramCaches.UnclaimedMeaning` | program-runtime/src/loaded_programs.rs:1133-1143 | the task is a program left missing that nobody loads; without one, all missing programs are being loaded |
| `ProgramCaches.FoundIsLookedUp` | program-runtime/src/loaded_programs.rs:761-783 | the visibility check of the batch view never changes an extracted answer |
| `ProgramCaches.ProgramCache.AssignProgram` | program-runtime/src/loaded_programs.rs:831-924 | an assign is one step of the state machine; a refused one changes nothing, an accepted one leaves the version in the list |
| `ProgramCaches.ProgramCache.Prune` | program-runtime/src/loaded_programs.rs:938-1015 | every program's list becomes its survivors, empty ones go, the root moves; without a fork graph nothing happens |
| `ProgramCaches.ProgramCache.PruneByDeploymentSlot` | program-runtime/src/loaded_programs.rs:926-935 | exactly the versions deployed in the slot go |
| `ProgramCaches.ProgramCache.RemovePrograms` | program-runtime/src/loaded_programs.rs:1330-1340 | the loop over the keys, repeated and unknown ones included, takes exactly the given programs, with all their versions |
| `ProgramCaches.ProgramCache.Extract` | program-runtime/src/loaded_programs.rs:1042-1159 | every request gets its declarative answer or stays missing, in order; the first unclaimed missing program becomes the task |
| `ProgramCaches.ProgramCache.FinishCooperativeLoadingTask` | program-runtime/src/loaded_programs.rs:1162-1202 | the program is assigned, its loading entry ends, the cookie advances by one |
| `ProgramCaches.ProgramCache.GetFlattenedEntries` | program-runtime/src/loaded_programs.rs:1221-1235 | the candidates are exactly the loaded versions, each once |
| `ProgramCaches.ProgramCache.UnloadProgramEntry` | program-runtime/src/loaded_programs.rs:1342-1372 | no version moves or goes; of the loaded ones exactly the first that looks like the given entry is no longer loaded |
| `ProgramCaches.ProgramCache.SortAndUnload` | program-runtime/src/loaded_programs.rs:1260-1276 | at least, and with distinguishable versions exactly, min(loaded, target) stay loaded, and none dropped was used more than one kept |
| `ProgramCaches.ProgramCache.EvictUsingRandomSelection` | program-runtime/src/loaded_programs.rs:1279-1327 | the same count for any random draws, scores and threshold |
| `ProgramCaches.SampleVictim` | program-runtime/src/loaded_programs.rs:1290-1320 | whatever the draws, the victim is one of the candidates |
| `ProgramCaches.LeastUsedFirst` | program-runtime/src/loaded_programs.rs:1260-1276 | a prefix of the sorted candidates holds none used more than the rest |
| `AlignedMemories.ApplyMeans` | sbpf/src/aligned_memory.rs:108-155 | every operation does to the contents what it says, also where it writes nothing; a refused one changes nothing; the tail stays zero |
| `AlignedMemories.ShortcutIsInvisible` | sbpf/src/aligned_memory.rs:46-155 | over any run, pre-zeroed memory has the contents and answers of memory that always writes |
| `AlignedMemories.AlignedMemory.FillWrite` | sbpf/src/aligned_memory.rs:108-127 | grows the contents by the filled bytes, refused exactly when over capacity |
| `AlignedMemories.AlignedMemory.WriteAllUnchecked` | sbpf/src/aligned_memory.rs:149-155 | appends the bytes, within the capacity its caller must guarantee |
| `AlignedMemories.AlignedMemory.Write` | sbpf/src/aligned_memory.rs:168-180 | appends the bytes, refused exactly when over capacity |
| `GuestImages.WordInverse` | program-runtime/src/serialization.rs:368-383 | a little-endian word gives its number back |
| `GuestImages.ItemsAreAligned` | program-runtime/src/serialization.rs:544-569 | in ABI version 1 every account starts on a multiple of eight |
| `MemoryLayouts.PlacedInside` | program-runtime/src/serialization.rs:192-200 | guest memory inside a region is the region's bytes |
| `MemoryLayouts.PlacedOutside` | program-runtime/src/serialization.rs:192-200 | guest memory outside every region is zero |
| `MemoryLayouts.PushGuest` | program-runtime/src/serialization.rs:192-200 | closing a region does not change guest memory |
| `MemoryLayouts.ConcatRegions` | program-runtime/src/serialization.rs:1439-1452 | copying the regions into zeroed memory gives guest memory |
| `Serializers.SeparateAccount` | program-runtime/src/serialization.rs:128-190 | a region of its own, shrunk to the data, shows the guest the data followed by zeros |
| `Serializers.DirectAccount` | program-runtime/src/serialization.rs:128-190 | data mapped in place, with padding, shows the guest the same |
| `Serializers.Serializer.WriteAccount` | program-runtime/src/serialization.rs:128-190 | in every layout the guest sees the data and its room to grow |
| `Serializers.Serializer.PushRegion` | program-runtime/src/serialization.rs:192-200 | guest memory and host alignment survive |
| `Serializers.Serializer.Finish` | program-runtime/src/serialization.rs:202-206 | the regions are in order and amount to the guest memory written |
| `Serialization.ComputeSize` | program-runtime/src/serialization.rs:334-358 | the precomputed size is exactly the length of the buffer, in both ABIs and all layouts |
| `Serialization.WriteItem` | program-runtime/src/serialization.rs:365-398 | one account or duplicate marker, with all its guest addresses |
| `Serialization.WritePointers` | program-runtime/src/serialization.rs:575-583 | one pointer word per account, to its data |
| `Serialization.Serialize` | program-runtime/src/serialization.rs:222-286 | refuses too many accounts; otherwise no write passes the computed size and the regions amount to the guest image, with the same addresses in every layout and host offset and guest address equal modulo 8 in version 1 |
| `Serialization.OneGuestImage` | program-runtime/src/serialization.rs:319-592 | any two layouts give the same guest memory and addresses; without direct mapping it is the flat buffer byte for byte |
| `GuestParser.DeserializeForAbiV0` | program-runtime/src/serialization.rs:1318-1437 | parsing the image of any accounts, lengths and duplicates recovers every account field, the instruction data and the program id |
| `GuestParser.ItemInImage` | program-runtime/src/serialization.rs:319-409 | where the bytes of an account are in the image |
| `Deserialization.UpdateData` | program-runtime/src/serialization.rs:440-466 | the data comes from the buffer where the program could write it there, otherwise the record's own is cut or extended; data equal to the record's is no change |
| `Deserialization.DeserializeAccountV0` | program-runtime/src/serialization.rs:411-471 | an accepted account agrees with the buffer; the cursor moves by the account's span |
| `Deserialization.DeserializeAccountV1` | program-runtime/src/serialization.rs:594-681 | the same with owner and length, within the growth limit |
| `Deserialization.CursorHitsItem` | program-runtime/src/serialization.rs:411-681 | the deserializer's cursor is where the serializer put the account |
| `Deserialization.Deserialize` | program-runtime/src/serialization.rs:288-317 | after success every account has the lamports, length, owner and data of the buffer at its cursor; an untouched buffer changes nothing and within the limits fails nothing |
| `Deserialization.SerializedIsUntouched` | program-runtime/src/serialization.rs:319-681 | the buffer as serialized counts as untouched, in both ABIs and all layouts |
| `CpiPreparation.IndexOf` | transaction-context/src/transaction.rs:160-165 | the first position of a key, or none if it is absent |
| `CpiPreparation.MergeMetas` | program-runtime/src/invoke_context.rs:336-377 | after the first pass the map takes each account to its first occurrence, which has all its flags; this fails exactly if an account first occurs past position 65535 |
| `CpiPreparation.SentinelCollides` | program-runtime/src/invoke_context.rs:350-376 | past position 65535 the sentinel is taken for a position, of another account |
| `CpiPreparation.TooManyMetas` | program-runtime/src/invoke_context.rs:336-377 | 65537 known metas of two accounts for which the map fails |
| `CpiPreparation.CheckPrivileges` | program-runtime/src/invoke_context.rs:378-428 | every position ends with the union of its account's flags; the error is that of the first account not allowed |
| `CpiPreparation.PrepareNextCpi` | program-runtime/src/invoke_context.rs:320-464 | a call is prepared with unions and the first-occurrence map, or refused for its first fault, exactly when metas, privileges and program demand it |
| `CallChains.PrepareTopLevel` | program-runtime/src/invoke_context.rs:467-507 | top-level accounts carry the message's flags; the map takes each to its first occurrence exactly if none first occurs past position 65535 |
| `CallChains.FindFinds` | transaction-context/src/instruction.rs:149-163 | an account is found in a frame exactly if it is there |
| `CallChains.PrivilegesShrink` | program-runtime/src/invoke_context.rs:320-507 | at any depth an account is one of the top-level instruction's, writable only if the message says so, a signer only if the message says so or a frame above vouched for it |
| `InvocationStacks.InvokeContext.Push` | program-runtime/src/invoke_context.rs:248-276 | refused for re-entrancy exactly if the program runs but is not the last; otherwise at most the next instruction is stacked |
| `InvocationStacks.InvokeContext.PushTransaction` | transaction-context/src/transaction.rs:380-431 | what a push refused by the transaction leaves behind |
| `InvocationStacks.InvokeContext.Pop` | transaction-context/src/transaction.rs:434-466 | the last frame goes even if the instruction is unbalanced |
| `InvocationStacks.InvokeContext.ConfigureCpi` | transaction-context/src/transaction.rs:277-320 | only the placeholder changes |
| `InvocationStacks.RunKeepsContiguity` | program-runtime/src/invoke_context.rs:248-282 | over every run each program id occupies one block of the stack |
| `InvocationStacks.ReentryIsDirect` | program-runtime/src/invoke_context.rs:254-272 | an accepted push of a running program comes from that program itself |
| `CpiSync.UpdateCallee` | program-runtime/src/cpi.rs:1181-1244 | after entry the record has the caller's lamports, owner and data, what it gives up is cleared, and the flag says when the caller must be updated; whatever the two lengths of the caller are |
| `CpiSync.UpdateCaller` | program-runtime/src/cpi.rs:1295-1385 | after exit the caller has the record's data and length, bytes no longer used are zero, all others as before; refused as outgrown exactly beyond the reserved space, as too small exactly if the length word changed and the slice does not fit it, both without a write |
| `CpiRuns.LengthWordAfterExit` | program-runtime/src/cpi.rs:1332-1369 | the second length word agrees after exit exactly if the length changed or it agreed before |
| `CpiRuns.StaleWordStays` | program-runtime/src/cpi.rs:1332-1369 | a second length word that is wrong before and after an exit |
| `CpiRuns.ExitOfNoChange` | program-runtime/src/cpi.rs:1295-1385 | exit with an unchanged record changes nothing |
| `CpiRuns.RoundTripOfNoChange` | program-runtime/src/cpi.rs:1181-1385 | entry and exit around a callee that changes nothing leave the caller's memory as it was |
| `CpiRuns.EnterAll` | program-runtime/src/cpi.rs:881-904 | the entry loop brings every record in step and leaves a caller's memory alone that is in order |
| `CpiRuns.IdleCallIsInvisible` | program-runtime/src/cpi.rs:881-933 | in copy mode the entered accounts are those the exit loop leaves alone, so a call whose callee does nothing succeeds and changes nothing |
| `CpiRuns.LeaveAll` | program-runtime/src/cpi.rs:918-933 | from memory in order, records that fit the space given leave every writable account in step, every other alone and the memory in order; they fit whenever the loop succeeds, unless the loader is deprecated and unrestricted; accounts in step already are left as they are |
| `CpiRuns.RunKeepsSync` | program-runtime/src/cpi.rs:828-952 | over any sequence of calls lengths agree and tails are zero, and after each exit the caller sees the account as the callee left it; without address restrictions, as long as records fit the space given |
| `CpiRoom.CallerAtMetadata` | program-runtime/src/serialization.rs:365-398 | these accounts are where the metadata handed to the runtime say |
| `CpiRoom.SerializedIsInOrder` | program-runtime/src/serialization.rs:319-592 | any distinct accounts of any serialized input are in order and in step, in both ABIs and every configuration, so runs start there |
| `CpiRoom.SerializedRunKeepsSync` | program-runtime/src/cpi.rs:828-952 | the same over any sequence of calls from any serialized input |
| `CpiRoom.SerializedLengthDecides` | program-runtime/src/cpi.rs:1332-1382 | an exit stays inside that room whatever the callee wrote exactly if the length fits it: in version 0, if the account did not grow |
| `CpiRoom.AcceptedExits` | program-runtime/src/cpi.rs:1311-1330 | from a serialized input, every exit the length check accepts stays inside the room of its account, exactly unless the loader is deprecated and unrestricted |
| `CpiRoom.GrowthReachesOwner` | program-runtime/src/serialization.rs:365-398 | in version 0 an account that grew has a data byte where its owner starts |
| `CpiRoom.ExitsCollide` | program-runtime/src/cpi.rs:1308-1385 | two accepted exits of a deprecated, unrestricted program: the first writes over its owner bytes, the second over the data of the first |
| `Ebpf.PcInProgram` | sbpf/src/ebpf.rs:626-628 | the saturating guard is exactly that the instruction lies inside the program |
| `Ebpf.DecodeEncode` | sbpf/src/ebpf.rs:587-683 | decoding an encoded instruction returns every field; the immediate exactly if it fits 32 bits |
| `Ebpf.WideImmediateIsCut` | sbpf/src/ebpf.rs:587-683 | an immediate of 2^31 comes back as -2^31 |
| `Ebpf.MergeLddw` | sbpf/src/ebpf.rs:687-690 | the two halves of a wide load give the 64-bit immediate back |
| `AsmText.DigitsRead` | sbpf/src/asm_parser.rs:66-78 | a number printed in a base is read back in it |
| `AsmText.IntegerReads` | sbpf/src/asm_parser.rs:66-78 | a printed decimal, signed or not, parses to its value whatever follows |
| `AsmText.HexReads` | sbpf/src/asm_parser.rs:66-78 | a printed hexadecimal, two's complement if negative, parses to its value |
| `AsmText.RegisterReads` | sbpf/src/asm_parser.rs:80-86 | a printed register parses to its number |
| `AsmText.MemoryReads` | sbpf/src/asm_parser.rs:88-104 | a printed memory operand parses to its register and signed offset |
| `AsmText.TwoOperands` | sbpf/src/asm_parser.rs:121-127 | a printed line of two operands parses to its statement, whatever line follows |
| `Assembler.RegisterFunction` | sbpf/src/program.rs:122-140 | refused exactly if the key is taken by another position; all else is kept |
| `Assembler.FirstPass` | sbpf/src/assembler.rs:331-360 | the labels are the positions of their last definitions; every function label is registered |
| `Assembler.SecondPass` | sbpf/src/assembler.rs:361-507 | the instructions are those of the statements in order, or the first error |
| `AssemblerLabels.PointersAreIndices` | sbpf/src/assembler.rs:361-507 | instruction i has pointer i |
| `AssemblerLabels.PassesAgree` | sbpf/src/assembler.rs:335-507 | the passes agree on a position exactly if no negative fill comes before it |
| `AssemblerLabels.LabelMeaning` | sbpf/src/assembler.rs:333-345 | a label stands for its last definition; the entry point needs none |
| `AssemblerLabels.JumpsHitLabels` | sbpf/src/assembler.rs:275-284 | every jump to a label lands on the first instruction after the label's last definition, exactly if no negative fill comes before that |
| `AssemblerLabels.BackwardFillMisses` | sbpf/src/assembler.rs:331-507 | a program with a fill of -1 assembles, and its jump goes one instruction before the label |
| `AssemblerLabels.DecodeProgram` | sbpf/src/assembler.rs:508-511 | decoding the emitted bytes returns each instruction, its immediate cut to 32 bits |
| `AssemblerLabels.InstructionDecodes` | sbpf/src/assembler.rs:385-502 | what an instruction statement emits is decoded in full, a 64-bit immediate included |
| `AssemblerLabels.FillBytes` | sbpf/src/assembler.rs:369-383 | a fill emits the eight bytes of its value, low byte first |
| `AssemblerLabels.Assemble` | sbpf/src/assembler.rs:323-511 | success gives the assembly of the statements and its bytes; failure its first error |
| `AsmNames.ShapeKnown` | sbpf/src/disassembler.rs:121-302 | under every printed name the assembler finds the opcode it was printed for, in every version |
| `AsmNames.SwapIsFound` | sbpf/src/disassembler.rs:37-44 | the same for byte swaps of 16, 32 and 64 bits |
| `AsmRoundTrip.TextReads` | sbpf/src/disassembler.rs:27-85 | every printed line parses to its statement |
| `AsmRoundTrip.EmitGivesBack` | sbpf/src/assembler.rs:385-502 | assembling that statement gives the instruction back, or a no-op for a dropped frame-pointer bump |
| `AsmRoundTrip.ListingReads` | sbpf/src/asm_parser.rs:164-180 | a whole listing parses to its statements |
| `AsmRoundTrip.AssemblerUndoesDisassembler` | sbpf/src/disassembler.rs:113-308 | printing, parsing, assembling and decoding a program gives each instruction back, exactly unless it is a dropped frame-pointer bump |
| `AsmRoundTrip.BumpIsDropped` | sbpf/src/assembler.rs:385-502 | in version 0 an addition to the frame pointer prints and assembles, and is not given back |
| `Metrics.EmaBelow` | program-runtime/src/program_metrics.rs:44-75 | the average never exceeds 1000 times the largest observation, saturated or not |
| `Metrics.EmaAbove` | program-runtime/src/program_metrics.rs:44-75 | for observations of at least lo the average is at least 1000 lo exactly if 1000 lo, weighted by window + 1 from the second observation on, fits 64 bits |
| `Metrics.SaturationBreaksLowerBound` | program-runtime/src/program_metrics.rs:44-75 | one enormous observation is averaged too low |
| `Metrics.WeightingBreaksLowerBound` | program-runtime/src/program_metrics.rs:44-75 | an observation averaged exactly when made once and too low when made twice |
| `Metrics.DurationStatistics.Observe` | program-runtime/src/program_metrics.rs:78-100 | count, sum and average are those of all observations |
| `Metrics.DurationStatistics.MergeFrom` | program-runtime/src/program_metrics.rs:102-152 | counts and sums add up; absent wrap-around the average lies between the two |
| `Metrics.CombinedBetween` | program-runtime/src/program_metrics.rs:225-242 | absent wrap-around the combination lies between the two averages |
| `Metrics.BitLengthMeaning` | program-runtime/src/loaded_programs.rs:546-548 | the bit length is at most k exactly for numbers below 2^k |
| `Metrics.RetentionBound` | program-runtime/src/loaded_programs.rs:519-549 | the score exceeds the last access by at most 128 |
| `Metrics.RetentionMonotone` | program-runtime/src/loaded_programs.rs:519-549 | the score is monotone in access, cost and frequency |

## Left out

- `prune` with a new environment as a lookup-preserving step: it drops versions of the old environment on purpose.
- The access slot of cache entries: it only feeds the retention score, which eviction takes as a parameter.
- The statistics counters of the cache other than use counts, and the percentage a target is computed from: the target is a parameter.
- Sharing of `Arc` pointers between cache and batch: usage statistics are reached by handle, everything else is a value.
- The exact probes of the standard library's binary search: any bisection is allowed, so the list properties hold for all of them.
- Serialize: assumes that guest addresses and buffer stay below 2^64, where the source saturates.
- The alignment checks on host pointers and the access-violation handler that grows regions at run time.
- The memory mapping, address translation and the pointer checks when a caller account is built: a caller account is given with its addresses in one byte array.
- UpdateCallee: an access outside the byte array, which the source makes unchecked with address-space adjustments because it takes the reserved space to be mapped, is an error of its own here.
- RunKeepsSync: between calls the caller's program is assumed to keep its two length words equal and what it gives up cleared; `LengthWordAfterExit` says what happens otherwise. Without address restrictions the records are assumed to fit the space given, where the code does not bound them; `AcceptedExits` and `ExitsCollide` say what happens otherwise.
- Deserialize: an account whose update fails comes back unchanged, while the source may have set its lamports or its data by then.
- Direct mapping in CPI synchronisation: there is no data to copy, only regions to replace.
- The trace bookkeeping of a prepared instruction besides its program, and rent, lamport and borrow checks: their outcomes are parameters of push and pop.
- Positions of instructions at or beyond 2^63, and the construction of the executable from the assembled bytes.
- Mnemonics.Lookup: gives the instruction map as the finite function it is, not the hash map being filled.
- Letters and white space outside ASCII in assembly text, and parser error messages.
- Jumps and calls by immediate in the disassembler: they print names from the analysis of a whole program.
- ToArray: requires register numbers below 16, which both the assembler and the decoder guarantee.
- The bump allocator, the compute meter, sysvars, the interpreter, the verifier, the ELF loader and the JIT compilers: they would add easy members or are not part of this model.
- Symbol hashing and address derivation: the hash is a parameter, derived signers are given.
