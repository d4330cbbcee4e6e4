# Android framework cores

A Dafny model of the stateful cores of the Android framework sources in this
repository, with proofs of what they keep.

| file | models |
|---|---|
| SharedBuffer, VectorImpl, VectorRun, VectorGrowth, SortedVector | copy-on-write vectors over shared, reference-counted storage, whole runs over many of them, their growth cost, and the sorted vector |
| Sequences | small facts about numbers and sequences |
| Words, ArmMachine | 32-bit words and the part of the ARM instruction set the code generator emits |
| Encodings | the emitted words as numbers |
| Immediates, ARMAssembler, CallFrame, RegisterFile, Epilogs | immediates, branches and labels, prolog and epilog, the register file, and routines with two ways out |
| MaskChunks, GGLAssembler, PixelStages | AND with a constant, logic ops and colour masking |
| Scanline, Fragment | a whole routine for one fragment, from prolog to return, and the retry loop |
| CodeCache, CacheRun | the cache of generated code, and whole runs of requests to it |
| Adts, BufferRing, BufferQueueSource, AacAdtsExtractor | ADTS frames from the validator through the buffer queue to the extractor |
| PcmQueue | decoded audio into, and played audio out of, a buffer queue |
| CallbackProtector | callbacks against a destroyer, as interleaved steps of any number of threads |
| VencBufferManager | a list of buffer headers threaded through a pool of nodes |
| CommandTokenizer | the command-line tokenizer of the socket listener |
| InnerBlocks | basic blocks sorted and cut so that they do not overlap |

Objects that the sources update in place are classes here, with a `Valid()` that
every method keeps; what they promise is stated as functions of their abstract
contents. Generated code is run on the machine of ArmMachine, so what is proved
of an emitter is what the emitted words do on every machine state; Encodings ties
the words to the numbers of the ARM manual, so that the machine and the emitter do
not merely agree with each other.

`Vectors.Universe` is the ghost record of all vectors and buffers: its `Valid()`
says that every live buffer's count is the number of vectors pointing at it, that
a buffer is live exactly while that number is positive, and that no vector points
at a freed one.

Where the code falls short of what one would expect of it, the exact condition is
proved beside an example: the append in place that skips the detach
(`PushVisibleIff`, `AppendToBoth`), the fast merge with equal boundary
items (`MergedIsAddedAllIff`, `MergeDuplicates`), chunks rotated by more than 32
places (`AndResultIff`, `UnluckyMaskDoesNotFit`), a direct texture left uncleared in
the masking stage (`PlainSourceIff`, `DirectTextureLeaks`), a null header in the
pooled list (`Push`, `NullPushLoops`), basic blocks that wrap round at the top of the
address space (`SplitDisjointIff`, `WrappedBlockStays`, `LastWrapsToFirst`) and blocks
that lose code to the cut (`CoverageKeptIff`, `EnclosingTailLost`).

Run `dafny verify dfyconfig.toml` to check everything.

## Model

| member | source | states |
|---|---|---|
| `SharedBuffers.SharedBuffer.Release` | framework_library_code/frameworks/SharedBuffer.cpp:93-103 | the count drops by one, and the block dies exactly at zero unless its storage is kept |
| `SharedBuffers.SharedBuffer.AttemptEdit` | framework_library_code/frameworks/SharedBuffer.cpp:71-77 | the block itself exactly for a sole owner |
| `SharedBuffers.SharedBuffer.EditResize` | framework_library_code/frameworks/SharedBuffer.cpp:51-69 | in place for a sole owner; otherwise a private copy, the shared block losing one reference and nothing else |
| `Vectors.Universe.Repointed` | framework_library_code/frameworks/VectorImpl.cpp:86-100 | reference counts stay exact and no other vector changes when one vector moves to a new block |
| `Vectors.Universe.Switched` | framework_library_code/frameworks/VectorImpl.cpp:68-84 | the same when a vector lets go of one block and acquires another one in use |
| `Vectors.Universe.Joined` | framework_library_code/frameworks/VectorImpl.cpp:49-56 | the same when a copy of a vector is constructed |
| `Vectors.Universe.SoleSharer` | framework_library_code/frameworks/SharedBuffer.cpp:71-77 | a count of one means that no second vector can see the block |
| `Vectors.Vector.EditArrayImpl` | framework_library_code/frameworks/VectorImpl.cpp:86-100 | after detaching the count is one, contents and capacity are as before, and no other vector has changed |
| `Vectors.Vector.Grow` | framework_library_code/frameworks/VectorImpl.cpp:273-321 | whichever of the four paths is taken the items around the gap are the old ones and at most the old items are copied; a reallocation gives four cells for up to two items and half as many again, rounded up, for more |
| `Vectors.Vector.InsertAt` | framework_library_code/frameworks/VectorImpl.cpp:131-144 | exactly the sequence insertion; other vectors keep their contents, except sharers that reach into the cells filled in place |
| `Vectors.InsertedAt` | framework_library_code/frameworks/VectorImpl.cpp:131-144 | item by item: those before the place stay, then the new ones, then the others moved up |
| `Vectors.Vector.InsertVectorAt` | framework_library_code/frameworks/VectorImpl.cpp:110-119 | the same for a whole vector, which may share the storage |
| `Vectors.Vector.Push` | framework_library_code/frameworks/VectorImpl.cpp:157-160 | appends; when it stays in place only sharers longer than the receiver see it |
| `Vectors.Vector.Shrink` | framework_library_code/frameworks/VectorImpl.cpp:323-374 | exactly the sequence removal on every path; the storage is unshared afterwards, and with less than a third of the cells left in use it is cut to twice the items, but to no fewer than four cells |
| `Vectors.GrowRule` | framework_library_code/frameworks/VectorImpl.cpp:281-284 | the capacity asked for is four up to two items and one and a half times the items, rounded up, from three on |
| `Vectors.ShrinkRule` | framework_library_code/frameworks/VectorImpl.cpp:334-337 | the capacity asked for is twice the items, and never below four |
| `Vectors.Vector.RemoveItemsAt` | framework_library_code/frameworks/VectorImpl.cpp:194-204 | BAD_VALUE exactly out of range, else the removal; no other vector changes |
| `Vectors.RemovedAt` | framework_library_code/frameworks/VectorImpl.cpp:194-204 | item by item: those before the place stay, those behind the removed ones move down |
| `Vectors.Vector.Pop` | framework_library_code/frameworks/VectorImpl.cpp:146-150 | drops the last item, with its capacity and copying cost |
| `Vectors.Vector.Clear` | framework_library_code/frameworks/VectorImpl.cpp:213-216 | empties the receiver and no other vector |
| `Vectors.Vector.ReplaceAt` | framework_library_code/frameworks/VectorImpl.cpp:177-192 | one item changes, in the receiver alone |
| `Vectors.Vector.SetCapacity` | framework_library_code/frameworks/VectorImpl.cpp:242-260 | contents stay; a request above the size gives private storage of that capacity |
| `Vectors.Vector.Assign` | framework_library_code/frameworks/VectorImpl.cpp:68-84 | the receiver takes over the contents by sharing; counts stay exact |
| `Vectors.Vector.Copy` | framework_library_code/frameworks/VectorImpl.cpp:49-56 | the copy shares the storage, which has one reference more, and has the same contents |
| `Vectors.Vector.FinishVector` | framework_library_code/frameworks/VectorImpl.cpp:206-211 | a vector that goes lets its storage go, freed exactly by the last one |
| `Vectors.WriteThroughInvisibleIff` | framework_library_code/frameworks/VectorImpl.cpp:309-317 | the append in place is invisible to a sharer, whatever the item, exactly when the sharer is no longer than the receiver |
| `Vectors.PushVisibleIff` | framework_library_code/frameworks/VectorImpl.cpp:309-317 | a push leaves every other vector alone exactly when it does not stay in place, or every longer sharer has that very item there already |
| `Vectors.AppendToBoth` | framework_library_code/frameworks/VectorImpl.cpp:309-317 | of two equal sharers with room to spare the first to append loses its item to the second |
| `Vectors.WriteThroughRun` | framework_library_code/frameworks/VectorImpl.cpp:309-317 | such a state is reached from empty vectors by a concrete run |
| `VectorRuns.Run` | framework_library_code/frameworks/VectorImpl.cpp:68-321 | over any calls on any vectors, insertVectorAt and setCapacity among them, if nothing is appended to a vector while a longer one may share its storage, which the calls alone tell, every vector is what a sequence of its own would be |
| `VectorRuns.UnsharedIsGentle` | framework_library_code/frameworks/VectorImpl.cpp:68-84 | calls without assignment always are of that kind |
| `VectorRuns.NoAppendIsGentle` | framework_library_code/frameworks/VectorImpl.cpp:86-100 | calls that never insert are too, however they share |
| `VectorRuns.AppendingToBoth` | framework_library_code/frameworks/VectorImpl.cpp:309-317 | appending to both of two sharers is not |
| `VectorGrowth.StepPays` | framework_library_code/frameworks/VectorImpl.cpp:281-292 | a push or pop costs at most 6 plus twice the drop of max(0, 3 size - 2 cap, cap - 2 size) |
| `Vectors.CostRules` | framework_library_code/frameworks/VectorImpl.cpp:273-374 | where a push that grows costs the items there were, and a pop that shrinks twice the items left |
| `VectorGrowth.RunPays` | framework_library_code/frameworks/VectorImpl.cpp:334-344 | so a run of n costs at most 6n plus twice the initial potential |
| `VectorGrowth.Run` | framework_library_code/frameworks/VectorImpl.cpp:273-344 | from empty, n pushes and pops copy at most 6n items, behave as the plain sequence and touch no other vector |
| `SortedVectors.IndexOrderOf` | framework_library_code/frameworks/VectorImpl.cpp:457-481 | binary search finds an item exactly when present and otherwise its insertion point |
| `SortedVectors.SearchPins` | framework_library_code/frameworks/VectorImpl.cpp:457-481 | there is only one place a search result can be |
| `SortedVectors.AddedIs` | framework_library_code/frameworks/VectorImpl.cpp:483-493 | adding keeps strict order and replaces exactly the item with that key |
| `SortedVectors.WithoutIs` | framework_library_code/frameworks/VectorImpl.cpp:530-537 | removing keeps strict order and drops exactly that item |
| `SortedVectors.Add` | framework_library_code/frameworks/VectorImpl.cpp:483-493 | the vector becomes the ordered set with the item added; other vectors stay |
| `SortedVectors.Remove` | framework_library_code/frameworks/VectorImpl.cpp:530-537 | the vector becomes the ordered set without the item |
| `SortedVectors.SameItems` | framework_library_code/frameworks/VectorImpl.cpp:457-537 | a sorted vector is determined by its set of items |
| `SortedVectors.AddedAllIs` | framework_library_code/frameworks/VectorImpl.cpp:495-510 | adding item by item, in any order: of each key added the last item wins, the others stay |
| `SortedVectors.MergeNaive` | framework_library_code/frameworks/VectorImpl.cpp:495-510 | the slow merge is adding item by item |
| `SortedVectors.Merge` | framework_library_code/frameworks/VectorImpl.cpp:512-528 | the three cases of the fast merge of two sorted vectors, the receiver not being empty |
| `SortedVectors.MergedIsAddedAllIff` | framework_library_code/frameworks/VectorImpl.cpp:512-528 | the fast merge equals adding one by one exactly when no boundary items share a key |
| `SortedVectors.MergeDuplicates` | framework_library_code/frameworks/VectorImpl.cpp:516-523 | with a shared boundary key the item is kept twice |
| `Immediates.Normalize` | framework_library_code/frameworks/GGLAssembler.cpp:865-879 | the loop stops at the first even turn that brings the value low, or comes round to where it began |
| `Immediates.StopExists` | framework_library_code/frameworks/ARMAssemblerInterface.cpp:41-52 | on a non-zero encodable word the rotation loop does stop within a turn |
| `Immediates.StopIsSmall` | framework_library_code/frameworks/ARMAssemblerInterface.cpp:41-52 | wherever it stops on an encodable word the value fits eight bits |
| `Immediates.TurnBack` | framework_library_code/frameworks/ARMAssemblerInterface.cpp:55-61 | turning back always gives the word again, so the bogus result cannot arise |
| `Immediates.BuildImmediate` | framework_library_code/frameworks/ARMAssemblerInterface.cpp:35-64 | error 0 exactly for words that are eight bits rotated right by an even amount, with fields that decode to the word; never -1 |
| `Immediates.EncodableIff` | framework_library_code/frameworks/ARMAssemblerInterface.cpp:35-64 | such words are those whose set bits lie within eight neighbouring places, the first of them even, going round |
| `ArmMachine.DecodeDp` | framework_library_code/frameworks/ARMAssembler.cpp:211-215 | a data-processing word decodes to the operation, registers and operand it was built from |
| `ArmMachine.DecodeImm` | framework_library_code/frameworks/ARMAssemblerInterface.cpp:74-88 | an immediate operand decodes to its rotated value |
| `Encodings.DpNumbers` | framework_library_code/frameworks/ARMAssembler.cpp:211-215 | the words of AND, EOR, ORR, MOV, BIC and MVN as numbers, for all registers and operands |
| `Encodings.RegNumber` | framework_library_code/frameworks/ARMAssembler.cpp:211-215 | a register operand is its number |
| `Encodings.ImmNumber` | framework_library_code/frameworks/ARMAssemblerInterface.cpp:74-88 | an immediate operand is bit 25, the rotation from bit 8 on, and the byte |
| `Encodings.AndLiteral` | framework_library_code/frameworks/GGLAssembler.cpp:908-910 | AND r1, r0, #0xFF is 0xE20010FF |
| `Encodings.NopLiteral` | framework_library_code/frameworks/ARMAssembler.cpp:149-155 | the patched prolog of a routine that saves nothing is 0xE1A00000 |
| `ARMAssemblers.BranchLandsIff` | framework_library_code/frameworks/ARMAssembler.cpp:271-281 | a branch lands on its target exactly when the distance fits 24 bits |
| `Encodings.BranchNumber` | framework_library_code/frameworks/ARMAssembler.cpp:271-281 | the word of a branch as a number, for all conditions, places and targets |
| `ARMAssemblers.DecodeBlock` | framework_library_code/frameworks/ARMAssembler.cpp:326-342 | a load or store multiple decodes to its mode, base, write-back bit and register list |
| `Encodings.BlockNumber` | framework_library_code/frameworks/ARMAssembler.cpp:326-342 | the word of a load or store multiple as a number |
| `Encodings.StackNumbers` | framework_library_code/frameworks/ARMAssembler.cpp:326-342 | STM and LDM in the four stack modes as numbers, for all bases and register lists |
| `Encodings.FrameLiterals` | framework_library_code/frameworks/ARMAssembler.cpp:132-160 | the prolog and epilog for r4 to r11 are 0xE92D4FF0, and 0xE8BD4FF0 and 0xE12FFF1E |
| `ARMAssemblers.DecodeBx` | framework_library_code/frameworks/ARMAssembler.cpp:283-286 | BX decodes to its register |
| `Encodings.BxNumber` | framework_library_code/frameworks/ARMAssembler.cpp:283-286 | the word of BX as a number |
| `Encodings.BxRuns` | framework_library_code/frameworks/ARMAssembler.cpp:283-286 | and, run, it goes on at the address in its register |
| `ARMAssemblers.LinkStep` | framework_library_code/frameworks/ARMAssembler.cpp:166-173 | fixing up one placeholder makes that branch direct and leaves every other word |
| `ARMAssemblers.ARMAssembler.BranchToLabel` | framework_library_code/frameworks/ARMAssembler.cpp:114-124 | a placeholder with condition and link bit, recorded under the label |
| `ARMAssemblers.ARMAssembler.Label` | framework_library_code/frameworks/ARMAssembler.cpp:108-112 | the label stands for the present place; a label set twice keeps its last one |
| `ARMAssemblers.ARMAssembler.Branch` | framework_library_code/frameworks/ARMAssembler.cpp:271-281 | the direct branch to a place in the code |
| `ARMAssemblers.ARMAssembler.Epilog` | framework_library_code/frameworks/ARMAssembler.cpp:139-160 | only the prolog word is rewritten, and the matching return is emitted |
| `ARMAssemblers.ARMAssembler.Generate` | framework_library_code/frameworks/ARMAssembler.cpp:162-173 | fatal exactly for an unknown label; else every branch to a label is bit-equal to the direct branch there and no other word changes |
| `CallFrames.ModesMatch` | framework_library_code/frameworks/ARMAssembler.cpp:326-342 | in each stack mode STM leaves the base where LDM starts, and LDM puts it back |
| `CallFrames.StoreKeeps` | framework_library_code/frameworks/ARMAssembler.cpp:335-342 | a store multiple writes no slot twice, addresses wrapping at 2^32 |
| `CallFrames.LoadStored` | framework_library_code/frameworks/ARMAssembler.cpp:326-342 | loading what was stored brings exactly the listed registers back |
| `CallFrames.StackLayout` | framework_library_code/frameworks/ARMAssembler.cpp:326-342 | where STM puts each register, in each mode: lower registers at lower addresses, from the first slot of the stack on |
| `CallFrames.StackMoves` | framework_library_code/frameworks/ARMAssembler.cpp:326-342 | and where it leaves the base |
| `CallFrames.PushPop` | framework_library_code/frameworks/ARMAssembler.cpp:326-342 | LDM undoes STM of the same mode whatever happened to registers in between |
| `CallFrames.RoutineReturns` | framework_library_code/frameworks/ARMAssembler.cpp:132-160 | the patched prolog and the epilog for one mask return with SP and all callee-saved registers as on entry, PC at the entry LR |
| `RegisterFiles.RegisterFile.Reset` | framework_library_code/frameworks/GGLAssembler.cpp:1053-1058 | only SP and PC are handed out, and touched |
| `RegisterFiles.RegisterFile.Reserve` | framework_library_code/frameworks/GGLAssembler.cpp:1060-1068 | the register is in use, and touched stays exactly what was handed out since reset |
| `RegisterFiles.RegisterFile.ReserveSeveral` | framework_library_code/frameworks/GGLAssembler.cpp:1070-1074 | the same for a mask |
| `RegisterFiles.RegisterFile.Obtain` | framework_library_code/frameworks/GGLAssembler.cpp:1082-1107 | the first free register of the priority list, or SP and the error status exactly when there is none |
| `RegisterFiles.GrantOrder` | framework_library_code/frameworks/GGLAssembler.cpp:1084-1104 | register by register: r0 to r3, r12, r14, r4 to r11, and r13 when none is left |
| `RegisterFiles.RegisterFile.Recycle` | framework_library_code/frameworks/GGLAssembler.cpp:1125-1131 | the register is free again and stays touched |
| `RegisterFiles.TouchedIsPeak` | framework_library_code/frameworks/GGLAssembler.cpp:1060-1131 | over any run of obtains, recycles and spills the touched registers of the list are the first ones, as many as were ever held at once |
| `RegisterFiles.TouchedStaysIff` | framework_library_code/frameworks/GGLAssembler.cpp:1060-1131 | a further run touches nothing new exactly when it never holds more at once than were touched |
| `RegisterFiles.ScopesPeak` | framework_library_code/frameworks/GGLAssembler.cpp:1082-1131 | scratch scopes of at most k registers hold at most k more |
| `RegisterFiles.Allocate` | framework_library_code/frameworks/GGLAssembler.cpp:1082-1131 | a run of the register file is the run of the two masks; the status is set exactly when some obtain finds no register |
| `Epilogs.SameSavesIff` | framework_library_code/frameworks/GGLAssembler.cpp:323-341 | the masks before and after a run save the same registers exactly when it holds no more at once than were touched, or than the five that need no saving |
| `Epilogs.ReturnsIff` | framework_library_code/frameworks/ARMAssembler.cpp:132-160 | an epilog under the prolog of a later one returns as it should, after every body, exactly when both masks save the same registers |
| `Epilogs.BothReturnIff` | framework_library_code/frameworks/GGLAssembler.cpp:323-341 | the later epilog always returns as it should; the earlier one has the same mask exactly when no more registers are held at once between them than were before, and returns as it should exactly then or with at most five held |
| `Epilogs.ScratchBetween` | framework_library_code/frameworks/GGLAssembler.cpp:326-340 | with only scratch scopes between the epilogs, none wider than what was once held before beyond what is held now, both epilogs have one mask and return as they should; the source opens scopes of at most four (texturing.cpp:656-666) where build_textures held six (texturing.cpp:461-471) |
| `Epilogs.TwoEpilogs` | framework_library_code/frameworks/GGLAssembler.cpp:191-341 | the words of a routine with two ways out, and the same for its two masks |
| `MaskChunks.FindBottom` | framework_library_code/frameworks/GGLAssembler.cpp:857-863 | the lowest even place with a bit in its pair |
| `MaskChunks.NewMaskRotates` | framework_library_code/frameworks/GGLAssembler.cpp:900-906 | up to 32 places the two shifts rotate the chunk |
| `MaskChunks.NewMaskLost` | framework_library_code/frameworks/GGLAssembler.cpp:900-906 | past 32 places they lose it |
| `MaskChunks.NewMaskEncodable` | framework_library_code/frameworks/GGLAssembler.cpp:900-911 | every chunk can be encoded, so the fatal path of imm is not reached |
| `MaskChunks.AtMostFour` | framework_library_code/frameworks/GGLAssembler.cpp:899-912 | a mask has at most four chunks |
| `MaskChunks.FittingChunksClearAll` | framework_library_code/frameworks/GGLAssembler.cpp:899-912 | with every chunk turned at most 32 places the immediates together are the mask |
| `MaskChunks.LostBit` | framework_library_code/frameworks/GGLAssembler.cpp:899-912 | with a chunk turned further some bit of the mask is missing from them |
| `GGLAssemblers.AndResultIff` | framework_library_code/frameworks/GGLAssembler.cpp:881-917 | the low bits are s AND mask for every s exactly when no chunk is turned past 32 places |
| `GGLAssemblers.NarrowMasksFit` | framework_library_code/frameworks/GGLAssembler.cpp:881-917 | that holds for all masks over at most 26 bits |
| `GGLAssemblers.ByteMasksFit` | framework_library_code/frameworks/GGLAssembler.cpp:881-917 | and for all byte-granular masks over 32 bits |
| `GGLAssemblers.UnluckyMaskDoesNotFit` | framework_library_code/frameworks/GGLAssembler.cpp:881-917 | a 32-bit mask for which the emitted code is wrong |
| `GGLAssemblers.ImmOperand` | framework_library_code/frameworks/ARMAssemblerInterface.cpp:74-88 | on an encodable word the operand decodes to it |
| `GGLAssemblers.KeepsThen` | framework_library_code/frameworks/GGLAssembler.cpp:899-912 | a second AND or BIC in place keeps the intersection |
| `GGLAssemblers.EmitChunks` | framework_library_code/frameworks/GGLAssembler.cpp:898-912 | the emitting loop: one instruction a chunk, whose run leaves in d exactly the wanted bits of s |
| `GGLAssemblers.BuildAndImmediate` | framework_library_code/frameworks/GGLAssembler.cpp:881-917 | at most four instructions, which on any machine state write d only, with the bits of s that KeepMask selects |
| `PixelStages.AluIsLogic` | framework_library_code/frameworks/GGLAssembler.cpp:829-852 | each instruction computes the logic op of the OpenGL table, or its complement where an MVN follows |
| `PixelStages.CodeIsTable` | framework_library_code/frameworks/GGLAssembler.cpp:815-845 | the op counted from GL_CLEAR is its own truth table |
| `PixelStages.EmitLogicOp` | framework_library_code/frameworks/GGLAssembler.cpp:829-852 | for all sixteen ops the code puts the op of source and destination into the pixel register and does nothing else |
| `PixelStages.BuildLogicOp` | framework_library_code/frameworks/GGLAssembler.cpp:812-853 | with its register: the pixel's own if it may be overwritten, else one not in use |
| `PixelStages.ChannelMask` | framework_library_code/frameworks/GGLAssembler.cpp:934-942 | the mask has exactly the bits of components that are not masked |
| `Encodings.Mask8888` | framework_library_code/frameworks/GGLAssembler.cpp:934-942 | of four bytes with alpha highest and masked the mask is 0x00FFFFFF |
| `Encodings.Mask565` | framework_library_code/frameworks/GGLAssembler.cpp:934-942 | of 5-6-5 with green masked it is 0xF81F |
| `PixelStages.BuildMasking` | framework_library_code/frameworks/GGLAssembler.cpp:919-972 | the code merges what is kept of source and destination; nothing is emitted when no or every component is masked |
| `PixelStages.ClearedSourceRight` | framework_library_code/frameworks/GGLAssembler.cpp:948-972 | clearing the masked source bits first gives the merged pixel |
| `PixelStages.PlainSourceIff` | framework_library_code/frameworks/GGLAssembler.cpp:944-972 | leaving the source alone is right for every destination exactly when no masked source bit is set |
| `PixelStages.AliasedSourceIff` | framework_library_code/frameworks/GGLAssembler.cpp:961-969 | with the framebuffer register as source, which only the defensive branch of lines 288-292 would give, the result is right exactly when the destination has no written bit set |
| `PixelStages.DirectTextureLeaks` | framework_library_code/frameworks/GGLAssembler.cpp:251-255 | a direct texture with one component masked and a plain copy: the code for 8888 writes the texel's masked alpha over the destination's |
| `PixelStages.BothStages` | framework_library_code/frameworks/GGLAssembler.cpp:812-972 | logic op then masking: written components are the op of source and destination, the others the destination |
| `PixelStages.PixelBits` | framework_library_code/frameworks/GGLAssembler.cpp:812-972 | bit by bit, whether anything is masked or not: the op in the components that are not masked, the destination in those that are |
| `PixelStages.AllMaskedIs` | framework_library_code/frameworks/GGLAssembler.cpp:919-932 | with every component masked nothing is to be written |
| `PixelStages.FormatMasksFit` | framework_library_code/frameworks/GGLAssembler.cpp:934-959 | formats of at most 26 bits, and 32-bit ones in whole bytes, only give masks that fit |
| `PixelStages.BuildPixel` | framework_library_code/frameworks/GGLAssembler.cpp:295-304 | both stages as scanline_core runs them, with the registers and memory they leave alone |
| `Scanlines.RoutineRestores` | framework_library_code/frameworks/GGLAssembler.cpp:191-324 | whatever the body does to registers the allocator handed out, the routine around it restores SP and the callee-saved ones |
| `Scanlines.RestoredIff` | framework_library_code/frameworks/ARMAssembler.cpp:132-160 | which means r4 to r11, r13 and r14, with execution going on where r14 pointed |
| `ARMAssemblers.DecodeTransfer` | framework_library_code/frameworks/ARMAssembler.cpp:294-302 | a word load or store decodes to its registers, offset and indexing |
| `Encodings.TransferNumbers` | framework_library_code/frameworks/ARMAssembler.cpp:294-302 | the words of LDR and STR as numbers, for all registers and offsets |
| `Fragments.StoreSkips` | framework_library_code/frameworks/ARMAssembler.cpp:335-342 | the prolog leaves memory outside its frame alone, so the caller finds it as it was |
| `Fragments.InFrameIff` | framework_library_code/frameworks/ARMAssembler.cpp:132-160 | the frame is exactly the words below the stack pointer on entry, one for each register saved |
| `Fragments.StoreRuns` | framework_library_code/frameworks/load_store.cpp:29-36 | a 32-bit store writes the word at the address, and with write-back steps to the next pixel |
| `Fragments.LoadRuns` | framework_library_code/frameworks/load_store.cpp:65-72 | a 32-bit load reads the word at the address, and with write-back steps to the next pixel |
| `Fragments.BodyDraws` | framework_library_code/frameworks/GGLAssembler.cpp:233-304 | load, stages and store replace the framebuffer pixel and change no other memory |
| `Fragments.FetchPixel` | framework_library_code/frameworks/GGLAssembler.cpp:235-244 | the framebuffer is loaded, into a register of its own, exactly when blending, the op or the mask needs it |
| `Fragments.FetchRuns` | framework_library_code/frameworks/GGLAssembler.cpp:235-244 | once the load has run, blending, masking and an op that depends on it find the framebuffer pixel in that register, and nothing else has changed |
| `Fragments.UsesDestinationIff` | framework_library_code/frameworks/GGLAssembler.cpp:235-244 | the ops that count as depending on the destination are those whose result does |
| `Fragments.FragmentFinishes` | framework_library_code/frameworks/GGLAssembler.cpp:191-324 | around code in front of the stages that leaves SP, the registers not handed out and the frame alone, the caller gets its registers back; of the memory it had on entry only the pixel, the frame and what that code may write have changed |
| `Fragments.FragmentRoutine` | framework_library_code/frameworks/GGLAssembler.cpp:191-324 | whatever registers were handed out before, generation succeeds exactly when enough are left; the emitted code, run on any machine state, writes the wanted pixel over what the caller had there, leaves the rest of its memory and restores its registers; words are pushed exactly when more than five registers of the list were held at once |
| `Scanlines.Scanline` | framework_library_code/frameworks/GGLAssembler.cpp:61-91 | the retry loop ends, and keeps the code of the highest level that works, if one does |
| `CodeCaches.LongestSuffix` | framework_library_code/frameworks/CodeCache.cpp:139-154 | eviction keeps the longest recent part that leaves room |
| `CodeCaches.AdmitKeepsOrEvicts` | framework_library_code/frameworks/CodeCache.cpp:132-169 | after an insertion the total is within the limit, the new key is found, and every other key is as before or evicted |
| `CodeCaches.CodeCache.Lookup` | framework_library_code/frameworks/CodeCache.cpp:118-130 | returns what the recency list holds under the key, which moves to its recent end |
| `CodeCaches.CodeCache.EvictLru` | framework_library_code/frameworks/CodeCache.cpp:140-153 | the scan over the time stamps evicts the head of the recency list |
| `CodeCaches.CodeCache.Cache` | framework_library_code/frameworks/CodeCache.cpp:132-169 | for a fresh key and a size within the cache the recency list is cut to its longest fitting suffix and extended; the bytes in use are always the sum |
| `CodeCaches.CodeCache.EvictFor` | framework_library_code/frameworks/CodeCache.cpp:138-154 | the eviction loop ends with room for the assembly |
| `CacheRuns.HitStep` | framework_library_code/frameworks/CodeCache.cpp:118-130 | a hit moves the entry to the recent end of the cache and of the list of everything ever used |
| `CacheRuns.MissStep` | framework_library_code/frameworks/CodeCache.cpp:138-156 | what a miss evicts is what the longest recent part that fits loses |
| `CacheRuns.HitIff` | framework_library_code/frameworks/CodeCache.cpp:118-154 | a key is cached exactly when it was used before and all that was used since then, itself included, fits together |
| `CacheRuns.Remembered` | framework_library_code/frameworks/scanline.cpp:368-384 | a request gets what the last one for its key that got something got exactly as long as what was used since fits, and otherwise what generation gives, or nothing when that fails |
| `CacheRuns.Serve` | framework_library_code/frameworks/scanline.cpp:368-384 | look up, and on a miss store what is generated, if that works: a key is never stored twice |
| `CacheRuns.ServeAll` | framework_library_code/frameworks/scanline.cpp:368-384 | after any requests, generation failing or not, the cache is the longest recent part of everything used that fits |
| `Adts.GetAdtsFrameSize` | framework_library_code/frameworks/AacBqToPcmCbRenderer.cpp:38-72 | the announced frame size, 0 for a missing seventh byte, a wrong sync word or a size below the header |
| `Adts.FrameSizeAtIs` | framework_library_code/frameworks/AacBqToPcmCbRenderer.cpp:38-72 | that size in numbers: the first two bytes one of FFF0, FFF1, FFF8 and FFF9, the size in thirteen bits of the next three but one, at least 7, or 9 with a checksum |
| `Adts.SyncIff` | framework_library_code/frameworks/AacBqToPcmCbRenderer.cpp:45-53 | twelve sync bits, layer 00, and the header of 9 bytes exactly with a clear protection bit |
| `Adts.SizeFieldIs` | framework_library_code/frameworks/AacBqToPcmCbRenderer.cpp:56-58 | the size is the thirteen-bit field of the big-endian header |
| `Adts.SizeReadsBack` | framework_library_code/frameworks/AacAdtsExtractor.cpp:74-76 | a size below 8192 put into a header is read back, whatever bits are around it |
| `Adts.FrameIff` | framework_library_code/frameworks/AacBqToPcmCbRenderer.cpp:38-72 | what a frame is, by its bytes |
| `Adts.FrameOf371` | framework_library_code/frameworks/AacBqToPcmCbRenderer.cpp:56-58 | after FF F1 50 80 2E 7F FC exactly 371 bytes are a frame |
| `Adts.SplitUnique` | framework_library_code/frameworks/AacBqToPcmCbRenderer.cpp:83-108 | data splits into well-formed frames in at most one way |
| `Adts.AlignedIff` | framework_library_code/frameworks/AacBqToPcmCbRenderer.cpp:92-105 | stepping from frame to frame reaches the end exactly for data that splits into frames |
| `Adts.Validate` | framework_library_code/frameworks/AacBqToPcmCbRenderer.cpp:83-108 | success exactly for non-empty data that splits into well-formed frames; parameter error exactly for none |
| `Adts.DataPayloadsAre` | framework_library_code/frameworks/AacAdtsExtractor.cpp:280-290 | the payloads read off aligned data are those of its frames |
| `BufferRings.PlaceIsMod` | framework_library_code/frameworks/BufferQueueSource.cpp:121-130 | the front index is the number of retired buffers modulo the slots |
| `BufferRings.BufferRing.Enqueue` | framework_library_code/frameworks/BufferQueueSource.cpp:78-85 | a buffer at the rear, for every wrap-around |
| `BufferRings.BufferRing.Retire` | framework_library_code/frameworks/BufferQueueSource.cpp:121-130 | the front buffer goes, the others keep their order |
| `BufferQueueSources.BufferQueueSource.ReadAt` | framework_library_code/frameworks/BufferQueueSource.cpp:63-168 | all bytes or none, from the front buffer only; it is retired exactly when a read ends at its last byte, and the client told, if it asked to be, then or at the end-of-stream command |
| `AacAdtsExtractors.GetFrameSize` | framework_library_code/frameworks/AacAdtsExtractor.cpp:48-90 | the size in the six bytes read, 0 when they are not all there |
| `AacAdtsExtractors.HeadRead` | framework_library_code/frameworks/AacAdtsExtractor.cpp:48-90 | asking for a frame's size stays inside the front buffer and consumes nothing |
| `AacAdtsExtractors.BodyRead` | framework_library_code/frameworks/AacAdtsExtractor.cpp:283-290 | reading the payload takes exactly that, and retires the buffer exactly at its last frame |
| `AacAdtsExtractors.AfterFrame` | framework_library_code/frameworks/AacAdtsExtractor.cpp:258-303 | the next position is again at a frame, and one payload fewer is pending |
| `AacAdtsExtractors.EnqueueGrows` | framework_library_code/frameworks/BufferQueueSource.cpp:78-85 | a buffer enqueued comes after everything pending |
| `AacAdtsExtractors.AacAdtsSource.EnqueueData` | framework_library_code/frameworks/AacBqToPcmCbRenderer.cpp:83-108 | a block gets in exactly when it passes the validator and there is room |
| `AacAdtsExtractors.AacAdtsSource.Read` | framework_library_code/frameworks/AacAdtsExtractor.cpp:258-303 | the next payload, all but the first seven bytes of its frame, exactly while one is pending and a buffer is acquired, with its time stamp; without a buffer nothing is consumed; delivered and pending payloads always make up the stream enqueued |
| `AacAdtsExtractors.FrontNotDone` | framework_library_code/frameworks/BufferQueueSource.cpp:111-130 | a buffer still queued has payloads to come |
| `AacAdtsExtractors.RetiredWhenDone` | framework_library_code/frameworks/BufferQueueSource.cpp:111-130 | the read that retires a buffer is the one that delivers its last payload |
| `AacAdtsExtractors.StampIs` | framework_library_code/frameworks/AacAdtsExtractor.cpp:293-299 | the k-th frame is stamped k frame durations |
| `AacAdtsExtractors.Drain` | framework_library_code/frameworks/AacAdtsExtractor.cpp:258-303 | reads to the end deliver exactly the payloads of all frames of all buffers in order |
| `AacAdtsExtractors.Play` | framework_library_code/frameworks/AacAdtsExtractor.cpp:258-303 | under any order of enqueues and reads, with buffers acquired or not, what is delivered is a prefix of the stream, and all of it at the end |
| `AacAdtsExtractors.Open` | framework_library_code/frameworks/AacAdtsExtractor.cpp:93-161 | succeeds exactly for data with a known sampling frequency index, with the header's fields and the least duration in whole microseconds that 1024 samples fit in, and consumes nothing of it |
| `AacAdtsExtractors.SampleRates` | framework_library_code/frameworks/AacAdtsExtractor.cpp:27-46 | the twelve rates |
| `AacAdtsExtractors.FrameDurationIs` | framework_library_code/frameworks/AacAdtsExtractor.cpp:153 | the duration is the quotient rounded up |
| `PcmQueues.PcmSink.Write` | framework_library_code/frameworks/AudioPlayer_to_android.cpp:100-161 | the longest prefix that fits goes behind what was placed; a buffer is handed back exactly when full |
| `PcmQueues.OnRender` | framework_library_code/frameworks/android_AudioToCbRenderer.cpp:49-86 | the loop ends; a prefix of the block is placed, and all of it unless the callback was refused, no buffer was left, or a buffer had no room |
| `PcmQueues.RenderAll` | framework_library_code/frameworks/android_AudioToCbRenderer.cpp:49-86 | over any run the bytes placed are the consumed prefixes of the blocks one after the other |
| `PcmQueues.PcmSource.Pull` | framework_library_code/frameworks/AudioPlayer_to_android.cpp:1134-1180 | at most the bytes asked for, never past the front buffer; played and remaining bytes make up what was enqueued |
| `PcmQueues.Playback` | framework_library_code/frameworks/AudioPlayer_to_android.cpp:1134-1180 | under any order of enqueues and pulls what is played is a prefix of what was enqueued |
| `CallbackProtectors.CallbackProtector.EnterCb` | framework_library_code/frameworks/CallbackProtector.cpp:59-82 | counts one more callback exactly while entry is allowed, which it leaves as it is |
| `CallbackProtectors.CallbackProtector.ExitCb` | framework_library_code/frameworks/CallbackProtector.cpp:85-108 | counts one fewer, and broadcasts exactly for the last one after a request |
| `CallbackProtectors.CallbackProtector.RequestCbExit` | framework_library_code/frameworks/CallbackProtector.cpp:132-149 | no callback can enter from then on; those in progress stay counted |
| `CallbackProtectors.StepInv` | framework_library_code/frameworks/CallbackProtector.cpp:59-149 | every step of every thread keeps the invariant: exact count, one lock holder, no lost wake-up |
| `CallbackProtectors.CounterIsExact` | framework_library_code/frameworks/CallbackProtector.cpp:59-108 | in every interleaving the counter is the number of callbacks in progress, and the check in exitCb never fires |
| `CallbackProtectors.OneHolder` | framework_library_code/frameworks/CallbackProtector.cpp:59-149 | in every interleaving at most one thread is between taking the lock and giving it back |
| `CallbackProtectors.OpenUntilRequested` | framework_library_code/frameworks/CallbackProtector.cpp:59-149 | in every interleaving entry is allowed exactly until the body of some exit request has run |
| `CallbackProtectors.BodyCounts` | framework_library_code/frameworks/CallbackProtector.cpp:59-149 | in every interleaving a call to enter puts its thread into one more callback exactly while no exit was requested, one to leave takes it out of one, and no other call or thread changes |
| `CallbackProtectors.SleepsIff` | framework_library_code/frameworks/CallbackProtector.cpp:111-129 | a waiting request sleeps exactly while some callback is in progress |
| `CallbackProtectors.EnterAlone` | framework_library_code/frameworks/CallbackProtector.cpp:59-82 | with the lock free a call to enter runs through |
| `CallbackProtectors.ExitAlone` | framework_library_code/frameworks/CallbackProtector.cpp:85-108 | and so does one to leave, waking nobody unless it is the last one awaited |
| `CallbackProtectors.LastExit` | framework_library_code/frameworks/CallbackProtector.cpp:95-103 | the last callback awaited wakes everybody asleep |
| `CallbackProtectors.StopAlone` | framework_library_code/frameworks/CallbackProtector.cpp:132-149 | a plain request runs through and leaves the callbacks in progress |
| `CallbackProtectors.QuietForever` | framework_library_code/frameworks/CallbackProtector.cpp:111-129 | once a waiting request has returned no callback is in progress and none can ever start |
| `CallbackProtectors.NoLostWakeup` | framework_library_code/frameworks/CallbackProtector.cpp:85-129 | whoever sleeps with no callback left has a broadcast pending that wakes it |
| `VencBufferManagers.VencBufferManager.AllocNode` | framework_library_code/frameworks/OMX_VencBufferManager.cpp:209-220 | the first pool node without a header, or none exactly when all have one |
| `VencBufferManagers.VencBufferManager.Push` | framework_library_code/frameworks/OMX_VencBufferManager.cpp:160-197 | fails exactly with the pool full; else appends, and the pool agrees with the list afterwards exactly for a non-null header |
| `VencBufferManagers.VencBufferManager.Pop` | framework_library_code/frameworks/OMX_VencBufferManager.cpp:82-134 | removes the first occurrence, keeps the order of the rest and frees the node; the error codes exactly |
| `VencBufferManagers.VencBufferManager.GetNumBuffers` | framework_library_code/frameworks/OMX_VencBufferManager.cpp:199-207 | the stored count is the length of the list; an error exactly without a place for it |
| `VencBufferManagers.NullPushLoops` | framework_library_code/frameworks/OMX_VencBufferManager.cpp:160-197 | after a null header the steps of one more push link a node to itself |
| `CommandTokenizers.Turn` | framework_library_code/frameworks/FrameworkListener.cpp:73-125 | one turn of the loop, on every input, with every write inside the buffer |
| `CommandTokenizers.Dispatch` | framework_library_code/frameworks/FrameworkListener.cpp:61-141 | on any zero-terminated command the arguments or the error told by positions: cut at the spaces outside quotes, without the backslashes and quotes that are not escaped |
| `CommandTokenizers.TokenizeIsSplit` | framework_library_code/frameworks/FrameworkListener.cpp:61-141 | the character by character reference and the one by positions agree on every line |
| `CommandTokenizers.Causes` | framework_library_code/frameworks/FrameworkListener.cpp:84-131 | an unsupported escape comes from a backslash before another character, unclosed quotes from an odd number of unescaped ones |
| `CommandTokenizers.PlainLine` | framework_library_code/frameworks/FrameworkListener.cpp:61-141 | without quotes and backslashes the words hold no space, joined by single spaces are the line, and come out exactly within the limits on number and length |
| `CommandTokenizers.OutputBounds` | framework_library_code/frameworks/FrameworkListener.cpp:69-131 | arguments that come out are one to the maximum in number, within the buffer and without NUL |
| `CommandTokenizers.RoundTripIff` | framework_library_code/frameworks/FrameworkListener.cpp:61-141 | quoting, sending and tokenizing gives a list back exactly when it has one to the maximum arguments of at most 253 characters, the last of at most 254, none with a NUL |
| `InnerBlocks.Sort` | framework_library_code/frameworks/bb2sym.cpp:30-40 | the same blocks in order of address, then number |
| `InnerBlocks.CutCount` | framework_library_code/frameworks/bb2sym.cpp:120-135 | the 32-bit test for running into the next block, and the instructions that fit before it |
| `InnerBlocks.AssignInnerBlocks` | framework_library_code/frameworks/bb2sym.cpp:104-140 | the blocks come back sorted; each that runs into the next, by two bytes an instruction in Thumb mode and four otherwise, is cut to what fits before that and points to it, and the others are as they were |
| `InnerBlocks.SplitNeverGrows` | framework_library_code/frameworks/bb2sym.cpp:117-137 | no block grows or moves, and it ends before the next exactly when the 32-bit test did not miss it |
| `InnerBlocks.SplitDisjointIff` | framework_library_code/frameworks/bb2sym.cpp:117-137 | no address, modulo 2^32, is in two blocks afterwards exactly when, of those something is left of, none wraps round past the one after it and none that is not stopped wraps round into one below |
| `InnerBlocks.SplitDisjoint` | framework_library_code/frameworks/bb2sym.cpp:117-137 | in particular when no block runs past the top of the address space |
| `InnerBlocks.LastWrapsToFirst` | framework_library_code/frameworks/bb2sym.cpp:117-137 | a last block that wraps round into the first overlaps it, though no block runs into the next one |
| `InnerBlocks.CoverageKeptIff` | framework_library_code/frameworks/bb2sym.cpp:117-137 | exactly the same addresses stay covered exactly when the whole instructions of every block reach as far as any block before it, up to the next address |
| `InnerBlocks.CoverageKept` | framework_library_code/frameworks/bb2sym.cpp:117-137 | in particular for aligned blocks that overlap only in shared tails |
| `InnerBlocks.OverlapIff` | framework_library_code/frameworks/bb2sym.cpp:117-137 | overlapping there means sharing an address |
| `InnerBlocks.EnclosingTailLost` | framework_library_code/frameworks/bb2sym.cpp:117-137 | a block inside another costs the enclosing one its tail |
| `InnerBlocks.WrappedBlockStays` | framework_library_code/frameworks/bb2sym.cpp:124-125 | a block past the top of the address space is not cut |

## Left out

- Vectors: allocation always succeeds, sizes do not overflow `size_t`, item constructors and destructors are not run, and inserted items do not live in the receiver's own storage (nor is a vector inserted into itself). Reference counts change one step at a time, not in true parallel.
- SortedVectors: items are compared by an integer key.
- SharedBuffer::edit and SharedBuffer::reset, which VectorImpl does not use.
- LSAVED, CMD_ARGS_MAX, MAX_FREE_BUFFERS and the values of the GGL logic ops are defined in headers that are not in the repository: the saved registers are taken as r4 to r11 and lr, the maxima are parameters, the ops are a datatype.
- The emission buffer is large enough; the final resize, cache flushing and memory protection are not modelled, nor are conditions other than AL outside branches, flags, shifted-register operands, multiplications, and byte and halfword transfers.
- Memory is by the word: accesses at different addresses do not overlap.
- Shifts by 32 and more, which C leaves undefined, are read as ARM register shifts.
- Texturing, blending, fog, depth tests and dithering in GGLAssembler: the stages modelled take the pixel in a register. FragmentRoutine covers 32-bit formats in whole bytes; BuildPixel covers all formats.
- hasFreeRegs and countFreeRegs: easy bookkeeping over the same mask. recycleSeveral is one recycle after another.
- The binary search in KeyedVector is a scan in CodeCache.
- The enqueue functions of both queues are not in the repository: enqueueing is a step that appends at the rear when there is room.
- AacAdtsSource.start is modelled as the constructor: started again on a source from which buffers were retired, its offset 0 would fail the check in readAt.
- Client callbacks of the queues are their results only; clients do not change a buffer while it is queued. PcmQueues holds buffer memory by value, so two headers never alias.
- CallbackProtectors: fairness and progress of the scheduler; a thread that waits inside its own callback sleeps for ever, as in the source.
- VencBufferManager::PopFirstBuffer, which takes its own lock twice and reads the head after it has moved.
- FrameworkListener: reading the socket and running the command found.
- InnerBlocks.Sort: qsort is an insertion sort over a sequence of the blocks.
- OMX_Venc, NetlinkEvent, the netd, vold and nexus controllers, property managers and volume arithmetic: parameter copying and system calls.
- Vectors.Vector.InsertVectorAt: does not model inserting a vector into itself, nor appending in place a longer vector on the same storage, where the copy would read the cells it writes.
- SortedVectors.MergeNaive: does not model merging a vector into itself, nor a receiver with a longer sharer, whose appends in place would change the other vector.
- SortedVectors.Merge: leaves out the same two cases.
- ArmMachine.DecodeDp: does not model conditions other than AL, nor the S bit; the machine has no flags.
- ARMAssemblers.DecodeBlock: does not model conditions other than AL.
- ARMAssemblers.DecodeBx: does not model conditions other than AL.
- ARMAssemblers.DecodeTransfer: does not model conditions other than AL, nor negative offsets, which the code modelled here does not use.
- ARMAssemblers.ARMAssembler.Label: labels are told apart by their text; the source keys a vector by `const char*`, and whether that compares text or pointers is in a header that is not in the repository.
- Fragments.FragmentRoutine: does not model the loop over a line, the discard path or how the pixel is computed; the code in front of the stages is any code that behaves as stated.
- Fragments.FetchPixel: takes whether blending reads the destination as a parameter.
- Scanlines.Scanline: takes the outcome of generation at each level as a parameter, and leaves out the reset before each try and the final generate.
- CodeCaches.CodeCache.Cache: takes a fresh key and a size within the cache, as its one caller, which looks the key up first, gives it; see CacheRuns.Serve.
- CodeCaches.CodeCache.EvictFor: takes a size within the cache; above it the loop of the source would evict from an empty cache.
- CacheRuns.ServeAll: takes the size of a key's assembly as fixed, generation being deterministic.
- VectorRuns.Run: its condition is sufficient; a call that stays out of place, or finds the same items there, is let through by PushVisibleIff only.
- Epilogs.TwoEpilogs: takes the obtains and recycles of the builders as parameters.
