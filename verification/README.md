# LoaderWatch, verified

A Dafny model of the stateful cores of LoaderWatch, with proofs about every input, every run
and every reachable state. Five components are modelled; each keeps the form the source has.

**AVL tree** (`phlib/avltree.c`; files `Avl*.dfy`). An intrusive tree over heap objects
`Links`, whose parent, left, right and balance fields the methods overwrite as the source does.
A `PPH_AVL_LINKS *ref` is the owner of a link and the side it is on. `AvlShape` says what it means for a heap
to hold a balanced tree, and takes a tree apart at one node (a zipper). Rotations are specified
field by field (`AvlRotate`), rebalancing and both retracing loops by the tree they build
(`AvlRebalance`, `AvlRetrace`), and the operations of `PH_AVL_TREE` by a sorted sequence
(`AvlTrees`). A CompareFunction is any total preorder on records.

**Fast lock** (`phlib/fastlock.c`; `FastLock*.dfy`). A transition system: each
read of the 32-bit word, compare-exchange, semaphore wait, semaphore release and event
creation is one step of one thread, and a run is any interleaving. An inductive invariant ties
the five packed fields to the program counters of all threads. Each operation is also specified by
what it does undisturbed (`FastLockTurns`). Under a fair schedule a crowd that starts nothing new
comes to rest (`FastLockLiveness`).

**Instruction relocation** (`LoaderWatch.Inject/disasm.cpp`; `A64*.dfy`, `X64Jumps.dfy`). For
ARM64: the encodings, a decoder, a small semantics of the A64 instructions involved (section
C6.2 of Arm DDI 0487), and runs of a short sequence of instructions. `Copied` says that the
emitted sequence means what the original instruction meant in every state *exactly if* the
condition `Kept` holds; both directions are proved. `A64Exact` says which words are which
instructions and when a short form is taken. `A64Prologue` runs a whole moved prologue with its jump
back. For x64: relative jumps that are written, widened or adjusted, as bytes.

**Trampolines and transactions** (`LoaderWatch.Inject/detours.cpp`; `Detour*.dfy`). Regions and
free lists as chains through memory words (`DetourRegions`, `DetourAllocator`); the loops that copy
a prologue and the table for suspended threads (`DetourPrologue`); the bytes of a trampoline
(`DetourSlots`), and what the jumps and relative operands in it refer to (`DetourJumps`);
transactions of attaches and detaches over that allocator, over the memory of the trampolines and
over the code bytes (`DetourOperations`, `DetourTransactions`); and two whole transactions, there
and back (`DetourRoundTrip`). Operating-system calls are parameters.

**Payloads and imports** (`LoaderWatch.Inject/image.cpp`; `Image*.dfy`). The packed payload store
refines an ordered map; the import table that the second pass emits uses up exactly what the
first pass counted, and a reader of the format (section 6.4 of the Microsoft PE/COFF
Specification) gets the import list back.

`Words.dfy` holds the arithmetic that several components share. Run
`dafny verify dfyconfig.toml` to check everything.

What the proofs showed about the code, where it does not do what one would expect:

- ARM64 copies that do not mean the same, with the exact condition in `A64Dis.Kept`: ADR as
  ADRP and a 32-bit ADD above 4 GB or with register 31; a literal load tested against twice the
  reach of its field (disasm.cpp:4260); a prefetch turned into a register move; B.AL and B.NV in
  the two long forms (`Condition ^ 1`, disasm.cpp:4133 and 4141); CBZ or TBZ of x17 in the longest form.
- TBZ and TBNZ get a longer form from a quarter of their reach on, which is harmless (disasm.cpp:4229).
- A suspended thread at the start of a target is sent to the end of the moved code when the copied
  instructions end at a multiple of eight bytes, because `obTarget` has three bits
  (detours.cpp:25); on ARM64 only one of four offsets is right. Detaching looks for
  threads in the first eight bytes of a trampoline only, as `sizeof(o->pTrampoline)` is the size of a
  pointer (detours.cpp:1763).
- On x64 the jump back is written behind the moved code after rbRestore was filled
  (detours.cpp:2132 and 2188). With more than 24 bytes of moved code it does not fit rbCode, and with
  more than 26 it overwrites the first bytes to restore: two short jumps and an instruction of 15
  bytes make 27, and a detach then writes a 0 over the first byte. No copy longer than 12 bytes is
  enough for the jump to fit, none longer than 14 for the bytes to stay (`DetourPrologue.CopiesFit`).
- LOOP, LOOPE, LOOPNE and JCXZ whose target is out of reach report -3 (disasm.cpp:437), so that
  the next copy is put on top of theirs, or before the trampoline if they come first, and a thread
  that has just executed one is not sent to the end of its copy. If the moved code ends before the
  start of the trampoline, `cbCode` wraps to 253 or more and the jump back is written two
  trampolines further on.
- Detaching a pointer twice in one transaction frees its trampoline twice, and its free list
  becomes a circle (`DetourRegions.FreedTwice`).
- `CImageData::Find` does not end exactly if it reaches a record of size 0; `IsValid` also accepts a
  store whose last record is longer than what is left of it.
- The comment at detours.cpp:1349 says that everything but the first trampoline goes on the free
  list; the loop leaves out the first two.
- DetourAttachEx returns success without queueing anything when detour and target are the same
  function (`goto fail` with no error set, detours.cpp:1968).
- After attach and detach a pointer is left at the function that its first value led to, which
  is not the first value if that was a jump.
- AdjustTarget never reports a four-byte operand that does not fit (`sizeof(ULONG) - 4` is 0).
- `CImageData::Set` loses the old payload when memory for the new one runs out.
- The bound of 1023 threads on the fast lock is exact: with 1024, the owners field can carry.
- A shared waiter of the fast lock may starve: two threads that go on acquiring exclusively pass the
  lock to each other (`FastLockLiveness.SharedStarves`).
- A region looks unused although a trampoline in it is live if the function that this came from is in
  the same region (detours.cpp:1387); the emptiness scan is exact without such trampolines.

## Model

| member | source | states |
|---|---|---|
| FastLock.EncodeDecode | phlib/fastlock.c:34-51 | A word is exactly its owned bit, waking bit and three counters |
| FastLock.DecodeEncode | phlib/fastlock.c:34-51 | Field values that fit are read back unchanged: no counter carries into its neighbour |
| FastLock.InitInv | phlib/fastlock.c:53-60 | A fresh lock satisfies the invariant |
| FastLock.StepKeepsInv | phlib/fastlock.c:79-384 | Every step of every thread keeps the invariant, with at most 1023 threads |
| FastLock.RunKeepsInv | phlib/fastlock.c:79-384 | The invariant holds after every schedule |
| FastLock.MutualExclusion | phlib/fastlock.c:112-384 | While one thread owns the lock exclusively, no other thread owns it in either mode |
| FastLock.WordTellsOwners | phlib/fastlock.c:34-51 | Owned with no shared owners means exactly one exclusive owner; the owners field counts the shared owners; owned and waking are never both set |
| FastLock.NoWakeupLost | phlib/fastlock.c:135-162 | Blocked threads equal the waiter field plus owed and posted permits, in both modes; the waking bit stands for exactly one hand-off in flight |
| FastLock.NobodyStranded | phlib/fastlock.c:199-217 | If a thread is blocked, some thread is still obliged to move: an owner, one that owes a permit, a woken one, or a blocked one whose permit is there |
| FastLock.LastSharedReleaserWakesNobody | phlib/fastlock.c:296-327 | When the last shared owner leaves and nobody waits exclusively, no shared thread is waiting, so waking nobody is right |
| FastLock.IdleMeansZero | phlib/fastlock.c:34-51 | When all threads are idle, the word is 0 and both semaphores are empty |
| FastLock.HandOffIsExclusive | phlib/fastlock.c:249-279 | While a hand-off is in flight, no other thread can become an owner |
| FastLock.OnlyWokenBecomesOwner | phlib/fastlock.c:144-162 | With the waking bit set, a step that makes its thread an owner is one of the woken thread |
| FastLock.EventsComeFirst | phlib/fastlock.c:79-98 | Every semaphore that a step waits on or releases was created before |
| FastLockLimit.OneThreadTooMany | phlib/fastlock.c:34-51 | With 1024 shared owners the owners field reads 0 and one waiter is counted that is not there |
| FastLockLimit.BoundIsExact | phlib/fastlock.c:34-51 | The owners field counts the shared owners in every run if and only if there are at most 1023 threads |
| FastLockLiveness.StepDescends | phlib/fastlock.c:112-384 | Every step that changes anything lowers a rank of what is left to do, and a thread that can move and does not spin changes something |
| FastLockLiveness.EverybodyFinishes | phlib/fastlock.c:112-384 | After any run of at most 1023 threads, if no operation is started any more and the schedule is fair, all operations are completed and the lock is as new: every blocked thread is woken and gets the lock |
| FastLockLiveness.InTurnIsFair | phlib/fastlock.c:100-110 | Fair schedules exist: the threads in turn, their spin counts used up |
| FastLockLiveness.SharedStarves | phlib/fastlock.c:249-256 | Without that end to new operations it fails: two threads that acquire exclusively again and again keep a third one, which waits to share, blocked for any number of rounds in which all three have their turns |
| FastLockTurns.TryExclusiveAlone | phlib/fastlock.c:334-351 | A try that nobody disturbs ends as the exclusive owner, the owned bit set, if and only if the word has no owner and no hand-off; otherwise nothing has changed |
| FastLockTurns.TrySharedAlone | phlib/fastlock.c:353-384 | Likewise as a shared owner, one more in the owners field, if and only if there is no exclusive waiter, no hand-off and no exclusive owner |
| FastLockTurns.AcquireExclusiveAlone | phlib/fastlock.c:112-168 | An undisturbed acquire takes a free lock in three turns; otherwise it spins, and then is blocked with one more exclusive waiter and a semaphore to wait on |
| FastLockTurns.AcquireSharedAlone | phlib/fastlock.c:172-235 | The same for sharing |
| FastLockTurns.WokenAlone | phlib/fastlock.c:144-162 | A blocked thread with a permit becomes the owner that the waking bit stood for |
| FastLockTurns.ReleaseExclusiveAlone | phlib/fastlock.c:239-282 | With an exclusive waiter, one permit, one waiter less and the waking bit; otherwise the lock is free and every shared waiter has a permit |
| FastLockTurns.ReleaseSharedAlone | phlib/fastlock.c:286-330 | One owner less; the last one hands the lock to an exclusive waiter or frees it |
| FastLockTurns.NothingGivenUp | phlib/fastlock.c:112-384 | In any run an acquire ends only as an owner, a release only from being one, and a try gives up only if the lock was not to be had when it was read, or the word was changed before the exchange |
| AvlRotate.RotateLeft | phlib/avltree.c:105-149 | Which four links change, to what, and that balances and all other links stay |
| AvlRotate.RotateRight | phlib/avltree.c:220-264 | The mirror image |
| AvlRotate.RotateLeftTwice | phlib/avltree.c:151-218 | The double rotation, link by link |
| AvlRotate.RotateRightTwice | phlib/avltree.c:266-333 | The mirror image |
| AvlRotate.SingleIsAvl | phlib/avltree.c:110-131 | What a single rotation builds is a balanced tree |
| AvlRotate.DoubleIsAvl | phlib/avltree.c:156-183 | What a double rotation builds is a balanced tree |
| AvlRebalance.OnceRestores | phlib/avltree.c:335-477 | A single rotation of an unbalanced node gives a balanced subtree with the same elements in the same order, lower by one unless the heavy child was even |
| AvlRebalance.TwiceRestores | phlib/avltree.c:335-477 | The same for a double rotation, which always lowers the subtree |
| AvlRebalance.RebalanceLeftHeavy | phlib/avltree.c:345-422 | The three left cases: balanced, same order, exact heights; code 3 exactly if the heavy child was even |
| AvlRebalance.RebalanceRightHeavy | phlib/avltree.c:423-476 | The three right cases |
| AvlRebalance.Rebalance | phlib/avltree.c:335-477 | PhpRebalanceAvlLinks on any node whose subtrees differ by two |
| AvlRetrace.Settled | phlib/avltree.c:514-559 | When the hole has the height its context counts on, the whole tree is balanced |
| AvlRetrace.SetBalance | phlib/avltree.c:527-541 | Writing a balance absorbs the node and its sibling into the balanced subtree |
| AvlRetrace.RetraceAdd | phlib/avltree.c:514-559 | The insertion loop terminates with a whole balanced tree of the same order, and never meets the case that only a removal can |
| AvlRetrace.RetraceRemove | phlib/avltree.c:626-671 | The removal loop terminates, at the latest at the sentinel, with a whole balanced tree of the same order |
| AvlRemoval.Attach | phlib/avltree.c:499-511 | Hanging a new element where the search ended gives a tree that is opened at it |
| AvlRemoval.Detach | phlib/avltree.c:602-624 | Unlinking a node with at most one child leaves a tree that is one lower there |
| AvlRemoval.Transplant | phlib/avltree.c:673-688 | The struct copy and three links put one node in the place of another, in a whole balanced tree |
| AvlRemoval.RemoveLinks | phlib/avltree.c:602-688 | Unlinking, retracing and transplanting remove exactly one element from the order |
| AvlRemoval.ReplaceByNeighbour | phlib/avltree.c:583-600 | Taking a neighbour out and putting it in an element's place takes that element out of the sorted sequence |
| AvlOrder.InsertBetween | phlib/avltree.c:52-103 | A place with everything less before and everything greater after is where a sorted insertion puts an element |
| AvlOrder.AddThenRemove | phlib/avltree.c:487-691 | Adding an element and removing it gives the old sequence |
| AvlTrees.AvlTree.constructor | phlib/avltree.c:31-43 | The empty tree is valid |
| AvlTrees.AvlTree.FindPosition | phlib/avltree.c:52-103 | An equal element, or the node and side between the smaller and the greater elements |
| AvlTrees.AvlTree.FindElement | phlib/avltree.c:701-715 | An equal element, or null exactly if there is none |
| AvlTrees.AvlTree.Add | phlib/avltree.c:487-564 | Either an equal element is returned and nothing changed, or the sequence is the sorted insertion and the count is one more |
| AvlTrees.AvlTree.PickReplacement | phlib/avltree.c:583-600 | The element itself if it has at most one child, otherwise the next or, when the left side is higher, the previous element of the sequence, which has at most one child |
| AvlTrees.AvlTree.Remove | phlib/avltree.c:572-691 | The sequence and the set of links lose exactly the element, the count is one less, the tree stays valid |
| AvlTrees.AvlTree.LowerBound | phlib/avltree.c:725-753 | The least element that is not less, or null if all are less |
| AvlTrees.AvlTree.UpperBound | phlib/avltree.c:763-791 | The least element that is greater, or null |
| AvlTrees.AvlTree.LowerDualBound | phlib/avltree.c:801-829 | The greatest element that is less, or null |
| AvlTrees.AvlTree.UpperDualBound | phlib/avltree.c:839-867 | The greatest element that is not greater, or null |
| AvlTrees.AvlTree.Minimum | phlib/avltree.c:876-891 | The first element of the sequence, or null |
| AvlTrees.AvlTree.Maximum | phlib/avltree.c:900-915 | The last element of the sequence, or null |
| AvlTrees.AvlTree.Successor | phlib/avltree.c:924-956 | The next element of the sequence, or null at the end, by way of the sentinel |
| AvlTrees.AvlTree.Predecessor | phlib/avltree.c:965-1000 | The previous element, or null at the start |
| AvlTrees.AvlTree.EnumTree | phlib/avltree.c:1010-1081 | Every element once, in order or in reverse, until the callback says stop |
| AvlWalk.FirstAfterCut | phlib/avltree.c:725-791 | The first element after a cut is the least one on its far side |
| AvlWalk.LastBeforeCut | phlib/avltree.c:801-867 | The last element before a cut is the greatest one on its near side |
| AvlWalk.AvlIsBig | phlib/avltree.c:1017-1019 | An AVL tree of a height has at least the Fibonacci-like number of elements |
| AvlWalk.HeightLimit | phlib/avltree.c:1017-1019 | With at most 2^32 elements the height is at most 45 |
| AvlTour.PushSide | phlib/avltree.c:1031-1035 | Pushing a side never leaves the 47 slots, and what is pending stays the same sequence |
| AvlTour.Enumerate | phlib/avltree.c:1028-1053 | The stack machine delivers the tour of the tree up to where the callback stops |
| AvlTour.TourIsInorder | phlib/avltree.c:1010-1081 | The two tours are the sequence and its reverse |
| A64Coding.ImmIsSignExtension | LoaderWatch.Inject/disasm.cpp:3704-3913 | The shift-based Imm accessors are the sign extensions of the architecture |
| A64Coding.DecodeAdr | LoaderWatch.Inject/disasm.cpp:3693-3717 | Assembled ADR and ADRP decode to their register and offset |
| A64Coding.DecodeBcc | LoaderWatch.Inject/disasm.cpp:3719-3739 | Assembled B.cond decodes to its condition and offset |
| A64Coding.DecodeBranch | LoaderWatch.Inject/disasm.cpp:3741-3761 | Assembled B and BL decode to their offset |
| A64Coding.DecodeBr | LoaderWatch.Inject/disasm.cpp:3763-3791 | Assembled BR and BLR decode to their register |
| A64Coding.DecodeCbz | LoaderWatch.Inject/disasm.cpp:3793-3815 | Assembled CBZ and CBNZ decode to their fields |
| A64Coding.DecodeTbz | LoaderWatch.Inject/disasm.cpp:3901-3925 | Assembled TBZ and TBNZ decode to their fields |
| A64Coding.DecodeLdrLiteral | LoaderWatch.Inject/disasm.cpp:3817-3841 | An assembled literal load decodes to the offset that its 19 bits hold |
| A64Coding.DecodeLdrFpNeon | LoaderWatch.Inject/disasm.cpp:3843-3868 | An assembled SIMD load decodes to its size, registers and offset; the fifth size does not exist |
| A64Coding.DecodeAdd | LoaderWatch.Inject/disasm.cpp:3666-3691 | The assembled ADD decodes to its fields, in both sizes, shifted or not |
| A64Coding.DecodeMov | LoaderWatch.Inject/disasm.cpp:3870-3899 | Assembled MOVN, MOVZ and MOVK decode to their fields |
| A64Moves.RunMoves | LoaderWatch.Inject/disasm.cpp:4009-4058 | Running wide moves changes one register and goes on after them |
| A64Moves.EmitMovImmediate | LoaderWatch.Inject/disasm.cpp:4009-4058 | For every 64-bit value the emitted moves leave the register equal to it, in the least number of instructions that the default pieces allow, one to four |
| A64Moves.ShortMoves | LoaderWatch.Inject/disasm.cpp:4009-4058 | How many instructions a value of 32 bits takes: one for a single half, and for one whose upper half is ones, otherwise two |
| A64Relocate.NearPreserves | LoaderWatch.Inject/disasm.cpp:4124-4128 | A conditional branch with a new offset makes the same decision and reaches the same target |
| A64Relocate.MidPreserves | LoaderWatch.Inject/disasm.cpp:4130-4135 | The branch over a B means the same if and only if the condition has an opposite |
| A64Relocate.FarPreserves | LoaderWatch.Inject/disasm.cpp:4137-4143 | The form through x17 means the same, but for x17, if and only if the condition has an opposite and x17 is not tested |
| A64Forms.BranchNear | LoaderWatch.Inject/disasm.cpp:4157-4161 | B and BL with a new offset, where the link is the address after the copy |
| A64Forms.BranchFar | LoaderWatch.Inject/disasm.cpp:4163-4168 | B and BL through x17 |
| A64Forms.AdrNear | LoaderWatch.Inject/disasm.cpp:4072-4076 | ADR with a new offset gives the same value |
| A64Forms.AdrMid | LoaderWatch.Inject/disasm.cpp:4078-4083 | ADRP and the 32-bit ADD give the same value if and only if the register is not 31 and the target is below 4 GB |
| A64Forms.AdrpNear | LoaderWatch.Inject/disasm.cpp:4098-4102 | ADRP with a new page offset gives the same page |
| A64Forms.MovePreserves | LoaderWatch.Inject/disasm.cpp:4085-4089 | A move replaces an instruction whose effect is to set that register |
| A64Forms.LdrNear | LoaderWatch.Inject/disasm.cpp:4259-4263 | The re-encoded load reads the same literal, whatever memory holds, if and only if the distance is within 2^20 or the load has no effect |
| A64Forms.LdrFarGeneral | LoaderWatch.Inject/disasm.cpp:4265-4276 | Moving the literal's value means the same if and only if it is no prefetch into a real register |
| A64Forms.LdrFarFpNeon | LoaderWatch.Inject/disasm.cpp:4278-4283 | The SIMD load through x17 means the same, but for x17, if and only if the encoding exists |
| A64Dis.AdrAbove4GB | LoaderWatch.Inject/disasm.cpp:4078-4083 | ADR X0 above 4 GB: whatever words satisfy the contract of CopyInstruction for it, there is a state in which they do not mean the same |
| A64Dis.LiteralTooFar | LoaderWatch.Inject/disasm.cpp:4259-4263 | The same for LDR X0 of a literal over 1.5 MB away and for a prefetch of one over 4 MB away |
| A64Dis.BranchTooFar | LoaderWatch.Inject/disasm.cpp:4130-4143 | The same for a B.AL over 4 MB and a CBZ X17 over 256 MB |
| A64Dis.CDetourDis.CopyBcc | LoaderWatch.Inject/disasm.cpp:4114-4146 | The copy means the same exactly when Kept says so; the target is reported; at most 24 bytes |
| A64Dis.CDetourDis.CopyCbz | LoaderWatch.Inject/disasm.cpp:4183-4215 | The same for CBZ and CBNZ |
| A64Dis.CDetourDis.CopyTbz | LoaderWatch.Inject/disasm.cpp:4217-4249 | The same for TBZ and TBNZ |
| A64Dis.CDetourDis.CopyB_or_Bl | LoaderWatch.Inject/disasm.cpp:4148-4181 | B and BL always mean the same; at most 20 bytes |
| A64Dis.CDetourDis.CopyAdr | LoaderWatch.Inject/disasm.cpp:4060-4112 | ADR and ADRP mean the same exactly when Kept says so; at most 16 bytes |
| A64Dis.CDetourDis.CopyLdrLiteral | LoaderWatch.Inject/disasm.cpp:4251-4287 | Literal loads mean the same exactly when Kept says so; one that is out of reach leaves what memory holds in the register, as a word, a double word or a sign-extended word; at most 20 bytes |
| A64Dis.CDetourDis.PureCopy32 | LoaderWatch.Inject/disasm.cpp:3957-3961 | All other instructions are copied as they are, BLR with its new link |
| A64Dis.CDetourDis.CopyInstruction | LoaderWatch.Inject/disasm.cpp:3970-4007 | The dispatch: for every word the copy means the same exactly when Kept says so, has one to six instructions, and reports its growth and target |
| A64Dis.LiteralLoaded | LoaderWatch.Inject/disasm.cpp:4266-4276 | A literal load sets its register to the word in memory, the double word, or the word sign-extended to 64 bits |
| A64Exact.Reassembled | LoaderWatch.Inject/disasm.cpp:3970-4007 | Every word that is taken for one of the relocated instructions is the one assembled from its fields, with its offset in reach |
| A64Exact.NearExactly | LoaderWatch.Inject/disasm.cpp:4114-4265 | The one-instruction form is taken if and only if there is an instruction with the new offset; for TBZ within a quarter of that, for a literal load up to twice that |
| A64Exact.MidExactly | LoaderWatch.Inject/disasm.cpp:4060-4143 | The form with a B, the ADR and the ADRP, likewise |
| A64Exact.EndsExactly | LoaderWatch.Inject/detours.cpp:1056-1074 | A function ends with RET of any register and with every B, and with no other word; padding is a NOP or zero, neither of which ends one |
| A64Prologue.CopyPrologue | LoaderWatch.Inject/detours.cpp:2058-2092 | The instructions up to the first one that ends the function, four at most, each copied for the place where it ends up, fit rbCode together with the jump back; whether the rest is padding |
| A64Prologue.GenJmpImmediate | LoaderWatch.Inject/detours.cpp:914-935 | The jump back decodes to a load of the literal at the end of the pool into X17 and a BR X17 |
| A64Prologue.RunAppend | LoaderWatch.Inject/detours.cpp:2058-2092 | Running two sequences one after the other, whatever the first one jumps to |
| A64Prologue.StepsAreRun | LoaderWatch.Inject/detours.cpp:2058-2092 | Where no branch aims at a later one of the overwritten instructions, running them is taking them one after the other |
| A64Prologue.BlindUnlessRead | LoaderWatch.Inject/disasm.cpp:4128-4143 | An instruction to which X17 does not matter does the same whatever X17 holds |
| A64Prologue.NotBlind | LoaderWatch.Inject/disasm.cpp:4128-4143 | The others do not: in some states that differ in X17 only they go on elsewhere or change something else |
| A64Prologue.MovedRuns | LoaderWatch.Inject/detours.cpp:2058-2092 | Running the trampoline, all copies and the jump back, goes on where the copied originals go on, in the same state but for X17 and the link of a call |
| A64Prologue.PrologueRuns | LoaderWatch.Inject/detours.cpp:2058-2092 | The same of the four overwritten words, with the padding that is passed over behind the last copied one, if that falls through, doing nothing |
| X64Jumps.PokeRel | LoaderWatch.Inject/detours.cpp:324-330 | A number written into a signed field is read back if and only if it fits |
| X64Jumps.OffsetExact | LoaderWatch.Inject/detours.cpp:324-341 | A written offset leads to its target if and only if it fits |
| X64Jumps.Code.GenJmpImmediate | LoaderWatch.Inject/detours.cpp:324-330 | The five bytes decode to a jump to the target if and only if the distance fits; nothing else changes |
| X64Jumps.Code.GenJmpIndirect | LoaderWatch.Inject/detours.cpp:332-339 | The six bytes refer to the slot if and only if the distance fits, and what they are when it is small; nothing else changes |
| X64Jumps.Code.GenBrk | LoaderWatch.Inject/detours.cpp:341-347 | Exactly the bytes up to the limit become breaks |
| X64Jumps.Code.CopyBytesJump | LoaderWatch.Inject/disasm.cpp:466-497 | A widened jump keeps its condition and absolute target if and only if the new distance fits; which bytes it is |
| X64Jumps.Code.CopyBytes | LoaderWatch.Inject/disasm.cpp:421-442 | The copy differs from the original in its relative operand only, which leads to the old target if and only if the new offset fits; what is reported, negated for an instruction that cannot be enlarged |
| X64Jumps.Code.AdjustTarget | LoaderWatch.Inject/disasm.cpp:499-577 | The operand of a copied instruction leads to the old target if and only if the new offset fits, which one of eight bytes always does, and what is reported about it |
| X64Jumps.Code.CopyBytesCantJump | LoaderWatch.Inject/disasm.cpp:421-442 | A LOOP or JCXZ keeps its target if and only if it is within reach of the copy, and otherwise reports -3 |
| X64Jumps.ByteOutOfReach | LoaderWatch.Inject/disasm.cpp:538-543 | What an operand of one byte refers to is out of reach of every copy 256 bytes or more away |
| X64Jumps.ShortOutOfReach | LoaderWatch.Inject/disasm.cpp:538-543 | The target of a short jump is out of reach of every copy 256 bytes or more away |
| X64Jumps.BoundsReach | LoaderWatch.Inject/detours.cpp:75-87 | A place within the bounds is within 2 GB, less 512 KB, of the code and of what its leading jump refers to |
| X64Jumps.BoundsExactly | LoaderWatch.Inject/detours.cpp:75-87 | Away from the ends of the address space a place is within the bounds if and only if it is at most 2 GB, less 512 KB, from the code and from what its leading jump refers to; at the ends the bounds are 512 KB from them |
| X64Jumps.PatchJumpsFit | LoaderWatch.Inject/detours.cpp:1645-1648 | For every trampoline within the bounds the patch jump and both indirect jumps are exact |
| X64Jumps.LeadingJumpFits | LoaderWatch.Inject/detours.cpp:395-431 | A leading near jump or import jump keeps its target when moved to a trampoline within the narrowed bounds |
| X64Jumps.WidenedJumpFits | LoaderWatch.Inject/detours.cpp:395-431 | A short jump of the first instructions can be widened into any trampoline within the bounds |
| DetourRegions.SlotsDisjoint | LoaderWatch.Inject/detours.cpp:1082-1092 | Different slots of different regions share no byte |
| DetourRegions.Pop | LoaderWatch.Inject/detours.cpp:1314-1323 | Taking the head of a free list keeps the region's lists right |
| DetourRegions.Push | LoaderWatch.Inject/detours.cpp:1364-1372 | Freeing keeps them right |
| DetourRegions.FreedTwice | LoaderWatch.Inject/detours.cpp:1364-1372 | Freeing a trampoline leaves a list if and only if it was not free already |
| DetourRegions.Unlink | LoaderWatch.Inject/detours.cpp:1405-1408 | Taking an element out of a linked list through the pointer to it |
| DetourAllocator.Allocator.TakeFromDefault | LoaderWatch.Inject/detours.cpp:1314-1323 | The head of the default region's list becomes live and is filled; all else stays |
| DetourAllocator.Allocator.FindRegion | LoaderWatch.Inject/detours.cpp:1305-1331 | The default region if it suits, otherwise the first suitable one of the list, or null if none suits |
| DetourAllocator.Allocator.AddRegion | LoaderWatch.Inject/detours.cpp:1338-1357 | A new region goes to the front with all but its first two slots on the free list |
| DetourAllocator.Allocator.AllocTrampoline | LoaderWatch.Inject/detours.cpp:1294-1362 | A trampoline within the bounds that was not live if and only if a list starts there or the new region will, otherwise null; the invariant is kept |
| DetourAllocator.Allocator.FreeTrampoline | LoaderWatch.Inject/detours.cpp:1364-1372 | The trampoline goes to the front of its own region's list and is no longer live |
| DetourAllocator.Allocator.LiveDisjoint | LoaderWatch.Inject/detours.cpp:1294-1362 | Live trampolines are pairwise disjoint and never one of the first two slots of their region |
| DetourAllocator.Allocator.SlotsConserved | LoaderWatch.Inject/detours.cpp:1350-1356 | In every region free and live slots are 679 together |
| DetourAllocator.Allocator.SlotRemain | LoaderWatch.Inject/detours.cpp:1384-1391 | A slot's pbRemain points out of its region exactly if the slot is live and its function is not in the region |
| DetourAllocator.Allocator.IsRegionEmpty | LoaderWatch.Inject/detours.cpp:1374-1396 | True exactly if no live trampoline of the region came from a function outside of it, that is, if none is live where none came from inside |
| DetourAllocator.Allocator.FreeUnusedRegions | LoaderWatch.Inject/detours.cpp:1398-1415 | Releases exactly the regions that are not in use, keeps the others in order, and leaves the default region null or on the list |
| DetourPrologue.CopyPrologue | LoaderWatch.Inject/detours.cpp:2058-2092 | Whole instructions are copied until the jump fits, the table is full or the function ends; then padding is taken; rAlign holds the boundaries, cut to three and five bits; the copies are in the trampoline one behind the other unless one reports -3; little else is written |
| DetourPrologue.PaddingExactly | LoaderWatch.Inject/detours.cpp:2083-2092 | The target is cut where a chain of pieces of padding, each before offset 5, stops: at offset 5 or more, or where there is no padding |
| DetourPrologue.TooShortExactly | LoaderWatch.Inject/detours.cpp:2083-2120 | A target is too short if and only if that chain stops before offset 5; never where padding covers the rest, and with no padding exactly if the last instruction ends before it |
| DetourPrologue.PrologueUnique | LoaderWatch.Inject/detours.cpp:2058-2081 | What is copied can be told before: there is one way to copy a prologue |
| DetourPrologue.BoundaryMoves | LoaderWatch.Inject/detours.cpp:1565-1573 | Looking up the end of a copied instruction inside the range gives the end of its copy if and only if it does not report -3 and does not end before the trampoline |
| DetourPrologue.AllBoundariesMove | LoaderWatch.Inject/detours.cpp:1565-1573 | All of them are right if and only if no instruction inside the range reports -3 |
| DetourPrologue.LoopFirst | LoaderWatch.Inject/disasm.cpp:436-438 | A LOOP first, out of reach of its target: the next copy starts before the trampoline, and its thread goes to offset 31 |
| DetourPrologue.StartMoves | LoaderWatch.Inject/detours.cpp:1565-1573 | Looking up offset 0 gives 0 if and only if the copied instructions do not end at a multiple of eight, or their copies end at a multiple of 32 |
| DetourPrologue.SevenBytesMove | LoaderWatch.Inject/detours.cpp:23-27 | Up to seven bytes, every thread at the start or at a boundary goes to its place if and only if no instruction inside the range reports -3 |
| DetourPrologue.EightBytesDoNotMove | LoaderWatch.Inject/detours.cpp:23-27 | Instructions of 3 and 5 bytes send such a thread to the end |
| DetourPrologue.FourWordsDoNotMove | LoaderWatch.Inject/detours.cpp:2067-2069 | The offsets of four ARM64 instructions in three bits |
| DetourPrologue.CodeSize | LoaderWatch.Inject/detours.cpp:2058-2092 | At most five instructions and less than 20 bytes are moved; their copies end between 3 bytes before and 31 bytes after the start of the trampoline |
| DetourPrologue.CopiesFit | LoaderWatch.Inject/detours.cpp:302-306 | No copy longer than 12 bytes: the moved code ends within 24 bytes; none longer than 14: within 26 |
| DetourPrologue.TwentySevenBytes | LoaderWatch.Inject/detours.cpp:2058-2092 | Two short jumps and an instruction of 15 bytes make 27 bytes of moved code |
| DetourPrologue.AttachedThread | LoaderWatch.Inject/detours.cpp:1777-1790 | Attaching moves a thread from a boundary to the end of the copy if and only if the instruction does not report -3 and does not end before the trampoline, and leaves threads elsewhere alone |
| DetourPrologue.AttachedStart | LoaderWatch.Inject/detours.cpp:1777-1790 | A thread at the start of the target goes to the start of the trampoline if and only if the copied instructions do not end at a multiple of eight, or their copies do at one of 32; one at an offset that is not in the table always |
| DetourPrologue.DetachedThread | LoaderWatch.Inject/detours.cpp:1759-1774 | Detaching moves a thread in the first eight bytes of a trampoline into the first eight of the target, and leaves all others alone |
| DetourPrologue.DetachedBoundary | LoaderWatch.Inject/detours.cpp:1759-1774 | A thread at a boundary in these eight bytes goes back to that boundary if and only if the offset fits and no earlier boundary has the same place |
| DetourPrologue.DetachedInOrder | LoaderWatch.Inject/detours.cpp:1759-1774 | Where no instruction reports -3, every thread at a boundary in these eight bytes, and one at the start, goes back to where it was |
| DetourPrologue.DetachedInside | LoaderWatch.Inject/detours.cpp:1555-1563 | One at a place that is not in the table goes to the start of the target |
| DetourSlots.FillIn | LoaderWatch.Inject/detours.cpp:2130-2190 | The fields of a trampoline, the bytes to restore but for those that the jump back overwrites, the jump back and the breaks; what else is written |
| DetourSlots.RestoreIntact | LoaderWatch.Inject/detours.cpp:2132-2190 | The bytes to restore are those of the target if and only if at most 26 bytes of code were moved, or the target begins with the end of the jump |
| DetourSlots.JumpBackFits | LoaderWatch.Inject/detours.cpp:302-306 | The jump back is inside rbCode if and only if at most 24 bytes were moved, and inside the trampoline if and only if they do not end before it |
| DetourSlots.FirstByteLost | LoaderWatch.Inject/detours.cpp:2132-2190 | At 27 bytes of moved code the first byte to restore becomes 0 |
| DetourSlots.OthersKept | LoaderWatch.Inject/detours.cpp:302-316 | What is written into one trampoline, or two bytes before it, leaves the fields of the others alone |
| DetourJumps.OperandKept | LoaderWatch.Inject/disasm.cpp:421-442 | Wherever the bytes of an adjusted copy are, its operand refers to what the original referred to if and only if the new offset fits |
| DetourJumps.WidenedKept | LoaderWatch.Inject/disasm.cpp:466-497 | And those of a widened jump have its condition and target if and only if the new distance fits |
| DetourJumps.ReferencesKept | LoaderWatch.Inject/detours.cpp:2058-2076 | In a trampoline that an attach filled in, the copied instructions refer to what the originals refer to: widened jumps, one-byte operands, a leading jump and whatever is less than 512 KB away always, any other operand if and only if its offset fits |
| DetourJumps.InOrderExactly | LoaderWatch.Inject/disasm.cpp:436-438 | 512 bytes or more away from its target, a trampoline holds one copy after the other if and only if none of them has an operand of one byte |
| DetourTransactions.Detours.TransactionBegin | LoaderWatch.Inject/detours.cpp:1482-1504 | One transaction at a time; it starts empty with the result of making the regions writable |
| DetourTransactions.Detours.UpdateThread | LoaderWatch.Inject/detours.cpp:1844-1883 | A suspended thread is on the list, or the failure is remembered |
| DetourTransactions.Detours.RoomExactly | LoaderWatch.Inject/detours.cpp:1293-1346 | There is room for a trampoline if and only if some free list, or the third slot of a new region, starts near enough to the target and to what its leading jump refers to |
| DetourTransactions.Detours.Attach | LoaderWatch.Inject/detours.cpp:1893-2245 | Refused at once; otherwise the first thing that fails is the result; queued with a fresh trampoline near enough, always if a free list starts near enough, whose bytes are the copies, the jump back and the fields, the bytes to restore right if and only if the jump back did not reach them; or nothing is taken and the failure is remembered; no code or pointer changes |
| DetourTransactions.Detours.Prepare | LoaderWatch.Inject/detours.cpp:2033-2242 | The filled trampoline is queued, or freed again; the other trampolines keep their fields unless the moved code ends before the start of this one |
| DetourTransactions.Detours.Detach | LoaderWatch.Inject/detours.cpp:2247-2384 | Queues the removal of an attached trampoline with the same detour, or remembers the first failure; the queue is right afterwards if and only if the trampoline was not queued already |
| DetourTransactions.Detours.TransactionAbort | LoaderWatch.Inject/detours.cpp:1506-1547 | No code or pointer changes, the trampolines in use are those from before the transaction, the others are zeroed, and the threads are resumed where they were |
| DetourTransactions.Detours.Apply | LoaderWatch.Inject/detours.cpp:1597-1701 | One operation: the target jumps to its trampoline, which jumps through pbDetour, and is filled with breaks, or has its bytes back; only [pbTarget, pbRemain), rbCodeIn and one pointer change, and which bytes the former become |
| DetourTransactions.Detours.MoveThreads | LoaderWatch.Inject/detours.cpp:1729-1795 | Each suspended thread is where all operations, one after the other, leave it |
| DetourTransactions.Detours.TransactionCommit | LoaderWatch.Inject/detours.cpp:1575-1842 | All or nothing: with an error no code, pointer or thread changes and everything taken is free; otherwise the effect of all operations, of which the last one to write a byte or to set a pointer prevails, threads moved along, their trampolines zeroed and freed, and unused regions released; trampolines in use keep their code, their fields and their pbRemain |
| DetourOperations.OneMoreEffect | LoaderWatch.Inject/detours.cpp:1596-1740 | An operation adds its effect to that of the earlier ones, over theirs where they meet, and keeps that of independent ones |
| DetourOperations.QueuedTwice | LoaderWatch.Inject/detours.cpp:2375-2381 | A queue with a trampoline twice is not right |
| DetourOperations.SavedExactly | LoaderWatch.Inject/detours.cpp:2132-2190 | What an attach saves is what is there if and only if the jump back did not reach it |
| DetourOperations.MovedOnce | LoaderWatch.Inject/detours.cpp:1757-1794 | A thread that one operation looks at, and no later one where it was moved to, is where that one leaves it |
| DetourOperations.ThreadReturns | LoaderWatch.Inject/detours.cpp:1757-1774 | Among several detaches, a thread at a boundary in the first eight bytes of a trampoline goes back to that boundary if and only if its offset fits and no earlier one has the same place |
| DetourOperations.AttachThenDetach | LoaderWatch.Inject/detours.cpp:1575-1842 | Attaching independent targets and detaching them in any order restores every byte if and only if each attach saved what was there; pointers are restored if and only if there was no jump to skip |
| DetourOperations.DetachedAnyhow | LoaderWatch.Inject/detours.cpp:1596-1701 | Attaching any targets in one transaction, overlapping ones too, and detaching them in any order restores every byte if and only if the last detach to write it has its old value, as all do if each attach saved what was there |
| DetourRoundTrip.ThreadFollows | LoaderWatch.Inject/detours.cpp:1757-1794 | Among several attaches, a thread at the end of a moved instruction goes to the end of its copy if and only if that does not report -3 and does not end before the trampoline |
| DetourRoundTrip.Hook | LoaderWatch.Inject/detours.cpp:1893-2245 | Begin, suspend threads, attach each request, commit: every target jumps to its trampoline and on to its detour, the pointer leads to the moved code and its jump to the rest of the function, every thread follows; succeeds if nothing fails |
| DetourRoundTrip.RoundTrip | LoaderWatch.Inject/detours.cpp:1575-1842 | Begin, attach each, commit, begin, detach each in any order, commit: every byte is back if and only if no jump back reached the saved bytes, every pointer leads to its function, and the trampolines in use are those from before; succeeds if nothing fails |
| ImagePayloads.DeleteOne | LoaderWatch.Inject/image.cpp:560-586 | Deleting removes exactly one payload and keeps the others, in order |
| ImagePayloads.SetThenFind | LoaderWatch.Inject/image.cpp:588-621 | Setting and finding gives the data padded with zeros to eight bytes; other GUIDs are untouched |
| ImagePayloads.EncodeAppend | LoaderWatch.Inject/image.cpp:600-617 | Records one after the other encode the concatenation |
| ImageData.CImageData.RecordAt | LoaderWatch.Inject/image.cpp:521-530 | The fields of a record are read back from its offset |
| ImagePayloads.PackedExactly | LoaderWatch.Inject/image.cpp:468-490 | The walk along the records of any bytes ends at their end if and only if they encode a list of payloads |
| ImagePayloads.FindEnds | LoaderWatch.Inject/image.cpp:521-558 | On any bytes the loop of Find ends if and only if it reaches no record of size 0 |
| ImageData.CImageData.Find | LoaderWatch.Inject/image.cpp:521-558 | On any store on which it ends, the first header with the GUID before a record larger than the store; on a packed one, the place of the payload's data, or null exactly if there is none |
| ImageData.CImageData.Enumerate | LoaderWatch.Inject/image.cpp:492-519 | The record at the iterator and the offset of the next one |
| ImageData.CImageData.EnumerateAll | LoaderWatch.Inject/image.cpp:492-519 | Enumerating from 0 visits each payload once, in order, and ends |
| ImageData.CImageData.Delete | LoaderWatch.Inject/image.cpp:560-586 | The buffer holds the payloads without that one |
| ImageData.CImageData.SizeTo | LoaderWatch.Inject/image.cpp:430-457 | Room for so many bytes in its own buffer, with the same payloads |
| ImageData.CImageData.Set | LoaderWatch.Inject/image.cpp:588-621 | The payload, zeros for a null source, is at the end and the old one is gone; without memory only the old one is gone |
| ImageData.CImageData.IsValid | LoaderWatch.Inject/image.cpp:468-490 | Valid if and only if the records follow one another with sizes and reserved words in order; every packed store is, and ends where the store does |
| ImageData.CImageData.Purge | LoaderWatch.Inject/image.cpp:459-466 | No payloads are left |
| ImageImports.CheckImportsNeeded | LoaderWatch.Inject/image.cpp:1353-1403 | The tables, thunks and characters of all files, and whether anything was edited |
| ImageImports.UneditedExactly | LoaderWatch.Inject/image.cpp:1334-1350 | Nothing was edited if and only if no file is a byway and the names of all files and imports are the original ones |
| ImageImports.CImageThunks.Allocate | LoaderWatch.Inject/image.cpp:658-670 | Appends a thunk while there is room |
| ImageImports.CImageChars.AllocateText | LoaderWatch.Inject/image.cpp:697-720 | Appends a terminated string at an even length while there is room |
| ImageImports.CImageChars.AllocateName | LoaderWatch.Inject/image.cpp:722-743 | The same with a hint before it |
| ImageImports.ThunksRead | LoaderWatch.Inject/image.cpp:1845-1874 | A list of thunks that stands for imports is read back as those imports |
| ImageWrite.EmitFile | LoaderWatch.Inject/image.cpp:1832-1876 | One import file uses exactly its counted thunks and characters, and its descriptor leads to them |
| ImageWrite.EmitNames | LoaderWatch.Inject/image.cpp:1857-1872 | One thunk for each name, by name or by ordinal |
| ImageWrite.EmitImports | LoaderWatch.Inject/image.cpp:1830-1877 | No allocation fails, both counted tables are used up, the table ends with a zero entry, the loader reads the import list back, and a byway's second table holds the same import at its FirstThunk, apart from those of the other byways; other files keep their FirstThunk |
| ImageWrite.TableReads | LoaderWatch.Inject/image.cpp:1830-1877 | Reading the descriptors until the null name gives every file with its imports |
| ImageLayout.TotalOfParts | LoaderWatch.Inject/image.cpp:1785-1793 | What is taken is what was asked for plus the rounding of the image headers |
| ImageLayout.CImage.SizeOutputBuffer | LoaderWatch.Inject/image.cpp:873-900 | The exact new size, the smallest multiple of the file alignment that is neither less than what was asked for nor than 1024, and when it fails |
| ImageLayout.CImage.AllocateOutput | LoaderWatch.Inject/image.cpp:902-919 | The next aligned place, and whether it is inside the buffer |
| ImageLayout.CImage.PlaceParts | LoaderWatch.Inject/image.cpp:1802-1828 | The parts follow each other without overlap and all fit if and only if their total does |
| ImageLayout.RoundingFits | LoaderWatch.Inject/image.cpp:1783-1800 | Where file alignment and buffer are multiples of eight, the rounding of the image headers always fits |
| ImageLayout.CImage.WriteDetourSection | LoaderWatch.Inject/image.cpp:1783-1877 | With memory, everything is written if and only if the total fits the size that the buffer gets, always when the image headers are a multiple of eight or the sizes of the buffer are; then the import list is read back from disjoint tables, for byways from the bound table too, where every FirstThunk of theirs is |

## Left out

- FastLock.StepKeepsInv: the word is read and exchanged in one global order; weaker memory ordering, failing waits (PhRaiseStatus) and the value of the spin count are not modelled, and masks are stated by division and remainder.
- FastLock: PhDeleteFastLock and the closing of handles.
- AvlTrees.AvlTree.EnumTree: the callback is a function of what it has seen and does not change the tree; more than 2^32 elements, where the stack could overflow, are excluded as the source's comment does.
- AvlTrees.AvlTree.Add: the compare function looks at a constant record beside the links, not at arbitrary memory.
- A64Dis.CDetourDis.CopyInstruction: instructions other than those the dispatch knows are assumed not to depend on the program counter; BC.cond of Armv8.8 does, and so do the links of the authenticated calls BLRAA, BLRAAZ, BLRAB and BLRABZ; a copy over its own source is not modelled; the words are returned rather than stored through a pointer.
- A64Forms.LdrFarGeneral: the literal is assumed not to change between relocation and execution.
- A64Prologue.PrologueRuns: padding of zero words (detours.cpp:1071), which is no instruction, is passed over only behind an instruction that does not fall through; the breaks behind the jump back, and the writing of the words and the literal to memory; the literal is assumed to be there when the jump back is reached.
- DetourPrologue.CodeSize: instructions of more than 15 bytes, which no processor executes; the check at detours.cpp:2135 can then never fail and is not modelled, and the break at detours.cpp:2127 is passed over as under a debugger.
- DetourJumps.ReferencesKept: which instructions have a relative operand, and where, is a parameter (the opcode tables); a reference into the overwritten bytes themselves is kept like any other.
- FastLockLiveness.EverybodyFinishes: waits and releases do not fail; a spin ends, however large its count.
- DetourTransactions.Detours.TransactionCommit: a GetThreadContext or SetThreadContext that fails, page protections and cache flushing.
- DetourTransactions.Detours.Detach: memory that never was a trampoline reads as zeros; a commit of a queue with a trampoline twice is not followed beyond DetourRegions.FreedTwice.
- DetourTransactions.Detours.Attach: the out-parameters for the real trampoline, target and detour; targets inside trampoline memory, as when attaching again through an attached pointer, are excluded, because trampolines and code are separate memories here (DetourAllocator.Allocator.IsRegionEmpty says what such a trampoline does to its region); where the moved code ends before the trampoline, the contract says which bytes are written and not what later calls do with the trampoline that they may hit.
- DetourAllocator.Allocator.AllocTrampoline: the search of the address space (detours.cpp:1143-1273) is a parameter, null or a fresh 64 KB region; the region signature is always set.
- ImageData.CImageData.Set: data that points into the store itself; sizes of 4 GB and more are excluded, and for Find offsets that wrap around at 4 GB.
- ImageLayout.CImage.WriteDetourSection: the bytes of the section header, of the payload copy and of the file; 32-bit wrap-around of the sizes is excluded.
- EditImports and the reset callbacks, reading an image, and all file output.
- The x86 and x64 opcode tables and prefixes, Thumb and IA64 relocation, and detour_skip_jmp, which is a parameter.
- The driver, IOCTL, debugger, command line, COM and process-creation code, and the smaller helpers of phlib.
