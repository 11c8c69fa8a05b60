# rv32-emu: a verified model of its core

This project models the parts of the rv32-emu simulator whose correctness is not visible from
any one function, and proves what they promise:

- **The ordered map** (`rv32emu/src/map.c`): a left-leaning red-black tree without parent
  pointers. `MapTree` holds trees and zippers as values, `MapInsert` and `MapRemove` the
  rotation cases, `MapStore` the class `RbMap` with heap nodes and the explicit path array,
  `MapRuns` whole runs against a finite map.
- **The block translator's passes** (`rv32emu/src/rv32_constopt.c`, `rv32emu/src/emulate.c`):
  `Words` and `Machine` give the meaning of a block of RV32IM, A and Zicsr instructions in an
  arbitrary environment, `Isa` says what their results are as numbers, `ConstFold` and `Fusion`
  say what folding and fusion make of a block and that it means the same, `IrPasses` runs both
  passes in place on linked IR nodes, `FusedOps` runs the fused instructions. `BlockMap` is the table of translated blocks.
- **The Tensix coprocessor** (`tt_cop/`): `Encoding`, `WaitGate`, `Semaphores`, `CopUnit`
  and `GateFields` for the FIFO, the wait gate, the semaphores and their instruction words;
  `Banks`, `BankPipeline` and `BankUnit` for the double-buffered source registers; `Mop`,
  `MopUnit` and `MopThread` for macro-operations and replay windows; `SfpuLane` and `Sfpu` for the vector unit's lane flags; `Mailbox` for the
  blocking mailboxes.
- **Storage** (`rv32emu/src/cache.c`, `rv32emu/src/mpool.c`): `Cache` and `Mpool`.

State that the C code changes in place is a class with mutable fields and arrays; each method is
proved against a function on values, and the theorems are about those functions. Concurrency is
modelled as atomic steps in an arbitrary order. Everything outside a component is a parameter:
memory contents and answers of devices (`Env`), whether an allocation succeeds (`memory`,
`translates`), when a blocked instruction becomes ready (`ready`, `runs`), the hash function, the
page size. Properties that are false of the code are stated with their exact condition:
constant folding with SC.W (`PreservesIffHarmless`, `ScBreaksFolding`), fused runs that trap or stall
(`FusePreserves`), fused runs longer than 256 (`FuseUnrolls`, `EndsWellIffItFits`), flag nesting
deeper than the stack (`WorksIffItFits`), ZEROSRC of both banks (`FollowsIffUnbroken`), pools too small
for a chunk (`PoolHolds`).

Where comments and code disagree the model follows the code: a write to a full mailbox is
dropped, not stalled (`tt_cop/mailbox.c:12` and `:69-73`); fused stores and loads check the
alignment of every access, not only of the first (`rv32emu/src/emulate.c:567-577`); the cache
evicts the oldest insertion, not the least recently used entry, because look-ups do not move
entries (`rv32emu/src/cache.c:45-55`); SFPSETCC in a lane without predication clears its flag but
does not switch predication on (`tt_cop/tt_insn.c:3522-3524`).

## Model

| member | source | states |
|---|---|---|
| `MapTree.BalancedBounds` | rv32emu/src/map.c:33-43 | a balanced tree of black height h has height at most 2h+1 and at least 2^h - 1 nodes |
| `MapInsert.RotateLeft` | rv32emu/src/map.c:120-125 | the pointer rotation turns the shape of a tree into that of the rotated tree |
| `MapInsert.RotateRight` | rv32emu/src/map.c:127-132 | the mirrored rotation |
| `MapInsert.GrownLessBalanced` | rv32emu/src/map.c:595-608 | repairing a left child after an insertion restores balance up to one red-red link above, keeps the in-order listing, and changes nothing once the child is black |
| `MapInsert.GrownGreaterBalanced` | rv32emu/src/map.c:609-628 | the same for a right child: split or rotate |
| `MapInsert.GrowLess` | rv32emu/src/map.c:595-608 | the pointer updates produce exactly that tree |
| `MapInsert.GrowGreater` | rv32emu/src/map.c:609-628 | the pointer updates produce exactly that tree |
| `MapRemove.ShrunkLessBalanced` | rv32emu/src/map.c:241-314 | all four cases below a left link: the subtree is balanced again or one level shorter, with the same listing |
| `MapRemove.ShrunkGreaterBalanced` | rv32emu/src/map.c:315-446 | all six cases below a right link: balanced again or one level shorter |
| `MapRemove.ShrunkGreaterListing` | rv32emu/src/map.c:315-446 | those cases keep the listing and the nodes |
| `MapRemove.ShrinkLess` | rv32emu/src/map.c:241-314 | the pointer updates of the left cases produce exactly that tree, and say whether balance is restored |
| `MapRemove.ShrinkGreater` | rv32emu/src/map.c:315-446 | the pointer updates of the right cases produce exactly that tree, and say whether balance is restored |
| `MapStore.Climb` | rv32emu/src/map.c:592-630 | the upward loop over the recorded path ends with a balanced tree that lists the same nodes |
| `MapStore.SwappedListing` | rv32emu/src/map.c:169-197 | putting the successor in the place of a node and pruning its old place removes exactly that node from the listing |
| `MapStore.SwappedBalanced` | rv32emu/src/map.c:169-197 | exchanging colours with the successor leaves the path balanced |
| `MapStore.RbMap.constructor` | rv32emu/src/map.c:511-535 | a new map is valid and empty |
| `MapStore.RbMap.DepthBound` | rv32emu/src/map.c:33-43 | with fewer than 2^62 nodes the height is at most 124, so the 128-entry path array is never overrun |
| `MapStore.RbMap.InsertUnique` | rv32emu/src/map.c:538-566 | the search records the path to an existing key or to the free place for it; "too deep" only at height 127 |
| `MapStore.RbMap.Insert` | rv32emu/src/map.c:569-637 | below 2^62 nodes it fails exactly for a present key or without memory, keeps the old value then, and otherwise adds the pair; the tree stays valid |
| `MapStore.RbMap.FindPath` | rv32emu/src/map.c:144-166 | the search for a node records the path to it |
| `MapStore.RbMap.FindSuccessor` | rv32emu/src/map.c:154-163 | the path is extended down the left spine of the right subtree |
| `MapStore.RbMap.SwapSuccessor` | rv32emu/src/map.c:169-197 | node and successor change places in tree and path |
| `MapStore.RbMap.Unwind` | rv32emu/src/map.c:237-450 | the upward loop repairs a subtree that is one level short, keeping the listing |
| `MapStore.RbMap.Prune` | rv32emu/src/map.c:226-454 | pruning the node at the end of the path leaves a balanced tree with a black root |
| `MapStore.RbMap.Remove` | rv32emu/src/map.c:139-454 | removing any node of a valid tree gives a balanced tree that lists exactly the other nodes |
| `MapStore.RbMap.Erase` | rv32emu/src/map.c:680-697 | erasing a found entry removes its key and nothing else; erasing the end does nothing |
| `MapStore.RbMap.Find` | rv32emu/src/map.c:640-665 | finds a node exactly when the key is present, with its value |
| `MapStore.RbMap.First` | rv32emu/src/map.c:726-743 | the first node of the listing, or none |
| `MapStore.RbMap.Last` | rv32emu/src/map.c:745-763 | the last node of the listing, or none |
| `MapStore.RbMap.Next` | rv32emu/src/map.c:765-801 | the next node of the listing, or none |
| `MapStore.RbMap.Prev` | rv32emu/src/map.c:803-843 | the previous node of the listing, or none |
| `MapRuns.Enumerate` | rv32emu/src/map.c:726-801 | first and next enumerate every key once, strictly ascending, with its value |
| `MapRuns.Perform` | rv32emu/src/map.c:569-697 | one insertion or removal does what a finite map does and reports it |
| `MapRuns.Replay` | rv32emu/src/map.c:569-697 | after any sequence of operations the contents are those of the finite map |
| `MapRuns.Run` | rv32emu/src/map.c:538-801 | a whole run answers like a finite map and then enumerates it in ascending order |
| `Isa.DivRem` | rv32emu/src/rv32_constopt.c:484-550 | DIV and REM give the quotient truncated toward zero and the remainder with the sign of the dividend; -1 and the dividend for a zero divisor; the dividend and zero on overflow |
| `Isa.TruncatesOnce` | rv32emu/src/rv32_constopt.c:484-550 | there is only one such quotient and remainder |
| `Isa.DivuRemu` | rv32emu/src/rv32_constopt.c:507-562 | the same for unsigned operands |
| `Isa.MulHalves` | rv32emu/src/rv32_constopt.c:421-475 | MULH, MULHU and MULHSU times 2^32 plus MUL is the exact signed, unsigned or mixed product |
| `Isa.ShiftResults` | rv32emu/src/rv32_constopt.c:257-333 | SLL multiplies by a power of two modulo 2^32, SRL and SRA divide by it, rounding down |
| `Isa.ImmediateIsRegister` | rv32emu/src/rv32_constopt.c:112-230 | a register-immediate instruction is the register-register one with the immediate as operand |
| `Words.BitwiseBit` | rv32emu/src/rv32_constopt.c:296-360 | each bit of AND, OR and XOR comes from the same bits of the operands |
| `Isa.LoadExtends` | rv32emu/src/rv32_template.c:616-695 | loads keep the low bits and extend them by zero or by sign |
| `ConstFold.ImmFoldCorrect` | rv32emu/src/rv32_constopt.c:112-230 | the folded immediate is the result of the register-immediate instruction |
| `ConstFold.RegFoldCorrect` | rv32emu/src/rv32_constopt.c:233-562 | the folded immediate is the result of the register-register instruction, which `DivRem`, `MulHalves` and `ShiftResults` describe |
| `ConstFold.FoldedStep` | rv32emu/src/rv32_constopt.c:11-562 | with true facts a folded instruction does what the original did |
| `ConstFold.FoldedBranch` | rv32emu/src/rv32_constopt.c:54-81 | a branch of known direction, turned into a jump, goes to the same address |
| `ConstFold.LearnedSound` | rv32emu/src/rv32_constopt.c:11-633 | what is recorded after an instruction holds of the registers it leaves |
| `ConstFold.ScSound` | rv32emu/src/rv32_constopt.c:576 | after SC.W the record is true exactly if it did not claim another value for rd |
| `ConstFold.NoScTracked` | rv32emu/src/rv32_constopt.c:576 | a block without SC.W has no stale record |
| `ConstFold.TrackedHarmless` | rv32emu/src/rv32_constopt.c:576 | a block without stale record meets the exact condition |
| `ConstFold.FoldPreserves` | rv32emu/src/emulate.c:1021-1030 | if no instruction that can be reached is folded otherwise than true facts would fold it, the folded rest of a block means the same |
| `ConstFold.OptimizePreserves` | rv32emu/src/emulate.c:1021-1030 | under that condition, which looks at the block only, the folded block gives the same registers, accesses in order, next address and cycle count in every environment |
| `ConstFold.HarmShows` | rv32emu/src/rv32_constopt.c:11-633 | otherwise some beginning of the block comes out differently, from every state and wherever misaligned accesses are allowed |
| `ConstFold.PreservesIffHarmless` | rv32emu/src/emulate.c:1021-1030 | so every beginning of a translated block means the same, from every state and in every environment, exactly under that condition |
| `ConstFold.ConstantsFold` | rv32emu/src/emulate.c:1021-1030 | the pass does fold: a block of arithmetic on nothing but constants and earlier results becomes loads of the results, a branch at its end a jump |
| `ConstFold.ScBreaksFolding` | rv32emu/src/rv32_constopt.c:576 | a block with SC.W whose folded form computes another value |
| `Fusion.RunLength` | rv32emu/src/emulate.c:850-859 | the counted run is as long as the opcodes match |
| `Fusion.RoundIsStep` | rv32emu/src/emulate.c:521-631 | one round of a fused loop does what the single instruction does, program counter and cycle count aside |
| `Fusion.Sequential` | rv32emu/src/emulate.c:521-631 | a run of instructions one by one ends as the fused loop does if it is clean, and differs as described if not |
| `Fusion.PairStep` | rv32emu/src/emulate.c:541-557 | fused LUI and ADD do what the two instructions do |
| `Fusion.FormPreserves` | rv32emu/src/emulate.c:899-996 | one replacement leads where the block leads, unless it is a group that does not run cleanly |
| `Fusion.FusesRun` | rv32emu/src/emulate.c:924-951 | the pass does fuse: a whole run of 2 to 256 instructions of a kind becomes one |
| `Fusion.FusesPair` | rv32emu/src/emulate.c:912-923 | and so does a LUI with an ADD that uses it |
| `Fusion.FuseUnrolls` | rv32emu/src/emulate.c:878-996 | runs of any length: the fused block means the same as the block with the instructions that an 8-bit count fails to remove written out again, if and only if every fused instruction reached runs cleanly |
| `Fusion.FusePreserves` | rv32emu/src/emulate.c:899-996 | a block in which no run that can be reached is longer than 256 means the same after fusion if and only if every fused instruction reached runs without trap or mailbox stall |
| `Fusion.EndsWellIffItFits` | rv32emu/src/emulate.c:878-996 | a fused block that is run cleanly until it ends, jumps or calls has kept its meaning exactly when no run before an instruction that leaves it was longer than 256 |
| `Fusion.FitsAll` | rv32emu/src/emulate.c:878-996 | if only the last instruction leaves the block, that is a condition on all its runs |
| `Fusion.TrapMoves` | rv32emu/src/emulate.c:587-611 | two loads of which the second traps: fused, the trap reports the address of the first |
| `Fusion.StallIsLost` | rv32emu/src/emulate.c:587-611 | a load and a mailbox load that stalls: fused, the block ends instead |
| `Fusion.LuiCycles` | rv32emu/src/emulate.c:878-891 | the 8-bit count makes longer runs repeat 256, 512, ... instructions |
| `Fusion.LongRunsRepeat` | rv32emu/src/emulate.c:878-891 | a block of LUI keeps its meaning exactly up to 256 instructions |
| `IrPasses.Constopt` | rv32emu/src/rv32_constopt.c:11-633 | rewriting a node and the two tables in place is folding and learning |
| `IrPasses.OptimizeConstant` | rv32emu/src/emulate.c:1021-1030 | the loop leaves the list of nodes holding the folded block |
| `IrPasses.CountRun` | rv32emu/src/emulate.c:850-859 | the counting loop finds the length of the run |
| `IrPasses.CopyRun` | rv32emu/src/emulate.c:869-874 | the copying loop fills the table with the run |
| `IrPasses.RemoveNextNth` | rv32emu/src/emulate.c:878-891 | exactly the n following nodes leave the list; tail and count follow |
| `IrPasses.FusePair` | rv32emu/src/emulate.c:912-923 | the node takes in the ADD |
| `IrPasses.FuseRun` | rv32emu/src/emulate.c:924-951 | the node takes in the run, as many nodes leave as an 8-bit count says |
| `IrPasses.FuseHead` | rv32emu/src/emulate.c:908-992 | the switch does to the list what the pass does to the block |
| `IrPasses.FuseAt` | rv32emu/src/emulate.c:899-996 | one round keeps index, list and instruction count in step |
| `IrPasses.MatchPattern` | rv32emu/src/emulate.c:899-996 | the loop leaves the list showing the fused block |
| `FusedOps.Core.Luis` | rv32emu/src/emulate.c:521-538 | do_fuse1 computes the fused step |
| `FusedOps.Core.LuiAndAdd` | rv32emu/src/emulate.c:541-557 | do_fuse2 computes the fused step |
| `FusedOps.Core.Stores` | rv32emu/src/emulate.c:560-584 | do_fuse3 computes the fused step, traps included |
| `FusedOps.Core.Loads` | rv32emu/src/emulate.c:587-611 | do_fuse4 computes the fused step, traps included |
| `FusedOps.Core.Shifts` | rv32emu/src/emulate.c:614-631 | do_fuse5 computes the fused step |
| `FusedOps.PassesPreserve` | rv32emu/src/emulate.c:1083-1087 | folding followed by fusion preserves a translated block exactly when its fused instructions run cleanly |
| `FusedOps.OptimizeBlock` | rv32emu/src/emulate.c:1083-1087 | running both passes on the linked list leaves it showing that block, so it runs as the original from every state that starts it |
| `BlockMap.Map.Find` | rv32emu/src/emulate.c:319-335 | the probe returns the first block stored for the address or none, and ends unless a missing address is looked up in a full table |
| `BlockMap.Map.Insert` | rv32emu/src/emulate.c:302-316 | adds a block that later look-ups find, unless its address is already stored: then it takes a slot and the first one is still found; a new address keeps addresses unique |
| `BlockMap.Map.Clear` | rv32emu/src/riscv.c:64-87 | empties the map |
| `BlockMap.Map.FindOrTranslate` | rv32emu/src/emulate.c:1041-1094 | hit: the stored block, nothing changes; miss: the map is cleared first if five fourths of its size exceed 1024, so at most 820 slots are used; stored addresses stay unique |
| `BlockMap.Replay` | rv32emu/src/emulate.c:1041-1094 | after any run of look-ups, translations and clears each stored address has one slot, at most 820 are used, and the stored addresses are those the run determines |
| `BlockMap.FinalBound` | rv32emu/src/emulate.c:1061-1065 | in such a run used slots and stored addresses are equal in number, at most 820 |
| `BlockMap.UsedBound` | rv32emu/src/emulate.c:1061-1065 | fewer used slots than slots leave an empty one |
| `Banks.Ownership` | tt_cop/tensix_cop.c:1072-1109 | the two ownership tests are "the ring is full" and "the ring is not empty" |
| `Banks.UnpacrRefines` | tt_cop/tt_insn.c:2131-2145 | UNPACR waits exactly while two banks are outstanding and hands over the tile it wrote, if it sets the bank valid |
| `Banks.ZeroSrcRefines` | tt_cop/tt_insn.c:2531-2590 | ZEROSRC keeps the ring unless it clobbers |
| `Banks.ClobberBreaks` | tt_cop/tt_insn.c:2556-2569 | ZEROSRC of both banks with other contents outstanding breaks the ring |
| `Banks.StagedThenHanded` | tt_cop/tt_insn.c:2144-2498 | a tile written without handing it over is what the next UNPACR that only hands over gives away |
| `Banks.ClobberExample` | tt_cop/tt_insn.c:2556-2569 | one tile outstanding: ZEROSRC of both banks puts zero in its place while the matrix unit owns it |
| `Banks.MathRefines` | tt_cop/tt_insn.c:1127-1356 | ELWADD, ELWSUB, ELWMUL and SETRWC wait for their banks, read the oldest ones and give back one bank per flip bit, in order |
| `Banks.MvmulRefines` | tt_cop/tt_insn.c:995-1094 | MVMUL does so too, and gives back a zeroed SrcB bank that it passes over |
| `Banks.StepRefines` | tt_cop/tensix_cop.c:1072-1123 | one step of either thread does what the rings say, with as many banks handed over and given back as its bits say, exactly unless it clobbers |
| `Banks.ResetInRing` | tt_cop/tt_insn.c:1489-1494 | CLEARDVALID with reset empties both rings |
| `Banks.EventFits` | tt_cop/tensix_cop.c:1072-1123 | one attempt, a reset included, waits exactly when its rings say, moves as many banks as its bits say, gives them back in order and reads the oldest ones; the registers are the next rings exactly unless it overwrites an outstanding bank |
| `Banks.FollowsIffUnbroken` | tt_cop/tensix_cop.c:1072-1123 | in every interleaving, resets included, each attempt is what the rings say and the registers are the rings all along, exactly if no attempt overwrites an outstanding bank |
| `Banks.RunRefines` | tt_cop/tensix_cop.c:1072-1123 | such a run's log is explained by the rings: waits, banks given back, tiles read; at its end bank numbers are counts modulo two, exactly the outstanding banks are owned by the matrix unit and unchanged |
| `Banks.AllowedUnbroken` | tt_cop/tt_insn.c:2531-2590 | no run overwrites in which ZEROSRC of both banks waits for the matrix unit |
| `Banks.ReleasedInOrder` | tt_cop/tensix_cop.c:1072-1123 | in such a run the banks given back since the last reset are those handed over since then, in order, and the rings hold the difference |
| `Banks.EveryRun` | tt_cop/tensix_cop.c:1072-1123 | both together: after any run the registers are the rings built by its effects since the last reset |
| `BankPipeline.AttemptsKeep` | tt_cop/tensix_cop.c:977-1123 | the ring invariant of the pipeline holds after every schedule |
| `BankPipeline.NeverStuck` | tt_cop/tensix_cop.c:977-1123 | an unfinished pipeline always has a thread that can go on |
| `BankPipeline.EverySchedule` | tt_cop/tensix_cop.c:977-1123 | no thread can go on exactly when 3n instructions have completed; the k-th ELWADD reads the k-th tiles |
| `BankPipeline.RoundRobinFinishes` | tt_cop/tensix_cop.c:1125-1142 | trying the threads in turn finishes n tiles within 3n rounds |
| `BankUnit.SourceBanks.constructor` | tt_cop/tensix_impl.c:105-113 | at first both rings are empty |
| `BankUnit.SourceBanks.Unpacr` | tt_cop/tt_insn.c:2144-2498 | blocked exactly when the ring step waits; otherwise bank, ownership, pointer and zero mark become those of the ring step |
| `BankUnit.SourceBanks.ZeroSrc` | tt_cop/tt_insn.c:2531-2590 | the same for ZEROSRC, with its loop over the banks |
| `BankUnit.SourceBanks.Elementwise` | tt_cop/tt_insn.c:1188-1294 | the same for the element-wise operations: both banks released as the flip bits say |
| `BankUnit.SourceBanks.Mvmul` | tt_cop/tt_insn.c:1006-1094 | the same for MVMUL, the skipped zeroed bank included |
| `BankUnit.SourceBanks.SetRwc` | tt_cop/tt_insn.c:1506-1589 | the same for the flip bits of SETRWC |
| `BankUnit.SourceBanks.ClearDvalid` | tt_cop/tt_insn.c:1489-1494 | the same for the reset: ownership and pointers start over, zero marks stay |
| `Words.XorBack` | tt_cop/tensix_cop.c:1524 | flipping a word twice by the same difference gives it back |
| `Mop.MopFields` | tt_cop/tensix_cop.c:1663-1674 | template, count and mask are read back from a word that holds them |
| `Mop.FlipsBack` | tt_cop/tensix_cop.c:1524 | the loop operation alternates between cfg[5] and cfg[6] |
| `Mop.InnerRest` | tt_cop/tensix_cop.c:1514-1530 | the lazy inner loop emits the operations by position, the last one from cfg[7] or cfg[8] |
| `Mop.LazyIsEager1` | tt_cop/tensix_cop.c:1484-1550 | the Template 1 generator emits exactly the nested loops, the 129-round case included |
| `Mop.TwoRounds` | tt_cop/tensix_cop.c:1484-1550 | two outer rounds of one pair of loop operations, written out |
| `Mop.OneBecomesMany` | tt_cop/tensix_cop.c:1697-1701 | one round that only emits its end operation emits it 129 times |
| `Mop.LazyIsEager0` | tt_cop/tensix_cop.c:1420-1480 | the Template 0 generator emits one round per mask bit, as the two flag bits say, zero bits beyond the word |
| `MopUnit.Expander.Next0` | tt_cop/tensix_cop.c:1420-1480 | each call emits the head of what is left, or stops when nothing is |
| `MopUnit.Expander.Next1` | tt_cop/tensix_cop.c:1484-1550 | the same for the nested loops; the internal loop terminates |
| `MopUnit.Expander.Next` | tt_cop/tensix_cop.c:1554-1566 | one instruction of the expansion, or its end |
| `MopUnit.Expander.Expand` | tt_cop/tensix_cop.c:1657-1711 | after it the calls of Next emit the mask rounds or the nested loops |
| `MopThread.ReplayOpens` | tt_cop/tt_insn.c:540-545 | a REPLAY word opens a window of as many instructions as its count field says, 64 for zero, the k-th from the k-th slot after its start field, wrapping around |
| `MopThread.Record` | tt_cop/tensix_cop.c:1273-1281 | recording stores instructions in consecutive slots |
| `MopThread.RecordThenReplay` | tt_cop/tensix_cop.c:1572-1600 | up to 32 recorded instructions are replayed in the order recorded |
| `MopThread.CopThread.Drain` | tt_cop/tensix_cop.c:1572-1600 | draining a replay window keeps completed plus pending, and returns true exactly when the window is done |
| `MopThread.CopThread.Continue` | tt_cop/tensix_cop.c:1606-1652 | a call keeps completed plus pending, and returns true exactly when nothing is pending |
| `MopThread.CopThread.Begin` | tt_cop/tensix_cop.c:1657-1711 | pending is then the whole expansion with every REPLAY followed by its window |
| `MopThread.CopThread.Execute` | tt_cop/tensix_cop.c:1572-1652 | over any number of calls the completed instructions are a prefix of that sequence, and all of it when the last call succeeds |
| `SfpuLane.TestMeans` | tt_cop/tt_insn.c:3525-3537 | which words pass SFPSETCC: negative, not zero, not negative, zero |
| `SfpuLane.TestsRun` | tt_cop/tt_insn.c:3500-3543 | a row of SFPSETCC narrows the enabled lanes to those passing all tests |
| `SfpuLane.RunsAsScalar` | tt_cop/tt_insn.c:3750-3973 | nested push, test, then, complement, else, pop: an enabled lane ends as a scalar if/else run of its own data, a disabled lane is unchanged, flags and stack are restored |
| `SfpuLane.RunsUnpredicated` | tt_cop/tt_insn.c:3522-3524 | with predication off both branches run |
| `SfpuLane.NeverGrows` | tt_cop/tt_insn.c:3750-3883 | a structured program never leaves more on the stack than it found |
| `SfpuLane.TooDeep` | tt_cop/tt_insn.c:3763-3766 | nesting beyond eight loses an entry or switches predication off |
| `SfpuLane.WorksIffItFits` | tt_cop/tt_insn.c:3750-3973 | so the program runs as the scalar one exactly when its nesting fits the stack |
| `SfpuLane.NineFail` | tt_cop/tt_insn.c:3763-3766 | from an empty stack eight nested conditionals work and nine do not |
| `SfpuLane.NegateIsAbs` | tt_cop/tt_insn.c:3402-3543 | the program that inverts a negative register and adds one leaves what SFPABS leaves |
| `SfpuLane.AbsMeans` | tt_cop/tt_insn.c:3579-3610 | SFPABS gives the magnitude, except that -2^31 stays |
| `SfpuLane.ShiftMeans` | tt_cop/tt_insn.c:3452-3498 | SFPSHFT by an immediate is a product modulo 2^32 or a quotient rounded down |
| `SfpuLane.BooleanTable` | tt_cop/tt_insn.c:3750-3883 | the truth tables of the flag combinations |
| `Sfpu.VectorUnit.constructor` | tt_cop/tensix_impl.c:117-147 | all lanes enabled, predication on, stack empty, constants in registers 8, 10, 11 and 15, zero elsewhere |
| `Sfpu.VectorUnit.Compute` | tt_cop/tt_insn.c:3402-3658 | the lane loops of the computing instructions act lane by lane |
| `Sfpu.VectorUnit.SetCc` | tt_cop/tt_insn.c:3500-3543 | the lane loop of SFPSETCC |
| `Sfpu.VectorUnit.PushC` | tt_cop/tt_insn.c:3750-3816 | the lane loop of SFPPUSHC in all its modes, one shared stack pointer |
| `Sfpu.VectorUnit.PopC` | tt_cop/tt_insn.c:3817-3883 | the lane loop of SFPPOPC in all its modes |
| `Sfpu.VectorUnit.CompC` | tt_cop/tt_insn.c:3950-3973 | the lane loop of SFPCOMPC |
| `Sfpu.VectorUnit.Run` | tt_cop/tt_insn.c:3402-3973 | a program does to every lane what it does to it alone |
| `Sfpu.VectorUnit.RunStructured` | tt_cop/tt_insn.c:3402-3973 | the structured-program theorem on all 32 lanes |
| `GateFields.BlockTable` | tt_cop/tensix_cop.c:304-465 | each block bit holds back its unit and every wait |
| `GateFields.SemWaitFields` | tt_cop/tensix_cop.c:494-514 | the gate that a SEMWAIT word latches, field by field |
| `GateFields.StallsOnRings` | tt_cop/tensix_cop.c:571-585 | STALLWAIT conditions 5 to 8 wait until SrcA or SrcB has a bank for the unpackers or for the matrix unit, in terms of the rings |
| `WaitGate.WaitsAreHeld` | tt_cop/tensix_cop.c:1013-1055 | every active gate holds back every wait instruction |
| `WaitGate.ReplacedOnlyWhenMet` | tt_cop/tensix_cop.c:1013-1065 | a wait completes, and its gate replaces the one in force, only after a check at which that one's condition held |
| `WaitGate.HappenedGood` | tt_cop/tensix_cop.c:977-1123 | every push and every step, whatever state of the core it finds, keeps the invariant of `EveryRun` |
| `WaitGate.EveryRun` | tt_cop/tensix_cop.c:98-136 | in every run completed, pending and queued instructions are the accepted ones in order; the completed ones determine the gate in force, and whatever it held back completed only after a recorded check of that gate, made by a step of the run whose core met its condition, even if it was blocked in between |
| `WaitGate.GateLeavesOnlyWhenMet` | tt_cop/tensix_cop.c:1031-1065 | an active gate changes only in a step whose core met its condition, with an instruction it held back in hand |
| `CopUnit.Fifo.Push` | tt_cop/tensix_cop.c:116-125 | appends unless 32 instructions are queued |
| `CopUnit.Fifo.Pop` | tt_cop/tensix_cop.c:127-136 | takes the oldest instruction |
| `CopUnit.GateThread.Check` | tt_cop/tensix_cop.c:544-639 | the loops decide the gate's condition |
| `CopUnit.GateThread.Attempt` | tt_cop/tensix_cop.c:1006-1122 | an instruction in hand is held back, latched, completed or kept pending as the step of `EveryRun` says, with the check against the core done by the loops |
| `CopUnit.GateThread.Step` | tt_cop/tensix_cop.c:977-1123 | one call fetches the pending or oldest instruction and leaves FIFO, pending slot, gate and log as the step of `EveryRun` |
| `GateFields.MovesNamed` | tt_cop/tt_insn.c:4453-4496 | SEMPOST and SEMGET words move the semaphore their field names by one and no other |
| `GateFields.SetsNamed` | tt_cop/tt_insn.c:4433-4452 | SEMINIT sets value and maximum of the semaphore its field names and no other |
| `Semaphores.MovesWithCredit` | tt_cop/tensix_cop.c:603-630 | a guarded post completes only below the maximum, a guarded get only above zero |
| `Semaphores.MovedSemaphore` | tt_cop/tt_insn.c:4453-4496 | with credit a post or a get moves its semaphore by exactly one and leaves the maximum |
| `Semaphores.ActReady` | tt_cop/tensix_cop.c:494-514 | an open wait stays a guarding gate or a credit, whatever instructions come between |
| `Semaphores.EveryInterleaving` | tt_cop/tt_insn.c:4433-4496 | from any start, two programs with a wait before every post and every get: in every interleaving, while bank flags and other semaphores change freely, 0 <= value <= max <= 15 and value = initial + posts - gets |
| `GateFields.ProducerConsumer` | tt_cop/tt_insn.c:4433-4496 | in particular for two programs made of SEMWAIT, SEMPOST and SEMGET words |
| `Semaphores.StartsBalanced` | tt_cop/tt_insn.c:4433-4452 | two disciplined programs start from that invariant |
| `CopUnit.SemaphoreBank.Init` | tt_cop/tt_insn.c:4433-4452 | the loop sets value and maximum of the selected semaphores |
| `CopUnit.SemaphoreBank.Post` | tt_cop/tt_insn.c:4453-4478 | the loop is the modelled post |
| `CopUnit.SemaphoreBank.Get` | tt_cop/tt_insn.c:4479-4496 | the loop is the modelled get |
| `Mailbox.RunConserves` | tt_cop/mailbox.c:34-105 | in every interleaving what was read from a FIFO, then what is in it, is what was accepted, in order |
| `Mailbox.ReadsArePrefix` | tt_cop/mailbox.c:34-105 | completed reads are a prefix of the accepted writes |
| `Mailbox.ReadsWhatWasSent` | tt_cop/mailbox.c:58-105 | in every interleaving what core R reads at the mailbox of core W is what W wrote to the mailbox of R, in order |
| `Mailbox.StallKeeps` | rv32emu/src/emulate.c:466-489 | a stalled load takes nothing and keeps its address, its base register and all registers but the destination |
| `Mailbox.RetryIsAtomic` | rv32sim.c:45-70 | stall, yield and retry are one atomic read at the moment of the attempt that succeeds |
| `Mailbox.MailboxUnit.Push` | tt_cop/mailbox.c:34-43 | appends unless four values are queued, leaving the other fifteen FIFOs alone |
| `Mailbox.MailboxUnit.Pop` | tt_cop/mailbox.c:46-56 | takes the oldest value, leaving the other FIFOs alone |
| `Mailbox.MailboxUnit.Write` | tt_cop/mailbox.c:58-75 | routes from writer to target; a full FIFO drops the value |
| `Mailbox.MailboxUnit.Read` | tt_cop/mailbox.c:77-105 | routes from target to reader; queries do not take, an empty FIFO sets the stall flag |
| `Mailbox.MailboxUnit.Process` | tt_cop/mailbox.c:107-116 | reports and clears the stall flag |
| `Cache.StoredLookup` | rv32emu/src/cache.c:251-339 | after an insertion the new key is found, the one pushed out is not, all others are as before; keys stay distinct, both bounds are kept |
| `Cache.CountsSurvive` | rv32emu/src/cache.c:317-326 | an insertion changes no other key's count, evicted or not, unless the last piece of its history is dropped; a key that comes back goes on counting |
| `Cache.UseCounts` | rv32emu/src/cache.c:221-222 | a counted look-up adds one to the count of a live key and changes no other |
| `Cache.FoundIffRecent` | rv32emu/src/cache.c:251-339 | after a run of successful insertions and look-ups a key is found exactly if fewer other keys than fit were inserted since its last insertion, with the value it was given then |
| `Cache.LiveIsRecent` | rv32emu/src/cache.c:279-284 | the live keys are those inserted last, as many as fit, in that order |
| `Cache.FinalSound` | rv32emu/src/cache.c:186-339 | in every run live keys stay distinct and both lists stay within the capacity |
| `Cache.BlockCache.constructor` | rv32emu/src/cache.c:148-184 | a new cache is empty and has capacity 2^bits |
| `Cache.BlockCache.FindFirst` | rv32emu/src/cache.c:257-277 | the chain search finds the newest entry of a key, the only one that can be alive |
| `Cache.BlockCache.Get` | rv32emu/src/cache.c:186-225 | look-up in the list of live entries; only the count of the entry found changes, the history does not |
| `Cache.BlockCache.Freq` | rv32emu/src/cache.c:347-368 | the count of a live key, else zero |
| `Cache.BlockCache.LiveKeysDiffer` | rv32emu/src/cache.c:251-339 | live entries have distinct keys, so they are a bounded list in the sense of `StoredLookup` |
| `Cache.BlockCache.FoundHistory` | rv32emu/src/cache.c:257-267 | the chain search for a key that is not live finds its latest piece of history |
| `Cache.BlockCache.Retire` | rv32emu/src/cache.c:286-296 | a live entry moves to the front of the history |
| `Cache.BlockCache.Trim` | rv32emu/src/cache.c:231-243 | exactly the oldest piece of history is dropped, and only beyond the bound |
| `Cache.BlockCache.Put` | rv32emu/src/cache.c:251-339 | live list, history and counts change as the bounded lists do: the same key is pushed out, else the oldest of a full list; the victim heads the history, an inherited piece leaves it, the oldest is dropped beyond the bound; without memory the victim moves to the front |
| `Cache.Replay` | rv32emu/src/cache.c:186-368 | every run of insertions, look-ups and counts answers as the two bounded lists do and leaves live entries, history and counts as they say |
| `Mpool.PoolHolds` | rv32emu/src/mpool.c:56-79 | a pool has a chunk exactly when its size, enlarged with wrap-around, reaches one, and no more chunks than fit its pages |
| `Mpool.ChunksFit` | rv32emu/src/mpool.c:79-88 | places of an area lie inside it and do not overlap |
| `Mpool.AsManyAsFit` | rv32emu/src/mpool.c:79 | an area has as many chunks as fit |
| `Mpool.Create` | rv32emu/src/mpool.c:47-94 | no pool exactly on overflow or without memory; otherwise a valid pool with all its chunks free exactly when it can hold one, else the linking loop leaves the area |
| `Mpool.SmallPoolOverruns` | rv32emu/src/mpool.c:60-79 | one byte for chunks of a hundred: no size overflows, yet there is no chunk |
| `Mpool.Pool.Alloc` | rv32emu/src/mpool.c:136-149 | a chunk that is not live, from a new area only when none is free; fails exactly when none is free and none can be mapped; the pool owns nothing it did not own or map |
| `Mpool.Pool.Extend` | rv32emu/src/mpool.c:96-134 | one more area, all its chunks free, live chunks untouched |
| `Mpool.Pool.Free` | rv32emu/src/mpool.c:160-166 | a live chunk becomes the head of the free list |
| `Mpool.Pool.RefreshAll` | rv32emu/src/mpool.c:168-193 | the free list holds every chunk of every area exactly once |
| `Mpool.Pool.ChunkInside` | rv32emu/src/mpool.c:79-88 | the bytes of every chunk of a pool lie inside its area |
| `Mpool.Pool.ChunksApart` | rv32emu/src/mpool.c:79-88 | the bytes of two chunks of a pool do not overlap |
| `Mpool.Run` | rv32emu/src/mpool.c:96-166 | in every run of allocations and releases, free plus held chunks are those of the start plus those of the areas added, and held chunks are in bounds, apart from each other and from free ones |

## Left out

- Colour bits packed into the low bit of the right pointer: nodes have a separate colour field.
- Keys and values of `map.c` are integers with the usual order; user comparators and copying of key and value bytes are not modelled.
- `map_clear`, `map_delete`, `map_empty`, `map_size` and iterators at the end: they would only add easy members.
- MapStore.RbMap.Insert: states when it fails only below 2^62 nodes, because beyond that the depth bound of the path array does not apply.
- Compressed, floating-point and vector instructions, and the inline TT instruction: a block holds RV32I, M, A, Zicsr and system instructions.
- SRET and the system-mode memory model.
- Fusion.FusePreserves: needs runs of at most 256 instructions, as far as they can be reached, and a mailbox load only at the end of a block, as translation produces it; `FuseUnrolls` and `EndsWellIffItFits` say what becomes of longer runs.
- Fusion.FuseUnrolls: excludes a mailbox load at the end of more than 256 loads, and runs of more than 2^30 instructions, which no address space holds.
- The history of branches, block chaining, JIT and T2C code generation.
- Fused tables are sequences stored in the node; freeing removed nodes is not modelled.
- BlockMap.Map.Insert: requires an empty slot; without one the code does not stop. The same holds for looking up a missing address.
- Tile contents are opaque values; floating-point arithmetic of the matrix and vector units, packers and address counters are not modelled.
- SETDVALID, CLEARDVALID without reset, MOVD2A, MOVD2B, MOVB2A and pooling instructions change bank ownership without waiting; they are outside the ring theorem.
- Banks.RunRefines: is about runs in which no attempt overwrites an outstanding bank; `FollowsIffUnbroken` says that exactly these keep the rings.
- MopThread.CopThread.Execute: the expansion holds no MOP, no recording REPLAY, and no REPLAY inside a window; the configuration and the replay buffer do not change meanwhile.
- A REPLAY given directly, not through a MOP, starts over when it is retried; that path is not modelled.
- SfpuLane.RunsAsScalar: the computing instructions leave the flags alone (`Neutral`); SFPIADD with condition-code update and SFPMOV to all lanes are modelled but not covered by the theorem.
- SFPU instructions on floating-point values, SFPENCC, SFPSWAP, SFPTRANSP and loads and stores of lanes.
- STREAMWAIT conditions are always met, as in the code.
- Cache.BlockCache.Put: requires that a live key is not inserted again with its current value, which the code excludes by an assertion.
- Mpool.Create: an area that cannot hold a chunk is reported as `Overrun`; what the code then overwrites is not modelled.
- Intrusive list and hash-chain links of the cache are sequences of entries; byte contents of pool chunks are not modelled.
- MMIO routing, ELF loading, system calls, logging, the debugger stub and the command line.
