# The F9 microkernel and its configuration tool, modelled in Dafny

The project models the parts of F9 whose correctness takes an argument, and
proves what each of them promises. `dafny verify dfyconfig.toml` checks all of it.

**Kconfig expressions** (`KconfigExpr`, `KconfigEq`, `KconfigTransform`,
`KconfigJoin`, `KconfigDups`, `KconfigReflexive`, `KconfigEqExact`,
`KconfigContradict`). Dependency expressions are
three-valued, `n < m < y`. Every rewriter of `expr.c` is compared with
`expr_calc_value` on every typed valuation: a boolean symbol is never `m`, the
constants are fixed, a symbol that is neither boolean nor tristate has tristate
`n`. The duplicate pass walks one tree against itself and rewrites it while it
walks. A slot is a path to an operand, and each join is a step on the whole tree.
`KconfigDeps` is the dependency-cycle checker with its two flags and its stack.

**Flexible pages** (`Bits`, `FpageChain`, `FpageSpace`, `FpageAssign`, `Fpages`,
`Mpu`, `MpuPriority`, `MpuSetup`, `MpuFault`). An address space is a linked list of pages, each of a power
of two in size and aligned to it. Chains, splitting and filling holes are stated
on the sequence of pages and proved of the linked lists in place. The MPU has
eight regions behind a region number register (section B3.5 of the ARMv7-M
Architecture Reference Manual).

**Threads** (`ThreadTree`, `ThreadForest`, `Threads`). The thread table with its
sorted map and its first-child/next-sibling tree. A pointer to a control block is
a slot of the table, so aliasing through links is kept.

**Messages** (`Ipc`, `IpcRuns`, `IpcCalls`, `IpcWakes`, `IpcStray`, `IpcKernel`).
The rendezvous as a state machine: `Ipc` says what each kernel entry does,
`IpcCalls` what it means for sender and receiver, `IpcRuns` what every run keeps,
`IpcWakes` who wakes an inactive thread, `IpcStray` a run in which the wrong one
does, and `IpcKernel` is the code with its copy loops, proved equal to `Ipc`.

**Softirqs and slots** (`Softirq`, `SoftirqServe`, `Sched`). Raises are taken at
every point with interrupts enabled, between any two steps of the kernel thread,
and they nest.

**Library kernels** (`Memcpy`, `Sort`). The word-shifting memcpy and the heapsort.

## What turned out false

- `expr_eliminate_dups` does not keep three-valued values: with FOO = BAR = m it
  turns `(FOO || BAR) && (!FOO && !BAR)`, which is m, into n
  (`KconfigDups.EliminateDupsLosesMod`). A value that is not m is always kept, and
  the rule at fault is right exactly when its two sides are not both m.
- `expr_eq` does not equate all reorderings of one expression: with an operand that
  holds y or n itself it is not transitive, and its first match can be the wrong one
  (`KconfigEqExact.ReorderedDiffers`). Without such operands it decides equality up
  to order and grouping (`KconfigEqExact.ExprEqExact`, `KconfigEqExact.ExprEqOfOperands`).
- `expr_trans_compare` is wrong above a negated operand that is m, and for a
  symbol that is neither logical nor a constant when its string is "y" (against
  y) or is not "n" (against n). Both have an exact condition and an input
  (`KconfigDups.TransCompareNegatedMod`, `KconfigTransform.TransCompareUntypedSymbol`).
- `sym_check_deps` prints a cycle but returns NULL to the loop over all
  symbols, so the error count after parsing stays 0 (`KconfigDeps.DepChecker.CheckAll`).
- `assign_fpages_ext` with a start that is neither on a granule boundary nor
  mapped leaves the start unmapped and makes new pages on every call. It can even
  put a page over an existing one (`FpageAssign.AssignOverlaps`). Each has its exact condition.
- A space without an MPU list gets a new one from `as_setup_mpu`, which writes
  every link but that of the last page of the lowest priority. When that link is
  stale, the new list does not end. A call can leave this state:
  `MpuSetup.NextCall` says exactly when, for every space, list, stack and next
  program counter. `MpuSetup.SharedSpaceCycle` makes the cycle with two threads in
  a space of three pages.
- `mpu_select_lru` puts the page of a fault in front of the MPU list without taking
  it out. The list stays a list if and only if the page was not on it
  (`MpuFault.SelectLru`). After `as_setup_mpu` that fails for exactly the pages of
  the list behind the programmed ones (`MpuFault.FaultOnList`).
- `thread_destroy` takes the entry that a search for the victim's number finds out
  of the thread map. With a number that two threads share this can be the wrong one
  (`Threads.SharedNumber`); `Threads.ThreadTable.ThreadDestroy` has the exact
  condition. The one caller, in `kernel/syscall.c`, passes the thread that the same
  search finds, so there the map is always right (`Threads.ThreadTable.RemoveThread`).
- `thread_destroy` by a thread that is the victim or below it breaks the tree as
  soon as the victim has children (`ThreadForest.DestroyForestExact`).
- `ipc_deliver` can hand a message to a thread it was not sent to: the turn of a
  receiver looks at whom the receiver waits for only (`IpcCalls.CrossedDelivery`).
  `IpcCalls.SweepDelivers` has the condition under which nobody comes between a
  sender and a receiver that name each other.
- A sleeping thread can be woken by `ipc_deliver`: when a thread whose start
  message left it a null stack pointer meets its partner, the last caller is made
  runnable, whatever it was doing. `IpcStray.SleeperWokenInRun` is a run from a
  state in which everyone has a stack. It assumes that the saved stack pointer is
  still 0 when thread 21 makes its system call. The context switch saves the
  process stack pointer there, so its exception frame would have to lie at address 0.
- A softirq raised while its own handler runs, or before the flag is cleared, is
  lost, and no other (`Softirq.RaiseLostExactly`).

## Model

| member | source | states |
|---|---|---|
| `KconfigExpr.EliminateYnPreserves` | external/kconfig/expr.c:236-317 | removing y and n operands keeps the three-valued value under every typed valuation |
| `KconfigExpr.EliminateYnExact` | external/kconfig/expr.c:236-317 | no y or n operand is left outside negations; the expression shrinks exactly when there was one, and is unchanged otherwise |
| `KconfigExpr.EliminateYn` | external/kconfig/expr.c:236-317 | the result is never larger than the input, which is what the termination of the fixpoint rests on |
| `KconfigEq.CancelOperandsLaw` | external/kconfig/expr.c:135-167 | one common factor c is removed from both sides: old1 = c OP new1 and old2 = c OP new2 |
| `KconfigEq.EliminateEqLaw` | external/kconfig/expr.c:169-188 | the same factors, first for e1's connective and then for e2's, are removed from both expressions, for any two expressions |
| `KconfigEq.ExprEqSound` | external/kconfig/expr.c:194-234 | expressions that expr_eq equates have the same value under every valuation, whatever the order of their operands |
| `KconfigEqExact.ExprEqExact` | external/kconfig/expr.c:194-232 | for expressions without y and n operands: equal if and only if the same up to order and grouping of the operands of every connective, at every depth |
| `KconfigEqExact.ExprEqOfOperands` | external/kconfig/expr.c:194-232 | for connectives with such operands, y and n among them: equal if and only if both have the absorbing constant, or neither has and the other operands are the same |
| `KconfigEqExact.ReorderedEqual` | external/kconfig/expr.c:194-232 | so the operands may come in any order and grouping |
| `KconfigEqExact.ReorderedDiffers` | external/kconfig/expr.c:135-167 | two orders of the same three operands, holding n inside, that are found different |
| `KconfigEqExact.CancelExact` | external/kconfig/expr.c:135-167 | the walk leaves on each side exactly the operands the other does not have, as a multiset |
| `KconfigEq.ExtractOperandsLaw` | external/kconfig/expr.c:853-880 | the accumulated factor times each rest keeps both values at every step of the walk |
| `KconfigEq.ExtractEqLaw` | external/kconfig/expr.c:831-851 | the extracted expression is a common factor of both inputs |
| `KconfigReflexive.ExprEqReflexive` | external/kconfig/expr.c:194-234 | expr_eq answers true of every expression and itself, duplicates and constants included |
| `KconfigTransform.Transform` | external/kconfig/expr.c:641-776 | the weight never grows, the measure under which the nested re-transformation ends |
| `KconfigTransform.TransformNormal` | external/kconfig/expr.c:641-776 | the result is in negation-normal form: NOT only directly above a symbol that is not a constant |
| `KconfigTransform.TransformIdempotent` | external/kconfig/expr.c:641-776 | a second call changes nothing, and the fixed points are exactly the normal forms |
| `KconfigTransform.TransformPreserves` | external/kconfig/expr.c:641-776 | the three-valued value is kept |
| `KconfigTransform.TransCompareMeaning` | external/kconfig/expr.c:882-941 | what the comparison push-down computes for every expression and typed valuation: a symbol counts as the constant exactly when its string is the constant's name |
| `KconfigTransform.RightMeans` | external/kconfig/expr.c:882-941 | for every expression, comparison and typed valuation: the answer is right if and only if reading strings and reading tristates agree on whether the expression is the constant |
| `KconfigTransform.TransCompareCorrect` | external/kconfig/expr.c:882-941 | it is y exactly when the comparison with y or n holds, and n otherwise, if no negated operand is m and every operand symbol passes the condition of the symbol branch |
| `KconfigTransform.TransCompareNegationExact` | external/kconfig/expr.c:913-914 | for every operand: the negation is compared rightly if and only if (the operand is compared rightly if and only if it is not m) |
| `KconfigDups.TransCompareNegatedMod` | external/kconfig/expr.c:913-914 | with FOO at m, !FOO is m, yet its comparison with n says it is n |
| `KconfigTransform.TransCompareSymbolExact` | external/kconfig/expr.c:933-934 | right if and only if the symbol is logical or y, m, n, or its string is not "y" (against y) or is "n" (against n) |
| `KconfigTransform.TransCompareUntypedSymbol` | external/kconfig/expr.c:933-934 | a symbol without a type is n, yet its comparison with n says it is not |
| `KconfigJoin.JoinOrPreserves` | external/kconfig/expr.c:351-413 | each disjunction rule keeps the three-valued value of the pair |
| `KconfigJoin.JoinAndPreserves` | external/kconfig/expr.c:415-507 | each conjunction rule keeps the three-valued value of the pair |
| `KconfigJoin.JoinKeepsOperand` | external/kconfig/expr.c:351-507 | joining gives an operand again, never the connective whose operands are joined |
| `KconfigJoin.JoinsExactly` | external/kconfig/expr.c:351-507 | two operands are joined if and only if they are equal or one of the listed pairs of literals over one boolean or tristate symbol, and those become one symbol or comparison |
| `KconfigDups.Dups1` | external/kconfig/expr.c:509-559 | from any two slots the walk ends with an expression that is no larger, has the same root, and changed exactly if it counted a change |
| `KconfigDups.Dups1Preserves` | external/kconfig/expr.c:509-559 | the joining pass keeps the three-valued value, although it walks the tree it rewrites |
| `KconfigDups.SettledExact` | external/kconfig/expr.c:509-559 | the pass has nothing to do if and only if no two distinct operands can be joined, here or inside an operand |
| `KconfigDups.ContradictionBound` | external/kconfig/expr.c:579-605 | what the extracted common factor of !e1 and e2 says about the values of e1 and e2 |
| `KconfigDups.ContradictionRuleExact` | external/kconfig/expr.c:579-605 | the contradiction rule keeps the value if and only if the two sides are not both m |
| `KconfigDups.Dups2Refines` | external/kconfig/expr.c:561-615 | the second pass changes a value only where it was m |
| `KconfigDups.Round` | external/kconfig/expr.c:617-639 | a round that counts a change leaves a constant operand behind, a round that counts none changes nothing |
| `KconfigDups.EliminateDupsLoop` | external/kconfig/expr.c:617-639 | the loop ends and computes the fixpoint EliminateDups |
| `KconfigDups.EliminateDupsRefines` | external/kconfig/expr.c:617-639 | a value other than m is kept, for every expression and typed valuation |
| `KconfigDups.EliminateDupsTwoValued` | external/kconfig/expr.c:617-639 | the value is kept whenever no leaf is m |
| `KconfigDups.EliminateDupsComplete` | external/kconfig/expr.c:617-639 | a second call changes nothing, and no two operands of the result can be joined |
| `KconfigEqExact.EliminateDupsApart` | external/kconfig/expr.c:509-639 | in the result no two operands are equal up to order, none are s and !s, s=b and s=c, or another pair that a rule joins, and nested connectives are settled too |
| `KconfigContradict.ContradictsExactly` | external/kconfig/expr.c:579-612 | the rule of the second pass applies if and only if every operand of the transformed negation is an operand of the other side |
| `KconfigContradict.EliminateDupsNoContradiction` | external/kconfig/expr.c:561-639 | in the result it applies to no operand and no part of the connective |
| `KconfigDups.EliminateDupsLosesMod` | external/kconfig/expr.c:580-590 | an expression worth m that becomes n |
| `KconfigReflexive.EliminateDupsDistinct` | external/kconfig/expr.c:617-639 | no operand occurs twice in the result |
| `KconfigDeps.RankingMeansAcyclic` | external/kconfig/symbol.c:1142-1174 | a table in which every dependency lowers a rank has no cycle |
| `KconfigDeps.OnlySymbolsMatter` | external/kconfig/symbol.c:1040-1069 | the value of an expression depends on the symbols the checker visits in it only |
| `KconfigDeps.EntrySymbolsExactly` | external/kconfig/symbol.c:1071-1103 | a symbol depends on what selects it, and on conditions and default values of its properties other than choices and selects |
| `KconfigDeps.StackClosesCycle` | external/kconfig/symbol.c:1142-1174 | meeting a symbol that is on the current path closes a cycle through it |
| `KconfigDeps.DepChecker.CheckExpr` | external/kconfig/symbol.c:1040-1068 | flags and path are restored; without a report every symbol of the expression is checked and off the path |
| `KconfigDeps.DepChecker.CheckProps` | external/kconfig/symbol.c:1083-1097 | the same for all properties of a symbol, in a loop that stops at the first symbol found |
| `KconfigDeps.DepChecker.CheckDeps` | external/kconfig/symbol.c:1142-1174 | a symbol met again on its path is reported and handed up to its own call; without a report the symbol is checked |
| `KconfigDeps.DepChecker.CheckAll` | external/kconfig/zconf.y:524-527 | nothing is reported if and only if the dependency graph is acyclic, every reported symbol lies on a cycle, and the error count is 0 in either case |
| `Bits.FpAddrLog2` | kernel/fpage.c:39-47 | the shift loop counts trailing zeros, and gives 31 for 0 |
| `FpageChain.PickShiftFits` | kernel/fpage.c:147-177 | the shift picked for the next page fits the rest of the range and the alignment of its base |
| `FpageChain.PickShiftCoarse` | kernel/fpage.c:147-177 | it is no finer than any common alignment of base and size |
| `FpageChain.ChainTiles` | kernel/fpage.c:147-177 | the chain tiles the range exactly, with ascending pages aligned to their own size and no finer than the common alignment |
| `FpageChain.ChainLength` | kernel/fpage.c:147-177 | a range of fewer than 2^n bytes takes at most n + n(n+1)/2 pages |
| `Fpages.CreateFpageChain` | kernel/fpage.c:147-177 | the linked chain of fresh pages is that chain |
| `Fpages.InsertFpageChain` | kernel/fpage.c:61-86 | the chain is spliced in front of the first page above it; no other link changes |
| `FpageSpace.InsertIntoGap` | kernel/fpage.c:61-86 | a chain that fits a gap of the space lands in that gap |
| `Fpages.RemoveFromSpace` | kernel/fpage.c:20-34 | the list loses exactly the page, and is unchanged when the page is not on it; tells which, since the source follows a null pointer then |
| `Fpages.RemoveFpage` | kernel/fpage.c:100-111 | both lists lose exactly the page; tells whether it was on both |
| `FpageSpace.AlignUpLeast` | kernel/memory.c:96-109 | rounding gives the least multiple of the granule that is not below the address |
| `FpageSpace.AlignUpWraps` | kernel/memory.c:96-109 | rounding reaches the address if and only if it is not in the last granule of the 32-bit space, where it gives 0 |
| `FpageSpace.SplitKeeps` | kernel/fpage.c:179-215 | splitting keeps the space sorted, disjoint and aligned, and covers the same addresses |
| `FpageSpace.SplitBoundary` | kernel/fpage.c:179-215 | all other pages stay, and the split point is a page boundary |
| `FpageSpace.SplitByInsertion` | kernel/fpage.c:206-210 | inserting the two chains puts the pieces where the page was |
| `Fpages.SplitFpage` | kernel/fpage.c:179-215 | the in-place split: the same page when the rounded point is one of its ends, NULL when the page is shared, else the two chains and the page that ends or starts there; tells when the page taken out was on both lists |
| `Fpages.MempoolSearch` | kernel/memory.c:111-122 | the first pool that holds the range, or -1 exactly when there is none |
| `FpageAssign.AssignCovers` | kernel/fpage.c:218-302 | the space stays sorted, disjoint and aligned, and covers exactly the old addresses and the rounded range |
| `FpageAssign.AssignKeepsPages` | kernel/fpage.c:218-302 | every old page stays, in order, whatever the start |
| `FpageAssign.AssignIdempotent` | kernel/fpage.c:218-302 | a second identical call creates no page if and only if the start is on a granule boundary or already mapped |
| `FpageAssign.AssignExact` | kernel/fpage.c:218-302 | the coverage is exact if and only if the start is on a granule boundary or already mapped |
| `FpageAssign.AssignKeepsSpace` | kernel/fpage.c:218-302 | the space stays sorted, disjoint and aligned if and only if the start is on a granule boundary or mapped, or the fresh pages end at or below the next page |
| `FpageAssign.AssignOverlaps` | kernel/fpage.c:241-254 | a space and a range for which it does not |
| `FpageAssign.AssignMissesStart` | kernel/fpage.c:218-302 | otherwise the start stays unmapped |
| `Fpages.AssignInSpace` | kernel/fpage.c:237-290 | the walk over the linked list fills the holes as Assign says |
| `Fpages.AssignFpagesExt` | kernel/fpage.c:218-302 | with its error returns, and the bare chain when there is no address space |
| `Mpu.RegionWordsRoundTrip` | platform/stm32f4/mpu.c:13-31 | for shifts 5 to 31 the two words written for a page read back as exactly the addresses of the page |
| `Mpu.AttrWordBits` | platform/stm32f4/mpu.c:19-25 | the execute-never bit is clear if and only if user code may execute the pool, access is full, the rest is size and enable |
| `Mpu.MpuUnit.SetupRegion` | platform/stm32f4/mpu.c:13-31 | the base write selects the region, and only that region changes |
| `Mpu.MpuUnit.AddrInMpu` | platform/stm32f4/mpu.c:40-58 | true exactly when some enabled region holds the address |
| `Mpu.FindStackPages` | kernel/memory.c:186-203 | the walk finds the stack pages, at most eight |
| `Mpu.BuildMpuList` | kernel/memory.c:210-246 | for any links before: the page of the pc, the always-mapped pages, the others, each in address order, and behind them the stale link; a proper list if and only if that is null |
| `Mpu.MpuOrderComplete` | kernel/memory.c:210-246 | that list holds every page of the space once |
| `MpuPriority.MpuOrderRanks` | kernel/memory.c:210-246 | a page stands before another only if it holds the pc, or neither does and it is always mapped, or neither is either; pages alike keep the order of the space |
| `MpuPriority.MustMapProgrammed` | kernel/memory.c:209-259 | with a new list, the pages outside the stack that hold the pc or are always mapped all get a region when there are no more of them than free regions |
| `MpuPriority.FifoIsPrefix` | kernel/memory.c:248-259 | the other regions take a prefix of the pages of the list outside the stack, as long as there is room |
| `MpuPriority.StackPagesChain` | kernel/memory.c:186-200 | the first stack page holds the start of the stack, each further one the end of the page before, below the end of the stack |
| `Mpu.CollectFifo` | kernel/memory.c:248-259 | the first pages of the MPU list that are not stack pages follow the stack pages, up to eight |
| `Mpu.ProgrammedDistinct` | kernel/memory.c:174-285 | at most eight distinct pages are programmed, all from the two lists |
| `MpuSetup.ProgramRange` | kernel/memory.c:263-279 | regions and links of a run of pages; the last stack page ends its list, the last fifo page keeps its link |
| `MpuSetup.NewListOk` | kernel/memory.c:261-279 | the MPU list left behind has no cycle: the fifo pages, then the old list up to its first stack page, then the rest of the stack |
| `MpuSetup.AsSetupMpu` | kernel/memory.c:174-285 | the regions describe exactly the chosen pages, an address is in the MPU if and only if it is in one of them, both lists stay well-formed, with a new list the pages of the pc and the always-mapped pages are programmed if they fit, and, for every next program counter, the exact condition under which the next call finds no stale link |
| `MpuSetup.NextCall` | kernel/memory.c:209-285 | after any call the next one finds no stale link if and only if the list kept a page outside the stack, or the last page of the lowest priority is the last stack page, or lies outside the stack and had no link before |
| `MpuSetup.SharedSpaceCycle` | kernel/memory.c:174-285 | three pages, two calls for two threads and the next build end in a cycle of all three pages |
| `MpuSetup.StackPagesCover` | kernel/memory.c:186-200 | a stack mapped without holes that needs fewer than eight pages is wholly inside the pages found for it |
| `MpuSetup.SpaceIsProgrammable` | kernel/memory.c:174-285 | every page of a well-formed space fits one region |
| `MpuFault.PutInFront` | platform/stm32f4/mpu.c:75-76 | the list stays proper if and only if the page was not on it; otherwise the links lead back to the page |
| `MpuFault.CycleHasNoEnd` | platform/stm32f4/mpu.c:75-76 | no sequence that follows a cycle of links ends |
| `MpuFault.WriteFrom` | platform/stm32f4/mpu.c:85-91 | the regions behind the stack describe the list from the page on, until it ends or the regions do, even on a cycle; the others are kept |
| `MpuFault.SelectLru` | platform/stm32f4/mpu.c:60-99 | nothing changes exactly when there is no space, the address is in the MPU, or no page holds it; else the page is in front of the list, the address is in the MPU, the stack regions are kept, and the exact condition for a proper list |
| `MpuFault.SetupIsReady` | kernel/memory.c:261-285 | what as_setup_mpu leaves is what a fault needs |
| `MpuFault.FaultOnList` | platform/stm32f4/mpu.c:60-99 | after as_setup_mpu the page of a fault is on the list if and only if it is in the part behind the programmed pages |
| `ThreadTree.FirstRunnableExact` | kernel/thread.c:400-429 | the answer is runnable with nothing runnable before it, and NULL exactly when nothing in the list is runnable |
| `ThreadTree.DescendantsExact` | kernel/thread.c:400-429 | the preorder of a thread lists its proper descendants and nothing else |
| `ThreadTree.DescendantsDistinct` | kernel/thread.c:400-429 | and each of them once |
| `ThreadTree.NoneRunnableExact` | kernel/thread.c:400-429 | the answer is NULL exactly when no descendant is runnable |
| `Threads.ThreadTable.ThreadSelect` | kernel/thread.c:400-429 | the iterative walk ends and returns the first runnable descendant in preorder |
| `Threads.ThreadTable.Climb` | kernel/thread.c:421-427 | the climb reaches the nearest ancestor with a younger sibling, or shows that nothing is left |
| `Threads.ThreadTable.MapSearch` | kernel/thread.c:93-118 | the loop ends at the place the halving gives, which is where the number belongs, and shows whether it is there |
| `Threads.SearchBelongs` | kernel/thread.c:93-118 | the place where the search ends separates smaller from greater numbers, and holds the number if and only if some thread has it |
| `Threads.SearchFrame` | kernel/thread.c:93-118 | the search depends on the identifiers only |
| `Threads.ThreadTable.MapInsert` | kernel/thread.c:123-142 | the entries from there on move up by one |
| `Threads.ThreadTable.MapDelete` | kernel/thread.c:144-154 | the entries behind the one found move down by one |
| `Threads.InsertKeepsMap` | kernel/thread.c:123-142 | the map stays sorted and lists every thread once |
| `Threads.DeleteKeepsMap` | kernel/thread.c:144-154 | and so after a deletion |
| `Threads.ThreadTable.ByGlobalid` | kernel/thread.c:357-365 | the thread the search ends at, a live thread with this number, or NULL exactly when there is none; the entry looked at is a live one if and only if some live number is at least the one asked for |
| `Threads.ThreadTable.ThreadInit` | kernel/thread.c:159-188 | a new inactive thread without links, in the map; no effect when the table is full |
| `Threads.ThreadTable.ThreadCreate` | kernel/thread.c:197-233 | reserved identifiers are refused with no effect; otherwise the new thread is the caller's last child with the next local identifier, and all else is kept |
| `Threads.NextLocalidGrows` | kernel/thread.c:213-227 | along the children of one caller the local identifiers grow, so a new one is not in use while 32 bits last |
| `ThreadForest.AdoptForest` | kernel/thread.c:197-233 | the links are those of the new children lists, and stay a forest |
| `Threads.ThreadTable.ThreadDestroy` | kernel/thread.c:235-270 | exactly the victim is gone, its children come first among the caller's, every other parent link, identifier and state is kept; the exact condition for a forest, and for the map: if and only if the search for the victim's number finds the victim |
| `Threads.ThreadTable.ThreadDeinit` | kernel/thread.c:190-195 | the map loses the entry the search finds, the table loses the thread; they agree if and only if these are the same |
| `Threads.ThreadTable.RemoveThread` | kernel/syscall.c:64-68 | a removal by identifier always keeps the map, and keeps the whole invariant if and only if the thread has no children, or the caller is neither the thread nor below it |
| `Threads.UniqueIsFound` | kernel/thread.c:144-154 | a thread with a number of its own is the one found |
| `Threads.SharedNumber` | kernel/thread.c:144-154 | a map of three threads in which releasing one takes another out of the map |
| `ThreadForest.DestroyLinked` | kernel/thread.c:235-268 | the rewritten links are those of the new children lists |
| `ThreadForest.DestroyForestExact` | kernel/thread.c:235-268 | they are a forest if and only if the victim has no children or the caller is neither the victim nor below it |
| `ThreadForest.DestroyBreaksTree` | kernel/thread.c:252-267 | a forest in which a thread destroys its parent, and what is left is none |
| `IpcRuns.DoIpcCopies` | kernel/ipc.c:40-93 | a message that fits is copied exactly, MR0 to MR(untyped+typed), across registers and UTCB, and no other message register of any thread changes; one that does not fit changes none |
| `IpcRuns.DoIpcOverflow` | kernel/ipc.c:54-58 | an overlong message changes nothing but the two error codes |
| `IpcRuns.DoIpcCompletes` | kernel/ipc.c:95-119 | both sides of a completed rendezvous; all other threads are untouched |
| `IpcRuns.DoIpcStates` | kernel/ipc.c:40-123 | the state and awaited sender of every thread after do_ipc, in all its outcomes |
| `IpcCalls.CallToReceiver` | kernel/ipc.c:157-161 | a receiver that waits gets MR0 to MR(untyped + typed), runs and knows its sender; the caller runs on or waits for its answer; the typed words ask for their mappings; nobody else changes |
| `IpcCalls.CallToInactive` | kernel/ipc.c:162-187 | a message of its pager other than a start is copied into an inactive thread, which stays inactive |
| `IpcCalls.CallStarts` | kernel/ipc.c:162-181 | a start message sets program counter, stack and stack size from MR1 to MR3, and r0 and r1 of a user thread; both threads run |
| `IpcCalls.CallBlocks` | kernel/ipc.c:188-196 | a receiver that is not ready, or not there, leaves the caller send-blocked with the receiver recorded |
| `IpcCalls.CallReceives` | kernel/ipc.c:141-209 | a call without a receiver sleeps on a timer, waits for the named sender, or blocks |
| `IpcCalls.CallTooLong` | kernel/ipc.c:49-58 | a message that is too long leaves both sides as they are but for the error codes |
| `IpcCalls.CallToSelf` | kernel/ipc.c:157-161 | a message to itself: the caller runs on or waits, nobody else changes |
| `IpcCalls.CallToLog` | kernel/ipc.c:153-156 | a message to the log thread: only the caller changes, and runs on |
| `IpcCalls.RequestsExact` | kernel/ipc.c:68-93 | one mapping for each pair of typed words, up to the first that is no map item, with base, size and grant bit from the words |
| `IpcCalls.TurnOfReceiver` | kernel/ipc.c:221-228 | a turn of the sweep completes the exchange for a receiver whose partner is blocked sending, to whomever |
| `IpcCalls.TurnOfSender` | kernel/ipc.c:229-236 | and for a sender whose receiver is blocked receiving |
| `IpcCalls.SweepDelivers` | kernel/ipc.c:212-243 | a sweep that visits a sender or its receiver, when they name each other and nobody comes between, leaves the receiver with the message, running |
| `IpcCalls.CrossedDelivery` | kernel/ipc.c:221-228 | a message for thread 23 that thread 22 receives |
| `IpcRuns.SweepInv` | kernel/ipc.c:212-243 | after a sweep every receiver still names whom it waits for; while started threads have stacks, the same threads are inactive |
| `IpcRuns.SweepLeavesAlone` | kernel/ipc.c:212-243 | a sweep changes message registers of blocked threads only |
| `IpcRuns.SysIpcLeavesAlone` | kernel/ipc.c:134-210 | a system call changes message registers of the addressed thread only |
| `IpcRuns.ApplyInv` | kernel/ipc.c:125-243 | every step keeps the invariant of the machine |
| `IpcRuns.RunInv` | kernel/ipc.c:125-243 | in every state of every run, a thread blocked on receiving names whom it waits for |
| `IpcWakes.DeliverOneState` | kernel/ipc.c:218-240 | one turn of the sweep changes the state of a thread that is not blocked only by making the last caller runnable, when it meets a thread without a stack |
| `IpcWakes.SweepState` | kernel/ipc.c:212-243 | the same of the whole sweep, exactly |
| `IpcWakes.WakeExact` | kernel/ipc.c:125-243 | in every state of the invariant, an inactive thread becomes runnable in one step if and only if its pager sends the start message, its sleep timer fires, or it called last and the sweep meets a thread without a stack |
| `IpcWakes.RunWakesExact` | kernel/ipc.c:125-243 | and so in every run, whatever stacks its start messages hand out |
| `IpcWakes.RunWakes` | kernel/ipc.c:125-243 | without a null stack handed out, only the start message and the own timer wake a thread |
| `IpcWakes.TimerIsOwn` | kernel/ipc.c:141-148 | a sleep timer is armed only by the thread it will wake, which goes inactive |
| `IpcStray.SleeperWokenInRun` | kernel/ipc.c:95-98 | a run of ten steps, from a state in which every thread has a stack, in which the sweep wakes a sleeper |
| `IpcKernel.Kernel.Exchange` | kernel/ipc.c:40-123 | do_ipc with its copy loops computes DoIpc |
| `IpcKernel.Kernel.CopyTyped` | kernel/ipc.c:67-93 | the word-by-word reader of typed items asks for the mappings of the item pairs, and stops at the first other item |
| `IpcKernel.Kernel.StartThread` | kernel/ipc.c:164-181 | the start protocol: stack, frame and state of the started thread |
| `IpcKernel.Kernel.SystemCall` | kernel/ipc.c:134-210 | sys_ipc computes SysIpc |
| `IpcKernel.Kernel.Deliver` | kernel/ipc.c:212-243 | the loop over the thread map computes the sweep |
| `IpcKernel.Kernel.TimerFires` | kernel/ipc.c:125-132 | the thread of the timer is runnable and in the normal slot, and its timer is used up |
| `IpcKernel.Kernel.SvcHandler` | kernel/syscall.c:19-31 | the caller blocks and its call is pending |
| `Softirq.StepInv` | kernel/softirq.c:21-70 | each raise and each step of the kernel thread keeps: outside the two writes of a raise, a pending softirq has a runnable kernel thread |
| `Softirq.RunInv` | kernel/softirq.c:21-70 | and so in every state of every interleaved run |
| `Softirq.CpuRunInv` | kernel/systhread.c:40-59 | in every such run the first slot holds the kernel thread and the last one the idle thread |
| `Softirq.PendingMeansKernelRuns` | kernel/sched.c:32-61 | in every run of raises, kernel steps, dispatches and selections, schedule_select returns the kernel thread whenever a softirq is pending outside the two writes of a raise |
| `Softirq.SelectNeverPanics` | kernel/sched.c:32-61 | in every such run schedule_select finds a thread: the panic behind the loop is not reached |
| `Softirq.RaiseServed` | kernel/softirq.c:41-53 | a raise made outside the window from the handler's start to the clear is pending until the handler starts again |
| `Softirq.WindowKept` | kernel/softirq.c:43-48 | a state in the window stays in it until the kernel step that clears the flag |
| `Softirq.RaiseLostExactly` | kernel/softirq.c:41-53 | in every run, the next thing that happens to a raise is the start of its handler if and only if it was made outside the window; one made in the window is cleared first |
| `Softirq.LostInWindow` | kernel/softirq.c:43-48 | such a run exists from every state in the window: the kernel thread goes on and the raise is gone |
| `Softirq.UnhandledSpins` | kernel/softirq.c:41-67 | with a pending softirq that has no handler, softirq_execute never returns |
| `SoftirqServe.StartEnters` | kernel/softirq.c:43-45 | the step that starts a handler enters it |
| `SoftirqServe.ClearedMeansHandled` | kernel/softirq.c:43-48 | in every run, a flag that was set outside the window and is clear later has had its handler entered in between |
| `SoftirqServe.StartedSoon` | kernel/softirq.c:36-70 | in every run, however raises fall in between, a pending softirq with a handler is started within 4n + 3 steps of the kernel thread, for n flags |
| `SoftirqServe.ExecuteServes` | kernel/softirq.c:36-70 | without interrupts exactly the handlers of the pending softirqs are entered, all flags end clear, and the kernel thread sleeps |
| `SoftirqServe.ExecuteReturnsExactly` | kernel/softirq.c:36-70 | without interrupts it returns if and only if every pending softirq has a handler |
| `Softirq.Unit.Execute` | kernel/softirq.c:36-70 | without interrupts it serves every flag, reports whether there was one, and puts the kernel thread to sleep |
| `Sched.Scheduler.Select` | kernel/sched.c:32-61 | the loop computes the selection, keeps the kernel thread in its slot, and returns it when it is runnable |
| `Sched.SelectFirst` | kernel/sched.c:32-61 | the first slot that offers a thread wins, its own runnable thread before its handler's, and only that slot changes; NULL exactly when none offers one |
| `Sched.SelectBySlot` | kernel/sched.c:38-55 | behind slots that offer nothing, a slot passes on its own runnable thread, else what its handler finds, which it remembers |
| `Sched.SelectKeepsKernel` | kernel/sched.c:32-61 | a selection leaves the kernel thread in the first slot, and takes it when it is runnable |
| `Sched.SelectKeepsIdle` | kernel/sched.c:32-61 | with the idle thread runnable in the last slot every selection finds a thread and leaves it there |
| `Sched.Scheduler.Dispatch` | kernel/sched.c:75-78 | one slot is set, and the kernel thread keeps its own |
| `Memcpy.Copy` | kernel/lib/memcpy.c:10-158 | for every n and alignment of disjoint buffers, exactly the n destination bytes change, into those of the source |
| `Memcpy.AlignedPath` | kernel/lib/memcpy.c:31-57 | the word loop and its bit-tested tails copy the rest |
| `Memcpy.ShiftedPath` | kernel/lib/memcpy.c:59-109 | the three shift-and-merge loops copy all but fewer than 32 bytes, with aligned loads inside the source |
| `Memcpy.Tail` | kernel/lib/memcpy.c:110-151 | the bit-tested byte tails copy exactly what is left |
| `Memcpy.MergedWord` | kernel/lib/memcpy.c:67-76 | the merge of two neighbouring words is the word in between |
| `Memcpy.MergeValue` | kernel/lib/memcpy.c:67-76 | it is the 32-bit arithmetic of the shifts |
| `Sort.HeapSort` | kernel/lib/sort.c:53-90 | ordered, and a permutation of the input, for every length and every total preorder |
| `Sort.SiftDown` | kernel/lib/sort.c:66-74 | the heap order below one place is repaired, within the first n elements |
| `Sort.SwapDown` | kernel/lib/sort.c:66-74 | one step down keeps the heap order everywhere but below the new place |
| `Sort.BuildHeap` | kernel/lib/sort.c:65-75 | the first phase makes a heap of the whole array |
| `Sort.ExtractRoot` | kernel/lib/sort.c:78-79 | moving the root behind the heap extends the sorted part |
| `Sort.MoveRoot` | kernel/lib/sort.c:78-89 | one turn of the second phase |

## Left out

- Kconfig rewriters are functions on expressions; freeing and reuse of nodes and the static change counter of `expr_eliminate_eq` are not modelled.
- E_LIST, E_RANGE, choice groups and `sym_check_choice_deps`: much state for little depth.
- KconfigTransform.TransCompareCorrect: only y and n as the constant; the two callers, in menu.c, pass n.
- Fpages.RemoveFromSpace: models the documented behaviour, "does nothing" for a page that is not on the list. The source reads through a null pointer when the list is empty and writes through one when the page is not on it; its result `found` tells when the source does what the contract says. The loop flag, which the source does not initialise, is taken as 0.
- Fpages.RemoveFpage: the same for both lists.
- Fpages.AssignFpagesExt: the first and last page returned for an address space are not specified; ranges end below the last two granules of the 32-bit space, and the pool must make pages.
- Fpages.SplitFpage: the rounded split point lies in the page or at one of its ends, and the pool must make pages. A page that is not on the MPU list is taken out as for `RemoveFpage`, and `found` tells.
- MpuSetup.AsSetupMpu: fewer than eight stack pages, because the source reads behind its array otherwise; a space without an MPU list has no stale link for this program counter, and an existing list ends. `BuildMpuList`, `NextCall` and `MpuFault.SelectLru` give the exact conditions.
- MpuFault.SelectLru: the stack pages are programmed and linked and leave a region free, as as_setup_mpu leaves them, and the list ends; a second fault after one that made a cycle is not modelled.
- Threads.ThreadTable.ByGlobalid: for a number above all live ones the source looks at the entry behind the used part of the map, which may be a freed thread; the model answers NULL there and tells the case apart.
- Threads.ThreadTable.ThreadCreate: when the table is full and the identifier is accepted, the source follows a NULL pointer.
- Threads.ThreadTable.ThreadDestroy: the victim has a parent; the root threads are not destroyed.
- Threads.ThreadTable.RemoveThread: some thread has the identifier, because the source follows a NULL pointer otherwise; the release of its address space is not modelled.
- IpcKernel.Kernel.Deliver: a partner that does not exist is skipped, where the source follows a NULL pointer; every thread has a UTCB; stacks of different threads do not overlap.
- IpcKernel.Kernel.CopyTyped: the mappings asked for are recorded, `map_area` itself is not modelled.
- IpcKernel.Kernel.SystemCall: whether the timer event could be created is a parameter; the length of the sleep and the output of the log thread are not modelled.
- Softirq.Unit.Execute: every pending softirq has a handler, and handlers raise nothing; the interleaved machine has neither restriction.
- Softirq: that the kernel thread is given its steps; how many it needs is bounded.
- Sched.Scheduler.Select: the answers of the slot handlers are parameters.
- Memcpy.Copy: addresses do not wrap around.
- Sort.HeapSort: elements are compared and swapped whole; the swap by bytes or longs and offsets beyond the range of int are not modelled.
- `map_area`, `map_fpage` and `unmap_fpage`: mapping between spaces as a whole; its contiguity probe and its flag bookkeeping do not meet a simple statement.
- `ktimer`: deadlines are not kept by the delta queue as written.
- `queue.c`, `ksym.c`, `bsearch.c`: easy members or claims that need an outside assumption.
- Context switch, NVIC, drivers, bitmaps, the debugger, the loader and the user programs: hardware and plumbing.
