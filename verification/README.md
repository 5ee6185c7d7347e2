# XtratuM and PaRTiKle, verified models

XtratuM is a small real-time hypervisor for i386, and PaRTiKle a POSIX kernel for its domains that is
configured with a kconfig tool. This project models the algorithmic parts of both in Dafny, for the
32-bit target, and proves what every run keeps.

- `Basics`, `BitWord`: 32-bit words as naturals, bit scans and the tables behind them.
- `TlsfMapping`, `TlsfIndex`, `TlsfBlocks`, `Tlsf`: the TLSF allocator. Size classes are exact. The
  pool is a flat memory in which headers, links and bitmaps are written in place; the invariant says
  that blocks tile the pool, no two neighbours are free, every boundary tag describes its
  neighbour, every free block is in the one list of its size, both bitmap levels agree with the lists,
  and usage is accounted.
- `KconfigExpr`, `KconfigTransform`, `KconfigDups`, `KconfigDupsProofs`, `KconfigMenu`: the expression
  rewriter over three-valued logic, and how the menus use it. What loses the value m is proved to keep
  every other value, and shown by a concrete expression to lose m.
- `KconfigEqual`, `KconfigAlike`, `KconfigReduced`: the other direction. Which expressions are found equal
  to themselves and to each other, which common parts are eliminated, by which rules two tests become one,
  and what the result of eliminating duplicates is free of.
- `KconfigDeps`: the check for recursive dependencies, with the flags it sets on symbols.
- `PriorityQueue`, `ReadyQueue`, `ReadyRun`: PaRTiKle's ready queue as a refinement of a plain stable
  priority queue, over single operations and over runs.
- `TimerHeap`, `TimerHandler`: the heap of virtual timers and the timer interrupt.
- `EventScan`, `DomainSched`: the domain list, event propagation, the scheduler and the system calls
  that are scheduling steps.
- `TraceRing`: the event tracer, with writer and reader interleaved step by step.
- `RtFifo`: the byte ring of the real-time FIFO.
- `PageTables`: two-level page tables (section 4.3 of the Intel SDM, volume 3A).
- `NumberText`: number parsing (section 7.20.1.4 of ISO/IEC 9899:1999) against number printing.

State that the program changes in place is a class with the same fields; its methods are proved against a
functional description of the state, about which the lemmas speak.

Results that are not simply as hoped, with their exact conditions:

- Initialising a TLSF pool writes its sentinel outside the pool exactly for sizes that leave 4 or more on
  division by 8 (`Tlsf.SentinelFits`).
- Removing an arbitrary element from the timer heap keeps heap order exactly if the last element is not
  earlier than the parent of the hole (`TimerHeap.Heap.RemoveElement`). Arming a timer again then keeps
  order exactly if it did or the new time mends it on its way up (`TimerHeap.Heap.Insert`); a heap in
  which it loses order is built in `TimerHeap.RearmLoses`.
- `expr_eliminate_dups` preserves every value other than m (`KconfigDupsProofs.EliminateDupsValue`), and m as well
  unless its second pass decides a chain (`KconfigDupsProofs.EliminateDupsUndecided`). Deciding a chain keeps
  its value exactly if that is not m (`KconfigDupsProofs.FiresExact`); it can turn m into n
  (`KconfigDupsProofs.ModLost`).
- `expr_eq` finds an expression equal to itself exactly if it has few constants (`KconfigEqual.EqReflexive`).
  Without constants it is equality up to order and grouping of operands (`KconfigAlike.EqExactly`). Between two
  equal expressions that are no chains nothing is eliminated (`KconfigAlike.EliminateSame`), so an entry whose
  test is the same single comparison as its parent's is not nested by it (`KconfigMenu.NestingEqual`).
- An entry nested by the elimination test can be visible below an invisible parent
  (`KconfigMenu.NestedBelowInvisible`), but only through a negated operand of value m
  (`KconfigMenu.NestingSound`).
- A request for a free page range gets the pages it asks for exactly if their end does not wrap around 2^32
  (`PageTables.Space.AllocFreeUserRange`), which holds of all requests exactly for sizes up to 2^30
  (`PageTables.WrappingSizes`); otherwise it succeeds with nothing mapped (`PageTables.WrappingRequest`).
- The search for a free range skips a page after every mapped one, and never answers a range that takes in the
  last user page. Where it ends is told by the pages mapped (`PageTables.AnswerExactly`); a free range is
  missed exactly if the first page at which it can end is mapped (`PageTables.FreeRangeAnswered`), which
  for a single page means that the page asked for and the next are mapped (`PageTables.OnePageMissed`).
- The heap's capacity test lets an element in that is written behind the array, exactly if 99 are in the heap
  and it is none of them (`TimerHeap.Heap.CapacityTest`).

## Model

| member | source | states |
|---|---|---|
| BitWord.Ffs | partikle/core/include/bitop.h:51-83 | the portable bit scan returns the least position set, and -1 for the empty word |
| BitWord.Fls | partikle/core/include/bitop.h:93-120 | the scan from the top returns the greatest position set, and -1 for the empty word |
| BitWord.MsBitByTable | xtratum/kernel/tlsf.c:146-175 | the table-driven `ms_bit` is the floor of the binary logarithm on every 32-bit word |
| BitWord.LsBitByTable | xtratum/kernel/tlsf.c:157-165 | the table-driven `ls_bit` of `x & -x` is the least position set of every non-zero word |
| BitWord.SetBitTest | partikle/core/include/bitmap.h:58-60 | `setbit` adds exactly the position it names |
| BitWord.ClearBitTest | partikle/core/include/bitmap.h:66-68 | `clearbit` removes exactly the position it names |
| TlsfMapping.SearchExact | xtratum/kernel/tlsf.c:189-219 | for any request and any block size, the block is at least the rounded request exactly if its class is at or behind the class searched for, and the rounded request maps back to that class |
| TlsfMapping.ClassMonotone | xtratum/kernel/tlsf.c:209-219 | larger sizes never map to earlier classes |
| TlsfMapping.ClassInMatrix | xtratum/kernel/tlsf.c:209-219 | every size below 2^30 maps inside the 24 x 32 matrix |
| TlsfBlocks.Predecessor | xtratum/kernel/tlsf.c:469-479 | in a tiled pool a set PREV_FREE bit and `prev_hdr` name the free block that ends where this one starts |
| TlsfBlocks.Covered | xtratum/kernel/tlsf.c:284-336 | every address between the first block and the sentinel lies in exactly one block |
| TlsfBlocks.LiveDetermines | xtratum/kernel/tlsf.c:458-489 | in a tiled pool the live buffers determine all blocks: two layouts with the same live buffers have the same free blocks, so what is free is always joined |
| Tlsf.Pool.constructor | xtratum/kernel/tlsf.c:319-334 | the first free block, its list entry and the sentinel of a fresh pool establish the invariant |
| Tlsf.Pool.FindSuitable | xtratum/kernel/tlsf.c:222-239 | the search of the two bitmap levels finds a block of the class searched for or a later one, and fails only if there is none |
| Tlsf.Pool.InsertBlock | xtratum/kernel/tlsf.c:271-278 | a free block comes first in the list of its class, no other list changes, and both bitmap levels follow |
| Tlsf.Pool.ExtractBlock | xtratum/kernel/tlsf.c:255-269 | a free block is unlinked from anywhere in its list, and both bitmap levels follow |
| Tlsf.Pool.ExtractHead | xtratum/kernel/tlsf.c:242-252 | the first block of a list is unlinked, no other list changes, and both bitmap levels follow |
| Tlsf.Pool.Malloc | xtratum/kernel/tlsf.c:417-455 | `malloc_ex` keeps the invariant and returns NULL exactly if no free block is as large as the rounded request; otherwise it takes the head of the first non-empty list from the class of the request on, cuts it to the rounded request if 16 bytes or more would be left over and takes it whole if not, accounts it, and changes no byte of another live buffer |
| Tlsf.RoundedExact | xtratum/kernel/tlsf.c:424-426 | a request is rounded to the next multiple of 8 but at least 8, and from 128 on to a class, by less than a 32nd |
| Tlsf.Pool.Free | xtratum/kernel/tlsf.c:458-489 | `free_ex` keeps the invariant (tiling, no two free neighbours, index, usage), removes exactly the one live buffer and its size from the usage, and changes no byte of the others |
| Tlsf.Pool.Realloc | xtratum/kernel/tlsf.c:492-575 | on every path `realloc_ex` keeps the invariant, the first min(old, new) bytes of the buffer and all bytes of every other live buffer; it moves the buffer exactly if neither its block nor its block with a free successor is large enough; in place the new size is exactly the one asked for if 16 bytes or more are over, which become a free block, and all there is otherwise |
| Tlsf.Pool.ReallocSmaller | xtratum/kernel/tlsf.c:512-531 | shrinking in place: of the block and a free successor together, exactly the size asked for is kept, and the rest becomes one free block that ends where they ended, unless it is less than 16 bytes |
| Tlsf.Pool.ReallocLarger | xtratum/kernel/tlsf.c:532-558 | growing in place into the free successor, with the same exact sizes |
| Tlsf.LiveBuffers | xtratum/kernel/tlsf.c:417-455 | in every valid state live buffers are disjoint, inside the pool, and positive multiples of 8 long |
| Tlsf.SentinelFits | xtratum/kernel/tlsf.c:315-333 | the sentinel that initialisation writes lies inside the pool exactly if the pool size leaves less than 4 on division by 8 |
| Tlsf.SentinelOutside | xtratum/kernel/tlsf.c:315-333 | for a pool of 3316 bytes the sentinel lies outside |
| Tlsf.InitMemoryPool | xtratum/kernel/tlsf.c:284-336 | which pools are refused, the two blocks of a fresh pool with their sizes, and that its sentinel ends inside the pool exactly if the size leaves less than 4 on division by 8 |
| KconfigExpr.AllModConsistent | partikle/scripts/kconfig/symbol.c:193-209 | what the kconfig results ask of a valuation can be met, with every tristate symbol m |
| KconfigExpr.YnValue | partikle/scripts/kconfig/expr.c:235-316 | constant folding preserves the value in every valuation |
| KconfigDupsProofs.YnCount | partikle/scripts/kconfig/expr.c:235-316 | the folded expression is y, n, or free of both as operands |
| KconfigExpr.EqSound | partikle/scripts/kconfig/expr.c:193-233 | expressions that `expr_eq` finds equal have equal values in every tristate valuation |
| KconfigExpr.EliminateInFactor | partikle/scripts/kconfig/expr.c:135-166 | elimination removes a common factor: both old expressions are it joined to the new ones |
| KconfigExpr.EliminateEq | partikle/scripts/kconfig/expr.c:168-188 | the rounds of elimination never enlarge either expression, on which the mutual recursion with `expr_eq` ends |
| KconfigExpr.EliminateEqImplies | partikle/scripts/kconfig/menu.c:269-278 | if elimination leaves 'y' of the second expression, the first is at most the second in every valuation, whatever their root operators |
| KconfigEqual.EqReflexive | partikle/scripts/kconfig/expr.c:193-233 | `expr_eq` finds an expression equal to itself if every chain in it, at any depth, has the constant that decides it or at most one constant besides m and the unit; without y and n as operands, only then |
| KconfigEqual.EveryTree | partikle/scripts/kconfig/expr.c:135-166 | elimination on two trees compares every operand of one chain with all operands of the other, in order, and leaves the shapes of the chains |
| KconfigEqual.YnChain | partikle/scripts/kconfig/expr.c:235-316 | folding a chain whose operands have nothing to fold leaves its operands but the units, in order, or the unit if there are no others |
| KconfigEqual.CommonRemoved | partikle/scripts/kconfig/expr.c:168-188 | what stands joined to anything is eliminated from the other side, if none of its operands is a constant other than m and they have few constants below |
| KconfigEqual.CommonStays | partikle/scripts/kconfig/expr.c:168-188 | without y and n as operands it is eliminated only then |
| KconfigAlike.EqEquivalence | partikle/scripts/kconfig/expr.c:193-233 | on expressions without constants other than m as operands `expr_eq` is an equivalence relation |
| KconfigAlike.EqExactly | partikle/scripts/kconfig/expr.c:193-233 | what it finds equal there: the same symbol or comparison, negations of equals, and chains of the same operator in which every expression has as many equal operands in one as in the other |
| KconfigAlike.EqReordered | partikle/scripts/kconfig/expr.c:193-233 | order and grouping of operands make no difference |
| KconfigAlike.EqCongruence | partikle/scripts/kconfig/expr.c:193-233 | equals may be put for equals |
| KconfigAlike.CommonAlways | partikle/scripts/kconfig/expr.c:168-188 | a part without constants other than m is always eliminated from what it is joined to: y is left under and, n under or |
| KconfigAlike.EliminateSame | partikle/scripts/kconfig/expr.c:168-188 | two equal chains leave nothing of each other, and two equal expressions that are no chains are left as they are |
| KconfigTransform.TransformValue | partikle/scripts/kconfig/expr.c:640-775 | `expr_transform` preserves the value in every valuation; its recursion ends because distributing a negation lowers a weight |
| KconfigTransform.TransformNormal | partikle/scripts/kconfig/expr.c:640-775 | results have negations directly above symbols other than y, m and n, and no comparison of a boolean symbol with one of these |
| KconfigTransform.TransformIdempotent | partikle/scripts/kconfig/expr.c:640-775 | a second transformation changes nothing, and the first changes exactly what is not in that form |
| KconfigTransform.TransformPushed | partikle/scripts/kconfig/expr.c:640-775 | working bottom up and over again, `expr_transform` computes what pushing all negations down in one go gives |
| KconfigTransform.TransBoolVisible | partikle/scripts/kconfig/expr.c:321-345 | where negations stand on symbols, `expr_trans_bool` keeps "not n", so visibility after promoting m to y is unchanged |
| KconfigTransform.TransBoolNegated | partikle/scripts/kconfig/expr.c:321-345 | below a general negation `expr_trans_bool` does not keep "not n": a concrete expression in a concrete valuation |
| KconfigTransform.TransBoolDone | partikle/scripts/kconfig/expr.c:321-345 | `expr_trans_bool` leaves no comparison of a tristate symbol with n and changes an expression exactly if it has one; FOO != n becomes FOO |
| KconfigTransform.TransCompareValue | partikle/scripts/kconfig/expr.c:881-940 | for every expression and valuation, comparing with y or n yields y or n: symbols are compared as strings, and a negation answers the opposite |
| KconfigTransform.TransCompareExact | partikle/scripts/kconfig/expr.c:881-940 | where symbols print as their value and nothing negated is m, that is the truth of the comparison |
| KconfigTransform.TransCompareInexact | partikle/scripts/kconfig/expr.c:881-940 | with a negated operand of value m it need not be: a concrete expression |
| KconfigDups.JoinTestsValue | partikle/scripts/kconfig/expr.c:350-506 | an expression that replaces two operands has their joined value in every valuation |
| KconfigReduced.JoinsUnderOr | partikle/scripts/kconfig/expr.c:350-410 | under or, two of the three tests of a tristate symbol become the test that it is not the third value, a boolean symbol and its negation become y, and an expression joined to itself stays |
| KconfigReduced.JoinsUnderAnd | partikle/scripts/kconfig/expr.c:412-506 | under and, a symbol and a test of it become the sharper of the two, two tests against different values become the test for the third, a test for one constant and one against another become the first or n, and an expression joined to itself stays |
| KconfigReduced.JoinsOnly | partikle/scripts/kconfig/expr.c:350-506 | no other operands are replaced by one |
| KconfigDups.Dups1Value | partikle/scripts/kconfig/expr.c:508-558 | the first pass preserves the value in every valuation |
| KconfigDups.ExtractFactor | partikle/scripts/kconfig/expr.c:830-879 | extraction splits both expressions into a common part and rests: each old one is the common part joined to its rest |
| KconfigDupsProofs.Dups2Value | partikle/scripts/kconfig/expr.c:560-614 | in every valuation the second pass preserves every value other than m |
| KconfigDupsProofs.FiresExact | partikle/scripts/kconfig/expr.c:560-614 | where the second pass decides a chain, its value is kept exactly if that is not m |
| KconfigReduced.DecidesExactly | partikle/scripts/kconfig/expr.c:560-614 | without constants other than m, extraction leaves nothing of the negated operand, which decides the chain, exactly if every expression occurs among the operands of the negation at most as often as among those of the chain |
| KconfigDupsProofs.ModLost | partikle/scripts/kconfig/expr.c:560-614 | with FOO and BAR both m, the second pass turns (FOO or BAR) and (not FOO and not BAR) from m to n |
| KconfigDupsProofs.ModLostAltogether | partikle/scripts/kconfig/expr.c:616-638 | so does `expr_eliminate_dups` as a whole |
| KconfigDupsProofs.PassCount | partikle/scripts/kconfig/expr.c:616-638 | a round that counts a transformation leaves a smaller expression once constants are folded |
| KconfigDupsProofs.EliminateDupsLoop | partikle/scripts/kconfig/expr.c:616-638 | the loop of `expr_eliminate_dups` ends, with the result of the recursive definition |
| KconfigDupsProofs.EliminateDupsValue | partikle/scripts/kconfig/expr.c:616-638 | in every valuation `expr_eliminate_dups` preserves every value other than m |
| KconfigDupsProofs.EliminateDupsUndecided | partikle/scripts/kconfig/expr.c:616-638 | if no round of the second pass counts a transformation, every value is preserved, m included |
| KconfigDupsProofs.EliminateDupsNoMod | partikle/scripts/kconfig/expr.c:616-638 | where no symbol is m, every value is preserved |
| KconfigDupsProofs.EliminateDupsStable | partikle/scripts/kconfig/expr.c:616-638 | the result is a fixed point |
| KconfigReduced.NothingRedundant | partikle/scripts/kconfig/expr.c:616-638 | in the result no two operands of a chain are equal by `expr_eq`, no two tests in a chain can be joined, and no operand is decided by its chain, at any depth of ands and ors |
| KconfigReduced.SymbolTwice | partikle/scripts/kconfig/expr.c:616-638 | FOO joined to FOO becomes FOO, under and as under or |
| KconfigDupsProofs.EliminateDupsAll | partikle/scripts/kconfig/expr.c:616-638 | what holds of comparisons and of y and n and of all operands before holds of all operands afterwards |
| KconfigMenu.BuildDepValue | partikle/scripts/kconfig/menu.c:231-235 | the condition built for an entry has the value of the conjunction of its parts unless that is m, and keeps negations on symbols |
| KconfigMenu.BuildDepReduced | partikle/scripts/kconfig/menu.c:231-248 | the condition built is reduced, absent only if both parts are, and for a prompt of a symbol that is not tristate free of comparisons of tristate symbols with n |
| KconfigMenu.PromptVisible | partikle/scripts/kconfig/menu.c:243-248 | unless the conjunction of the conditions is m, the condition stored for a prompt decides visibility as the conjunction does; it keeps negations on symbols, as the next level needs |
| KconfigMenu.PromptLost | partikle/scripts/kconfig/menu.c:243-248 | if it is m, the prompt can be lost: a concrete condition |
| KconfigMenu.NestingSound | partikle/scripts/kconfig/menu.c:269-278 | for conditions as they are stored, an entry nested by the elimination test whose condition is not n when negated operands of value m are read as n is visible only if its parent is; so it is visible below an invisible parent only through such an operand |
| KconfigMenu.ShownReduced | partikle/scripts/kconfig/menu.c:259-270 | the condition prepared for the nesting test is reduced |
| KconfigMenu.NestingAnswers | partikle/scripts/kconfig/menu.c:269-278 | for any conditions, if the test nests a child, then wherever its condition is answered to differ from n, so is the parent's |
| KconfigMenu.NestingFound | partikle/scripts/kconfig/menu.c:269-278 | a child whose prepared test joins something to that of the parent is nested, if the latter has no constants other than m as operands |
| KconfigMenu.NestingEqual | partikle/scripts/kconfig/menu.c:269-278 | of two entries with equal prepared tests the one is nested under the other exactly if the test is a conjunction |
| KconfigMenu.NestedBelowInvisible | partikle/scripts/kconfig/menu.c:269-278 | a child and a parent, in normal form, and a valuation in which the child is nested and visible and the parent is not |
| KconfigMenu.DependsSound | partikle/scripts/kconfig/expr.c:801-828 | an entry nested because it depends on a symbol is visible only if the symbol is set |
| KconfigMenu.DependsExactly | partikle/scripts/kconfig/expr.c:801-828 | an expression depends on a symbol exactly if the symbol, or a test that it is y, is m or is not n, is among the operands of its conjunction |
| KconfigDeps.CheckDependencies | partikle/scripts/kconfig/zconf.tab.c:1962-1964 | a recursive dependency is reported exactly if the dependency graph has a cycle, and every line printed is a cycle read backwards |
| KconfigDeps.DepsExactly | partikle/scripts/kconfig/symbol.c:790-829 | what a symbol depends on: the symbols of its reverse dependency, of the conditions of its properties but choices and selects, and, unless it is a choice, of its defaults |
| KconfigDeps.MentionedExactly | partikle/scripts/kconfig/symbol.c:760-788 | the symbols of an expression are those whose renaming changes it, and its value depends on no others |
| KconfigDeps.Checker.CheckSym | partikle/scripts/kconfig/symbol.c:790-829 | one call keeps the CHECK flags and the invariant, and if nothing was printed has put the symbol and all it leads to in dependency order |
| KconfigDeps.Checker.CheckExpr | partikle/scripts/kconfig/symbol.c:760-788 | one call keeps the flags and the invariant, and if nothing was printed has put every symbol of the expression in dependency order |
| KconfigDeps.Checker.CheckAll | partikle/scripts/kconfig/zconf.tab.c:1962-1964 | for any choice of roots, something is reported exactly if a cycle can be reached from one |
| KconfigDeps.OrderedAcyclic | partikle/scripts/kconfig/symbol.c:790-829 | symbols in dependency order lead to no cycle |
| KconfigDeps.RootedCycles | partikle/scripts/kconfig/symbol.c:790-829 | where every symbol with dependencies is a root, cycles and paths into cycles are the same |
| ReadyQueue.Queue.InsertSs | partikle/core/include/sched_struct.h:104-118 | insertion at the head of a list is insertion into the plain queue before all entries no more urgent; lists, links and bitmaps stay consistent |
| ReadyQueue.Queue.InsertSsTail | partikle/core/include/sched_struct.h:124-150 | insertion at the tail is insertion behind all entries at least as urgent |
| ReadyQueue.Queue.GetHeadSs | partikle/core/include/sched_struct.h:202-216 | the thread found through the bitmaps, and its priority, are the first entry of the plain queue |
| ReadyQueue.Queue.RemoveSs | partikle/core/include/sched_struct.h:264-286 | removal takes exactly this thread out of the plain queue, and does nothing to a thread not queued |
| ReadyQueue.Queue.InitSs | partikle/core/include/sched_struct.h:79-87 | initialisation makes the queue empty whatever was there |
| ReadyQueue.SlotOf | partikle/core/include/sched_struct.h:60-72 | the two index conversions are inverse on the low ten bits of a priority |
| ReadyQueue.ScanFirst | partikle/core/include/sched_struct.h:211-216 | the two bit scans lead to the first non-empty list |
| ReadyQueue.TailRefines | partikle/core/include/sched_struct.h:124-150 | appending to one of the 1024 lists is stable insertion into their concatenation |
| PriorityQueue.InsertHeadSorted | partikle/core/include/sched_struct.h:104-118 | insertion at the head puts the new entry right before those no more urgent; the queue stays sorted and no other entries change places |
| ReadyRun.Run | partikle/core/include/sched_struct.h:104-286 | over every run of threads queued again at the tail, served and withdrawn, the structure serves as a plain queue of arrival numbers, step by step; that queue is always in order of priority and, within a priority, of arrival |
| ReadyRun.AfterNumbered | partikle/core/include/sched_struct.h:124-150 | a step of the plain queue keeps that order |
| TimerHeap.Heap.Heapify | xtratum/kernel/heap.c:54-70 | sifting down keeps the elements, and ends in heap order exactly if the parent of the start is not later than the moved element, although the slot behind the last is read |
| TimerHeap.Heap.RemoveMin | xtratum/kernel/heap.c:100-110 | the least element is removed; heap order and all other elements are kept |
| TimerHeap.Heap.RemoveElement | xtratum/kernel/heap.c:116-136 | exactly this element is removed, and heap order is kept exactly if the moved last element is not earlier than the parent of the hole |
| TimerHeap.Heap.Insert | xtratum/kernel/heap.c:142-159 | the element is in the heap once afterwards; order is kept if it was not in it, and otherwise exactly if its old slot could be filled or the new element mends what that broke on its way up; an element not earlier than its parent stays last |
| TimerHeap.Heap.CapacityTest | xtratum/kernel/heap.c:142-151 | the capacity test always passes; the slot written first is in the array exactly if fewer than 99 elements are in the heap or the element is one of them |
| TimerHeap.Heap.Min | xtratum/kernel/heap.c:44-48 | the root is a least element |
| TimerHeap.Heap.Arm | xtratum/kernel/timer.c:104-120 | setting a timer gives the domain its expiry time and period and arms it; order afterwards has the same exact condition |
| TimerHeap.MendedExactly | xtratum/kernel/heap.c:142-159 | in slots with one element earlier than its parent, inserting another ends in order exactly if it comes up through that parent, not through that element, and neither it nor the element above that parent is later than that element |
| TimerHeap.LopsidedHeap | xtratum/kernel/heap.c:116-136 | in an ordered heap of seven with given times, removing the fourth loses heap order, and no new time mends it |
| TimerHeap.RearmLoses | xtratum/kernel/timer.c:104-120 | in that heap, which insertions lead to, arming the fourth timer again loses heap order, whatever the new time |
| TimerHandler.Handle | xtratum/kernel/timer.c:68-98 | with periods zero or above the shortest interval the handler ends; exactly the domains that had expired get the timer event added to their pending events, periodic ones are armed again one period from now, and nothing else changes; every timer left is later than now plus the shortest interval, and the smaller of the earliest delay and the longest interval is programmed |
| TimerHandler.SignalEarliest | xtratum/kernel/timer.c:76-88 | one turn of its loop adds the event to the earliest domain alone, and arms it again one period from now if it is periodic |
| DomainSched.Hypervisor.InsertDomain | xtratum/include/domain.h:142-169 | a domain comes behind all at least as urgent and before the rest; the list stays sorted and linked both ways |
| DomainSched.Hypervisor.RemoveDomain | xtratum/include/domain.h:171-180 | exactly this domain leaves the list, which stays sorted and linked |
| PriorityQueue.InsertTailSorted | xtratum/include/domain.h:142-169 | insertion into a sorted list puts the new entry right behind those at least as urgent, keeps it sorted and no other entries change places |
| EventScan.ScanSelects | xtratum/kernel/sched.c:96-123 | the domain selected is the first that is active, or suspended with its events flag set and an event that it has after propagation and does not mask; only pending events change |
| EventScan.ScanExact | xtratum/kernel/sched.c:96-123 | where every event is after a scan: a domain the scan came to, unless it is the last, has exactly the events that got to it past finished domains and domains that do not intercept them, if it has not finished and intercepts them itself; the domain behind the selected one, and the last, has all that got to it; no other changes |
| EventScan.ScanOrigin | xtratum/kernel/sched.c:99-113 | an event pending afterwards was pending at or above its domain, and all domains between let it pass |
| EventScan.ScanGoal | xtratum/kernel/sched.c:99-113 | an event pending before is pending at or below its domain afterwards, past domains that do not intercept it |
| EventScan.ScanUnion | xtratum/kernel/sched.c:99-113 | the union of all pending events is preserved |
| DomainSched.Hypervisor.Sched | xtratum/kernel/sched.c:86-141 | `xm_sched` selects the first domain that is active, or suspended with its events flag set and an unmasked event after propagation, or else the root, switches to it and makes it active; every event is where `EventScan.ScanExact` says, told by the fields of the domains |
| DomainSched.Hypervisor.ExitDomain | xtratum/kernel/syscalls.c:44-51 | the running domain finishes with its events flag cleared, another is scheduled, no other state or flag changes but that of the domain selected, and no finished domain but the root runs |
| DomainSched.Hypervisor.Trap | xtratum/kernel/sched.c:41-45 | a trap finishes the running domain, another is scheduled, no other state changes but that of the domain selected, and no finished domain but the root runs |
| DomainSched.Hypervisor.SuspendDomain | xtratum/kernel/syscalls.c:312-327 | the running domain is scheduled as suspended unless the device call succeeded; no other state changes but that of the domain selected, and finished domains stay finished |
| DomainSched.Hypervisor.PassEvent | xtratum/kernel/syscalls.c:342-345 | the event is set at the next domain alone |
| DomainSched.Hypervisor.Run | xtratum/kernel/sched.c:86-141 | over every run of exit, trap, suspend, pass-event, schedule and event-word steps a domain other than the root that has finished, before the run or at an earlier step of it, is never selected |
| TraceRing.Tracer.DoTrace | xtratum/kernel/xmtrace_core.c:66-102 | one event adds one record, or publishes or drops the trace as finalizing does; no ready buffer is touched |
| TraceRing.Tracer.Finalize | xtratum/kernel/xmtrace_core.c:152-189 | unless 31 traces are outstanding a trace is published with all that was recorded, its number and the count of traces lost before it; otherwise it is counted as lost; either way recording starts anew, and no ready buffer is touched |
| TraceRing.Tracer.TestReady | xtratum/xmtrace/tracer.c:108-113 | the reader starts dumping exactly if a published trace has not been cleared yet |
| TraceRing.Tracer.DumpNext | xtratum/xmtrace/tracedump.h:40-64 | a trace dumped is the next one published, with its last 40 records oldest first, its number and the count of traces lost before it |
| TraceRing.Tracer.ClearReady | xtratum/xmtrace/tracer.c:115-115 | clearing the ready bit frees exactly this buffer |
| TraceRing.Tracer.Summary | xtratum/kernel/xmtrace_core.c:152-189 | in every reachable state the traces dumped are the first published, once each and in order, at most 31 are outstanding, and finalizes equal published plus overwritten |
| TraceRing.Tracer.Run | xtratum/xmtrace/tracer.c:106-124 | every interleaving of writer steps with single reader steps keeps this |
| TraceRing.Recording | xtratum/kernel/xmtrace_core.c:94-97 | recording keeps the last 40 records at their places |
| TraceRing.NextReady | xtratum/kernel/xmtrace_core.c:165-171 | the next buffer is ready exactly if 31 traces are outstanding |
| RtFifo.Fifo.Write | xtratum/devs/rtfifo/rtfifo.c:356-407 | as many bytes as fit in size-1 are appended to the queue, and no others |
| RtFifo.Fifo.Read | xtratum/devs/rtfifo/rtfifo.c:298-354 | the oldest bytes are delivered in order and removed, the rest of the destination is untouched, and an emptied FIFO has both counters at zero |
| RtFifo.Fifo.Flush | xtratum/devs/rtfifo/rtfifo.c:409-423 | the queue is empty |
| RtFifo.Fifo.Place | xtratum/devs/rtfifo/rtfifo.c:386-401 | both branches of the copy store the bytes from the write position on, inside the page |
| RtFifo.Fifo.Sizes | xtratum/devs/rtfifo/rtfifo.h:59-60 | the used and free sizes are the length of the queue and what is missing to size-1 |
| RtFifo.FreeInOnePiece | xtratum/devs/rtfifo/rtfifo.c:390-391 | the unsplit copy stays inside the page, given that an empty FIFO has both counters at zero |
| RtFifo.EmptyNotAtZero | xtratum/devs/rtfifo/rtfifo.c:390-391 | with equal counters other than zero the unsplit copy would run past the page |
| PageTables.Space.AllocateUserPage | xtratum/include/i386/mm.h:114-138 | when a page is mapped, which one, that its entry then holds its physical address with the flags present, writable and user, and that nothing else is mapped or unmapped but for a table added |
| PageTables.Space.Walk | xtratum/include/i386/mm.h:114-138 | what the hardware finds at the two levels for a user address: entries with the flags present, writable and user and the physical addresses of table and page if it is mapped, and an entry that is not present otherwise |
| PageTables.Space.FreeUserPage | xtratum/include/i386/mm.h:140-168 | exactly this page is given back, and its table once no page is left in it |
| PageTables.Space.AllocUserRange | xtratum/include/i386/mm.h:170-183 | success maps every page up to the end computed, none of which was mapped, to pages that were available; these are the pages asked for exactly if the end does not wrap around; failure means that a page was mapped or is none of the user's, or that the supply ran out |
| PageTables.Space.AllocFreeUserRange | xtratum/include/i386/mm.h:210-245 | a result other than 0 starts a range that was unmapped; the pages asked for are now mapped to fresh ones exactly if their end does not wrap around 2^32, always so for sizes up to 2^30, and otherwise nothing is mapped; all other mappings are kept; with supply left and a search that ended, the result is 0 exactly if the first page answered was mapped or the range reaches the kernel's part |
| PageTables.Space.Search | xtratum/include/i386/mm.h:223-241 | which page the search answers, that it has found those behind it free, that a page it has skipped follows a mapped one, and that the range searched ends below the last user page |
| PageTables.AnswerExactly | xtratum/include/i386/mm.h:223-241 | told by the pages mapped: the search ends at the first page that is the start or stands behind an odd run of mapped pages, has free pages behind it up to the end of the range, and is free itself if it is the start; if there is none it fails |
| PageTables.FreeRangeAnswered | xtratum/include/i386/mm.h:223-241 | if a free range of the size exists and ends below the last user page, the search ends there or before; the range is missed exactly if the first page at which the search can end is mapped, and only if two neighbouring pages before it are mapped |
| PageTables.OnePageMissed | xtratum/include/i386/mm.h:223-241 | a request for a single page is missed exactly if that page and the next are mapped |
| PageTables.MissedRange | xtratum/include/i386/mm.h:210-245 | with the pages at 0x1000 and 0x2000 mapped, a request for one page from 0x1000 on fails, whether or not the next page is free |
| PageTables.TwoMapped | xtratum/include/i386/mm.h:114-138 | such a directory exists, with the page at 0x3000 free and pages left to map |
| PageTables.WrappingRequest | xtratum/include/i386/mm.h:210-245 | on a new directory every request whose end wraps around is answered by the address asked for, with nothing mapped |
| PageTables.WrappingSizes | xtratum/include/i386/mm.h:219-221 | such a request exists exactly for sizes above 2^30 |
| PageTables.Space.DestroyPageDirectory | xtratum/include/i386/mm.h:198-208 | every page and table obtained is given back exactly once |
| PageTables.PagesDistinct | xtratum/include/i386/mm.h:131-136 | different mapped addresses are backed by different pages |
| PageTables.RangeEndExact | xtratum/include/i386/mm.h:175-177 | the end of a range is computed right exactly if it does not wrap around 2^32 |
| PageTables.Space.constructor | xtratum/include/i386/mm.h:96-111 | a new directory maps nothing for the user and copies the kernel entries |
| NumberText.ReadDigits | partikle/core/libc/stdlib.c:57-68 | the split multiplication flags overflow exactly if the whole digit string denotes 2^32 or more, and otherwise yields its value |
| NumberText.Strtoul | partikle/core/libc/stdlib.c:31-78 | `strtoul` returns the value the standard asks for, and the end of the number, on every text and base |
| NumberText.Strtol | partikle/core/libc/stdlib.c:82-99 | `strtol` is the signed number cut to the range of long, on every text and base |
| NumberText.HexadecimalText | partikle/core/libc/stdlib.c:31-78 | concrete text: spaces, a sign, the prefix and digits of either case in base 0 |
| NumberText.PrefixedTexts | partikle/core/libc/stdlib.c:31-78 | concrete texts: the prefix counts only before a digit of base 16 |
| NumberText.OtherBases | partikle/core/libc/stdlib.c:31-78 | concrete texts in base 8, chosen by a leading zero, and in base 36 |
| NumberText.NoNumberTexts | partikle/core/libc/stdlib.c:31-78 | concrete texts without a number, and bases there are not |
| NumberText.SplitProduct | partikle/core/libc/stdlib.c:62-65 | the two partial products make up the whole one |
| NumberText.NumeralTexts | partikle/core/librc/rprintf.c:205-222 | concrete numerals: digits above 9 are upper-case letters, and zero has one digit |
| NumberText.Convert | partikle/core/librc/rprintf.c:200-220 | the scratch buffer ends with the numeral of the value and a zero |
| NumberText.PrintSigned | partikle/core/librc/rprintf.c:168-188 | `%d` prints a minus sign for negative numbers, and the numeral of the magnitude |
| NumberText.UnsignedRoundTrip | partikle/core/librc/rprintf.c:189-226 | what `%u` and `%x` print is read back by `strtoul` as the same value, to its end |
| NumberText.SignedRoundTrip | partikle/core/librc/rprintf.c:168-226 | what `%d` prints is read back by `strtol` as the same value, -2^31 included |
| NumberText.RereadSigned | partikle/core/libc/stdlib.c:82-99 | printing and parsing in sequence returns the number |
| NumberText.RereadUnsigned | partikle/core/libc/stdlib.c:31-78 | printing and parsing an unsigned number in sequence, in base 10 or 16, returns it |

## Left out

- Rewriting kconfig trees in place: expressions are values. Where two pointers into one tree are passed, the chain is its shape with the list of its operands; `trans_count` is the flag a pass returns. Memory management of trees is not modelled.
- `menu_finalize` as a loop over menu lists: its conditions and tests are modelled for one entry at a time; type warnings, choices and reverse dependencies are not.
- Comparing with m in `expr_trans_compare`; its comparisons with y and n are modelled for all expressions.
- KconfigDeps.Checker.CheckAll: the order of the hash table is any sequence; the message text is the sequence of symbols printed.
- Tlsf.Pool.Malloc: requires a rounded request below 2^30, the range of the class matrix.
- Tlsf.Pool.Realloc: requires that the allocation it falls back on succeeds, since the code uses its result unchecked.
- Tlsf.InitMemoryPool: re-initialising a pool that carries the signature is not modelled. Memory cells are keyed by byte address, a header word by its first byte, and cells outside the pool are as usable as those in it.
- `calloc_ex`, the wrappers that use the default pool, and `destroy_memory_pool`: they add no new kind of property.
- TimerHeap.Heap.Insert: requires fewer than 99 elements unless the element is one of them; `TimerHeap.Heap.CapacityTest` says what happens otherwise. The error return of the capacity test is never taken.
- 64-bit wrap-around of times; clocks, intervals and the programming of the hardware timer are parameters and results.
- TraceRing.Tracer.constructor: requires buffers that count no lost traces, as on a zeroed shared page. Interrupt flags and the wrap-around of counters are not modelled, and reader and writer steps are atomic. What a record holds (time, domain, address) is given by the caller.
- RtFifo: each call is atomic and counters are unbounded; the table of FIFOs and its index test, and the read and write flags, are not modelled.
- PageTables: the allocator is a list of pages handed out in order and zeroed; physical addresses are kernel addresses less a constant; the flag for shared pages is cleared by the code before it is tested, so pages are always given back. A null directory, and the failure to get a page for the directory itself, are not modelled.
- PageTables.Space.AllocFreeUserRange: a result of 0 may leave pages of the range mapped, which teardown gives back.
- NumberText: padding, 64-bit conversions, strings and characters in `vrprintf`; a null `endptr`.
- DomainSched.Hypervisor.Sched: context switches and the delivery of events to handlers; other code may change event words through the step `Events`. Event bitmaps are sets.
- ReadyQueue.Queue.RemoveSs: a thread never queued must have null links and row and column inside the matrix, or -1.
- Context switching, gates, port I/O and inline assembly: hardware effects. Bit-scan instructions are treated as the portable versions.
- Event handler dispatch, the older allocator copies under `partikle/core`, the domain serial FIFO, `findnbs_cbitmap`, device registration, ELF loaders, generated parsers and user interfaces: plumbing, or code without a property of this kind.
