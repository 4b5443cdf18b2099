# Verified models of PRTOS

PRTOS is a partitioning hypervisor with a build-time configuration tool. This project models its hardest
algorithms in Dafny and proves what they are for:

* the Kconfig engine of the configuration tool (`scripts/kconfig`): the three-valued expression language and its
  optimiser, the finalization of the menu (propagated dependencies, re-parented and merged entries), the search for recursive dependencies, and the
  memoised evaluation of symbols;
* the cyclic scheduler (`core/kernel/sched.c`), the kernel timers behind one hardware timer and the execution-time
  clocks (`core/kernel/ktimer.c`, `core/include/ktimer.h`);
* intrusive circular lists (`core/include/list.h`) and the queuing channels built on them
  (`core/objects/commports.c`);
* the persistent log ring (`core/include/logstream.h`) on the memory block device (`core/drivers/memblock.c`);
* the word-wise byte copy (`core/include/stdc.h`) and the clock conversions (`core/include/ktimer.h`).

Code that updates objects is modelled by classes and loops, each method proved against a specification function
whose properties are then proved as lemmas. `dafny verify dfyconfig.toml` checks everything.

## How the files fit together

| file | subject |
|---|---|
| `Options.dfy`, `Arithmetic.dfy` | optional values; facts about quotients and products |
| `KconfigExpr.dfy` | expressions, valuations, constant elimination, negation push-down |
| `KconfigEq.dfy` | comparison up to reordering, cancellation and extraction of common operands |
| `KconfigReorder.dfy` | what the comparison finds: exactly the operands that two expressions share |
| `KconfigJoin.dfy` | merging two operands into one |
| `KconfigSlots.dfy` | operands of a chain, named by paths |
| `KconfigDups.dfy`, `KconfigCancel.dfy` | the two traversals of the duplicate elimination |
| `KconfigExact.dfy` | which values the second one changes, and a chain that it changes |
| `KconfigMenu.dfy` | the optimiser loop, the rewriting of comparisons, the propagation of one condition |
| `KconfigReparent.dfy` | `menu_finalize` on whole menus: propagation, re-parenting, merging |
| `KconfigDeps.dfy`, `KconfigEval.dfy` | the cycle check; the memoised evaluator |
| `KconfigValues.dfy` | what the values of symbols are: the only solution of the declared equations |
| `Scheduler.dfy` | the cyclic scheduler as a state machine, and the code that refines it |
| `Timers.dfy`, `VirtualTimers.dfy`, `TimeConversion.dfy` | timers, execution clocks, conversions |
| `DynLists.dfy`, `Channels.dfy` | rings on the heap; channels |
| `LogImages.dfy`, `LogRings.dfy`, `MemBlocks.dfy`, `LogStreams.dfy`, `LogRuns.dfy` | header and crashes; the ring; the device; the stream; whole runs and restarts |
| `WordCopy.dfy` | the unaligned copy |

## What the proofs found

* `expr_eliminate_dups2` reasons in two values. The optimiser can therefore change the value m, and no other
  (`EliminateDups`). A cancelled pair is m instead of n or y exactly where both operands are m (`CancelExact`), and a
  chain in which something is cancelled keeps its value exactly where that is not m (`CancelDecides`; for a whole
  traversal `Dups2Exact`, for a run of the optimiser whose first pass cancels on the chain itself `EliminateDups`).
  `(A || B) && (!A && !B)` with A and B both m is m, and the optimiser makes it n (`PassChangesM`). A pass is right
  about every expression exactly under the valuations in which no tristate symbol is m (`PassRight`), and a run that
  cancels nothing is exact everywhere.
* `expr_trans_compare` is right about a negation exactly where the operand is not m (`TransCompareNotExact`; `!A != n`
  fails where A is m, `TransCompareNotFails`), and about a bare symbol exactly when it is bool, tristate or a constant
  (`TransCompareSymExact`).
* `expr_eq` recognises expressions that are the same up to reordering exactly, as long as y and n are not operands
  (`ExprEqExact`, `EliminateEqExact`, `ExtractExact`). With such operands its equality is not transitive, and since it
  pairs operands greedily it can miss a reordering (`GreedyFails`).
* `expr_trans_bool` may turn n into m outside negation normal form (`TransBoolNeedsNnf`); `menu_finalize` calls it
  only on negation normal form, where it is harmless.
* The comment at scripts/kconfig/expr.c:436 announces `a='m'`; the code returns `a='y'`, which is the right one.
* A kernel timer armed for the time 0 is left uncovered, because 0 means "no deadline" to `set_hw_timer`
  (`TimerSystem.Arm` states exactly when a call keeps every armed timer covered).
* A virtual timer and the kernel timer below it stay in step over an expiry exactly when no interval was overrun
  (`VirtualTimer.Expire`).
* The first commit after a fresh log header writes the control record in force. Stopping between its two writes is
  safe; stopping inside the first write is safe exactly when the bytes written, or those still to be written, are the
  same in both records (`FirstCommitExact`, with a concrete failure in `FirstCommitTears`). Every later commit may stop
  after any byte.

## Model

| member | source | states |
|---|---|---|
| `KconfigExpr.EliminateYnKeepsValue` | scripts/kconfig/expr.c:212-291 | constant elimination keeps the value under every valuation, and freedom from m |
| `KconfigExpr.EliminateYnShrinks` | scripts/kconfig/expr.c:212-291 | nothing is left to eliminate; the node count falls whenever there was something, and otherwise the expression is unchanged |
| `KconfigExpr.EliminateYnIsNnf` | scripts/kconfig/expr.c:212-291 | constant elimination keeps negation normal form |
| `KconfigExpr.PushNot` | scripts/kconfig/expr.c:657-675 | pushing NOT through AND or OR lowers the termination weight of the expression |
| `KconfigExpr.TransformKeepsValue` | scripts/kconfig/expr.c:581-710 | `expr_transform` keeps the value under every well-typed valuation |
| `KconfigExpr.TransformIsNnf` | scripts/kconfig/expr.c:581-710 | its result is in negation normal form, for every expression |
| `KconfigExpr.TransformFixpoint` | scripts/kconfig/expr.c:581-710 | it leaves an expression alone if and only if that is already in negation normal form |
| `KconfigExpr.TransformCmpKeepsValue` | scripts/kconfig/expr.c:597-638 | the rewriting of comparisons of boolean symbols with y, m and n keeps the value |
| `KconfigExpr.MFreeValue` | scripts/kconfig/expr.h:43-45 | an expression over symbols that are not m is not m |
| `KconfigEq.CancelEqFactors` | scripts/kconfig/expr.c:123-150 | cancelling equal operands removes one and the same factor from both expressions |
| `KconfigReorder.CancelShared` | scripts/kconfig/expr.c:123-150 | without y and n operands, cancelling takes from each chain exactly the operands that both have, each as often as both have it |
| `KconfigEq.ExprEqSound` | scripts/kconfig/expr.c:173-210 | expressions accepted as equal have the same value everywhere |
| `KconfigReorder.Reordering` | scripts/kconfig/expr.c:170-210 | the form under which expressions are compared ignores the order and the grouping of operands |
| `KconfigReorder.ExprEqExact` | scripts/kconfig/expr.c:170-210 | without y and n operands, expressions are accepted if and only if they are the same up to reordering, at every depth |
| `KconfigReorder.GreedyFails` | scripts/kconfig/expr.c:123-210 | two orders of three operands, with y among their parts, that are not recognised as equal |
| `KconfigEq.EliminateEqImplies` | scripts/kconfig/expr.c:152-168 | if cancelling against the first expression leaves y of the second, the first implies the second in every valuation |
| `KconfigReorder.EliminateEqExact` | scripts/kconfig/expr.c:152-168 | without y and n operands, y is left of the second expression if and only if it was y or the first is an AND that has all its operands |
| `KconfigEq.ExtractEqFactors` | scripts/kconfig/expr.c:774-800 | what is extracted, on top of what was extracted before, is a factor of both expressions |
| `KconfigEq.ExtractCommonFactors` | scripts/kconfig/expr.c:754-772 | both expressions are exactly the extracted part combined with what is left of them |
| `KconfigReorder.ExtractShared` | scripts/kconfig/expr.c:774-800 | extraction takes exactly the shared operands |
| `KconfigReorder.ExtractExact` | scripts/kconfig/expr.c:754-800 | nothing is left of the first expression if and only if the second has all its operands |
| `KconfigJoin.JoinOrSound` | scripts/kconfig/expr.c:322-373 | a merged OR has the value of the two operands together |
| `KconfigJoin.JoinAndSound` | scripts/kconfig/expr.c:375-454 | a merged AND has the value of the two operands together |
| `KconfigJoin.JoinKeepsValue` | scripts/kconfig/expr.c:322-454 | both kinds of merge keep the value, and freedom from m |
| `KconfigJoin.JoinIsSmall` | scripts/kconfig/expr.c:322-454 | a merge is its first operand, a symbol or a comparison, so it never grows |
| `KconfigJoin.JoinIsNnf` | scripts/kconfig/expr.c:322-454 | a merge keeps negation normal form |
| `KconfigJoin.JoinsEqual` | scripts/kconfig/expr.c:322-379 | operands that are the same up to reordering are always merged |
| `KconfigJoin.JoinsComparisons` | scripts/kconfig/expr.c:342-446 | comparisons of a tristate symbol with two of y, m and n are merged into the one with the third, and `=` with `!=` into one of the two or n |
| `KconfigJoin.JoinsSymbol` | scripts/kconfig/expr.c:359-409 | a symbol is merged with comparisons of itself, and a bool symbol with its negation |
| `KconfigSlots.ValuePutTwo` | scripts/kconfig/expr.c:480-499 | two operands of a chain may be replaced by any two with the same combined value |
| `KconfigSlots.StepTowards` | scripts/kconfig/expr.c:461-470 | the traversals reach every operand of a chain |
| `KconfigDups.MergePair` | scripts/kconfig/expr.c:480-502 | merging a pair changes two operands only: the chain itself stays as it is and gets no deeper |
| `KconfigDups.Dups1` | scripts/kconfig/expr.c:456-505 | the traversal ends, although it rewrites the chains it walks, and keeps the outline of the chain |
| `KconfigDups.Dups1Progress` | scripts/kconfig/expr.c:456-505 | the tree does not grow; every pass that counts a rewrite leaves a constant to eliminate, any other leaves the tree alone |
| `KconfigDups.Dups1Keeps` | scripts/kconfig/expr.c:456-505 | the traversal keeps the value under every valuation |
| `KconfigDups.Dups1Complete` | scripts/kconfig/expr.c:456-505 | a pass that counts nothing has offered every pair of operands to the join in vain, at every depth |
| `KconfigDups.Dups1Exact` | scripts/kconfig/expr.c:456-505 | the first traversal counts nothing if and only if no two operands can be merged, at any depth |
| `KconfigCancel.Dups2` | scripts/kconfig/expr.c:507-558 | the second traversal ends and keeps the outline of the chain |
| `KconfigCancel.CancelsMeansContradiction` | scripts/kconfig/expr.c:524-550 | operands are cancelled only if the second is at most the negation of the first, so unless the first is m they decide the chain |
| `KconfigExact.CancelsContradictions` | scripts/kconfig/expr.c:524-550 | without y and n operands, an operand is cancelled if and only if the other part has all operands of its negation |
| `KconfigCancel.CancelExact` | scripts/kconfig/expr.c:524-550 | wherever the code cancels, the pair has the value that replaces it if and only if its two operands are not both m |
| `KconfigCancel.CancelDecides` | scripts/kconfig/expr.c:524-550 | a cancellation gives the chain the value that decides it, which it had before if and only if its value was not m |
| `KconfigCancel.Dups2Keeps` | scripts/kconfig/expr.c:507-558 | the second traversal keeps every value but m, under every valuation, and freedom from m |
| `KconfigCancel.Dups2Progress` | scripts/kconfig/expr.c:507-558 | each counted cancellation leaves a constant to eliminate; without one the tree is unchanged |
| `KconfigCancel.Dups2Complete` | scripts/kconfig/expr.c:507-558 | a pass that counts nothing leaves no pair of contradictory operands |
| `KconfigCancel.Dups2Counts` | scripts/kconfig/expr.c:507-558 | the second traversal counts nothing if and only if no operand contradicts another part of the chain, at any depth |
| `KconfigExact.Dups2Exact` | scripts/kconfig/expr.c:507-558 | a traversal that cancels anything on the chain itself keeps the value if and only if that is not m; where nothing can be cancelled within the operands, it does so if and only if some operand contradicts another part of the chain, and otherwise leaves the chain alone |
| `KconfigExact.PassChangesM` | scripts/kconfig/expr.c:507-558 | a concrete chain, m before, which a pass of the two traversals turns into n |
| `KconfigMenu.EliminateDups` | scripts/kconfig/expr.c:560-579 | the loop ends with an expression of no greater size, equal wherever the value is not m, nowhere else if the first pass cancels on the chain itself, and everywhere if nothing is cancelled; negation normal form and freedom from m are kept, and no pair of operands can be merged or cancelled any more |
| `KconfigMenu.PassCorrect` | scripts/kconfig/expr.c:566-574 | one pass of both traversals keeps every value but m, and every value if it cancels nothing; it makes progress whenever it counts something |
| `KconfigMenu.PassExact` | scripts/kconfig/expr.c:566-574 | a pass that cancels on the chain itself, or cancels where the operands hold nothing to cancel, keeps the value if and only if that is not m |
| `KconfigMenu.PassRight` | scripts/kconfig/expr.c:507-574 | a pass keeps the value of every expression in which m is not an operand if and only if no tristate symbol is m |
| `KconfigMenu.PassCounts` | scripts/kconfig/expr.c:566-577 | a pass counts nothing, which ends the loop, if and only if nothing can be merged or cancelled at any depth |
| `KconfigMenu.FinishedDistinct` | scripts/kconfig/expr.c:560-579 | no two operands of a finished chain are the same up to reordering |
| `KconfigMenu.TransCompareCorrect` | scripts/kconfig/expr.c:802-847 | the rewritten comparison with y or n holds exactly when the comparison with the expression's value does |
| `KconfigMenu.TransCompareNotExact` | scripts/kconfig/expr.c:825-826 | under NOT the rewrite is right if and only if the operand is not m |
| `KconfigMenu.TransCompareNotFails` | scripts/kconfig/expr.c:825-826 | a concrete negation, compared with n, for which the rewrite gives the wrong answer |
| `KconfigMenu.TransCompareModExact` | scripts/kconfig/expr.c:809-838 | compared with m, a comparison is handled rightly, a chain if and only if it is n |
| `KconfigMenu.TransCompareSymExact` | scripts/kconfig/expr.c:839-840 | on a symbol the rewrite is right under all valuations if and only if the symbol is bool, tristate or a constant, which for a comparison with n must be y, m or n |
| `KconfigMenu.MFreeIsDefinite` | scripts/kconfig/expr.c:802-847 | over bool and tristate symbols and y, m and n the rewrite is right wherever none of them is m |
| `KconfigMenu.TransCompareMFree` | scripts/kconfig/expr.c:802-847 | the rewritten comparison never relies on a symbol's own value, so optimising it is exact |
| `KconfigMenu.TransBoolLowers` | scripts/kconfig/expr.c:296-317 | in negation normal form the rewrite never raises a value and keeps zero and non-zero apart |
| `KconfigMenu.TransBoolNeedsNnf` | scripts/kconfig/expr.c:296-317 | a concrete expression outside negation normal form whose value it raises |
| `KconfigMenu.TransBoolIsNnf` | scripts/kconfig/expr.c:296-317 | the rewrite keeps negation normal form |
| `KconfigMenu.TransBoolFixpoint` | scripts/kconfig/expr.c:296-317 | no `!= n` on a tristate symbol is left, and nothing changes if and only if there was none |
| `KconfigMenu.PropagateDep` | scripts/kconfig/menu.c:229-233 | the result, in negation normal form, has the value of the conjunction of the inherited dependency and the own one wherever that is not m, and everywhere if nothing was cancelled |
| `KconfigMenu.PropagateVisibility` | scripts/kconfig/menu.c:238-244 | so has the visibility; for a symbol that is not tristate its promoted value is that of the conjunction, and it is never higher |
| `KconfigMenu.ConjunctionGates` | scripts/kconfig/menu.c:229-244 | what is propagated can hold only where the inherited condition does |
| `KconfigMenu.NotNo` | scripts/kconfig/menu.c:253-262 | the prepared condition is y exactly where the original is not n |
| `KconfigMenu.ImpliedBy` | scripts/kconfig/menu.c:261-270 | if the test succeeds, the entry's dependency implies the visibility wherever the expressions are definite; and it succeeds if and only if the prepared visibility is y or all its operands are among those of the prepared dependency, y and n operands aside |
| `KconfigReparent.DependsSymbolImplies` | scripts/kconfig/expr.c:731-752 | an expression that depends on a bool or tristate symbol is n wherever the symbol is n |
| `KconfigReparent.DependsContains` | scripts/kconfig/expr.c:712-752 | an expression that depends on a symbol mentions it |
| `KconfigReparent.ContainsExact` | scripts/kconfig/expr.c:712-730 | the test for mentioning a symbol is exact |
| `KconfigReparent.DependsExact` | scripts/kconfig/expr.c:731-752 | an expression depends on a symbol if and only if the symbol, or one of three comparisons of it, is an operand of its AND chain |
| `KconfigReparent.LiteralsExact` | scripts/kconfig/expr.c:731-752 | of the symbol and its comparisons with y, m and n these are exactly the ones that are n where the symbol is |
| `KconfigReparent.JustifiedMeaning` | scripts/kconfig/menu.c:252-275 | an adopted entry can be active only where the adopting symbol is set or its prompt is visible |
| `KconfigReparent.PropagatePrompt` | scripts/kconfig/menu.c:238-244 | the visibility of a prompt follows the conjunction of all that the entry inherits, its dependency and its own condition |
| `KconfigReparent.NaiveMeans` | scripts/kconfig/menu.c:224-244 | in the reference every entry has the least value of what the entries on its path through the blocks ask for |
| `KconfigReparent.PropagateEntry` | scripts/kconfig/menu.c:228-244 | an entry whose inherited condition follows the reference gets conditions that follow the reference, and hands down such a condition again |
| `KconfigReparent.PropagateLevel` | scripts/kconfig/menu.c:228-250 | the same for all entries of a list, with nothing else about them changed |
| `KconfigReparent.Merge` | scripts/kconfig/menu.c:315-323 | entries without a title give up their submenus; the order of the file is kept, every entry still belongs where it stands, and no submenu without a title is left |
| `KconfigReparent.Belongs` | scripts/kconfig/menu.c:257-272 | an entry that passes the tests belongs below the symbol; one that fails does not depend on it, and fails one of the tests by their exact meaning |
| `KconfigReparent.FinalizeList` | scripts/kconfig/menu.c:199-326 | every entry ends up, in its place in the order of the file, with the conjunction of its own conditions and those of all blocks around it; none is lost or duplicated, and every submenu holds only entries that belong there |
| `KconfigReparent.Finalize` | scripts/kconfig/menu.c:251-326 | the same for one entry and what follows it; adoption stops only at an entry that does not depend on the symbol |
| `KconfigReparent.Adopt` | scripts/kconfig/menu.c:252-281 | the entries adopted are a justified run of those that follow, order and conditions kept, up to the first that fails a test |
| `KconfigReparent.FinalizeNext` | scripts/kconfig/menu.c:251-275 | the first of the remaining entries is finished together with those it adopts, and the others are left as they were |
| `KconfigReparent.FinalizeRoot` | scripts/kconfig/menu.c:199-326 | the finished menu means what conjoining conditions along every path of blocks gives, exactly if the optimiser cancelled nothing |
| `KconfigDeps.TopologicalMeansAcyclic` | scripts/kconfig/symbol.c:763-795 | an order with dependencies first rules out every cycle |
| `KconfigDeps.PathDescends` | scripts/kconfig/symbol.c:716-733 | every path along dependencies strictly descends in such an order |
| `KconfigDeps.CycleFromStack` | scripts/kconfig/symbol.c:767-770 | meeting a symbol whose check is under way closes a cycle of dependencies |
| `KconfigDeps.Checker.constructor` | scripts/kconfig/symbol.c:763-795 | at first nothing is marked and nothing reported |
| `KconfigDeps.Checker.CheckDeps` | scripts/kconfig/symbol.c:763-795 | the symbol ends up checked; an error or an open cycle means there is a cycle, and no error means dependencies come first in the order of completion |
| `KconfigDeps.Checker.CheckSymDeps` | scripts/kconfig/symbol.c:716-733 | the same for everything one symbol depends on: what selects it, its visibilities and its defaults |
| `KconfigDeps.Checker.CheckExprDeps` | scripts/kconfig/symbol.c:689-713 | the same for every symbol an expression mentions |
| `KconfigDeps.Checker.CheckAll` | scripts/kconfig/zconf.tab.c:1969-1972 | the error count is positive if and only if the declared symbols have a recursive dependency; otherwise an evaluation order exists |
| `KconfigEval.SymValIsValuation` | scripts/kconfig/symbol.c:236-347 | the values of all symbols form one well-typed valuation |
| `KconfigEval.ExprValIsValue` | scripts/kconfig/expr.c:849-886 | an expression evaluates to its value under that valuation |
| `KconfigValues.SymValAnswers` | scripts/kconfig/symbol.c:178-299 | every value is the one that the declaration gives under the values of all: user value limited by visibility, or first visible default, raised to what selects the symbol, m for bool-like symbols promoted |
| `KconfigValues.ValuesSolve` | scripts/kconfig/symbol.c:178-299 | so the values together solve the equations of all declarations |
| `KconfigValues.OnlySolution` | scripts/kconfig/symbol.c:178-299 | and nothing else does: any valuation that solves them has these values |
| `KconfigValues.UserLimited` | scripts/kconfig/symbol.c:279-299 | a visible symbol with a user value is never above visibility and selection, and has that value where it is fully visible and not selected |
| `KconfigValues.NeverBelowSelection` | scripts/kconfig/symbol.c:192-197 | no symbol is below what selects it |
| `KconfigValues.NeverM` | scripts/kconfig/symbol.c:299 | a bool symbol, and without modules any symbol, is never m |
| `KconfigValues.DefaultDecides` | scripts/kconfig/symbol.c:288-297 | without a visible prompt or a user value, the first visible default decides, limited by its condition |
| `KconfigValues.InvisibleUserIgnored` | scripts/kconfig/symbol.c:279-287 | the user's value of a symbol without a visible prompt has no influence on any symbol |
| `KconfigEval.Evaluator.CalcValue` | scripts/kconfig/symbol.c:236-347 | after the call the symbol is valid and holds its defined value, and so does every valid symbol not being evaluated |
| `KconfigEval.Evaluator.CalcParts` | scripts/kconfig/symbol.c:263-299 | visibility and selection are computed before the value, which is the defined one although it is reset in between |
| `KconfigEval.Evaluator.CalcOwn` | scripts/kconfig/symbol.c:277-294 | the user's value limited by visibility, or the first visible default |
| `KconfigEval.Evaluator.CalcVisibility` | scripts/kconfig/symbol.c:178-201 | visibility and reverse dependency become the defined ones |
| `KconfigEval.Evaluator.CalcPrompts` | scripts/kconfig/symbol.c:183-187 | the greatest visibility of the prompts |
| `KconfigEval.Evaluator.CalcDefault` | scripts/kconfig/symbol.c:113-121 | the value of the first default that is visible |
| `KconfigEval.Evaluator.CalcExpr` | scripts/kconfig/expr.c:849-886 | the expression's value, with every cache intact |
| `KconfigEval.Evaluator.ClearAllValid` | scripts/kconfig/symbol.c:349-356 | after forgetting all values every valid symbol again holds its value |
| `KconfigEval.Evaluator.Session` | scripts/kconfig/symbol.c:236-356 | any sequence of evaluations and clearings answers every request with the defined value |
| `Scheduler.FirstEndingCovers` | core/kernel/sched.c:128-131 | the first slot that has not ended is the only one that can cover the time |
| `Scheduler.FrameContainsNow` | core/kernel/sched.c:106-117 | skipping missed frames finds the one that contains the present |
| `Scheduler.DecideUntil` | core/kernel/sched.c:122-154 | a decision stands until a later time in the frame; only a slot's owner gets the time up to its end |
| `Scheduler.DecideStands` | core/kernel/sched.c:134-150 | no slot starts strictly inside a standing decision; a chosen owner keeps the processor to the end of its slot |
| `Scheduler.StepInv` | core/kernel/sched.c:56-171 | every event keeps the invariant of the scheduler |
| `Scheduler.RunInv` | core/kernel/sched.c:56-171 | so does every sequence of scheduling points, yields and plan switches |
| `Scheduler.Isolation` | core/kernel/sched.c:85-171 | a partition thread that is returned owns the slot that covers the present in the plan for which it was chosen |
| `Scheduler.TemporalIsolation` | core/kernel/sched.c:35-171 | this holds at the end of any run from the start of the system |
| `Scheduler.OwnsAlone` | core/kernel/sched.c:134-150 | no other slot of the plan covers that time |
| `Scheduler.SlotOwnerRuns` | core/kernel/sched.c:134-143 | at a fresh decision a ready thread whose slot covers the present gets the processor |
| `Scheduler.FreshAwake` | core/kernel/sched.c:122-154 | the next scheduling point is the end of the chosen thread's slot, or, while idling, the next start of a slot or the end of the frame, and no slot starts before it |
| `Scheduler.RunAwake` | core/kernel/sched.c:35-171 | over any run from the start, no slot is slept through |
| `Scheduler.SlotServed` | core/kernel/sched.c:93-171 | if scheduling points come when decisions end, a thread that is ready throughout its slot and does not yield has the processor from exactly the start of the slot to its end |
| `Scheduler.NextActAdvances` | core/kernel/sched.c:153-154 | the assertion in the code: every fresh decision moves the next scheduling point forward, past the present, up to the end of the frame |
| `Scheduler.QuietKeepsState` | core/kernel/sched.c:93-100 | until that point nothing but a yield changes the decision |
| `Scheduler.RequestTakesOver` | core/kernel/sched.c:102-116 | a requested plan takes over at the end of the frame, not before, in a frame that starts there and then |
| `Scheduler.HealthMonitorTakesOver` | core/objects/hm.c:253-257 | a plan switched directly leaves the standing decision in place and takes over at the first scheduling point after it |
| `Scheduler.SchedData.constructor` | core/kernel/sched.c:181-192 | the initial fields are those of the initial state |
| `Scheduler.SchedData.MakePlanSwitch` | core/kernel/sched.c:56-75 | a requested plan becomes the current one, without a slot or frame |
| `Scheduler.SchedData.SwitchSchedPlan` | core/kernel/sched.c:39-48 | the request is recorded for this processor and the plan in force returned |
| `Scheduler.SchedData.EnterFrame` | core/kernel/sched.c:103-120 | the loop over missed frames finds the frame that arithmetic gives |
| `Scheduler.SchedData.AdvanceSlot` | core/kernel/sched.c:125-131 | the incremental slot pointer ends where a search from the first slot would |
| `Scheduler.SchedData.Choose` | core/kernel/sched.c:132-150 | thread and deadline are those of the decision function, of which `DecideStands` and `SlotOwnerRuns` say what they are |
| `Scheduler.SchedData.Offset` | core/kernel/sched.c:122-124 | the offset into the frame, kept in 32 bits, is exact |
| `Scheduler.SchedData.FindFrame` | core/kernel/sched.c:102-123 | afterwards the fields describe the frame that contains the present, exact however many were missed |
| `Scheduler.SchedData.DecideNow` | core/kernel/sched.c:122-170 | the 32-bit offset never truncates and the decision is that of the specification |
| `Scheduler.SchedData.GetReadyKthread` | core/kernel/sched.c:93-171 | the bookkeeping refines the state machine in every reachable state, and returns what it chooses |
| `Scheduler.LocalProcessor.Schedule` | core/kernel/sched.c:208-270 | the chosen thread or the idle one runs, unless scheduling is off or an interrupt puts it off |
| `Scheduler.LocalProcessor.YieldNow` | core/include/sched.h:28-31 | a yield hands the rest of a standing decision to the idle thread |
| `Scheduler.LocalProcessor.SwitchToMaintenance` | core/objects/hm.c:253-257 | request, switch and scheduling point together are the corresponding events of the state machine |
| `Timers.AdvancedIsLeast` | core/kernel/ktimer.c:56-60 | an expired periodic timer moves by whole periods to the first one after the present |
| `Timers.AdvancedIsServiced` | core/kernel/ktimer.c:52-66 | servicing, field by field: not due, one-shot and periodic timers |
| `Timers.AddIntervals` | core/kernel/ktimer.c:57-59 | repeated addition finds the period that division gives |
| `Timers.Visit` | core/kernel/ktimer.c:52-66 | a timer that is not due stays as it is; one that is due fires exactly once, and is disarmed or, if periodic, armed for its first period after the present |
| `Timers.TraverseQueue` | core/kernel/ktimer.c:46-71 | that happens to every timer of the queue, every armed one lies in the future, and the result is the minimum |
| `Timers.EarliestConcat` | core/kernel/ktimer.c:79-84 | the earliest of two queues is the earlier of the two results |
| `Timers.TimerSystem.SetHwTimer` | core/kernel/ktimer.c:22-44 | the call does nothing for a deadline that is already covered, programs the clamped deadline, or handles a past one on the spot, nesting once at most |
| `Timers.TimerSystem.TimerHandler` | core/kernel/ktimer.c:73-88 | afterwards all armed timers lie in the future and the hardware is programmed for the earliest; handling never nests again |
| `Timers.TimerSystem.TraverseQueues` | core/kernel/ktimer.c:77-84 | both queues are advanced and the earliest deadline found |
| `Timers.TimerSystem.Arm` | core/kernel/ktimer.c:115-124 | all armed timers are covered afterwards if and only if the time is not 0, or the hardware was due in time anyway; the timer has the new time and interval, and if that time is past and the hardware was not due, all timers have been serviced |
| `Timers.TimerSystem.Disarm` | core/kernel/ktimer.c:126-131 | one timer is disarmed, nothing else changes and everything stays covered |
| `Timers.TimerSystem.SwitchGuest` | core/kernel/sched.c:243 | switching to a guest with any queue leaves no armed timer uncovered |
| `Timers.TimerSystem.Reprogram` | core/kernel/sched.c:260-270 | traversing without a switch leaves no armed timer uncovered |
| `Timers.TimerSystem.SwitchIdle` | core/kernel/sched.c:228-254 | a switch to the idle thread, which has no timers of its own, leaves none uncovered |
| `Timers.TimerSystem.Run` | core/kernel/ktimer.c:22-131 | over any run of arming for times other than 0, disarming, interrupts, switches between guests and the idle thread, and scheduling points without a switch, no armed timer is ever left uncovered; an armed one-shot timer that is left alone stays armed until an event at or after its time, and has fired exactly once by the first interrupt from then on |
| `Timers.TimerSystem.ProgrammedCovers` | core/kernel/ktimer.c:34-40 | programming the earliest deadline covers every timer |
| `Timers.TimerSystem.ClampIsNearest` | core/kernel/ktimer.c:34-38 | the hardware is programmed as near to the time asked for as it allows |
| `VirtualTimers.VirtualTimer.constructor` | core/include/ktimer.h:107-111 | a stopped clock at 0 |
| `VirtualTimers.VirtualTimer.Resume` | core/include/ktimer.h:120-125 | the clock goes on from where it stood; kernel and virtual timer have equally far to go |
| `VirtualTimers.VirtualTimer.Stop` | core/include/ktimer.h:113-118 | the clock keeps its reading and the kernel timer is off |
| `VirtualTimers.VirtualTimer.Arm` | core/kernel/ktimer.c:154-162 | a running partition's kernel timer has as far to go as the virtual one |
| `VirtualTimers.VirtualTimer.Expire` | core/kernel/ktimer.c:133-144 | expiry keeps both in step modulo the interval, and exactly if and only if no interval was overrun |
| `VirtualTimers.VirtualTimer.RunSpans` | core/include/ktimer.h:90-125 | over any alternation of resumptions and stops the clock shows the time spent running |
| `TimeConversion.RescaleIsFloor` | core/include/ktimer.h:127-137 | the split product is the exact floor |
| `TimeConversion.ConversionsAreFloors` | core/include/ktimer.h:127-137 | both conversions are exact floors |
| `TimeConversion.RescaleFits` | core/include/ktimer.h:127-137 | no intermediate value leaves 64 bits when the result and one second's product fit |
| `TimeConversion.RescaleRoundTrip` | core/include/ktimer.h:127-137 | there and back never gains and loses less than one unit of each kind |
| `TimeConversion.HwtimeRoundTrip` | core/include/ktimer.h:127-137 | the bound for ticks to microseconds and back |
| `DynLists.LinkedBefore` | core/include/list.h:44-53 | a node between the last and the first element extends the ring at the head |
| `DynLists.LinkedBehind` | core/include/list.h:69-77 | and at the tail |
| `DynLists.GappedWithout` | core/include/list.h:127-128 | once its neighbours point at each other, the rest without a node is a ring |
| `DynLists.DynList.constructor` | core/include/list.h:29-35 | an empty list |
| `DynLists.DynList.InsertHead` | core/include/list.h:37-60 | the element becomes the first of the sequence, unless it was already in the list |
| `DynLists.DynList.InsertTail` | core/include/list.h:62-84 | the element becomes the last |
| `DynLists.DynList.RemoveHead` | core/include/list.h:86-103 | the first element leaves the sequence, free of all links |
| `DynLists.DynList.RemoveTail` | core/include/list.h:105-121 | the last one does |
| `DynLists.DynList.RemoveElement` | core/include/list.h:123-138 | any one element does, and the order of the others stays |
| `DynLists.DynList.ForEach` | core/include/list.h:140-150 | the traversal visits every element once, in order |
| `Channels.FifoLossless` | core/objects/commports.c:449-588 | over any run the received messages are the waiting and sent ones in order, each cut to what was asked for, and the rest is still waiting |
| `Channels.FinalFits` | core/objects/commports.c:449-588 | the queue never exceeds the pool |
| `Channels.AllocatePool` | core/objects/commports.c:696-706 | every message of the pool is in the free list once |
| `Channels.Channel.constructor` | core/objects/commports.c:695-708 | an empty channel with all messages free |
| `Channels.Channel.Send` | core/objects/commports.c:440-465 | a message of the right size joins the end of the queue if and only if there is room for it, and is otherwise refused with the code's status; free and used messages still make up the pool |
| `Channels.Channel.Receive` | core/objects/commports.c:526-549 | if there is a message, and the size asked for is right, the oldest leaves the queue, cut to that size; otherwise the call is refused with the code's status |
| `Channels.Channel.Perform` | core/objects/commports.c:440-549 | any run of sends and receives on the lists and buffers sends, receives and leaves what the same run on a queue of messages does |
| `Channels.Channel.Carry` | core/objects/commports.c:440-549 | as many messages as the channel is configured for, sent in a row through an empty channel, all arrive whole and in order |
| `Channels.Channel.TakeFree` | core/objects/commports.c:450-456 | with room in the channel the free list is not empty: the internal error cannot happen |
| `Channels.Channel.TakeReceived` | core/objects/commports.c:534-540 | with messages in use the receive list is not empty, and its tail is the oldest |
| `Channels.Channel.Fill` | core/objects/commports.c:457-463 | copying a message in changes the text of one message of the pool |
| `Channels.NewestIsLast` | core/objects/commports.c:464-465 | inserting at the head appends to the queue |
| `Channels.OldestIsFirst` | core/objects/commports.c:535-542 | the tail of the receive list is the front of the queue |
| `LogImages.DecodeEncode` | core/include/logstream.h:21-32 | a word read back is the word written |
| `LogImages.WordsBytes` | core/include/logstream.h:21-32 | so is a structure of words |
| `LogImages.BytesWords` | core/include/logstream.h:21-32 | and bytes read as words are those bytes when written |
| `LogImages.HeaderWritten` | core/include/logstream.h:44-47 | writing whole words of the header replaces just those |
| `LogImages.CapacityIs` | core/include/logstream.h:61-62 | the number of whole records behind the header is the quotient the code computes |
| `LogImages.CommitCrash` | core/include/logstream.h:41-51 | while the copy written is not the one in force, a commit may stop after any byte: old record up to the pointer's first byte, then the new one, and nothing behind the header changes |
| `LogImages.FirstCommitCrash` | core/include/logstream.h:41-51 | the first commit after a fresh header may stop between its writes |
| `LogImages.FirstCommitExact` | core/include/logstream.h:41-51 | it may stop inside the first write if and only if the bytes written or the bytes left are the same in both records |
| `LogImages.FirstCommitTears` | core/include/logstream.h:41-51 | a concrete commit that leaves neither record |
| `LogRings.CtrlValidMeans` | core/include/logstream.h:96-105 | the tail is `elem` places after the head modulo the size, and the cursor never passes the records |
| `LogRings.CapacityHasRoom` | core/include/logstream.h:102 | every slot the ring counts lies inside the device |
| `LogRings.InsertedValid` | core/include/logstream.h:89-105 | an insertion keeps the ring consistent; the assertion before the write holds |
| `LogRings.TailWrite` | core/include/logstream.h:102-103 | writing a record, or part of it, damages at most the oldest record of a full ring |
| `LogRings.InsertedRecords` | core/include/logstream.h:89-105 | after an insertion the log is the old one, without its oldest record if it was full, and the new record |
| `LogRings.InsertedUnread` | core/include/logstream.h:96-98 | the cursor keeps naming the same record unless that one was overwritten |
| `LogRings.InsertCrash` | core/include/logstream.h:84-112 | an insertion may stop after any byte: the old log, damaged at most in the oldest record of a full ring, or exactly the new one |
| `LogRings.FirstInsertCrash` | core/include/logstream.h:84-112 | the first insertion after a fresh header may stop before or after the write of its control record: the old log or exactly the new one |
| `MemBlocks.PlayedTwice` | core/drivers/memblock.c:53-68 | writes in two parts amount to all of them |
| `MemBlocks.CrashNever` | core/drivers/memblock.c:53-68 | stopping after the last byte is not stopping at all |
| `MemBlocks.MemBlock.Read` | core/drivers/memblock.c:29-51 | the bytes at the position, cut at the end of the block; the position moves on |
| `MemBlocks.MemBlock.Write` | core/drivers/memblock.c:53-68 | exactly the bytes that fit are replaced; the position moves on |
| `MemBlocks.MemBlock.Seek` | core/drivers/memblock.c:70-89 | the position asked for, in 32-bit arithmetic, cut to the block |
| `LogStreams.AfterCommit` | core/include/logstream.h:41-51 | a commit puts the control record in force and changes no record |
| `LogStreams.FreshHeaderHasLog` | core/include/logstream.h:74-81 | a fresh header describes an empty log |
| `LogStreams.InsertReports` | core/include/logstream.h:84-112 | 0, 1 and -1 mean that there was room, that the oldest record gave way, and that a full log was locked |
| `LogStreams.DestinationIsNearest` | core/include/logstream.h:135-158 | a seek goes as near as the log allows to the place asked for, counted from the start, the cursor or the end |
| `LogStreams.SeekThenPending` | core/include/logstream.h:135-158 | seeking from the start or the end leaves just those records to be read again |
| `LogStreams.WriteAt` | core/include/logstream.h:44-47 | a seek and a write, which the device never cuts short |
| `LogStreams.LogStream.Init` | core/include/logstream.h:53-82 | the stream is the log that the block holds, or an empty one with a fresh header |
| `LogStreams.LogStream.RestartFinds` | core/include/logstream.h:63-71 | between operations a restart would find the log as it is |
| `LogStreams.LogStream.Commit` | core/include/logstream.h:41-51 | the device holds the control record; exactly two writes were made, and the next commit spares the copy in force |
| `LogStreams.LogStream.Insert` | core/include/logstream.h:84-112 | the log becomes what inserting into a bounded log gives, with the code's result, and exactly the writes of an insertion were made |
| `LogStreams.LogStream.Get` | core/include/logstream.h:114-128 | the record at the cursor, read in full from the device, and the cursor moves on |
| `LogStreams.LogStream.Seek` | core/include/logstream.h:135-158 | the cursor goes where asked, limited to the log, and that place is returned |
| `LogStreams.LogStream.Lock` | core/include/logstream.h:160-164 | overwriting is forbidden, nothing else changes |
| `LogStreams.LogStream.Unlock` | core/include/logstream.h:166-170 | overwriting is allowed again |
| `LogRuns.InsertRestart` | core/include/logstream.h:53-112 | a restart after an interrupted insertion finds the old log, damaged at most in the oldest record of a full ring, or exactly the new one |
| `LogRuns.FirstInsertRestart` | core/include/logstream.h:53-112 | the same for the first insertion after a fresh header, stopped anywhere but inside the write of its control record |
| `LogRuns.InsertAnywhere` | core/include/logstream.h:53-112 | this covers the writes of every insertion of every stream; only the first one after a fresh header must not stop inside the write of its control record |
| `LogRuns.CursorRestart` | core/include/logstream.h:53-158 | a restart after an interrupted read or seek finds every record and one of the two cursors |
| `LogRuns.Run` | core/include/logstream.h:84-170 | over any run the stream behaves like the bounded log it holds, and once a commit spares the control record in force every later one does |
| `LogRuns.Perform` | core/include/logstream.h:84-170 | each operation of the stream is the one of the bounded log |
| `LogRuns.StaysValid` | core/include/logstream.h:84-158 | the cursor and the records stay within bounds over any run |
| `LogRuns.HoldsMostRecent` | core/include/logstream.h:84-112 | a log that is never locked holds exactly the most recent records |
| `LogRuns.LockedKeeps` | core/include/logstream.h:90-94 | a locked log loses nothing |
| `LogRuns.LockedHoldsFirst` | core/include/logstream.h:90-94 | a locked log takes records as long as there is room, and so holds the first ones |
| `LogRuns.ReadsSeek` | core/include/logstream.h:114-158 | reading n records moves the cursor where a relative seek by n does, and returns those records |
| `LogRuns.ReadInOrder` | core/include/logstream.h:114-128 | if nothing is refused or overwritten unread, readers get what was inserted, in order, and the rest is still to be read |
| `WordCopy.MergeBytes` | core/include/stdc.h:112-125 | the word arithmetic replaces one byte and keeps three, in both byte orders |
| `WordCopy.WordBytes` | core/include/stdc.h:112-118 | the bytes of a word are those at its four addresses |
| `WordCopy.MergedWord` | core/include/stdc.h:112-125 | the word written is the destination word with the source byte in it |
| `WordCopy.CopyByte` | core/include/stdc.h:112-126 | one iteration changes exactly one byte of memory |
| `WordCopy.UnalignMemcpy` | core/include/stdc.h:107-128 | for all alignments, sizes, overlaps and both byte orders the memory is that of a forward byte copy |
| `WordCopy.ForwardCopyBytes` | core/include/stdc.h:107-128 | no byte outside the destination changes, and what each byte inside becomes, overlaps included |

## Left out

- Expression nodes on the heap: the optimiser rewrites nodes in place through the addresses of slots; here a tree is a value and a slot is a path from its root, and two slots hold the same node exactly when the paths are equal. Sharing between separate expressions and memory leaks are not modelled.
- Symbol flags: SYMBOL_CHECK, SYMBOL_CHECKED and SYMBOL_VALID are the sets of symbols that carry them.
- Choice groups, integer, hexadecimal and string symbols, ranges, environment symbols, and changes of `modules_val` while symbols are being evaluated.
- Valuations: only well-typed ones are considered, with texts that agree with tristates for bool and tristate symbols; a symbol without a type may have any text.
- The properties of an entry beside its prompt, such as defaults, whose conditions are treated like the prompt's (menu.c:237-249), and the selections added to reverse dependencies (menu.c:245-248).
- KconfigReorder.ExprEqExact: with y or n as operands only `ExprEqSound` is claimed; `GreedyFails` shows that a reordering can be missed there.
- KconfigExact.Dups2Exact: where something is cancelled within an operand but nothing on the chain itself, only one direction is claimed (`Dups2Keeps`: a value other than m is kept), since whether an operand that was m shows in the value of the chain depends on the other operands.
- LogStreams.LogStream.Init: a recognised header must point at one of its two control records, and that record must make sense; the code reads it unchecked, beyond the array if the index is greater than 1.
- LogStreams.LogStream.Seek: the sum of offset and position is not wrapped around at 32 bits, which C leaves undefined.
- LogRuns.InsertAnywhere: the first insertion after a fresh header stopped inside the write of its control record, for which `LogImages.FirstCommitExact` says exactly when it is safe.
- Scheduler.SchedData.SwitchSchedPlan: the request is recorded on one processor, and the requested plan is one of its own.
- Channels.Channel.Send: ports, permissions, bitmaps and notifications are left out.
- Channels.Channel.Receive: likewise.
- The idle plan: a plan with major frame 0 never returns from the switch; plans have positive major frames, and slots in order, disjoint and inside the frame, as the configuration promises.
- Kthread flags: which threads are ready is an arbitrary set at each scheduling point. Context switches change the running thread; interrupt masks are left out.
- Times: unbounded integers, except where 32 bits are at issue; the clock does not move during one call.
- Timer actions: they are counted, and do not arm timers themselves. `disarm_vtimer` is left out.
- KTIMER lists: a queue of timers is a sequence of values, which the list operations above would maintain.
- Message buffers: sequences, replaced as a whole. Ports without a channel and sampling ports are left out.
- Locks and preemption points are left out: each operation is one step.
- The log lock is read from the header and never written back, so a restart finds the header's setting; `InsertRestart` compares logs without it.
- A log stream without a device, for which all device calls fail, and memory blocks of 2 GiB or more.
- Record slots: `LogStream.Append` computes the new control record beside the stream and stores it at the end, where the code updates its fields one by one around the write.
- Console, drivers, memory management, virtualisation of interrupts, and everything specific to one architecture.
