# Interval analysis of LLVM IR, in Dafny

This project models the core of a small abstract interpreter for LLVM IR. It
computes, for every basic block of a function, an interval `[low, high]` for
each integer variable.

The model has these parts:

- **The interval lattice the analyzer uses** (module `Intervals`).
  - Bounds are `MInf | Endpoint(n) | Inf`. Intervals are `Bot | Range(lbound, ubound)`.
  - It defines the order, join, widening and narrowing.
  - It defines the abstract `+`, `-`, `*` and signed less-than.
  - Each operation is proved sound against `Contains`. `Contains` gives the set of integers an interval stands for.
- **The older copy of the lattice** (`LegacyIntervals`), and a comparison of the two (`IntervalVersions`). The two copies agree on order, join and narrowing. Their widenings differ in exactly the cases `IntervalVersions.WidenDifference` names.
- **Abstract states** (`States`, `LegacyStates`).
  - A state is a map from variable name to interval. An unbound name reads as Bot.
  - `State` is the object the transfer function updates in place.
  - The point-wise order, join, widening and narrowing are functions on the bindings.
- **The transfer function** (`Semantics`).
  - Instructions are a small datatype: add, sub, mul, icmp, phi, and "unsupported".
  - The pure specifications are `InstEffect` and `BlockEffect`.
  - The in-place methods on a `State` are proved equal to them.
  - A concrete semantics (`Exec`, `ExecBlock`) is the reference. In it, an unsupported instruction with a result binds that result to any value.
  - Soundness is proved against it for blocks of tracked instructions. An instruction is tracked when it is supported or defines no value.
  - `Exec` computes on unbounded integers, so soundness covers only runs in which no add, sub or mul leaves the operand width (see "## Left out").
  - Blocks with an unsupported instruction that defines a value are not covered: the analysis leaves that value unbound, so a later read of it gets Bot. `Semantics.UntrackedResultUnsound` exhibits a run the abstract state does not cover.
- **The analysis table** (`Tables`) and **the worklist** (`Worklists`). Both are classes over a `map` or `seq` field.
- **The solver** (`Fixpoint`).
  - `InputOf` builds a block's input state. `AnalyzeStep` is the worklist loop. `Analyze` runs a widening phase, then a narrowing phase.
  - `InputOf` is proved equal to the function `Input`, `AnalyzeStep` to a run of `Iterate`, and `Analyze` to `Analysis`.
  - Lemmas then state what each iteration does.

A few panics are modelled as preconditions:

- `InterPlus` and `InterMinus` assert that certain bounds are finite. In the model that becomes `PlusDefined`/`MinusDefined`.
- `WellBounded` (low bound not +inf, high bound not -inf) implies those preconditions. Every state the transfer function and the solver build keeps all of its intervals well bounded (`ValidState`, `ValidTable`). So the solver never reaches those panics.

The model follows the code as written, including these behaviours:

- An icmp whose predicate is not signed-less-than binds its result to Top. It is not treated as unsupported.
- `AnalyzeStep` stores the new state and pushes every successor whether or not anything changed.
- `StateNarrow` copies a name that is bound only in the second state unchanged.
- `InterRange` does not check that low ≤ high.
- An unsupported instruction leaves its result name unbound, so the name reads as Bot.

## Model

| member | source | states |
|---|---|---|
| Intervals.EPSLEIsTotalOrder | pkg/domain/interval.go:26-49 | EPSLE is reflexive, antisymmetric, transitive and total. -inf is the least bound and +inf the greatest. Finite bounds compare by value. |
| Intervals.EPSLETrans | pkg/domain/interval.go:26-49 | EPSLE is transitive. |
| Intervals.EPSLTCharacterization | pkg/domain/interval.go:51-74 | EPSLT is strict EPSLE, except that -inf < -inf and +inf < +inf also hold. Its negation is EPSLE in the other direction, away from those two cases. |
| Intervals.EPMult | pkg/domain/interval.go:76-132 | A finite times a finite bound is the product. An infinity times a finite zero is 0. Otherwise the result is the infinity whose sign is the product of the signs. |
| Intervals.EPMultCommutes | pkg/domain/interval.go:76-132 | EPMult is commutative, and the sign of its result is the product of the operands' signs. |
| Intervals.InterBot | pkg/domain/interval.go:148 | Bot contains no integer and is below every interval. |
| Intervals.InterRange | pkg/domain/interval.go:149-158 | The range is not Bot, and it contains exactly the integers between its two bounds. |
| Intervals.InterTop | pkg/domain/interval.go:159-161 | Top contains every integer, is above every interval, and is well bounded. |
| Intervals.InterOrderIsPartialOrder | pkg/domain/interval.go:164-180 | InterOrder is reflexive, antisymmetric and transitive. Bot is below everything and a range is never below Bot. Ranges compare by containment of their bounds. |
| Intervals.InterOrderSound | pkg/domain/interval.go:164-180 | An interval below another contains only integers the other contains. |
| Intervals.InterJoin | pkg/domain/interval.go:183-206 | The join is above both operands. It returns the subsuming operand when there is one, and it preserves well-boundedness. |
| Intervals.InterJoinLeast | pkg/domain/interval.go:183-206 | The join is below every common upper bound of its operands. |
| Intervals.InterJoinCommAssoc | pkg/domain/interval.go:183-206 | The join is commutative and associative. |
| Intervals.InterWiden | pkg/domain/interval.go:208-235 | Bot is an identity on both sides. The result is above both operands, and each of its bounds is the first operand's bound or an infinity. For a well-bounded first range, a bound is kept iff it is not beyond the new bound. |
| Intervals.InterWidenSelf | pkg/domain/interval.go:208-235 | Widening a well-bounded interval with itself gives it back. |
| Intervals.InterWidenQuirk | pkg/domain/interval.go:218-230 | Because +inf < +inf holds, widening [+inf, +inf] with itself gives [-inf, +inf]. |
| Intervals.InterNarrow | pkg/domain/interval.go:237-264 | The result is Bot when either side is Bot. Otherwise it keeps the first operand's finite bounds and takes the second's bounds where the first's are infinite. The result is below the first operand, and above the second when the second is below the first. |
| Intervals.WellBoundedDefined | pkg/domain/interval.go:267-331 | On well-bounded operands, addition and subtraction never reach the panicking bound assertions. |
| Intervals.InterPlus | pkg/domain/interval.go:267-298 | The sum is Bot iff an operand is Bot, and it preserves well-boundedness. |
| Intervals.PlusSound | pkg/domain/interval.go:267-298 | If x is in i1 and y is in i2, the sum is defined and contains x + y. |
| Intervals.InterMinus | pkg/domain/interval.go:300-331 | The difference is Bot iff an operand is Bot, and it preserves well-boundedness. |
| Intervals.MinusSound | pkg/domain/interval.go:300-331 | If x is in i1 and y is in i2, the difference is defined and contains x - y. |
| Intervals.PlusExact | pkg/domain/interval.go:280-294 | On two non-empty operands, z is in the sum iff z = x + y for some x in i1 and y in i2. |
| Intervals.MinusExact | pkg/domain/interval.go:313-327 | On two non-empty operands, z is in the difference iff z = x - y for some x in i1 and y in i2. |
| Intervals.MinMax | pkg/domain/interval.go:352-361 | The fold returns a lower and an upper bound of all the given bounds and of its seeds, each of them one of those. |
| Intervals.InterMult | pkg/domain/interval.go:333-366 | The product is Bot iff an operand is Bot. Otherwise its bounds are the least and greatest of the four corner products. It preserves well-boundedness. |
| Intervals.CornersWellBounded | pkg/domain/interval.go:344-349 | For well-bounded ranges, not every corner is +inf and not every corner is -inf. |
| Intervals.FactorBelow | pkg/domain/interval.go:76-132 | For p <= y, multiplying both by a bound e keeps the order when e >= 0 and reverses it when e < 0. |
| Intervals.FactorAbove | pkg/domain/interval.go:76-132 | For y <= q, multiplying both by a bound e keeps the order when e >= 0 and reverses it when e < 0. |
| Intervals.FactorBracket | pkg/domain/interval.go:76-132 | For p <= y <= q, the product of e with y lies between its products with p and q, in the order given by the sign of e. |
| Intervals.ScaleBracket | pkg/domain/interval.go:76-132 | For p <= x <= q, multiplying by a finite y brackets x * y between the scaled bounds, in the order given by the sign of y. |
| Intervals.CornersBracket | pkg/domain/interval.go:344-349 | For x in i1 and y in i2, some corner is at most x * y and some corner is at least x * y. |
| Intervals.MultSound | pkg/domain/interval.go:333-366 | If x is in i1 and y is in i2, the product contains x * y. |
| Intervals.InterSLT | pkg/domain/interval.go:368-390 | The result is Bot iff an operand is Bot. For two ranges it is [1,1] iff i1's high bound is EPSLT i2's low bound, [0,0] iff that fails and i2's high bound is EPSLT i1's low bound, and Top otherwise. |
| Intervals.SLTDecision | pkg/domain/interval.go:380-386 | On ranges that hold values, the result is [1,1] iff every value of i1 is below every value of i2, and [0,0] iff every value of i2 is below every value of i1. |
| Intervals.SomeBelowSome | pkg/domain/interval.go:380 | On ranges that hold values, EPSLT of i1's high bound and i2's low bound holds iff every value of i1 is below every value of i2. |
| Intervals.ContainsWellBounded | pkg/domain/interval.go:267-331 | A range that holds a value is well bounded. |
| Intervals.SLTSound | pkg/domain/interval.go:368-390 | For x in i1 and y in i2, the result contains 1 if x < y and 0 otherwise. |
| LegacyIntervals.EPTop | domain/interval.go:24 | EPTop is above every bound. |
| LegacyIntervals.EPBot | domain/interval.go:25 | EPBot is below every bound. |
| LegacyIntervals.EPVal | domain/interval.go:26 | A finite bound lies strictly between EPBot and EPTop. |
| LegacyIntervals.EPValOrder | domain/interval.go:28-51 | Finite bounds compare as their integers do. |
| LegacyIntervals.EPOrderIsTotalOrder | domain/interval.go:28-51 | EPOrder is reflexive, antisymmetric, transitive and total. |
| LegacyIntervals.InterBot | domain/interval.go:70 | Bot is below every interval. |
| LegacyIntervals.InterRange | domain/interval.go:71-73 | The range has exactly the given bounds, with no check on their order. |
| LegacyIntervals.InterTop | domain/interval.go:74-76 | Top is [EPBot, EPTop] = [-inf, +inf] and is above every interval. |
| LegacyIntervals.InterOrderIsPartialOrder | domain/interval.go:79-95 | InterOrder is a partial order. Bot is below everything, a range is never below Bot, and ranges compare by containment. |
| LegacyIntervals.InterJoin | domain/interval.go:98-121 | The join is above both operands, and it returns the subsuming operand when there is one. |
| LegacyIntervals.InterWiden | domain/interval.go:123-150 | Bot is an identity. The low bound is kept iff it is at most the new one, else it becomes -inf. The high bound becomes +inf whenever it is at most the new one, equality included. |
| LegacyIntervals.InterWidenEqualHigh | domain/interval.go:141-145 | Widening a range with a finite high bound by itself sends that bound to +inf. |
| LegacyIntervals.InterNarrow | domain/interval.go:152-179 | The result is Bot if either side is Bot. Otherwise only the first operand's infinite bounds are replaced by the second's. It is below the first operand. |
| IntervalVersions.LiftInjective | domain/interval.go:10-62 | Distinct intervals of the older copy stay distinct in the current one. |
| IntervalVersions.OrdersAgree | domain/interval.go:28-95 | The older EPOrder and InterOrder coincide with the current EPSLE and InterOrder. |
| IntervalVersions.JoinNarrowAgree | domain/interval.go:98-179 | The two copies compute the same join and the same narrowing. |
| IntervalVersions.WidenDifference | domain/interval.go:123-150 | The two widenings agree exactly when the operands do not both have the same finite high bound or both have the low bound +inf. |
| IntervalVersions.WidenExample | domain/interval.go:141-145 | Widening [0,5] with [0,5] gives [0,+inf] in the older copy and [0,5] in the current one. |
| States.LookupAfterBind | pkg/domain/state.go:23-33 | After binding x to v, x reads v and every other name reads as before. |
| States.State.constructor | pkg/domain/state.go:8-10 | EmptyState has no bindings. |
| States.State.Bind | pkg/domain/state.go:23-25 | Binding x to v overwrites x and leaves every other name unchanged. |
| States.State.Find | pkg/domain/state.go:27-33 | A bound name reads its binding, and an unbound name reads Bot. |
| States.StateOrderPointwise | pkg/domain/state.go:36-47 | StateOrder holds iff every name's value in the first state is below its value in the second. |
| States.StateOrderIsPreorder | pkg/domain/state.go:36-47 | StateOrder is reflexive and transitive, and the empty state is below every state. |
| States.StateOrderTrans | pkg/domain/state.go:36-47 | StateOrder is transitive. |
| States.StateOrderSound | pkg/domain/state.go:36-47 | Ordered states stand for ordered sets of values, name by name. |
| States.StateJoin | pkg/domain/state.go:50-63 | The keys are the union of both key sets. Every name reads the join of its two values. Validity is preserved. |
| States.StateJoinIsLub | pkg/domain/state.go:50-63 | The join of two states is their least upper bound. |
| States.StateOrderIntoJoin | pkg/domain/state.go:50-63 | A state below the first operand of a join is below the join. |
| States.StateWiden | pkg/domain/state.go:65-78 | The keys are the union of both key sets. Every name reads the widening of its two values. Validity is preserved. |
| States.StateWidenUpper | pkg/domain/state.go:65-78 | The widened state is above both operands. |
| States.StateNarrow | pkg/domain/state.go:80-93 | The keys are the union of both key sets. A name bound in s1 gets the narrowing of its two values. A name bound only in s2 is copied. Validity is preserved. |
| States.StateNarrowBetween | pkg/domain/state.go:80-93 | When s2 is below s1, the narrowed state lies between s2 and s1. |
| States.StateNarrowCopies | pkg/domain/state.go:82-84 | A name bound only in s2 keeps its value, where point-wise narrowing against Bot would give Bot. |
| LegacyStates.State.constructor | domain/state.go:8-10 | EmptyState has no bindings. |
| LegacyStates.State.Bind | domain/state.go:23-25 | Binding overwrites x and leaves every other name unchanged. |
| LegacyStates.State.Find | domain/state.go:27-33 | A bound name reads its binding, and an unbound name reads Bot. |
| Tables.FindInAfterBind | domain/table.go:27-34 | After binding n, n reads the new state and every other block reads as before. |
| Tables.Table.constructor | domain/table.go:14-16 | NewTable has no entries. |
| Tables.Table.Bind | domain/table.go:27 | Binding n stores s for n and leaves every other entry unchanged. |
| Tables.Table.Find | domain/table.go:28-34 | A block with an entry reads it, and a block without one reads the empty state. |
| Worklists.Worklist.constructor | internal/analyzer/worklist.go:31-33 | NewWorklist is empty. |
| Worklists.Worklist.IsEmpty | internal/analyzer/worklist.go:9-11 | Holds iff no block is pending. |
| Worklists.Worklist.Add | internal/analyzer/worklist.go:13-15 | Appends exactly one node at the end, with no de-duplication. |
| Worklists.Worklist.AddSet | internal/analyzer/worklist.go:16-20 | Appends all the nodes, in order. |
| Worklists.Worklist.Choose | internal/analyzer/worklist.go:22-29 | On a non-empty worklist, returns the last node and removes only that node. |
| Worklists.AddThenChoose | internal/analyzer/worklist.go:13-29 | Add followed by Choose gives back the added node and restores the worklist. |
| Semantics.EvalArgument | pkg/domain/semantics.go:12-22 | A constant c evaluates to exactly {c}. A local evaluates to its value in the state, Bot if unbound. |
| Semantics.EvalArgumentSound | pkg/domain/semantics.go:12-22 | An operand's abstract value contains its concrete value in any environment the state models. |
| Semantics.PhiJoin | pkg/domain/semantics.go:57-64 | The join of the incoming values read in a state of well-bounded intervals is well bounded. |
| Semantics.PhiJoinIsLub | pkg/domain/semantics.go:57-64 | The phi value is Bot with no incoming values. Otherwise it is the least interval above every incoming value. |
| Semantics.InstEffect | pkg/domain/semantics.go:66-81 | Every instruction maps a valid state to a valid state. |
| Semantics.InstSound | pkg/domain/semantics.go:24-81 | For a tracked instruction, if the state models an environment, the new state models every environment that executing the instruction can produce. |
| Semantics.BlockFrame | pkg/domain/semantics.go:83-87 | A block binds only names that were bound before or that its supported instructions define. Every other name keeps its value. |
| Semantics.BlockSound | pkg/domain/semantics.go:83-87 | For a block of tracked instructions, if the state models the first environment of an execution trace, the block's effect models the last one. |
| Semantics.UntrackedResultUnsound | pkg/domain/semantics.go:78-79 | With t = a sdiv 2 unsupported and u = t + 1, a run from a = 4 is modelled at the start but not at the end: u reads Bot. |
| Semantics.ConstantFold | pkg/domain/semantics.go:24-29 | a = 3 + 4 gives a the interval [7, 7]. |
| Semantics.StraightLineAdd | pkg/domain/semantics.go:24-29 | Adding a constant to an unconstrained name gives an unconstrained result. |
| Semantics.PhiMerge | pkg/domain/semantics.go:57-64 | A phi of [1,1] and [5,5] binds [1,5]. |
| Semantics.TransferInstAdd | pkg/domain/semantics.go:24-29 | Binds the result name to the abstract sum of the operands and changes nothing else. |
| Semantics.TransferInstSub | pkg/domain/semantics.go:31-36 | Binds the result name to the abstract difference of the operands and changes nothing else. |
| Semantics.TransferInstMul | pkg/domain/semantics.go:38-43 | Binds the result name to the abstract product of the operands and changes nothing else. |
| Semantics.TransferInstICmp | pkg/domain/semantics.go:45-55 | Binds InterSLT of the operands for signed-less-than, and Top for every other predicate. |
| Semantics.TransferInstPhi | pkg/domain/semantics.go:57-64 | Binds the join, from Bot, of the incoming values, in order. |
| Semantics.TransferInst | pkg/domain/semantics.go:66-81 | Updates the state to InstEffect of the old state. An unsupported instruction leaves it unchanged. |
| Semantics.BlockEffect | pkg/domain/semantics.go:83-87 | Applying the instructions in order to a state of well-bounded intervals gives such a state again. |
| Semantics.TransferBlock | pkg/domain/semantics.go:83-87 | Updates the state to BlockEffect of the old state, applying the instructions in order. |
| Fixpoint.BindParamsExact | internal/analyzer/fixpoint.go:8-13 | Binding the parameters binds exactly the parameters, each to Top. |
| Fixpoint.JoinPredsUpper | internal/analyzer/fixpoint.go:15-19 | The joined input is above every predecessor's table entry. A missing entry counts as the empty state. |
| Fixpoint.JoinPredsLeast | internal/analyzer/fixpoint.go:15-19 | The joined input is below every state that is above all the predecessors' entries. |
| Fixpoint.InputAtEntry | internal/analyzer/fixpoint.go:8-13 | The entry block's input has exactly the parameters as keys, each Top. |
| Fixpoint.InputOf | internal/analyzer/fixpoint.go:7-21 | Returns a fresh state equal to Input: the parameters bound to Top at the entry, else the join of the predecessors' entries. |
| Fixpoint.Step | internal/analyzer/fixpoint.go:27-38 | One iteration keeps every table entry valid. |
| Fixpoint.Iterate | internal/analyzer/fixpoint.go:26-39 | A run of iterations keeps every table entry valid. |
| Fixpoint.StepChangesOnlyHere | internal/analyzer/fixpoint.go:27-38 | An iteration changes only the popped block's entry, to the old entry widened (or narrowed) with the transfer of its input. It replaces the popped block by all of its successors. |
| Fixpoint.WidenStepAscends | internal/analyzer/fixpoint.go:33-34 | In the widening phase, no entry shrinks, and the new entry subsumes the transferred state. |
| Fixpoint.WidenRunAscends | internal/analyzer/fixpoint.go:26-39 | Over a whole widening run, every table entry only grows. |
| Fixpoint.NarrowStepBetween | internal/analyzer/fixpoint.go:36-37 | In the narrowing phase, when the transferred state is below the old entry, the new entry lies between them. |
| Fixpoint.CycleNeverFinishes | internal/analyzer/fixpoint.go:26-38 | Once some pending block lies in a set where every block has a successor in the set (any loop, exit edges allowed), the worklist never empties, whatever the fuel. |
| Fixpoint.LoopNeverFinishes | internal/analyzer/fixpoint.go:42-49 | If some block of the function lies on a cycle, the analysis never finishes, whatever the fuel. |
| Fixpoint.CountingLoopNeverFinishes | internal/analyzer/fixpoint.go:42-49 | For a loop block with a back edge to itself and an exit edge, the analysis does not finish for any fuel. |
| Fixpoint.AnalyzeStep | internal/analyzer/fixpoint.go:23-40 | Starting with every block pending, the table ends as the given number of iterations leaves it. The result says whether the worklist emptied. |
| Fixpoint.Analyze | internal/analyzer/fixpoint.go:42-49 | Starting from a fresh empty table, runs the widening phase. If that phase ends, runs the narrowing phase on the same table. |
| Fixpoint.Input | internal/analyzer/fixpoint.go:7-21 | The input state (parameters at Top on the entry block, else the join of the predecessors' entries) keeps every interval well bounded when the table does. |
| Fixpoint.Analysis | internal/analyzer/fixpoint.go:42-49 | The table after the widening phase and then the narrowing phase holds only well-bounded intervals. |
| Fixpoint.StraightLineAnalysis | internal/analyzer/fixpoint.go:42-49 | For a function with parameter x and one block y = x + 5, both phases end, with x and y unconstrained. |

## Left out

- The command-line program (cmd/main.go) is not part of this model: argument handling, parsing LLVM IR and printing the results.
- The `String` methods of bounds, intervals, states and tables are not modelled. They are formatting only.
- The notice that `transferInst` prints for an unsupported instruction is not modelled. Only "the state is unchanged" is kept.
- The LLVM IR library types are replaced by small datatypes:
  - instructions become `Inst`;
  - operands become `Operand`;
  - predicates become `IPred`;
  - blocks become `Node`, an index.
- The control-flow graph is taken as an input (`Cfg`), because building it is outside the analyzer. This covers the block order, the entry, predecessors, successors, parameters and each block's code.
- Go `int` overflow is not modelled: bounds are mathematical integers. The same goes for the conversion of a constant operand to a machine integer.
- The concrete semantics `Exec` computes add, sub and mul on unbounded integers, whereas LLVM wraps at the operand width (`add i32` of 2147483647 and 1 gives -2147483648, outside the interval [2147483648, 2147483648] the analysis computes). So `Semantics.InstSound` and `Semantics.BlockSound` say nothing about runs that overflow; on those the analysis itself is unsound.
- The panic in `InterRange` for a bound that is not an endpoint is not modelled. Bounds are a datatype, so that case cannot arise.
- The panics on the type assertions in `InterPlus` and `InterMinus` are modelled as the preconditions `PlusDefined` and `MinusDefined`, not as a crash.
- Worklists.Worklist.Choose: the panic on an empty worklist is modelled as a precondition. The loop guard rules that case out.
- Fixpoint.AnalyzeStep: the loop is bounded by a fuel parameter. Successors are pushed unconditionally, so the loop as written need not end. `CycleNeverFinishes` and `LoopNeverFinishes` prove that it never ends on a function with a loop.
- Fixpoint.Analyze: each phase is bounded by fuel. When the widening phase does not end within its fuel, the narrowing phase is not run. This stands for the source never reaching it.
- Intervals.InterMult: the loop over the four corner products is written as the recursive fold `MinMax`, not as a loop.
- The table of the older domain (domain/table.go) is modelled generically over the interval type. The solver uses it with the current intervals, because that is the domain it imports.
- `StateOrder`, `StateJoin`, `StateWiden` and `StateNarrow` fill a fresh map in a loop over the Go maps. They are modelled as map comprehensions, since the order of map iteration does not affect their result.
- Semantics.InstSound: holds only for tracked instructions. The analysis does not bind the result of an unsupported instruction that defines a value, so the source is not sound for code that reads one (`UntrackedResultUnsound`).
- Semantics.BlockSound: holds only for blocks whose instructions are all tracked, for the same reason.
