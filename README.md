# sweeterthancady core, modelled in Dafny

This project models the rewrite-and-scheduling core of sweeterthancady, a C++ engine for symbolic differentiation and code generation. The engine works over an expression DAG of shared operator nodes. The model covers:

- **Constant folding.** `Transform::FoldZero::Fold` (include/Cady/Transform.h) is a post-order simplifier. It applies the local identities of `+`, `-`, `*`, `/`, `^` and unary minus, and it raises a static divide-by-zero error.
- **Binding passes** (driver.cpp):
  - `RemoveEndgenousFolder` inlines every named binding and rebinds children in place;
  - `RemoveEndo` does the same by cloning;
  - `RemapUnique` does common-subexpression elimination. Its table is keyed by node label and child identity, and each new non-trivial node is wrapped in a fresh binding named `prefix + (table size + 1)`.
- **The dependency graph** (`DataFlow` / `DataFlowGraph`, driver.cpp):
  - `Add` appends a statement, indexes it and links it to the statements it reads;
  - `EmitInstructions` emits forward code;
  - `EmitADInstructions` emits reverse-mode (adjoint) code, walking the statements backwards;
  - `CollectADFlow` collects the adjoint bindings.
- **Post-order statement collection** (driver.cpp:422-453). This is an explicit-stack depth-first search under a 1000-turn budget.

## How the model is built

**Expression values.** `Syntax.Expr` is the value a node denotes once its shared children are expanded:

- `Constant(real)`
- `Exo(name)`, a free symbol
- `Endo(name, body)`, a named binding
- `Neg`
- `Bin(op, l, r)`
- `Fn(kind, arg)`

**Value-level reference functions.**
- `Syntax.Inline` is the result of both binding-removal passes.
- `Folding.Fold` is `FoldZero::Fold` as a function on values, returning `Ok(e)` or `Err(DivideByZero)`.

**Node identity.** `Heap.Arena` holds the nodes, addressed by integer handles.
- Shared nodes, `Operator::Rebind` and `std::make_shared` become operations on this arena.
- A ghost rank that falls from parent to child witnesses that the arena is a DAG.
- `Heap.Tree` reads back the value a handle denotes.
- The imperative passes are methods on the arena. Each is proved against the value-level function it implements:
  - `Transform.FoldZero` against `Fold`;
  - `Passes.RemoveEndgenousFolder` and `Passes.RemoveEndo` against `Inline`;
  - `Remap.RemapUnique.Apply` against `Inline`, with a sound table and one canonical node per value seen (a ghost map `canon`).

**The graph.** `Flows.Flow` is a `DataFlow`: its binding, plus its parents and children as positions in `rank_`. `DataFlowGraphs.DataFlowGraph` is a class whose fields are `rank_` and `index_`. Its methods are proved against value-level functions:

- `Added`, `LinkAll` and `Resolve` for `Add`;
- `ForwardCode` for `EmitInstructions`;
- `ADSweep`, `ADStep` and `Segment` for `EmitADInstructions`;
- `ADFlow` for `CollectADFlow`.

**Differentiation.**
- `Operator::Diff`, `Operator::EmitCode` and `std::pow` are function parameters: `DiffFn`, `RenderFn` and `PowFn`.
- Numbers are `real`. Division, power and the elementary functions are read through an `Interp` parameter when meaning is at stake.

**Two behaviours of the code that the model follows as written.**
- **Shared nodes are mutated in place.** Two rewrite passes rebind the children of a node without cloning it first, so every other owner of that node sees the change:
  - `RemoveEndgenousFolder::Fold` (driver.cpp:542-547);
  - the generic branch of `FoldZero::Fold` (include/Cady/Transform.h:125-130).

  The model rebinds in place. It proves what every other owner of a node then sees: the node keeps its inlined or folded value. A node that is already free of bindings is not changed at all by `RemoveEndgenousFolder`. A node that is already folded keeps the same value under `FoldZero`, although a binding or function node may have its child rebound to a fresh copy (include/Cady/Transform.h:105-108, 127-128).
- **Which adjoints are seeded with 1.** Every statement that no other statement reads gets the adjoint 1 (driver.cpp:824-828), and the forward code returns every such statement (driver.cpp:808-816).

## Model

| member | source | states |
|---|---|---|
| Syntax.Inline | driver.cpp:535-551 | the result of inlining contains no binding anywhere |
| Syntax.InlineFixesBindingFree | driver.cpp:542-550 | inlining leaves an expression without bindings exactly as it is |
| Syntax.InlineIdempotent | driver.cpp:535-551 | inlining twice is inlining once |
| Syntax.InlinePreservesEval | driver.cpp:537-540 | inlining a binding never changes the value an expression denotes |
| Folding.Fold | include/Cady/Transform.h:11-132 | a successful fold never makes the expression larger |
| Folding.FoldNormal | include/Cady/Transform.h:11-132 | every successful fold ends in normal form: at no node does any identity apply |
| Folding.FoldFixesFolded | include/Cady/Transform.h:11-132 | folding an expression in normal form succeeds and returns it unchanged |
| Folding.FoldIdempotent | include/Cady/Transform.h:11-132 | `Fold(Fold(e)) == Fold(e)` whenever the first fold succeeds |
| Folding.FoldBinaryShape | include/Cady/Transform.h:22-103 | the identities of a binary node fail exactly on a non-zero numerator over a zero denominator, and never build a larger node |
| Folding.FoldFailsOnlyAtDivision | include/Cady/Transform.h:70-80 | a division-free expression always folds, and its fold is division-free; the divide-by-zero error comes only from a division |
| Folding.FoldPropagatesErrors | include/Cady/Transform.h:15-16 | an error in the left operand is the error of the whole node; the right operand's error counts only when the left folds |
| Folding.FoldAddRules | include/Cady/Transform.h:24-40 | two constants add up; a zero on either side gives the other folded operand; otherwise a fresh `+` node over the folded operands |
| Folding.FoldSubRules | include/Cady/Transform.h:41-58 | two constants subtract; a zero right operand gives the left; a zero left over a non-constant gives its negation; otherwise a fresh `-` node |
| Folding.FoldMulRules | include/Cady/Transform.h:59-69 | a zero on either side gives 0 whatever the other side is; a one gives the other operand; two other constants stay a `*` node |
| Folding.FoldDivRules | include/Cady/Transform.h:70-80 | a zero numerator gives 0 (so `0/0` folds to 0); the fold fails exactly when the numerator is not zero and the denominator is zero |
| Folding.FoldPowRules | include/Cady/Transform.h:81-103 | the rules in order: two constants go through `pow`, then base 0 gives 0, exponent 1 gives the base, exponent 0 gives 1 |
| Folding.FoldNegRules | include/Cady/Transform.h:111-123 | `FoldUnary`: a zero argument gives the constant 0; any other argument is negated |
| Folding.FoldOtherRules | include/Cady/Transform.h:125-131 | a binding or an elementary function keeps its kind and gets its folded child |
| Folding.FoldSound | include/Cady/Transform.h:11-132 | a fold denotes the value of the original wherever the zero-base power rule does not fire, given `0/y = 0`, `x^1 = x` and `x^0 = 1` |
| Folding.FoldBinarySound | include/Cady/Transform.h:22-108 | each identity of a binary node (`FoldBinary`) preserves the value of the node it rewrites |
| Folding.FoldAddSound | include/Cady/Transform.h:24-40 | the identities of `+` preserve the sum |
| Folding.FoldSubSound | include/Cady/Transform.h:41-58 | the identities of `-` preserve the difference |
| Folding.FoldMulSound | include/Cady/Transform.h:59-69 | the identities of `*` preserve the product |
| Folding.ZeroBaseRuleCounterexample | include/Cady/Transform.h:93-94 | `0^x` folds to 0 but denotes 1 when `x` is 0 and `pow(0, 0) = 1` |
| Heap.KeyDeterminesNode | driver.cpp:580-583 | the table key, a label plus the child identities, determines the node |
| Heap.WithChild | driver.cpp:545 | rebinding child `i` changes that child only and keeps the node's label |
| Heap.TreeExtends | driver.cpp:599 | allocating nodes changes the value of no existing handle |
| Heap.DirectBindings | driver.cpp:1202 | the direct dependencies of a node are bindings, each once, each lower in the DAG than the node |
| Heap.AllBindings | driver.cpp:860 | every binding found below a node is a binding and occurs once |
| Heap.DirectBindingsHas | driver.cpp:1202 | a handle is among a node's direct dependencies exactly when it is a binding reached from the node without passing through another binding (`DirectlyBelow`) |
| Heap.AllBindingsOrdered | driver.cpp:860 | the bindings found below a node come in dependency order: each comes after every binding directly below it, and every binding directly below the node is found |
| Heap.AllStepOrdered | driver.cpp:860 | one child's step of the search keeps dependency order and finds the child itself if it is a binding, or else every binding directly below it |
| Heap.OrderSnoc | driver.cpp:860-869 | appending a binding whose direct dependencies are all already present keeps dependency order |
| Heap.OrderExtends | driver.cpp:860-869 | dependency order of a declared sequence is unaffected by nodes allocated later |
| Heap.OrderAppend | driver.cpp:860-869 | two sequences each in dependency order, the second relative to what the first declared, join into one in dependency order |
| Heap.Arena.Alloc | driver.cpp:599 | a node is appended over existing children, and every existing handle keeps its value |
| Heap.Arena.Rebind | driver.cpp:545 | exactly one child of one node is replaced, by a lower node, and the arena stays a DAG |
| Heap.Arena.Load | driver.cpp:833-847 | fresh nodes are built that denote the given expression, and no existing handle changes value |
| Transform.FoldBinaryNode | include/Cady/Transform.h:22-108 | on the folded operand nodes, the answer denotes `FoldBinary` of their values and fails exactly when it does |
| Transform.FoldZero | include/Cady/Transform.h:11-132 | the answer denotes the fold of what `root` denoted and fails exactly when that fails; every existing node keeps its fold; an already folded node keeps the same value; nodes above `root` are unchanged |
| Transform.FoldZeroBinary | include/Cady/Transform.h:12-109 | binary branch: both operands folded, left first, then the identities; same guarantees as `FoldZero` |
| Transform.FoldZeroUnary | include/Cady/Transform.h:111-123 | unary branch: a folded zero argument gives a fresh 0, otherwise a fresh negation; same guarantees |
| Transform.FoldZeroChildren | include/Cady/Transform.h:125-131 | generic branch: the child is folded and rebound in place, and the node itself is the answer |
| Transform.RebindKeepsFold | include/Cady/Transform.h:127-128 | rebinding a child to its fold keeps the fold of every node and the value of every folded node |
| Passes.RebindKeepsInline | driver.cpp:544-545 | rebinding a child to its inlined value keeps the inlined value of every node and changes no binding-free node |
| Passes.RemoveEndgenousFolder | driver.cpp:535-551 | the answer denotes the inlined value of `root`; no node is allocated; every node keeps its inlined value; a binding-free node is untouched |
| Passes.RemoveInChildren | driver.cpp:542-549 | the loop over the children: `root` itself is the answer, now denoting its inlined value |
| Passes.RemoveInChild | driver.cpp:543-546 | one turn: child `idx` is rebound to the pass applied to it |
| Passes.InlineLoopStep | driver.cpp:543-546 | one turn of the child loop extends the prefix of children that hold inlined values |
| Passes.InlineBelow | driver.cpp:555-559 | a clone keeps a top binding exactly when the original has one, and removing it gives the inlined value |
| Passes.RemoveEndo | driver.cpp:553-563 | the answer denotes the inlined value of `ptr`; only fresh nodes are made, and existing handles keep their values |
| Passes.RemoveEndoClone | driver.cpp:555 | the clone with `RemoveEndo` applied to the children denotes the value with every binding below the top inlined |
| Remap.Decimal | driver.cpp:598 | a numeral has at least one digit, and exactly one when the number is below 10 |
| Remap.DecimalInjective | driver.cpp:598 | different counters print as different numerals |
| Remap.SymbolName | driver.cpp:597-598 | every name starts with the prefix and is longer than it |
| Remap.SymbolNamesDistinct | driver.cpp:597-599 | different counters under one prefix give different names |
| Remap.TableSoundInsert | driver.cpp:601-605 | registering a node under its own key, with a node of the same inlined value, keeps every table entry sound |
| Remap.RemapUnique.constructor | driver.cpp:565-569 | a new table is empty, under the given prefix |
| Remap.RemapUnique.Canonicalize | driver.cpp:580-606 | hit: the stored node, with table, arena and names unchanged. Miss on a non-constant, non-binding node: a new binding `prefix + (size+1)` wrapping it, a name never made before, and the table grows by exactly one. Miss otherwise: the node itself, registered under its key |
| Remap.RemapUnique.Mint | driver.cpp:589-602 | a miss on a non-trivial node: a binding under a fresh name becomes its canonical node, and the table grows by one entry |
| Remap.RemapUnique.Register | driver.cpp:603-606 | a miss on a constant or binding: the node itself is registered, and no name is made |
| Remap.RemapUnique.Apply | driver.cpp:576-607 | the answer denotes the same inlined value as `ptr` and is the canonical node of `ptr`'s value: every value the table has seen keeps one canonical node, and `ptr`'s value now has one; the table only gains entries; the arena only grows |
| Remap.RemapUnique.ApplyBoth | driver.cpp:576-607 | two lookups through one table on handles of equal value return the same node, so a repeated subexpression is bound once |
| Remap.RemapUnique.Clone | driver.cpp:578 | the rebuilt candidate denotes the inlined value of `ptr`, and its key is the label of `ptr` over the canonical nodes of its children's values |
| Remap.RemapUnique.CloneChildren | driver.cpp:578 | the label of `ptr` over the canonical nodes of its children, child by child of the same inlined value |
| Remap.RemapUnique.CloneBin | driver.cpp:578 | for a binary node, left operand first: the label over the canonical nodes of both operands' values |
| Remap.CanonInsert | driver.cpp:600-605 | recording a value's canonical node under the key the table holds it at keeps every recorded value's key sound |
| Flows.Link | driver.cpp:1204-1207 | `p` gains child `f`, `f` gains parent `p`, and no other link changes |
| Flows.LinkAll | driver.cpp:1209-1214 | `f` gains exactly the parents `ps`; each flow gains `f` as a child once per occurrence in `ps`; nothing else changes |
| Flows.LinkAllLinks | driver.cpp:1204-1213 | each resolved dependency `d` ends with `d` among the parents of `f` and `f` among the children of `d` |
| Flows.LinkAllFrame | driver.cpp:1204-1213 | a flow other than `f` and its dependencies is unchanged |
| Flows.LinkAllSymmetric | driver.cpp:767-772 | parent and child links stay mirror images, counting repetitions |
| Flows.LinkAllBackward | driver.cpp:1209-1213 | links to earlier flows keep every link pointing backwards |
| Flows.Resolve | driver.cpp:1209-1212 | the longest prefix of the names known to the index, each mapped to its flow; the next name is unknown |
| Flows.LinkFromResolves | driver.cpp:1209-1214 | the loop links exactly the names that resolve, and fails exactly when one does not, naming it |
| Flows.LinkDependencies | driver.cpp:1209-1214 | the loop of `Add`: the flows are `LinkAll` of the resolved prefix; it is done exactly when every name resolves; otherwise it fails on the first unknown name |
| Flows.LinkDependenciesMeaning | driver.cpp:1209-1214 | the end state of the loop, in terms of the names that resolve |
| Flows.AppendKeepsGraph | driver.cpp:1200-1201 | appending a new unlinked flow and indexing it under its name keeps the graph invariant |
| Flows.LinkAllKeepsGraph | driver.cpp:1204-1213 | backward links keep the graph invariant: well formed, backward, symmetric, indexed |
| Flows.AddKeepsGraph | driver.cpp:1199-1215 | `Added`, over the `DependencyNames` of the binding, keeps the graph invariant whether or not every dependency resolves |
| Flows.ForwardStepShape | driver.cpp:804-817 | `ForwardStep`: one statement declares its own name once, and returns it exactly when nobody reads it |
| Flows.ForwardDeclaresInOrder | driver.cpp:1135-1139 | `ForwardCode` declares one variable per statement, in statement order |
| Flows.ForwardReturnsSinks | driver.cpp:1135-1139 | the forward code returns exactly the statements nobody reads, in order |
| Flows.DeclaredBeforeUse | driver.cpp:1135-1139 | every statement a statement reads is declared before it in the forward code |
| Adjoint.AdjointSumFails | driver.cpp:841-847 | `AdjointSum` fails exactly when one of its terms does not fold |
| Adjoint.AdjointSumTerms | driver.cpp:841-847 | the adjoint is the left-nested sum of the children's folded terms, in `children_` order |
| Adjoint.SumFromSumTerms | driver.cpp:842-847 | carrying the running sum on from the first `idx` terms gives the sum of all of them |
| Adjoint.SumTermsFails | driver.cpp:833-847 | one failing term makes the sum fail with that error |
| Adjoint.AdjointHead | driver.cpp:841-847 | the loop that builds `head` computes the adjoint sum, error included |
| Adjoint.AdjointSumValue | driver.cpp:833-847 | folding does not change what the adjoint evaluates to: it is the chain-rule sum over the readers |
| Adjoint.TermValue | driver.cpp:833-840 | `Term`, the folded `RawTerm`, evaluates to its chain-rule product |
| Adjoint.TermFolded | driver.cpp:833-840 | a term that folds is in normal form and no larger than the raw product |
| Adjoint.AdjointSumExtends | driver.cpp:853-857 | a grown arena gives the same adjoint |
| Adjoint.UnseenElements | driver.cpp:860-869 | `Unseen`: the bindings declared are those outside the profile, each once |
| Adjoint.UnseenOrdered | driver.cpp:860-869 | skipping the bindings already in the profile keeps dependency order: each declared binding comes after every binding directly below it that the profile lacks |
| Adjoint.DeclarationsOrdered | driver.cpp:860-869 | the declarations of one adjoint come inner-first: every binding directly below a declared one is in the profile or declared before it |
| Adjoint.Declarations | driver.cpp:864-867 | one declaration per binding, in order, of the binding's name and body |
| Adjoint.Assignment | driver.cpp:877-886 | at most one instruction: the output-slot write of the adjoint variable, exactly for a statement that reads nothing |
| Adjoint.SegmentExtends | driver.cpp:818-887 | a statement's segment, its comment text included, stays valid when the arena grows |
| Adjoint.SegmentValue | driver.cpp:824-876 | the declared adjoint evaluates to 1 for a statement nobody reads, and otherwise to the chain-rule sum |
| Adjoint.InlineBelowSameInline | driver.cpp:853-857 | cloning through `RemoveEndo` and then inlining is inlining |
| Adjoint.ADFlow | driver.cpp:1099-1103 | the computation gains at most one binding per statement |
| Adjoint.ADFlowFails | driver.cpp:1099-1103 | collection succeeds exactly when every statement is unread or has a folding adjoint sum |
| Adjoint.ADFlowOkFolds | driver.cpp:1099-1103 | a successful collection means each statement folds |
| Adjoint.ADFlowFoldsOk | driver.cpp:1099-1103 | if each statement folds, collection succeeds |
| Adjoint.ADFlowStep | driver.cpp:1100-1101 | `n` statements collect exactly when `n - 1` do and statement `n - 1` folds |
| Adjoint.ADFlowStopsAt | driver.cpp:1100-1101 | a statement whose sum does not fold makes every longer collection fail |
| Adjoint.ADFlowEntries | driver.cpp:932-959 | the computation has one binding `__rev_ad_<name>` per read statement, in statement order, wrapping its adjoint sum |
| ReverseSweep.ADSweepOutcome | driver.cpp:1144-1147 | the reverse sweep `ADSweep` succeeds exactly when every statement's emission `ADStep` does |
| ReverseSweep.ADStepExtends | driver.cpp:818-887 | a statement's outcome does not depend on nodes allocated later |
| ReverseSweep.SegmentsExtend | driver.cpp:1144-1147 | the emitted segments stay valid as the arena grows |
| ReverseSweep.SegmentsSnoc | driver.cpp:1144-1147 | the segment of the next statement down joins the others |
| ReverseSweep.OnceNext | driver.cpp:860-869 | declaring the unseen bindings next keeps every binding declared at most once, none already in the profile |
| ReverseSweep.CoveredNext | driver.cpp:860-876 | every binding the new adjoint mentions is in the profile or declared by this segment or an earlier one |
| ReverseSweep.SweptNext | driver.cpp:1144-1147 | one more statement emitted: the sweep state carries over and takes the new segment, and all declarations so far stay in dependency order |
| ReverseSweep.SweepingNext | driver.cpp:1144-1147 | the loop invariant of the reverse sweep survives a successful statement |
| ReverseSweep.SweepingFails | driver.cpp:1144-1147 | a failing statement ends the sweep with that statement's outcome |
| Instructions.InstructionBlock.Add | driver.cpp:862-867 | the block gains exactly the one instruction, at the end |
| DataFlowGraphs.DataFlowGraph.constructor | driver.cpp:757-758 | an empty graph satisfies the graph invariant |
| DataFlowGraphs.DataFlowGraph.Add | driver.cpp:1199-1215 | the flow is appended and indexed first, then linked to the dependencies that resolve. It fails on the first unknown name with the flow already added; the graph invariant holds either way |
| DataFlowGraphs.DataFlowGraph.EmitInstructions | driver.cpp:1135-1139 | the block gains `ForwardCode` of all statements, in order |
| DataFlowGraphs.DataFlowGraph.EmitFlowInstructions | driver.cpp:804-817 | one declaration; for a statement nobody reads, also the comment of its dependencies and the return |
| DataFlowGraphs.DataFlowGraph.CollectADFlow | driver.cpp:1099-1103 | it succeeds exactly when every read statement's adjoint sum folds; on success the computation is extended by `ADFlow` of all statements; the error is divide-by-zero |
| DataFlowGraphs.CollectFlows | driver.cpp:932-959 | the loop over the statements computes `ADFlow`, error included |
| DataFlowGraphs.DataFlowGraph.EmitADInstructions | driver.cpp:1140-1148 | the outcome is the sweep's; the block gains the segments in reverse statement order, up to the failing statement, each with its adjoint, its declarations (in dependency order) and comments carrying the rendered adjoint sum; the profile grows by what was declared |
| DataFlowGraphs.DataFlowGraph.SweepAdjoints | driver.cpp:1144-1147 | the reverse loop: its outcome is `ADSweep`; the `k`-th segment is that of statement `n - 1 - k`, whose `BEGIN`/`END` comments carry `render` of its adjoint sum; no binding is declared twice or was seen before; every binding an adjoint mentions is declared before it or was seen; every declaration comes after the declarations of the bindings directly below it that were not seen |
| DataFlowGraphs.DataFlowGraph.EmitADFlowInstructions | driver.cpp:818-887 | the outcome is `ADStep`; on success, the segment has the right adjoint, its comments carry `render` of the adjoint sum with the bindings below the top inlined, it declares exactly the unseen bindings, and the profile gains them all |
| DataFlowGraphs.DataFlowGraph.BuildAdjoint | driver.cpp:824-876 | the adjoint is a fresh 1 for a statement nobody reads; otherwise the remapped adjoint sum, failing exactly when the sum does, with the comment text `render` of the sum after `RemoveEndo` |
| DataFlowGraphs.RemappedAdjoint | driver.cpp:841-857 | the sum is built, cloned through `RemoveEndo`, rendered and cloned through the table; the answer has the sum's inlined value |
| DataFlowGraphs.EmitAdjointDeclaration | driver.cpp:859-887 | the segment has the shape of `SegmentShape`, with the declared bindings and the updated profile |
| DataFlowGraphs.DeclareUnseen | driver.cpp:860-869 | each binding not in the profile is declared once, in order, and the profile gains every binding |
| DataFlowGraphs.DeclaredNext | driver.cpp:862-867 | one turn: a binding is declared exactly when it is not seen yet |
| Collect.Deps | driver.cpp:427-428 | a frame's dependencies are bindings, each lower in the DAG than the frame's binding |
| Collect.CollectStatements | driver.cpp:422-453 | each binding is added at most once; each binding is added after every dependency of it; each lies on a path of dependencies from the root; when the stack empties within the budget, the root comes last |
| Collect.StackChain | driver.cpp:448-451 | the frames on the stack spell a dependency path from the root |
| Collect.AddedNext | driver.cpp:436-444 | adding a finished frame's binding keeps the statements distinct and in dependency order |
| Collect.StackPop | driver.cpp:445 | popping a finished frame keeps the stack invariant, with its binding now seen |
| Collect.StackPush | driver.cpp:448-451 | taking the last dependency and pushing its frame keeps the stack invariant |

## Left out

- Floating point: constants are `real`, and NaN and infinities are not modelled. `std::pow` is an uninterpreted `PowFn`. Division, power and the elementary functions are read through `Interp` parameters.
- Headers not included here: `Operator::Diff`, `Operator::EmitCode`, `ConstantDescription`, `DepthFirstAnySymbolicDependency*` and `Operator::Clone` live in headers that are not part of this model.
  - `Diff` and `EmitCode` are the parameters `DiffFn` and `RenderFn`.
  - `ConstantDescription` is taken to mean "a constant node", "the constant 0" and "the constant 1".
  - The dependency searches are defined as `DirectBindings` and `AllBindings`.
  - `Clone` is a fresh node over the transformed children.
- Iteration order of dependencies: `EndgenousDependencies` returns an unordered set. The model fixes its order as the first-visit order of `DirectBindings`. No property depends on that order.
- `Function::AddStatement` (driver.cpp:439) is modelled as appending the binding to `added`. The surrounding demo program is left out.
- Collect.CollectStatements: the model reports, as `finished`, whether the stack emptied before the 1000 turns ran out. The source drops the remaining frames silently. The root-comes-last property is stated only when `finished` holds.
- Exceptions: `std::domain_error` becomes a `Result`/`Outcome` error.
  - Folding.Fold: an `Err` carries no message text.
  - DataFlowGraphs.DataFlowGraph.CollectADFlow: on a fold error, the model returns an error. It does not model the bindings the source had already appended to `computation` before the throw.
- DataFlowGraphs.DataFlowGraph.EmitADFlowInstructions: a statement that reads nothing but does not wrap an input variable fails with `NotAnInput`, before its segment is appended. The source would append the segment and then dereference a null pointer (driver.cpp:883-885).
- DataFlowGraphs.DataFlowGraph.EmitADInstructions: the instruction block and the profile are written once, at the end of the sweep, and not instruction by instruction. Nothing else observes them in between.
- Side effects of the static passes: the function-local `static` `FoldZero` and `RemoveEndo` instances (driver.cpp:830-831, 937) are fresh, stateless passes here. The in-place rebinding that the static `FoldZero` performs inside the output of `Diff` is not modelled; the terms are folded as values with `Fold`.
- Folding.FoldSound: it holds only where the zero-base power rule does not fire, because that rule is not meaning-preserving (`Folding.ZeroBaseRuleCounterexample`).
- Adjoint.AdjointSumValue and Adjoint.SegmentValue inherit that restriction, and the further assumptions `0/y = 0`, `x^1 = x` and `x^0 = 1` on the `Interp`.
- Heap.KeyOf and Remap.RemapUnique.Canonicalize: the source keys the table on the string `NameInvariantOfChildren()` plus the child pointers (driver.cpp:580-583); that string is built in a header that is not part of this model. The model keys on the exact label (operator, constant value, symbol name). So `Heap.KeyDeterminesNode` holds by construction, and the model assumes that the source's string is injective on labels. Two constants that print alike would share one table entry in the source but not in the model.
- `RemapUnique::mutate_prefix` (driver.cpp:573-575) is used only by disabled code. It is left out, so the prefix is fixed at construction.
- Other code not modelled:
  - the constructor and destructor logging of `RemapUnique`;
  - every `#if 0` block;
  - Graphviz output, `EmitCppCode`, `EmitEvalCodeImpl` and `EmitReverseADCodeImpl`;
  - the demo drivers.

  These are text output or dead code.
- Integer widths: handles, counters and `ttl` are unbounded naturals. The source's `size_t` cannot overflow at these sizes.
