# Arrp: verification of storage folding and of the array passes

Arrp compiles recursive programs over infinite arrays to C++ that runs for ever in bounded memory.
This project models, in Dafny, the passes on which that claim rests, and proves what they promise.
Verify with `dafny verify dfyconfig.toml`.

**Storage.** The allocator (`Conflicts`, `BufferSizing`) relates array elements that are live
together, adds the pairs that a parallel loop makes concurrent (`ParallelLoops`), and picks one modulo
size for each dimension. `FoldedMemory` defines a run as a trace of reads and writes in which each
value written may depend on everything read before; two memories are equivalent when all reads
return the same. `ScheduledPrograms` puts schedule, conflicts, sizes and parallel loops together:
the folded program reads what the unbounded one reads, and dependencies stay in order, when periods repeat
and the schedule puts writes before their reads (`MixedRanks` is a run that meets every hypothesis).
`InputRows` is about elements that are written but never read, and `IoOrder` adds the order of input and
output. `Buffers` and `IndexArithmetic` model the generated circular buffers (rounding, masks, phases),
and `DataShifting` the linear buffers whose overlapping rows are copied back every few periods, as a
class over an array with an in-place copy. `GeneratedStorage` carries the result over to the generated
addresses, and `GeneratedRuns` runs prelude and periods on buffers of both kinds, with `MovedRows` for
the rows that have moved and `FlatRows` for the flat positions that the copy works on; `StreamExample`
is such a run. `PeriodUse` finds the rows that a period accesses and the buffers that need not be kept
between periods.

**Array passes.** `ArrayPrograms` gives mutually recursive array programs a meaning: the element of an
array at an index, to a given depth of references. `Transposition` and `TranspositionPass` move the
unbounded dimension to the front. `ArrayPatterns` turns first-match patterns into guarded cases and
`ArrayChecks` relates the two places that check them. `Joins`, `JoinMeaning` and `JoinExactness` lower `++` and
enumeration, with self references and nested cases. `ArrayInflation` and `InflationPass` lift
definitions out of the arrays whose variables they use, over whole runs of the pass. `AccessMaps`
over-approximates non-affine accesses. `Shapes` joins operand shapes.

**Graphs.** `ReferenceAnalysis` marks recursive names, `InflationPass` closes a set of names under
references, `IoClock` orders input and output through a clock.

Sets and relations of integer vectors, finite or not, are predicates; the queries that the passes put
to the integer set library (emptiness, subset, maximum, distances, composition) are a parameter `Isl`
with the stated meaning (`IslModel`). Loops of the source are loops here, and objects that it updates
are classes; methods are proved against specifications whose own properties are the main theorems.

What the code does, where its comments or its purpose say otherwise:

- `absolute_values` flips one coordinate at a time, so a distance with two negative coordinates is
  never made positive and the default mode drops it (`BufferSizing.DefaultModeExact`).
- `compute_conflicts` keeps one direction of each pair, since the line that would add the inverse is
  disabled although its comment calls it needed. With both directions, three dimensions are always
  safe; without, two are not, unless coalescing happens to merge the pieces of both directions
  (`Conflicts.OneDirectionIsExact`, `Conflicts.TwoElementsShareACell`, `Conflicts.MergedPiecesAreSafe`).
- `compute_buffer_size` assumes that every write is later read, as its comment says, but the statements of
  inputs are kept for elements that nothing reads. Such an element may overwrite one that is still needed
  (`InputRows.UnreadElementOverwrites`, `InputRows.UnevenColumnsOverwrite`); whole rows are safe under a
  condition on what is read of each (`InputRows.WholeRowsAreUsed`).
- "Infinite storage conflict distance" is raised for an empty set of distances too; from `compute_buffer_size`
  it means unbounded distances, since a written element is at distance 0 from itself
  (`Conflicts.ComputeBufferSize`).
- A buffer that shifts its rows reserves one period of rows that nothing reaches (`Buffers.OnePeriodIsSpare`).
- The transposer does not look into the arguments of the applications it visits, so an access nested in
  another's argument keeps its old argument order (`TranspositionPass.NestedAccessChangesMeaning`).
- `reference_analysis` is documented to mark every member of a reference loop. It marks at least one
  member of each, and exactly the recursive ones among the names at which the search starts
  (`ReferenceAnalysis.MembersMayStayUnmarked`, `ReferenceAnalysis.RootsAreExact`).
- `generate_buffer_access` uses a remainder where a modulo is meant, as its comment says; they agree
  exactly on non-negative indexes and multiples of the size (`IndexArithmetic.RemIsModuloExactly`).
- A self reference of an operand of `++` is shifted into the result; outside its operand it can land in
  a neighbouring one (`JoinExactness.SelfOutsideGainsValue`), otherwise lowering is exact.

## Model

| member | source | states |
|---|---|---|
| BufferSizing.AbsoluteValues | polyhedral/storage_alloc.cpp:258-299 | the distances that are already non-negative, and those with exactly one non-positive coordinate flipped, as the two loops build them |
| BufferSizing.ComputeBufferSizeFromConflicts | polyhedral/storage_alloc.cpp:301-389 | each size is exactly as large as the distances that the dimension has to satisfy need: in classic mode those that are zero before it, in default mode those that are zero beside it and, of those that no such size satisfies, the ones that are zero before it and have at most one negative coordinate. It fails exactly when for some dimension no greatest such distance exists, or, in default mode, no distance that is zero beside it |
| BufferSizing.SizesAreLeast | polyhedral/storage_alloc.cpp:321-387 | every such distance is smaller than the size, and unless the size is 1 some such distance is exactly one less |
| BufferSizing.SizesExistExactly | polyhedral/storage_alloc.cpp:330-383 | sizes exist if and only if each dimension has such a greatest distance (and, in default mode, one that is zero beside it) |
| BufferSizing.ClassicSeparates | polyhedral/storage_alloc.cpp:327-387 | classic mode: every non-zero conflict distance is smaller than the size in a dimension where it is not zero |
| BufferSizing.DefaultSeparates | polyhedral/storage_alloc.cpp:330-387 | default mode: the same for every distance with at most one negative coordinate |
| BufferSizing.DefaultModeExact | polyhedral/storage_alloc.cpp:276-296 | the default mode separates a distance in every computation that sees it if and only if the distance has at most one negative coordinate |
| BufferSizing.DefaultModeExactWhenClosed | polyhedral/storage_alloc.cpp:236-241 | when distances come in both directions: if and only if the distance or its negation has at most one negative coordinate |
| BufferSizing.ThreeDimensionsAreEnough | polyhedral/storage_alloc.cpp:276-296 | in at most three dimensions that is true of every distance |
| BufferSizing.UnsafeDistancesAreInvisible | polyhedral/storage_alloc.cpp:354-363 | if all non-zero distances have two negative coordinates the default mode leaves every size at 1 |
| BufferSizing.SizesPositive | polyhedral/storage_alloc.cpp:344-348 | every computed size is at least 1, also when the exclusive distances kept by flipping are negative |
| BufferSizing.ConflictsGetDifferentCells | polyhedral/storage_alloc.cpp:301-389 | elements at a conflict distance that the mode sees (in default mode, one with at most one negative coordinate) have different cells modulo the sizes, and modulo any sizes not below them |
| Conflicts.HalfIsEnough | polyhedral/storage_alloc.cpp:218-247 | the pairs collected with j <= i, with their inverses, are precedence intersected with its inverse |
| Conflicts.CollectPrecedence | polyhedral/storage_alloc.cpp:170-217 | the pieces collected are the non-empty ones, in the order of the loops; together they are the relation: the write of x is before a read of y (Conflicts.PrecedesByPieces) |
| Conflicts.ComputeConflicts | polyhedral/storage_alloc.cpp:170-256 | exactly the pairs that the half loop finds, each in the direction in which it finds it; in one direction or the other that is: both are written before the other is read |
| Conflicts.EqualTimeConflicts | polyhedral/storage_alloc.cpp:152-155 | exactly the pairs accessed at the same schedule point |
| Conflicts.ComputeBufferSize | polyhedral/storage_alloc.cpp:63-168 | no writers is an error; otherwise the relation is live, equal-time and parallel pairs, the sizes are those for it, and any two elements that one instance writes, or one reads, have different cells (in default mode if their distance has at most one negative coordinate). It fails exactly if the distances that a dimension has to satisfy have no bound |
| Conflicts.AllocatedApart | polyhedral/storage_alloc.cpp:149-165 | different cells also for elements that parallel iterations access and, if the mode sees both directions, for elements each of which is written before the other is read |
| Conflicts.AllocatedIsNeeded | polyhedral/storage_alloc.cpp:149-167 | no size is larger than needed: unless it is 1 it is one more than the distance, in that dimension, of two elements written or read by one instance, or accessed by parallel iterations, or each written before the other is read |
| Conflicts.OneDirectionIsExact | polyhedral/storage_alloc.cpp:206-247 | two elements are written and then read, the later one first, so they are live together. Whatever coalescing makes of the four pieces: the default mode gives them different cells if and only if a direction that the half loop collects has at most one negative coordinate |
| Conflicts.OneDirectionIsUnsafe | polyhedral/storage_alloc.cpp:206-247 | where coalescing leaves the four pieces apart, one direction only is collected, and if its distance has two negative coordinates the two elements get the same cell |
| Conflicts.TwoElementsShareACell | polyhedral/storage_alloc.cpp:63-256 | in that case the allocator itself, given the two writers and the two readers, succeeds with such sizes |
| Conflicts.MergedPiecesAreSafe | polyhedral/storage_alloc.cpp:206-247 | where coalescing makes one piece of them, both directions are collected, and in up to three dimensions the cells differ |
| Conflicts.CoalescingDecides | polyhedral/storage_alloc.cpp:206-212 | both are union-preserving, so nothing that is promised of coalescing rules either out |
| FoldedMemory.FoldedRefinesUnbounded | polyhedral/storage_alloc.cpp:123-133 | if no write falls between the write and a read of another element in its cell, every read returns what it returns with a cell for every element |
| FoldedMemory.RefinementIsExact | polyhedral/storage_alloc.cpp:123-133 | with each element written once, sharing cells is right for all computations if and only if there is no such write |
| ScheduledPrograms.BetweenMeansConflict | polyhedral/storage_alloc.cpp:123-133 | a write of y, which is read later, between the write and a read of x makes x and y live together |
| ScheduledPrograms.BetweenSpares | polyhedral/storage_alloc.cpp:123-167 | a write of y between the write and a read of x leaves the cell of x alone, also if y is never read, when x is written by the same instance or an element that is written with y and read later stands for y |
| ScheduledPrograms.LivePairsAreCovered | polyhedral/storage_alloc.cpp:149-150 | the relation of compute_buffer_size covers the pairs that are live together in the schedule; in default mode if each pair was collected in a direction with at most one negative coordinate |
| ScheduledPrograms.LowRanksAreSignSafe | polyhedral/storage_alloc.cpp:236-241 | that sign condition holds of every relation in one dimension; if the disabled line added the inverse it would hold in up to three |
| ScheduledPrograms.FoldedProgramIsCorrect | polyhedral/storage_alloc.cpp:123-167 | whole runs, arrays of any ranks, any loops of the period interleaved in any way, unread elements written together with read ones: the program on folded buffers reads what it reads on unbounded arrays |
| InputRows.WholeRowsAreUsed | frontend/ph_model_gen.cpp:240-255 | the condition on unread elements holds of arrays that are written by whole rows, as input streams are, if of each row something is read later (classic mode), or what is still needed of other rows (default mode) |
| InputRows.VectorStreamIsUsed | frontend/ph_model_gen.cpp:240-255 | in particular of a stream of vectors of which one component is read, in both modes |
| InputRows.InstanceFits | polyhedral/storage_alloc.cpp:152-155 | elements that one instance accesses, along one dimension, fit into that dimension of the buffer together |
| InputRows.UnreadElementOverwrites | compiler/compiler.cpp:298-320 | otherwise it fails: an input element that is never read, which the pass keeps writing, gets the cell of one that is still needed, in both modes |
| InputRows.UnevenColumnsOverwrite | polyhedral/storage_alloc.cpp:327-365 | in default mode even if something is read of each row: of two rows of two elements, sizes [1, 2], the unread element of the second overwrites the needed one of the first |
| ScheduledPrograms.ParallelProgramIsCorrect | polyhedral/isl_ast_gen.cpp:377-499 | all passes together: with the conflicts that compute_buffer_size collects, loops that the check accepts and the pairs they store, for one period, every run of any number of periods is right on folded buffers, and all dependencies, explicit order among them, stay in order |
| MixedRanks.HypothesesCanBeMet | polyhedral/storage_alloc.cpp:123-167 | these hypotheses hold together for a run with arrays of ranks 1 and 2 and a parallel loop executed out of order |
| StreamExample.RunStream | cpp/cpp_target.cpp:302-548 | and those on generated storage for a stream whose elements share two cells, or whose buffer shifts, with phases, in both modes and with all options: after any number of periods it has read 0, 1, 2, ... |
| ParallelLoops.ComputeOrder | polyhedral/isl_ast_gen.cpp:102-114 | pairs of statement instances where the first writes an element that the second reads or writes, and explicit order |
| ParallelLoops.IsParallel | polyhedral/isl_ast_gen.cpp:377-438 | true exactly when any two ordered instances in the same outer iterations are in the same iteration of the dimension |
| ParallelLoops.StoreParallelAccesses | polyhedral/isl_ast_gen.cpp:440-499 | adds exactly the pairs of elements accessed by an earlier and a later iteration |
| ParallelLoops.ParallelPairExactly | polyhedral/isl_ast_gen.cpp:440-499 | these are the elements accessed at points that agree before the dimension, the first one at the smaller value of it |
| ScheduledPrograms.DependencyIsKept | polyhedral/isl_ast_gen.cpp:377-438 | a dependency that the loop does not carry is in order in every interleaving |
| ScheduledPrograms.CheckedLoopKeepsOrder | polyhedral/isl_ast_gen.cpp:377-438 | the check looks at one period; two instances that depend on each other, by an element that one of them writes or by explicit order, in any period, are then never two iterations of the loop that may be exchanged |
| ScheduledPrograms.CheckedLoopsKeepOrder | polyhedral/isl_ast_gen.cpp:377-438 | if all loops pass, such instances happen in this order in every interleaving of all loops |
| ScheduledPrograms.CheckedLoopKeepsProducers | polyhedral/isl_ast_gen.cpp:377-438 | of writes and reads of an element this holds without assuming that explicit order repeats |
| IoOrder.IoStaysInOrder | frontend/ph_model_gen.cpp:1165-1241 | through the clock: accesses of any two infinite channels at indexes i < j happen in this order, in every interleaving of loops that pass the check |
| ScheduledPrograms.CheckedLoopsKeepProducers | polyhedral/isl_ast_gen.cpp:102-114 | if all loops pass, every read of a run has a write that comes first in every interleaving |
| ScheduledPrograms.StoredForOnePeriod | polyhedral/isl_ast_gen.cpp:447-450 | two elements accessed by an earlier and a later iteration in any period are at the distance of a pair that is stored for the one period |
| ScheduledPrograms.ConcurrentPairsAreCovered | polyhedral/isl_ast_gen.cpp:440-499 | so the relation with the stored pairs covers, by distance, all pairs that any loop makes concurrent in any period (in default mode under the sign condition) |
| IndexArithmetic.RoundUpIsLeast | cpp/cpp_target.cpp:385-398 | the rounded size is the least power of two not below the request |
| IndexArithmetic.SizeTestIsExact | cpp/cpp_from_polyhedral.cpp:601-602 | the test recognises exactly the powers of two |
| IndexArithmetic.MaskIsModulo | cpp/cpp_from_polyhedral.cpp:605-610 | masking by a power of two less one is modulo, for every non-negative index |
| IndexArithmetic.RemIsModuloExactly | cpp/cpp_from_polyhedral.cpp:604-615 | the remainder is the modulo if and only if the index is not negative or is a multiple of the size |
| Buffers.PlanShift | cpp/cpp_target.cpp:339-380 | the period count is the least for which at most a tenth of a period's rows is copied per period; the source and the number of rows follow from it |
| Buffers.BufferAnalysis | cpp/cpp_target.cpp:302-405 | a shifting buffer has that plan; every other dimension is its size, whole or wrapped and rounded, and the volume is their product |
| Buffers.NoNeedlessCells | cpp/cpp_target.cpp:324-400 | a dimension that does not shift has the allocator's size, or on request, where indexes are wrapped, a power of two less than twice that; indexes are wrapped exactly where they can reach the size |
| Buffers.PhaseIsNeeded | cpp/cpp_target.cpp:382-391 | a circular buffer has a phase exactly if a row and the row a period later have different cells |
| Buffers.ShiftsSoon | cpp/cpp_target.cpp:339-375 | a shifting buffer has one exactly if two periods share rows, copies those, and waits no longer than a tenth of the rows accessed requires |
| Buffers.OnePeriodIsSpare | cpp/cpp_target.cpp:377-379 | it reserves exactly one period of rows more than all accesses and shifts reach |
| Buffers.GenerateBufferAccess | cpp/cpp_from_polyhedral.cpp:548-622 | the address is the index with phase and offset, modulo the wrapped dimensions, without the dimensions of size 1 |
| Buffers.AddressesSeparateLikeFolds | cpp/cpp_from_polyhedral.cpp:588-619 | two elements have the same address if and only if they have the same index modulo all sizes |
| Buffers.PhasedIndexFolds | cpp/cpp_target.cpp:524-542 | a row has the address that it has any number of rows later if the phase is that number modulo the size, and without a phase if the size divides it |
| GeneratedRuns.GeneratedProgram.AdvanceBuffers | cpp/cpp_target.cpp:460-548 | at the end of a period each buffer that has a phase, and no other, moves it, or returns it to 0 and moves its rows back; whatever a later period may read is then where it looks for it |
| GeneratedRuns.PhaseIsModulo | cpp/cpp_target.cpp:524-545 | the phase of a circular buffer is the number of rows the stream has moved on, modulo the size |
| GeneratedRuns.PhaseIsExact | cpp/cpp_target.cpp:475-545 | so for circular buffers; in a shifting buffer it is the rows of the periods since the last shift |
| GeneratedRuns.GeneratedProgram.Address | cpp/cpp_from_polyhedral.cpp:548-619 | the address generated for an access, in the prelude or in period k, is where the buffer has the element that it means: folded, and in a shifting buffer displaced by the phase |
| GeneratedRuns.RunGenerated | cpp/cpp_target.cpp:460-548 | prelude and any number of periods of a program with any number of arrays, on circular and shifting buffers together, read what the program reads on unbounded arrays |
| DataShifting.CopyForward | cpp/cpp_target.cpp:498-513 | the front-to-back copy of an overlapping range moves every cell as it was before the copy |
| DataShifting.ShiftingIsAmortised | cpp/cpp_target.cpp:341-362 | after any k periods at most k * period_size / 10 rows have been copied |
| DataShifting.ShiftBuffer.AccessInside | cpp/cpp_target.cpp:377-379 | every access of a period is inside the buffer |
| DataShifting.ShiftBuffer.Advance | cpp/cpp_target.cpp:480-523 | a period's end, shifting or not, keeps every element that a later period can access where that period looks for it |
| DataShifting.RunProgram | cpp/cpp_target.cpp:339-380 | prelude and any number of periods read what the unbounded array gives; the rows copied are one shift for each full count of periods, at most a tenth of the rows accessed |
| MovedRows.ShiftMirrors | cpp/cpp_target.cpp:480-523 | after a shift every row that is still needed is where the new phase looks for it, and no other array has changed |
| FlatRows.ShiftData | cpp/cpp_target.cpp:488-513 | the copy between the computed bounds of the flat buffer gives each cell of the shifted rows what the cell of the row that many periods later had, and changes no other |
| FlatRows.PlannedShiftFits | cpp/cpp_target.cpp:345-380 | the shift that buffer_analysis plans stays inside its buffer |
| FlatRows.ShiftKeepsLayout | cpp/cpp_target.cpp:488-513 | so a buffer whose cells are what its addresses say is so after the shift |
| FlatRows.FlatOfAddress | cpp/cpp_from_polyhedral.cpp:588-622 | the position of an address, without the dimensions of size 1, is that of the whole index |
| PeriodUse.FindInterPeriodDependency | polyhedral/storage_alloc.cpp:391-442 | there is a dependency if and only if the period reads an element that it does not write; every row that it writes or reads lies between the two bounds, and both are rows that it writes or reads; the assertion fails only if it accesses nothing, or rows beyond every bound |
| PeriodUse.PeriodRowsAreInside | polyhedral/storage_alloc.cpp:420-431 | code that writes what the period writes and reads what it reads stays in the rows that a shifting buffer reserves and keeps |
| PeriodUse.FlagMeansOwnReads | polyhedral/storage_alloc.cpp:391-410 | without the flag, every period reads of the array only what it writes itself |
| PeriodUse.BufferNeedNotBeKept | cpp/cpp_target.cpp:409-416 | whatever the buffers of arrays without the dependency contain when a period starts, in every period, and also if elements share cells, the run reads what it reads on unbounded arrays |
| GeneratedStorage.AnalysisGivesAllocation | cpp/cpp_target.cpp:324-403 | shapes from buffer_analysis keep what the allocator's sizes guarantee |
| GeneratedStorage.GeneratedProgramIsCorrect | cpp/cpp_from_polyhedral.cpp:548-642 | the program on the addresses of its elements, with rows folded or kept apart, reads what it reads on unbounded arrays |
| ArrayPatterns.ReducePatterns | frontend/array_reduction.cpp:287-371 | the cases are those of the alternatives, each holding exactly where its alternative is the first to match |
| ArrayPatterns.CasesPartition | frontend/array_reduction.cpp:287-371 | at most one case holds at an index, and one does if and only if an alternative matches |
| ArrayPatterns.BodyIsFirstMatch | frontend/array_reduction.cpp:287-371 | at every index the reduced body gives the expression of the first matching alternative, and nothing where none matches |
| ArrayPatterns.PatternConstraint | frontend/array_reduction.cpp:302-320 | the constraint holds exactly at the indexes that agree with the fixed ones |
| ArrayChecks.DefinitionDomain | frontend/type_check.cpp:804-850 | each alternative's domain is where it is the first to match, and their union is the definition domain |
| ArrayChecks.ProcessArray | frontend/type_check.cpp:876-954 | the array has a size exactly when the definition domain is not empty and a box of it |
| ArrayChecks.ExplicitRangesDecide | frontend/type_check.cpp:876-954 | with all ranges given: if and only if some index inside them is matched by an alternative and none inside them is left unmatched; the size is then that of the ranges |
| ArrayChecks.InferredSizeIsTight | frontend/type_check.cpp:881-909 | a finite size that is inferred is one more than an index that is matched |
| ArrayChecks.MakeStatements | frontend/ph_model_gen.cpp:457-533 | made exactly when the cases are disjoint and cover the array |
| ArrayChecks.DomainsAgree | frontend/type_check.cpp:804-850 | inside the array, each case's domain is the one that the type checker computed by set difference |
| ArrayChecks.CheckedArrayMakesStatements | frontend/ph_model_gen.cpp:482-520 | passing the rectangularity check implies the later disjointness and coverage checks, for an array that is not nested |
| ArrayChecks.CompileArray | frontend/ph_model_gen.cpp:457-533 | for such an array only the type check can fail |
| Joins.RowsTile | frontend/array_reduction.cpp:510-724 | every row of the result belongs to an operand, and no other row does |
| Joins.RowIsUnique | frontend/array_reduction.cpp:510-724 | no row belongs to two operands |
| Joins.LocateIsExact | frontend/array_reduction.cpp:510-724 | running offsets find the operand of a row, and the row in it |
| Joins.ReduceJoin | frontend/array_reduction.cpp:510-724 | the definition is one array over the guarded and merged cases of all operands |
| Joins.ConcatenationMeans | frontend/array_reduction.cpp:510-724 | a row of `++` is the row of the operand it falls in, after the rows of the operands before, with element 0 where the operand has size 1; lowering keeps this (JoinExactness.LoweringIsExact) |
| Joins.EnumerationMeans | frontend/array_reduction.cpp:510-724 | row j of an enumeration is operand j |
| JoinMeaning.PartRefines | frontend/array_reduction.cpp:600-690 | a case has its own operand's element at the offset, broadcast index, with self references shifted |
| JoinMeaning.NestedCases | frontend/array_reduction.cpp:787-808 | under a true guard, if the nested guards have values and no later case holds, the merged cases give exactly what the nested ones give |
| JoinMeaning.LoweringPreservesMeaning | frontend/array_reduction.cpp:510-724 | `++` and enumeration: every defined element of every array, at every depth of recursion, keeps its value |
| JoinExactness.LoweringIsExact | frontend/array_reduction.cpp:510-724 | and where self references stay inside their own operand, no element gains a value either |
| JoinExactness.SelfOutsideGainsValue | frontend/array_reduction.cpp:637-690 | a self reference outside its operand that lands in the next one: `[1: i -> this[1]] ++ 7` has no element 0 before lowering, and 7 after |
| Transposition.TransposeOrder | frontend/array_transpose.cpp:98-127 | fails exactly on two unbounded dimensions; otherwise the order is the unbounded dimension first and the rest as they were |
| Transposition.OrderIsPermutation | frontend/array_transpose.cpp:98-127 | every old place has one new place, the unbounded dimension the first, and the others keep their order |
| Transposition.PartialIsClosed | frontend/array_transpose.cpp:188-200 | a partial application is accepted exactly when its arguments permute among themselves |
| Transposition.RewritingIsComplete | frontend/array_transpose.cpp:153-203 | the pass rewrites every access if and only if no argument contains an access that moves |
| Transposition.TranspositionPreservesMeaning | frontend/array_transpose.cpp:36-203 | rewriting every access, also those nested in arguments, as the pass does when none is nested: in mutually recursive programs each array has at the permuted index, at every depth, what it had at the index |
| TranspositionPass.PassPreservesMeaning | frontend/array_transpose.cpp:12-203 | the pass as it is preserves meaning when no argument contains such an access |
| TranspositionPass.ArrayTransposer.Process | frontend/array_transpose.cpp:12-28 | succeeds if and only if each array has at most one unbounded dimension, with a variable for it unless the array is external, and each application that the visitor reaches has arguments up to and including that dimension; it leaves the processed program |
| TranspositionPass.ArgsAreAccepted | frontend/array_transpose.cpp:188-200 | with the unbounded dimension at place s of n, m arguments are accepted exactly if s < m <= n |
| TranspositionPass.ProcessableExactly | frontend/array_transpose.cpp:36-203 | that is when new orders exist that the whole program can be processed with |
| TranspositionPass.NestedAccessChangesMeaning | frontend/array_transpose.cpp:153-203 | a program that the pass accepts, with an access nested in another's argument, one of whose elements changes |
| AccessMaps.BuiltIsExact | frontend/ph_model_gen.cpp:1002-1120 | under the assignment of the new parameters to the values they stand for, a built expression is the program's index |
| AccessMaps.OneAssignmentFitsAll | frontend/ph_model_gen.cpp:734-769 | one assignment does so for all arguments of an application |
| AccessMaps.AccessMapOverApproximates | frontend/ph_model_gen.cpp:775-785 | the access map contains every element that the application can read |
| AccessMaps.AffineAccessMapIsExact | frontend/ph_model_gen.cpp:734-785 | and nothing else in the given dimensions when all indexes are affine |
| AccessMaps.PiecewiseBuilder.BuildArgs | frontend/ph_model_gen.cpp:734-743 | expressions, parameters and recorded subexpressions are those of the arguments built one after the other; affine arguments add no parameter and record nothing |
| AccessMaps.AffineNeedsNoParameter | frontend/ph_model_gen.cpp:1002-1104 | iterators and literals, sums, differences, negation, maximum and minimum, products with a literal, quotient and modulo by a literal need no parameter |
| AccessMaps.UnknownNeedsParameter | frontend/ph_model_gen.cpp:1106-1120 | an index with any other subexpression needs one |
| AccessMaps.ParametersAreNonAffine | frontend/ph_model_gen.cpp:1106-1120 | each parameter stands for the subexpression recorded for it |
| AccessMaps.AffineIndexesAreExact | frontend/ph_model_gen.cpp:734-785 | so the access map of affine indexes is exactly what they read |
| Shapes.CommonArraySize | common/func_types.cpp:99-130 | the least shape that both operands fit, or nothing if there is none |
| Shapes.JoinOperands | frontend/type_check.cpp:433-463 | the fold gives the least shape that all array operands fit, or the error if there is none |
| Shapes.OrderIsIrrelevant | frontend/type_check.cpp:433-463 | operands in any order, repeated or not, give the same shape or the same error |
| Shapes.JoinExistsExactly | common/func_types.cpp:112-127 | there is a common shape if and only if no dimension has two different sizes other than 1, and it has no size that no operand has |
| Shapes.Broadcast | frontend/array_reduction.cpp:877-894 | reading at 0 in dimensions of size 1 stays inside the operand |
| Shapes.JoinedIndexIsInside | frontend/array_reduction.cpp:877-894 | every index inside the common shape is broadcast to one inside each operand, unbounded dimensions included |
| ReferenceAnalysis.Analyzer.ProcessId | frontend/reference_analysis.cpp:19-42 | the state after the search from a name is that of the recursive definition |
| ReferenceAnalysis.MarkedAreRecursive | frontend/reference_analysis.cpp:27-34 | a marked name is on a loop of references and declarations |
| ReferenceAnalysis.EveryLoopIsMarked | frontend/reference_analysis.cpp:19-56 | every loop that is reachable from the processed names contains a marked name |
| ReferenceAnalysis.RootsAreExact | frontend/reference_analysis.cpp:13-42 | a name at which the search starts afresh is marked if and only if it is on a loop |
| ReferenceAnalysis.MembersMayStayUnmarked | frontend/reference_analysis.cpp:21-22 | other members may not be: 0 = (1, 2), 1 = 0, 2 = 0 leaves 2 unmarked |
| ReferenceAnalysis.Flatten | frontend/linear_expr_gen.cpp:118-132 | replacing unmarked names by their definitions ends, and no name is left |
| ReferenceAnalysis.FlattenSucceeds | frontend/linear_expr_gen.cpp:118-132 | it succeeds if and only if every name met on the way is unmarked and no definition met has a scope |
| ReferenceAnalysis.FlattenIsExpansion | frontend/linear_expr_gen.cpp:118-132 | and gives the expression with all definitions put in place |
| InflationPass.AnalyzeReferences | frontend/array_inflate.cpp:34-65 | for each name, exactly the names whose definitions mention it |
| InflationPass.CloseUnderReferences | frontend/array_inflate.cpp:195-218 | the least superset closed under the users of members that are not exceptions |
| InflationPass.InvolvedForAReason | frontend/array_inflate.cpp:195-218 | a name is involved only if it was so from the start or uses another involved name |
| InflationPass.StepIsValid | frontend/array_inflate.cpp:155-192 | a name outside the closure neither uses the variable nor mentions an inflated name |
| InflationPass.SuitedStays | frontend/array_inflate.cpp:122-134 | references and free variables found before the first inflation are still right for the other variables after it |
| InflationPass.ArrayInflater.InflateFor | frontend/array_inflate.cpp:155-192 | all involved names, one after the other, become what one simultaneous inflation step makes of them, with fresh variables |
| InflationPass.ArrayInflater.Process | frontend/array_inflate.cpp:122-193 | one step for each variable that is free somewhere, each for the names that it involves; then no definition has a free variable, and every name has, at the values of the variables it was inflated for followed by the old index, the element it had |
| InflationPass.StepKeepsElements | frontend/array_inflate.cpp:155-192 | one more step keeps that correspondence of elements |
| ArrayInflation.InflatedElement | frontend/array_inflate.cpp:255-270 | row k of an inflated name is what the name was where the variable was k |
| ArrayInflation.NoOtherRows | frontend/array_inflate.cpp:255-270 | and it has no row for any other value |
| ArrayInflation.InflationPreservesMeaning | frontend/array_inflate.cpp:253-345 | mutually recursive programs: inflation for one variable keeps the elements of all other names at every depth |
| ArrayInflation.ClosedNeedsNoEnv | frontend/array_inflate.cpp:14-32 | after the pass, an element does not depend on where its name is mentioned |
| IoClock.AddIoClock | frontend/ph_model_gen.cpp:1165-1241 | two relations for each infinite channel, none for the others |
| IoClock.ClockIsQuadraticOrder | frontend/ph_model_gen.cpp:1167-1173 | through the clock, x[i] is before y[j] if and only if both channels are infinite and i < j |
| IoClock.ClockIsAcyclic | frontend/ph_model_gen.cpp:1175-1178 | no access and no tick comes before itself |

## Left out

- The integer set library (isl and its C++ wrapper): its set operations are taken at their meaning, and coalescing as union-preserving, which leaves open which pieces it merges.
- The scheduler: scheduling.cpp is not part of this model. The results for runs assume of the schedule what it must provide: a lexicographic order in which the first coordinate of a point is the period, reads before writes at one schedule point, a write of each element before its reads, and periods that repeat (the accesses of period k are those of period 0 moved by k times the array's period, and explicit order within a period likewise); of the generated loops, that a loop executes whatever the schedule puts between two of its iterations; for shifting buffers also that the prelude's rows are not beyond the last row that a period accesses.
- ScheduledPrograms.FoldedProgramIsCorrect: of an element that is written and not read later it assumes that the elements needed at that time are written by the same instance, or that a read element written with it stands for it (WritesAreUsed). Without that it is false, for input elements that nothing reads (InputRows.UnreadElementOverwrites, InputRows.UnevenColumnsOverwrite).
- The order and size limit by which buffers that need not be kept are put on the stack (cpp/cpp_target.cpp:419-453): easy.
- Widths of machine integers: sizes, indexes and phases are unbounded.
- Floating point in `log2`, `pow` and `0.1 * period_size`: taken exact, as are the integer conversions of their results.
- Loop-invariant code motion, the printed C++ text, and the old LLVM and CLooG code paths.
- Modulo by a divisor that is not positive, division by zero, and C++ division of negative operands.
- Types of elements: arrays hold integers, and primitives are uninterpreted except the comparisons and sums that lowering itself introduces.
- Pointwise primitives over arrays, eta expansion and lambda lifting in array_reduction.cpp; only the shapes of pointwise operands and their broadcast indexes are modelled.
- External calls with array arguments, and names without an expression.
- Expressions shared between two places: expressions are values, so a pass that rewrites a shared node twice is not captured; the AST passes read and update a map from names to definitions.
- ArrayChecks.CheckedArrayMakesStatements: for arrays that are not nested in another array, since the later check sees nested arrays only after they were merged.
- ScheduledPrograms.LivePairsAreCovered: in default mode with two or more dimensions it needs the sign condition on what was collected, since the source adds one direction only; without it the result is false where coalescing leaves the pieces apart (Conflicts.TwoElementsShareACell).
- GeneratedRuns.RunGenerated: memory is a map of addresses for all buffers; that the shift of a flat array does the same is FlatRows.ShiftData and FlatRows.ShiftKeepsLayout, and the buffer as an array is the class DataShifting.ShiftBuffer.
- JoinMeaning.LoweringPreservesMeaning: a recursive array written as an operand has the rank of the result, because the source's substitution applies the result to all of its indexes. Elements gained are those of JoinExactness.SelfOutsideGainsValue: the converse is JoinExactness.LoweringIsExact, for operands that use no variables but their own.
- TranspositionPass.PassPreservesMeaning: for programs without an access that moves nested in an application's argument, the family in which the pass fails; names with an unbounded dimension are mentioned with arguments only.
- InflationPass.ArrayInflater.Process: array self references, which the pass leaves alone, and ranges that are not constant are not modelled; what the scopes of the parsed program give is the hypothesis LexicallyScoped.
- ReferenceAnalysis.RootsAreExact: for names at which the search starts; which other members of a loop are marked depends on the order of the search.
- ReferenceAnalysis.Flatten: every operator counts as affine; the check of operators in linear_expr_gen.cpp only refuses more.
- AccessMaps.AffineAccessMapIsExact: states exactness where no index needs a parameter, as affine ones do not; with parameters the map is only an over-approximation, as the source intends.
- IoClock.ClockIsQuadraticOrder: channels have one dimension that starts at 0, as infinite channels do.
