# Phase-polynomial partitioning in qsyn, modelled in Dafny

This project models the phase-polynomial (`pp`) package of the qsyn quantum
synthesis framework, plus the two utility headers it depends on:

- **Phase-polynomial extraction** (`Phase_Polynomial`, `src/pp/pp.cpp`). A
  circuit is read gate by gate.
  - A CX gate adds the control's parity row into the target's row of the
    wire matrix. The wire matrix is a GF(2) matrix and starts as the identity.
  - A single-qubit Z rotation (`pz`/`rz`) records the current parity of its
    wire as a term. Its phase goes into that term's coefficient: it merges
    into an existing term or appends a new one.
  - Any other gate stops the extraction with `false`.
- **Partitioning of the polynomial's terms** (`Partitioning`,
  `src/pp/pp_partition.cpp`). There are two strategies.
  - The *greedy* strategy, for every wire matrix of an `HMAP`, collects the
    constructable terms into partitions of `qubit_num` rows. It uses the
    *independent oracle*: `variable - rank(S + t) <= qubit_num - |S + t|`,
    computed in `size_t`.
  - The *matroid* strategy builds one node per term, an exchange graph, and a
    search for an augmenting path.
- **The older stand-alone `Matroid`** (`src/pp/matroid.cpp/.hpp`). It has a
  graph of nodes held by value and its own oracle.
- **The logger** (`src/util/logger.hpp`): a level, a 16-bit mask of
  suppressed levels, indentation, the log buffer, and name ↔ level
  conversion.
- **The small generic helpers in `src/util/util.hpp`**: `stripComments`,
  `contains`, `findIndex`, `implies`, and the `operator<<` for vectors.

The model is written as pure functions over immutable datatypes.

- **Matrices** are `seq<seq<bool>>` (module `BooleanMatrix`). Rank over GF(2)
  is the size of an echelon basis, built by inserting rows one at a time.
  Module `RowSpace` defines the row space independently (a row is in the span
  when it is the XOR of some subset of the rows) and proves that pushing a row
  keeps this rank exactly when the row lies in the span, and raises it by one
  otherwise.
- **`size_t`** is an integer below 2^64 (module `CppSize`). Subtraction,
  addition and narrowing wrap explicitly, because the source's arithmetic
  does.
- **Phases** are whole multiples of 2π/2520 and add modulo 2520.
- **Run-time failures:** an `assert` that can fail in the source, and a
  `value()` on an empty `std::optional`, both become a `Failure` of a
  `Result`. Each failure is named after what went wrong.

The partitioning code has run-time failures in its normal paths. The proved
contracts make them precise:

- The greedy strategy fails exactly when some term is not constructable from
  any wire matrix (`GreedyPartition.GreedyPartitioning`).
- The matroid strategy succeeds exactly when the polynomial is already empty
  (`MatroidPartition.MatroidPartitioning`). The reason is that its routine
  never erases a term from `_poly`.
- On the path that opens a new partition, the matroid strategy stores the
  address of a local `Partition` in `in_p`. The model keeps a partition
  *index* there instead, namely the index of the partition just appended.
- The oracle's `size_t` subtraction wraps. Once a partition has more rows than
  `qubit_num`, the right-hand side becomes huge, so the oracle accepts
  (`PpPartition.OracleAcceptsOverfull`, `PpPartition.OracleAcceptsThirdRow`).
- In the greedy routine:
  - A term the oracle rejects is still recorded as partitioned. It is erased
    from the polynomial without being placed anywhere.
  - The unfinished last partition is discarded.
  - Both are proved in `GreedyPartition.DroppedRows`.
  - When `qubit_num < 2`, the open partition can already be larger than
    `qubit_num` before the size test, so it is never closed.

The logger's doc comments say that only fatal messages go to stderr and that
errors go to stdout. The code sends fatal, error and warning messages to
stderr and the other levels to stdout. The model follows the code
(`Logger.Emit`).

## Model

| member | source | states |
|---|---|---|
| CppSize.ToSize | src/util/logger.hpp:118 | narrowing to `size_t` keeps values below 2^64, never grows a value, and keeps it congruent modulo 2^64 |
| CppSize.AddW | src/pp/pp_partition.hpp:64 | `n + a` in `size_t` is the exact sum below 2^64 and the sum minus 2^64 above |
| CppSize.SubW | src/pp/pp_partition.cpp:45 | `size_t` subtraction is exact when no borrow occurs; with a borrow the result is at least 2^64 - b |
| CppSize.SubWThenAddW | src/pp/pp_partition.cpp:45 | wrapped subtraction is undone by wrapped addition, for every pair of `size_t` values |
| BooleanMatrix.IdentityIsIdentity | src/pp/pp.cpp:105-107 | the n×n matrix with ones on the diagonal has unit row i at every row i |
| BooleanMatrix.PushRow | src/pp/pp.cpp:77 | appending a row adds exactly that row at the end and keeps every earlier row |
| BooleanMatrix.EraseRow | src/pp/pp_partition.cpp:102 | erasing row i shortens the matrix by one, keeps rows before i and shifts later rows down by one |
| BooleanMatrix.FindRow | src/pp/pp.cpp:73-74 | the lookup gives the first index holding the row, and gives nothing exactly when the row is absent |
| BooleanMatrix.RowOperation | src/pp/pp.cpp:43 | a row operation XORs the control row into the target row and leaves every other row unchanged |
| BooleanMatrix.Pivot | src/pp/pp_partition.cpp:43 | a row's pivot is its first set column, and there is none exactly when the row is all zero |
| BooleanMatrix.Echelon | src/pp/pp_partition.cpp:43 | the echelon basis is no larger than the matrix and holds no zero row |
| BooleanMatrix.Rank | src/pp/pp_partition.cpp:43 | the rank never exceeds the number of rows |
| BooleanMatrix.RankAppend | src/pp/pp_partition.cpp:41-43 | pushing one row raises the rank by zero or one |
| BooleanMatrix.ReduceZero | src/pp/pp_partition.cpp:43 | reducing a zero row against any basis leaves it zero |
| BooleanMatrix.RankZeroRow | src/pp/pp_partition.cpp:41-43 | pushing a zero row leaves the rank unchanged |
| BooleanMatrix.RankSingleton | src/pp/pp_partition.cpp:89-90 | a one-row partition has rank 1 unless its row is zero |
| BooleanMatrix.PivotUnitRow | src/pp/pp.cpp:106 | the pivot of unit row i is column i |
| BooleanMatrix.ReduceUntouched | src/pp/pp_partition.cpp:43 | a row that is zero at every basis pivot is unchanged by reduction |
| BooleanMatrix.UnitRowsSnoc | src/pp/pp.cpp:105-107 | the first k unit rows are the first k - 1 followed by unit row k - 1 |
| BooleanMatrix.EchelonUnitRows | src/pp/pp.cpp:105-107 | the first k unit rows are their own echelon basis |
| BooleanMatrix.RankIdentity | src/pp/pp.cpp:103-109 | the initial wire matrix on n qubits has rank n |
| RowSpace.ParityLinear | src/pp/pp_partition.cpp:43 | selecting rows by the XOR of two selections gives the XOR of the two column parities |
| RowSpace.ParityCons | src/pp/pp_partition.cpp:43 | a column parity splits off the first selected row as well as the last |
| RowSpace.ParityOnlyAt | src/pp/pp_partition.cpp:43 | when only row i can contribute to a column, the parity is that row's bit |
| RowSpace.SpanZero | src/pp/pp_partition.cpp:43 | the zero row is in every span |
| RowSpace.SpanXor | src/pp/pp_partition.cpp:43 | the span is closed under XOR |
| RowSpace.ParitySnoc | src/pp/pp_partition.cpp:41-43 | pushing a selected row adds its bit to every column parity, and an unselected row adds nothing |
| RowSpace.SpanExtend | src/pp/pp_partition.cpp:41-43 | pushing a row keeps every row already in the span |
| RowSpace.SpanExtendAll | src/pp/pp_partition.cpp:41-43 | pushing a row keeps a whole matrix of span members in the span |
| RowSpace.SpanAddLast | src/pp/pp_partition.cpp:41-43 | a span member XOR the pushed row is in the grown span |
| RowSpace.SpanCombo | src/pp/pp_partition.cpp:43 | a XOR of span members is a span member |
| RowSpace.SpanOfSpan | src/pp/pp_partition.cpp:43 | a row in the span of rows that are each in the span of `m` is in the span of `m` |
| RowSpace.XorZero | src/pp/pp_partition.cpp:43 | XOR with a zero row changes nothing |
| RowSpace.ReduceOffsetCons | src/pp/pp_partition.cpp:43 | eliminating against one more leading basis row keeps the change to the row inside the grown span |
| RowSpace.ReduceOffset | src/pp/pp_partition.cpp:43 | elimination changes a row only by a XOR of basis rows |
| RowSpace.ReduceKeepsColumn | src/pp/pp_partition.cpp:43 | a column clear in every basis row is left alone by elimination |
| RowSpace.ReducePivotsClear | src/pp/pp_partition.cpp:43 | eliminating against an echelon basis clears every pivot column |
| RowSpace.EchelonFormSnoc | src/pp/pp_partition.cpp:43 | a non-zero row clear at every pivot of an echelon basis extends it to a larger echelon basis |
| RowSpace.EchelonShape | src/pp/pp_partition.cpp:43 | the computed basis has a pivot in every row and each later row clear at the earlier pivots |
| RowSpace.ReducedRowInSpan | src/pp/pp_partition.cpp:41-43 | the reduced form of a pushed row is a XOR of the rows so far |
| RowSpace.EchelonRowsStep | src/pp/pp_partition.cpp:41-43 | one elimination step keeps every basis row in the span of the rows so far |
| RowSpace.EchelonRowsInSpan | src/pp/pp_partition.cpp:43 | every basis row is a XOR of rows of the matrix |
| RowSpace.RowsInSpanStep | src/pp/pp_partition.cpp:41-43 | one elimination step keeps every row so far in the span of the basis |
| RowSpace.RowsInEchelonSpan | src/pp/pp_partition.cpp:43 | every row of the matrix is a XOR of basis rows |
| RowSpace.EchelonIsBasis | src/pp/pp_partition.cpp:43 | the computed basis and the matrix span each other's rows, and the basis is in echelon form |
| RowSpace.ComboHitsPivot | src/pp/pp_partition.cpp:43 | a XOR of echelon rows has a one at the pivot of its first selected row |
| RowSpace.SpanClearAtPivotsIsZero | src/pp/pp_partition.cpp:43 | a member of an echelon span that is clear at every pivot is zero |
| RowSpace.VanishedInSpan | src/pp/pp_partition.cpp:43 | a row that eliminates to zero is in the span of the matrix |
| RowSpace.InSpanVanishes | src/pp/pp_partition.cpp:43 | a row in the span of the matrix eliminates to zero |
| RowSpace.XorCancel | src/pp/pp_partition.cpp:43 | XOR-ing the same row twice cancels |
| RowSpace.ReduceStaysInSpan | src/pp/pp_partition.cpp:43 | eliminating a member of the basis's span leaves a member of that span |
| RowSpace.ReduceVanishesIffInSpan | src/pp/pp_partition.cpp:43 | a row eliminates to zero exactly when it is in the span of the matrix |
| RowSpace.RankGrowsIffOutsideSpan | src/pp/pp_partition.cpp:41-43 | pushing a row of the same width keeps the rank exactly when the row is a XOR of rows already there, and raises it by one exactly when it is not |
| PhasePoly.InitialWire | src/pp/pp.cpp:103-109 | the initial wires are the n×n identity: wire i carries exactly variable i |
| PhasePoly.Reset | src/pp/pp.cpp:91-95 | reset empties terms and coefficients, restores identity wires and keeps the qubit count |
| PhasePoly.InsertPhase | src/pp/pp.cpp:68-82 | a rotation on qubit q adds its phase to the coefficient of the term equal to wire q when present, otherwise appends that term with the phase; it always reports success and leaves the wires alone |
| PhasePoly.InsertPhasePreservesValid | src/pp/pp.cpp:72-79 | terms and coefficients stay in step and terms stay distinct after an insertion |
| PhasePoly.ApplyCx | src/pp/pp.cpp:42-43 | a CX replaces the target wire by target XOR control and changes nothing else |
| PhasePoly.Step | src/pp/pp.cpp:41-54 | one gate is processed exactly when it is a CX or a one-qubit pz/rz rotation, and processing keeps the state well formed |
| PhasePoly.Run | src/pp/pp.cpp:41-54 | the gate loop succeeds exactly when every gate is supported |
| PhasePoly.CalculatePP | src/pp/pp.cpp:31-60 | extraction returns true exactly when every gate is supported, and the state is well formed over the circuit's qubit count |
| PhasePoly.RunAppend | src/pp/pp.cpp:41-54 | running `pre + post` runs `post` from the state after `pre`, unless `pre` already failed |
| PhasePoly.StopsAtFirstUnsupported | src/pp/pp.cpp:50-53 | the first unsupported gate stops extraction, and the state is the one reached by the gates before it |
| PhasePoly.CxRunKeepsWire | src/pp/pp.cpp:42-43 | CX gates that do not target q leave wire q, the terms and the coefficients unchanged |
| PhasePoly.TwoRotationsMerge | src/pp/pp.cpp:72-78 | two rotations on the same parity, separated by CXs that do not touch it, merge into one term whose coefficient is the sum of both phases |
| PhasePoly.SingleRotationExample | src/pp/pp.cpp:31-60 | an rz(π/2) on qubit 0 of a 2-qubit circuit yields the single term x0 with coefficient 630/2520 |
| PhasePoly.CxThenRotationExample | src/pp/pp.cpp:42-48 | CX(0,1) then rz on qubit 1 yields the single term x0 ⊕ x1 |
| PpPartition.DefaultPartitioning | src/pp/pp_partition.hpp:63 | the default constructor leaves no partitions and an empty polynomial; the uninitialised sizes are parameters |
| PpPartition.NewPartitioning | src/pp/pp_partition.hpp:64 | the constructor stores the polynomial, `variable = n` and `qubit_num = n + a` in `size_t` |
| PpPartition.Initial | src/pp/pp_partition.cpp:28-33 | `initial` sets `qubit_num = n + a`, the polynomial and `variable = n`, and clears the partitions |
| PpPartition.InitialIsConstructor | src/pp/pp_partition.cpp:28-33 | whatever the previous state, `initial` gives the same object as the three-argument constructor |
| PpPartition.GetPartitions | src/pp/pp_partition.hpp:81 | the getter returns a copy of every partition, in order |
| PpPartition.GetPolyRow | src/pp/pp_partition.hpp:82 | row i of the polynomial is returned, and it is one of the polynomial's terms |
| PpPartition.OracleIsLemmaBound | src/pp/pp_partition.cpp:40-46 | when neither subtraction borrows, the oracle holds exactly when `variable - rank(S + t) <= qubit_num - (|S| + 1)` over the integers |
| PpPartition.OracleAcceptsOverfull | src/pp/pp_partition.cpp:45 | once `|S| + 1 > qubit_num`, the right-hand side borrows and wraps to at least 2^64 minus the excess, so the oracle accepts whenever `variable - rank` is below that |
| PpPartition.OracleAcceptsThirdRow | src/pp/pp_partition.cpp:45 | with two variables and two qubits, a full partition of rank 2 still accepts a third row, although the integer bound rejects it |
| GreedyPartition.EraseRows | src/pp/pp_partition.cpp:102 | erasing a strictly descending list of indices removes exactly that many rows |
| GreedyPartition.RejectsMembers | src/pp/pp_partition.cpp:87 | the rows kept after the erase are exactly the rows the test rejects |
| GreedyPartition.ConstructableIffInSpan | src/pp/pp_partition.cpp:76-80 | when `rank` is the rank of the wires, a row is constructable exactly when it is a XOR of wire rows |
| GreedyPartition.NotConstructableMembers | src/pp/pp_partition.cpp:76-80 | a row survives a routine exactly when pushing it onto the wires changes the rank away from `rank` |
| GreedyPartition.ChosenDesc | src/pp/pp_partition.cpp:91 | indices are pushed to the front, so the recorded list is strictly descending and below the rows scanned |
| GreedyPartition.ChosenDescPrefix | src/pp/pp_partition.cpp:82-100 | the recorded indices depend only on the rows scanned so far |
| GreedyPartition.ScanPartitioned | src/pp/pp_partition.cpp:87-99 | every constructable row is recorded, whether or not the oracle accepted it |
| GreedyPartition.RejectsSnoc | src/pp/pp_partition.cpp:87 | the kept rows grow by one row exactly when the next row fails the test |
| GreedyPartition.EraseChosen | src/pp/pp_partition.cpp:102 | erasing the recorded indices in descending order leaves exactly the non-constructable rows, in order |
| GreedyPartition.EraseTakenUnfold | src/pp/pp_partition.cpp:102 | erasing the chosen indices starts with the last chosen row and then erases what the shortened matrix chooses |
| GreedyPartition.EraseTakenRest | src/pp/pp_partition.cpp:102 | after erasing a chosen last row, the kept rows and the tail are exactly those of the original matrix |
| GreedyPartition.EraseTakenStep | src/pp/pp_partition.cpp:102 | erasing the highest recorded index first removes exactly that row and leaves the lower indices pointing at the same rows |
| GreedyPartition.EraseKeptStep | src/pp/pp_partition.cpp:87 | a row that fails the test is not recorded and stays in place after the erase |
| GreedyPartition.ExtendsWithFullTrans | src/pp/pp_partition.cpp:54-56 | extending by full partitions composes across routine calls |
| GreedyPartition.ClosedPartitionsFull | src/pp/pp_partition.cpp:95-98 | every partition the routine closes has exactly `qubit_num` rows |
| GreedyPartition.OpenPartitionBounded | src/pp/pp_partition.cpp:89-98 | with `qubit_num >= 2` the open partition always stays below `qubit_num` rows |
| GreedyPartition.GreedyRoutine | src/pp/pp_partition.cpp:68-104 | one routine keeps the sizes, leaves exactly the non-constructable rows in the polynomial, and only appends full partitions |
| GreedyPartition.ScanRowHeld | src/pp/pp_partition.cpp:87-94 | after one step a held row was held before or is the constructable new row; a row the oracle rejects is not added |
| GreedyPartition.HeldFromPrefix | src/pp/pp_partition.cpp:82-100 | every row placed in a partition is a constructable row of the polynomial scanned so far |
| GreedyPartition.NotInEarlierRows | src/pp/pp_partition.cpp:82-83 | in a polynomial without duplicate rows, row i does not occur before i |
| GreedyPartition.RejectedNeverHeld | src/pp/pp_partition.cpp:94 | a constructable row the oracle rejected is never in a closed or the open partition |
| GreedyPartition.OpenDisjointFromClosed | src/pp/pp_partition.cpp:95-98 | the rows of the open partition are in no closed partition |
| GreedyPartition.DroppedRows | src/pp/pp_partition.cpp:94-102 | rows the oracle rejected, and rows left in the unfinished partition, end up in no new partition and are gone from the polynomial |
| GreedyPartition.GreedyLoop | src/pp/pp_partition.cpp:54-56 | the loop over the wire map keeps the sizes and only appends full partitions |
| GreedyPartition.UnplacedMembers | src/pp/pp_partition.cpp:54-56 | the rows left after all routines are exactly the rows constructable from no wire matrix of the map |
| GreedyPartition.UnplacedStep | src/pp/pp_partition.cpp:54-56 | peeling off the first wire matrix commutes with the rows left by the rest |
| GreedyPartition.GreedyLoopPoly | src/pp/pp_partition.cpp:54-56 | after the loop the polynomial holds exactly the rows that no wire matrix can construct |
| GreedyPartition.UnplacedNone | src/pp/pp_partition.cpp:54-56 | with an empty map no row is removed |
| GreedyPartition.GreedyPartitioning | src/pp/pp_partition.cpp:53-60 | greedy partitioning succeeds exactly when every term is constructable from some wire matrix; otherwise the closing assert fails; on success the polynomial is empty and only full partitions were added |
| MatroidPartition.NewMatroid | src/pp/pp_partition.cpp:135-141 | the inner matroid has one fresh node per polynomial row, node i standing for row i, with no partition, no edges, no path and no mark |
| MatroidPartition.ResetMarks | src/pp/pp_partition.cpp:307-313 | resetting clears every node's path and mark and changes nothing else |
| MatroidPartition.RemoveFromPartition | src/pp/pp_partition.cpp:144-152 | removal fails exactly when the node's row is not in the partition; otherwise it erases the first occurrence and clears the node's partition |
| MatroidPartition.AddToPartition | src/pp/pp_partition.cpp:154-159 | adding fails exactly when the row is already there; otherwise it appends the row and points the node at the partition |
| MatroidPartition.IsReplaceable | src/pp/pp_partition.cpp:161-177 | a node in no partition is not replaceable; otherwise the test fails, with a missing row, exactly when its row is missing, clears the node's partition, and answers the oracle on the partition without a's row plus b's row |
| MatroidPartition.AddEdge | src/pp/pp_partition.cpp:191-192 | adding an edge keeps every node's row and partition |
| MatroidPartition.Visit | src/pp/pp_partition.cpp:184-193 | one pass of the edge loop skips `n`; at another node it fails exactly when that node points at a partition lacking its row, and otherwise clears that node's partition and adds the edge `n -> u` with its mirror exactly when `u` is replaceable by `n`, touching no other node |
| MatroidPartition.VisitCallsIsReplaceable | src/pp/pp_partition.cpp:187-192 | the pass at a node other than `n` is exactly `is_replaceable(u, n)` followed by the edge and its mirror on a true answer |
| MatroidPartition.BuildEdges | src/pp/pp_partition.cpp:184-194 | building the exchange graph keeps the nodes valid and never assigns a node a new partition; its only failure is a missing row |
| MatroidPartition.SameFromKeeps | src/pp/pp_partition.cpp:161-177 | whether a node is misplaced or replaceable depends only on its row, its partition and the other node's row |
| MatroidPartition.BuildEdgesFails | src/pp/pp_partition.cpp:184-194 | the edge loop from `u` succeeds exactly when no later node other than `n` points at a partition that lacks its row, so it fails exactly when one does |
| MatroidPartition.FailsAfterStep | src/pp/pp_partition.cpp:184-194 | a pass that does not fail leaves the success of the loop decided by the later nodes alone |
| MatroidPartition.BuildEdgesClears | src/pp/pp_partition.cpp:184-194 | after the loop from `u`, every later node other than `n` is in no partition, and every other node keeps its partition |
| MatroidPartition.BuildEdgesLinks | src/pp/pp_partition.cpp:184-194 | after the loop from `u`, `i` is a successor of `n` exactly when it was before or `i` is a later node other than `n` that `n` can replace |
| MatroidPartition.LinksAfterStep | src/pp/pp_partition.cpp:184-194 | the successors added by one pass and by the rest of the loop are those of the whole loop |
| MatroidPartition.BuildEdgesMirrors | src/pp/pp_partition.cpp:184-194 | after the loop from `u`, a node other than `n` gains `n` as predecessor, once, exactly when it is a later node that `n` can replace, and is otherwise unchanged in its predecessors |
| MatroidPartition.MirrorsAfterStep | src/pp/pp_partition.cpp:184-194 | the predecessors added by one pass and by the rest of the loop are those of the whole loop |
| MatroidPartition.BuildEdgesUnplaced | src/pp/pp_partition.cpp:184-194 | when no node sits in a partition, building edges changes nothing |
| MatroidPartition.ScanPartitions | src/pp/pp_partition.cpp:249-289 | the partition scan finds no path exactly when every partition holds the row, finds the path exactly when the first partition lacking it passes the oracle, and fails exactly when that partition fails the oracle |
| MatroidPartition.FindShortestPath | src/pp/pp_partition.cpp:236-300 | the search resets marks, and returns either no path, or the path holding just the start node, or a failure; the cases are told apart by the first partition lacking the start row and the oracle on it |
| MatroidPartition.WalkStep | src/pp/pp_partition.cpp:221-225 | one replacement step keeps the polynomial, the sizes, the number of partitions and every partition's row count |
| MatroidPartition.Walk | src/pp/pp_partition.cpp:218-226 | walking a path keeps partition counts and row counts, and a one-node path changes nothing |
| MatroidPartition.OpenPartition | src/pp/pp_partition.cpp:205-213 | with no path, exactly one partition holding just the node's row is appended, the node points at it, and the call reports false |
| MatroidPartition.SearchAndPlace | src/pp/pp_partition.cpp:202-228 | after the edge loop: no path, and a new partition holding just the row, exactly when every partition holds the row; a path, and the state unchanged, exactly when the first partition lacking the row passes the oracle; failure exactly when it fails the oracle |
| MatroidPartition.AddIntoPartitions | src/pp/pp_partition.cpp:143-228 | adding a node fails with a missing row exactly when another node points at a partition that lacks its row; otherwise it opens a new partition holding just its row exactly when every partition holds it, reports a path with the state unchanged exactly when the first partition lacking it passes the oracle, and fails exactly when that partition fails the oracle |
| MatroidPartition.FirstNodeOpensPartition | src/pp/pp_partition.cpp:205-213 | in a fresh matroid the first node opens the partition holding the first polynomial row |
| MatroidPartition.RoutineFrom | src/pp/pp_partition.cpp:125-127 | adding the remaining nodes keeps the polynomial and the sizes, and with no nodes left changes nothing |
| MatroidPartition.MatroidRoutine | src/pp/pp_partition.cpp:122-128 | the routine never changes the polynomial or the sizes, and an empty polynomial is left as it is |
| MatroidPartition.MatroidLoop | src/pp/pp_partition.cpp:113-115 | running the routine once per map entry never changes the polynomial |
| MatroidPartition.MatroidPartitioning | src/pp/pp_partition.cpp:111-120 | matroid partitioning passes its closing assert exactly when the polynomial was empty at the start, and then returns the state unchanged |
| MatroidPartition.MatroidIgnoresHmap | src/pp/pp_partition.cpp:113-115 | only the number of map entries matters, never their contents |
| LegacyMatroid.DefaultMatroid | src/pp/matroid.hpp:39 | the default matroid has no partitions, no nodes and an empty polynomial |
| LegacyMatroid.Initial | src/pp/matroid.cpp:28-40 | `initial` sets the sizes and polynomial, keeps the partitions, keeps the existing nodes and appends one fresh node per row |
| LegacyMatroid.NewMatroid | src/pp/matroid.hpp:40 | the constructor yields exactly one fresh node per row, node i for row i, and no partitions |
| LegacyMatroid.ConstructorIsDefaultThenInitial | src/pp/matroid.hpp:39-40 | the three-argument constructor is the default one followed by `initial` |
| LegacyMatroid.InitialTwiceKeepsNodes | src/pp/matroid.cpp:33-38 | calling `initial` again keeps the earlier nodes and adds the new ones |
| LegacyMatroid.IndependantOracle | src/pp/matroid.cpp:107-111 | without borrow the oracle is the integer bound `variable - rank(S) <= qubit_num - |S|`; it agrees with the partitioning oracle on S minus its last row plus that row |
| LegacyMatroid.IsReplaceable | src/pp/matroid.cpp:49-57 | replaceability fails exactly when a's row is missing from its own partition or a row index is out of range; otherwise it is the oracle on the exchanged partition |
| LegacyMatroid.EdgeLoop | src/pp/matroid.cpp:65-70 | the edge loop over the remaining graph nodes succeeds exactly when the replaceability test succeeds for each of them, and then returns true |
| LegacyMatroid.AddIntoPartition | src/pp/matroid.cpp:47-77 | `add_into_partition` fails exactly when some graph node's row is not in its own partition; otherwise it returns true and leaves the matroid unchanged, because its edges go to copies |
| LegacyMatroid.FreshGraphFails | src/pp/matroid.cpp:50-52 | on a freshly constructed matroid with a non-empty polynomial the first replaceability assert fails |
| LegacyMatroid.ResetMarks | src/pp/matroid.hpp:50 | `reset_marks` works on copies and changes neither the graph nor the partitions |
| LegacyMatroid.PartitionsStayEmpty | src/pp/matroid.cpp:65-76 | any run of `add_into_partition` calls leaves a fresh matroid's partitions empty |
| LegacyMatroid.ApplyAddsFixed | src/pp/matroid.cpp:65-76 | any run of `add_into_partition` calls leaves the matroid unchanged |
| LogLevels.Index | src/util/logger.hpp:29-37 | each level has a position among the seven levels |
| LogLevels.AtLeastByIndex | src/util/logger.hpp:49 | comparing the enum values agrees with comparing positions in the order none, fatal, …, trace |
| LogLevels.DistinctBits | src/util/logger.hpp:29-37 | different levels have disjoint bits |
| LogLevels.OrOtherLevel | src/util/logger.hpp:46 | setting one level's bit leaves every other level's bit as it was |
| LogLevels.AndNotOtherLevel | src/util/logger.hpp:45 | clearing one level's bit leaves every other level's bit as it was |
| LogLevels.WithBit | src/util/logger.hpp:46 | or-ing in a level's value sets that level's bit, unless the level is none, and keeps all others |
| LogLevels.WithoutBit | src/util/logger.hpp:45 | and-ing with the complement clears that level's bit and keeps all others |
| LogLevels.NoneHasNoBit | src/util/logger.hpp:30 | the level none is never masked, and masking or unmasking it changes nothing |
| LogLevels.WithoutAfterWith | src/util/logger.hpp:45-46 | clearing a bit just set restores a filter in which it was clear |
| Logger.DefaultLogger | src/util/logger.hpp:222-226 | a new logger has an empty log, level WARNING, nothing masked, indent 0 and indent width 2 |
| Logger.DefaultPrinting | src/util/logger.hpp:223-224 | a new logger prints fatal, error and warning messages and suppresses info, debug and trace |
| Logger.SetLogLevel | src/util/logger.hpp:43 | setting the level changes only the level: the log, the mask, the indent and the indent width are kept |
| Logger.SetLogLevelPrinting | src/util/logger.hpp:43-50 | after setting level L a message level prints exactly when it is unmasked and not above L |
| Logger.PrintingByIndex | src/util/logger.hpp:48-50 | a level prints exactly when it is unmasked and not above the logger's level |
| Logger.Mask | src/util/logger.hpp:46 | masking a level makes it masked, leaves the other levels' masks alone and changes no field but the filter |
| Logger.Unmask | src/util/logger.hpp:45 | unmasking a level makes it unmasked, leaves the other levels' masks alone and changes no field but the filter |
| Logger.UnmaskAfterMask | src/util/logger.hpp:45-47 | unmask undoes mask on an unmasked level, and masking none is a no-op |
| Logger.Indent | src/util/logger.hpp:52-55 | indenting adds one in `size_t`, wrapping to 0 at 2^64, and changes no field but the indent level |
| Logger.Unindent | src/util/logger.hpp:56-59 | unindenting subtracts one, but never below zero, and changes no field but the indent level |
| Logger.UnindentAfterIndent | src/util/logger.hpp:52-59 | unindent undoes indent whenever indent does not wrap |
| Logger.LogLevel2Str | src/util/logger.hpp:71-91 | each level's name is a non-empty lower-case word |
| Logger.Lower | src/util/logger.hpp:96 | lower-casing maps A–Z to a–z and keeps every other character |
| Logger.Level | src/util/logger.hpp:29-37 | the level at position k has position k |
| Logger.MatchFrom | src/util/logger.hpp:96-104 | the prefix search returns the first level from position k on whose name starts with the lowered input, or none when no such level exists |
| Logger.Str2LogLevel | src/util/logger.hpp:93-105 | parsing returns the first level in declaration order whose name starts with the lower-cased input, nothing when none does, and none for the empty string |
| Logger.NamesPrefixFree | src/util/logger.hpp:71-91 | no level name is a prefix of another level's name |
| Logger.DistinctInitials | src/util/logger.hpp:71-91 | the level names begin with seven distinct letters |
| Logger.LevelNameRoundTrip | src/util/logger.hpp:71-105 | parsing a level's name gives back that level |
| Logger.Spaces | src/util/logger.hpp:118 | the padding is n spaces |
| Logger.Emit | src/util/logger.hpp:114-219 | every message is appended to the log as "[Tag]", the `size_t` product indent × width of spaces, a space, and the text; it is printed exactly when its level is printing, and fatal, error and warning go to stderr |
| Logger.MaskedStillLogged | src/util/logger.hpp:116-122 | a masked message is not printed but is still recorded |
| Logger.PrintLogs | src/util/logger.hpp:61-69 | with no count every entry is printed; with a count up to the log size, the last that many entries; with a larger count, none, because the start index wraps |
| Util.FindFrom | src/util/util.hpp:94 | the search gives the first occurrence of the pattern at or after a position, or reports that none exists |
| Util.StripComments | src/util/util.hpp:94 | the stripped line is a prefix of the line with no `//` in it, and it is cut exactly at the first `//` |
| Util.StripCommentsIdempotent | src/util/util.hpp:94 | stripping twice is stripping once |
| Util.StripCommentsRemovesMarker | src/util/util.hpp:94 | the line is shortened exactly when it contains `//` |
| Util.FindIndex | src/util/util.hpp:132-135 | the index is the first position holding the element, or the length when there is none |
| Util.Contains | src/util/util.hpp:127-130 | `contains` is membership |
| Util.ContainsIffFound | src/util/util.hpp:127-135 | `contains` holds exactly when `findIndex` is below the length, and `findIndex` is the length otherwise |
| Util.Implies | src/util/util.hpp:137 | `implies(a, b)` is logical implication |
| Util.FormatVector | src/util/util.hpp:139-149 | printing a vector gives "[", its elements joined by ", ", and "]", and "[]" when it is empty |

## Left out

- Console output (`cout`, `print_matrix`, `print_partitions`, `print_wires`,
  `print_polynomial`, spdlog levels): output is not state, so it is dropped.
- `src/util/boolean_matrix.hpp` is not part of this model. Push, erase,
  find, row operation and rank are defined from the way `pp` uses them.
  `gaussian_elimination_skip` is taken to return the GF(2) rank whatever its
  second argument.
- `dvlab::Phase` is not part of this model. A phase is a whole multiple of
  2π/2520 that adds modulo 2520.
- The QCir API (`get_topologically_ordered_gates`, `is_cx`,
  `get_rotation_category`, …) is not part of this model. A circuit is given
  as a qubit count and an ordered gate list. Every qubit id of a gate is
  assumed to be below the circuit's qubit count (`WellFormedGate`), as a
  well-formed circuit guarantees.
- Fields the default constructors leave uninitialised (`_variable`,
  `_qubit_num`) are parameters of `DefaultPartitioning` and `DefaultMatroid`.
- `MatroidPartition.FindShortestPath`: it does not model the exchange scan
  (pp_partition.cpp:260-286). Reaching that branch ends in `A->erase_row` on
  the empty `optional` `r`, so the whole branch is modelled as the failure
  `EmptyOptional`. The search therefore returns no path, the start node
  alone, or that failure.
- `MatroidPartition.WalkStep`: pp_partition.cpp:222 passes `(*node)->in_p`, a
  `Partition*`, where the lambda at :144 takes a `Partition&`, which does not
  compile as written. The model reads it as `*(*node)->in_p`, the partition
  the pointer designates, and a null pointer as the failure `NullPartition`.
  The walk is never reached with more than one node.
- `MatroidPartition.AddIntoPartitions`: `in_p` is a partition index, not a
  pointer. The model points the new node at the appended partition, whereas
  the source leaves a pointer to a destroyed local (pp_partition.cpp:211).
- Legacy `Matroid`:
  - The commented-out `BFS` and `is_acceptable_by_partition` are left out.
  - `get_partitions` is a plain field copy.
  - `bfs_node.marked` and `bfs_node.parent` are never read, so fresh nodes
    fix them to false and no parent.
- Logger:
  - `fmt` formatting of the message arguments is dropped: a message is its
    formatted text.
  - ANSI styling of the level tags is dropped.
  - `getLogLevel` is a field read.
- `Logger.Emit`: does not model the `std::length_error` that
  `std::string(n, ' ')` throws for every padding `n` above the string's
  `max_size()`, which is well below 2^64 - 1. In that case the model still
  builds the entry. The padding length is the wrapped product, as in the source.
- `Logger.LogLevel2Str`: the source's `default` branch (logger.hpp:88-89),
  which names any out-of-range level value "trace", is not modelled, because a
  `LogLevel` here can only be one of the seven declared levels.
- `Logger.Lower`: `toLowerString` has no body in `src/util/util.hpp`. It is
  taken to be ASCII lower-casing.
- util.hpp declarations without a body in the header are not part of this
  model:
  - `removeBracket`, `myStrGetTok`, `split` and `join`;
  - the `myStr2Number` family;
  - `toUpperString`, `countUpperChars` and `intPow`;
  - the tqdm wrapper and the debug-assert macros.

  `ERROR_CODE` is the constant `Util.ErrorCode` (2^64 - 1).
- `Util.FormatVector`: elements are given already rendered as strings,
  because `operator<<` for the element type is not part of this model.
- Source `assert`s are treated as checked. A failing assert is a `Failure`
  outcome, not undefined continuation in a release build.
- `PrintLogs` and the loops over containers assume container sizes below
  2^64, as any real `std::vector` has.
