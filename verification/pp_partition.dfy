/**
 * The state of the `Partitioning` class (src/pp/pp_partition.hpp) and the
 * operations every partitioning strategy shares: construction, `initial`,
 * the getters and the rank-based independence oracle.
 */
module PpPartition {
  import opened CppSize
  import opened BooleanMatrix

  type Partition = Matrix
  type Partitions = seq<Partition>

  /** `HMAP`: candidate wire bases, each paired with a count. */
  type HMap = seq<(Matrix, SizeT)>

  /** Why a partitioning run aborted. */
  datatype Failure =
    | PolyNotEmpty      // the final `assert(_poly.num_rows() == 0)` fired
    | RowMissing        // `remove_from_partition` asserted a row present that is not
    | RowAlreadyPresent // `add_to_partition` asserted a row absent that is present
    | EmptyOptional     // `value()` on an empty optional in the search's rejecting branch
    | NullPartition     // a node's partition reference was empty where it is dereferenced

  /**
   * `_variable` (data qubits), `_qubit_num` (data plus ancilla qubits),
   * `_partitions` and `_poly`, the pending term catalogue.
   */
  datatype Partitioning = Partitioning(variable: SizeT, qubitNum: SizeT, partitions: Partitions, poly: Matrix)

  /**
   * `Partitioning()`: the two sizes are left uninitialised in the source, so
   * they are whatever the caller supplies here.
   */
  function DefaultPartitioning(garbageVariable: SizeT, garbageQubitNum: SizeT): (p: Partitioning)
    ensures p.partitions == [] && p.poly == []
  {
    Partitioning(garbageVariable, garbageQubitNum, [], [])
  }

  /** `Partitioning(poly, n, a)`. */
  function NewPartitioning(poly: Matrix, n: SizeT, a: SizeT): (p: Partitioning)
    ensures p.variable == n && p.qubitNum == AddW(n, a)
    ensures p.poly == poly && p.partitions == []
  {
    Partitioning(n, AddW(n, a), [], poly)
  }

  /** `initial(poly, n, a)`: overwrite the sizes and the catalogue, drop every partition. */
  function Initial(p: Partitioning, poly: Matrix, n: SizeT, a: SizeT): (r: Partitioning)
    ensures r.variable == n && r.qubitNum == AddW(n, a)
    ensures r.poly == poly && r.partitions == []
  {
    p.(qubitNum := AddW(n, a), poly := poly, variable := n, partitions := [])
  }

  /** `initial` leaves no trace of the previous state: it is the constructor. */
  lemma InitialIsConstructor(p: Partitioning, poly: Matrix, n: SizeT, a: SizeT)
    ensures Initial(p, poly, n, a) == NewPartitioning(poly, n, a)
  {
  }

  function GetPartitions(p: Partitioning): (r: Partitions)
    ensures |r| == |p.partitions| && forall i :: 0 <= i < |r| ==> r[i] == p.partitions[i]
  {
    p.partitions
  }

  /** `get_poly_row(i)`: row `i` of the pending catalogue. */
  function GetPolyRow(p: Partitioning, i: nat): (r: Row)
    requires i < |p.poly|
    ensures r == p.poly[i] && r in p.poly
  {
    GetRow(p.poly, i)
  }

  /**
   * `independent_oracle(S, t)`: the bound `dim V - rank(S + t) <= n - |S + t|`
   * evaluated, as in the source, with `size_t` subtraction on both sides.
   * `S` is only read.
   */
  function IndependentOracle(p: Partitioning, s: Partition, t: Row): bool {
    SubW(p.variable, ToSize(Rank(s + [t]))) <= SubW(p.qubitNum, ToSize(|s| + 1))
  }

  /**
   * An oracle as a function value, so that the loops calling it can be
   * stated over any oracle; `OracleTest(p)` is the oracle of `p`.
   */
  type Oracle = (Partition, Row) -> bool

  function OracleTest(p: Partitioning): Oracle {
    (s, t) => IndependentOracle(p, s, t)
  }

  /**
   * Without wrap-around (rank at most `_variable`, the grown partition at most
   * `_qubit_num` rows) the oracle is exactly the integer bound.
   */
  lemma OracleIsLemmaBound(p: Partitioning, s: Partition, t: Row)
    requires Rank(s + [t]) <= p.variable && |s| + 1 <= p.qubitNum
    ensures IndependentOracle(p, s, t) <==> p.variable - Rank(s + [t]) <= p.qubitNum - (|s| + 1)
  {
  }

  /**
   * Once the grown partition has more rows than `_qubit_num`, the right-hand
   * side wraps to a huge value and the oracle accepts whenever the rank is
   * within `_variable`.
   */
  lemma OracleAcceptsOverfull(p: Partitioning, s: Partition, t: Row)
    requires |s| + 1 > p.qubitNum && |s| + 1 < SizeMax
    requires Rank(s + [t]) <= p.variable
    requires p.variable - Rank(s + [t]) + (|s| + 1 - p.qubitNum) <= SizeMax
    ensures IndependentOracle(p, s, t)
  {
  }

  /**
   * With two data qubits and no ancilla, a partition of two rows of rank two
   * accepts every further row. For a row inside the span (rank stays two)
   * the integer bound `2 - 2 <= 2 - 3` would refuse it; the wrapped
   * subtraction admits it.
   */
  lemma OracleAcceptsThirdRow(p: Partitioning, s: Partition, t: Row)
    requires p.variable == 2 && p.qubitNum == 2
    requires |s| == 2 && Rank(s) == 2
    ensures IndependentOracle(p, s, t)
    ensures Rank(s + [t]) == 2 ==> !(p.variable - Rank(s + [t]) <= p.qubitNum - (|s| + 1))
  {
    RankAppend(s, t);
  }
}
