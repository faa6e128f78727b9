/**
 * The earlier stand-alone `Matroid` class of src/pp/matroid.hpp and
 * src/pp/matroid.cpp. Its nodes are held BY VALUE, and both
 * `add_into_partition` and `reset_marks` work on copies, so neither changes
 * the matroid; nothing ever fills `_partitions`.
 */
module LegacyMatroid {
  import opened Wrappers
  import opened CppSize
  import opened BooleanMatrix
  import PpPartition

  /**
   * A by-value node. `bfs_node` is never initialised in the source; the model
   * fixes it to unmarked and parentless, which nothing reads.
   */
  datatype LNode = LNode(
    nthRow: nat,
    nextNodes: seq<LNode>,
    prevNodes: seq<LNode>,
    inP: Matrix,
    toP: seq<Matrix>,
    marked: bool,
    parent: Option<nat>)

  datatype Matroid = Matroid(variable: SizeT, qubitNum: SizeT, partitions: seq<Matrix>, graph: seq<LNode>, poly: Matrix)

  /** Ways `add_into_partition` can stop: the assert at matroid.cpp:52, or `_poly[i]` past the last row. */
  datatype LegacyFailure = MissingRow | RowOutOfRange

  /** The node `initial` creates for row `i`, with no edges; its mark and parent are left uninitialised there and fixed to false and none here. */
  function FreshLNode(i: nat): LNode {
    LNode(i, [], [], [], [], false, None)
  }

  /** `Matroid()`: the two sizes are left uninitialised, so they are parameters here. */
  function DefaultMatroid(garbageVariable: SizeT, garbageQubitNum: SizeT): (m: Matroid)
    ensures m.partitions == [] && m.graph == [] && m.poly == []
  {
    Matroid(garbageVariable, garbageQubitNum, [], [], [])
  }

  /**
   * `initial(poly, n, a)`: store the sizes and the polynomial, and APPEND one
   * node per row to whatever graph is already there.
   */
  function Initial(m: Matroid, poly: Matrix, n: SizeT, a: SizeT): (r: Matroid)
    ensures r.variable == n && r.qubitNum == AddW(n, a) && r.poly == poly
    ensures r.partitions == m.partitions
    ensures |r.graph| == |m.graph| + |poly|
    ensures r.graph[..|m.graph|] == m.graph
    ensures forall i :: 0 <= i < |poly| ==> r.graph[|m.graph| + i] == FreshLNode(i)
  {
    Matroid(n, AddW(n, a), m.partitions, m.graph + seq(|poly|, i requires 0 <= i => FreshLNode(i)), poly)
  }

  /** `Matroid(poly, n, a)`: default construction, then `initial`. */
  function NewMatroid(poly: Matrix, n: SizeT, a: SizeT): (m: Matroid)
    ensures m.variable == n && m.qubitNum == AddW(n, a) && m.poly == poly
    ensures m.partitions == []
    ensures |m.graph| == |poly| && forall i :: 0 <= i < |poly| ==> m.graph[i] == FreshLNode(i)
  {
    Initial(DefaultMatroid(0, 0), poly, n, a)
  }

  /** Whatever the uninitialised sizes held, `initial` overwrites them: the constructor is default construction then `initial`. */
  lemma ConstructorIsDefaultThenInitial(garbageVariable: SizeT, garbageQubitNum: SizeT, poly: Matrix, n: SizeT, a: SizeT)
    ensures Initial(DefaultMatroid(garbageVariable, garbageQubitNum), poly, n, a) == NewMatroid(poly, n, a)
  {
  }

  /** Calling `initial` twice keeps the first call's nodes: the graph is never cleared. */
  lemma InitialTwiceKeepsNodes(poly1: Matrix, poly2: Matrix, n: SizeT, a: SizeT)
    requires |poly1| > 0
    ensures var m := Initial(NewMatroid(poly1, n, a), poly2, n, a);
      |m.graph| == |poly1| + |poly2| && m.graph[0] == FreshLNode(0) && m.poly == poly2
  {
    var m0 := NewMatroid(poly1, n, a);
    var m := Initial(m0, poly2, n, a);
    assert m.graph[..|m0.graph|][0] == m.graph[0];
  }

  /** `independant_oracle(S)`: dim(V) - rank(S) <= n - |S| in size_t arithmetic. */
  function IndependantOracle(m: Matroid, s: Matrix): (ok: bool)
    ensures Rank(s) <= m.variable && |s| <= m.qubitNum ==>
      (ok <==> m.variable - Rank(s) <= m.qubitNum - |s|)
    ensures |s| > 0 ==>
      ok == PpPartition.IndependentOracle(PpPartition.Partitioning(m.variable, m.qubitNum, [], m.poly), s[..|s| - 1], s[|s| - 1])
  {
    assert |s| > 0 ==> s[..|s| - 1] + [s[|s| - 1]] == s;
    SubW(m.variable, ToSize(Rank(s))) <= SubW(m.qubitNum, ToSize(|s|))
  }

  /**
   * The `is_replaceable(a, b)` lambda: copy `a.in_p`, swap `a`'s row for
   * `b`'s and ask the oracle.
   */
  function IsReplaceable(m: Matroid, a: LNode, b: LNode): (r: Result<bool, LegacyFailure>)
    ensures r.Success? <==> a.nthRow < |m.poly| && m.poly[a.nthRow] in a.inP && b.nthRow < |m.poly|
    ensures r.Success? ==> var k := FindRow(a.inP, m.poly[a.nthRow]).value;
      r.value == IndependantOracle(m, EraseRow(a.inP, k) + [m.poly[b.nthRow]])
  {
    if a.nthRow >= |m.poly| then Failure(RowOutOfRange)
    else
      match FindRow(a.inP, m.poly[a.nthRow])
      case None => Failure(MissingRow)
      case Some(k) =>
        if b.nthRow >= |m.poly| then Failure(RowOutOfRange)
        else Success(IndependantOracle(m, PushRow(EraseRow(a.inP, k), m.poly[b.nthRow])))
  }

  /** Every node of `graph[i..]` could be asked `is_replaceable(u, n)` without failing. */
  predicate AllReplaceable(m: Matroid, n: LNode, i: nat)
    requires i <= |m.graph|
  {
    forall j :: i <= j < |m.graph| ==> IsReplaceable(m, m.graph[j], n).Success?
  }

  /**
   * The `for_each` of `add_into_partition` from node `i` on. The edges go to
   * the by-value copies `n` and `u`, so only failures leave the loop.
   */
  function EdgeLoop(m: Matroid, n: LNode, i: nat): (r: Result<bool, LegacyFailure>)
    requires i <= |m.graph|
    ensures r.Success? <==> AllReplaceable(m, n, i)
    ensures r.Success? ==> r.value
    decreases |m.graph| - i
  {
    if i == |m.graph| then Success(true)
    else
      match IsReplaceable(m, m.graph[i], n)
      case Failure(e) => Failure(e)
      case Success(_) => EdgeLoop(m, n, i + 1)
  }

  /**
   * `add_into_partition(n)`: returns true and leaves the matroid as it was,
   * unless some node's row is missing from its own `in_p` (or out of range).
   */
  function AddIntoPartition(m: Matroid, n: LNode): (r: Result<(Matroid, bool), LegacyFailure>)
    ensures r.Success? <==> forall j :: 0 <= j < |m.graph| ==>
      m.graph[j].nthRow < |m.poly| && m.poly[m.graph[j].nthRow] in m.graph[j].inP && n.nthRow < |m.poly|
    ensures r.Success? ==> r.value == (m, true)
  {
    match EdgeLoop(m, n, 0)
    case Failure(e) => Failure(e)
    case Success(_) => Success((m, true))
  }

  /** The nodes `initial` creates have an empty `in_p`, so the first node of any non-empty graph fails the assert. */
  lemma FreshGraphFails(poly: Matrix, n: SizeT, a: SizeT, node: LNode)
    requires |poly| > 0
    ensures AddIntoPartition(NewMatroid(poly, n, a), node) == Failure(MissingRow)
  {
    var m := NewMatroid(poly, n, a);
    assert m.graph[0] == FreshLNode(0);
  }

  /** `reset_marks()`: the lambda takes each node by value, so the graph is untouched. */
  function ResetMarks(m: Matroid): (r: Matroid)
    ensures r.graph == m.graph && r.partitions == m.partitions
  {
    m
  }

  /** Apply `add_into_partition` then `reset_marks` per node, stopping at the first failure. */
  function ApplyAdds(m: Matroid, ns: seq<LNode>): (r: Matroid)
    decreases |ns|
  {
    if |ns| == 0 then m
    else
      match AddIntoPartition(m, ns[0])
      case Failure(_) => m
      case Success((m1, _)) => ApplyAdds(ResetMarks(m1), ns[1..])
  }

  /** The state is fixed under any sequence of operations: in particular `get_partitions()` stays empty. */
  lemma {:induction false} PartitionsStayEmpty(poly: Matrix, n: SizeT, a: SizeT, ns: seq<LNode>)
    ensures ApplyAdds(NewMatroid(poly, n, a), ns) == NewMatroid(poly, n, a)
    ensures ApplyAdds(NewMatroid(poly, n, a), ns).partitions == []
  {
    ApplyAddsFixed(NewMatroid(poly, n, a), ns);
  }

  lemma {:induction false} ApplyAddsFixed(m: Matroid, ns: seq<LNode>)
    ensures ApplyAdds(m, ns) == m
    decreases |ns|
  {
    if |ns| > 0 {
      match AddIntoPartition(m, ns[0])
      case Failure(_) =>
      case Success((m1, _)) => ApplyAddsFixed(m1, ns[1..]);
    }
  }
}
