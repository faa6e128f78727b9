/**
 * Matroid partitioning (`matroid_partitioning`, `matroid_partitioning_routine`
 * and the inner `Partitioning::Matroid` class of src/pp/pp_partition.cpp).
 *
 * Node pointers become indices into the node list; a node's `in_p` and
 * `to_p` become indices into `_partitions`. The breadth-first scan of
 * pp_partition.cpp:260-286 mutates the partition it iterates and then calls
 * `value()` on an empty optional at line 286, so entering it is modelled as
 * the failure `EmptyOptional`.
 */
module MatroidPartition {
  import opened Wrappers
  import opened CppSize
  import opened BooleanMatrix
  import opened PpPartition

  /** An exchange-graph node. */
  datatype Node = Node(
    nthRow: nat,
    nextNodes: seq<nat>,
    prevNodes: seq<nat>,
    inP: Option<nat>,
    toP: Option<nat>,
    path: seq<nat>,
    marked: bool)

  /** `make_unique<Node>()` followed by `nth_row = i`: every other field value-initialised. */
  function FreshNode(i: nat): Node {
    Node(i, [], [], None, None, [], false)
  }

  /** `Matroid(p)`: one fresh node per row of `_poly`, in row order. */
  function NewMatroid(p: Partitioning): (nodes: seq<Node>)
    ensures |nodes| == |p.poly|
    ensures forall i :: 0 <= i < |nodes| ==>
      && nodes[i].nthRow == i
      && nodes[i].inP.None? && nodes[i].toP.None? && !nodes[i].marked
      && nodes[i].nextNodes == [] && nodes[i].prevNodes == [] && nodes[i].path == []
  {
    seq(|p.poly|, i requires 0 <= i => FreshNode(i))
  }

  /** Every node names a row of `_poly` and, if it has one, an existing partition. */
  predicate ValidNodes(p: Partitioning, nodes: seq<Node>) {
    forall i :: 0 <= i < |nodes| ==>
      nodes[i].nthRow < |p.poly| && (nodes[i].inP.Some? ==> nodes[i].inP.value < |p.partitions|)
  }

  /** `reset_marks`: clear every node's search path and mark. */
  function ResetMarks(nodes: seq<Node>): (r: seq<Node>)
    ensures |r| == |nodes|
    ensures forall i :: 0 <= i < |r| ==>
      && r[i].path == [] && !r[i].marked
      && r[i].nthRow == nodes[i].nthRow && r[i].inP == nodes[i].inP && r[i].toP == nodes[i].toP
      && r[i].nextNodes == nodes[i].nextNodes && r[i].prevNodes == nodes[i].prevNodes
  {
    seq(|nodes|, i requires 0 <= i < |nodes| => nodes[i].(path := [], marked := false))
  }

  function RowOf(p: Partitioning, nodes: seq<Node>, a: nat): Row
    requires ValidNodes(p, nodes) && a < |nodes|
  {
    p.poly[nodes[a].nthRow]
  }

  /** The `remove_from_partition` lambda: erase `a`'s row from `part` and clear `a.in_p`. */
  function RemoveFromPartition(p: Partitioning, part: Partition, nodes: seq<Node>, a: nat): (r: Result<(Partition, seq<Node>), Failure>)
    requires ValidNodes(p, nodes) && a < |nodes|
    ensures r.Failure? <==> RowOf(p, nodes, a) !in part
    ensures r.Failure? ==> r.error == RowMissing
    ensures r.Success? ==>
      && r.value.0 == EraseRow(part, FindRow(part, RowOf(p, nodes, a)).value)
      && |r.value.0| + 1 == |part|
      && r.value.1 == nodes[a := nodes[a].(inP := None)]
  {
    match FindRow(part, RowOf(p, nodes, a))
    case None => Failure(RowMissing)
    case Some(k) => Success((EraseRow(part, k), nodes[a := nodes[a].(inP := None)]))
  }

  /** The `add_to_partition` lambda: append `a`'s row to partition `k` and point `a.in_p` at it. */
  function AddToPartition(p: Partitioning, part: Partition, nodes: seq<Node>, a: nat, k: nat): (r: Result<(Partition, seq<Node>), Failure>)
    requires ValidNodes(p, nodes) && a < |nodes|
    ensures r.Failure? <==> RowOf(p, nodes, a) in part
    ensures r.Failure? ==> r.error == RowAlreadyPresent
    ensures r.Success? ==>
      && r.value.0 == part + [RowOf(p, nodes, a)]
      && r.value.1 == nodes[a := nodes[a].(inP := Some(k))]
  {
    match FindRow(part, RowOf(p, nodes, a))
    case Some(_) => Failure(RowAlreadyPresent)
    case None => Success((PushRow(part, RowOf(p, nodes, a)), nodes[a := nodes[a].(inP := Some(k))]))
  }

  /**
   * The `is_replaceable(a, b)` lambda. It removes `a`'s row from a COPY of
   * `a`'s partition, but `remove_from_partition` clears `in_p` on the real
   * node `a`. The answer is the oracle on the copy with `b`'s row.
   */
  function IsReplaceable(p: Partitioning, nodes: seq<Node>, a: nat, b: nat): (r: Result<(seq<Node>, bool), Failure>)
    requires ValidNodes(p, nodes) && a < |nodes| && b < |nodes|
    ensures nodes[a].inP.None? ==> r == Success((nodes, false))
    ensures nodes[a].inP.Some? ==>
      var part := p.partitions[nodes[a].inP.value];
      && (r.Failure? <==> RowOf(p, nodes, a) !in part)
      && (r.Failure? ==> r.error == RowMissing)
      && (r.Success? ==>
            && r.value.0 == nodes[a := nodes[a].(inP := None)]
            && r.value.1 == IndependentOracle(p, EraseRow(part, FindRow(part, RowOf(p, nodes, a)).value), RowOf(p, nodes, b)))
  {
    if nodes[a].inP.None? then Success((nodes, false))
    else
      var copy := p.partitions[nodes[a].inP.value];
      match RemoveFromPartition(p, copy, nodes, a)
      case Failure(e) => Failure(e)
      case Success((copy', nodes')) => Success((nodes', IndependentOracle(p, copy', RowOf(p, nodes, b))))
  }

  /** Record the edge `n -> u` on `n` and its mirror on `u`. */
  function AddEdge(nodes: seq<Node>, n: nat, u: nat): (r: seq<Node>)
    requires n < |nodes| && u < |nodes|
    ensures |r| == |nodes|
    ensures forall i :: 0 <= i < |r| ==> r[i].nthRow == nodes[i].nthRow && r[i].inP == nodes[i].inP
  {
    var nodes1 := nodes[n := nodes[n].(nextNodes := nodes[n].nextNodes + [u])];
    nodes1[u := nodes1[u].(prevNodes := nodes1[u].prevNodes + [n])]
  }

  /** Only ever clears partition references: every reference after was there before. */
  predicate RefsShrink(before: seq<Node>, after: seq<Node>) {
    && |after| == |before|
    && forall i :: 0 <= i < |after| ==>
         after[i].nthRow == before[i].nthRow && (after[i].inP.Some? ==> after[i].inP == before[i].inP)
  }

  /** Node `a` points at a partition that lacks its row: `is_replaceable` on it trips the assert. */
  predicate Misplaced(p: Partitioning, nodes: seq<Node>, a: nat)
    requires ValidNodes(p, nodes) && a < |nodes|
  {
    nodes[a].inP.Some? && RowOf(p, nodes, a) !in p.partitions[nodes[a].inP.value]
  }

  /**
   * `is_replaceable(a, b)` answers true: `a` sits in a partition holding its
   * row, and that partition with `a`'s row swapped for `b`'s stays independent.
   */
  predicate Replaceable(p: Partitioning, nodes: seq<Node>, a: nat, b: nat)
    requires ValidNodes(p, nodes) && a < |nodes| && b < |nodes|
  {
    && nodes[a].inP.Some?
    && !Misplaced(p, nodes, a)
    && var part := p.partitions[nodes[a].inP.value];
       IndependentOracle(p, EraseRow(part, FindRow(part, RowOf(p, nodes, a)).value), RowOf(p, nodes, b))
  }

  /** `after` has the same rows as `before`, and the same partition references from `k` on. */
  predicate SameFrom(before: seq<Node>, after: seq<Node>, k: nat) {
    && |after| == |before|
    && forall i :: 0 <= i < |after| ==>
         after[i].nthRow == before[i].nthRow && (k <= i ==> after[i].inP == before[i].inP)
  }

  /**
   * One pass of the edge loop of `add_into_partitions`, at node `u`: nothing
   * for `u == n`; otherwise `is_replaceable(u, n)`, which fails exactly when
   * `u` is misplaced and clears `u`'s partition reference, and on a true
   * answer the edge `n -> u` with its mirror on `u`. The body states the
   * lambda's outcome through `Misplaced` and `Replaceable`;
   * `VisitCallsIsReplaceable` shows it is the pass written with
   * `IsReplaceable` itself.
   */
  function Visit(p: Partitioning, nodes: seq<Node>, n: nat, u: nat): (r: Result<seq<Node>, Failure>)
    requires ValidNodes(p, nodes) && n < |nodes| && u < |nodes|
    ensures r.Failure? <==> u != n && Misplaced(p, nodes, u)
    ensures r.Failure? ==> r.error == RowMissing
    ensures r.Success? ==> ValidNodes(p, r.value) && SameFrom(nodes, r.value, u + 1)
    ensures r.Success? ==> forall i :: 0 <= i < |nodes| ==>
      r.value[i].inP == (if i == u && u != n then None else nodes[i].inP)
    ensures r.Success? ==> forall i :: 0 <= i < |nodes| ==>
      (i in r.value[n].nextNodes <==> i in nodes[n].nextNodes || (i == u && u != n && Replaceable(p, nodes, u, n)))
    ensures r.Success? ==> forall i :: 0 <= i < |nodes| && i != n ==>
      r.value[i].prevNodes == nodes[i].prevNodes + (if i == u && Replaceable(p, nodes, u, n) then [n] else [])
  {
    if u == n then Success(nodes)
    else if Misplaced(p, nodes, u) then Failure(RowMissing)
    else
      var cleared := nodes[u := nodes[u].(inP := None)];
      Success(if Replaceable(p, nodes, u, n) then AddEdge(cleared, n, u) else cleared)
  }

  /** The pass at `u != n` is `is_replaceable(u, n)` followed by the edge on a true answer. */
  lemma VisitCallsIsReplaceable(p: Partitioning, nodes: seq<Node>, n: nat, u: nat)
    requires ValidNodes(p, nodes) && n < |nodes| && u < |nodes| && u != n
    ensures Visit(p, nodes, n, u) ==
      match IsReplaceable(p, nodes, u, n)
      case Failure(e) => Failure(e)
      case Success((nodes1, ok)) => Success(if ok then AddEdge(nodes1, n, u) else nodes1)
  {
    if nodes[u].inP.None? {
      assert nodes[u := nodes[u].(inP := None)] == nodes;
    } else if !Misplaced(p, nodes, u) {
      var step := IsReplaceable(p, nodes, u, n);
      assert step.value.1 == Replaceable(p, nodes, u, n);
    }
  }

  /**
   * The edge-building loop of `add_into_partitions`, from node `u` on.
   * `BuildEdgesFails`, `BuildEdgesClears`, `BuildEdgesLinks` and
   * `BuildEdgesMirrors` state what it does to the nodes.
   */
  function BuildEdges(p: Partitioning, nodes: seq<Node>, n: nat, u: nat): (r: Result<seq<Node>, Failure>)
    requires ValidNodes(p, nodes) && n < |nodes| && u <= |nodes|
    ensures r.Success? ==> RefsShrink(nodes, r.value) && ValidNodes(p, r.value)
    ensures r.Failure? ==> r.error == RowMissing
    decreases |nodes| - u
  {
    if u == |nodes| then Success(nodes)
    else
      match Visit(p, nodes, n, u)
      case Failure(e) => Failure(e)
      case Success(next) => BuildEdges(p, next, n, u + 1)
  }

  /** Nodes from `k` on that agree on row and reference are misplaced, and replaceable by `n`, alike. */
  lemma SameFromKeeps(p: Partitioning, before: seq<Node>, after: seq<Node>, n: nat, k: nat)
    requires ValidNodes(p, before) && ValidNodes(p, after) && n < |before|
    requires SameFrom(before, after, k)
    ensures forall i :: k <= i < |before| ==>
      Misplaced(p, after, i) == Misplaced(p, before, i) && Replaceable(p, after, i, n) == Replaceable(p, before, i, n)
  {
  }

  /** Building edges from `u` on succeeds exactly when no later node other than `n` is misplaced. */
  lemma {:induction false} BuildEdgesFails(p: Partitioning, nodes: seq<Node>, n: nat, u: nat)
    requires ValidNodes(p, nodes) && n < |nodes| && u <= |nodes|
    ensures BuildEdges(p, nodes, n, u).Success? <==> forall i :: u <= i < |nodes| && i != n ==> !Misplaced(p, nodes, i)
    decreases |nodes| - u
  {
    if u < |nodes| && Visit(p, nodes, n, u).Success? {
      var next := Visit(p, nodes, n, u).value;
      var rest := BuildEdges(p, next, n, u + 1);
      assert BuildEdges(p, nodes, n, u) == rest;
      BuildEdgesFails(p, next, n, u + 1);
      FailsAfterStep(p, nodes, next, n, u, rest.Success?);
    }
  }

  /** No misplaced node at `u`: the loop from `u` succeeds exactly when the rest of it does. */
  lemma FailsAfterStep(p: Partitioning, nodes: seq<Node>, next: seq<Node>, n: nat, u: nat, ok: bool)
    requires ValidNodes(p, nodes) && ValidNodes(p, next) && n < |nodes| && u < |nodes|
    requires SameFrom(nodes, next, u + 1) && !(u != n && Misplaced(p, nodes, u))
    requires ok <==> forall i :: u + 1 <= i < |next| && i != n ==> !Misplaced(p, next, i)
    ensures ok <==> forall i :: u <= i < |nodes| && i != n ==> !Misplaced(p, nodes, i)
  {
    SameFromKeeps(p, nodes, next, n, u + 1);
  }

  /** After building edges from `u` on, every later node other than `n` has lost its partition reference. */
  lemma {:induction false} BuildEdgesClears(p: Partitioning, nodes: seq<Node>, n: nat, u: nat)
    requires ValidNodes(p, nodes) && n < |nodes| && u <= |nodes|
    requires BuildEdges(p, nodes, n, u).Success?
    ensures forall i :: 0 <= i < |nodes| ==>
      BuildEdges(p, nodes, n, u).value[i].inP == (if u <= i && i != n then None else nodes[i].inP)
    decreases |nodes| - u
  {
    if u < |nodes| {
      var next := Visit(p, nodes, n, u).value;
      BuildEdgesClears(p, next, n, u + 1);
    }
  }

  /** Building edges from `u` on adds the edge `n -> i` exactly for the later nodes `i` that `n` can replace. */
  lemma {:induction false} BuildEdgesLinks(p: Partitioning, nodes: seq<Node>, n: nat, u: nat)
    requires ValidNodes(p, nodes) && n < |nodes| && u <= |nodes|
    requires BuildEdges(p, nodes, n, u).Success?
    ensures forall i :: 0 <= i < |nodes| ==>
      (i in BuildEdges(p, nodes, n, u).value[n].nextNodes <==>
         i in nodes[n].nextNodes || (u <= i && i != n && Replaceable(p, nodes, i, n)))
    decreases |nodes| - u
  {
    if u < |nodes| {
      var next := Visit(p, nodes, n, u).value;
      var rest := BuildEdges(p, next, n, u + 1);
      assert BuildEdges(p, nodes, n, u) == rest;
      BuildEdgesLinks(p, next, n, u + 1);
      LinksAfterStep(p, nodes, next, rest.value, n, u);
    }
  }

  /** The edges `n -> i` after the pass at `u` and the rest of the loop together are those of the loop from `u`. */
  lemma LinksAfterStep(p: Partitioning, nodes: seq<Node>, next: seq<Node>, r: seq<Node>, n: nat, u: nat)
    requires ValidNodes(p, nodes) && ValidNodes(p, next) && |r| == |nodes| && n < |nodes| && u < |nodes|
    requires SameFrom(nodes, next, u + 1)
    requires forall i :: 0 <= i < |nodes| ==>
      (i in next[n].nextNodes <==> i in nodes[n].nextNodes || (i == u && u != n && Replaceable(p, nodes, u, n)))
    requires forall i :: 0 <= i < |nodes| ==>
      (i in r[n].nextNodes <==> i in next[n].nextNodes || (u + 1 <= i && i != n && Replaceable(p, next, i, n)))
    ensures forall i :: 0 <= i < |nodes| ==>
      (i in r[n].nextNodes <==> i in nodes[n].nextNodes || (u <= i && i != n && Replaceable(p, nodes, i, n)))
  {
  }

  /** Building edges from `u` on records the mirror `n` on exactly the later nodes that `n` can replace. */
  lemma {:induction false} BuildEdgesMirrors(p: Partitioning, nodes: seq<Node>, n: nat, u: nat)
    requires ValidNodes(p, nodes) && n < |nodes| && u <= |nodes|
    requires BuildEdges(p, nodes, n, u).Success?
    ensures forall i :: 0 <= i < |nodes| && i != n ==>
      BuildEdges(p, nodes, n, u).value[i].prevNodes ==
        nodes[i].prevNodes + (if u <= i && Replaceable(p, nodes, i, n) then [n] else [])
    decreases |nodes| - u
  {
    if u < |nodes| {
      var next := Visit(p, nodes, n, u).value;
      var rest := BuildEdges(p, next, n, u + 1);
      assert BuildEdges(p, nodes, n, u) == rest;
      BuildEdgesMirrors(p, next, n, u + 1);
      MirrorsAfterStep(p, nodes, next, rest.value, n, u);
    }
  }

  /** The mirrors after the pass at `u` and the rest of the loop together are those of the loop from `u`. */
  lemma MirrorsAfterStep(p: Partitioning, nodes: seq<Node>, next: seq<Node>, r: seq<Node>, n: nat, u: nat)
    requires ValidNodes(p, nodes) && ValidNodes(p, next) && |r| == |nodes| && n < |nodes| && u < |nodes|
    requires SameFrom(nodes, next, u + 1)
    requires forall i :: 0 <= i < |nodes| && i != n ==>
      next[i].prevNodes == nodes[i].prevNodes + (if i == u && Replaceable(p, nodes, u, n) then [n] else [])
    requires forall i :: 0 <= i < |nodes| && i != n ==>
      r[i].prevNodes == next[i].prevNodes + (if u + 1 <= i && Replaceable(p, next, i, n) then [n] else [])
    ensures forall i :: 0 <= i < |nodes| && i != n ==>
      r[i].prevNodes == nodes[i].prevNodes + (if u <= i && Replaceable(p, nodes, i, n) then [n] else [])
  {
    SameFromKeeps(p, nodes, next, n, u + 1);
    forall i | 0 <= i < |nodes| && i != n
      ensures r[i].prevNodes == nodes[i].prevNodes + (if u <= i && Replaceable(p, nodes, i, n) then [n] else [])
    {
      if i <= u {
        assert r[i].prevNodes == next[i].prevNodes;
      } else {
        assert next[i].prevNodes == nodes[i].prevNodes + [];
      }
    }
  }

  /** With no node in any partition, building edges changes nothing. */
  lemma {:induction false} BuildEdgesUnplaced(p: Partitioning, nodes: seq<Node>, n: nat, u: nat)
    requires ValidNodes(p, nodes) && n < |nodes| && u <= |nodes|
    requires forall i :: 0 <= i < |nodes| ==> nodes[i].inP.None?
    ensures BuildEdges(p, nodes, n, u) == Success(nodes)
    decreases |nodes| - u
  {
    if u < |nodes| {
      assert nodes[u := nodes[u].(inP := None)] == nodes;
      BuildEdgesUnplaced(p, nodes, n, u + 1);
    }
  }

  /** Partition `j` is the first one that lacks `row`. */
  predicate FirstLacking(parts: Partitions, row: Row, from: nat, j: nat) {
    && from <= j < |parts|
    && row !in parts[j]
    && forall i :: from <= i < j ==> row in parts[i]
  }

  /** A partition holding the row is skipped: the first lacking one lies further on. */
  lemma FirstLackingSkip(parts: Partitions, row: Row, a: nat)
    requires a < |parts| && row in parts[a]
    ensures forall j :: FirstLacking(parts, row, a, j) <==> FirstLacking(parts, row, a + 1, j)
  {
  }

  /** A partition lacking the row is the first lacking one. */
  lemma FirstLackingHere(parts: Partitions, row: Row, a: nat)
    requires a < |parts| && row !in parts[a]
    ensures FirstLacking(parts, row, a, a)
    ensures forall j :: FirstLacking(parts, row, a, j) ==> j == a
  {
  }

  /**
   * The `for (auto A = ...)` loop of `find_shortest_path` for the start node
   * from partition `a` on: skip partitions holding the row, succeed at the
   * first one lacking it if the oracle accepts, otherwise reach line 286.
   */
  function ScanPartitions(parts: Partitions, accept: Oracle, row: Row, a: nat): (r: Result<bool, Failure>)
    requires a <= |parts|
    ensures r == Success(false) <==> forall j :: a <= j < |parts| ==> row in parts[j]
    ensures r == Success(true) <==> exists j: nat :: FirstLacking(parts, row, a, j) && accept(parts[j], row)
    ensures r.Failure? <==> exists j: nat :: FirstLacking(parts, row, a, j) && !accept(parts[j], row)
    ensures r.Failure? ==> r.error == EmptyOptional
    decreases |parts| - a
  {
    if a == |parts| then Success(false)
    else if FindRow(parts[a], row).Some? then
      FirstLackingSkip(parts, row, a);
      ScanPartitions(parts, accept, row, a + 1)
    else
      FirstLackingHere(parts, row, a);
      if accept(parts[a], row) then Success(true) else Failure(EmptyOptional)
  }

  /** Result of a search: the nodes after `reset_marks`, and the path found (if any). */
  datatype Search = Search(nodes: seq<Node>, path: Option<seq<nat>>)

  /**
   * `find_shortest_path(start)`. No node is ever enqueued before line 286
   * fails, so the only outcomes are no path, the one-node path `[start]`,
   * or the failure.
   */
  function FindShortestPath(p: Partitioning, nodes: seq<Node>, start: nat): (r: Result<Search, Failure>)
    requires ValidNodes(p, nodes) && start < |nodes|
    ensures r.Success? ==> r.value.nodes == ResetMarks(nodes)
    ensures r.Success? ==> r.value.path == None || r.value.path == Some([start])
    ensures r.Success? && r.value.path.None? <==>
      forall j :: 0 <= j < |p.partitions| ==> RowOf(p, nodes, start) in p.partitions[j]
    ensures r.Success? && r.value.path.Some? <==>
      exists j: nat :: FirstLacking(p.partitions, RowOf(p, nodes, start), 0, j) && IndependentOracle(p, p.partitions[j], RowOf(p, nodes, start))
    ensures r.Failure? <==>
      exists j: nat :: FirstLacking(p.partitions, RowOf(p, nodes, start), 0, j) && !IndependentOracle(p, p.partitions[j], RowOf(p, nodes, start))
    ensures r.Failure? ==> r.error == EmptyOptional
  {
    var nodes0 := ResetMarks(nodes);
    assert nodes0[start].nthRow == nodes[start].nthRow;
    match ScanPartitions(p.partitions, OracleTest(p), p.poly[nodes0[start].nthRow], 0)
    case Failure(e) => Failure(e)
    case Success(found) =>
      assert nodes0[start].path + [start] == [start];
      Success(Search(nodes0, if found then Some(nodes0[start].path + [start]) else None))
  }

  /**
   * One step of the exchange walk for the pair (prev, node): `prev` takes
   * over `node`'s partition, `node`'s row leaves it and `prev`'s row enters.
   */
  function WalkStep(p: Partitioning, nodes: seq<Node>, prev: nat, node: nat): (r: Result<(Partitioning, seq<Node>), Failure>)
    requires ValidNodes(p, nodes) && prev < |nodes| && node < |nodes|
    ensures r.Success? ==>
      && r.value.0.poly == p.poly && r.value.0.variable == p.variable && r.value.0.qubitNum == p.qubitNum
      && |r.value.0.partitions| == |p.partitions|
      && (forall j :: 0 <= j < |p.partitions| ==> |r.value.0.partitions[j]| == |p.partitions[j]|)
      && |r.value.1| == |nodes| && ValidNodes(r.value.0, r.value.1)
  {
    var nodes1 := nodes[prev := nodes[prev].(inP := nodes[node].inP)];
    if nodes[node].inP.None? then Failure(NullPartition)
    else
      var k := nodes[node].inP.value;
      match RemoveFromPartition(p, p.partitions[k], nodes1, node)
      case Failure(e) => Failure(e)
      case Success((part1, nodes2)) =>
        if nodes2[prev].inP.None? then Failure(NullPartition)
        else
          match AddToPartition(p, part1, nodes2, prev, k)
          case Failure(e) => Failure(e)
          case Success((part2, nodes3)) =>
            Success((p.(partitions := p.partitions[k := part2]), nodes3))
  }

  /** The exchange walk over consecutive pairs of `path`, starting at pair (path[i-1], path[i]). */
  function Walk(p: Partitioning, nodes: seq<Node>, path: seq<nat>, i: nat): (r: Result<(Partitioning, seq<Node>), Failure>)
    requires ValidNodes(p, nodes) && 1 <= i <= |path|
    requires forall k :: 0 <= k < |path| ==> path[k] < |nodes|
    ensures r.Success? ==>
      && r.value.0.poly == p.poly && r.value.0.variable == p.variable && r.value.0.qubitNum == p.qubitNum
      && |r.value.0.partitions| == |p.partitions|
      && (forall j :: 0 <= j < |p.partitions| ==> |r.value.0.partitions[j]| == |p.partitions[j]|)
      && |r.value.1| == |nodes| && ValidNodes(r.value.0, r.value.1)
    ensures |path| == 1 ==> r == Success((p, nodes))
    decreases |path| - i
  {
    if i == |path| then Success((p, nodes))
    else
      match WalkStep(p, nodes, path[i - 1], path[i])
      case Failure(e) => Failure(e)
      case Success((p1, nodes1)) => Walk(p1, nodes1, path, i + 1)
  }

  /** What `add_into_partitions` leaves behind and returns. */
  datatype Added = Added(master: Partitioning, nodes: seq<Node>, placed: bool)

  /**
   * The no-path branch of `add_into_partitions`: a new partition holding
   * just node `n`'s row is appended, node `n` is pointed at it, and the call
   * returns false.
   */
  function OpenPartition(p: Partitioning, nodes: seq<Node>, n: nat): (r: Added)
    requires ValidNodes(p, nodes) && n < |nodes|
    ensures r.master == p.(partitions := p.partitions + [[RowOf(p, nodes, n)]])
    ensures |r.nodes| == |nodes| && ValidNodes(r.master, r.nodes)
    ensures r.nodes[n].inP == Some(|p.partitions|) && !r.placed
  {
    var single := PushRow([], GetPolyRow(p, nodes[n].nthRow));
    assert single == [RowOf(p, nodes, n)];
    var p' := p.(partitions := p.partitions + [single]);
    // The source stores the address of the local `new_partition`;
    // the model records the index of the partition just appended.
    Added(p', nodes[n := nodes[n].(inP := Some(|p.partitions|))], false)
  }

  /**
   * The part of `add_into_partitions(n)` after the edge loop: search, then
   * either open a new partition holding only `n`'s row (returning false) or
   * walk the path (returning true). The search finds no path exactly when
   * every partition already holds the row, and a path exactly when the
   * first partition lacking it accepts it.
   */
  function SearchAndPlace(p: Partitioning, nodes: seq<Node>, n: nat): (r: Result<Added, Failure>)
    requires ValidNodes(p, nodes) && n < |nodes|
    ensures r.Success? ==>
      && r.value.master.poly == p.poly
      && r.value.master.variable == p.variable && r.value.master.qubitNum == p.qubitNum
      && |r.value.nodes| == |nodes| && ValidNodes(r.value.master, r.value.nodes)
    ensures r.Success? && !r.value.placed ==>
      && r.value.master.partitions == p.partitions + [[RowOf(p, nodes, n)]]
      && r.value.nodes[n].inP == Some(|p.partitions|)
    ensures r.Success? && r.value.placed ==> r.value.master == p
    ensures r.Failure? ==> r.error == EmptyOptional
    ensures r.Success? && !r.value.placed <==> forall j :: 0 <= j < |p.partitions| ==> RowOf(p, nodes, n) in p.partitions[j]
    ensures r.Success? && r.value.placed <==>
      exists j: nat :: FirstLacking(p.partitions, RowOf(p, nodes, n), 0, j) && IndependentOracle(p, p.partitions[j], RowOf(p, nodes, n))
    ensures r.Failure? <==>
      exists j: nat :: FirstLacking(p.partitions, RowOf(p, nodes, n), 0, j) && !IndependentOracle(p, p.partitions[j], RowOf(p, nodes, n))
  {
    match FindShortestPath(p, nodes, n)
    case Failure(e) => Failure(e)
    case Success(search) =>
      match search.path
      case None =>
        assert search.nodes[n].nthRow == nodes[n].nthRow;
        Success(OpenPartition(p, search.nodes, n))
      case Some(path) =>
        match Walk(p, search.nodes, path, 1)
        case Failure(e) => Failure(e)
        case Success((p', nodes')) => Success(Added(p', nodes', true))
  }

  /**
   * `add_into_partitions(n)`: the edge loop, then the search and placement.
   * It fails with a missing row exactly when another node is misplaced;
   * otherwise the outcome is decided by the partitions and `n`'s row alone.
   */
  function AddIntoPartitions(p: Partitioning, nodes: seq<Node>, n: nat): (r: Result<Added, Failure>)
    requires ValidNodes(p, nodes) && n < |nodes|
    ensures r.Success? ==>
      && r.value.master.poly == p.poly
      && r.value.master.variable == p.variable && r.value.master.qubitNum == p.qubitNum
      && |r.value.nodes| == |nodes| && ValidNodes(r.value.master, r.value.nodes)
    ensures r.Success? && !r.value.placed ==>
      && r.value.master.partitions == p.partitions + [[RowOf(p, nodes, n)]]
      && r.value.nodes[n].inP == Some(|p.partitions|)
    ensures r.Success? && r.value.placed ==> r.value.master == p
    ensures r == Failure(RowMissing) <==> !forall i :: 0 <= i < |nodes| && i != n ==> !Misplaced(p, nodes, i)
    ensures (forall i :: 0 <= i < |nodes| && i != n ==> !Misplaced(p, nodes, i)) ==>
      var row := RowOf(p, nodes, n);
      && (r.Success? && !r.value.placed <==> forall j :: 0 <= j < |p.partitions| ==> row in p.partitions[j])
      && (r.Success? && r.value.placed <==>
            exists j: nat :: FirstLacking(p.partitions, row, 0, j) && IndependentOracle(p, p.partitions[j], row))
      && (r == Failure(EmptyOptional) <==>
            exists j: nat :: FirstLacking(p.partitions, row, 0, j) && !IndependentOracle(p, p.partitions[j], row))
  {
    BuildEdgesFails(p, nodes, n, 0);
    match BuildEdges(p, nodes, n, 0)
    case Failure(e) => Failure(e)
    case Success(nodes1) =>
      assert RowOf(p, nodes1, n) == RowOf(p, nodes, n);
      SearchAndPlace(p, nodes1, n)
  }

  /** With no partition yet, the first node of a fresh matroid opens one holding its row. */
  lemma FirstNodeOpensPartition(p: Partitioning)
    requires p.partitions == [] && |p.poly| > 0
    ensures var r := AddIntoPartitions(p, NewMatroid(p), 0);
      r.Success? && !r.value.placed && r.value.master.partitions == [[p.poly[0]]]
  {
    BuildEdgesUnplaced(p, NewMatroid(p), 0, 0);
  }

  /** `add_into_partitions` for nodes `i` onwards, in node order. */
  function RoutineFrom(p: Partitioning, nodes: seq<Node>, i: nat): (r: Result<Partitioning, Failure>)
    requires ValidNodes(p, nodes) && i <= |nodes|
    ensures r.Success? ==> r.value.poly == p.poly && r.value.variable == p.variable && r.value.qubitNum == p.qubitNum
    ensures i == |nodes| ==> r == Success(p)
    decreases |nodes| - i
  {
    if i == |nodes| then Success(p)
    else
      match AddIntoPartitions(p, nodes, i)
      case Failure(e) => Failure(e)
      case Success(a) => RoutineFrom(a.master, a.nodes, i + 1)
  }

  /** `matroid_partitioning_routine()`: a fresh matroid over `_poly`, then every node in turn. */
  function MatroidRoutine(p: Partitioning): (r: Result<Partitioning, Failure>)
    ensures r.Success? ==> r.value.poly == p.poly && r.value.variable == p.variable && r.value.qubitNum == p.qubitNum
    ensures |p.poly| == 0 ==> r == Success(p)
  {
    RoutineFrom(p, NewMatroid(p), 0)
  }

  /** The `for (auto [wires, q] : h_map)` loop: the entry itself is never used. */
  function MatroidLoop(p: Partitioning, hmap: HMap): (r: Result<Partitioning, Failure>)
    ensures r.Success? ==> r.value.poly == p.poly
    ensures |p.poly| == 0 ==> r == Success(p)
    decreases |hmap|
  {
    if |hmap| == 0 then Success(p)
    else
      match MatroidRoutine(p)
      case Failure(e) => Failure(e)
      case Success(p1) => MatroidLoop(p1, hmap[1..])
  }

  /**
   * `matroid_partitioning(h_map)`. No step removes a row from `_poly`, so the
   * final check succeeds exactly when `_poly` was empty to begin with, and
   * then nothing has changed.
   */
  function MatroidPartitioning(p: Partitioning, hmap: HMap): (r: Result<Partitioning, Failure>)
    ensures r.Success? <==> |p.poly| == 0
    ensures r.Success? ==> r.value == p
  {
    match MatroidLoop(p, hmap)
    case Failure(e) => Failure(e)
    case Success(q) => if |q.poly| != 0 then Failure(PolyNotEmpty) else Success(q)
  }

  /** Only the number of `h_map` entries matters, never their contents. */
  lemma {:induction false} MatroidIgnoresHmap(p: Partitioning, h1: HMap, h2: HMap)
    requires |h1| == |h2|
    ensures MatroidLoop(p, h1) == MatroidLoop(p, h2)
    ensures MatroidPartitioning(p, h1) == MatroidPartitioning(p, h2)
    decreases |h1|
  {
    if |h1| > 0 {
      match MatroidRoutine(p)
      case Failure(_) =>
      case Success(p1) => MatroidIgnoresHmap(p1, h1[1..], h2[1..]);
    }
  }
}
