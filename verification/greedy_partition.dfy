/**
 * Greedy partitioning (`greedy_partitioning` and
 * `greedy_partitioning_routine` in src/pp/pp_partition.cpp): one forward
 * pass over the pending catalogue per wire basis, packing constructable
 * rows into partitions of exactly `_qubit_num` rows.
 */
module GreedyPartition {
  import opened Wrappers
  import opened CppSize
  import opened BooleanMatrix
  import opened PpPartition
  import RowSpace

  /** A row is constructable from `wires` when adding it keeps the rank at `rank`. */
  predicate IsConstructable(wires: Matrix, rank: SizeT, t: Row) {
    rank == ToSize(Rank(wires + [t]))
  }

  /**
   * With `rank` the rank of the wires themselves, a row of the same width is
   * constructable exactly when it is a XOR of wire rows.
   */
  lemma ConstructableIffInSpan(wires: Matrix, t: Row)
    requires RowSpace.Width(wires, |t|) && |wires| + 1 < SizeMax
    ensures IsConstructable(wires, ToSize(Rank(wires)), t) <==> RowSpace.InSpan(wires, t)
  {
    RowSpace.RankGrowsIffOutsideSpan(wires, t);
    assert Rank(wires + [t]) <= |wires| + 1;
  }

  /**
   * The routine's loop state: the open partition `p`, the indices recorded in
   * `partitioned` (newest first), and the partitions closed so far.
   */
  datatype Scan = Scan(open: Partition, partitioned: seq<nat>, closed: Partitions)

  /*
   * The loop is stated over any constructability test and any oracle; the
   * routine instantiates them with `ConstructableTest` and `OracleTest`.
   */

  /** One iteration of the routine's loop, for row `r` at index `i`. */
  function ScanRow(p: Partitioning, test: Row -> bool, accept: Oracle, s: Scan, i: nat, r: Row): Scan {
    if !test(r) then s
    else if |s.open| == 0 then Scan([r], [i] + s.partitioned, s.closed)
    else
      var open := if accept(s.open, r) then s.open + [r] else s.open;
      if |open| == p.qubitNum then Scan([], [i] + s.partitioned, s.closed + [open])
      else Scan(open, [i] + s.partitioned, s.closed)
  }

  /** The loop state after the first `n` rows of `_poly`. */
  function ScanRows(p: Partitioning, test: Row -> bool, accept: Oracle, n: nat): Scan
    requires n <= |p.poly|
  {
    if n == 0 then Scan([], [], [])
    else ScanRow(p, test, accept, ScanRows(p, test, accept, n - 1), n - 1, p.poly[n - 1])
  }

  predicate StrictlyDescending(idx: seq<nat>) {
    forall i, j :: 0 <= i < j < |idx| ==> idx[i] > idx[j]
  }

  /** `for_each(partitioned, erase_row)`: erase the listed indices one after another. */
  function EraseRows(m: Matrix, idx: seq<nat>): (r: Matrix)
    requires StrictlyDescending(idx) && (|idx| > 0 ==> idx[0] < |m|)
    ensures |r| == |m| - |idx|
  {
    if |idx| == 0 then m else EraseRows(EraseRow(m, idx[0]), idx[1..])
  }

  /** The constructability test for one basis, as a function on rows. */
  function ConstructableTest(wires: Matrix, rank: SizeT): Row -> bool {
    t => IsConstructable(wires, rank, t)
  }

  /** Reference: the rows of `m` failing `test`, in their original order. */
  function Rejects(test: Row -> bool, m: Matrix): Matrix {
    if |m| == 0 then []
    else
      var last := m[|m| - 1];
      Rejects(test, m[..|m| - 1]) + (if test(last) then [] else [last])
  }

  /** The kept rows are exactly the rows of `m` that fail `test`. */
  lemma {:induction false} RejectsMembers(test: Row -> bool, m: Matrix)
    ensures forall x :: x in Rejects(test, m) <==> x in m && !test(x)
    decreases |m|
  {
    if |m| > 0 {
      assert m == m[..|m| - 1] + [m[|m| - 1]];
      RejectsMembers(test, m[..|m| - 1]);
    }
  }

  /** Reference: the rows of `m` that are not constructable, in their original order. */
  function NotConstructable(wires: Matrix, rank: SizeT, m: Matrix): Matrix {
    Rejects(ConstructableTest(wires, rank), m)
  }

  /** A row survives a routine exactly when it is a row of `m` that the wires cannot construct. */
  lemma NotConstructableMembers(wires: Matrix, rank: SizeT, m: Matrix)
    ensures forall x :: x in NotConstructable(wires, rank, m) <==> x in m && !IsConstructable(wires, rank, x)
  {
    RejectsMembers(ConstructableTest(wires, rank), m);
  }

  /** Reference: the indices below `n` of rows passing `test`, largest first. */
  function ChosenDesc(test: Row -> bool, m: Matrix, n: nat): (idx: seq<nat>)
    requires n <= |m|
    ensures forall k :: 0 <= k < |idx| ==> idx[k] < n
    ensures StrictlyDescending(idx)
  {
    if n == 0 then []
    else if test(m[n - 1]) then [n - 1] + ChosenDesc(test, m, n - 1)
    else ChosenDesc(test, m, n - 1)
  }

  lemma {:induction false} ChosenDescPrefix(test: Row -> bool, m: Matrix, m': Matrix, n: nat)
    requires n <= |m| && n <= |m'| && m[..n] == m'[..n]
    ensures ChosenDesc(test, m, n) == ChosenDesc(test, m', n)
  {
    if n > 0 {
      assert m[n - 1] == m[..n][n - 1] == m'[n - 1];
      assert m[..n - 1] == m[..n][..n - 1];
      assert m'[..n - 1] == m'[..n][..n - 1];
      ChosenDescPrefix(test, m, m', n - 1);
    }
  }

  /** The routine records exactly the constructable indices, newest first. */
  lemma {:induction false} ScanPartitioned(p: Partitioning, test: Row -> bool, accept: Oracle, n: nat)
    requires n <= |p.poly|
    ensures ScanRows(p, test, accept, n).partitioned == ChosenDesc(test, p.poly, n)
  {
    if n > 0 {
      ScanPartitioned(p, test, accept, n - 1);
    }
  }

  /**
   * Erasing the constructable indices of the first `n` rows, largest first,
   * keeps exactly the other rows: each erase hits the row it was meant for.
   */
  lemma RejectsSnoc(test: Row -> bool, m: Matrix, n: nat)
    requires 0 < n <= |m|
    ensures Rejects(test, m[..n]) == Rejects(test, m[..n - 1]) + (if test(m[n - 1]) then [] else [m[n - 1]])
  {
    assert m[..n][..n - 1] == m[..n - 1];
    assert m[..n][n - 1] == m[n - 1];
  }

  /** Erasing the chosen indices of `m` starts with its last chosen row, then erases the rest's choices. */
  lemma EraseTakenUnfold(test: Row -> bool, m: Matrix, n: nat)
    requires 0 < n <= |m| && test(m[n - 1])
    ensures var m' := EraseRow(m, n - 1);
      EraseRows(m, ChosenDesc(test, m, n)) == EraseRows(m', ChosenDesc(test, m', n - 1))
  {
    var m' := EraseRow(m, n - 1);
    var d := ChosenDesc(test, m, n - 1);
    var e := [n - 1] + d;
    assert ChosenDesc(test, m, n) == e;
    assert e[0] == n - 1 && e[1..] == d;
    assert EraseRows(m, e) == EraseRows(m', d);
    assert m'[..n - 1] == m[..n - 1];
    ChosenDescPrefix(test, m, m', n - 1);
  }

  /** After erasing a chosen last row, the kept rows and the tail are those of `m`. */
  lemma EraseTakenRest(test: Row -> bool, m: Matrix, n: nat)
    requires 0 < n <= |m| && test(m[n - 1])
    ensures var m' := EraseRow(m, n - 1);
      Rejects(test, m'[..n - 1]) + m'[n - 1..] == Rejects(test, m[..n]) + m[n..]
  {
    var m' := EraseRow(m, n - 1);
    assert m'[..n - 1] == m[..n - 1];
    assert m'[n - 1..] == m[n..];
    RejectsSnoc(test, m, n);
  }

  /** The step of `EraseChosen` for a row that passes `test`: it is erased first. */
  lemma EraseTakenStep(test: Row -> bool, m: Matrix, n: nat)
    requires 0 < n <= |m| && test(m[n - 1])
    requires var m' := EraseRow(m, n - 1);
      EraseRows(m', ChosenDesc(test, m', n - 1)) == Rejects(test, m'[..n - 1]) + m'[n - 1..]
    ensures EraseRows(m, ChosenDesc(test, m, n)) == Rejects(test, m[..n]) + m[n..]
  {
    EraseTakenUnfold(test, m, n);
    EraseTakenRest(test, m, n);
  }

  /** The step of `EraseChosen` for a row that fails `test`: it stays in place. */
  lemma EraseKeptStep(test: Row -> bool, m: Matrix, n: nat)
    requires 0 < n <= |m| && !test(m[n - 1])
    requires EraseRows(m, ChosenDesc(test, m, n - 1)) == Rejects(test, m[..n - 1]) + m[n - 1..]
    ensures EraseRows(m, ChosenDesc(test, m, n)) == Rejects(test, m[..n]) + m[n..]
  {
    var a := Rejects(test, m[..n - 1]);
    RejectsSnoc(test, m, n);
    assert m[n - 1..] == [m[n - 1]] + m[n..];
    assert a + m[n - 1..] == (a + [m[n - 1]]) + m[n..];
  }

  /**
   * Erasing the indices of the first `n` rows that pass `test`, largest
   * first, keeps exactly the other rows: each erase hits the row it was
   * meant for.
   */
  lemma {:induction false} EraseChosen(test: Row -> bool, m: Matrix, n: nat)
    requires n <= |m|
    ensures EraseRows(m, ChosenDesc(test, m, n)) == Rejects(test, m[..n]) + m[n..]
  {
    if n == 0 {
      assert m[n..] == m;
    } else if test(m[n - 1]) {
      EraseChosen(test, EraseRow(m, n - 1), n - 1);
      EraseTakenStep(test, m, n);
    } else {
      EraseChosen(test, m, n - 1);
      EraseKeptStep(test, m, n);
    }
  }

  /**
   * `after` keeps the partitions of `before` as a prefix and every partition
   * added after them has exactly `q` rows.
   */
  predicate ExtendsWithFull(before: Partitions, after: Partitions, q: nat) {
    && |after| >= |before|
    && after[..|before|] == before
    && forall k :: |before| <= k < |after| ==> |after[k]| == q
  }

  lemma ExtendsWithFullTrans(a: Partitions, b: Partitions, c: Partitions, q: nat)
    requires ExtendsWithFull(a, b, q) && ExtendsWithFull(b, c, q)
    ensures ExtendsWithFull(a, c, q)
  {
    assert c[..|a|] == c[..|b|][..|a|];
  }

  /** Every partition the routine closes has exactly `_qubit_num` rows. */
  lemma {:induction false} ClosedPartitionsFull(p: Partitioning, test: Row -> bool, accept: Oracle, n: nat)
    requires n <= |p.poly|
    ensures forall k :: 0 <= k < |ScanRows(p, test, accept, n).closed| ==> |ScanRows(p, test, accept, n).closed[k]| == p.qubitNum
  {
    if n > 0 {
      ClosedPartitionsFull(p, test, accept, n - 1);
    }
  }

  /** With at least two qubits the open partition always stays below `_qubit_num` rows. */
  lemma {:induction false} OpenPartitionBounded(p: Partitioning, test: Row -> bool, accept: Oracle, n: nat)
    requires n <= |p.poly| && p.qubitNum >= 2
    ensures |ScanRows(p, test, accept, n).open| < p.qubitNum
  {
    if n > 0 {
      OpenPartitionBounded(p, test, accept, n - 1);
    }
  }

  /**
   * `greedy_partitioning_routine(_partitions, wires, rank)`: `_poly` keeps
   * exactly its non-constructable rows, in order, and the partitions appended
   * all have `_qubit_num` rows.
   */
  function GreedyRoutine(p: Partitioning, wires: Matrix, rank: SizeT): (r: Partitioning)
    ensures r.variable == p.variable && r.qubitNum == p.qubitNum
    ensures r.poly == NotConstructable(wires, rank, p.poly)
    ensures ExtendsWithFull(p.partitions, r.partitions, p.qubitNum)
  {
    var test, accept := ConstructableTest(wires, rank), OracleTest(p);
    var s := ScanRows(p, test, accept, |p.poly|);
    ScanPartitioned(p, test, accept, |p.poly|);
    EraseChosen(test, p.poly, |p.poly|);
    assert p.poly[..|p.poly|] == p.poly;
    ClosedPartitionsFull(p, test, accept, |p.poly|);
    var parts := p.partitions + s.closed;
    assert parts[..|p.partitions|] == p.partitions;
    assert forall k :: |p.partitions| <= k < |parts| ==> parts[k] == s.closed[k - |p.partitions|];
    p.(partitions := parts, poly := EraseRows(p.poly, s.partitioned))
  }

  /* ---------------- Rows the routine drops ---------------- */

  /** `x` sits in the open partition or in one of the closed ones. */
  predicate Held(s: Scan, x: Row) {
    x in s.open || exists k :: 0 <= k < |s.closed| && x in s.closed[k]
  }

  /** At step `i` the row was constructable, the open partition non-empty, and the oracle said no. */
  predicate Rejected(p: Partitioning, test: Row -> bool, accept: Oracle, i: nat)
    requires i < |p.poly|
  {
    var s := ScanRows(p, test, accept, i);
    test(p.poly[i]) && |s.open| > 0 && !accept(s.open, p.poly[i])
  }

  lemma ScanRowHeld(p: Partitioning, test: Row -> bool, accept: Oracle, s: Scan, i: nat, r: Row, x: Row)
    requires Held(ScanRow(p, test, accept, s, i, r), x)
    ensures Held(s, x) || (x == r && test(r))
    ensures test(r) && |s.open| > 0 && !accept(s.open, r) ==> Held(s, x)
  {
    var s' := ScanRow(p, test, accept, s, i, r);
    if x !in s'.open {
      var k :| 0 <= k < |s'.closed| && x in s'.closed[k];
      if k < |s.closed| {
        assert s'.closed[k] == s.closed[k];
      }
    }
  }

  /** Held rows are constructable rows taken from the rows scanned so far. */
  lemma {:induction false} HeldFromPrefix(p: Partitioning, test: Row -> bool, accept: Oracle, n: nat, x: Row)
    requires n <= |p.poly| && Held(ScanRows(p, test, accept, n), x)
    ensures x in p.poly[..n] && test(x)
  {
    if n > 0 {
      ScanRowHeld(p, test, accept, ScanRows(p, test, accept, n - 1), n - 1, p.poly[n - 1], x);
      if Held(ScanRows(p, test, accept, n - 1), x) {
        HeldFromPrefix(p, test, accept, n - 1, x);
        assert p.poly[..n - 1] <= p.poly[..n];
      } else {
        assert p.poly[..n][n - 1] == p.poly[n - 1];
      }
    }
  }

  lemma NotInEarlierRows(m: Matrix, i: nat)
    requires NoDuplicateRows(m) && i < |m|
    ensures m[i] !in m[..i]
  {
    assert forall j :: 0 <= j < i ==> m[..i][j] == m[j];
  }

  /** A row the oracle rejected is never held again. */
  lemma {:induction false} RejectedNeverHeld(p: Partitioning, test: Row -> bool, accept: Oracle, i: nat, n: nat)
    requires NoDuplicateRows(p.poly) && i < n <= |p.poly|
    requires Rejected(p, test, accept, i)
    ensures !Held(ScanRows(p, test, accept, n), p.poly[i])
  {
    var x := p.poly[i];
    var prev := ScanRows(p, test, accept, n - 1);
    var s := ScanRows(p, test, accept, n);
    assert s == ScanRow(p, test, accept, prev, n - 1, p.poly[n - 1]);
    if Held(s, x) {
      ScanRowHeld(p, test, accept, prev, n - 1, p.poly[n - 1], x);
      if n - 1 == i {
        assert Held(prev, x);
        HeldFromPrefix(p, test, accept, i, x);
        NotInEarlierRows(p.poly, i);
        assert false;
      } else {
        assert x != p.poly[n - 1];
        RejectedNeverHeld(p, test, accept, i, n - 1);
        assert false;
      }
    }
  }

  /** The open partition never shares a row with a closed one. */
  predicate OpenDisjoint(s: Scan) {
    forall x, k :: x in s.open && 0 <= k < |s.closed| ==> x !in s.closed[k]
  }

  lemma {:induction false} OpenDisjointFromClosed(p: Partitioning, test: Row -> bool, accept: Oracle, n: nat)
    requires NoDuplicateRows(p.poly) && n <= |p.poly|
    ensures OpenDisjoint(ScanRows(p, test, accept, n))
  {
    if n > 0 {
      OpenDisjointFromClosed(p, test, accept, n - 1);
      var prev := ScanRows(p, test, accept, n - 1);
      assert forall x, k :: x in prev.open && 0 <= k < |prev.closed| ==> x !in prev.closed[k];
      var s := ScanRows(p, test, accept, n);
      var r := p.poly[n - 1];
      assert s.closed == prev.closed || s.open == [];
      assert forall y :: y in s.open ==> y in prev.open || y == r;
      if Held(prev, r) {
        HeldFromPrefix(p, test, accept, n - 1, r);
        NotInEarlierRows(p.poly, n - 1);
      }
      forall x, k | x in s.open && 0 <= k < |s.closed|
        ensures x !in s.closed[k]
      {
        assert s.closed == prev.closed;
        if x != r {
          assert x in prev.open;
          assert x !in prev.closed[k];
        } else {
          assert !Held(prev, r);
          assert r !in prev.closed[k];
        }
      }
    }
  }

  /**
   * A constructable row rejected by the oracle, or left in the unfinished
   * open partition, is in no partition the routine outputs and is gone
   * from `_poly`.
   */
  lemma DroppedRows(p: Partitioning, wires: Matrix, rank: SizeT)
    requires NoDuplicateRows(p.poly)
    ensures var r, test, accept := GreedyRoutine(p, wires, rank), ConstructableTest(wires, rank), OracleTest(p);
      forall i, k :: 0 <= i < |p.poly| && Rejected(p, test, accept, i) && |p.partitions| <= k < |r.partitions| ==>
        p.poly[i] !in r.partitions[k] && p.poly[i] !in r.poly
    ensures var r, test, accept := GreedyRoutine(p, wires, rank), ConstructableTest(wires, rank), OracleTest(p);
      forall x, k :: x in ScanRows(p, test, accept, |p.poly|).open && |p.partitions| <= k < |r.partitions| ==>
        x !in r.partitions[k] && x !in r.poly
  {
    var test, accept := ConstructableTest(wires, rank), OracleTest(p);
    var s := ScanRows(p, test, accept, |p.poly|);
    var r := GreedyRoutine(p, wires, rank);
    NotConstructableMembers(wires, rank, p.poly);
    assert r.partitions == p.partitions + s.closed;
    assert forall k :: |p.partitions| <= k < |r.partitions| ==> r.partitions[k] == s.closed[k - |p.partitions|];
    forall i, k | 0 <= i < |p.poly| && Rejected(p, test, accept, i) && |p.partitions| <= k < |r.partitions|
      ensures p.poly[i] !in r.partitions[k] && p.poly[i] !in r.poly
    {
      RejectedNeverHeld(p, test, accept, i, |p.poly|);
    }
    OpenDisjointFromClosed(p, test, accept, |p.poly|);
    forall x | x in s.open
      ensures x !in r.poly
    {
      HeldFromPrefix(p, test, accept, |p.poly|, x);
    }
  }

  /* ---------------- The whole greedy run ---------------- */

  /** The `for (auto [wires, q] : h_map)` loop: one routine call per entry, with the fixed rank. */
  function GreedyLoop(p: Partitioning, hmap: HMap, rank: SizeT): (r: Partitioning)
    ensures r.variable == p.variable && r.qubitNum == p.qubitNum
    ensures ExtendsWithFull(p.partitions, r.partitions, p.qubitNum)
    decreases |hmap|
  {
    if |hmap| == 0 then p
    else
      var p1 := GreedyRoutine(p, hmap[0].0, rank);
      var r := GreedyLoop(p1, hmap[1..], rank);
      ExtendsWithFullTrans(p.partitions, p1.partitions, r.partitions, p.qubitNum);
      r
  }

  /** No entry of `hmap` can construct row `x`. */
  predicate Unplaceable(hmap: HMap, rank: SizeT, x: Row) {
    forall i :: 0 <= i < |hmap| ==> !IsConstructable(hmap[i].0, rank, x)
  }

  /** Reference: the rows of `m` that no basis of `hmap` can construct, in order. */
  function Unplaced(hmap: HMap, rank: SizeT, m: Matrix): Matrix {
    if |m| == 0 then []
    else
      var last := m[|m| - 1];
      Unplaced(hmap, rank, m[..|m| - 1]) + (if Unplaceable(hmap, rank, last) then [last] else [])
  }

  /** The rows left over are exactly the rows of `m` that no basis of `hmap` can construct. */
  lemma {:induction false} UnplacedMembers(hmap: HMap, rank: SizeT, m: Matrix)
    ensures forall x :: x in Unplaced(hmap, rank, m) <==> x in m && Unplaceable(hmap, rank, x)
    decreases |m|
  {
    if |m| > 0 {
      assert m == m[..|m| - 1] + [m[|m| - 1]];
      UnplacedMembers(hmap, rank, m[..|m| - 1]);
    }
  }

  lemma {:induction false} UnplacedStep(hmap: HMap, rank: SizeT, m: Matrix)
    requires |hmap| > 0
    ensures Unplaced(hmap[1..], rank, NotConstructable(hmap[0].0, rank, m)) == Unplaced(hmap, rank, m)
  {
    var w := hmap[0].0;
    forall x ensures Unplaceable(hmap, rank, x) <==> !IsConstructable(w, rank, x) && Unplaceable(hmap[1..], rank, x) {
      if !IsConstructable(w, rank, x) && Unplaceable(hmap[1..], rank, x) {
        forall i | 0 <= i < |hmap| ensures !IsConstructable(hmap[i].0, rank, x) {
          if i > 0 { assert hmap[i] == hmap[1..][i - 1]; }
        }
      }
    }
    if |m| > 0 {
      var init, last := m[..|m| - 1], m[|m| - 1];
      UnplacedStep(hmap, rank, init);
      var nc := NotConstructable(w, rank, init);
      if !IsConstructable(w, rank, last) {
        assert (nc + [last])[..|nc|] == nc;
      } else {
        assert NotConstructable(w, rank, m) == nc;
      }
    }
  }

  /** After all bases, `_poly` holds exactly the rows no basis could construct. */
  lemma {:induction false} GreedyLoopPoly(p: Partitioning, hmap: HMap, rank: SizeT)
    ensures GreedyLoop(p, hmap, rank).poly == Unplaced(hmap, rank, p.poly)
    decreases |hmap|
  {
    if |hmap| == 0 {
      UnplacedNone(rank, p.poly);
    } else {
      var p1 := GreedyRoutine(p, hmap[0].0, rank);
      GreedyLoopPoly(p1, hmap[1..], rank);
      UnplacedStep(hmap, rank, p.poly);
    }
  }

  lemma {:induction false} UnplacedNone(rank: SizeT, m: Matrix)
    ensures Unplaced([], rank, m) == m
  {
    if |m| > 0 {
      UnplacedNone(rank, m[..|m| - 1]);
      assert m == m[..|m| - 1] + [m[|m| - 1]];
    }
  }

  /**
   * `greedy_partitioning(h_map, rank)`: run the routine for every basis, then
   * fail if any row is still pending; otherwise return `_partitions`.
   */
  function GreedyPartitioning(p: Partitioning, hmap: HMap, rank: SizeT): (r: Result<Partitioning, Failure>)
    ensures r.Success? <==> forall j :: 0 <= j < |p.poly| ==> !Unplaceable(hmap, rank, p.poly[j])
    ensures r.Failure? ==> r.error == PolyNotEmpty
    ensures r.Success? ==> r.value.poly == [] && ExtendsWithFull(p.partitions, r.value.partitions, p.qubitNum)
  {
    var q := GreedyLoop(p, hmap, rank);
    GreedyLoopPoly(p, hmap, rank);
    UnplacedMembers(hmap, rank, p.poly);
    if |q.poly| != 0 then
      var x := q.poly[0];
      assert x in q.poly;
      Failure(PolyNotEmpty)
    else
      assert forall j :: 0 <= j < |p.poly| ==> p.poly[j] !in q.poly;
      Success(q)
  }
}
