/**
 * A GF(2) matrix as an ordered sequence of bit rows. The repository's own
 * `dvlab::BooleanMatrix` is not part of this model; the operations the
 * phase-polynomial core uses on it are defined here from their names:
 * `push_row`, `erase_row`, `find_row` (first exact match), `get_row`,
 * `row_operation(c, t)` (row t ^= row c) and the rank computed by Gaussian
 * elimination.
 */
module BooleanMatrix {
  import opened Wrappers

  type Row = seq<bool>
  type Matrix = seq<Row>

  /** Bitwise XOR of two rows; `b` reads as zero past its end. */
  function Xor(a: Row, b: Row): (r: Row)
    ensures |r| == |a|
  {
    seq(|a|, i requires 0 <= i < |a| => a[i] != (i < |b| && b[i]))
  }

  predicate IsZero(r: Row) {
    forall i :: 0 <= i < |r| ==> !r[i]
  }

  predicate NoDuplicateRows(m: Matrix) {
    forall i, j :: 0 <= i < j < |m| ==> m[i] != m[j]
  }

  /** Row `i` of the `n`-wide identity: a single bit set at column `i`. */
  function UnitRow(n: nat, i: nat): Row {
    seq(n, j => j == i)
  }

  /** The first `k` rows of the `n`-by-`n` identity. */
  function UnitRows(n: nat, k: nat): (m: Matrix)
    ensures |m| == k
  {
    seq(k, i requires 0 <= i < k => UnitRow(n, i))
  }

  function Identity(n: nat): Matrix {
    UnitRows(n, n)
  }

  /** `m` is the `n`-by-`n` identity: row `i` has exactly bit `i` set. */
  predicate IsIdentity(m: Matrix, n: nat) {
    && |m| == n
    && (forall i :: 0 <= i < n ==> |m[i]| == n)
    && (forall i, j :: 0 <= i < n && 0 <= j < n ==> m[i][j] == (i == j))
  }

  lemma IdentityIsIdentity(n: nat)
    ensures IsIdentity(Identity(n), n)
  {
  }

  function PushRow(m: Matrix, r: Row): (m': Matrix)
    ensures |m'| == |m| + 1 && m'[|m|] == r
    ensures forall i :: 0 <= i < |m| ==> m'[i] == m[i]
  {
    m + [r]
  }

  /** Removes row `i`; the rows after it move up by one. */
  function EraseRow(m: Matrix, i: nat): (m': Matrix)
    requires i < |m|
    ensures |m'| == |m| - 1
    ensures forall j :: 0 <= j < i ==> m'[j] == m[j]
    ensures forall j :: i <= j < |m'| ==> m'[j] == m[j + 1]
  {
    m[..i] + m[i + 1..]
  }

  function GetRow(m: Matrix, i: nat): Row
    requires i < |m|
  {
    m[i]
  }

  /** Index of the first row equal to `r`, or None when no row is. */
  function FindRow(m: Matrix, r: Row): (k: Option<nat>)
    ensures k.Some? ==> k.value < |m| && m[k.value] == r
    ensures k.Some? ==> forall j :: 0 <= j < k.value ==> m[j] != r
    ensures k.None? <==> r !in m
  {
    if |m| == 0 then None
    else if m[0] == r then Some(0)
    else match FindRow(m[1..], r)
      case None => assert m == [m[0]] + m[1..]; None
      case Some(k) => Some(k + 1)
  }

  /** `row_operation(c, t)`: row `t` becomes row `t` XOR row `c`; nothing else changes. */
  function RowOperation(m: Matrix, c: nat, t: nat): (m': Matrix)
    requires c < |m| && t < |m|
    ensures |m'| == |m|
    ensures forall i :: 0 <= i < |m| && i != t ==> m'[i] == m[i]
    ensures |m'[t]| == |m[t]|
    ensures forall j :: 0 <= j < |m[t]| ==> m'[t][j] == (m[t][j] != (j < |m[c]| && m[c][j]))
  {
    m[t := Xor(m[t], m[c])]
  }

  /* ---------------- Rank by Gaussian elimination over GF(2) ---------------- */

  /** Column of the leading one of `r`, or None for a zero row. */
  function Pivot(r: Row): (p: Option<nat>)
    ensures p.None? <==> IsZero(r)
    ensures p.Some? ==> p.value < |r| && r[p.value]
    ensures p.Some? ==> forall j :: 0 <= j < p.value ==> !r[j]
  {
    if |r| == 0 then None
    else if r[0] then Some(0)
    else match Pivot(r[1..])
      case None => None
      case Some(p) => Some(p + 1)
  }

  /** Cancels the pivot bit of basis row `b` from `r`. */
  function Eliminate(b: Row, r: Row): (x: Row)
    ensures |x| == |r|
  {
    match Pivot(b)
    case None => r
    case Some(p) => if p < |r| && r[p] then Xor(r, b) else r
  }

  /** Reduces `r` against every row of an echelon basis, in order. */
  function Reduce(basis: Matrix, r: Row): (x: Row)
    ensures |x| == |r|
    decreases |basis|
  {
    if |basis| == 0 then r else Reduce(basis[1..], Eliminate(basis[0], r))
  }

  /**
   * Echelon basis of the row space of `m`, built row by row: each row is
   * reduced against the basis of the rows before it and kept when it does
   * not vanish.
   */
  function Echelon(m: Matrix): (e: Matrix)
    ensures |e| <= |m|
    ensures forall i :: 0 <= i < |e| ==> !IsZero(e[i])
  {
    if |m| == 0 then []
    else
      var b := Echelon(m[..|m| - 1]);
      var x := Reduce(b, m[|m| - 1]);
      if IsZero(x) then b else b + [x]
  }

  /** The GF(2) rank of `m`; never more than its row count. */
  function Rank(m: Matrix): (k: nat)
    ensures k <= |m|
  {
    |Echelon(m)|
  }

  /** Adding one row raises the rank by at most one. */
  lemma RankAppend(m: Matrix, r: Row)
    ensures Rank(m + [r]) == Rank(m) || Rank(m + [r]) == Rank(m) + 1
  {
    assert (m + [r])[..|m|] == m;
  }

  lemma ReduceZero(basis: Matrix, r: Row)
    requires IsZero(r)
    ensures IsZero(Reduce(basis, r))
    decreases |basis|
  {
    if |basis| > 0 {
      ReduceZero(basis[1..], Eliminate(basis[0], r));
    }
  }

  /** Adding an all-zero row leaves the rank unchanged. */
  lemma RankZeroRow(m: Matrix, r: Row)
    requires IsZero(r)
    ensures Rank(m + [r]) == Rank(m)
  {
    assert (m + [r])[..|m|] == m;
    ReduceZero(Echelon(m), r);
  }

  /** A single row has rank one exactly when it is non-zero. */
  lemma RankSingleton(r: Row)
    ensures Rank([r]) == if IsZero(r) then 0 else 1
  {
    assert [r][..0] == [];
  }

  lemma PivotUnitRow(n: nat, i: nat)
    requires i < n
    ensures Pivot(UnitRow(n, i)) == Some(i)
  {
    if i > 0 {
      assert UnitRow(n, i)[1..] == UnitRow(n - 1, i - 1);
      PivotUnitRow(n - 1, i - 1);
    }
  }

  /** Reducing against a basis whose pivot columns are all clear in `r` leaves `r` unchanged. */
  lemma {:induction false} ReduceUntouched(basis: Matrix, r: Row)
    requires forall i :: 0 <= i < |basis| ==> Pivot(basis[i]).Some? && Pivot(basis[i]).value < |r| && !r[Pivot(basis[i]).value]
    ensures Reduce(basis, r) == r
    decreases |basis|
  {
    if |basis| > 0 {
      assert Eliminate(basis[0], r) == r;
      assert forall i :: 0 <= i < |basis[1..]| ==> basis[1..][i] == basis[i + 1];
      ReduceUntouched(basis[1..], r);
    }
  }

  /** Unit row `i` of the first `k` pivots at column `i`, where unit row `k` is clear. */
  lemma UnitRowsPivots(n: nat, k: nat)
    requires k < n
    ensures forall i :: 0 <= i < k ==> Pivot(UnitRows(n, k)[i]) == Some(i)
  {
    forall i | 0 <= i < k
      ensures Pivot(UnitRows(n, k)[i]) == Some(i)
    {
      PivotUnitRow(n, i);
    }
  }

  /** The first `k` unit rows are the first `k - 1` followed by unit row `k - 1`. */
  lemma UnitRowsSnoc(n: nat, k: nat)
    requires k > 0
    ensures UnitRows(n, k) == UnitRows(n, k - 1) + [UnitRow(n, k - 1)]
  {
    var a := UnitRows(n, k);
    var b := UnitRows(n, k - 1) + [UnitRow(n, k - 1)];
    forall i | 0 <= i < k
      ensures a[i] == b[i]
    {
      if i < k - 1 {
        assert b[i] == UnitRows(n, k - 1)[i];
      }
    }
  }

  lemma {:induction false} EchelonUnitRows(n: nat, k: nat)
    requires k <= n
    ensures Echelon(UnitRows(n, k)) == UnitRows(n, k)
  {
    if k > 0 {
      var m := UnitRows(n, k);
      var prev := UnitRows(n, k - 1);
      var u := UnitRow(n, k - 1);
      UnitRowsSnoc(n, k);
      assert m[..k - 1] == prev;
      EchelonUnitRows(n, k - 1);
      UnitRowsPivots(n, k - 1);
      ReduceUntouched(prev, u);
      assert !IsZero(u) by { assert u[k - 1]; }
    }
  }

  /** The `n`-by-`n` identity has full rank `n`. */
  lemma RankIdentity(n: nat)
    ensures Rank(Identity(n)) == n
  {
    EchelonUnitRows(n, n);
  }
}
