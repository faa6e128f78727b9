/**
 * The GF(2) row space of a matrix, as an independent reference for the
 * rank that `BooleanMatrix.Rank` computes by elimination: a row lies in the
 * span of a matrix when it is the XOR of some subset of its rows, and the
 * rank grows when a row is pushed exactly when that row is outside the span.
 */
module RowSpace {
  import opened Wrappers
  import opened BooleanMatrix

  /** Every row of `m` has `w` columns. */
  predicate Width(m: Matrix, w: nat) {
    forall i :: 0 <= i < |m| ==> |m[i]| == w
  }

  function Zero(w: nat): Row {
    seq(w, _ => false)
  }

  /** Parity of the bits in column `col` of the rows of `m` that `c` selects. */
  function ColumnParity(m: Matrix, c: seq<bool>, col: nat): bool
    requires |c| == |m|
    decreases |m|
  {
    if |m| == 0 then false
    else ColumnParity(m[..|m| - 1], c[..|c| - 1], col) != (c[|c| - 1] && col < |m[|m| - 1]| && m[|m| - 1][col])
  }

  /** The XOR, `w` columns wide, of the rows of `m` that `c` selects. */
  function Combo(m: Matrix, c: seq<bool>, w: nat): Row
    requires |c| == |m|
  {
    seq(w, col requires 0 <= col < w => ColumnParity(m, c, col))
  }

  /** `r` is the XOR of some subset of the rows of `m`. */
  ghost predicate InSpan(m: Matrix, r: Row) {
    exists c :: |c| == |m| && Combo(m, c, |r|) == r
  }

  /** Every later row is clear in the pivot column of each earlier one, and no row is zero. */
  predicate EchelonForm(e: Matrix, w: nat) {
    && Width(e, w)
    && (forall i :: 0 <= i < |e| ==> Pivot(e[i]).Some?)
    && (forall i, j :: 0 <= i < j < |e| ==> !e[j][Pivot(e[i]).value])
  }

  /* ---------------- Parity of selected rows, column by column ---------------- */

  /** Selecting with the XOR of two selections gives the XOR of the two parities. */
  lemma {:induction false} ParityLinear(m: Matrix, c1: seq<bool>, c2: seq<bool>, col: nat)
    requires |c1| == |m| && |c2| == |m|
    ensures ColumnParity(m, Xor(c1, c2), col) == (ColumnParity(m, c1, col) != ColumnParity(m, c2, col))
    decreases |m|
  {
    if |m| > 0 {
      var n := |m|;
      assert Xor(c1, c2)[..n - 1] == Xor(c1[..n - 1], c2[..n - 1]);
      ParityLinear(m[..n - 1], c1[..n - 1], c2[..n - 1], col);
    }
  }

  /** The parity can be split off at the first row as well as at the last. */
  lemma {:induction false} ParityCons(b: Row, rest: Matrix, e: bool, c: seq<bool>, col: nat)
    requires |c| == |rest|
    ensures ColumnParity([b] + rest, [e] + c, col) == ((e && col < |b| && b[col]) != ColumnParity(rest, c, col))
    decreases |rest|
  {
    var n := |rest|;
    if n == 0 {
      assert ([b] + rest)[..0] == [];
    } else {
      assert ([b] + rest)[..n] == [b] + rest[..n - 1];
      assert ([e] + c)[..n] == [e] + c[..n - 1];
      ParityCons(b, rest[..n - 1], e, c[..n - 1], col);
    }
  }

  /** When at most row `i` is both selected and set in column `col`, the parity is that row's bit. */
  lemma {:induction false} ParityOnlyAt(m: Matrix, c: seq<bool>, col: nat, i: nat)
    requires |c| == |m|
    requires forall j :: 0 <= j < |m| && j != i ==> !(c[j] && col < |m[j]| && m[j][col])
    ensures ColumnParity(m, c, col) == (i < |m| && c[i] && col < |m[i]| && m[i][col])
    decreases |m|
  {
    var n := |m|;
    if n > 0 {
      assert forall j :: 0 <= j < n - 1 ==> m[..n - 1][j] == m[j] && c[..n - 1][j] == c[j];
      ParityOnlyAt(m[..n - 1], c[..n - 1], col, i);
    }
  }

  /* ---------------- Closure of the span ---------------- */

  /** The zero row lies in every span. */
  lemma SpanZero(m: Matrix, w: nat)
    ensures InSpan(m, Zero(w))
  {
    var none := seq(|m|, _ => false);
    forall col | 0 <= col < w
      ensures Combo(m, none, w)[col] == Zero(w)[col]
    {
      ParityOnlyAt(m, none, col, |m|);
    }
    assert Combo(m, none, |Zero(w)|) == Zero(w);
  }

  /** The span is closed under XOR. */
  lemma SpanXor(m: Matrix, a: Row, b: Row)
    requires |a| == |b| && InSpan(m, a) && InSpan(m, b)
    ensures InSpan(m, Xor(a, b))
  {
    var w := |a|;
    var c1 :| |c1| == |m| && Combo(m, c1, w) == a;
    var c2 :| |c2| == |m| && Combo(m, c2, w) == b;
    forall col | 0 <= col < w
      ensures Combo(m, Xor(c1, c2), w)[col] == Xor(a, b)[col]
    {
      ParityLinear(m, c1, c2, col);
    }
    assert Combo(m, Xor(c1, c2), |Xor(a, b)|) == Xor(a, b);
  }

  /** Pushing a row with selection bit `e` adds its bit to every column parity when `e` is set. */
  lemma ParitySnoc(m: Matrix, x: Row, c: seq<bool>, e: bool, col: nat)
    requires |c| == |m|
    ensures ColumnParity(m + [x], c + [e], col) == (ColumnParity(m, c, col) != (e && col < |x| && x[col]))
  {
    assert (m + [x])[..|m|] == m;
    assert (c + [e])[..|c|] == c;
  }

  /** Pushing a row keeps everything already in the span. */
  lemma SpanExtend(m: Matrix, x: Row, r: Row)
    requires InSpan(m, r)
    ensures InSpan(m + [x], r)
  {
    var c :| |c| == |m| && Combo(m, c, |r|) == r;
    var c' := c + [false];
    forall col | 0 <= col < |r|
      ensures Combo(m + [x], c', |r|)[col] == r[col]
    {
      ParitySnoc(m, x, c, false, col);
      assert Combo(m, c, |r|)[col] == r[col];
    }
    assert Combo(m + [x], c', |r|) == r;
  }

  /** XOR-ing a member of the span with a pushed row lands in the grown span. */
  lemma SpanAddLast(m: Matrix, x: Row, a: Row)
    requires |a| == |x| && InSpan(m, a)
    ensures InSpan(m + [x], Xor(a, x))
  {
    var w := |a|;
    var c :| |c| == |m| && Combo(m, c, w) == a;
    var c' := c + [true];
    forall col | 0 <= col < w
      ensures Combo(m + [x], c', w)[col] == Xor(a, x)[col]
    {
      ParitySnoc(m, x, c, true, col);
      assert Combo(m, c, w)[col] == a[col];
    }
    assert Combo(m + [x], c', |Xor(a, x)|) == Xor(a, x);
  }

  /** A XOR of rows that each lie in the span of `m` lies there too. */
  lemma {:induction false} SpanCombo(m: Matrix, rows: Matrix, d: seq<bool>, w: nat)
    requires Width(rows, w) && |d| == |rows|
    requires forall i :: 0 <= i < |rows| ==> InSpan(m, rows[i])
    ensures InSpan(m, Combo(rows, d, w))
    decreases |rows|
  {
    var n := |rows|;
    if n == 0 {
      assert Combo(rows, d, w) == Zero(w);
      SpanZero(m, w);
    } else {
      var prefix, dp := rows[..n - 1], d[..n - 1];
      assert forall i :: 0 <= i < n - 1 ==> prefix[i] == rows[i];
      SpanCombo(m, prefix, dp, w);
      var p := Combo(prefix, dp, w);
      if d[n - 1] {
        assert Combo(rows, d, w) == Xor(p, rows[n - 1]);
        SpanXor(m, p, rows[n - 1]);
      } else {
        assert Combo(rows, d, w) == p;
      }
    }
  }

  /* ---------------- What elimination does to a row ---------------- */

  /** Eliminating against one more leading basis row keeps the difference in the grown span. */
  lemma ReduceOffsetCons(b: Row, rest: Matrix, r: Row, x: Row)
    requires |b| == |r| && |x| == |r|
    requires InSpan(rest, Xor(Eliminate(b, r), x))
    ensures InSpan([b] + rest, Xor(r, x))
  {
    var w := |r|;
    var r1 := Eliminate(b, r);
    var c :| |c| == |rest| && Combo(rest, c, |Xor(r1, x)|) == Xor(r1, x);
    var e := match Pivot(b) case Some(p) => p < w && r[p] case None => false;
    assert r1 == if e then Xor(r, b) else r;
    forall col | 0 <= col < w
      ensures Combo([b] + rest, [e] + c, w)[col] == Xor(r, x)[col]
    {
      ParityCons(b, rest, e, c, col);
      assert Combo(rest, c, w)[col] == Xor(r1, x)[col];
      assert r1[col] == (r[col] != (e && b[col]));
    }
    assert Combo([b] + rest, [e] + c, |Xor(r, x)|) == Xor(r, x);
  }

  /** Reduction only ever adds basis rows: the difference it makes lies in their span. */
  lemma {:induction false} ReduceOffset(basis: Matrix, r: Row)
    requires Width(basis, |r|)
    ensures InSpan(basis, Xor(r, Reduce(basis, r)))
    decreases |basis|
  {
    var w := |r|;
    if |basis| == 0 {
      assert Xor(r, r) == Zero(w);
      SpanZero(basis, w);
    } else {
      var b, rest := basis[0], basis[1..];
      var r1 := Eliminate(b, r);
      assert Reduce(basis, r) == Reduce(rest, r1);
      assert Width(rest, w) by {
        assert forall i :: 0 <= i < |rest| ==> rest[i] == basis[i + 1];
      }
      ReduceOffset(rest, r1);
      ReduceOffsetCons(b, rest, r, Reduce(rest, r1));
      assert [b] + rest == basis;
    }
  }

  /** A column that is clear in every basis row is left alone by reduction. */
  lemma {:induction false} ReduceKeepsColumn(basis: Matrix, r: Row, col: nat)
    requires col < |r|
    requires forall i :: 0 <= i < |basis| ==> !(col < |basis[i]| && basis[i][col])
    ensures Reduce(basis, r)[col] == r[col]
    decreases |basis|
  {
    if |basis| > 0 {
      var rest := basis[1..];
      assert forall i :: 0 <= i < |rest| ==> rest[i] == basis[i + 1];
      assert Eliminate(basis[0], r)[col] == r[col];
      ReduceKeepsColumn(rest, Eliminate(basis[0], r), col);
    }
  }

  /** Reducing against an echelon basis clears every pivot column of the basis. */
  lemma {:induction false} ReducePivotsClear(basis: Matrix, r: Row)
    requires EchelonForm(basis, |r|)
    ensures forall i :: 0 <= i < |basis| ==> !Reduce(basis, r)[Pivot(basis[i]).value]
    decreases |basis|
  {
    if |basis| > 0 {
      var b, rest := basis[0], basis[1..];
      var p := Pivot(b).value;
      var r1 := Eliminate(b, r);
      assert !r1[p];
      assert forall i :: 0 <= i < |rest| ==> rest[i] == basis[i + 1];
      assert EchelonForm(rest, |r|);
      ReducePivotsClear(rest, r1);
      ReduceKeepsColumn(rest, r1, p);
      forall i | 0 <= i < |basis|
        ensures !Reduce(basis, r)[Pivot(basis[i]).value]
      {
        if i > 0 {
          assert basis[i] == rest[i - 1];
        }
      }
    }
  }

  /* ---------------- The echelon basis and the row space ---------------- */

  /** A non-zero row clear at every pivot of an echelon basis extends it. */
  lemma EchelonFormSnoc(b: Matrix, x: Row, w: nat)
    requires EchelonForm(b, w) && |x| == w && !IsZero(x)
    requires forall i :: 0 <= i < |b| ==> !x[Pivot(b[i]).value]
    ensures EchelonForm(b + [x], w)
  {
    var e := b + [x];
    assert forall i :: 0 <= i < |b| ==> e[i] == b[i];
  }

  /** The basis `Echelon` builds is in echelon form, as wide as the matrix. */
  lemma {:induction false} EchelonShape(m: Matrix, w: nat)
    requires Width(m, w)
    ensures EchelonForm(Echelon(m), w)
  {
    var n := |m|;
    if n > 0 {
      var prev := m[..n - 1];
      EchelonShape(prev, w);
      var b := Echelon(prev);
      var x := Reduce(b, m[n - 1]);
      if !IsZero(x) {
        ReducePivotsClear(b, m[n - 1]);
        EchelonFormSnoc(b, x, w);
      }
    }
  }

  /** Pushing a row keeps every row of `b` that was in the span. */
  lemma SpanExtendAll(m: Matrix, x: Row, b: Matrix)
    requires forall i :: 0 <= i < |b| ==> InSpan(m, b[i])
    ensures forall i :: 0 <= i < |b| ==> InSpan(m + [x], b[i])
  {
    forall i | 0 <= i < |b|
      ensures InSpan(m + [x], b[i])
    {
      SpanExtend(m, x, b[i]);
    }
  }

  /** The reduced form of a pushed row is a XOR of the rows so far. */
  lemma ReducedRowInSpan(b: Matrix, prev: Matrix, last: Row)
    requires Width(b, |last|)
    requires forall i :: 0 <= i < |b| ==> InSpan(prev, b[i])
    ensures InSpan(prev + [last], Reduce(b, last))
  {
    var x := Reduce(b, last);
    ReduceOffset(b, last);
    SpanOfSpan(prev, b, Xor(last, x));
    SpanAddLast(prev, last, Xor(last, x));
    assert Xor(Xor(last, x), last) == x;
  }

  /** One elimination step keeps every basis row inside the span of the rows so far. */
  lemma EchelonRowsStep(b: Matrix, prev: Matrix, last: Row)
    requires Width(b, |last|)
    requires forall i :: 0 <= i < |b| ==> InSpan(prev, b[i])
    ensures var x := Reduce(b, last);
      var b' := if IsZero(x) then b else b + [x];
      forall i :: 0 <= i < |b'| ==> InSpan(prev + [last], b'[i])
  {
    var x := Reduce(b, last);
    SpanExtendAll(prev, last, b);
    if !IsZero(x) {
      ReducedRowInSpan(b, prev, last);
      assert forall i :: 0 <= i < |b| ==> (b + [x])[i] == b[i];
    }
  }

  /** Every row of the echelon basis lies in the span of the matrix. */
  lemma {:induction false} EchelonRowsInSpan(m: Matrix, w: nat)
    requires Width(m, w)
    ensures forall i :: 0 <= i < |Echelon(m)| ==> InSpan(m, Echelon(m)[i])
  {
    var n := |m|;
    if n > 0 {
      var prev, last := m[..n - 1], m[n - 1];
      assert m == prev + [last];
      EchelonRowsInSpan(prev, w);
      EchelonShape(prev, w);
      var b := Echelon(prev);
      var x := Reduce(b, last);
      assert Echelon(m) == if IsZero(x) then b else b + [x];
      EchelonRowsStep(b, prev, last);
    }
  }

  /** One elimination step keeps every row so far inside the span of the basis. */
  lemma RowsInSpanStep(b: Matrix, prev: Matrix, last: Row)
    requires Width(b, |last|)
    requires forall k :: 0 <= k < |prev| ==> InSpan(b, prev[k])
    ensures var x := Reduce(b, last);
      forall k :: 0 <= k <= |prev| ==> InSpan(if IsZero(x) then b else b + [x], (prev + [last])[k])
  {
    var x := Reduce(b, last);
    var m := prev + [last];
    ReduceOffset(b, last);
    assert forall k :: 0 <= k < |prev| ==> m[k] == prev[k];
    if IsZero(x) {
      assert Xor(last, x) == last;
    } else {
      forall k | 0 <= k < |prev|
        ensures InSpan(b + [x], m[k])
      {
        SpanExtend(b, x, m[k]);
      }
      SpanAddLast(b, x, Xor(last, x));
      assert Xor(Xor(last, x), x) == last;
    }
  }

  /** Every row of the matrix lies in the span of its echelon basis. */
  lemma {:induction false} RowsInEchelonSpan(m: Matrix, w: nat)
    requires Width(m, w)
    ensures forall k :: 0 <= k < |m| ==> InSpan(Echelon(m), m[k])
  {
    var n := |m|;
    if n > 0 {
      var prev, last := m[..n - 1], m[n - 1];
      assert m == prev + [last];
      RowsInEchelonSpan(prev, w);
      EchelonShape(prev, w);
      var b := Echelon(prev);
      var x := Reduce(b, last);
      assert Echelon(m) == if IsZero(x) then b else b + [x];
      RowsInSpanStep(b, prev, last);
    }
  }

  /** In echelon form, a selection with first selected row `i` has a one in that row's pivot column. */
  lemma ComboHitsPivot(e: Matrix, c: seq<bool>, w: nat, i: nat)
    requires EchelonForm(e, w) && |c| == |e|
    requires i < |e| && c[i] && forall j :: 0 <= j < i ==> !c[j]
    ensures Combo(e, c, w)[Pivot(e[i]).value]
  {
    ParityOnlyAt(e, c, Pivot(e[i]).value, i);
  }

  /** A member of an echelon basis's span that is clear at every pivot is zero. */
  lemma SpanClearAtPivotsIsZero(e: Matrix, w: nat, x: Row)
    requires EchelonForm(e, w) && |x| == w && InSpan(e, x)
    requires forall i :: 0 <= i < |e| ==> !x[Pivot(e[i]).value]
    ensures IsZero(x)
  {
    var c :| |c| == |e| && Combo(e, c, w) == x;
    if Pivot(c).Some? {
      ComboHitsPivot(e, c, w, Pivot(c).value);
      assert false;
    }
    forall col | 0 <= col < w
      ensures !x[col]
    {
      ParityOnlyAt(e, c, col, |e|);
    }
  }

  /** `e` is an echelon basis of the row space of `m`: each spans the other's rows. */
  ghost predicate BasisOf(m: Matrix, e: Matrix, w: nat) {
    && EchelonForm(e, w)
    && (forall i :: 0 <= i < |e| ==> InSpan(m, e[i]))
    && (forall k :: 0 <= k < |m| ==> InSpan(e, m[k]))
  }

  lemma EchelonIsBasis(m: Matrix, w: nat)
    requires Width(m, w)
    ensures BasisOf(m, Echelon(m), w)
  {
    EchelonShape(m, w);
    EchelonRowsInSpan(m, w);
    RowsInEchelonSpan(m, w);
  }

  /** XOR with a zero row changes nothing. */
  lemma XorZero(r: Row, z: Row)
    requires IsZero(z)
    ensures Xor(r, z) == r
  {
  }

  /** A XOR of rows of `e`, each in the span of `m`, is in the span of `m`. */
  lemma SpanOfSpan(m: Matrix, e: Matrix, r: Row)
    requires Width(e, |r|) && InSpan(e, r)
    requires forall i :: 0 <= i < |e| ==> InSpan(m, e[i])
    ensures InSpan(m, r)
  {
    var c :| |c| == |e| && Combo(e, c, |r|) == r;
    SpanCombo(m, e, c, |r|);
  }

  /** A row that reduces to zero is a XOR of basis rows, hence of rows of `m`. */
  lemma VanishedInSpan(m: Matrix, e: Matrix, r: Row)
    requires BasisOf(m, e, |r|) && IsZero(Reduce(e, r))
    ensures InSpan(m, r)
  {
    var x := Reduce(e, r);
    ReduceOffset(e, r);
    XorZero(r, x);
    SpanOfSpan(m, e, r);
  }

  /** A row in the span of `m` reduces to zero against an echelon basis of it. */
  lemma InSpanVanishes(m: Matrix, e: Matrix, r: Row)
    requires Width(m, |r|) && BasisOf(m, e, |r|) && InSpan(m, r)
    ensures IsZero(Reduce(e, r))
  {
    SpanOfSpan(e, m, r);
    ReduceStaysInSpan(e, r);
    ReducePivotsClear(e, r);
    SpanClearAtPivotsIsZero(e, |r|, Reduce(e, r));
  }

  /** XOR-ing the same row twice cancels. */
  lemma XorCancel(r: Row, x: Row)
    requires |r| == |x|
    ensures Xor(r, Xor(r, x)) == x
  {
  }

  /** Eliminating a member of the basis's span leaves a member of that span. */
  lemma ReduceStaysInSpan(e: Matrix, r: Row)
    requires Width(e, |r|) && InSpan(e, r)
    ensures InSpan(e, Reduce(e, r))
  {
    var x := Reduce(e, r);
    ReduceOffset(e, r);
    SpanXor(e, r, Xor(r, x));
    XorCancel(r, x);
  }

  /** Elimination reduces a row to zero exactly when it lies in the span of the matrix. */
  lemma ReduceVanishesIffInSpan(m: Matrix, r: Row)
    requires Width(m, |r|)
    ensures IsZero(Reduce(Echelon(m), r)) <==> InSpan(m, r)
  {
    EchelonIsBasis(m, |r|);
    if IsZero(Reduce(Echelon(m), r)) {
      VanishedInSpan(m, Echelon(m), r);
    }
    if InSpan(m, r) {
      InSpanVanishes(m, Echelon(m), r);
    }
  }

  /**
   * The rank `Rank` computes is the GF(2) rank: pushing a row of the same
   * width keeps it exactly when the row is a XOR of rows already there, and
   * raises it by one exactly when it is not.
   */
  lemma RankGrowsIffOutsideSpan(m: Matrix, r: Row)
    requires Width(m, |r|)
    ensures Rank(m + [r]) == Rank(m) <==> InSpan(m, r)
    ensures Rank(m + [r]) == Rank(m) + 1 <==> !InSpan(m, r)
  {
    assert (m + [r])[..|m|] == m;
    ReduceVanishesIffInSpan(m, r);
  }
}
