/** Gauss-Jordan elimination modulo m of an augmented matrix, row by row in place. */
module Rref {
  import opened ModArith
  import opened LinearSystem
  import opened GraphRows
  import opened Results

  datatype RrefError = BadModulus | NonInvertiblePivot | Contradictory

  /** The first |pivots| rows are led by a 1 in strictly increasing pivot columns
      that are zero elsewhere; below them every coefficient before col is zero. */
  ghost predicate Echelon(rows: seq<Row>, pivots: seq<nat>, col: nat, m: int) {
    && |pivots| <= |rows|
    && (forall i :: 0 <= i < |rows| ==> |rows[i]| > col && Residues(rows[i], m))
    && (forall i :: 0 <= i < |pivots| ==> pivots[i] < col)
    && (forall i, j :: 0 <= i < j < |pivots| ==> pivots[i] < pivots[j])
    && (forall i :: 0 <= i < |pivots| ==> rows[i][pivots[i]] == 1)
    && (forall i, o :: 0 <= i < |pivots| && 0 <= o < |rows| && o != i ==> rows[o][pivots[i]] == 0)
    && (forall i, j :: 0 <= i < |pivots| && 0 <= j < pivots[i] ==> rows[i][j] == 0)
    && (forall i, j :: |pivots| <= i < |rows| && 0 <= j < col ==> rows[i][j] == 0)
  }

  /** No row reads 0 = c with c nonzero. */
  ghost predicate Consistent(rows: seq<Row>, pivots: seq<nat>, n: nat)
    requires Shaped(rows, n + 1)
  {
    forall i :: |pivots| <= i < |rows| ==> rows[i][n] == 0
  }

  /** np.flatnonzero(out[row:, col])[0], or None when it is empty. */
  method FirstNonzero(rows: seq<Row>, row: nat, col: nat) returns (found: Option<nat>)
    requires row <= |rows| && forall i :: 0 <= i < |rows| ==> col < |rows[i]|
    ensures found.Some? ==> row <= found.value < |rows| && rows[found.value][col] != 0
    ensures found.Some? ==> forall i :: row <= i < found.value ==> rows[i][col] == 0
    ensures found.None? ==> forall i :: row <= i < |rows| ==> rows[i][col] == 0
  {
    for k := row to |rows|
      invariant forall i :: row <= i < k ==> rows[i][col] == 0
    {
      if rows[k][col] != 0 {
        return Some(k);
      }
    }
    return None;
  }

  /** pow(x, -1, m), or None where Python raises ValueError. */
  method PowInverse(x: int, m: int) returns (inverse: Option<int>)
    requires m > 1
    ensures inverse.Some? ==> IsInverse(x, inverse.value, m)
    ensures inverse.None? ==> !HasInverse(x, m)
  {
    for y := 0 to m
      invariant forall z :: 0 <= z < y ==> !IsInverse(x, z, m)
    {
      if IsInverse(x, y, m) {
        return Some(y);
      }
    }
    return None;
  }

  /** Rows before `done` are cleared in column col, using the leading row p; no
      column to the left has changed in any other row. */
  ghost predicate Clearing(before: seq<Row>, rows: seq<Row>, row: nat, p: Row, done: nat, col: nat, n: nat, m: int) {
    && col < n && row < |before| == |rows| && Shaped(before, n + 1) && Shaped(rows, n + 1)
    && SameSolutions(before, rows, n, m)
    && rows[row] == p
    && (forall i :: 0 <= i < |rows| ==> Residues(rows[i], m))
    && (forall i :: 0 <= i < done && i < |rows| && i != row ==> rows[i][col] == 0)
    && (forall i, j :: 0 <= i < |rows| && i != row && 0 <= j < col ==> rows[i][j] == before[i][j])
  }

  lemma ScaledGraphRows(before: seq<Row>, row: nat, inverse: int, col: nat, n: nat, m: int, a: nat)
    requires m > 1 && col < n && row < |before| && Shaped(before, n + 1) && Residues(before[row], m)
    requires IsInverse(before[row][col], inverse, m)
    ensures var p := ScaleRow(before[row], inverse, m);
            AreGraphRows(before, a, n, m) ==> AreGraphRows(before[row := p], a, n, m)
  {
    ModOfReduced(0, m);
    if AreGraphRows(before, a, n, m) {
      ScaledGraphRow(before[row], a, n, m, col, inverse);
    }
  }

  lemma ClearedGraphRows(now: seq<Row>, row: nat, p: Row, other: nat, col: nat, n: nat, m: int, a: nat)
    requires m > 1 && col < n && row < |now| && other < |now| && Shaped(now, n + 1) && Residues(now[other], m)
    requires now[row] == p && p[col] == 1 && now[other][col] != 0
    ensures var next := CancelRow(now[other], now[other][col], p, m);
            AreGraphRows(now, a, n, m) ==> AreGraphRows(now[other := next], a, n, m)
  {
    if AreGraphRows(now, a, n, m) {
      CancelledGraphRow(now[other], p, a, n, m, col);
    }
  }

  lemma ScaledRow(r: Row, p: Row, c: int, m: int, col: nat)
    requires m > 1 && col < |r| && p == ScaleRow(r, c, m) && r[col] * c % m == 1
    requires forall j :: 0 <= j < col ==> r[j] == 0
    ensures Residues(p, m) && p[col] == 1 && forall j :: 0 <= j < col ==> p[j] == 0
  {
  }

  lemma PivotScaled(before: seq<Row>, row: nat, inverse: int, col: nat, n: nat, m: int)
    requires m > 1 && col < n && row < |before| && Shaped(before, n + 1)
    requires forall i :: 0 <= i < |before| ==> Residues(before[i], m)
    requires forall j :: 0 <= j < col ==> before[row][j] == 0
    requires IsInverse(before[row][col], inverse, m)
    ensures var p := ScaleRow(before[row], inverse, m);
            && Clearing(before, before[row := p], row, p, 0, col, n, m)
            && p[col] == 1 && forall j :: 0 <= j < col ==> p[j] == 0
  {
    var p := ScaleRow(before[row], inverse, m);
    ScaledRow(before[row], p, inverse, m, col);
    ScaleCombines(before[row], inverse, m);
    CongIsMod(before[row][col] * inverse, 1, m);
    ModOfReduced(1, m);
    UnscaleCombines(before[row], before[row][col], inverse, m);
    ReplaceRow(before, before[row := p], row, n, m, inverse, 0, before[row][col], 0, row);
  }

  lemma CancelledRow(r: Row, f: int, p: Row, m: int, col: nat)
    requires m > 1 && col < |r| == |p| && Residues(r, m)
    requires f == r[col] && p[col] == 1 && forall j :: 0 <= j < col ==> p[j] == 0
    ensures Residues(CancelRow(r, f, p, m), m) && CancelRow(r, f, p, m)[col] == 0
    ensures forall j :: 0 <= j < col ==> CancelRow(r, f, p, m)[j] == r[j]
  {
    forall j | 0 <= j < col ensures CancelRow(r, f, p, m)[j] == r[j] {
      assert f * p[j] == 0;
      ModOfReduced(r[j], m);
    }
  }

  lemma RowCleared(before: seq<Row>, now: seq<Row>, row: nat, p: Row, other: nat, col: nat, n: nat, m: int)
    requires m > 1 && Clearing(before, now, row, p, other, col, n, m) && other < |now| && other != row
    requires p[col] == 1 && forall j :: 0 <= j < col ==> p[j] == 0
    ensures Clearing(before, now[other := CancelRow(now[other], now[other][col], p, m)], row, p, other + 1, col, n, m)
  {
    var f := now[other][col];
    var next := now[other := CancelRow(now[other], f, p, m)];
    CancelCombines(now[other], f, p, m);
    CancelledRow(now[other], f, p, m, col);
    ReplaceRow(now, next, other, n, m, 1, -f, 1, f, row);
    SameTrans(before, now, next, n, m);
  }

  lemma EchelonGrows(before: seq<Row>, rows: seq<Row>, pivots: seq<nat>, col: nat, n: nat, m: int)
    requires m > 1 && col < n && |pivots| < |before| == |rows|
    requires Shaped(before, n + 1) && Shaped(rows, n + 1) && Echelon(before, pivots, col, m)
    requires forall i :: 0 <= i < |rows| ==> Residues(rows[i], m)
    requires forall i :: 0 <= i < |rows| && i != |pivots| ==> rows[i][col] == 0
    requires forall i, j :: 0 <= i < |rows| && i != |pivots| && 0 <= j < col ==> rows[i][j] == before[i][j]
    requires rows[|pivots|][col] == 1 && forall j :: 0 <= j < col ==> rows[|pivots|][j] == 0
    ensures Echelon(rows, pivots + [col], col + 1, m)
  {
    var q := pivots + [col];
    forall i, o | 0 <= i < |q| && 0 <= o < |rows| && o != i ensures rows[o][q[i]] == 0 {
      if i < |pivots| && o != |pivots| {
        assert before[o][pivots[i]] == 0;
      }
    }
    forall i, j | 0 <= i < |q| && 0 <= j < q[i] ensures rows[i][j] == 0 {
      if i < |pivots| {
        assert before[i][j] == 0;
      }
    }
    forall i | 0 <= i < |q| ensures rows[i][q[i]] == 1 {
      if i < |pivots| {
        assert before[i][pivots[i]] == 1;
      }
    }
  }

  ghost predicate Eliminating(matrix: seq<Row>, rows: seq<Row>, pivots: seq<nat>, col: nat, n: nat, m: int) {
    |rows| == |matrix| && col <= n && Shaped(rows, n + 1) && Echelon(rows, pivots, col, m) &&
        SameSolutions(matrix, rows, n, m)
  }

  /** out[row] scaled to a leading 1 and every other row cleared in column col. */
  method ClearColumn(ghost matrix: seq<Row>, out: array<Row>, row: nat, col: nat, inverse: int, ghost pivots: seq<nat>,
                     n: nat, m: int, ghost a: nat)
    requires m > 1 && col < n && row == |pivots| < out.Length
    requires Eliminating(matrix, out[..], pivots, col, n, m)
    requires IsInverse(out[row][col], inverse, m)
    modifies out
    ensures Eliminating(matrix, out[..], pivots + [col], col + 1, n, m)
    ensures AreGraphRows(old(out[..]), a, n, m) ==> AreGraphRows(out[..], a, n, m)
  {
    ghost var before := out[..];
    ghost var p := ScaleRow(out[row], inverse, m);
    PivotScaled(before, row, inverse, col, n, m);
    ScaledGraphRows(before, row, inverse, col, n, m, a);
    out[row] := ScaleRow(out[row], inverse, m);
    assert out[..] == before[row := p];
    for other := 0 to out.Length
      invariant Clearing(before, out[..], row, p, other, col, n, m)
      invariant AreGraphRows(before, a, n, m) ==> AreGraphRows(out[..], a, n, m)
    {
      ghost var now := out[..];
      if other != row && out[other][col] != 0 {
        RowCleared(before, now, row, p, other, col, n, m);
        ClearedGraphRows(now, row, p, other, col, n, m, a);
        out[other] := CancelRow(out[other], out[other][col], out[row], m);
        assert out[..] == now[other := CancelRow(now[other], now[other][col], p, m)];
      }
    }
    EchelonGrows(before, out[..], pivots, col, n, m);
    SameTrans(matrix, before, out[..], n, m);
  }

  lemma SwappedGraphRows(now: seq<Row>, row: nat, selected: nat, n: nat, m: int, a: nat)
    requires row < |now| && selected < |now|
    ensures AreGraphRows(now, a, n, m) ==> AreGraphRows(now[row := now[selected]][selected := now[row]], a, n, m)
  {
  }

  lemma SwapStep(matrix: seq<Row>, now: seq<Row>, pivots: seq<nat>, row: nat, selected: nat, col: nat, n: nat, m: int)
    requires Eliminating(matrix, now, pivots, col, n, m)
    requires |pivots| == row <= selected < |now|
    ensures Eliminating(matrix, now[row := now[selected]][selected := now[row]], pivots, col, n, m)
  {
    SwapRows(now, row, selected, n, m);
    SameTrans(matrix, now, now[row := now[selected]][selected := now[row]], n, m);
  }

  /** One round of the elimination loop: find a pivot in column col, bring it up
      to `row`, and clear the column; or leave everything when there is none. */
  method PivotColumn(
    ghost matrix: seq<Row>, out: array<Row>, row: nat, pivots: seq<nat>, col: nat, n: nat, m: int, ghost a: nat)
    returns (r: Result<seq<nat>, RrefError>)
    requires m > 1 && col < n && row == |pivots| < out.Length
    requires Eliminating(matrix, out[..], pivots, col, n, m)
    modifies out
    ensures r.Err? ==> r.error == NonInvertiblePivot && !IsPrime(m)
    ensures r.Ok? ==> Eliminating(matrix, out[..], r.value, col + 1, n, m)
    ensures row == 0 && old(out[0])[col] != 0 ==> (r.Ok? <==> HasInverse(old(out[0])[col], m))
    ensures AreGraphRows(old(out[..]), a, n, m) ==> r.Ok? && AreGraphRows(out[..], a, n, m)
  {
    var found := FirstNonzero(out[..], row, col);
    if found.None? {
      return Ok(pivots);
    }
    var selected := found.value;
    SwapStep(matrix, out[..], pivots, row, selected, col, n, m);
    ghost var now := out[..];
    out[row], out[selected] := out[selected], out[row];
    assert out[..] == now[row := now[selected]][selected := now[row]];
    SwappedGraphRows(now, row, selected, n, m, a);
    var inverse := PowInverse(out[row][col], m);
    if AreGraphRows(now, a, n, m) {
      UnitHasInverse(now[selected], a, n, m, col);
    }
    if inverse.None? {
      InvertibleIffPrime(m);
      return Err(NonInvertiblePivot);
    }
    assert HasInverse(out[row][col], m);
    ClearColumn(matrix, out, row, col, inverse.value, pivots, n, m, a);
    return Ok(pivots + [col]);
  }

  /** x carries the right-hand sides of the first k pivots and is zero elsewhere. */
  ghost predicate Carries(rows: seq<Row>, pivots: seq<nat>, n: nat, x: Row, k: nat)
    requires |pivots| <= |rows| && Shaped(rows, n + 1)
  {
    && |x| == n
    && (forall i :: 0 <= i < k <= |pivots| ==> pivots[i] < n && x[pivots[i]] == rows[i][n])
    && (forall j: nat :: j < n && j !in pivots ==> x[j] == 0)
  }

  lemma {:induction false} ZeroDot(r: Row, x: Row, k: nat)
    requires k <= |r| && k <= |x| && forall j :: 0 <= j < k ==> r[j] == 0
    ensures DotTo(r, x, k) == 0
  {
    if k > 0 {
      ZeroDot(r, x, k - 1);
    }
  }

  /** A consistent reduced system has a solution. */
  lemma ConsistentSolvable(rows: seq<Row>, pivots: seq<nat>, n: nat, m: int) returns (x: Row)
    requires Shaped(rows, n + 1) && Echelon(rows, pivots, n, m) && Consistent(rows, pivots, n)
    ensures |x| == n && Solves(rows, x, m)
  {
    x := seq(n, _ => 0);
    for i := 0 to |pivots|
      invariant Carries(rows, pivots, n, x, i)
    {
      x := x[pivots[i] := rows[i][n]];
    }
    forall i | 0 <= i < |rows| ensures Satisfies(rows[i], x, m) {
      if i < |pivots| {
        OneSpotDot(rows[i], x, pivots[i], n);
      } else {
        ZeroDot(rows[i], x, n);
      }
      CongRefl(rows[i][n], m);
    }
  }

  lemma ReducedGraphRows(matrix: seq<Row>, rows: seq<Row>, n: nat, m: int, a: nat)
    requires m > 0 && |rows| == |matrix|
    requires forall i :: 0 <= i < |matrix| ==> rows[i] == ReduceRow(matrix[i], m)
    ensures AreGraphRows(matrix, a, n, m) ==> AreGraphRows(rows, a, n, m)
  {
    if AreGraphRows(matrix, a, n, m) {
      forall i | 0 <= i < |rows| ensures IsGraphRow(rows[i], a, n, m) {
        ReducedGraphRow(matrix[i], a, n, m);
      }
    }
  }

  lemma ContradictoryRow(rows: seq<Row>, i: nat, n: nat, m: int)
    requires i < |rows| && Shaped(rows, n + 1) && 0 < rows[i][n] < m
    requires forall j :: 0 <= j < n ==> rows[i][j] == 0
    ensures forall x: Row :: |x| == n ==> !Solves(rows, x, m)
  {
    forall x: Row | |x| == n ensures !Solves(rows, x, m) {
      ZeroDot(rows[i], x, n);
      if Satisfies(rows[i], x, m) {
        CongReduced(0, rows[i][n], m);
      }
    }
  }

  /** The closing scan: is there a row with zero coefficients and a nonzero right-hand side? */
  method HasContradiction(rows: seq<Row>, n: nat, m: int) returns (found: bool)
    requires m > 1 && Shaped(rows, n + 1) && forall i :: 0 <= i < |rows| ==> Residues(rows[i], m)
    ensures found ==> forall x: Row :: |x| == n ==> !Solves(rows, x, m)
    ensures !found ==> forall i :: 0 <= i < |rows| && (forall j :: 0 <= j < n ==> rows[i][j] == 0) ==> rows[i][n] == 0
  {
    for i := 0 to |rows|
      invariant forall k :: 0 <= k < i && (forall j :: 0 <= j < n ==> rows[k][j] == 0) ==> rows[k][n] == 0
    {
      if (forall j :: 0 <= j < n ==> rows[i][j] == 0) && rows[i][n] != 0 {
        ContradictoryRow(rows, i, n, m);
        return true;
      }
    }
    return false;
  }

  lemma ReduceSame(a: seq<Row>, b: seq<Row>, n: nat, m: int)
    requires m > 0 && Shaped(a, n + 1) && |b| == |a|
    requires forall i :: 0 <= i < |a| ==> b[i] == ReduceRow(a[i], m)
    ensures SameSolutions(a, b, n, m)
  {
    forall x: Row | |x| == n ensures Solves(a, x, m) <==> Solves(b, x, m) {
      forall i | 0 <= i < |a| ensures Satisfies(a[i], x, m) <==> Satisfies(b[i], x, m) {
        ReduceCombines(a[i], m);
        if Satisfies(a[i], x, m) {
          CombineSatisfied(b[i], 1, a[i], 0, a[i], m, x);
        } else if Satisfies(b[i], x, m) {
          assert forall j :: 0 <= j < |a[i]| ==> 1 * b[i][j] + 0 * b[i][j] == 1 * b[i][j] + 0 * a[i][j];
          CombineSatisfied(a[i], 1, b[i], 0, b[i], m, x);
        }
      }
    }
  }

  lemma ReducedStart(matrix: seq<Row>, rows: seq<Row>, n: nat, m: int)
    requires m > 0 && Shaped(matrix, n + 1) && |rows| == |matrix|
    requires forall i :: 0 <= i < |matrix| ==> rows[i] == ReduceRow(matrix[i], m)
    ensures Eliminating(matrix, rows, [], 0, n, m)
  {
    ReduceSame(matrix, rows, n, m);
  }

  lemma EliminatedSolvable(matrix: seq<Row>, rows: seq<Row>, pivots: seq<nat>, n: nat, m: int)
    requires Eliminating(matrix, rows, pivots, n, n, m) && Consistent(rows, pivots, n)
    ensures exists x: Row :: |x| == n && Solves(matrix, x, m)
  {
    var x := ConsistentSolvable(rows, pivots, n, m);
    assert Solves(matrix, x, m);
  }

  /** What the first column leaves behind: it is the one that decides on matrix[0][0]. */
  ghost predicate Led(matrix: seq<Row>, rows: seq<Row>, pivots: seq<nat>, col: nat, n: nat, m: int)
    requires m > 1 && Shaped(matrix, n + 1)
  {
    |matrix| > 0 ==>
      && (col == 0 ==> pivots == [] && |rows| > 0 && rows[0] == ReduceRow(matrix[0], m))
      && (col > 0 && matrix[0][0] % m != 0 ==> HasInverse(matrix[0][0] % m, m))
  }

  /** rref_mod. The matrix has the n + 1 columns of an augmented system. For the equations of
      a graph, with a entries in its first stream, the inversion error cannot arise. */
  method RrefMod(matrix: seq<Row>, n: nat, m: int, ghost a: nat) returns (r: Result<(seq<Row>, seq<nat>), RrefError>)
    requires Shaped(matrix, n + 1)
    ensures r == Err(BadModulus) <==> m <= 1
    ensures m > 1 && r == Err(NonInvertiblePivot) ==> !IsPrime(m)
    ensures m > 1 && |matrix| > 0 && n > 0 && matrix[0][0] % m != 0 && !HasInverse(matrix[0][0] % m, m)
            ==> r == Err(NonInvertiblePivot)
    ensures m > 1 && AreGraphRows(matrix, a, n, m) ==> r != Err(NonInvertiblePivot)
    ensures r == Err(Contradictory) ==> forall x: Row :: |x| == n ==> !Solves(matrix, x, m)
    ensures r.Ok? ==> var (rows, pivots) := r.value;
              && |rows| == |matrix| && Shaped(rows, n + 1) && Echelon(rows, pivots, n, m)
              && SameSolutions(matrix, rows, n, m) && Consistent(rows, pivots, n)
              && exists x: Row :: |x| == n && Solves(matrix, x, m)
  {
    if m <= 1 {
      return Err(BadModulus);
    }
    var out := new Row[|matrix|](i requires 0 <= i < |matrix| => ReduceRow(matrix[i], m));
    ReducedStart(matrix, out[..], n, m);
    ReducedGraphRows(matrix, out[..], n, m, a);
    var row := 0;
    var pivots: seq<nat> := [];
    var col := 0;
    while col < n
      invariant 0 <= col <= n && row == |pivots|
      invariant Eliminating(matrix, out[..], pivots, col, n, m)
      invariant AreGraphRows(matrix, a, n, m) ==> AreGraphRows(out[..], a, n, m)
      invariant Led(matrix, out[..], pivots, col, n, m)
    {
      if row == out.Length {
        break;
      }
      var step := PivotColumn(matrix, out, row, pivots, col, n, m, a);
      if step.Err? {
        return Err(step.error);
      }
      pivots := step.value;
      row := |pivots|;
      col := col + 1;
    }
    assert Eliminating(matrix, out[..], pivots, n, n, m);
    var contradiction := HasContradiction(out[..], n, m);
    if contradiction {
      return Err(Contradictory);
    }
    EliminatedSolvable(matrix, out[..], pivots, n, m);
    return Ok((out[..], pivots));
  }
}
