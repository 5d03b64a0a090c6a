/** The solutions of a reduced system, parametrised by its free columns. */
module AffineSpace {
  import opened ModArith
  import opened LinearSystem
  import opened Rref

  ghost predicate Within(columns: seq<nat>, n: nat) {
    forall t :: 0 <= t < |columns| ==> columns[t] < n
  }

  /** Columns before k that are not pivots, ascending. */
  function FreeTo(pivots: seq<nat>, k: nat): (free: seq<nat>)
    ensures Within(free, k)
  {
    if k == 0 then []
    else if k - 1 in pivots then FreeTo(pivots, k - 1)
    else FreeTo(pivots, k - 1) + [k - 1]
  }

  lemma {:induction false} FreeColumns(pivots: seq<nat>, k: nat)
    ensures forall f: nat :: f in FreeTo(pivots, k) <==> f < k && f !in pivots
    ensures forall s, t :: 0 <= s < t < |FreeTo(pivots, k)| ==> FreeTo(pivots, k)[s] < FreeTo(pivots, k)[t]
  {
    if k > 0 {
      FreeColumns(pivots, k - 1);
    }
  }

  lemma LastPivot(pivots: seq<nat>, k: nat, c: nat)
    requires forall i, j :: 0 <= i < j < |pivots| ==> pivots[i] < pivots[j]
    requires c <= |pivots| && (forall i :: 0 <= i < c ==> pivots[i] < k) &&
              (forall i :: c <= i < |pivots| ==> pivots[i] >= k)
    requires k > 0 && k - 1 in pivots
    ensures c > 0 && pivots[c - 1] == k - 1 && forall i :: 0 <= i < c - 1 ==> pivots[i] < k - 1
  {
    var i :| 0 <= i < |pivots| && pivots[i] == k - 1;
    assert i < c;
    assert pivots[c - 1] < k;
  }

  /** Pivot and free columns together are all the columns. */
  lemma {:induction false} FreeCount(pivots: seq<nat>, k: nat, c: nat)
    requires forall i, j :: 0 <= i < j < |pivots| ==> pivots[i] < pivots[j]
    requires c <= |pivots| && (forall i :: 0 <= i < c ==> pivots[i] < k) &&
              (forall i :: c <= i < |pivots| ==> pivots[i] >= k)
    ensures |FreeTo(pivots, k)| == k - c
  {
    if k == 0 {
    } else if k - 1 in pivots {
      LastPivot(pivots, k, c);
      FreeCount(pivots, k - 1, c - 1);
    } else {
      FreeCount(pivots, k - 1, c);
    }
  }

  /** The entries of x at the free columns: the variables that produce x. */
  function Restrict(x: Row, free: seq<nat>): (v: Row)
    requires Within(free, |x|)
    ensures |v| == |free| && forall t :: 0 <= t < |v| ==> v[t] == x[free[t]]
  {
    seq(|free|, t requires 0 <= t < |free| => x[free[t]])
  }

  function FreeDot(r: Row, free: seq<nat>, v: Row, t: nat): int
    requires t <= |free| && t <= |v| && Within(free, |r|)
  {
    if t == 0 then 0 else FreeDot(r, free, v, t - 1) + r[free[t - 1]] * v[t - 1]
  }

  lemma {:induction false} FreeDotPrefix(r: Row, free: seq<nat>, more: seq<nat>, v: Row, w: Row, t: nat)
    requires t <= |free| <= |more| && t <= |v| && t <= |w| && more[..|free|] == free && v[..t] == w[..t]
    requires Within(more, |r|) && Within(free, |r|)
    ensures FreeDot(r, free, v, t) == FreeDot(r, more, w, t)
  {
    if t > 0 {
      assert v[..t - 1] == w[..t - 1] by { assert v[..t][..t - 1] == w[..t][..t - 1]; }
      assert v[t - 1] == v[..t][t - 1] == w[t - 1];
      assert free[t - 1] == more[..|free|][t - 1];
      FreeDotPrefix(r, free, more, v, w, t - 1);
    }
  }

  lemma FreeDotGrows(r: Row, x: Row, less: seq<nat>, f: nat)
    requires Within(less, |x|) && f < |x| <= |r|
    ensures FreeDot(r, less + [f], Restrict(x, less + [f]), |less| + 1) ==
              FreeDot(r, less, Restrict(x, less), |less|) + r[f] * x[f]
  {
    var free := less + [f];
    assert Restrict(x, less)[..|less|] == Restrict(x, free)[..|less|];
    FreeDotPrefix(r, less, free, Restrict(x, less), Restrict(x, free), |less|);
  }

  /** What the first k columns of a reduced row add up to. */
  predicate Splits(r: Row, pivots: seq<nat>, p: nat, x: Row, k: nat)
    requires k <= |x| <= |r|
  {
    var free := FreeTo(pivots, k);
    DotTo(r, x, k) == (if p < k then x[p] else 0) + FreeDot(r, free, Restrict(x, free), |free|)
  }

  lemma SplitAtPivot(r: Row, pivots: seq<nat>, p: nat, x: Row, k: nat)
    requires k < |x| <= |r| && Splits(r, pivots, p, x, k)
    requires k in pivots && r[k] == if k == p then 1 else 0
    ensures Splits(r, pivots, p, x, k + 1)
  {
    assert FreeTo(pivots, k + 1) == FreeTo(pivots, k);
  }

  lemma SplitAtFree(r: Row, pivots: seq<nat>, p: nat, x: Row, k: nat)
    requires k < |x| <= |r| && Splits(r, pivots, p, x, k) && k !in pivots && k != p
    ensures Splits(r, pivots, p, x, k + 1)
  {
    assert FreeTo(pivots, k + 1) == FreeTo(pivots, k) + [k];
    FreeDotGrows(r, x, FreeTo(pivots, k), k);
  }

  /** In a reduced row only the row's own pivot p and the free columns count. */
  lemma {:induction false} RowSplit(r: Row, pivots: seq<nat>, p: nat, x: Row, k: nat)
    requires k <= |x| <= |r| && Within(pivots, |r|) && p in pivots
    requires forall q: nat :: q in pivots ==> r[q] == if q == p then 1 else 0
    ensures Splits(r, pivots, p, x, k)
  {
    if k == 0 {
      assert FreeTo(pivots, 0) == [];
    } else {
      RowSplit(r, pivots, p, x, k - 1);
      if k - 1 in pivots {
        SplitAtPivot(r, pivots, p, x, k - 1);
      } else {
        SplitAtFree(r, pivots, p, x, k - 1);
      }
    }
  }

  /** x solves the reduced system iff each pivot entry is what its row demands. */
  lemma SolvesByPivots(rows: seq<Row>, pivots: seq<nat>, x: Row, n: nat, m: int)
    requires Shaped(rows, n + 1) && Echelon(rows, pivots, n, m) && Consistent(rows, pivots, n) && |x| == n
    ensures var free := FreeTo(pivots, n);
            Solves(rows, x, m) <==>
            forall i :: 0 <= i < |pivots| ==>
              Cong(x[pivots[i]] + FreeDot(rows[i], free, Restrict(x, free), |free|), rows[i][n], m)
  {
    var free := FreeTo(pivots, n);
    forall i | 0 <= i < |rows|
      ensures i < |pivots| ==> DotTo(rows[i], x, n) == x[pivots[i]] + FreeDot(rows[i], free, Restrict(x, free), |free|)
      ensures i >= |pivots| ==> Satisfies(rows[i], x, m)
    {
      if i < |pivots| {
        forall q: nat | q in pivots ensures rows[i][q] == if q == pivots[i] then 1 else 0 {
          var l :| 0 <= l < |pivots| && pivots[l] == q;
          if l != i {
            assert pivots[i] != q;
          }
        }
        RowSplit(rows[i], pivots, pivots[i], x, n);
      } else {
        ZeroDot(rows[i], x, n);
        CongRefl(0, m);
      }
    }
    if Solves(rows, x, m) {
      forall i | 0 <= i < |pivots|
        ensures Cong(x[pivots[i]] + FreeDot(rows[i], free, Restrict(x, free), |free|), rows[i][n], m)
      {
        assert Satisfies(rows[i], x, m);
      }
    }
  }

  /** What crib_space writes into `particular` and `basis`. */
  ghost predicate Parametrises(rows: seq<Row>, pivots: seq<nat>, n: nat, m: int, particular: Row, basis: seq<Row>) {
    var free := FreeTo(pivots, n);
    && m > 0 && |particular| == |basis| == n && |pivots| <= |rows|
    && Shaped(rows, n + 1) && Shaped(basis, |free|)
    && (forall t :: 0 <= t < |free| ==> particular[free[t]] == 0)
    && (forall t, s :: 0 <= t < |free| && 0 <= s < |free| ==> basis[free[t]][s] == if s == t then 1 % m else 0)
    && (forall i :: 0 <= i < |pivots| ==> pivots[i] < n && particular[pivots[i]] == rows[i][n] % m)
    && (forall i, s :: 0 <= i < |pivots| && 0 <= s < |free| ==> basis[pivots[i]][s] == -rows[i][free[s]] % m)
  }

  /** (particular + v @ basis.T)[j], before any cast. */
  function Affine(particular: Row, basis: seq<Row>, v: Row, m: int, j: nat): (c: int)
    requires m > 0 && j < |particular| == |basis| && |basis[j]| == |v|
    ensures 0 <= c < m
  {
    (particular[j] + DotTo(v, basis[j], |v|)) % m
  }

  lemma {:induction false} NegatedDot(v: Row, b: Row, r: Row, free: seq<nat>, m: int, k: nat)
    requires m > 0 && k <= |v| == |b| == |free| && Within(free, |r|)
    requires forall s :: 0 <= s < |b| ==> b[s] == -r[free[s]] % m
    ensures Cong(DotTo(v, b, k), -FreeDot(r, free, v, k), m)
  {
    if k == 0 {
      CongRefl(0, m);
    } else {
      NegatedDot(v, b, r, free, m, k - 1);
      var c := r[free[k - 1]];
      CongMod(-c, m);
      CongScale(b[k - 1], -c, v[k - 1], m);
      assert v[k - 1] * -c == -(c * v[k - 1]);
      CongAdd(DotTo(v, b, k - 1), -FreeDot(r, free, v, k - 1), v[k - 1] * b[k - 1], -(c * v[k - 1]), m);
    }
  }

  lemma AffineAtFree(rows: seq<Row>, pivots: seq<nat>, n: nat, m: int, particular: Row, basis: seq<Row>, v: Row, t: nat)
    requires m > 1 && Parametrises(rows, pivots, n, m, particular, basis)
    requires t < |FreeTo(pivots, n)| == |v| && Residues(v, m)
    ensures Affine(particular, basis, v, m, FreeTo(pivots, n)[t]) == v[t]
  {
    ModOfReduced(1, m);
    OneSpotDot(v, basis[FreeTo(pivots, n)[t]], t, |v|);
    ModOfReduced(v[t], m);
  }

  lemma AffineAtPivot(rows: seq<Row>, pivots: seq<nat>, n: nat, m: int, particular: Row, basis: seq<Row>, v: Row,
                      i: nat)
    requires Parametrises(rows, pivots, n, m, particular, basis)
    requires i < |pivots| && |FreeTo(pivots, n)| == |v|
    ensures Cong(Affine(particular, basis, v, m, pivots[i]) +
              FreeDot(rows[i], FreeTo(pivots, n), v, |v|), rows[i][n], m)
  {
    var free, p := FreeTo(pivots, n), pivots[i];
    var c, d, f := rows[i][n], DotTo(v, basis[p], |v|), FreeDot(rows[i], free, v, |v|);
    NegatedDot(v, basis[p], rows[i], free, m, |v|);
    CongMod(c, m);
    CongAdd(particular[p], c, d, -f, m);
    CongMod(particular[p] + d, m);
    CongTrans(Affine(particular, basis, v, m, p), particular[p] + d, c - f, m);
    CongRefl(f, m);
    CongAdd(Affine(particular, basis, v, m, p), c - f, f, f, m);
  }

  function AffinePoint(particular: Row, basis: seq<Row>, v: Row, m: int): (x: Row)
    requires m > 0 && |particular| == |basis| && Shaped(basis, |v|)
    ensures |x| == |particular| && Residues(x, m)
    ensures forall j :: 0 <= j < |x| ==> x[j] == Affine(particular, basis, v, m, j)
  {
    seq(|particular|, j requires 0 <= j < |particular| => Affine(particular, basis, v, m, j))
  }

  /** Every choice of variables gives a solution that carries those variables. */
  lemma AffineSound(rows: seq<Row>, pivots: seq<nat>, n: nat, m: int, particular: Row, basis: seq<Row>, v: Row)
    requires m > 1 && Shaped(rows, n + 1) && Echelon(rows, pivots, n, m) && Consistent(rows, pivots, n)
    requires Parametrises(rows, pivots, n, m, particular, basis)
    requires |v| == |FreeTo(pivots, n)| && Residues(v, m)
    ensures var x := AffinePoint(particular, basis, v, m);
            Solves(rows, x, m) && Restrict(x, FreeTo(pivots, n)) == v
  {
    var free := FreeTo(pivots, n);
    var x := AffinePoint(particular, basis, v, m);
    forall t | 0 <= t < |free| ensures x[free[t]] == v[t] {
      AffineAtFree(rows, pivots, n, m, particular, basis, v, t);
    }
    assert Restrict(x, free) == v;
    forall i | 0 <= i < |pivots| ensures Cong(x[pivots[i]] + FreeDot(rows[i], free, v, |v|), rows[i][n], m) {
      AffineAtPivot(rows, pivots, n, m, particular, basis, v, i);
    }
    SolvesByPivots(rows, pivots, x, n, m);
  }

  lemma SameEntry(x: int, y: int, f: int, target: int, m: int)
    requires m > 0 && 0 <= x < m && 0 <= y < m && Cong(x + f, target, m) && Cong(y + f, target, m)
    ensures x == y
  {
    CongSym(x + f, target, m);
    CongTrans(y + f, target, x + f, m);
    CongRefl(f, m);
    CongSub(y + f, x + f, f, f, m);
    CongReduced(y, x, m);
  }

  lemma EntryComplete(rows: seq<Row>, pivots: seq<nat>, n: nat, m: int, particular: Row, basis: seq<Row>, x: Row,
                      i: nat)
    requires m > 1 && Shaped(rows, n + 1) && Echelon(rows, pivots, n, m) && Consistent(rows, pivots, n)
    requires Parametrises(rows, pivots, n, m, particular, basis)
    requires |x| == n && Residues(x, m) && Solves(rows, x, m) && i < |pivots|
    ensures AffinePoint(particular, basis, Restrict(x, FreeTo(pivots, n)), m)[pivots[i]] == x[pivots[i]]
  {
    var free, j := FreeTo(pivots, n), pivots[i];
    var v := Restrict(x, free);
    SolvesByPivots(rows, pivots, x, n, m);
    AffineAtPivot(rows, pivots, n, m, particular, basis, v, i);
    SameEntry(x[j], Affine(particular, basis, v, m, j), FreeDot(rows[i], free, v, |v|), rows[i][n], m);
  }

  /** Every reduced solution is the point of its own free entries. */
  lemma AffineComplete(rows: seq<Row>, pivots: seq<nat>, n: nat, m: int, particular: Row, basis: seq<Row>, x: Row)
    requires m > 1 && Shaped(rows, n + 1) && Echelon(rows, pivots, n, m) && Consistent(rows, pivots, n)
    requires Parametrises(rows, pivots, n, m, particular, basis)
    requires |x| == n && Residues(x, m) && Solves(rows, x, m)
    ensures AffinePoint(particular, basis, Restrict(x, FreeTo(pivots, n)), m) == x
  {
    var free := FreeTo(pivots, n);
    FreeColumns(pivots, n);
    var y := AffinePoint(particular, basis, Restrict(x, free), m);
    forall j | 0 <= j < n ensures y[j] == x[j] {
      if j in pivots {
        var i :| 0 <= i < |pivots| && pivots[i] == j;
        EntryComplete(rows, pivots, n, m, particular, basis, x, i);
      } else {
        assert j in free;
        var t :| 0 <= t < |free| && free[t] == j;
        AffineAtFree(rows, pivots, n, m, particular, basis, Restrict(x, free), t);
      }
    }
  }
}
