/** Augmented linear systems modulo m and the row operations that keep their
    solutions. A row holds the coefficients followed by the right-hand side. */
module LinearSystem {
  import opened ModArith

  type Row = seq<int>

  function DotTo(r: Row, y: Row, k: nat): int
    requires k <= |r| && k <= |y|
  {
    if k == 0 then 0 else DotTo(r, y, k - 1) + r[k - 1] * y[k - 1]
  }

  /** Where at most one product is not zero, it is the sum. */
  lemma {:induction false} OneSpotDot(r: Row, x: Row, p: nat, k: nat)
    requires k <= |r| && k <= |x| && p < |x| && p < |r|
    requires forall j :: 0 <= j < k && j != p ==> r[j] == 0 || x[j] == 0
    ensures DotTo(r, x, k) == if p < k then r[p] * x[p] else 0
  {
    if k > 0 {
      OneSpotDot(r, x, p, k - 1);
    }
  }

  ghost predicate Shaped(rows: seq<Row>, w: nat) {
    forall i :: 0 <= i < |rows| ==> |rows[i]| == w
  }

  ghost predicate Residues(r: Row, m: int) {
    forall j :: 0 <= j < |r| ==> 0 <= r[j] < m
  }

  ghost predicate Satisfies(r: Row, x: Row, m: int) {
    |r| == |x| + 1 && Cong(DotTo(r, x, |x|), r[|x|], m)
  }

  /** x solves every equation of the system. */
  ghost predicate Solves(rows: seq<Row>, x: Row, m: int) {
    forall i :: 0 <= i < |rows| ==> Satisfies(rows[i], x, m)
  }

  ghost predicate SameSolutions(a: seq<Row>, b: seq<Row>, n: nat, m: int) {
    forall x: Row :: |x| == n ==> (Solves(a, x, m) <==> Solves(b, x, m))
  }

  function ScaleRow(r: Row, c: int, m: int): (s: Row)
    requires m > 0
    ensures |s| == |r|
  {
    seq(|r|, j requires 0 <= j < |r| => r[j] * c % m)
  }

  /** r minus f times p. */
  function CancelRow(r: Row, f: int, p: Row, m: int): (s: Row)
    requires m > 0 && |r| == |p|
    ensures |s| == |r|
  {
    seq(|r|, j requires 0 <= j < |r| => (r[j] - f * p[j]) % m)
  }

  function ReduceRow(r: Row, m: int): (s: Row)
    requires m > 0
    ensures |s| == |r|
  {
    seq(|r|, j requires 0 <= j < |r| => r[j] % m)
  }

  /** What a row leaves over at x: zero modulo m iff the equation holds. */
  function Excess(r: Row, x: Row): int
    requires |r| == |x| + 1
  {
    DotTo(r, x, |x|) - r[|x|]
  }

  lemma SatisfiesExcess(r: Row, x: Row, m: int)
    requires |r| == |x| + 1
    ensures Satisfies(r, x, m) <==> Cong(Excess(r, x), 0, m)
  {
    var n := |x|;
    if Satisfies(r, x, m) {
      var k :| DotTo(r, x, n) - r[n] == k * m;
      CongBy(Excess(r, x), 0, m, k);
    } else if Cong(Excess(r, x), 0, m) {
      var k :| Excess(r, x) - 0 == k * m;
      CongBy(DotTo(r, x, n), r[n], m, k);
    }
  }

  /** A row that is, entry by entry, congruent to a*r + b*p. */
  ghost predicate Combines(s: Row, a: int, r: Row, b: int, p: Row, m: int) {
    |s| == |r| == |p| && forall j :: 0 <= j < |s| ==> Cong(s[j], a * r[j] + b * p[j], m)
  }

  lemma Spread(a: int, b: int, r: int, p: int, x: int, dr: int, dp: int)
    ensures a * dr + b * dp + x * (a * r + b * p) == a * (dr + r * x) + b * (dp + p * x)
  {
  }

  lemma {:induction false} CombineDot(s: Row, a: int, r: Row, b: int, p: Row, m: int, x: Row, k: nat)
    requires Combines(s, a, r, b, p, m) && k <= |x| <= |s|
    ensures Cong(DotTo(s, x, k), a * DotTo(r, x, k) + b * DotTo(p, x, k), m)
  {
    if k == 0 {
      CongRefl(0, m);
    } else {
      CombineDot(s, a, r, b, p, m, x, k - 1);
      CongScale(s[k - 1], a * r[k - 1] + b * p[k - 1], x[k - 1], m);
      var t := a * r[k - 1] + b * p[k - 1];
      CongAdd(DotTo(s, x, k - 1), a * DotTo(r, x, k - 1) + b * DotTo(p, x, k - 1),
              x[k - 1] * s[k - 1], x[k - 1] * t, m);
      Spread(a, b, r[k - 1], p[k - 1], x[k - 1], DotTo(r, x, k - 1), DotTo(p, x, k - 1));
    }
  }

  lemma CombineExcess(s: Row, a: int, r: Row, b: int, p: Row, m: int, x: Row)
    requires Combines(s, a, r, b, p, m) && |s| == |x| + 1
    ensures Cong(Excess(s, x), a * Excess(r, x) + b * Excess(p, x), m)
  {
    var n := |x|;
    CombineDot(s, a, r, b, p, m, x, n);
    CongSub(DotTo(s, x, n), a * DotTo(r, x, n) + b * DotTo(p, x, n), s[n], a * r[n] + b * p[n], m);
    assert a * Excess(r, x) == a * DotTo(r, x, n) - a * r[n];
    assert b * Excess(p, x) == b * DotTo(p, x, n) - b * p[n];
  }

  /** Combining satisfied equations gives a satisfied equation. */
  lemma CombineSatisfied(s: Row, a: int, r: Row, b: int, p: Row, m: int, x: Row)
    requires Combines(s, a, r, b, p, m) && |s| == |x| + 1
    requires Satisfies(r, x, m) && Satisfies(p, x, m)
    ensures Satisfies(s, x, m)
  {
    CombineExcess(s, a, r, b, p, m, x);
    SatisfiesExcess(r, x, m);
    SatisfiesExcess(p, x, m);
    SatisfiesExcess(s, x, m);
    CongScale(Excess(r, x), 0, a, m);
    CongScale(Excess(p, x), 0, b, m);
    CongAdd(a * Excess(r, x), a * 0, b * Excess(p, x), b * 0, m);
    CongTrans(Excess(s, x), a * Excess(r, x) + b * Excess(p, x), 0, m);
  }

  lemma ScaleCombines(r: Row, c: int, m: int)
    requires m > 0
    ensures Combines(ScaleRow(r, c, m), c, r, 0, r, m)
  {
    forall j | 0 <= j < |r| ensures Cong(ScaleRow(r, c, m)[j], c * r[j] + 0 * r[j], m) {
      CongMod(r[j] * c, m);
    }
  }

  /** Multiplying back by the inverse recovers the row up to congruence. */
  lemma UnscaleCombines(r: Row, c: int, d: int, m: int)
    requires m > 0 && Cong(c * d, 1, m)
    ensures Combines(r, c, ScaleRow(r, d, m), 0, r, m)
  {
    var s := ScaleRow(r, d, m);
    forall j | 0 <= j < |r| ensures Cong(r[j], c * s[j] + 0 * r[j], m) {
      CongMod(r[j] * d, m);
      CongScale(s[j], r[j] * d, c, m);
      CongScale(c * d, 1, r[j], m);
      assert c * (r[j] * d) == r[j] * (c * d);
      CongTrans(c * s[j], c * (r[j] * d), r[j], m);
      CongSym(c * s[j], r[j], m);
    }
  }

  lemma CancelCombines(r: Row, f: int, p: Row, m: int)
    requires m > 0 && |r| == |p|
    ensures Combines(CancelRow(r, f, p, m), 1, r, -f, p, m)
    ensures Combines(r, 1, CancelRow(r, f, p, m), f, p, m)
  {
    var s := CancelRow(r, f, p, m);
    forall j | 0 <= j < |r|
      ensures Cong(s[j], 1 * r[j] + -f * p[j], m) && Cong(r[j], 1 * s[j] + f * p[j], m)
    {
      var t := r[j] - f * p[j];
      CongMod(t, m);
      assert -f * p[j] == -(f * p[j]);
      CongRefl(f * p[j], m);
      CongAdd(t, s[j], f * p[j], f * p[j], m);
    }
  }

  lemma ReduceCombines(r: Row, m: int)
    requires m > 0
    ensures Combines(ReduceRow(r, m), 1, r, 0, r, m)
    ensures Combines(r, 1, ReduceRow(r, m), 0, r, m)
  {
    forall j | 0 <= j < |r|
      ensures Cong(r[j] % m, 1 * r[j] + 0 * r[j], m) && Cong(r[j], 1 * (r[j] % m) + 0 * r[j], m)
    {
      CongMod(r[j], m);
    }
  }

  /** b differs from a only in row i, and each version of row i is a combination
      of rows of the other system. */
  lemma ReplaceRow(a: seq<Row>, b: seq<Row>, i: nat, n: nat, m: int,
                   c: int, e: int, c': int, e': int, p: nat)
    requires Shaped(a, n + 1) && i < |a| && p < |a| && |b| == |a|
    requires b == a[i := b[i]]
    requires p == i ==> e == e' == 0
    requires Combines(b[i], c, a[i], e, a[p], m)
    requires Combines(a[i], c', b[i], e', a[p], m)
    ensures Shaped(b, n + 1) && SameSolutions(a, b, n, m)
  {
    forall x: Row | |x| == n ensures Solves(a, x, m) <==> Solves(b, x, m) {
      if Solves(a, x, m) {
        CombineSatisfied(b[i], c, a[i], e, a[p], m, x);
      } else if Solves(b, x, m) {
        assert Satisfies(b[i], x, m);
        if p == i {
          CombineSatisfied(a[i], c', b[i], 0, b[i], m, x) by {
            assert forall j :: 0 <= j < |b[i]| ==> c' * b[i][j] + 0 * b[i][j] == c' * b[i][j] + e' * a[p][j];
          }
        } else {
          assert Satisfies(b[p], x, m);
          CombineSatisfied(a[i], c', b[i], e', a[p], m, x);
        }
        forall k | 0 <= k < |a| ensures Satisfies(a[k], x, m) {
          assert Satisfies(b[k], x, m);
        }
      }
    }
  }

  lemma SwapRows(a: seq<Row>, i: nat, j: nat, n: nat, m: int)
    requires i < |a| && j < |a|
    ensures SameSolutions(a, a[i := a[j]][j := a[i]], n, m)
  {
    var b := a[i := a[j]][j := a[i]];
    forall x: Row | |x| == n ensures Solves(a, x, m) <==> Solves(b, x, m) {
      assert forall k :: 0 <= k < |a| ==> a[k] == b[if k == i then j else if k == j then i else k];
    }
  }

  lemma SameTrans(a: seq<Row>, b: seq<Row>, c: seq<Row>, n: nat, m: int)
    requires SameSolutions(a, b, n, m) && SameSolutions(b, c, n, m)
    ensures SameSolutions(a, c, n, m)
  {
  }
}
