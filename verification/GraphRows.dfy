/** Rows that the equations of a graph reduce to. A row that joins an entry of the first
    stream to an entry of the second reads +1 at both; with the sign of the second stream
    turned it is the difference of two unit vectors, one of which may be missing. Elimination
    keeps that shape, and so every pivot is 1 or -1 and has an inverse modulo anything. */
module GraphRows {
  import opened ModArith
  import opened LinearSystem

  /** Coefficient k of the edge from p to q, where the first stream has the entries below a. */
  function Coefficient(a: nat, p: nat, q: nat, k: nat): (c: int)
    ensures -1 <= c <= 1
  {
    var c := (if k == p then 1 else 0) - (if k == q then 1 else 0);
    if k < a then c else -c
  }

  /** Modulo m the first n coefficients of the row are those of the edge. */
  ghost predicate IsEdge(r: Row, a: nat, p: nat, q: nat, n: nat, m: int) {
    |r| == n + 1 && forall k :: 0 <= k < n ==> Cong(r[k], Coefficient(a, p, q, k), m)
  }

  ghost predicate IsGraphRow(r: Row, a: nat, n: nat, m: int) {
    exists p: nat, q: nat :: IsEdge(r, a, p, q, n, m)
  }

  ghost predicate AreGraphRows(rows: seq<Row>, a: nat, n: nat, m: int) {
    forall i :: 0 <= i < |rows| ==> IsGraphRow(rows[i], a, n, m)
  }

  lemma CoefficientTurned(a: nat, p: nat, q: nat, k: nat)
    ensures Coefficient(a, q, p, k) == -Coefficient(a, p, q, k)
  {
  }

  lemma NotCong(c: int, d: int, m: int)
    requires m > 1 && Cong(c, d, m) && -1 <= c - d <= 1
    ensures c == d
  {
    var k :| c - d == k * m;
    SmallMultiple(k, m);
  }

  lemma CongNegated(x: int, y: int, m: int)
    requires Cong(x, y, m)
    ensures Cong(-x, -y, m)
  {
    CongRefl(0, m);
    CongSub(0, 0, x, y, m);
  }

  /** A nonzero coefficient of such a row is 1 or -1. */
  lemma NonzeroIsUnit(r: Row, a: nat, p: nat, q: nat, n: nat, m: int, col: nat)
    requires m > 1 && col < n && IsEdge(r, a, p, q, n, m) && 0 < r[col] < m
    ensures Coefficient(a, p, q, col) in {1, -1}
  {
    if Coefficient(a, p, q, col) == 0 {
      CongReduced(r[col], 0, m);
    }
  }

  lemma UnitSquared(c: int, t: int, m: int)
    requires Cong(c, t, m) && t in {1, -1}
    ensures Cong(c * t, 1, m)
  {
    CongScale(c, t, t, m);
    assert t * c == c * t && t * t == 1;
  }

  /** So it has an inverse, whatever the modulus. */
  lemma UnitHasInverse(r: Row, a: nat, n: nat, m: int, col: nat)
    requires m > 1 && col < n && IsGraphRow(r, a, n, m) && 0 < r[col] < m
    ensures HasInverse(r[col], m)
  {
    var p: nat, q: nat :| IsEdge(r, a, p, q, n, m);
    var t := Coefficient(a, p, q, col);
    NonzeroIsUnit(r, a, p, q, n, m, col);
    UnitSquared(r[col], t, m);
    InverseFrom(r[col], t, m);
  }

  /** An inverse of a unit is that unit. */
  lemma InverseOfUnit(c: int, t: int, y: int, m: int)
    requires m > 1 && Cong(c, t, m) && t in {1, -1} && IsInverse(c, y, m)
    ensures Cong(y, t, m)
  {
    ModOfReduced(1, m);
    CongIsMod(c * y, 1, m);
    CongScale(c, t, y, m);
    CongSym(y * c, y * t, m);
    assert y * c == c * y;
    CongTrans(y * t, c * y, 1, m);
    if t == -1 {
      assert y * t == -y;
      CongNegated(y * t, 1, m);
    } else {
      assert y * t == y;
    }
  }

  lemma ScaledEntry(x: int, c: int, y: int, t: int, m: int)
    requires m > 0 && Cong(x, c, m) && Cong(y, t, m)
    ensures Cong(x * y % m, t * c, m)
  {
    CongScale(x, c, y, m);
    CongScale(y, t, c, m);
    assert y * x == x * y && y * c == c * y && c * t == t * c;
    CongTrans(x * y, c * y, t * c, m);
    CongMod(x * y, m);
    CongTrans(x * y % m, x * y, t * c, m);
  }

  /** Scaling by the inverse of a coefficient gives the edge or the edge turned around. */
  lemma ScaledGraphRow(r: Row, a: nat, n: nat, m: int, col: nat, y: int)
    requires m > 1 && col < n && IsGraphRow(r, a, n, m) && 0 < r[col] < m && IsInverse(r[col], y, m)
    ensures IsGraphRow(ScaleRow(r, y, m), a, n, m)
  {
    var p: nat, q: nat :| IsEdge(r, a, p, q, n, m);
    var t, s := Coefficient(a, p, q, col), ScaleRow(r, y, m);
    NonzeroIsUnit(r, a, p, q, n, m, col);
    InverseOfUnit(r[col], t, y, m);
    forall k | 0 <= k < n ensures Cong(s[k], t * Coefficient(a, p, q, k), m) {
      ScaledEntry(r[k], Coefficient(a, p, q, k), y, t, m);
    }
    if t == 1 {
      assert IsEdge(s, a, p, q, n, m);
    } else {
      forall k | 0 <= k < n ensures Cong(s[k], Coefficient(a, q, p, k), m) {
        CoefficientTurned(a, p, q, k);
      }
      assert IsEdge(s, a, q, p, n, m);
    }
  }

  lemma ModulusTwo(m: int)
    requires m > 1 && Cong(1, -1, m)
    ensures m == 2
  {
    var k :| 1 - (-1) == k * m;
    if m > 2 {
      SmallMultiple(k, m);
    }
  }

  /** The edge can be chosen so that a coefficient 1 is 1 outright: -1 is congruent to 1
      only modulo 2, where edges have no direction. */
  lemma Oriented(r: Row, a: nat, n: nat, m: int, col: nat) returns (p: nat, q: nat)
    requires m > 1 && col < n && IsGraphRow(r, a, n, m) && r[col] == 1
    ensures IsEdge(r, a, p, q, n, m) && Coefficient(a, p, q, col) == 1
  {
    p, q :| IsEdge(r, a, p, q, n, m);
    NonzeroIsUnit(r, a, p, q, n, m, col);
    if Coefficient(a, p, q, col) == -1 {
      ModulusTwo(m);
      forall k | 0 <= k < n ensures Cong(r[k], Coefficient(a, q, p, k), m) {
        CoefficientTurned(a, p, q, k);
        CongBy(Coefficient(a, p, q, k), -Coefficient(a, p, q, k), 2, Coefficient(a, p, q, k));
        CongTrans(r[k], Coefficient(a, p, q, k), -Coefficient(a, p, q, k), m);
      }
      CoefficientTurned(a, p, q, col);
      p, q := q, p;
    }
  }

  /** Two edges that share col: taking the oriented one off, or adding it, leaves the edge
      between their other ends. */
  function JoinedEnds(a: nat, p: nat, q: nat, p': nat, q': nat, col: nat): (nat, nat) {
    if col < a then (if p' == col then (q, q') else (p', q))
    else if q' == col then (p', p) else (p, q')
  }

  lemma JoinedCoefficient(a: nat, p: nat, q: nat, p': nat, q': nat, col: nat, k: nat)
    requires Coefficient(a, p, q, col) == 1 && Coefficient(a, p', q', col) in {1, -1}
    ensures var (u, v) := JoinedEnds(a, p, q, p', q', col);
            Coefficient(a, u, v, k)
            == Coefficient(a, p', q', k) - Coefficient(a, p', q', col) * Coefficient(a, p, q, k)
  {
  }

  lemma CancelledEntry(x: int, c: int, f: int, t: int, y: int, d: int, m: int)
    requires m > 0 && Cong(x, c, m) && Cong(f, t, m) && Cong(y, d, m)
    ensures Cong((x - f * y) % m, c - t * d, m)
  {
    CongScale(y, d, f, m);
    CongScale(f, t, d, m);
    assert d * f == f * d && d * t == t * d;
    CongTrans(f * y, f * d, t * d, m);
    CongSub(x, c, f * y, t * d, m);
    CongMod(x - f * y, m);
    CongTrans((x - f * y) % m, x - f * y, c - t * d, m);
  }

  /** Clearing a nonzero coefficient with the pivot's row keeps the shape. */
  lemma CancelledGraphRow(r: Row, pivot: Row, a: nat, n: nat, m: int, col: nat)
    requires m > 1 && col < n && IsGraphRow(r, a, n, m) && IsGraphRow(pivot, a, n, m)
    requires pivot[col] == 1 && 0 < r[col] < m
    ensures IsGraphRow(CancelRow(r, r[col], pivot, m), a, n, m)
  {
    var p, q := Oriented(pivot, a, n, m, col);
    var p': nat, q': nat :| IsEdge(r, a, p', q', n, m);
    NonzeroIsUnit(r, a, p', q', n, m, col);
    var s := CancelRow(r, r[col], pivot, m);
    var (u, v) := JoinedEnds(a, p, q, p', q', col);
    forall k | 0 <= k < n ensures Cong(s[k], Coefficient(a, u, v, k), m) {
      JoinedCoefficient(a, p, q, p', q', col, k);
      CancelledEntry(r[k], Coefficient(a, p', q', k), r[col], Coefficient(a, p', q', col),
                     pivot[k], Coefficient(a, p, q, k), m);
    }
    assert IsEdge(s, a, u, v, n, m);
  }

  lemma ReducedGraphRow(r: Row, a: nat, n: nat, m: int)
    requires m > 0 && IsGraphRow(r, a, n, m)
    ensures IsGraphRow(ReduceRow(r, m), a, n, m)
  {
    var p: nat, q: nat :| IsEdge(r, a, p, q, n, m);
    forall k | 0 <= k < n ensures Cong(r[k] % m, Coefficient(a, p, q, k), m) {
      CongMod(r[k], m);
      CongTrans(r[k] % m, r[k], Coefficient(a, p, q, k), m);
    }
    assert IsEdge(ReduceRow(r, m), a, p, q, n, m);
  }
}
