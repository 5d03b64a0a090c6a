/** Cardinalities: vectors over a finite alphabet, injections and fibres. */
module Counting {
  import opened LinearSystem

  function Pow(m: nat, k: nat): nat {
    if k == 0 then 1 else m * Pow(m, k - 1)
  }

  lemma MulAssoc(a: nat, b: nat, c: nat)
    ensures a * (b * c) == (a * b) * c
  {
  }

  lemma {:induction false} PowAdd(m: nat, i: nat, j: nat)
    ensures Pow(m, i + j) == Pow(m, i) * Pow(m, j)
  {
    if i > 0 {
      PowAdd(m, i - 1, j);
      MulAssoc(m, Pow(m, i - 1), Pow(m, j));
    }
  }

  lemma MulGrows(m: nat, x: nat)
    requires m > 1 && x > 0
    ensures x < m * x
  {
    assert m * x == x + (m - 1) * x;
  }

  lemma {:induction false} PowGrows(m: nat, i: nat, j: nat)
    requires m > 1 && i < j
    ensures 0 < Pow(m, i) < Pow(m, j)
    decreases j
  {
    if i + 1 < j {
      PowGrows(m, i, j - 1);
    } else if i > 0 {
      PowGrows(m, i - 1, i);
    }
    MulGrows(m, Pow(m, j - 1));
  }

  lemma PowOrder(m: nat, i: nat, j: nat)
    requires m > 1 && Pow(m, i) <= Pow(m, j)
    ensures i <= j
  {
    if j < i {
      PowGrows(m, j, i);
    }
  }

  lemma {:induction false} InjectionCard<T(!new), U(!new)>(a: set<T>, b: set<U>, f: T -> U)
    requires forall x :: x in a ==> f(x) in b
    requires forall x, y :: x in a && y in a && f(x) == f(y) ==> x == y
    ensures |a| <= |b|
    decreases |a|
  {
    if a != {} {
      var x :| x in a;
      InjectionCard(a - {x}, b - {f(x)}, f);
    }
  }

  ghost function Fibre<T(!new)>(s: set<T>, f: T -> int, c: int): set<T> {
    set x | x in s && f(x) == c
  }

  /** Taking one fibre away leaves the others as they are. */
  lemma RestFibre<T(!new)>(s: set<T>, f: T -> int, top: int, c: int)
    requires c != top
    ensures Fibre(s - Fibre(s, f, top), f, c) == Fibre(s, f, c)
  {
  }

  lemma OneMore(c: nat, k: nat)
    requires c > 0
    ensures (c - 1) * k + k == c * k
  {
  }

  /** If every fibre of f has at most k elements, s has at most m * k. */
  lemma {:induction false} FibresCard<T(!new)>(s: set<T>, f: T -> int, m: nat, k: nat)
    requires forall x :: x in s ==> 0 <= f(x) < m
    requires forall c :: 0 <= c < m ==> |Fibre(s, f, c)| <= k
    ensures |s| <= m * k
    decreases m
  {
    if m == 0 {
      assert s == {} by { forall x | x in s ensures false {} }
    } else {
      var top := Fibre(s, f, m - 1);
      var rest := s - top;
      forall c | 0 <= c < m - 1 ensures |Fibre(rest, f, c)| <= k {
        RestFibre(s, f, m - 1, c);
      }
      FibresCard(rest, f, m - 1, k);
      OneMore(m, k);
      assert |s| == |top| + |rest| by { assert s == top + rest; }
    }
  }

  ghost function Appended(s: set<Row>, c: int): set<Row> {
    set v | v in s :: v + [c]
  }

  /** s with each of the symbols below c appended. */
  ghost function Extended(s: set<Row>, c: nat): set<Row> {
    if c == 0 then {} else Extended(s, c - 1) + Appended(s, c - 1)
  }

  /** All vectors of n residues modulo m. */
  ghost function Vectors(n: nat, m: nat): set<Row> {
    if n == 0 then {[]} else Extended(Vectors(n - 1, m), m)
  }

  lemma AppendedAre(s: set<Row>, c: int, w: Row)
    ensures w in Appended(s, c) <==> |w| > 0 && w[..|w| - 1] in s && w[|w| - 1] == c
  {
    if |w| > 0 {
      assert w == w[..|w| - 1] + [w[|w| - 1]];
    }
    if w in Appended(s, c) {
      var v :| v in s && w == v + [c];
      assert w[..|w| - 1] == v;
    }
  }

  lemma {:induction false} ExtendedAre(s: set<Row>, c: nat, w: Row)
    ensures w in Extended(s, c) <==> |w| > 0 && w[..|w| - 1] in s && 0 <= w[|w| - 1] < c
  {
    if c > 0 {
      ExtendedAre(s, c - 1, w);
      AppendedAre(s, c - 1, w);
    }
  }

  lemma {:induction false} VectorsAre(n: nat, m: nat, v: Row)
    ensures v in Vectors(n, m) <==> |v| == n && Residues(v, m)
  {
    if n > 0 {
      ExtendedAre(Vectors(n - 1, m), m, v);
      if |v| > 0 {
        VectorsAre(n - 1, m, v[..|v| - 1]);
        assert v == v[..|v| - 1] + [v[|v| - 1]];
      }
    }
  }

  lemma AppendedCard(s: set<Row>, c: int)
    ensures |Appended(s, c)| == |s|
  {
    var t := Appended(s, c);
    forall x, y | x in s && y in s && x + [c] == y + [c] ensures x == y {
      assert x == (x + [c])[..|x|] && y == (y + [c])[..|y|];
    }
    InjectionCard(s, t, (v: Row) => v + [c]);
    var drop := (v: Row) => if |v| == 0 then v else v[..|v| - 1];
    forall w | w in t ensures drop(w) in s && w == drop(w) + [c] {
      AppendedAre(s, c, w);
    }
    InjectionCard(t, s, drop);
  }

  lemma DisjointCard<T>(a: set<T>, b: set<T>)
    requires forall x :: x in a ==> x !in b
    ensures |a + b| == |a| + |b|
  {
  }

  lemma ExtendedMore(s: set<Row>, c: nat)
    requires c > 0
    ensures |Extended(s, c)| == |Extended(s, c - 1)| + |s|
  {
    AppendedCard(s, c - 1);
    var less, last := Extended(s, c - 1), Appended(s, c - 1);
    forall w | w in less ensures w !in last {
      ExtendedAre(s, c - 1, w);
      AppendedAre(s, c - 1, w);
    }
    DisjointCard(less, last);
  }

  lemma {:induction false} ExtendedCard(s: set<Row>, c: nat)
    ensures |Extended(s, c)| == c * |s|
  {
    if c > 0 {
      ExtendedCard(s, c - 1);
      ExtendedMore(s, c);
      OneMore(c, |s|);
    }
  }

  lemma {:induction false} VectorsCard(n: nat, m: nat)
    ensures |Vectors(n, m)| == Pow(m, n)
  {
    if n > 0 {
      VectorsCard(n - 1, m);
      ExtendedCard(Vectors(n - 1, m), m);
    }
  }
}
