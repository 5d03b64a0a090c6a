/** A word with two coprime periods a and b is constant once it has a + b - 1 letters. */
module FineWilf {
  import opened ModArith

  ghost predicate Coprime(a: nat, b: nat) {
    forall d :: d > 1 && Divides(d, a) ==> !Divides(d, b)
  }

  /** u a + v b = 1 leaves no common divisor. */
  lemma CoprimeBy(a: nat, b: nat, u: int, v: int)
    requires u * a + v * b == 1
    ensures Coprime(a, b)
  {
    forall d | d > 1 && Divides(d, a) ensures !Divides(d, b) {
      if Divides(d, b) {
        var k, l := a / d, b / d;
        assert u * a == (u * k) * d && v * b == (v * l) * d;
        CongBy(1, 0, d, u * k + v * l);
        CongReduced(1, 0, d);
      }
    }
  }

  lemma CoprimeSubtract(a: nat, b: nat)
    requires a < b && Coprime(a, b)
    ensures Coprime(a, b - a)
  {
    forall d | d > 1 && Divides(d, a) ensures !Divides(d, b - a) {
      if Divides(d, b - a) {
        CongMod(a, d);
        CongMod(b - a, d);
        CongAdd(a, 0, b - a, 0, d);
        CongIsMod(b, 0, d);
        ModOfReduced(0, d);
      }
    }
  }

  ghost predicate Periodic<T(!new)>(w: seq<T>, p: nat) {
    forall i :: 0 <= i && i + p < |w| ==> w[i] == w[i + p]
  }

  ghost predicate Constant<T(!new)>(w: seq<T>) {
    forall i, j :: 0 <= i < |w| && 0 <= j < |w| ==> w[i] == w[j]
  }

  lemma {:induction false} PeriodOne<T(!new)>(w: seq<T>, i: nat)
    requires Periodic(w, 1) && i < |w|
    ensures w[i] == w[0]
  {
    if i > 0 {
      PeriodOne(w, i - 1);
      assert w[i - 1] == w[i - 1 + 1];
    }
  }

  /** Euclid's subtraction on the periods, on a prefix shorter by the lesser one. */
  lemma {:induction false} CoprimePeriods<T(!new)>(w: seq<T>, a: nat, b: nat)
    requires a > 0 && b > 0 && Coprime(a, b) && |w| >= a + b - 1
    requires Periodic(w, a) && Periodic(w, b)
    ensures Constant(w)
    decreases a + b, b
  {
    if a == b {
      if a > 1 {
        assert Divides(a, a);
      }
      forall i | 0 <= i < |w| ensures w[i] == w[0] {
        PeriodOne(w, i);
      }
    } else if b < a {
      forall d | d > 1 && Divides(d, b) ensures !Divides(d, a) {}
      CoprimePeriodsOrdered(w, b, a);
    } else {
      CoprimePeriodsOrdered(w, a, b);
    }
  }

  lemma {:induction false} CoprimePeriodsOrdered<T(!new)>(w: seq<T>, a: nat, b: nat)
    requires 0 < a < b && Coprime(a, b) && |w| >= a + b - 1
    requires Periodic(w, a) && Periodic(w, b)
    ensures Constant(w)
    decreases a + b, 0
  {
    var p := w[..|w| - a];
    forall i | 0 <= i && i + (b - a) < |p| ensures p[i] == p[i + (b - a)] {
      assert w[i] == w[i + b];
      assert w[i + (b - a)] == w[i + (b - a) + a];
    }
    CoprimeSubtract(a, b);
    CoprimePeriods(p, a, b - a);
    forall i | 0 <= i < |w| ensures w[i] == p[0] {
      if i < |p| {
        assert p[i] == p[0];
      } else {
        assert w[i - a] == w[i - a + a];
        assert p[i - a] == p[0];
      }
    }
  }
}
