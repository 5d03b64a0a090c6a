/** Congruences over an arbitrary modulus, and inverses over a prime one. */
module ModArith {

  /** a and b differ by a multiple of m. */
  ghost predicate Cong(a: int, b: int, m: int) {
    exists k: int :: a - b == k * m
  }

  lemma CongBy(a: int, b: int, m: int, k: int)
    requires a - b == k * m
    ensures Cong(a, b, m)
  {
  }

  lemma CongRefl(a: int, m: int)
    ensures Cong(a, a, m)
  {
    CongBy(a, a, m, 0);
  }

  lemma CongSym(a: int, b: int, m: int)
    requires Cong(a, b, m)
    ensures Cong(b, a, m)
  {
    var k :| a - b == k * m;
    CongBy(b, a, m, -k);
  }

  lemma CongTrans(a: int, b: int, c: int, m: int)
    requires Cong(a, b, m) && Cong(b, c, m)
    ensures Cong(a, c, m)
  {
    var k :| a - b == k * m;
    var l :| b - c == l * m;
    CongBy(a, c, m, k + l);
  }

  lemma CongAdd(a: int, b: int, c: int, d: int, m: int)
    requires Cong(a, b, m) && Cong(c, d, m)
    ensures Cong(a + c, b + d, m)
  {
    var k :| a - b == k * m;
    var l :| c - d == l * m;
    CongBy(a + c, b + d, m, k + l);
  }

  lemma CongSub(a: int, b: int, c: int, d: int, m: int)
    requires Cong(a, b, m) && Cong(c, d, m)
    ensures Cong(a - c, b - d, m)
  {
    var k :| a - b == k * m;
    var l :| c - d == l * m;
    CongBy(a - c, b - d, m, k - l);
  }

  lemma CongScale(a: int, b: int, c: int, m: int)
    requires Cong(a, b, m)
    ensures Cong(c * a, c * b, m)
  {
    var k :| a - b == k * m;
    assert c * a - c * b == c * (a - b) == (c * k) * m;
    CongBy(c * a, c * b, m, c * k);
  }

  /** Reducing modulo m stays in the same residue class. */
  lemma CongMod(a: int, m: int)
    requires m > 0
    ensures Cong(a % m, a, m) && Cong(a, a % m, m)
  {
    CongBy(a, a % m, m, a / m);
    CongSym(a, a % m, m);
  }

  lemma SmallMultiple(k: int, m: int)
    requires -m < k * m < m
    ensures k == 0
  {
  }

  /** Two reduced representatives of one class are the same number. */
  lemma CongReduced(a: int, b: int, m: int)
    requires m > 0 && 0 <= a < m && 0 <= b < m && Cong(a, b, m)
    ensures a == b
  {
    var k :| a - b == k * m;
    SmallMultiple(k, m);
  }

  lemma CongIsMod(a: int, b: int, m: int)
    requires m > 0
    ensures Cong(a, b, m) <==> a % m == b % m
  {
    CongMod(a, m);
    CongMod(b, m);
    if Cong(a, b, m) {
      CongTrans(a % m, a, b, m);
      CongTrans(a % m, b, b % m, m);
      CongReduced(a % m, b % m, m);
    } else if a % m == b % m {
      CongTrans(a, a % m, b, m);
    }
  }

  lemma ModOfReduced(a: int, m: int)
    requires 0 <= a < m
    ensures a % m == a
  {
    CongMod(a, m);
    CongReduced(a % m, a, m);
  }

  function Min(x: int, y: int): int {
    if x < y then x else y
  }

  predicate Divides(d: int, n: int)
    requires d > 0
  {
    n % d == 0
  }

  ghost predicate IsPrime(p: int) {
    p >= 2 && forall d :: 2 <= d < p ==> !Divides(d, p)
  }

  /** y undoes multiplication by x: what pow(x, -1, m) returns. */
  predicate IsInverse(x: int, y: int, m: int)
    requires m > 0
  {
    0 <= y < m && x * y % m == 1
  }

  ghost predicate HasInverse(x: int, m: int)
    requires m > 0
  {
    exists y :: IsInverse(x, y, m)
  }

  /** Any integer w with x * w congruent to 1 gives a reduced inverse. */
  lemma InverseFrom(x: int, w: int, m: int)
    requires m > 1 && Cong(x * w, 1, m)
    ensures HasInverse(x, m)
  {
    CongMod(w, m);
    CongScale(w % m, w, x, m);
    CongTrans(x * (w % m), x * w, 1, m);
    CongIsMod(x * (w % m), 1, m);
    ModOfReduced(1, m);
    assert IsInverse(x, w % m, m);
  }

  lemma InverseStep(x: int, p: int, q: int, r: int, v: int, k: int)
    requires q * x == p - r && r * v - 1 == k * p
    ensures x * -(q * v) - 1 == (k - v) * p
  {
    assert x * -(q * v) == -((q * x) * v) == -((p - r) * v) == r * v - p * v;
  }

  /** Division with remainder p = q x + r gives inv(x) = -q inv(r), and r is
      never 0 when p is prime. */
  lemma {:induction false} PrimeInverse(x: int, p: int) returns (w: int)
    requires IsPrime(p) && 0 < x < p
    ensures Cong(x * w, 1, p)
    decreases x
  {
    if x == 1 {
      w := 1;
      CongRefl(1, p);
    } else {
      var q, r := p / x, p % x;
      assert !Divides(x, p);
      var v := PrimeInverse(r, p);
      var k :| r * v - 1 == k * p;
      w := -(q * v);
      InverseStep(x, p, q, r, v, k);
      CongBy(x * w, 1, p, k - v);
    }
  }

  lemma CongFactor(a: int, b: int, m: int, c: int, d: int)
    requires Cong(a, b, m) && m == c * d
    ensures Cong(a, b, d)
  {
    var k :| a - b == k * m;
    assert k * (c * d) == (k * c) * d;
    CongBy(a, b, d, k * c);
  }

  lemma ProperDivisorNotInvertible(d: int, m: int)
    requires 2 <= d < m && Divides(d, m)
    ensures !HasInverse(d, m)
  {
    if HasInverse(d, m) {
      var y :| IsInverse(d, y, m);
      CongMod(d * y, m);
      CongFactor(1, d * y, m, m / d, d);
      CongBy(d * y, 0, d, y);
      CongTrans(1, d * y, 0, d);
      CongReduced(1, 0, d);
    }
  }

  /** Every nonzero residue is invertible exactly when the modulus is prime. */
  lemma InvertibleIffPrime(m: int)
    requires m > 1
    ensures IsPrime(m) <==> forall x :: 0 < x < m ==> HasInverse(x, m)
  {
    if IsPrime(m) {
      forall x | 0 < x < m ensures HasInverse(x, m) {
        var w := PrimeInverse(x, m);
        InverseFrom(x, w, m);
      }
    } else {
      var d :| 2 <= d < m && Divides(d, m);
      ProperDivisorNotInvertible(d, m);
    }
  }
}
