/** The prime sequence of the AN END search, by trial division up to the square root. */
module Primes {
  import opened ModArith

  /** All primes less than k, ascending. */
  ghost function PrimesBelow(k: nat): seq<nat> {
    if k == 0 then [] else PrimesBelow(k - 1) + if IsPrime(k - 1) then [k - 1] else []
  }

  lemma {:induction false} PrimesBelowAre(k: nat)
    ensures forall q: nat :: q in PrimesBelow(k) <==> q < k && IsPrime(q)
    ensures forall i, j :: 0 <= i < j < |PrimesBelow(k)| ==> PrimesBelow(k)[i] < PrimesBelow(k)[j]
  {
    if k > 0 {
      PrimesBelowAre(k - 1);
      var less := PrimesBelow(k - 1);
      assert forall i :: 0 <= i < |less| ==> less[i] in less;
    }
  }

  lemma {:induction false} PrimesBelowGrows(j: nat, k: nat)
    requires j <= k
    ensures |PrimesBelow(j)| <= |PrimesBelow(k)|
    decreases k
  {
    if j < k {
      PrimesBelowGrows(j, k - 1);
    }
  }

  // -- Euclid ------------------------------------------------------------------

  ghost function Factorial(n: nat): nat {
    if n == 0 then 1 else n * Factorial(n - 1)
  }

  lemma {:induction false} FactorialPositive(n: nat)
    ensures Factorial(n) > 0
  {
    if n > 0 {
      FactorialPositive(n - 1);
    }
  }

  lemma {:induction false} DividesFactorial(d: nat, n: nat)
    requires 0 < d <= n
    ensures Factorial(n) > 0 && Cong(Factorial(n), 0, d)
  {
    FactorialPositive(n - 1);
    if d == n {
      CongBy(Factorial(n), 0, d, Factorial(n - 1));
    } else {
      DividesFactorial(d, n - 1);
      CongScale(Factorial(n - 1), 0, n, d);
    }
  }

  lemma DividesTrans(d: nat, p: nat, m: nat)
    requires d > 0 && p > 0 && Divides(d, p) && Divides(p, m)
    ensures Divides(d, m)
  {
    var k, l := p / d, m / p;
    assert m == l * p && p == k * d;
    assert l * (k * d) == (l * k) * d;
    CongBy(m, 0, d, l * k);
    CongIsMod(m, 0, d);
    ModOfReduced(0, d);
  }

  /** The least divisor of m from 2 on is prime. */
  lemma LeastDivisor(m: nat) returns (p: nat)
    requires m >= 2
    ensures 2 <= p <= m && Divides(p, m) && IsPrime(p)
    ensures forall d :: 2 <= d < p ==> !Divides(d, m)
  {
    p := 2;
    while !Divides(p, m)
      invariant 2 <= p <= m
      invariant forall d :: 2 <= d < p ==> !Divides(d, m)
      decreases m - p
    {
      if p == m {
        CongBy(m, 0, m, 1);
        CongIsMod(m, 0, m);
        ModOfReduced(0, m);
      }
      p := p + 1;
    }
    forall d | 2 <= d < p ensures !Divides(d, p) {
      if Divides(d, p) {
        DividesTrans(d, p, m);
      }
    }
  }

  /** There is a prime at or beyond every number. */
  lemma Euclid(n: nat) returns (q: nat)
    ensures q >= n && IsPrime(q)
  {
    FactorialPositive(n);
    q := LeastDivisor(Factorial(n) + 1);
    if q < n {
      DividesFactorial(q, n);
      CongMod(Factorial(n) + 1, q);
      CongSub(Factorial(n) + 1, 0, Factorial(n), 0, q);
      CongReduced(1, 0, q);
    }
  }

  /** A bound below which there are n primes: the measure of the outer loop. */
  lemma {:induction false} EnoughPrimes(n: nat) returns (bound: nat)
    ensures |PrimesBelow(bound)| >= n
  {
    if n == 0 {
      bound := 0;
    } else {
      var less := EnoughPrimes(n - 1);
      var q := Euclid(less);
      PrimesBelowGrows(less, q);
      bound := q + 1;
    }
  }

  // -- trial division ------------------------------------------------------------

  /** A least divisor's cofactor is no smaller. */
  lemma LeastSquare(q: nat, n: nat)
    requires 2 <= q < n && Divides(q, n)
    requires forall d :: 2 <= d < q ==> !Divides(d, n)
    ensures q * q <= n
  {
    var c := n / q;
    assert n == c * q;
    assert 2 <= c;
    CongBy(n, 0, c, q);
    CongIsMod(n, 0, c);
    ModOfReduced(0, c);
    assert Divides(c, n);
    assert q * q <= c * q;
  }

  lemma SquareBelow(r: nat, q: nat)
    requires r <= q
    ensures r * r <= q * q
  {
    assert r * r <= r * q <= q * q;
  }

  /** A prime below the candidate is among those tried, or no smaller than the next. */
  lemma FoundAt(candidate: nat, primes: seq<nat>, q: nat, tried: nat)
    requires primes == PrimesBelow(candidate) && tried <= |primes| && IsPrime(q) && q < candidate
    ensures (exists j :: 0 <= j < tried && primes[j] == q) ||
              (tried < |primes| && primes[tried] * primes[tried] <= q * q)
  {
    PrimesBelowAre(candidate);
    var j :| 0 <= j < |primes| && primes[j] == q;
    if j >= tried {
      assert primes[tried] <= primes[j];
      SquareBelow(primes[tried], q);
    }
  }

  /** Primes up to the square root decide. */
  lemma PrimeBySquareRoot(candidate: nat, primes: seq<nat>, tried: nat)
    requires candidate >= 2 && primes == PrimesBelow(candidate) && tried <= |primes|
    requires forall j :: 0 <= j < tried ==> primes[j] > 0 && !Divides(primes[j], candidate)
    requires tried < |primes| ==> primes[tried] * primes[tried] > candidate
    ensures IsPrime(candidate)
  {
    var q := LeastDivisor(candidate);
    if q < candidate {
      LeastSquare(q, candidate);
      FoundAt(candidate, primes, q, tried);
    }
  }

  /** The inner loop over the primes found so far. */
  method TrialDivision(out: seq<nat>, candidate: nat) returns (isPrime: bool)
    requires candidate >= 2 && out == PrimesBelow(candidate)
    ensures isPrime <==> IsPrime(candidate)
  {
    PrimesBelowAre(candidate);
    var i := 0;
    while i < |out|
      invariant 0 <= i <= |out|
      invariant forall j :: 0 <= j < i ==> out[j] > 0 && !Divides(out[j], candidate)
    {
      var p := out[i];
      assert p in out;
      if p * p > candidate {
        break;
      }
      if candidate % p == 0 {
        assert Divides(p, candidate);
        return false;
      }
      i := i + 1;
    }
    PrimeBySquareRoot(candidate, out, i);
    return true;
  }

  /** primes(n): terminates for every n, with the first n primes. */
  method FirstPrimes(n: int) returns (out: seq<nat>)
    ensures |out| == if n < 0 then 0 else n
    ensures exists k: nat :: out == PrimesBelow(k)
    ensures forall i :: 0 <= i < |out| ==> IsPrime(out[i])
    ensures forall i, j :: 0 <= i < j < |out| ==> out[i] < out[j]
    ensures forall q: nat, i :: 0 <= i < |out| && IsPrime(q) && q < out[i] ==> q in out
  {
    ghost var bound: int := EnoughPrimes(if n < 0 then 0 else n);
    out := [];
    var candidate: int := 2;
    assert PrimesBelow(1) == [] && PrimesBelow(2) == [];
    while |out| < n
      invariant candidate >= 2 && out == PrimesBelow(candidate)
      invariant |out| <= if n < 0 then 0 else n
      decreases bound - candidate
    {
      if candidate >= bound {
        PrimesBelowGrows(bound, candidate);
      }
      var isPrime := TrialDivision(out, candidate);
      if isPrime {
        out := out + [candidate];
      }
      candidate := candidate + 1;
    }
    PrimesBelowAre(candidate);
    assert forall i :: 0 <= i < |out| ==> out[i] in out;
  }
}
