/** The random generator behind the seeds: every draw is arbitrary within its range. */
module SeedRandom {
  import opened Permutations

  class Generator {
    const source: nat -> nat
    var tick: nat

    constructor (source: nat -> nat) {
      this.source, tick := source, 0;
    }

    /** rng.integers(0, high) */
    method Below(high: nat) returns (x: nat)
      requires high > 0
      modifies this
      ensures x < high
    {
      x := source(tick) % high;
      tick := tick + 1;
    }

    /** The outcome of a comparison with rng.random(). */
    method Coin() returns (heads: bool)
      modifies this
    {
      heads := source(tick) % 2 == 0;
      tick := tick + 1;
    }

    /** Two different positions: the second is drawn from one fewer and stepped past the first. */
    method Pair(n: nat) returns (a: nat, b: nat)
      requires n >= 2
      modifies this
      ensures a < n && b < n && a != b
    {
      a := Below(n);
      b := Below(n - 1);
      if b >= a {
        b := b + 1;
      }
    }

    /** rng.permutation(n) */
    method Shuffled(n: nat) returns (p: seq<nat>)
      modifies this
      ensures IsPerm(p, n)
    {
      p := Identity(n);
      for i := 0 to n
        invariant IsPerm(p, n)
      {
        var j := Below(n);
        SwapPerm(p, n, i, j);
        p := Swapped(p, i, j);
      }
    }
  }
}
