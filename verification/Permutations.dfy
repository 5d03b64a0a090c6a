/** Permutations of 0..n-1 as sequences. */
module Permutations {
  predicate IsPerm(p: seq<nat>, n: nat) {
    && |p| == n
    && (forall i :: 0 <= i < n ==> p[i] < n)
    && (forall i, j :: 0 <= i < j < n ==> p[i] != p[j])
  }

  /** The same of a list of arbitrary integers. */
  predicate IsIntPerm(p: seq<int>, n: nat) {
    && |p| == n
    && (forall i :: 0 <= i < n ==> 0 <= p[i] < n)
    && (forall i, j :: 0 <= i < j < n ==> p[i] != p[j])
  }

  function AsNats(p: seq<int>): (q: seq<nat>)
    requires forall i :: 0 <= i < |p| ==> 0 <= p[i]
    ensures |q| == |p| && forall i :: 0 <= i < |p| ==> q[i] == p[i]
  {
    seq(|p|, i requires 0 <= i < |p| => p[i])
  }

  /** Two equal entries count twice ... */
  lemma TwiceIn<T>(s: seq<T>, i: nat, j: nat)
    requires i < j < |s| && s[i] == s[j]
    ensures multiset(s)[s[i]] >= 2
  {
    assert s == s[..j] + [s[j]] + s[j + 1..];
    assert s[i] in s[..j];
  }

  /** ... and without equal entries nothing does. */
  lemma {:induction false} DistinctOnce<T>(s: seq<T>, v: T)
    requires forall i, j :: 0 <= i < j < |s| ==> s[i] != s[j]
    ensures multiset(s)[v] <= 1
  {
    if |s| > 0 {
      DistinctOnce(s[..|s| - 1], v);
      assert s == s[..|s| - 1] + [s[|s| - 1]];
      if s[|s| - 1] == v {
        assert v !in s[..|s| - 1];
      }
    }
  }

  /** Every value below n occurs: drop the last entry, and let it stand in for n - 1. */
  lemma {:induction false} PermOnto(p: seq<nat>, n: nat, v: nat)
    requires IsPerm(p, n) && v < n
    ensures v in p
    decreases n
  {
    var init, last := p[..n - 1], p[n - 1];
    if last == n - 1 {
      if v < n - 1 {
        PermOnto(init, n - 1, v);
      }
    } else if n - 1 in init {
      var i :| 0 <= i < n - 1 && init[i] == n - 1;
      if v != last && v != n - 1 {
        PermOnto(init[i := last], n - 1, v);
      }
    } else {
      PermOnto(init, n - 1, last);
    }
  }

  function Identity(n: nat): (p: seq<nat>)
    ensures IsPerm(p, n) && forall i :: 0 <= i < n ==> p[i] == i
  {
    seq(n, i => i)
  }

  function Swapped(p: seq<nat>, a: nat, b: nat): (q: seq<nat>)
    requires a < |p| && b < |p|
    ensures |q| == |p| && q[a] == p[b] && q[b] == p[a]
    ensures forall i :: 0 <= i < |p| && i != a && i != b ==> q[i] == p[i]
  {
    p[a := p[b]][b := p[a]]
  }

  lemma SwapPerm(p: seq<nat>, n: nat, a: nat, b: nat)
    requires IsPerm(p, n) && a < n && b < n
    ensures IsPerm(Swapped(p, a, b), n)
  {
  }

  function IndexFrom(p: seq<nat>, v: nat, k: nat): (i: nat)
    requires k <= |p| && exists i :: k <= i < |p| && p[i] == v
    ensures i < |p| && p[i] == v
    decreases |p| - k
  {
    if p[k] == v then k else IndexFrom(p, v, k + 1)
  }

  /** Where v stands in p. */
  function IndexOf(p: seq<nat>, n: nat, v: nat): (i: nat)
    requires IsPerm(p, n) && v < n
    ensures i < n && p[i] == v
  {
    PermOnto(p, n, v);
    IndexFrom(p, v, 0)
  }

  function Sum(p: seq<nat>, f: nat -> nat): nat {
    if |p| == 0 then 0 else Sum(p[..|p| - 1], f) + f(p[|p| - 1])
  }

  function SumBelow(n: nat, f: nat -> nat): nat {
    if n == 0 then 0 else SumBelow(n - 1, f) + f(n - 1)
  }

  lemma {:induction false} SumWithout(p: seq<nat>, i: nat, f: nat -> nat)
    requires i < |p|
    ensures Sum(p, f) == Sum(p[..i] + p[i + 1..], f) + f(p[i])
  {
    var q := p[..i] + p[i + 1..];
    if i == |p| - 1 {
      assert q == p[..|p| - 1];
    } else {
      SumWithout(p[..|p| - 1], i, f);
      assert p[..|p| - 1][..i] + p[..|p| - 1][i + 1..] == q[..|q| - 1];
    }
  }

  lemma RemovedPerm(p: seq<nat>, n: nat, i: nat)
    requires n > 0 && IsPerm(p, n) && i < n && p[i] == n - 1
    ensures IsPerm(p[..i] + p[i + 1..], n - 1)
  {
    var q := p[..i] + p[i + 1..];
    forall k | 0 <= k < n - 1 ensures q[k] < n - 1 {
      assert q[k] == p[if k < i then k else k + 1];
    }
    forall k, l | 0 <= k < l < n - 1 ensures q[k] != q[l] {
      assert q[k] == p[if k < i then k else k + 1] && q[l] == p[if l < i then l else l + 1];
    }
  }

  /** A sum over all values does not depend on their order. */
  lemma {:induction false} PermSum(p: seq<nat>, n: nat, f: nat -> nat)
    requires IsPerm(p, n)
    ensures Sum(p, f) == SumBelow(n, f)
  {
    if n > 0 {
      var i := IndexOf(p, n, n - 1);
      var q := p[..i] + p[i + 1..];
      SumWithout(p, i, f);
      RemovedPerm(p, n, i);
      PermSum(q, n - 1, f);
    }
  }
}
