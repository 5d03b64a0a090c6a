/** What accepted replay evidence says, in terms of the recorded numbers alone. */
module EvidenceMeaning {
  import opened StableSort
  import opened ReplayEvidence

  /** Entry n of the scores is the one called name. */
  predicate At(s: Scores, name: string, n: nat) {
    n < |s| && s[n].name == name
  }

  lemma {:induction false} ValueAt(s: Scores, name: string, n: nat)
    requires WellFormed(s) && At(s, name, n)
    ensures Has(s, name) && Value(s, name) == s[n].value
  {
    assert s[n].name == name;
    if n > 0 {
      var rest := s[1..];
      assert forall i :: 0 <= i < |rest| ==> rest[i] == s[i + 1];
      ValueAt(rest, name, n - 1);
    }
  }

  lemma RankIsWeak(s: Settings)
    ensures StrictWeak(RankOrder(s))
  {
  }

  ghost predicate DistinctObservations(os: seq<Observation>) {
    forall i, j :: 0 <= i < j < |os| ==> os[i].id != os[j].id
  }

  lemma ObservationsDistinct(e: Evidence)
    requires Accepted(e)
    ensures DistinctObservations(e.observations)
  {
    forall i, j | 0 <= i < j < |e.observations| ensures e.observations[i].id != e.observations[j].id {
      assert IdsOf(e.observations)[i] == e.candidateIds[i] && IdsOf(e.observations)[j] == e.candidateIds[j];
    }
  }

  lemma SortedAt(os: seq<Observation>, less: Order<Observation>, i: nat, a: nat)
    requires DistinctObservations(os) && i < |os| && a < |os| && os[a].id == Sort(os, less)[i].id
    ensures Sort(os, less)[i] == os[a]
  {
    var x := Sort(os, less)[i];
    SortMember(os, less, x);
    assert x in os;
    var c :| 0 <= c < |os| && os[c] == x;
    assert !(a < c) && !(c < a);
  }

  /** The observation that stands at place i of the ranking. */
  lemma RankedAt(e: Evidence, i: nat, a: nat)
    requires Accepted(e) && i < |e.ranking| && a < |e.observations| && e.observations[a].id == e.ranking[i]
    ensures i < |e.observations| && Sort(e.observations, RankOrder(e.settings))[i] == e.observations[a]
  {
    ObservationsDistinct(e);
    assert IdsOf(Sort(e.observations, RankOrder(e.settings)))[i] == e.ranking[i];
    SortedAt(e.observations, RankOrder(e.settings), i, a);
  }

  /** A list cannot hold more distinct elements than its length. */
  lemma {:induction false} DistinctInside(c: seq<nat>, r: seq<nat>)
    requires forall i, j :: 0 <= i < j < |c| ==> c[i] != c[j]
    requires forall x :: x in c ==> x in r
    ensures |c| <= |r|
  {
    if |c| > 0 {
      assert c[0] in r;
      var k :| 0 <= k < |r| && r[k] == c[0];
      var rest := r[..k] + r[k + 1..];
      forall x | x in c[1..] ensures x in rest {
        var t :| 0 <= t < |c[1..]| && c[1..][t] == x;
        assert c[t + 1] == x && x in r;
        var i :| 0 <= i < |r| && r[i] == x;
        assert x == rest[if i < k then i else i - 1];
      }
      DistinctInside(c[1..], rest);
    }
  }

  /** A list as long as the list of distinct elements that it holds has none of them twice. */
  lemma NoneTwice(r: seq<nat>, c: seq<nat>, i: nat, j: nat)
    requires |r| == |c| && i < j < |r| && forall k, l :: 0 <= k < l < |c| ==> c[k] != c[l]
    requires forall x :: x in c ==> x in r
    ensures r[i] != r[j]
  {
    if r[i] == r[j] {
      var without := r[..j] + r[j + 1..];
      forall x | x in c ensures x in without {
        assert x in r;
        var k :| 0 <= k < |r| && r[k] == x;
        assert x == without[if k < j then k else if k == j then i else k - 1];
      }
      DistinctInside(c, without);
    }
  }

  lemma RankingDistinct(e: Evidence, i: nat, j: nat)
    requires Accepted(e) && i < j < |e.ranking|
    ensures e.ranking[i] != e.ranking[j]
  {
    NoneTwice(e.ranking, e.candidateIds, i, j);
  }

  /** Best first: of two observations in the ranking the earlier one's decision score is no
      worse, and if it is the same the earlier one's id is the smaller. */
  lemma RankedByScore(e: Evidence, i: nat, j: nat, a: nat, b: nat, m: nat, n: nat)
    requires Accepted(e) && i < j < |e.ranking| && a < |e.observations| && b < |e.observations|
    requires e.observations[a].id == e.ranking[i] && e.observations[b].id == e.ranking[j]
    requires At(e.observations[a].observed, e.settings.decision, m)
    requires At(e.observations[b].observed, e.settings.decision, n)
    ensures var x, y := e.observations[a].observed[m].value, e.observations[b].observed[n].value;
            && (e.settings.higherIsBetter ==> x >= y) && (!e.settings.higherIsBetter ==> x <= y)
            && (x == y ==> e.ranking[i] < e.ranking[j])
  {
    var os, less := e.observations, RankOrder(e.settings);
    RankedAt(e, i, a);
    RankedAt(e, j, b);
    ValueAt(os[a].observed, e.settings.decision, m);
    ValueAt(os[b].observed, e.settings.decision, n);
    RankIsWeak(e.settings);
    SortSorted(os, less);
    RankingDistinct(e, i, j);
    assert !less(os[b], os[a]);
  }

  // -- tolerances --------------------------------------------------------------------------

  lemma NonNegative(r: real, x: real)
    requires r >= 0.0 && x >= 0.0
    ensures r * x >= 0.0
  {
  }

  lemma MinusOut(r: real, x: real)
    ensures r * -x == -(r * x)
  {
  }

  lemma ScaledAbs(r: real, x: real)
    requires r >= 0.0
    ensures r * Abs(x) == Abs(r * x)
  {
    MinusOut(r, x);
    NonNegative(r, Abs(x));
  }

  lemma Distributed(r: real, x: real, y: real)
    ensures r * (x - y) == r * x - r * y
  {
  }

  lemma ScaledMax(r: real, x: real, y: real)
    requires r >= 0.0
    ensures r * Max(x, y) == Max(r * x, r * y)
  {
    Distributed(r, x, y);
    Distributed(r, y, x);
    if x < y {
      NonNegative(r, y - x);
    } else {
      NonNegative(r, x - y);
    }
  }

  /** d lies between t and -t. */
  predicate Within(d: real, t: real) {
    -t <= d <= t || t <= d <= -t
  }

  lemma WithinMax(d: real, x: real, y: real, t: real, bound: real)
    requires t >= 0.0 && bound == Max(Max(Abs(x), Abs(y)), t)
    ensures Abs(d) <= bound <==> Within(d, t) || Within(d, x) || Within(d, y)
  {
  }

  lemma ToleranceIs(r: real, a: real, b: real, t: real, x: real, y: real)
    requires r >= 0.0 && x == r * a && y == r * b
    ensures Max(r * Max(Abs(a), Abs(b)), t) == Max(Max(Abs(x), Abs(y)), t)
  {
    ScaledMax(r, Abs(a), Abs(b));
    ScaledAbs(r, a);
    ScaledAbs(r, b);
  }

  lemma CloseIs(s: Settings, a: real, b: real, r: real, t: real, bound: real)
    requires s.relative == r && s.absolute == t && bound == Max(r * Max(Abs(a), Abs(b)), t)
    ensures Close(s, a, b) <==> Abs(a - b) <= bound
  {
  }

  lemma ApartBy(a: real, b: real, r: real, t: real, x: real, y: real)
    requires r >= 0.0 && t >= 0.0 && x == r * a && y == r * b
    ensures Abs(a - b) <= Max(r * Max(Abs(a), Abs(b)), t) <==> Within(a - b, t) || Within(a - b, x) || Within(a - b, y)
  {
    ToleranceIs(r, a, b, t, x, y);
    WithinMax(a - b, x, y, t, Max(r * Max(Abs(a), Abs(b)), t));
  }

  /** Two numbers are close when they are no further apart than the absolute tolerance, or
      than the relative one times either of them. */
  lemma CloseIff(s: Settings, a: real, b: real, x: real, y: real)
    requires s.relative >= 0.0 && s.absolute >= 0.0 && x == s.relative * a && y == s.relative * b
    ensures Close(s, a, b) <==> Within(a - b, s.absolute) || Within(a - b, x) || Within(a - b, y)
  {
    var r, t := s.relative, s.absolute;
    ApartBy(a, b, r, t, x, y);
    CloseIs(s, a, b, r, t, Max(r * Max(Abs(a), Abs(b)), t));
  }

  // -- deltas and flags --------------------------------------------------------------------

  /** Two recorded values of one name, the first and a later one. */
  predicate Repeated(o: Observation, k: nat, n: nat) {
    1 <= k < |o.repeats| && n < |o.repeats[0]| && n < |o.repeats[k]|
  }

  lemma MaxOfIs(xs: seq<real>, m: real)
    requires m == MaxOf(xs)
    ensures m >= 0.0 && (forall i :: 0 <= i < |xs| ==> xs[i] <= m) && (m == 0.0 || m in xs)
  {
    if |xs| > 0 {
      MaxOfIs(xs[..|xs| - 1], MaxOf(xs[..|xs| - 1]));
      assert xs == xs[..|xs| - 1] + [xs[|xs| - 1]];
    }
  }

  /** Every change of a score between the first and a later repeat is among the deltas. */
  lemma {:induction false} DeltaListed(repeats: seq<Scores>, last: nat, k: nat, n: nat)
    requires 1 <= k < last <= |repeats| && forall i :: 0 <= i < |repeats| ==> SameNames(repeats[0], repeats[i])
    requires n < |repeats[0]| && n < |repeats[k]|
    ensures Abs(repeats[k][n].value - repeats[0][n].value) in Deltas(repeats, last)
  {
    var more := RepeatDeltas(repeats[0], repeats[last - 1]);
    if k == last - 1 {
      assert more[n] == Abs(repeats[k][n].value - repeats[0][n].value);
      assert more[n] in more;
    } else {
      DeltaListed(repeats, last - 1, k, n);
    }
  }

  /** And nothing else is. */
  lemma {:induction false} ListedDelta(repeats: seq<Scores>, last: nat, d: real) returns (k: nat, n: nat)
    requires 1 <= last <= |repeats| && forall i :: 0 <= i < |repeats| ==> SameNames(repeats[0], repeats[i])
    requires d in Deltas(repeats, last)
    ensures 1 <= k < last && n < |repeats[0]| && n < |repeats[k]|
    ensures d == Abs(repeats[k][n].value - repeats[0][n].value)
  {
    var more := RepeatDeltas(repeats[0], repeats[last - 1]);
    if d in more {
      assert |Names(repeats[0])| == |Names(repeats[last - 1])|;
      k := last - 1;
      n :| 0 <= n < |more| && more[n] == d;
    } else {
      k, n := ListedDelta(repeats, last - 1, d);
    }
  }

  /** The maximum delta is the largest change of any score between the first repeat and a
      later one, or zero if there is none. */
  lemma MaximumDeltaIs(o: Observation)
    requires ObservationAccepted(o)
    ensures o.maximumDelta >= 0.0
    ensures forall k: nat, n: nat :: Repeated(o, k, n) ==>
              -o.maximumDelta <= o.repeats[k][n].value - o.repeats[0][n].value <= o.maximumDelta
    ensures o.maximumDelta > 0.0 ==>
              exists k: nat, n: nat ::
                && Repeated(o, k, n)
                && o.repeats[k][n].value - o.repeats[0][n].value in {o.maximumDelta, -o.maximumDelta}
  {
    var deltas := Deltas(o.repeats, |o.repeats|);
    MaxOfIs(deltas, o.maximumDelta);
    forall k: nat, n: nat | Repeated(o, k, n)
      ensures -o.maximumDelta <= o.repeats[k][n].value - o.repeats[0][n].value <= o.maximumDelta
    {
      DeltaListed(o.repeats, |o.repeats|, k, n);
      var d := Abs(o.repeats[k][n].value - o.repeats[0][n].value);
      var i :| 0 <= i < |deltas| && deltas[i] == d;
    }
    if o.maximumDelta > 0.0 {
      var k, n := ListedDelta(o.repeats, |o.repeats|, o.maximumDelta);
      assert Repeated(o, k, n);
    }
  }

  /** A decision score of a repeat, and the stored one. */
  predicate Decided(s: Settings, o: Observation, k: nat, m: nat, n: nat) {
    k < |o.repeats| && At(o.repeats[k], s.decision, m) && At(o.stored, s.decision, n)
  }

  lemma RepeatWellFormed(o: Observation, k: nat)
    requires ObservationAccepted(o) && k < |o.repeats|
    ensures WellFormed(o.repeats[k])
  {
    var a, b := o.observed, o.repeats[k];
    assert |a| == |Names(a)| == |Names(b)| == |b|;
    forall i, j | 0 <= i < j < |b| ensures b[i].name != b[j].name {
      assert Names(a)[i] == a[i].name && Names(a)[j] == a[j].name && Names(b)[i] == b[i].name;
    }
  }

  lemma DecidedValues(s: Settings, o: Observation, k: nat, m: nat, n: nat)
    requires ObservationAccepted(o) && Decided(s, o, k, m, n)
    ensures Has(o.repeats[k], s.decision) && Value(o.repeats[k], s.decision) == o.repeats[k][m].value
    ensures Has(o.stored, s.decision) && Value(o.stored, s.decision) == o.stored[n].value
  {
    RepeatWellFormed(o, k);
    ValueAt(o.repeats[k], s.decision, m);
    ValueAt(o.stored, s.decision, n);
  }

  lemma AllCloseIff(s: Settings, o: Observation)
    ensures AllClose(s, o) <==>
            forall k: nat, n: nat :: Repeated(o, k, n) ==> Close(s, o.repeats[k][n].value, o.repeats[0][n].value)
  {
    if !AllClose(s, o) {
      var k, n :| 1 <= k < |o.repeats| && 0 <= n < |o.repeats[0]| && n < |o.repeats[k]|
        && !Close(s, o.repeats[k][n].value, o.repeats[0][n].value);
      assert Repeated(o, k, n);
    }
  }

  /** The evidence is deterministic iff every later score is close to the first of its name. */
  lemma DeterministicIff(e: Evidence)
    requires Accepted(e)
    ensures e.deterministic <==>
            forall a: nat, k: nat, n: nat :: a < |e.observations| && Repeated(e.observations[a], k, n) ==>
              var o := e.observations[a]; Close(e.settings, o.repeats[k][n].value, o.repeats[0][n].value)
  {
    var s, os := e.settings, e.observations;
    forall a | 0 <= a < |os|
      ensures AllClose(s, os[a]) <==>
              forall k: nat, n: nat :: Repeated(os[a], k, n) ==>
                Close(s, os[a].repeats[k][n].value, os[a].repeats[0][n].value)
    {
      AllCloseIff(s, os[a]);
    }
    assert e.deterministic == EveryAllClose(s, os);
  }

  lemma StoredApart(s: Settings, o: Observation) returns (k: nat, m: nat, n: nat)
    requires ObservationFits(s, o) && s.mode == Verify && !StoredClose(s, o)
    ensures Decided(s, o, k, m, n) && !Close(s, o.repeats[k][m].value, o.stored[n].value)
  {
    n :| 0 <= n < |o.stored| && o.stored[n].name == s.decision;
    k :| 0 <= k < |o.repeats| && Has(o.repeats[k], s.decision)
      && !Close(s, Value(o.repeats[k], s.decision), Value(o.stored, s.decision));
    m :| 0 <= m < |o.repeats[k]| && o.repeats[k][m].name == s.decision;
    DecidedValues(s, o, k, m, n);
  }

  /** Where the stored scores are verified, they are reported verified iff every repeat's
      decision score is close to the stored one. */
  lemma StoredVerifiedIff(e: Evidence)
    requires Accepted(e) && e.settings.mode == Verify
    ensures e.storedVerified.Some?
    ensures e.storedVerified.value <==>
            forall a: nat, k: nat, m: nat, n: nat ::
              a < |e.observations| && Decided(e.settings, e.observations[a], k, m, n) ==>
              Close(e.settings, e.observations[a].repeats[k][m].value, e.observations[a].stored[n].value)
  {
    var s, os := e.settings, e.observations;
    if e.storedVerified.value {
      forall a: nat, k: nat, m: nat, n: nat | a < |os| && Decided(s, os[a], k, m, n)
        ensures Close(s, os[a].repeats[k][m].value, os[a].stored[n].value)
      {
        assert ObservationFits(s, os[a]) && StoredClose(s, os[a]);
        DecidedValues(s, os[a], k, m, n);
      }
    } else {
      var a :| 0 <= a < |os| && !StoredClose(s, os[a]);
      assert ObservationFits(s, os[a]);
      var k, m, n := StoredApart(s, os[a]);
    }
  }

  /** The stored delta is the largest distance of a repeat's decision score from the stored one. */
  lemma StoredDeltaIs(s: Settings, o: Observation)
    requires ObservationFits(s, o) && s.mode == Verify
    ensures o.storedDelta.Some? && o.storedDelta.value >= 0.0
    ensures forall k: nat, m: nat, n: nat :: Decided(s, o, k, m, n) ==>
              -o.storedDelta.value <= o.repeats[k][m].value - o.stored[n].value <= o.storedDelta.value
    ensures o.storedDelta.value > 0.0 ==>
              exists k: nat, m: nat, n: nat ::
                && Decided(s, o, k, m, n)
                && o.repeats[k][m].value - o.stored[n].value in {o.storedDelta.value, -o.storedDelta.value}
  {
    var deltas, top := StoredDeltas(o.repeats, s.decision, Value(o.stored, s.decision)), o.storedDelta.value;
    MaxOfIs(deltas, top);
    forall k: nat, m: nat, n: nat | Decided(s, o, k, m, n)
      ensures -top <= o.repeats[k][m].value - o.stored[n].value <= top
    {
      DecidedValues(s, o, k, m, n);
      assert deltas[k] <= top;
    }
    if top > 0.0 {
      var k: nat :| k < |deltas| && deltas[k] == top;
      var m :| 0 <= m < |o.repeats[k]| && o.repeats[k][m].name == s.decision;
      var n :| 0 <= n < |o.stored| && o.stored[n].name == s.decision;
      assert Decided(s, o, k, m, n);
      DecidedValues(s, o, k, m, n);
    }
  }
}
