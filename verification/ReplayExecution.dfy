/** replay_candidate_batch: evaluate every candidate several times and build the evidence. */
module ReplayExecution {
  import opened Results
  import opened StableSort
  import opened ReplayEvidence

  datatype ReplayError =
    | TooFewRepeats | NegativeTolerance
    | MissingDecision(id: nat) | NamesChanged | MetricsChanged | StoredLacksDecision

  /** The evaluator's answer to the k-th call for a candidate. */
  type Evaluator = (Candidate, nat) -> Evaluation

  /** The evaluator's and the metrics' checks pass for this candidate. */
  ghost predicate Replayable(s: Settings, evaluate: Evaluator, c: Candidate) {
    && Has(evaluate(c, 0).scores, s.decision)
    && (forall k: nat :: k < s.repeatCount ==> SameNames(evaluate(c, 0).scores, evaluate(c, k).scores))
    && (forall k: nat :: k < s.repeatCount ==> evaluate(c, k).metrics == evaluate(c, 0).metrics)
    && (s.mode == Verify ==> Has(c.scores, s.decision))
  }

  lemma SameNamesHas(a: Scores, b: Scores, name: string)
    requires SameNames(a, b) && Has(a, name)
    ensures Has(b, name)
  {
    var i :| 0 <= i < |a| && a[i].name == name;
    assert |Names(a)| == |b| && Names(b)[i] == Names(a)[i] == b[i].name;
  }

  // -- the accumulated maximum is the checker's --------------------------------------

  lemma {:induction false} MaxOfIs(xs: seq<real>)
    ensures MaxOf(xs) >= 0.0
    ensures forall i :: 0 <= i < |xs| ==> xs[i] <= MaxOf(xs)
    ensures MaxOf(xs) == 0.0 || MaxOf(xs) in xs
  {
    if |xs| > 0 {
      MaxOfIs(xs[..|xs| - 1]);
    }
  }

  ghost predicate Uniform(repeats: seq<Scores>) {
    |repeats| > 0 && forall i :: 0 <= i < |repeats| ==>
        SameNames(repeats[0], repeats[i]) && |repeats[i]| == |repeats[0]|
  }

  /** The distance between the first and the k-th value of the i-th name. */
  function Delta(repeats: seq<Scores>, k: nat, i: nat): real
    requires 0 < k < |repeats| && i < |repeats[0]| && i < |repeats[k]|
  {
    Abs(repeats[k][i].value - repeats[0][i].value)
  }

  lemma {:induction false} DeltasAre(repeats: seq<Scores>, n: nat, d: real)
    requires Uniform(repeats) && 0 < n <= |repeats|
    ensures d in Deltas(repeats, n) <==> exists k, i :: 1 <= k < n && 0 <= i < |repeats[0]| && Delta(repeats, k, i) == d
  {
    if n > 1 {
      DeltasAre(repeats, n - 1, d);
      var last := RepeatDeltas(repeats[0], repeats[n - 1]);
      if d in last {
        var i :| 0 <= i < |last| && last[i] == d;
        assert Delta(repeats, n - 1, i) == d;
      }
      if k, i :| 1 <= k < n && 0 <= i < |repeats[0]| && Delta(repeats, k, i) == d {
        if k == n - 1 {
          assert last[i] == d;
        }
      }
    }
  }

  /** Whatever the order of the comparisons, their maximum is the same. */
  lemma MaximumIsDeltas(repeats: seq<Scores>, m: real)
    requires Uniform(repeats) && m >= 0.0
    requires forall k, i :: 1 <= k < |repeats| && 0 <= i < |repeats[0]| ==> Delta(repeats, k, i) <= m
    requires m == 0.0 || exists k, i :: 1 <= k < |repeats| && 0 <= i < |repeats[0]| && Delta(repeats, k, i) == m
    ensures m == MaxOf(Deltas(repeats, |repeats|))
  {
    var all := Deltas(repeats, |repeats|);
    MaxOfIs(all);
    DeltasAre(repeats, |repeats|, m);
    DeltasAre(repeats, |repeats|, MaxOf(all));
    if m in all {
      var j :| 0 <= j < |all| && all[j] == m;
    }
  }

  /** The inner loop: one name, all later repeats. */
  method CompareName(s: Settings, repeats: seq<Scores>, i: nat, before: real) returns (maximum: real, close: bool)
    requires Uniform(repeats) && i < |repeats[0]|
    ensures maximum >= before && forall k :: 1 <= k < |repeats| ==> Delta(repeats, k, i) <= maximum
    ensures maximum == before || exists k :: 1 <= k < |repeats| && Delta(repeats, k, i) == maximum
    ensures close <==> forall k :: 1 <= k < |repeats| ==> Close(s, repeats[k][i].value, repeats[0][i].value)
  {
    maximum, close := before, true;
    for k := 1 to |repeats|
      invariant maximum >= before && forall l :: 1 <= l < k ==> Delta(repeats, l, i) <= maximum
      invariant maximum == before || exists l :: 1 <= l < |repeats| && Delta(repeats, l, i) == maximum
      invariant close <==> forall l :: 1 <= l < k ==> Close(s, repeats[l][i].value, repeats[0][i].value)
    {
      var delta := Delta(repeats, k, i);
      maximum := Max(maximum, delta);
      if !Close(s, repeats[k][i].value, repeats[0][i].value) {
        close := false;
      }
    }
  }

  /** The two nested loops over names and repeats. */
  method CompareRepeats(s: Settings, repeats: seq<Scores>) returns (maximum: real, close: bool)
    requires Uniform(repeats)
    ensures maximum >= 0.0 && maximum == MaxOf(Deltas(repeats, |repeats|))
    ensures close <==> RepeatsClose(s, repeats)
  {
    maximum, close := 0.0, true;
    for i := 0 to |repeats[0]|
      invariant maximum >= 0.0
      invariant forall k, j :: 1 <= k < |repeats| && 0 <= j < i ==> Delta(repeats, k, j) <= maximum
      invariant
        || maximum == 0.0
        || (exists k, j :: 1 <= k < |repeats| && 0 <= j < |repeats[0]| && Delta(repeats, k, j) == maximum)
      invariant close <==>
                (forall k, j :: 1 <= k < |repeats| && 0 <= j < i ==>
                   Close(s, repeats[k][j].value, repeats[0][j].value))
    {
      var within: bool;
      maximum, within := CompareName(s, repeats, i, maximum);
      close := close && within;
    }
    MaximumIsDeltas(repeats, maximum);
  }

  // -- one candidate -------------------------------------------------------------------

  method Evaluate(s: Settings, evaluate: Evaluator, c: Candidate)
    returns (r: Result<seq<Evaluation>, ReplayError>)
    requires s.repeatCount >= 2
    ensures r.Ok? ==> |r.value| == s.repeatCount && forall k: nat :: k < s.repeatCount ==> r.value[k] == evaluate(c, k)
    ensures r.Ok? <==> Replayable(s.(mode := Rerank), evaluate, c)
    ensures r == Err(MissingDecision(c.id)) <==> !Has(evaluate(c, 0).scores, s.decision)
    ensures r.Err? ==> r.error !in {TooFewRepeats, NegativeTolerance}
  {
    var evaluations := seq(s.repeatCount, k requires 0 <= k < s.repeatCount => evaluate(c, k));
    var first := evaluations[0];
    if !Has(first.scores, s.decision) {
      return Err(MissingDecision(c.id));
    }
    if exists k :: 0 <= k < |evaluations| && !SameNames(first.scores, evaluations[k].scores) {
      return Err(NamesChanged);
    }
    if exists k :: 0 <= k < |evaluations| && evaluations[k].metrics != first.metrics {
      return Err(MetricsChanged);
    }
    assert forall k: nat :: k < s.repeatCount ==> evaluations[k] == evaluate(c, k);
    return Ok(evaluations);
  }

  /** An observation written from uniform repeats is one the checker accepts. */
  lemma BuiltFits(s: Settings, o: Observation)
    requires WellFormed(o.stored) && WellFormed(o.observed) && Uniform(o.repeats) && o.observed == o.repeats[0]
    requires |o.repeats| == s.repeatCount && Has(o.observed, s.decision)
    requires o.maximumDelta >= 0.0 && o.maximumDelta == MaxOf(Deltas(o.repeats, |o.repeats|))
    requires o.storedDelta.Some? ==> o.storedDelta.value >= 0.0
    requires if s.mode == Rerank then o.storedDelta == None else StoredDeltaRight(s, o)
    ensures ObservationFits(s, o)
  {
  }

  /** The decision scores against the stored one. */
  method CompareStored(s: Settings, repeats: seq<Scores>, stored: Scores) returns (delta: Option<real>, verified: bool)
    requires Has(stored, s.decision) && forall k :: 0 <= k < |repeats| ==> Has(repeats[k], s.decision)
    ensures delta == Some(MaxOf(StoredDeltas(repeats, s.decision, Value(stored, s.decision)))) && delta.value >= 0.0
    ensures verified <==> DecisionsClose(s, repeats, Value(stored, s.decision))
  {
    var deltas := StoredDeltas(repeats, s.decision, Value(stored, s.decision));
    MaxOfIs(deltas);
    delta := Some(MaxOf(deltas));
    verified := DecisionsClose(s, repeats, Value(stored, s.decision));
  }

  /** From the repeats' scores to the observation and its two flags; None when there is
      no stored decision score to verify. */
  method Observe(s: Settings, c: Candidate, repeats: seq<Scores>, metrics: string)
    returns (o: Option<Observation>, close: bool, verified: bool)
    requires Uniform(repeats) && |repeats| == s.repeatCount
    requires WellFormed(repeats[0]) && WellFormed(c.scores) && Has(repeats[0], s.decision)
    ensures o.None? <==> s.mode == Verify && !Has(c.scores, s.decision)
    ensures o.Some? ==> o.value.id == c.id && o.value.stored == c.scores && o.value.repeats == repeats
    ensures o.Some? ==> o.value.metrics == metrics
    ensures o.Some? ==> ObservationFits(s, o.value) && (close <==> AllClose(s, o.value))
    ensures o.Some? && s.mode == Verify ==> (verified <==> StoredClose(s, o.value))
  {
    var maximum, within := CompareRepeats(s, repeats);
    close, verified := within, true;
    forall k | 0 <= k < |repeats| ensures Has(repeats[k], s.decision) {
      SameNamesHas(repeats[0], repeats[k], s.decision);
    }
    var storedDelta: Option<real> := None;
    if s.mode == Verify {
      if !Has(c.scores, s.decision) {
        return None, true, true;
      }
      storedDelta, verified := CompareStored(s, repeats, c.scores);
    }
    var built := Observation(c.id, c.scores, repeats[0], repeats, metrics, maximum, storedDelta);
    BuiltFits(s, built);
    return Some(built), close, verified;
  }

  function ScoresOf(evaluations: seq<Evaluation>): (repeats: seq<Scores>)
    ensures |repeats| == |evaluations| && forall k :: 0 <= k < |repeats| ==> repeats[k] == evaluations[k].scores
  {
    seq(|evaluations|, k requires 0 <= k < |evaluations| => evaluations[k].scores)
  }

  lemma UniformRepeats(repeats: seq<Scores>)
    requires |repeats| > 0 && forall k :: 0 <= k < |repeats| ==> SameNames(repeats[0], repeats[k])
    ensures Uniform(repeats)
  {
    forall k | 0 <= k < |repeats| ensures |repeats[k]| == |repeats[0]| {
      assert |Names(repeats[k])| == |Names(repeats[0])|;
    }
  }

  /** Score mappings are validated when they are constructed. */
  ghost predicate Validated(evaluate: Evaluator, c: Candidate) {
    WellFormed(c.scores) && forall k: nat :: WellFormed(evaluate(c, k).scores)
  }

  /** An observation of this candidate that the checker will accept. */
  ghost predicate Observed(s: Settings, evaluate: Evaluator, c: Candidate, o: Observation) {
    && o.id == c.id && o.stored == c.scores && o.metrics == evaluate(c, 0).metrics
    && |o.repeats| == s.repeatCount && (forall k: nat :: k < s.repeatCount ==> o.repeats[k] == evaluate(c, k).scores)
    && ObservationFits(s, o)
  }

  /** The body of the candidate loop. */
  method ReplayCandidate(s: Settings, evaluate: Evaluator, c: Candidate)
    returns (r: Result<Observation, ReplayError>, close: bool, verified: bool)
    requires s.repeatCount >= 2 && Validated(evaluate, c)
    ensures r.Ok? <==> Replayable(s, evaluate, c)
    ensures r.Err? ==> r.error !in {TooFewRepeats, NegativeTolerance}
    ensures r.Ok? ==> Observed(s, evaluate, c, r.value) && (close <==> AllClose(s, r.value))
    ensures r.Ok? && s.mode == Verify ==> (verified <==> StoredClose(s, r.value))
  {
    var evaluated := Evaluate(s, evaluate, c);
    if evaluated.Err? {
      return Err(evaluated.error), true, true;
    }
    var evaluations := evaluated.value;
    var repeats := ScoresOf(evaluations);
    UniformRepeats(repeats);
    var o, within, kept := Observe(s, c, repeats, evaluations[0].metrics);
    if o.None? {
      return Err(StoredLacksDecision), true, true;
    }
    return Ok(o.value), within, kept;
  }

  // -- the batch -------------------------------------------------------------------------

  /** Ranking keeps every candidate exactly once. */
  lemma RankingIds(os: seq<Observation>, less: Order<Observation>)
    ensures forall id :: id in IdsOf(Sort(os, less)) <==> id in IdsOf(os)
  {
    var ranked := Sort(os, less);
    forall id ensures id in IdsOf(ranked) <==> id in IdsOf(os) {
      if id in IdsOf(ranked) {
        var i :| 0 <= i < |ranked| && ranked[i].id == id;
        SortMember(os, less, ranked[i]);
        var j :| 0 <= j < |os| && os[j] == ranked[i];
        assert IdsOf(os)[j] == id;
      }
      if id in IdsOf(os) {
        var i :| 0 <= i < |os| && os[i].id == id;
        SortMember(os, less, os[i]);
        var j :| 0 <= j < |ranked| && ranked[j] == os[i];
        assert IdsOf(ranked)[j] == id;
      }
    }
  }

  ghost predicate AllReplayable(s: Settings, evaluate: Evaluator, candidates: seq<Candidate>) {
    forall i :: 0 <= i < |candidates| ==> Replayable(s, evaluate, candidates[i])
  }

  ghost predicate AllValidated(evaluate: Evaluator, candidates: seq<Candidate>) {
    forall i :: 0 <= i < |candidates| ==> Validated(evaluate, candidates[i])
  }

  ghost predicate AllObserved(s: Settings, evaluate: Evaluator, candidates: seq<Candidate>, os: seq<Observation>) {
    |os| == |candidates| && forall i :: 0 <= i < |os| ==>
      Replayable(s, evaluate, candidates[i]) && Observed(s, evaluate, candidates[i], os[i])
  }

  /** The loop's state after n candidates. */
  ghost predicate Progress(s: Settings, evaluate: Evaluator, candidates: seq<Candidate>, n: nat,
                           os: seq<Observation>, deterministic: bool, stored: bool)
    requires n <= |candidates|
  {
    && AllObserved(s, evaluate, candidates[..n], os)
    && (deterministic <==> EveryAllClose(s, os))
    && (s.mode == Verify ==> (stored <==> EveryStoredClose(s, os)))
  }

  lemma OneMoreObserved(s: Settings, evaluate: Evaluator, candidates: seq<Candidate>, n: nat, os: seq<Observation>,
                        o: Observation)
    requires n < |candidates| && AllObserved(s, evaluate, candidates[..n], os)
    requires Replayable(s, evaluate, candidates[n]) && Observed(s, evaluate, candidates[n], o)
    ensures AllObserved(s, evaluate, candidates[..n + 1], os + [o])
  {
    var more, cs := os + [o], candidates[..n + 1];
    forall i | 0 <= i < |more| ensures Replayable(s, evaluate, cs[i]) && Observed(s, evaluate, cs[i], more[i]) {
      if i < n {
        assert more[i] == os[i] && cs[i] == candidates[..n][i];
      }
    }
  }

  lemma OneMoreClose(s: Settings, os: seq<Observation>, o: Observation)
    ensures EveryAllClose(s, os + [o]) <==> EveryAllClose(s, os) && AllClose(s, o)
    ensures EveryStoredClose(s, os + [o]) <==> EveryStoredClose(s, os) && StoredClose(s, o)
  {
    var more := os + [o];
    assert more[|os|] == o;
    assert forall i :: 0 <= i < |os| ==> more[i] == os[i];
  }

  lemma ProgressStep(s: Settings, evaluate: Evaluator, candidates: seq<Candidate>, n: nat, os: seq<Observation>,
                     deterministic: bool, stored: bool, o: Observation, close: bool, verified: bool)
    requires n < |candidates| && Progress(s, evaluate, candidates, n, os, deterministic, stored)
    requires Replayable(s, evaluate, candidates[n]) && Observed(s, evaluate, candidates[n], o)
    requires close <==> AllClose(s, o)
    requires s.mode == Verify ==> (verified <==> StoredClose(s, o))
    ensures Progress(s, evaluate, candidates, n + 1, os + [o], close && deterministic,
                     if s.mode == Verify then stored && verified else stored)
  {
    OneMoreObserved(s, evaluate, candidates, n, os, o);
    OneMoreClose(s, os, o);
  }

  lemma ProgressDone(s: Settings, evaluate: Evaluator, candidates: seq<Candidate>, os: seq<Observation>,
                     deterministic: bool, stored: bool)
    requires Progress(s, evaluate, candidates, |candidates|, os, deterministic, stored)
    ensures AllObserved(s, evaluate, candidates, os) && AllReplayable(s, evaluate, candidates)
  {
    assert candidates[..|candidates|] == candidates;
  }

  method ObserveAll(s: Settings, candidates: seq<Candidate>, evaluate: Evaluator)
    returns (r: Result<seq<Observation>, ReplayError>, deterministic: bool, storedVerified: bool)
    requires s.repeatCount >= 2 && AllValidated(evaluate, candidates)
    ensures r.Ok? <==> AllReplayable(s, evaluate, candidates)
    ensures r.Err? ==> r.error !in {TooFewRepeats, NegativeTolerance}
    ensures r.Ok? ==> AllObserved(s, evaluate, candidates, r.value) && (deterministic <==> EveryAllClose(s, r.value))
    ensures r.Ok? && s.mode == Verify ==> (storedVerified <==> EveryStoredClose(s, r.value))
  {
    var observations: seq<Observation> := [];
    deterministic, storedVerified := true, true;
    for n := 0 to |candidates|
      invariant Progress(s, evaluate, candidates, n, observations, deterministic, storedVerified)
    {
      var observed, close, verified := ReplayCandidate(s, evaluate, candidates[n]);
      if observed.Err? {
        assert !Replayable(s, evaluate, candidates[n]);
        return Err(observed.error), deterministic, storedVerified;
      }
      ProgressStep(s, evaluate, candidates, n, observations, deterministic, storedVerified, observed.value, close,
          verified);
      if !close {
        deterministic := false;
      }
      if s.mode == Verify {
        storedVerified := storedVerified && verified;
      }
      observations := observations + [observed.value];
    }
    ProgressDone(s, evaluate, candidates, observations, deterministic, storedVerified);
    return Ok(observations), deterministic, storedVerified;
  }

  /** The evidence made of the observations and the accumulated flags. */
  function Assemble(s: Settings, candidates: seq<Candidate>, os: seq<Observation>, deterministic: bool,
                    storedVerified: bool): (e: Evidence)
    ensures |e.candidateIds| == |candidates| && forall i :: 0 <= i < |candidates| ==>
              e.candidateIds[i] == candidates[i].id
  {
    Evidence(s, seq(|candidates|, i requires 0 <= i < |candidates| => candidates[i].id), os,
        IdsOf(Sort(os, RankOrder(s))),
             deterministic, if s.mode == Verify then Some(storedVerified) else None)
  }

  lemma RankingIsAccepted(e: Evidence)
    requires IdsOf(e.observations) == e.candidateIds
    requires e.ranking == IdsOf(Sort(e.observations, RankOrder(e.settings)))
    ensures RankingAccepted(e)
  {
    RankingIds(e.observations, RankOrder(e.settings));
  }

  lemma Assembled(s: Settings, evaluate: Evaluator, candidates: seq<Candidate>, e: Evidence)
    requires s.repeatCount >= 2 && s.absolute >= 0.0 && s.relative >= 0.0
    requires |candidates| > 0 && forall i, j :: 0 <= i < j < |candidates| ==> candidates[i].id != candidates[j].id
    requires AllObserved(s, evaluate, candidates, e.observations) && e.settings == s && FlagsAccepted(e)
    requires |e.candidateIds| == |candidates| && forall i :: 0 <= i < |candidates| ==>
              e.candidateIds[i] == candidates[i].id
    requires e.ranking == IdsOf(Sort(e.observations, RankOrder(s)))
    ensures Accepted(e)
  {
    assert IdsOf(e.observations) == e.candidateIds;
    RankingIsAccepted(e);
    assert HeaderAccepted(e);
    forall i | 0 <= i < |e.observations| ensures ObservationFits(s, e.observations[i]) {
      assert Observed(s, evaluate, candidates[i], e.observations[i]);
    }
  }

  /** Whatever the producer writes, the checker accepts. */
  method ReplayCandidateBatch(s: Settings, candidates: seq<Candidate>, evaluate: Evaluator)
    returns (r: Result<Evidence, ReplayError>)
    requires |candidates| > 0 && forall i, j :: 0 <= i < j < |candidates| ==> candidates[i].id != candidates[j].id
    requires AllValidated(evaluate, candidates)
    ensures r == Err(TooFewRepeats) <==> s.repeatCount < 2
    ensures r == Err(NegativeTolerance) <==> s.repeatCount >= 2 && (s.absolute < 0.0 || s.relative < 0.0)
    ensures r.Ok? <==>
            s.repeatCount >= 2 && s.absolute >= 0.0 && s.relative >= 0.0 && AllReplayable(s, evaluate, candidates)
    ensures r.Ok? ==> Accepted(r.value) && r.value.settings == s
    ensures r.Ok? ==> AllObserved(s, evaluate, candidates, r.value.observations)
  {
    if s.repeatCount < 2 {
      return Err(TooFewRepeats);
    }
    if s.absolute < 0.0 || s.relative < 0.0 {
      return Err(NegativeTolerance);
    }
    var observed, deterministic, storedVerified := ObserveAll(s, candidates, evaluate);
    if observed.Err? {
      return Err(observed.error);
    }
    var observations := observed.value;
    var e := Assemble(s, candidates, observations, deterministic, storedVerified);
    Assembled(s, evaluate, candidates, e);
    return Ok(e);
  }
}
