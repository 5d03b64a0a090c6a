/** Replaying candidates: the loops that build the evidence, and the closed-form checks
    that a reader of the evidence makes on its own. */
module ReplayEvidence {
  import opened Results
  import opened StableSort

  /** An ordered mapping of score names to numbers. */
  datatype Named = Named(name: string, value: real)

  type Scores = seq<Named>

  ghost predicate WellFormed(s: Scores) {
    |s| > 0 && forall i, j :: 0 <= i < j < |s| ==> s[i].name != s[j].name
  }

  function Names(s: Scores): (names: seq<string>)
    ensures |names| == |s| && forall i :: 0 <= i < |s| ==> names[i] == s[i].name
  {
    seq(|s|, i requires 0 <= i < |s| => s[i].name)
  }

  predicate Has(s: Scores, name: string) {
    exists i :: 0 <= i < |s| && s[i].name == name
  }

  function Value(s: Scores, name: string): real
    requires Has(s, name)
  {
    if s[0].name == name then s[0].value
    else
      assert forall i :: 0 < i < |s| ==> s[i] == s[1..][i - 1];
      Value(s[1..], name)
  }

  datatype Mode = Verify | Rerank

  datatype Candidate = Candidate(id: nat, scores: Scores)

  datatype Evaluation = Evaluation(scores: Scores, metrics: string)

  datatype Observation = Observation(
    id: nat, stored: Scores, observed: Scores, repeats: seq<Scores>, metrics: string,
    maximumDelta: real, storedDelta: Option<real>)

  datatype Settings = Settings(
    mode: Mode, decision: string, higherIsBetter: bool, repeatCount: int, absolute: real, relative: real)

  datatype Evidence = Evidence(
    settings: Settings, candidateIds: seq<nat>, observations: seq<Observation>, ranking: seq<nat>,
    deterministic: bool, storedVerified: Option<bool>)

  function Abs(x: real): real {
    if x < 0.0 then -x else x
  }

  function Max(x: real, y: real): real {
    if x < y then y else x
  }

  /** math.isclose over the reals. */
  predicate Close(s: Settings, a: real, b: real) {
    Abs(a - b) <= Max(s.relative * Max(Abs(a), Abs(b)), s.absolute)
  }

  // -- the checker -----------------------------------------------------------------

  /** Largest element, or zero. */
  function MaxOf(xs: seq<real>): real {
    if |xs| == 0 then 0.0 else Max(MaxOf(xs[..|xs| - 1]), xs[|xs| - 1])
  }

  predicate SameNames(a: Scores, b: Scores) {
    Names(a) == Names(b)
  }

  /** |item[name] - repeats[0][name]| for the names of one later repeat, in order. */
  function RepeatDeltas(first: Scores, item: Scores): (d: seq<real>)
    requires SameNames(first, item)
    ensures |d| == |first|
  {
    assert |first| == |Names(first)| == |item|;
    seq(|first|, i requires 0 <= i < |first| => Abs(item[i].value - first[i].value))
  }

  /** Repeat by repeat, and name by name within each. */
  function Deltas(repeats: seq<Scores>, k: nat): seq<real>
    requires 0 < k <= |repeats| && forall i :: 0 <= i < |repeats| ==> SameNames(repeats[0], repeats[i])
  {
    if k == 1 then [] else Deltas(repeats, k - 1) + RepeatDeltas(repeats[0], repeats[k - 1])
  }

  ghost predicate ObservationAccepted(o: Observation) {
    && WellFormed(o.stored) && WellFormed(o.observed)
    && |o.repeats| > 0
    && (forall i :: 0 <= i < |o.repeats| ==> SameNames(o.observed, o.repeats[i]))
    && o.repeats[0] == o.observed
    && o.maximumDelta >= 0.0 && o.maximumDelta == MaxOf(Deltas(o.repeats, |o.repeats|))
    && (o.storedDelta.Some? ==> o.storedDelta.value >= 0.0)
  }

  /** Every later value is close to the first of its name. */
  ghost predicate RepeatsClose(s: Settings, repeats: seq<Scores>) {
    forall k, i :: 1 <= k < |repeats| && 0 <= i < |repeats[0]| && i < |repeats[k]|
      ==> Close(s, repeats[k][i].value, repeats[0][i].value)
  }

  ghost predicate AllClose(s: Settings, o: Observation) {
    RepeatsClose(s, o.repeats)
  }

  predicate DecisionsClose(s: Settings, repeats: seq<Scores>, stored: real) {
    forall k :: 0 <= k < |repeats| && Has(repeats[k], s.decision) ==> Close(s, Value(repeats[k], s.decision), stored)
  }

  ghost predicate StoredClose(s: Settings, o: Observation) {
    Has(o.stored, s.decision) && DecisionsClose(s, o.repeats, Value(o.stored, s.decision))
  }

  ghost predicate EveryAllClose(s: Settings, os: seq<Observation>) {
    forall i :: 0 <= i < |os| ==> AllClose(s, os[i])
  }

  ghost predicate EveryStoredClose(s: Settings, os: seq<Observation>) {
    forall i :: 0 <= i < |os| ==> StoredClose(s, os[i])
  }

  function StoredDeltas(repeats: seq<Scores>, decision: string, stored: real): (d: seq<real>)
    requires forall k :: 0 <= k < |repeats| ==> Has(repeats[k], decision)
    ensures |d| == |repeats| && forall k :: 0 <= k < |d| ==> d[k] == Abs(Value(repeats[k], decision) - stored)
  {
    seq(|repeats|, k requires 0 <= k < |repeats| => Abs(Value(repeats[k], decision) - stored))
  }

  function Decision(s: Settings, o: Observation): real {
    if Has(o.observed, s.decision) then Value(o.observed, s.decision) else 0.0
  }

  /** The sort key (-score, id) or (score, id). */
  function RankOrder(s: Settings): Order<Observation> {
    (x: Observation, y: Observation) =>
      var a, b := Decision(s, x), Decision(s, y);
      (if s.higherIsBetter then a > b else a < b) || (a == b && x.id < y.id)
  }

  function IdsOf(os: seq<Observation>): (ids: seq<nat>)
    ensures |ids| == |os| && forall i :: 0 <= i < |os| ==> ids[i] == os[i].id
  {
    seq(|os|, i requires 0 <= i < |os| => os[i].id)
  }

  ghost predicate HeaderAccepted(e: Evidence) {
    && e.settings.repeatCount >= 2 && e.settings.absolute >= 0.0 && e.settings.relative >= 0.0
    && |e.candidateIds| > 0
    && (forall i, j :: 0 <= i < j < |e.candidateIds| ==> e.candidateIds[i] != e.candidateIds[j])
  }

  /** stored_score_delta is the largest distance of a repeat's decision score from the stored one. */
  ghost predicate StoredDeltaRight(s: Settings, o: Observation) {
    && Has(o.stored, s.decision) && (forall k :: 0 <= k < |o.repeats| ==> Has(o.repeats[k], s.decision))
    && o.storedDelta == Some(MaxOf(StoredDeltas(o.repeats, s.decision, Value(o.stored, s.decision))))
  }

  /** What is asked of the observations one by one. */
  ghost predicate ObservationFits(s: Settings, o: Observation) {
    ObservationAccepted(o) && |o.repeats| == s.repeatCount && Has(o.observed, s.decision)
      && if s.mode == Rerank then o.storedDelta == None else StoredDeltaRight(s, o)
  }

  ghost predicate RankingAccepted(e: Evidence) {
    && |e.ranking| == |e.candidateIds| && (forall id :: id in e.ranking <==> id in e.candidateIds)
    && e.ranking == IdsOf(Sort(e.observations, RankOrder(e.settings)))
  }

  ghost predicate FlagsAccepted(e: Evidence) {
    && e.deterministic == EveryAllClose(e.settings, e.observations)
    && e.storedVerified ==
       if e.settings.mode == Rerank then None else Some(EveryStoredClose(e.settings, e.observations))
  }

  /** CandidateReplayEvidence.__post_init__, with the observations' own checks. */
  ghost predicate Accepted(e: Evidence) {
    && HeaderAccepted(e)
    && IdsOf(e.observations) == e.candidateIds
    && (forall i :: 0 <= i < |e.observations| ==> ObservationFits(e.settings, e.observations[i]))
    && RankingAccepted(e)
    && FlagsAccepted(e)
  }

  ghost predicate SameMeasured(x: Observation, y: Observation) {
    y == x.(maximumDelta := y.maximumDelta, storedDelta := y.storedDelta)
  }

  /** The parts of the evidence that the producer is free to write: all the checker
      leaves open is what was measured. */
  ghost predicate SameMeasurements(a: Evidence, b: Evidence) {
    && a.settings == b.settings && a.candidateIds == b.candidateIds && |a.observations| == |b.observations|
    && forall i :: 0 <= i < |a.observations| ==>
         SameMeasured(a.observations[i], b.observations[i])
  }

  lemma DeltasDetermined(s: Settings, x: Observation, y: Observation)
    requires SameMeasured(x, y) && ObservationFits(s, x) && ObservationFits(s, y)
    ensures x == y
  {
  }

  lemma FlagsDetermined(a: Evidence, b: Evidence)
    requires a.settings == b.settings && a.candidateIds == b.candidateIds && a.observations == b.observations
    requires RankingAccepted(a) && RankingAccepted(b) && FlagsAccepted(a) && FlagsAccepted(b)
    ensures a == b
  {
  }

  lemma ObservationsDetermined(s: Settings, a: seq<Observation>, b: seq<Observation>)
    requires |a| == |b| && forall i :: 0 <= i < |a| ==> SameMeasured(a[i], b[i])
    requires forall i :: 0 <= i < |a| ==> ObservationFits(s, a[i]) && ObservationFits(s, b[i])
    ensures a == b
  {
    forall i | 0 <= i < |a| ensures a[i] == b[i] {
      DeltasDetermined(s, a[i], b[i]);
    }
  }

  /** The checker leaves nothing but the measurements open. */
  lemma MeasurementsDetermineEvidence(a: Evidence, b: Evidence)
    requires Accepted(a) && Accepted(b) && SameMeasurements(a, b)
    ensures a == b
  {
    ObservationsDetermined(a.settings, a.observations, b.observations);
    FlagsDetermined(a, b);
  }
}
