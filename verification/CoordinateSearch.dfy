/** Coordinate search and annealing over the free variables of a key space.
    The evaluator is any function of the variables; every draw of the random
    generator is an argument. */
module CoordinateSearch {
  import opened Results
  import opened Permutations

  const ALPHABET_SIZE: nat := 29
  const EPS: real := 0.000000000000001

  type Variables = seq<nat>
  type Evaluator = Variables -> real

  ghost predicate InAlphabet(v: Variables) {
    forall i :: 0 <= i < |v| ==> v[i] < ALPHABET_SIZE
  }

  function With(v: Variables, i: nat, c: nat): (w: Variables)
    requires i < |v|
    ensures |w| == |v| && w[i] == c && forall j :: 0 <= j < |v| && j != i ==> w[j] == v[j]
  {
    v[i := c]
  }

  /** No single coordinate change beats v by more than EPS. */
  ghost predicate LocallyOptimal(evaluate: Evaluator, v: Variables) {
    forall i, c :: 0 <= i < |v| && 0 <= c < ALPHABET_SIZE ==> evaluate(With(v, i, c)) <= evaluate(v) + EPS
  }

  /** c is the first of the best of the 29 symbols at coordinate i. */
  ghost predicate FirstBest(evaluate: Evaluator, v: Variables, i: nat, c: nat)
    requires i < |v|
  {
    && c < ALPHABET_SIZE
    && (forall d :: 0 <= d < ALPHABET_SIZE ==> evaluate(With(v, i, d)) <= evaluate(With(v, i, c)))
    && (forall d :: 0 <= d < c ==> evaluate(With(v, i, d)) < evaluate(With(v, i, c)))
  }

  /** np.argmax over one coordinate's 29 candidates. */
  method ArgMax(evaluate: Evaluator, v: Variables, index: nat) returns (best: nat)
    requires index < |v|
    ensures FirstBest(evaluate, v, index, best)
  {
    best := 0;
    for c := 1 to ALPHABET_SIZE
      invariant best < c
      invariant forall d :: 0 <= d < c ==> evaluate(With(v, index, d)) <= evaluate(With(v, index, best))
      invariant forall d :: 0 <= d < best ==> evaluate(With(v, index, d)) < evaluate(With(v, index, best))
    {
      if evaluate(With(v, index, c)) > evaluate(With(v, index, best)) {
        best := c;
      }
    }
  }

  /** One coordinate's turn: w takes the first best symbol if that gains more than EPS. */
  ghost predicate Turn(evaluate: Evaluator, v: Variables, i: nat, w: Variables)
    requires i < |v|
  {
    exists c: nat :: FirstBest(evaluate, v, i, c)
      && w == if evaluate(With(v, i, c)) > evaluate(v) + EPS then With(v, i, c) else v
  }

  /** The states of one sweep: coordinate by coordinate in the drawn order. */
  ghost predicate IsSweep(evaluate: Evaluator, order: seq<nat>, states: seq<Variables>) {
    && |states| == |order| + 1
    && forall k :: 0 <= k < |order| ==> order[k] < |states[k]| && Turn(evaluate, states[k], order[k], states[k + 1])
  }

  lemma FirstBestUnique(evaluate: Evaluator, v: Variables, i: nat, c: nat, d: nat)
    requires i < |v| && FirstBest(evaluate, v, i, c) && FirstBest(evaluate, v, i, d)
    ensures c == d
  {
    assert evaluate(With(v, i, c)) <= evaluate(With(v, i, d)) <= evaluate(With(v, i, c));
  }

  /** Where a sweep ends is determined by where it starts. */
  lemma {:induction false} SweepDetermined(evaluate: Evaluator, order: seq<nat>, a: seq<Variables>, b: seq<Variables>,
                                           k: nat)
    requires IsSweep(evaluate, order, a) && IsSweep(evaluate, order, b) && a[0] == b[0] && k <= |order|
    ensures a[k] == b[k]
  {
    if k > 0 {
      SweepDetermined(evaluate, order, a, b, k - 1);
      var v, i := a[k - 1], order[k - 1];
      var c: nat :| FirstBest(evaluate, v, i, c) &&
          a[k] == if evaluate(With(v, i, c)) > evaluate(v) + EPS then With(v, i, c) else v;
      var d: nat :| FirstBest(evaluate, v, i, d) &&
          b[k] == if evaluate(With(v, i, d)) > evaluate(v) + EPS then With(v, i, d) else v;
      FirstBestUnique(evaluate, v, i, c, d);
    }
  }

  /** In a sweep each coordinate in turn is given the smallest of its best symbols, if that gains
      more than EPS, and stays otherwise. */
  lemma SweepTakes(evaluate: Evaluator, order: seq<nat>, states: seq<Variables>, k: nat) returns (c: nat)
    requires IsSweep(evaluate, order, states) && k < |order|
    ensures c < 29 && order[k] < |states[k]|
    ensures var v, i := states[k], order[k];
            && (forall d: nat :: d < 29 ==> evaluate(With(v, i, d)) <= evaluate(v[i := c]))
            && (forall d: nat :: d < c ==> evaluate(With(v, i, d)) < evaluate(v[i := c]))
            && states[k + 1] == if evaluate(v[i := c]) > evaluate(v) + EPS then v[i := c] else v
  {
    var v, i := states[k], order[k];
    c :| FirstBest(evaluate, v, i, c)
      && states[k + 1] == if evaluate(With(v, i, c)) > evaluate(v) + EPS then With(v, i, c) else v;
    assert With(v, i, c) == v[i := c];
  }

  lemma SweepGrows(evaluate: Evaluator, order: seq<nat>, k: nat, states: seq<Variables>, next: Variables)
    requires k < |order| && IsSweep(evaluate, order[..k], states)
    requires order[k] < |states[k]| && Turn(evaluate, states[k], order[k], next)
    ensures IsSweep(evaluate, order[..k + 1], states + [next])
  {
    var more := states + [next];
    forall j | 0 <= j < k + 1 ensures order[j] < |more[j]| && Turn(evaluate, more[j], order[j], more[j + 1]) {
      if j < k {
        assert order[..k][j] == order[j] && more[j] == states[j] && more[j + 1] == states[j + 1];
      }
    }
  }

  lemma UnimprovedIsOptimal(evaluate: Evaluator, order: seq<nat>, v: Variables, score: real)
    requires IsPerm(order, |v|) && score == evaluate(v)
    requires forall j, c :: 0 <= j < |v| && 0 <= c < ALPHABET_SIZE ==> evaluate(With(v, order[j], c)) <= score + EPS
    ensures LocallyOptimal(evaluate, v)
  {
    forall i, c | 0 <= i < |v| && 0 <= c < ALPHABET_SIZE ensures evaluate(With(v, i, c)) <= evaluate(v) + EPS {
      var j := IndexOf(order, |v|, i);
      assert evaluate(With(v, order[j], c)) <= score + EPS;
    }
  }

  /** One sweep over the coordinates in the drawn order. */
  method Sweep(evaluate: Evaluator, order: seq<nat>, variables: Variables)
    returns (current: Variables, score: real, evaluations: nat, improved: bool, ghost states: seq<Variables>)
    requires IsPerm(order, |variables|)
    ensures IsSweep(evaluate, order, states) && states[0] == variables && states[|order|] == current
    ensures |current| == |variables| && score == evaluate(current)
    ensures InAlphabet(variables) ==> InAlphabet(current)
    ensures evaluations == ALPHABET_SIZE * |variables|
    ensures improved ==> score > evaluate(variables) + EPS
    ensures !improved ==> current == variables && LocallyOptimal(evaluate, variables)
  {
    current, score, evaluations, improved := variables, evaluate(variables), 0, false;
    states := [variables];
    for k := 0 to |order|
      invariant IsSweep(evaluate, order[..k], states) && states[0] == variables && states[k] == current
      invariant |current| == |variables| && score == evaluate(current)
      invariant InAlphabet(variables) ==> InAlphabet(current)
      invariant evaluations == ALPHABET_SIZE * k
      invariant improved ==> score > evaluate(variables) + EPS
      invariant !improved ==> current == variables
      invariant !improved ==> forall j, c :: 0 <= j < k && 0 <= c < ALPHABET_SIZE ==>
                evaluate(With(variables, order[j], c)) <= score + EPS
    {
      var index := order[k];
      var best := ArgMax(evaluate, current, index);
      evaluations := evaluations + ALPHABET_SIZE;
      var bestScore := evaluate(With(current, index, best));
      ghost var before := current;
      if bestScore > score + EPS {
        current, score, improved := With(current, index, best), bestScore, true;
      }
      assert Turn(evaluate, before, index, current);
      SweepGrows(evaluate, order, k, states, current);
      states := states + [current];
    }
    assert order[..|order|] == order;
    if !improved {
      UnimprovedIsOptimal(evaluate, order, variables, score);
    }
  }

  /** w is where one whole sweep in this order takes v. */
  ghost predicate SweepsTo(evaluate: Evaluator, order: seq<nat>, v: Variables, w: Variables) {
    exists states :: IsSweep(evaluate, order, states) && states[0] == v && states[|order|] == w
  }

  /** The states between the sweeps of a search: each sweep starts where the last one
      ended, and all but the last one improve. */
  ghost predicate IsSearch(evaluate: Evaluator, orders: nat -> seq<nat>, stops: seq<Variables>) {
    && |stops| > 0
    && (forall k: nat :: k + 1 < |stops| ==> SweepsTo(evaluate, orders(k), stops[k], stops[k + 1]))
    && (forall k: nat :: k + 2 < |stops| ==> evaluate(stops[k + 1]) > evaluate(stops[k]) + EPS)
  }

  lemma SearchGrows(evaluate: Evaluator, orders: nat -> seq<nat>, stops: seq<Variables>, next: Variables)
    requires IsSearch(evaluate, orders, stops) && SweepsTo(evaluate, orders(|stops| - 1), stops[|stops| - 1], next)
    requires forall j: nat :: j + 1 < |stops| ==> evaluate(stops[j + 1]) > evaluate(stops[j]) + EPS
    ensures IsSearch(evaluate, orders, stops + [next])
  {
    var more := stops + [next];
    forall k: nat | k + 1 < |more| ensures SweepsTo(evaluate, orders(k), more[k], more[k + 1]) {
      if k + 1 < |stops| {
        assert more[k] == stops[k] && more[k + 1] == stops[k + 1];
      }
    }
    forall k: nat | k + 2 < |more| ensures evaluate(more[k + 1]) > evaluate(more[k]) + EPS {
      assert more[k] == stops[k] && more[k + 1] == stops[k + 1];
    }
  }

  /** `settled` says that the last sweep improved nothing; `stops` are the states between the sweeps. */
  method Search(evaluate: Evaluator, orders: nat -> seq<nat>, variables: Variables, sweeps: nat)
    returns (current: Variables, score: real, evaluations: nat, ghost stops: seq<Variables>, ghost settled: bool)
    requires forall k :: IsPerm(orders(k), |variables|)
    ensures IsSearch(evaluate, orders, stops) && stops[0] == variables && stops[|stops| - 1] == current
    ensures |current| == |variables| && score == evaluate(current)
    ensures InAlphabet(variables) ==> InAlphabet(current)
    ensures current == variables || score > evaluate(variables) + EPS
    ensures |stops| - 1 <= sweeps && evaluations == 1 + ALPHABET_SIZE * (|variables| * (|stops| - 1))
    ensures settled ==> LocallyOptimal(evaluate, current)
    ensures !settled ==> |stops| - 1 == sweeps && score >= evaluate(variables) + sweeps as real * EPS
  {
    current, score, evaluations := variables, evaluate(variables), 1;
    stops, settled := [variables], false;
    for k := 0 to sweeps
      invariant |stops| == k + 1 && !settled
      invariant IsSearch(evaluate, orders, stops) && stops[0] == variables && stops[k] == current
      invariant forall j: nat :: j < k ==> evaluate(stops[j + 1]) > evaluate(stops[j]) + EPS
      invariant |current| == |variables| && score == evaluate(current)
      invariant InAlphabet(variables) ==> InAlphabet(current)
      invariant current == variables || score > evaluate(variables) + EPS
      invariant evaluations == 1 + ALPHABET_SIZE * (|variables| * k)
      invariant score >= evaluate(variables) + k as real * EPS
    {
      var next, nextScore, more, improved, states := Sweep(evaluate, orders(k), current);
      assert SweepsTo(evaluate, orders(k), current, next);
      SearchGrows(evaluate, orders, stops, next);
      stops := stops + [next];
      assert |variables| * (k + 1) == |variables| * k + |variables|;
      evaluations := evaluations + more;
      current, score := next, nextScore;
      if !improved {
        settled := true;
        break;
      }
      assert (k + 1) as real * EPS == k as real * EPS + EPS;
      assert k as real * EPS >= 0.0;
    }
  }

  datatype Budget = Budget(saCycles: nat, saSteps: nat, coordinateSweeps: nat) {
    ghost predicate Valid() { saCycles > 0 && saSteps > 0 && coordinateSweeps > 0 }
  }

  /** What the generator draws for one annealing proposal. */
  datatype Draw = Draw(index: nat, symbol: nat)

  datatype AnnealError = NoVariables

  datatype Annealed = Annealed(
    best: Variables, score: real, evaluations: nat, attempted: nat, accepted: nat, downhill: nat, polishGain: real)

  /** The proposal: the drawn coordinate moved to one of its 28 other symbols. */
  function Propose(v: Variables, draw: Draw): (p: Variables)
    requires draw.index < |v| && draw.symbol < ALPHABET_SIZE - 1
    ensures |p| == |v| && (InAlphabet(v) ==> InAlphabet(p)) && p != v
    ensures forall j :: 0 <= j < |v| && j != draw.index ==> p[j] == v[j]
  {
    var p := v[draw.index := if draw.symbol >= v[draw.index] then draw.symbol + 1 else draw.symbol];
    assert p[draw.index] != v[draw.index];
    p
  }

  /** The random choices: draws(k) and lucky(k, delta), the outcome of the temperature test
      on proposal k when it changes the score by delta. */
  datatype Chance = Chance(draws: nat -> Draw, lucky: (nat, real) -> bool) {
    /** The k-th draw lies in the ranges it is made from, for n variables. */
    predicate Draws(k: nat, n: nat) {
      draws(k).symbol < ALPHABET_SIZE - 1 && draws(k).index < n
    }

    ghost predicate Valid(n: nat) {
      forall k :: Draws(k, n)
    }
  }

  datatype Walk = Walk(current: Variables, best: Variables, accepted: nat, downhill: nat)

  /** One proposal: it is taken unless it is worse and unlucky, and the best state is
      replaced when it is beaten by more than EPS. */
  function NextWalk(evaluate: Evaluator, w: Walk, p: Variables, lucky: bool): Walk {
    if evaluate(p) - evaluate(w.current) >= 0.0 || lucky then
      Walk(p, if evaluate(p) > evaluate(w.best) + EPS then p else w.best, w.accepted + 1,
           w.downhill + if evaluate(p) - evaluate(w.current) < 0.0 then 1 else 0)
    else w
  }

  /** The k-th proposal, made and judged. */
  ghost function Proposed(evaluate: Evaluator, w: Walk, chance: Chance, k: nat): (next: Walk)
    requires |w.current| == |w.best| && chance.Draws(k, |w.current|)
    ensures |next.current| == |next.best| == |w.current|
  {
    var p := Propose(w.current, chance.draws(k));
    NextWalk(evaluate, w, p, chance.lucky(k, evaluate(p) - evaluate(w.current)))
  }

  ghost predicate StepsTo(evaluate: Evaluator, chance: Chance, k: nat, w: Walk, next: Walk) {
    |w.current| == |w.best| && chance.Draws(k, |w.current|) && next == Proposed(evaluate, w, chance, k)
  }

  /** The walk, proposal by proposal. */
  ghost predicate IsWalk(evaluate: Evaluator, start: Variables, chance: Chance, walk: seq<Walk>) {
    && |walk| > 0 && walk[0] == Walk(start, start, 0, 0)
    && forall k: nat :: k + 1 < |walk| ==> StepsTo(evaluate, chance, k, walk[k], walk[k + 1])
  }

  /** The k-th proposal: the drawn coordinate of the current state moved to the drawn one of
      its other symbols, which are numbered without it. */
  ghost predicate IsProposal(chance: Chance, walk: seq<Walk>, k: nat, p: Variables)
    requires k < |walk|
  {
    var v, d := walk[k].current, chance.draws(k);
    && |p| == |v| && d.index < |v|
    && p[d.index] == (if d.symbol < v[d.index] then d.symbol else d.symbol + 1)
    && forall j :: 0 <= j < |v| && j != d.index ==> p[j] == v[j]
  }

  /** A proposal is stood on next iff it scores no less than the current state or is lucky; the
      best state gives way to it iff it is taken and scores more by EPS. */
  lemma WalkTakes(evaluate: Evaluator, start: Variables, chance: Chance, walk: seq<Walk>, k: nat)
    returns (p: Variables)
    requires IsWalk(evaluate, start, chance, walk) && k + 1 < |walk|
    ensures IsProposal(chance, walk, k, p)
    ensures var v, w := walk[k], walk[k + 1];
            var taken := evaluate(p) >= evaluate(v.current) || chance.lucky(k, evaluate(p) - evaluate(v.current));
            && (taken ==> w.current == p && w.accepted == v.accepted + 1)
            && (!taken ==> w == v)
            && w.best == (if taken && evaluate(p) > evaluate(v.best) + EPS then p else v.best)
            && w.downhill == v.downhill + if taken && evaluate(p) < evaluate(v.current) then 1 else 0
  {
    assert StepsTo(evaluate, chance, k, walk[k], walk[k + 1]);
    p := Propose(walk[k].current, chance.draws(k));
  }

  lemma OneProposal(chance: Chance, walk: seq<Walk>, k: nat, p: Variables, q: Variables)
    requires k < |walk| && IsProposal(chance, walk, k, p) && IsProposal(chance, walk, k, q)
    ensures p == q
  {
  }

  /** The choices determine the walk. */
  lemma {:induction false} WalkDetermined(evaluate: Evaluator, start: Variables, chance: Chance, a: seq<Walk>,
                                          b: seq<Walk>, k: nat)
    requires IsWalk(evaluate, start, chance, a) && IsWalk(evaluate, start, chance, b) && k < |a| && k < |b|
    ensures a[k] == b[k]
  {
    if k > 0 {
      WalkDetermined(evaluate, start, chance, a, b, k - 1);
      assert StepsTo(evaluate, chance, k - 1, a[k - 1], a[k - 1 + 1]) &&
          StepsTo(evaluate, chance, k - 1, b[k - 1], b[k - 1 + 1]);
    }
  }

  /** The best state does not lag behind the current one by more than EPS, nor behind the start. */
  ghost predicate Leads(evaluate: Evaluator, start: Variables, w: Walk) {
    evaluate(w.current) <= evaluate(w.best) + EPS && evaluate(start) <= evaluate(w.best)
  }

  lemma StepLeads(evaluate: Evaluator, start: Variables, chance: Chance, k: nat, w: Walk, next: Walk)
    requires StepsTo(evaluate, chance, k, w, next)
    ensures Leads(evaluate, start, w) ==> Leads(evaluate, start, next)
    ensures evaluate(next.best) >= evaluate(w.best)
  {
  }

  lemma {:induction false} WalkLeads(evaluate: Evaluator, start: Variables, chance: Chance, walk: seq<Walk>, n: nat)
    requires IsWalk(evaluate, start, chance, walk) && n < |walk|
    ensures Leads(evaluate, start, walk[n])
  {
    if n > 0 {
      WalkLeads(evaluate, start, chance, walk, n - 1);
      assert StepsTo(evaluate, chance, n - 1, walk[n - 1], walk[n - 1 + 1]);
      StepLeads(evaluate, start, chance, n - 1, walk[n - 1], walk[n]);
    }
  }

  lemma {:induction false} BestGrows(evaluate: Evaluator, start: Variables, chance: Chance, walk: seq<Walk>, k: nat,
                                     n: nat)
    requires IsWalk(evaluate, start, chance, walk) && k <= n < |walk|
    ensures evaluate(walk[k].best) <= evaluate(walk[n].best)
    decreases n
  {
    if k < n {
      BestGrows(evaluate, start, chance, walk, k, n - 1);
      assert StepsTo(evaluate, chance, n - 1, walk[n - 1], walk[n - 1 + 1]);
      StepLeads(evaluate, start, chance, n - 1, walk[n - 1], walk[n]);
    }
  }

  /** So the best state lags behind no state of the walk by more than EPS. */
  lemma WalkBest(evaluate: Evaluator, start: Variables, chance: Chance, walk: seq<Walk>, k: nat, n: nat)
    requires IsWalk(evaluate, start, chance, walk) && k <= n < |walk|
    ensures evaluate(walk[k].current) <= evaluate(walk[n].best) + EPS
    ensures evaluate(start) <= evaluate(walk[n].best)
  {
    WalkLeads(evaluate, start, chance, walk, k);
    WalkLeads(evaluate, start, chance, walk, n);
    BestGrows(evaluate, start, chance, walk, k, n);
  }

  /** Nor behind any proposal, taken or not. */
  lemma ProposalsBehind(evaluate: Evaluator, start: Variables, chance: Chance, walk: seq<Walk>, k: nat, n: nat,
                        p: Variables)
    requires IsWalk(evaluate, start, chance, walk) && k < n < |walk| && IsProposal(chance, walk, k, p)
    ensures evaluate(p) <= evaluate(walk[n].best) + EPS
  {
    var q := WalkTakes(evaluate, start, chance, walk, k);
    OneProposal(chance, walk, k, p, q);
    WalkBest(evaluate, start, chance, walk, k, n);
    WalkBest(evaluate, start, chance, walk, k + 1, n);
  }

  /** The k-th proposal scores no less than the current state, or is lucky. */
  ghost predicate TakenAt(evaluate: Evaluator, chance: Chance, walk: seq<Walk>, k: nat)
    requires k < |walk|
  {
    exists p: Variables ::
      && IsProposal(chance, walk, k, p)
      && (evaluate(p) >= evaluate(walk[k].current) || chance.lucky(k, evaluate(p) - evaluate(walk[k].current)))
  }

  /** It is lucky, and needs to be. */
  ghost predicate DownhillAt(evaluate: Evaluator, chance: Chance, walk: seq<Walk>, k: nat)
    requires k < |walk|
  {
    exists p: Variables ::
      && IsProposal(chance, walk, k, p)
      && evaluate(p) < evaluate(walk[k].current) && chance.lucky(k, evaluate(p) - evaluate(walk[k].current))
  }

  lemma StepCounts(evaluate: Evaluator, start: Variables, chance: Chance, walk: seq<Walk>, k: nat)
    requires IsWalk(evaluate, start, chance, walk) && k + 1 < |walk|
    ensures walk[k + 1].accepted == walk[k].accepted + if TakenAt(evaluate, chance, walk, k) then 1 else 0
    ensures walk[k + 1].downhill == walk[k].downhill + if DownhillAt(evaluate, chance, walk, k) then 1 else 0
  {
    var p := WalkTakes(evaluate, start, chance, walk, k);
    if q: Variables :| IsProposal(chance, walk, k, q) && q != p {
      OneProposal(chance, walk, k, p, q);
    }
  }

  lemma CountSnoc(n: nat, less: set<nat>, all: set<nat>)
    requires forall k :: k in less <==> k < n && k in all
    requires forall k :: k in all ==> k <= n
    ensures |all| == |less| + if n in all then 1 else 0
  {
    assert all == less + if n in all then {n} else {};
  }

  /** The counters count the proposals that are taken ... */
  lemma {:induction false} AcceptedCount(evaluate: Evaluator, start: Variables, chance: Chance, walk: seq<Walk>, n: nat)
    requires IsWalk(evaluate, start, chance, walk) && n < |walk|
    ensures walk[n].accepted == |set k: nat | k < n && TakenAt(evaluate, chance, walk, k)|
  {
    if n > 0 {
      AcceptedCount(evaluate, start, chance, walk, n - 1);
      StepCounts(evaluate, start, chance, walk, n - 1);
      CountSnoc(n - 1, set k: nat | k < n - 1 && TakenAt(evaluate, chance, walk, k),
                set k: nat | k < n && TakenAt(evaluate, chance, walk, k));
    }
  }

  /** ... and those that are taken downhill. */
  lemma {:induction false} DownhillCount(evaluate: Evaluator, start: Variables, chance: Chance, walk: seq<Walk>, n: nat)
    requires IsWalk(evaluate, start, chance, walk) && n < |walk|
    ensures walk[n].downhill == |set k: nat | k < n && DownhillAt(evaluate, chance, walk, k)|
  {
    if n > 0 {
      DownhillCount(evaluate, start, chance, walk, n - 1);
      StepCounts(evaluate, start, chance, walk, n - 1);
      CountSnoc(n - 1, set k: nat | k < n - 1 && DownhillAt(evaluate, chance, walk, k),
                set k: nat | k < n && DownhillAt(evaluate, chance, walk, k));
    }
  }

  /** Every state of the walk has the start's length, and its symbols in the alphabet. */
  lemma {:induction false} WalkShape(evaluate: Evaluator, start: Variables, chance: Chance, walk: seq<Walk>, n: nat)
    requires IsWalk(evaluate, start, chance, walk) && n < |walk|
    ensures |walk[n].current| == |walk[n].best| == |start|
    ensures InAlphabet(start) ==> InAlphabet(walk[n].current) && InAlphabet(walk[n].best)
  {
    if n > 0 {
      WalkShape(evaluate, start, chance, walk, n - 1);
      assert StepsTo(evaluate, chance, n - 1, walk[n - 1], walk[n - 1 + 1]);
    }
  }

  lemma WalkGrows(evaluate: Evaluator, start: Variables, chance: Chance, walk: seq<Walk>, next: Walk)
    requires IsWalk(evaluate, start, chance, walk) && StepsTo(evaluate, chance, |walk| - 1, walk[|walk| - 1], next)
    ensures IsWalk(evaluate, start, chance, walk + [next])
  {
    var more := walk + [next];
    forall k: nat | k + 1 < |more| ensures StepsTo(evaluate, chance, k, more[k], more[k + 1]) {
      if k + 1 < |walk| {
        assert more[k] == walk[k] && more[k + 1] == walk[k + 1];
      }
    }
  }

  /** The body of the inner annealing loop, with the scores that it carries along. */
  method Judge(evaluate: Evaluator, w: Walk, currentScore: real, bestScore: real, chance: Chance, k: nat)
    returns (next: Walk, nextScore: real, nextBest: real)
    requires |w.current| == |w.best| && chance.Draws(k, |w.current|)
    requires currentScore == evaluate(w.current) && bestScore == evaluate(w.best)
    ensures next == Proposed(evaluate, w, chance, k)
    ensures nextScore == evaluate(next.current) && nextBest == evaluate(next.best)
  {
    next, nextScore, nextBest := w, currentScore, bestScore;
    var proposal := Propose(w.current, chance.draws(k));
    var proposalScore := evaluate(proposal);
    var delta := proposalScore - currentScore;
    if delta >= 0.0 || chance.lucky(k, delta) {
      next := next.(current := proposal, accepted := w.accepted + 1,
                    downhill := w.downhill + if delta < 0.0 then 1 else 0);
      nextScore := proposalScore;
      if nextScore > bestScore + EPS {
        next, nextBest := next.(best := proposal), nextScore;
      }
    }
  }

  /** The inner annealing loop. */
  method Cycle(evaluate: Evaluator, ghost start: Variables, w0: Walk, before: (real, real), chance: Chance, first: nat,
               steps: nat,
               ghost walk0: seq<Walk>)
    returns (w: Walk, after: (real, real), ghost walk: seq<Walk>)
    requires chance.Valid(|start|) && |w0.current| == |w0.best| == |start|
    requires IsWalk(evaluate, start, chance, walk0) && |walk0| == first + 1 && walk0[first] == w0
    requires before == (evaluate(w0.current), evaluate(w0.best))
    ensures IsWalk(evaluate, start, chance, walk) && |walk| == first + steps + 1 && walk[first + steps] == w
    ensures |w.current| == |w.best| == |start| && after == (evaluate(w.current), evaluate(w.best))
  {
    w, after, walk := w0, before, walk0;
    for step := 0 to steps
      invariant IsWalk(evaluate, start, chance, walk) && |walk| == first + step + 1 && walk[first + step] == w
      invariant |w.current| == |w.best| == |start| && after == (evaluate(w.current), evaluate(w.best))
    {
      assert chance.Draws(first + step, |start|);
      var next, currentScore, bestScore := Judge(evaluate, w, after.0, after.1, chance, first + step);
      WalkGrows(evaluate, start, chance, walk, next);
      w, after, walk := next, (currentScore, bestScore), walk + [next];
    }
  }

  lemma OneMoreCycle(cycle: nat, steps: nat)
    ensures (cycle + 1) * steps == cycle * steps + steps
  {
  }

  /** The annealing loops, without the polish. */
  method Anneal(evaluate: Evaluator, variables: Variables, budget: Budget, chance: Chance)
    returns (w: Walk, evaluations: nat, ghost walk: seq<Walk>)
    requires budget.Valid() && chance.Valid(|variables|)
    ensures IsWalk(evaluate, variables, chance, walk) && |walk| == evaluations && walk[evaluations - 1] == w
    ensures evaluations == 1 + budget.saCycles * budget.saSteps
  {
    w, evaluations := Walk(variables, variables, 0, 0), 1;
    walk := [w];
    var scores := (evaluate(variables), evaluate(variables));
    for cycle := 0 to budget.saCycles
      invariant evaluations == 1 + cycle * budget.saSteps
      invariant IsWalk(evaluate, variables, chance, walk) && |walk| == evaluations && walk[evaluations - 1] == w
      invariant |w.current| == |w.best| == |variables| && scores == (evaluate(w.current), evaluate(w.best))
    {
      OneMoreCycle(cycle, budget.saSteps);
      w, scores, walk := Cycle(evaluate, variables, w, scores, chance, evaluations - 1, budget.saSteps, walk);
      evaluations := evaluations + budget.saSteps;
    }
  }

  /** anneal_and_polish. Without variables there is no coordinate to draw. */
  method AnnealAndPolish(evaluate: Evaluator, variables: Variables, budget: Budget, chance: Chance,
                         orders: nat -> seq<nat>)
    returns (r: Result<Annealed, AnnealError>, ghost walk: seq<Walk>, ghost stops: seq<Variables>, ghost settled: bool)
    requires budget.Valid() && (|variables| > 0 ==> chance.Valid(|variables|))
    requires forall k :: IsPerm(orders(k), |variables|)
    ensures r.Err? <==> |variables| == 0
    ensures r.Ok? ==> IsWalk(evaluate, variables, chance, walk) && |walk| == 1 + budget.saCycles * budget.saSteps
    ensures r.Ok? ==>
      var a, w := r.value, walk[|walk| - 1];
      && a.accepted == w.accepted && a.downhill == w.downhill && a.attempted == |walk| - 1
      && IsSearch(evaluate, orders, stops) && stops[0] == w.best && stops[|stops| - 1] == a.best
      && a.score == evaluate(a.best) && a.polishGain == a.score - evaluate(w.best) >= 0.0
      && a.evaluations == 2 + a.attempted + ALPHABET_SIZE * (|variables| * (|stops| - 1))
      && (settled ==> LocallyOptimal(evaluate, a.best)) && (!settled ==> |stops| - 1 == budget.coordinateSweeps)
    ensures r.Ok? ==> |r.value.best| == |variables| && (InAlphabet(variables) ==> InAlphabet(r.value.best))
    ensures r.Ok? ==> r.value.score >= evaluate(variables)
    ensures r.Ok? ==> forall k :: 0 <= k < |walk| ==> evaluate(walk[k].current) <= r.value.score + EPS
    ensures r.Ok? ==> forall k, p :: 0 <= k < |walk| - 1 && IsProposal(chance, walk, k, p) ==>
              evaluate(p) <= r.value.score + EPS
    ensures r.Ok? ==>
              && r.value.accepted == |set k: nat | k < |walk| - 1 && TakenAt(evaluate, chance, walk, k)|
              && r.value.downhill == |set k: nat | k < |walk| - 1 && DownhillAt(evaluate, chance, walk, k)|
  {
    walk, stops, settled := [], [], false;
    if |variables| == 0 {
      return Err(NoVariables), walk, stops, settled;
    }
    var w, evaluations, states := Anneal(evaluate, variables, budget, chance);
    walk := states;
    ghost var total := budget.saCycles * budget.saSteps;
    forall k | 0 <= k < |walk| ensures evaluate(walk[k].current) <= evaluate(w.best) + EPS {
      WalkBest(evaluate, variables, chance, walk, k, total);
    }
    forall k, p | 0 <= k < |walk| - 1 && IsProposal(chance, walk, k, p)
      ensures evaluate(p) <= evaluate(w.best) + EPS
    {
      ProposalsBehind(evaluate, variables, chance, walk, k, total, p);
    }
    AcceptedCount(evaluate, variables, chance, walk, total);
    DownhillCount(evaluate, variables, chance, walk, total);
    WalkBest(evaluate, variables, chance, walk, 0, total);
    WalkShape(evaluate, variables, chance, walk, total);
    var best, bestScore := w.best, evaluate(w.best);
    var polished, polishedScore, more, s, done := Search(evaluate, orders, best, budget.coordinateSweeps);
    stops, settled := s, done;
    evaluations := evaluations + more;
    var gain := polishedScore - bestScore;
    if polishedScore > bestScore + EPS {
      best, bestScore := polished, polishedScore;
    }
    r := Ok(Annealed(best, bestScore, evaluations, budget.saCycles * budget.saSteps, w.accepted, w.downhill, gain));
  }
}
