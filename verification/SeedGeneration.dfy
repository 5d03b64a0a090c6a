/** The seed generator from ciphertext to ranked keys. */
module SeedGeneration {
  import opened Results
  import opened StableSort
  import opened Permutations
  import opened SeedRandom
  import opened KeySeeds
  import opened ModArith
  import Counting

  datatype SeedError =
    | BadPeriod
    | BadColumns
    | BadKeyCount
    | EmptyText
    | BadSymbol
    | NoSymbolOrder
    | BadSymbolOrder
    | BadLayout

  datatype Plan = Plan(blockSeeds: int, tailSeeds: int, starts: int, refineSteps: int, heated: nat -> bool)

  datatype Request = Request(
    text: seq<int>,
    period: int,
    columns: int,
    perPhase: bool,
    wanted: int,
    scoring: Option<Key -> real>,
    rerank: Option<Key -> real>,
    refine: bool,
    ranks: Option<seq<int>>,
    frequencies: seq<real>,
    plan: Plan)

  /** The first check of the input that fails, in the order they are made. */
  function InputError(q: Request): Option<SeedError> {
    if q.period <= 0 then Some(BadPeriod)
    else if q.columns <= 0 then Some(BadColumns)
    else if q.wanted <= 0 then Some(BadKeyCount)
    else if |q.text| == 0 then Some(EmptyText)
    else if exists i :: 0 <= i < |q.text| && !(0 <= q.text[i] < ALPHABET) then Some(BadSymbol)
    else if q.ranks.None? && q.scoring.None? then Some(NoSymbolOrder)
    else if q.ranks.Some? && !IsIntPerm(q.ranks.value, ALPHABET) then Some(BadSymbolOrder)
    else None
  }

  predicate PositiveSizes(q: Request) {
    q.period > 0 && q.columns > 0 && q.wanted > 0 && |q.text| > 0
  }

  predicate InSymbols(text: seq<int>) {
    forall i :: 0 <= i < |text| ==> 0 <= text[i] < 29
  }

  /** What each error says of the request, and what is left when there is none. */
  lemma InputErrorIs(q: Request)
    ensures InputError(q) == Some(BadPeriod) <==> q.period <= 0
    ensures InputError(q) == Some(BadColumns) <==> q.period > 0 && q.columns <= 0
    ensures InputError(q) == Some(BadKeyCount) <==> q.period > 0 && q.columns > 0 && q.wanted <= 0
    ensures InputError(q) == Some(EmptyText) <==> q.period > 0 && q.columns > 0 && q.wanted > 0 && q.text == []
    ensures InputError(q) == Some(BadSymbol) <==> PositiveSizes(q) && !InSymbols(q.text)
    ensures InputError(q) == Some(NoSymbolOrder) <==>
            PositiveSizes(q) && InSymbols(q.text) && q.ranks.None? && q.scoring.None?
    ensures InputError(q) == Some(BadSymbolOrder) <==>
            PositiveSizes(q) && InSymbols(q.text) && q.ranks.Some? && !IsIntPerm(q.ranks.value, 29)
    ensures InputError(q) != Some(BadLayout)
  {
  }

  /** The plaintext symbols from the most to the least frequent. */
  function PlainOrder(q: Request): (order: seq<nat>)
    requires InputError(q).None? && |q.frequencies| == ALPHABET
    ensures IsPerm(order, ALPHABET)
  {
    if q.ranks.Some? then AsNats(q.ranks.value) else SymbolOrder(q.frequencies)
  }

  /** It is the given ranks if they are given, and else by descending frequency and then by symbol. */
  lemma PlainOrderIs(q: Request, i: nat, j: nat)
    requires InputError(q).None? && |q.frequencies| == ALPHABET && i < j < ALPHABET
    ensures q.ranks.Some? ==> |q.ranks.value| == ALPHABET && PlainOrder(q)[i] == q.ranks.value[i]
    ensures q.ranks.Some? ==> PlainOrder(q)[j] == q.ranks.value[j]
    ensures q.ranks.None? ==>
              var x, y := PlainOrder(q)[i], PlainOrder(q)[j];
              q.frequencies[x] > q.frequencies[y] || (q.frequencies[x] == q.frequencies[y] && x < y)
  {
  }

  /** text[r::period] */
  function Phase(text: seq<nat>, r: nat, period: nat): seq<nat>
    requires period > 0
    decreases |text| - r
  {
    if r >= |text| then [] else [text[r]] + Phase(text, r + period, period)
  }

  lemma {:induction false} PhaseAt(text: seq<nat>, r: nat, period: nat, i: nat)
    requires period > 0
    ensures i < |Phase(text, r, period)| <==> r + i * period < |text|
    ensures i < |Phase(text, r, period)| ==> Phase(text, r, period)[i] == text[r + i * period]
    decreases i
  {
    if r < |text| && i > 0 {
      PhaseAt(text, r + period, period, i - 1);
      assert r + period + (i - 1) * period == r + i * period;
    } else if i > 0 {
      assert i * period >= 0;
    }
  }

  function Histogram(text: seq<nat>): (counts: seq<nat>)
    ensures |counts| == ALPHABET
  {
    seq(ALPHABET, x requires 0 <= x < ALPHABET => multiset(text)[x])
  }

  function CountsOfPhase(text: seq<nat>, r: nat, period: nat, perPhase: bool): (counts: seq<nat>)
    requires period > 0
    ensures |counts| == ALPHABET
  {
    Histogram(if perPhase then Phase(text, r, period) else text)
  }

  /** _phase_symbol_counts: separate counts when the columns are undone first. */
  function PhaseCounts(text: seq<nat>, period: nat, perPhase: bool): (counts: seq<seq<nat>>)
    requires period > 0
    ensures |counts| == period && forall r :: 0 <= r < period ==> |counts[r]| == ALPHABET
  {
    seq(period, r requires 0 <= r < period => CountsOfPhase(text, r, period, perPhase))
  }

  /** How often a symbol stands in the text: in one phase of it, or in all of it. */
  ghost function Occurrences(text: seq<nat>, r: nat, period: nat, perPhase: bool, x: nat): set<nat>
    requires period > 0
  {
    set i | 0 <= i < |text| && text[i] == x && (perPhase ==> i % period == r)
  }

  /** Where x stands. */
  ghost function Places(text: seq<nat>, x: nat): set<nat> {
    set k | 0 <= k < |text| && text[k] == x
  }

  lemma PlacesSnoc(text: seq<nat>, x: nat)
    requires |text| > 0
    ensures var n := |text| - 1;
            |Places(text, x)| == |Places(text[..n], x)| + if text[n] == x then 1 else 0
  {
    var n := |text| - 1;
    assert Places(text, x) == Places(text[..n], x) + if text[n] == x then {n} else {};
  }

  lemma {:induction false} MultisetCounts(text: seq<nat>, x: nat)
    ensures multiset(text)[x] == |Places(text, x)|
  {
    if |text| > 0 {
      var n := |text| - 1;
      MultisetCounts(text[..n], x);
      assert text == text[..n] + [text[n]];
      PlacesSnoc(text, x);
    }
  }

  lemma InPhase(i: nat, r: nat, period: nat, k: nat)
    requires r < period && i == r + k * period
    ensures i % period == r && i / period == k
  {
    CongBy(i, r, period, k);
    CongIsMod(i, r, period);
    ModOfReduced(r, period);
    assert i == period * (i / period) + i % period;
    assert period * (i / period - k) == 0;
  }

  /** Where a place in the phase is in the text, and the other way round. */
  function PlaceInText(r: nat, period: nat): nat -> nat {
    k => r + k * period
  }

  function PlaceInPhase(period: nat): nat -> nat
    requires period > 0
  {
    i => i / period
  }

  lemma ToText(text: seq<nat>, r: nat, period: nat, x: nat, k: nat)
    requires r < period && k in Places(Phase(text, r, period), x)
    ensures PlaceInText(r, period)(k) in Occurrences(text, r, period, true, x)
    ensures PlaceInPhase(period)(PlaceInText(r, period)(k)) == k
  {
    PhaseAt(text, r, period, k);
    InPhase(r + k * period, r, period, k);
  }

  lemma ToPhase(text: seq<nat>, r: nat, period: nat, x: nat, i: nat)
    requires r < period && i in Occurrences(text, r, period, true, x)
    ensures PlaceInPhase(period)(i) in Places(Phase(text, r, period), x)
    ensures PlaceInText(r, period)(PlaceInPhase(period)(i)) == i
  {
    assert i == r + (i / period) * period;
    PhaseAt(text, r, period, i / period);
  }

  /** The counts of a phase are its occurrences. */
  lemma PhaseCountIs(text: seq<nat>, r: nat, period: nat, x: nat)
    requires r < period
    ensures multiset(Phase(text, r, period))[x] == |Occurrences(text, r, period, true, x)|
  {
    var places, all := Places(Phase(text, r, period), x), Occurrences(text, r, period, true, x);
    var f, g := PlaceInText(r, period), PlaceInPhase(period);
    MultisetCounts(Phase(text, r, period), x);
    forall k | k in places ensures f(k) in all && g(f(k)) == k {
      ToText(text, r, period, x, k);
    }
    forall i | i in all ensures g(i) in places && f(g(i)) == i {
      ToPhase(text, r, period, x, i);
    }
    Counting.InjectionCard(places, all, f);
    Counting.InjectionCard(all, places, g);
  }

  /** The counts that the alignment starts from. */
  lemma CountsAre(text: seq<nat>, period: nat, perPhase: bool, r: nat, x: nat)
    requires r < period && x < ALPHABET
    ensures PhaseCounts(text, period, perPhase)[r][x] == |Occurrences(text, r, period, perPhase, x)|
  {
    if perPhase {
      PhaseCountIs(text, r, period, x);
    } else {
      MultisetCounts(text, x);
      assert Occurrences(text, r, period, false, x) == Places(text, x);
    }
  }

  /** The key of the pure frequency analysis: aligned blocks, then the columns in order. */
  ghost predicate Baseline(key: Key, counts: seq<seq<nat>>, ptOrder: seq<nat>, columns: nat)
    requires IsPerm(ptOrder, ALPHABET) && forall r :: 0 <= r < |counts| ==> |counts[r]| == ALPHABET
  {
    && Layout(key, |counts|, columns)
    && (forall r :: 0 <= r < |counts| ==> Aligned(Block(key, r), counts[r], ptOrder))
    && key[|counts| * ALPHABET..] == Identity(columns)
  }

  lemma {:induction false} AssembledBlocks(blocks: seq<seq<nat>>, tail: seq<nat>, r: nat)
    requires r <= |blocks| && forall i :: 0 <= i < |blocks| ==> |blocks[i]| == ALPHABET
    ensures |Assemble(blocks, tail)| == |blocks| * ALPHABET + |tail|
    ensures r < |blocks| ==> Block(Assemble(blocks, tail), r) == blocks[r]
    ensures Assemble(blocks, tail)[|blocks| * ALPHABET..] == tail
  {
    if |blocks| > 0 {
      var rest := Assemble(blocks[1..], tail);
      AssembledBlocks(blocks[1..], tail, if r == 0 then 0 else r - 1);
      var key := Assemble(blocks, tail);
      assert key[|blocks| * ALPHABET..] == rest[(|blocks| - 1) * ALPHABET..];
      if 0 < r < |blocks| {
        assert Block(key, r) == Block(rest, r - 1);
      }
    }
  }

  /** The seeds of the blocks and of the tail, as the plan and the counts demand them. */
  ghost predicate SeedsFor(byPhase: seq<seq<seq<nat>>>, tails: seq<seq<nat>>, counts: seq<seq<nat>>, ptOrder: seq<nat>,
                           columns: nat, plan: Plan)
    requires IsPerm(ptOrder, ALPHABET) && forall r :: 0 <= r < |counts| ==> |counts[r]| == ALPHABET
  {
    && BlockSeeds(byPhase, |counts|, if plan.blockSeeds < 1 then 1 else plan.blockSeeds)
    && (forall r :: 0 <= r < |counts| ==> Aligned(byPhase[r][0], counts[r], ptOrder) && Jittered(byPhase[r]))
    && AllPerms(tails, columns) && tails[0] == Identity(columns) && Swaps(tails, columns)
  }

  /** Every start is put together from such seeds. */
  ghost predicate Composed(starts: seq<Key>, counts: seq<seq<nat>>, ptOrder: seq<nat>, columns: nat, plan: Plan)
    requires IsPerm(ptOrder, ALPHABET) && forall r :: 0 <= r < |counts| ==> |counts[r]| == ALPHABET
  {
    exists byPhase, tails :: SeedsFor(byPhase, tails, counts, ptOrder, columns, plan)
      && forall key :: key in starts ==> FromSeeds(key, byPhase, tails)
  }

  /** In the frequency analysis key, on the text itself: in every phase the symbol that occurs
      more often, or the smaller one if both occur equally often, stands for the earlier symbol
      of the plaintext order. */
  lemma BaselineByText(key: Key, text: seq<nat>, period: nat, perPhase: bool, ptOrder: seq<nat>, columns: nat, r: nat,
                       x: nat, y: nat)
    requires IsPerm(ptOrder, ALPHABET) && r < period && x < ALPHABET && y < ALPHABET
    requires Baseline(key, PhaseCounts(text, period, perPhase), ptOrder, columns)
    requires var m, n := |Occurrences(text, r, period, perPhase, x)|, |Occurrences(text, r, period, perPhase, y)|;
             m > n || (m == n && x < y)
    ensures |key| == period * ALPHABET + columns && r * ALPHABET + ALPHABET <= |key|
    ensures exists i, j :: 0 <= i < j < ALPHABET
              && ptOrder[i] == key[r * ALPHABET + x] && ptOrder[j] == key[r * ALPHABET + y]
  {
    var counts := PhaseCounts(text, period, perPhase);
    CountsAre(text, period, perPhase, r, x);
    CountsAre(text, period, perPhase, r, y);
    assert (r + 1) * ALPHABET <= period * ALPHABET;
    AlignedByCounts(Block(key, r), counts[r], ptOrder, x, y);
    assert Block(key, r)[x] == key[r * ALPHABET + x] && Block(key, r)[y] == key[r * ALPHABET + y];
  }

  method MakeStarts(counts: seq<seq<nat>>, ptOrder: seq<nat>, columns: nat, plan: Plan, rng: Generator)
    returns (starts: seq<Key>, ghost made: seq<Key>)
    requires IsPerm(ptOrder, ALPHABET) && |counts| > 0 && columns > 0
    requires forall r :: 0 <= r < |counts| ==> |counts[r]| == ALPHABET
    modifies rng
    ensures |starts| > 0 && AllLayout(starts, |counts|, columns) && Distinct(starts)
    ensures Baseline(starts[0], counts, ptOrder, columns) && Composed(made, counts, ptOrder, columns, plan)
    ensures starts == FirstSeen(made) && |made| == if plan.starts < 1 then 1 else plan.starts
  {
    var count := if plan.blockSeeds < 1 then 1 else plan.blockSeeds;
    var byPhase := MakeBlockSeeds(counts, ptOrder, plan.blockSeeds, rng);
    var tails := MakeTailSeeds(columns, plan.tailSeeds, rng);
    starts, made := MakeStartKeys(byPhase, tails, count, columns, plan.starts, rng);
    assert SeedsFor(byPhase, tails, counts, ptOrder, columns, plan);
    var blocks := Picked(byPhase, seq(|byPhase|, _ => 0));
    forall r | 0 <= r < |counts| ensures Block(starts[0], r) == blocks[r] {
      AssembledBlocks(blocks, tails[0], r);
    }
    AssembledBlocks(blocks, tails[0], 0);
  }

  /** best is the first of the best keys of a walk of so many steps from k0. */
  ghost predicate Refined(score: Key -> real, k0: Key, best: Key, period: nat, plan: Plan) {
    exists moves, stands ::
      && |moves| == (if plan.refineSteps < 0 then 0 else plan.refineSteps)
      && IsWalk(score, k0, moves, stands, period, plan.heated) && FirstBest(score, stands, best)
  }

  ghost predicate AllRefined(score: Key -> real, starts: seq<Key>, refined: seq<Key>, period: nat, plan: Plan) {
    |refined| == |starts| && forall i :: 0 <= i < |starts| ==>
      Refined(score, starts[i], refined[i], period, plan) && score(refined[i]) >= score(starts[i])
  }

  /** Every start is refined; starts and refined keys together, without repetitions. */
  method RefineAll(starts: seq<Key>, period: nat, columns: nat, plan: Plan, scorer: CachedScorer, rng: Generator)
    returns (keys: seq<Key>, ghost refined: seq<Key>)
    requires |starts| > 0 && AllLayout(starts, period, columns) && period > 0 && scorer.Valid()
    modifies scorer, rng
    ensures scorer.Valid() && |keys| > 0 && AllLayout(keys, period, columns) && Distinct(keys)
    ensures keys == FirstSeen(starts + refined) && AllRefined(scorer.score, starts, refined, period, plan)
  {
    var found: seq<Key> := [];
    for i := 0 to |starts|
      invariant scorer.Valid() && |found| == i && AllLayout(found, period, columns)
      invariant AllRefined(scorer.score, starts[..i], found, period, plan)
    {
      var best, moves, stands := RefineKey(starts[i], period, columns, plan.refineSteps, plan.heated, scorer, rng);
      assert Refined(scorer.score, starts[i], best, period, plan);
      assert starts[..i + 1] == starts[..i] + [starts[i]];
      found := found + [best];
    }
    assert starts[..|starts|] == starts;
    refined := found;
    keys := UniqueKeys(starts + found);
    UniqueLayout(starts + found, keys, period, columns);
  }

  /** _validate_key_layout over the keys to be returned. */
  method CheckLayouts(keys: seq<Key>, period: nat, columns: nat) returns (ok: bool)
    ensures ok <==> AllLayout(keys, period, columns)
  {
    for i := 0 to |keys|
      invariant AllLayout(keys[..i], period, columns)
    {
      if !Layout(keys[i], period, columns) {
        return false;
      }
      assert keys[..i + 1] == keys[..i] + [keys[i]];
    }
    assert keys[..|keys|] == keys;
    return true;
  }

  /** The scores that decide the final order, if any. */
  function FinalScore(q: Request): Option<Key -> real> {
    if q.rerank.Some? then q.rerank else q.scoring
  }

  /** The candidates best first, equal scores by the bytes of the key. */
  function Ranked(candidates: seq<Key>, score: Option<Key -> real>): seq<Key> {
    if score.None? then candidates else Sort(candidates, RankOrder(score.value))
  }

  /** Whether the starts are refined. */
  predicate Refines(q: Request) {
    q.scoring.Some? && q.refine && q.plan.refineSteps > 0
  }

  /** The candidates are the starts, the refined keys and random ones, each once in the order of
      first appearance; random keys are tried until there are enough or all attempts are used. */
  ghost predicate GrownFrom(q: Request, starts: seq<Key>, refined: seq<Key>, padding: seq<Key>, candidates: seq<Key>)
    requires InputError(q).None?
  {
    && (if Refines(q) then AllRefined(q.scoring.value, starts, refined, q.period, q.plan) else refined == [])
    && var found := FirstSeen(starts + refined);
       && found <= candidates == FirstSeen(found + padding)
       && (|found| >= q.wanted ==> padding == [])
       && (|found| < q.wanted ==> |candidates| == q.wanted || |padding| == Attempts(q.wanted - |found|))
  }

  /** The starts, and what refining them gives if there is a scorer for it. */
  method Found(q: Request, starts: seq<Key>, raw: CachedScorer, rng: Generator)
    returns (keys: seq<Key>, ghost refined: seq<Key>)
    requires InputError(q).None? && |starts| > 0 && AllLayout(starts, q.period, q.columns) && Distinct(starts)
    requires raw.Valid() && (q.scoring.Some? ==> raw.score == q.scoring.value)
    modifies raw, rng
    ensures raw.Valid() && |keys| > 0 && AllLayout(keys, q.period, q.columns) && Distinct(keys)
    ensures keys == FirstSeen(starts + refined)
    ensures if Refines(q) then AllRefined(q.scoring.value, starts, refined, q.period, q.plan) else refined == []
  {
    if Refines(q) {
      keys, refined := RefineAll(starts, q.period, q.columns, q.plan, raw, rng);
    } else {
      keys, refined := starts, [];
      DistinctSeen(starts);
      assert starts + [] == starts;
    }
  }

  /** And random keys up to the number wanted. */
  method Pool(q: Request, starts: seq<Key>, raw: CachedScorer, rng: Generator)
    returns (candidates: seq<Key>, ghost refined: seq<Key>, ghost padding: seq<Key>)
    requires InputError(q).None? && |starts| > 0 && AllLayout(starts, q.period, q.columns) && Distinct(starts)
    requires raw.Valid() && (q.scoring.Some? ==> raw.score == q.scoring.value)
    modifies raw, rng
    ensures raw.Valid() && |candidates| > 0 && AllLayout(candidates, q.period, q.columns) && Distinct(candidates)
    ensures candidates[0] == starts[0] && GrownFrom(q, starts, refined, padding, candidates)
  {
    var found, r := Found(q, starts, raw, rng);
    candidates, refined, padding := found, r, [];
    if |found| < q.wanted {
      candidates, padding := PadCandidates(found, q.wanted, q.period, q.columns, rng);
    } else {
      DistinctSeen(found);
      assert found + [] == found;
    }
  }

  method Candidates(q: Request, starts: seq<Key>, rng: Generator)
    returns (candidates: seq<Key>, ranked: seq<Key>, ghost refined: seq<Key>, ghost padding: seq<Key>)
    requires InputError(q).None? && |starts| > 0 && AllLayout(starts, q.period, q.columns) && Distinct(starts)
    modifies rng
    ensures |candidates| > 0 && AllLayout(candidates, q.period, q.columns) && Distinct(candidates)
    ensures candidates[0] == starts[0] && ranked == Ranked(candidates, FinalScore(q))
    ensures GrownFrom(q, starts, refined, padding, candidates)
  {
    var raw := new CachedScorer(if q.scoring.Some? then q.scoring.value else _ => 0.0);
    candidates, refined, padding := Pool(q, starts, raw, rng);
    if q.rerank.Some? {
      var scorer := new CachedScorer(q.rerank.value);
      ranked := RankCandidates(candidates, scorer, false);
    } else if q.scoring.Some? {
      ranked := RankCandidates(candidates, raw, Refines(q));
    } else {
      ranked := candidates;
    }
  }

  lemma RankedKeeps(candidates: seq<Key>, score: Option<Key -> real>, period: nat, columns: nat)
    requires AllLayout(candidates, period, columns) && Distinct(candidates)
    ensures AllLayout(Ranked(candidates, score), period, columns) && Distinct(Ranked(candidates, score))
    ensures |Ranked(candidates, score)| == |candidates|
  {
    if score.Some? {
      var less := RankOrder(score.value);
      var ranked := Sort(candidates, less);
      forall i | 0 <= i < |ranked| ensures Layout(ranked[i], period, columns) {
        SortMember(candidates, less, ranked[i]);
        assert ranked[i] in candidates;
      }
      SortElements(candidates, less);
      forall i, j | 0 <= i < j < |ranked| ensures ranked[i] != ranked[j] {
        if ranked[i] == ranked[j] {
          TwiceIn(ranked, i, j);
          DistinctOnce(candidates, ranked[i]);
        }
      }
    }
  }

  /** No candidate scores more than the first of the ranking. */
  lemma RankedFirst(candidates: seq<Key>, score: Key -> real, k: Key)
    requires k in candidates
    ensures score(Sort(candidates, RankOrder(score))[0]) >= score(k)
  {
    var less := RankOrder(score);
    var ranked := Sort(candidates, less);
    RankIsWeak(score);
    SortSorted(candidates, less);
    SortMember(candidates, less, k);
    var i :| 0 <= i < |ranked| && ranked[i] == k;
    assert i > 0 ==> !less(ranked[i], ranked[0]);
  }

  /** Best first, and the first key scores no less than plain frequency analysis. */
  ghost predicate BestFirst(keys: seq<Key>, counts: seq<seq<nat>>, order: seq<nat>, columns: nat, score: Key -> real)
    requires IsPerm(order, ALPHABET) && forall r :: 0 <= r < |counts| ==> |counts[r]| == ALPHABET
    requires |keys| > 0
  {
    Sorted(keys, RankOrder(score)) && forall k :: Baseline(k, counts, order, columns) ==> score(keys[0]) >= score(k)
  }

  /** Best first, for the counts and the plaintext order of the request. */
  ghost predicate BestFor(keys: seq<Key>, q: Request, score: Key -> real)
    requires InputError(q).None? && |q.frequencies| == ALPHABET && |keys| > 0
  {
    BestFirst(keys, PhaseCounts(AsNats(q.text), q.period, q.perPhase), PlainOrder(q), q.columns, score)
  }

  /** What a caller gets: distinct well-formed keys, as many as wanted at most, the best
      of them no worse than plain frequency analysis. */
  ghost predicate Delivered(keys: seq<Key>, q: Request)
    requires InputError(q).None? && |q.frequencies| == ALPHABET
  {
    && 0 < |keys| <= q.wanted
    && AllLayout(keys, q.period, q.columns)
    && Distinct(keys)
    && (FinalScore(q).Some? ==> BestFor(keys, q, FinalScore(q).value))
  }

  lemma AlignedUnique(a: seq<nat>, b: seq<nat>, counts: seq<nat>, ptOrder: seq<nat>)
    requires |counts| == ALPHABET && IsPerm(ptOrder, ALPHABET)
    requires Aligned(a, counts, ptOrder) && Aligned(b, counts, ptOrder)
    ensures a == b
  {
    var order := SymbolOrder(AsReals(counts));
    forall x | 0 <= x < ALPHABET ensures a[x] == b[x] {
      var i := IndexOf(order, ALPHABET, x);
      assert a[order[i]] == ptOrder[i] == b[order[i]];
    }
  }

  lemma BaselineUnique(a: Key, b: Key, counts: seq<seq<nat>>, ptOrder: seq<nat>, columns: nat)
    requires IsPerm(ptOrder, ALPHABET) && forall r :: 0 <= r < |counts| ==> |counts[r]| == ALPHABET
    requires Baseline(a, counts, ptOrder, columns) && Baseline(b, counts, ptOrder, columns)
    ensures a == b
  {
    forall r | 0 <= r < |counts| ensures Block(a, r) == Block(b, r) {
      AlignedUnique(Block(a, r), Block(b, r), counts[r], ptOrder);
    }
    var n := |counts| * ALPHABET;
    forall i | 0 <= i < |a| ensures a[i] == b[i] {
      if i < n {
        var r := i / ALPHABET;
        assert a[i] == Block(a, r)[i - r * ALPHABET] && b[i] == Block(b, r)[i - r * ALPHABET];
      } else {
        assert a[i] == a[n..][i - n] && b[i] == b[n..][i - n];
      }
    }
  }

  lemma TopKeeps(ranked: seq<Key>, wanted: nat, period: nat, columns: nat)
    requires |ranked| > 0 && wanted > 0 && AllLayout(ranked, period, columns) && Distinct(ranked)
    ensures 0 < |Take(ranked, wanted)| <= wanted
    ensures AllLayout(Take(ranked, wanted), period, columns) && Distinct(Take(ranked, wanted))
  {
  }

  lemma RankedSorted(candidates: seq<Key>, score: Key -> real)
    ensures Sorted(Sort(candidates, RankOrder(score)), RankOrder(score))
  {
    RankIsWeak(score);
    SortSorted(candidates, RankOrder(score));
  }

  lemma TopSorted(ranked: seq<Key>, wanted: nat, score: Key -> real)
    requires Sorted(ranked, RankOrder(score))
    ensures Sorted(Take(ranked, wanted), RankOrder(score))
  {
  }

  lemma BaselineBound(candidates: seq<Key>, counts: seq<seq<nat>>, order: seq<nat>, columns: nat, score: Key -> real,
                      k: Key)
    requires IsPerm(order, ALPHABET) && forall r :: 0 <= r < |counts| ==> |counts[r]| == ALPHABET
    requires |candidates| > 0
    requires Baseline(candidates[0], counts, order, columns) && Baseline(k, counts, order, columns)
    ensures score(Sort(candidates, RankOrder(score))[0]) >= score(k)
  {
    BaselineUnique(k, candidates[0], counts, order, columns);
    RankedFirst(candidates, score, k);
  }

  lemma TopBestFirst(
    candidates: seq<Key>, counts: seq<seq<nat>>, order: seq<nat>, columns: nat, wanted: nat, score: Key -> real)
    requires IsPerm(order, ALPHABET) && forall r :: 0 <= r < |counts| ==> |counts[r]| == ALPHABET
    requires |candidates| > 0 && wanted > 0 && Baseline(candidates[0], counts, order, columns)
    ensures BestFirst(Take(Sort(candidates, RankOrder(score)), wanted), counts, order, columns, score)
  {
    var ranked := Sort(candidates, RankOrder(score));
    RankedSorted(candidates, score);
    TopSorted(ranked, wanted, score);
    forall k | Baseline(k, counts, order, columns) ensures score(ranked[0]) >= score(k) {
      BaselineBound(candidates, counts, order, columns, score, k);
    }
  }

  lemma TopBestFor(candidates: seq<Key>, q: Request, score: Key -> real)
    requires InputError(q).None? && |q.frequencies| == ALPHABET && |candidates| > 0
    requires Baseline(candidates[0], PhaseCounts(AsNats(q.text), q.period, q.perPhase), PlainOrder(q), q.columns)
    ensures BestFor(Take(Sort(candidates, RankOrder(score)), q.wanted), q, score)
  {
    var counts := PhaseCounts(AsNats(q.text), q.period, q.perPhase);
    TopBestFirst(candidates, counts, PlainOrder(q), q.columns, q.wanted, score);
  }

  lemma TopDelivered(candidates: seq<Key>, q: Request)
    requires InputError(q).None? && |q.frequencies| == ALPHABET
    requires |candidates| > 0 && AllLayout(candidates, q.period, q.columns) && Distinct(candidates)
    requires Baseline(candidates[0], PhaseCounts(AsNats(q.text), q.period, q.perPhase), PlainOrder(q), q.columns)
    ensures Delivered(Take(Ranked(candidates, FinalScore(q)), q.wanted), q)
  {
    RankedKeeps(candidates, FinalScore(q), q.period, q.columns);
    TopKeeps(Ranked(candidates, FinalScore(q)), q.wanted, q.period, q.columns);
    if FinalScore(q).Some? {
      TopBestFor(candidates, q, FinalScore(q).value);
    }
  }

  /** Whatever decides the final order, no start and no refined key beats the first key. */
  lemma FirstBeatsAll(q: Request, starts: seq<Key>, refined: seq<Key>, padding: seq<Key>, candidates: seq<Key>)
    requires InputError(q).None? && |candidates| > 0 && GrownFrom(q, starts, refined, padding, candidates)
    ensures FinalScore(q).Some? ==> forall k :: k in starts + refined ==>
              FinalScore(q).value(Take(Ranked(candidates, FinalScore(q)), q.wanted)[0]) >= FinalScore(q).value(k)
  {
    if FinalScore(q).Some? {
      var score := FinalScore(q).value;
      forall k | k in starts + refined ensures score(Sort(candidates, RankOrder(score))[0]) >= score(k) {
        assert k in FirstSeen(starts + refined);
        RankedFirst(candidates, score, k);
      }
    }
  }

  lemma {:induction false} BytesTotal(a: Key, b: Key)
    requires |a| == |b| && a != b
    ensures BytesLess(a, b) || BytesLess(b, a)
  {
    if a[0] == b[0] {
      assert a == [a[0]] + a[1..] && b == [b[0]] + b[1..];
      BytesTotal(a[1..], b[1..]);
    } else if a[0] % 256 == b[0] % 256 && a[0] / 256 == b[0] / 256 {
      SameNumber(a[0], b[0]);
    }
  }

  /** The keys come by descending final score, and equal scores by the bytes of the keys. */
  lemma DeliveredOrder(keys: seq<Key>, q: Request, score: Key -> real, i: nat, j: nat)
    requires InputError(q).None? && |q.frequencies| == ALPHABET && Delivered(keys, q) && i < j < |keys|
    requires q.rerank == Some(score) || (q.rerank.None? && q.scoring == Some(score))
    ensures score(keys[i]) > score(keys[j])
         || (score(keys[i]) == score(keys[j]) && exists n: nat :: BytesDiffer(Bytes(keys[i]), Bytes(keys[j]), n))
  {
    assert !RankOrder(score)(keys[j], keys[i]);
    BytesTotal(keys[i], keys[j]);
    BytesLessIff(keys[i], keys[j], Bytes(keys[i]), Bytes(keys[j]));
  }

  /** The deciding scores are those of the rerank scorer if there is one, and else the scorer's; the
      starts are refined iff there is a scorer, refining is asked for and there are steps for it. */
  lemma GrownMeans(q: Request, starts: seq<Key>, refined: seq<Key>, padding: seq<Key>, candidates: seq<Key>)
    requires InputError(q).None? && |candidates| > 0 && GrownFrom(q, starts, refined, padding, candidates)
    ensures var first := Take(Ranked(candidates, FinalScore(q)), q.wanted)[0];
            && (q.rerank.Some? ==> forall k :: k in starts + refined ==> q.rerank.value(first) >= q.rerank.value(k))
            && (q.rerank.None? && q.scoring.Some? ==>
                  forall k :: k in starts + refined ==> q.scoring.value(first) >= q.scoring.value(k))
    ensures q.scoring.None? || !q.refine || q.plan.refineSteps <= 0 ==> refined == []
    ensures q.scoring.Some? && q.refine && q.plan.refineSteps > 0 ==>
              && |refined| == |starts|
              && forall i :: 0 <= i < |starts| ==> q.scoring.value(refined[i]) >= q.scoring.value(starts[i])
  {
    FirstBeatsAll(q, starts, refined, padding, candidates);
  }

  /** generate_seed_keys_periodic_columnar: an error exactly when an input check fails,
      so the layout check at the end never does. */
  method GenerateSeedKeys(q: Request, rng: Generator)
    returns (r: Result<seq<Key>, SeedError>, ghost made: seq<Key>, ghost starts: seq<Key>, ghost refined: seq<Key>,
             ghost padding: seq<Key>, ghost candidates: seq<Key>)
    requires |q.frequencies| == ALPHABET
    modifies rng
    ensures r.Err? <==> InputError(q).Some?
    ensures r.Err? ==> r.error == InputError(q).value
    ensures r.Ok? ==> Delivered(r.value, q) && r.value == Take(Ranked(candidates, FinalScore(q)), q.wanted)
    ensures r.Ok? ==> var counts := PhaseCounts(AsNats(q.text), q.period, q.perPhase);
              && Composed(made, counts, PlainOrder(q), q.columns, q.plan)
              && |made| == (if q.plan.starts < 1 then 1 else q.plan.starts) && starts == FirstSeen(made)
              && |starts| > 0 && Baseline(starts[0], counts, PlainOrder(q), q.columns)
              && GrownFrom(q, starts, refined, padding, candidates)
    ensures r.Ok? && FinalScore(q).Some? ==>
              forall k :: k in starts + refined ==> FinalScore(q).value(r.value[0]) >= FinalScore(q).value(k)
  {
    made, starts, refined, padding, candidates := [], [], [], [], [];
    if InputError(q).Some? {
      return Err(InputError(q).value), made, starts, refined, padding, candidates;
    }
    var counts := PhaseCounts(AsNats(q.text), q.period, q.perPhase);
    var first, tried := MakeStarts(counts, PlainOrder(q), q.columns, q.plan, rng);
    var pool, ranked, found, padded := Candidates(q, first, rng);
    TopDelivered(pool, q);
    FirstBeatsAll(q, first, found, padded, pool);
    made, starts, refined, padding, candidates := tried, first, found, padded, pool;
    var top := Take(ranked, q.wanted);
    var ok := CheckLayouts(top, q.period, q.columns);
    r := if ok then Ok(top) else Err(BadLayout);
  }
}
