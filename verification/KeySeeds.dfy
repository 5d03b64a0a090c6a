/** Seed keys for the periodic columnar cipher: a substitution block per phase of the
    period, then a column permutation, all in one flat key. */
module KeySeeds {
  import opened StableSort
  import opened Permutations
  import opened SeedRandom

  const ALPHABET: nat := 29

  type Key = seq<nat>

  function Block(key: Key, r: nat): seq<nat>
    requires (r + 1) * ALPHABET <= |key|
  {
    key[r * ALPHABET..(r + 1) * ALPHABET]
  }

  /** What _validate_key_layout checks. */
  predicate Layout(key: Key, period: nat, columns: nat) {
    && |key| == period * ALPHABET + columns
    && (forall r :: 0 <= r < period ==> IsPerm(Block(key, r), ALPHABET))
    && IsPerm(key[period * ALPHABET..], columns)
  }

  // -- swaps inside the layout -----------------------------------------------------

  /** A swap inside one block swaps there, and leaves the other blocks alone. */
  lemma BlockSwapped(key: Key, phase: nat, a: nat, b: nat, r: nat)
    requires a < ALPHABET && b < ALPHABET && (phase + 1) * ALPHABET <= |key| && (r + 1) * ALPHABET <= |key|
    ensures var k := Swapped(key, phase * ALPHABET + a, phase * ALPHABET + b);
            Block(k, r) == if r == phase then Swapped(Block(key, r), a, b) else Block(key, r)
  {
  }

  lemma SwapInBlock(key: Key, period: nat, columns: nat, phase: nat, a: nat, b: nat)
    requires Layout(key, period, columns) && phase < period && a < ALPHABET && b < ALPHABET
    ensures phase * ALPHABET + a < |key| && phase * ALPHABET + b < |key|
    ensures Layout(Swapped(key, phase * ALPHABET + a, phase * ALPHABET + b), period, columns)
  {
    var off := phase * ALPHABET;
    assert off + ALPHABET <= period * ALPHABET;
    var k := Swapped(key, off + a, off + b);
    forall r | 0 <= r < period ensures IsPerm(Block(k, r), ALPHABET) {
      BlockSwapped(key, phase, a, b, r);
      if r == phase {
        SwapPerm(Block(key, r), ALPHABET, a, b);
      }
    }
    assert k[period * ALPHABET..] == key[period * ALPHABET..];
  }

  lemma SwapInTail(key: Key, period: nat, columns: nat, a: nat, b: nat)
    requires Layout(key, period, columns) && a < columns && b < columns
    ensures Layout(Swapped(key, period * ALPHABET + a, period * ALPHABET + b), period, columns)
  {
    var off := period * ALPHABET;
    var k := Swapped(key, off + a, off + b);
    forall r | 0 <= r < period ensures IsPerm(Block(k, r), ALPHABET) {
      assert Block(k, r) == Block(key, r);
    }
    SwapPerm(key[off..], columns, a, b);
    assert k[off..] == Swapped(key[off..], a, b);
  }

  // -- block seeds -------------------------------------------------------------------

  /** np.lexsort((arange, -weights)): symbols by descending weight, then by symbol. */
  function ByWeight(weights: seq<real>): Order<nat> {
    var weight := (x: nat) => if x < |weights| then weights[x] else 0.0;
    (x: nat, y: nat) => weight(x) > weight(y) || (weight(x) == weight(y) && x < y)
  }

  /** Reordering a permutation gives a permutation. */
  lemma SameElementsPerm(p: seq<nat>, q: seq<nat>, n: nat)
    requires IsPerm(p, n) && multiset(q) == multiset(p)
    ensures IsPerm(q, n)
  {
    assert |q| == |multiset(q)| == |multiset(p)| == n;
    forall i | 0 <= i < n ensures q[i] < n {
      assert q[i] in multiset(q) && q[i] in multiset(p) && q[i] in p;
    }
    forall i, j | 0 <= i < j < n ensures q[i] != q[j] {
      if q[i] == q[j] {
        TwiceIn(q, i, j);
        DistinctOnce(p, q[i]);
      }
    }
  }

  function SymbolOrder(weights: seq<real>): (order: seq<nat>)
    requires |weights| == ALPHABET
    ensures IsPerm(order, ALPHABET)
    ensures forall i, j :: 0 <= i < j < ALPHABET ==>
              weights[order[i]] > weights[order[j]] || (weights[order[i]] == weights[order[j]] && order[i] < order[j])
  {
    var order := Sort<nat>(Identity(ALPHABET), ByWeight(weights));
    SortElements<nat>(Identity(ALPHABET), ByWeight(weights));
    SameElementsPerm(Identity(ALPHABET), order, ALPHABET);
    SortSorted<nat>(Identity(ALPHABET), ByWeight(weights));
    assert forall i, j :: 0 <= i < j < ALPHABET ==> !ByWeight(weights)(order[j], order[i]);
    order
  }

  function AsReals(counts: seq<nat>): (r: seq<real>)
    ensures |r| == |counts| && forall i :: 0 <= i < |r| ==> r[i] == counts[i] as real
  {
    seq(|counts|, i requires 0 <= i < |counts| => counts[i] as real)
  }

  /** The i-th most frequent ciphertext symbol stands for the i-th plaintext symbol. */
  ghost predicate Aligned(perm: seq<nat>, counts: seq<nat>, ptOrder: seq<nat>)
    requires |counts| == ALPHABET && IsPerm(ptOrder, ALPHABET)
  {
    IsPerm(perm, ALPHABET) && forall i :: 0 <= i < ALPHABET ==> perm[SymbolOrder(AsReals(counts))[i]] == ptOrder[i]
  }

  /** On the counts themselves: of two ciphertext symbols the more frequent one, or the smaller
      one if they are equally frequent, stands for the earlier plaintext symbol. */
  lemma AlignedByCounts(perm: seq<nat>, counts: seq<nat>, ptOrder: seq<nat>, x: nat, y: nat)
    requires |counts| == ALPHABET && IsPerm(ptOrder, ALPHABET) && Aligned(perm, counts, ptOrder)
    requires x < ALPHABET && y < ALPHABET && (counts[x] > counts[y] || (counts[x] == counts[y] && x < y))
    ensures |perm| == ALPHABET && exists i, j :: 0 <= i < j < ALPHABET && ptOrder[i] == perm[x] && ptOrder[j] == perm[y]
  {
    var order := SymbolOrder(AsReals(counts));
    var i, j := IndexOf(order, ALPHABET, x), IndexOf(order, ALPHABET, y);
    assert AsReals(counts)[x] == counts[x] as real && AsReals(counts)[y] == counts[y] as real;
    assert ptOrder[i] == perm[x] && ptOrder[j] == perm[y];
    assert i != j && !(j < i);
  }

  lemma ScatterPerm(order: seq<nat>, values: seq<nat>, perm: seq<nat>, n: nat)
    requires IsPerm(order, n) && IsPerm(values, n) && |perm| == n
    requires forall i :: 0 <= i < n ==> perm[order[i]] == values[i]
    ensures IsPerm(perm, n)
  {
    forall x | 0 <= x < n ensures perm[x] < n {
      assert perm[order[IndexOf(order, n, x)]] == values[IndexOf(order, n, x)];
    }
    forall x, y | 0 <= x < y < n ensures perm[x] != perm[y] {
      var i, j := IndexOf(order, n, x), IndexOf(order, n, y);
      assert perm[order[i]] == values[i] && perm[order[j]] == values[j];
    }
  }

  /** _rank_alignment_perm */
  method AlignmentPerm(counts: seq<nat>, ptOrder: seq<nat>) returns (perm: seq<nat>)
    requires |counts| == ALPHABET && IsPerm(ptOrder, ALPHABET)
    ensures Aligned(perm, counts, ptOrder)
  {
    var order := SymbolOrder(AsReals(counts));
    var out := new nat[ALPHABET](_ => 0);
    for i := 0 to ALPHABET
      invariant forall j :: 0 <= j < i ==> out[order[j]] == ptOrder[j]
    {
      out[order[i]] := ptOrder[i];
    }
    perm := out[..];
    ScatterPerm(order, ptOrder, perm, ALPHABET);
  }

  /** q is p after n swaps of two different entries. */
  ghost predicate BySwaps(p: seq<nat>, q: seq<nat>, n: nat)
    decreases n
  {
    if n == 0 then p == q
    else exists r: seq<nat>, a: nat, b: nat ::
      BySwaps(p, r, n - 1) && a < |r| && b < |r| && a != b && q == Swapped(r, a, b)
  }

  method SwapEntries(p: seq<nat>, rng: Generator, n: nat, swaps: nat) returns (out: seq<nat>)
    requires IsPerm(p, n) && n >= 2
    modifies rng
    ensures IsPerm(out, n) && BySwaps(p, out, swaps)
  {
    out := p;
    for i := 0 to swaps
      invariant IsPerm(out, n) && BySwaps(p, out, i)
    {
      var a, b := rng.Pair(n);
      SwapPerm(out, n, a, b);
      out := Swapped(out, a, b);
    }
  }

  method JitterPerm(perm: seq<nat>, rng: Generator, swaps: nat) returns (out: seq<nat>)
    requires IsPerm(perm, ALPHABET)
    modifies rng
    ensures IsPerm(out, ALPHABET) && BySwaps(perm, out, if swaps < 1 then 1 else swaps)
  {
    out := SwapEntries(perm, rng, ALPHABET, if swaps < 1 then 1 else swaps);
  }

  /** The i-th seed is the first one after 1 + i / 2 swaps. */
  ghost predicate Jittered(seeds: seq<seq<nat>>) {
    forall i :: 1 <= i < |seeds| ==> BySwaps(seeds[0], seeds[i], 1 + i / 2)
  }

  lemma JitteredMore(seeds: seq<seq<nat>>, t: seq<nat>)
    requires |seeds| > 0 && Jittered(seeds) && BySwaps(seeds[0], t, 1 + |seeds| / 2)
    ensures Jittered(seeds + [t])
  {
    var more := seeds + [t];
    forall i | 1 <= i < |more| ensures BySwaps(more[0], more[i], 1 + i / 2) {
      if i < |seeds| {
        assert more[i] == seeds[i];
      }
    }
  }

  ghost predicate AllPerms(seeds: seq<seq<nat>>, n: nat) {
    |seeds| > 0 && forall i :: 0 <= i < |seeds| ==> IsPerm(seeds[i], n)
  }

  /** The seeds of every phase; all phases have equally many. */
  ghost predicate BlockSeeds(byPhase: seq<seq<seq<nat>>>, period: nat, count: nat) {
    |byPhase| == period && forall r :: 0 <= r < period ==> AllPerms(byPhase[r], ALPHABET) && |byPhase[r]| == count
  }

  /** The seeds of one phase. */
  method PhaseSeeds(counts: seq<nat>, ptOrder: seq<nat>, nSeeds: int, rng: Generator) returns (seeds: seq<seq<nat>>)
    requires IsPerm(ptOrder, ALPHABET) && |counts| == ALPHABET
    modifies rng
    ensures AllPerms(seeds, ALPHABET) && |seeds| == if nSeeds < 1 then 1 else nSeeds
    ensures Aligned(seeds[0], counts, ptOrder) && Jittered(seeds)
  {
    var base := AlignmentPerm(counts, ptOrder);
    seeds := [base];
    var i := 1;
    while i < nSeeds
      invariant AllPerms(seeds, ALPHABET) && |seeds| == i && (i <= nSeeds || i == 1) && seeds[0] == base
      invariant Jittered(seeds)
    {
      var jittered := JitterPerm(base, rng, 1 + i / 2);
      JitteredMore(seeds, jittered);
      seeds := seeds + [jittered];
      i := i + 1;
    }
  }

  method MakeBlockSeeds(counts: seq<seq<nat>>, ptOrder: seq<nat>, nSeeds: int, rng: Generator)
    returns (byPhase: seq<seq<seq<nat>>>)
    requires IsPerm(ptOrder, ALPHABET) && forall r :: 0 <= r < |counts| ==> |counts[r]| == ALPHABET
    modifies rng
    ensures BlockSeeds(byPhase, |counts|, if nSeeds < 1 then 1 else nSeeds)
    ensures forall r :: 0 <= r < |counts| ==> Aligned(byPhase[r][0], counts[r], ptOrder) && Jittered(byPhase[r])
  {
    byPhase := [];
    for r := 0 to |counts|
      invariant BlockSeeds(byPhase, r, if nSeeds < 1 then 1 else nSeeds)
      invariant forall q :: 0 <= q < r ==> Aligned(byPhase[q][0], counts[q], ptOrder) && Jittered(byPhase[q])
    {
      var seeds := PhaseSeeds(counts[r], ptOrder, nSeeds, rng);
      byPhase := byPhase + [seeds];
    }
  }

  /** The first tails: the i-th is i swaps away from the order of the columns. */
  ghost predicate Swaps(seeds: seq<seq<nat>>, columns: nat) {
    forall i :: 0 <= i < |seeds| && i < 4 ==> BySwaps(Identity(columns), seeds[i], i)
  }

  lemma SwapsMore(seeds: seq<seq<nat>>, t: seq<nat>, columns: nat)
    requires Swaps(seeds, columns) && (|seeds| < 4 ==> BySwaps(Identity(columns), t, |seeds|))
    ensures Swaps(seeds + [t], columns)
  {
    var more := seeds + [t];
    forall i | 0 <= i < |more| && i < 4 ensures BySwaps(Identity(columns), more[i], i) {
      if i < |seeds| {
        assert more[i] == seeds[i];
      } else {
        assert more[i] == t;
      }
    }
  }

  method SwappedTails(columns: nat, nSeeds: int, rng: Generator) returns (seeds: seq<seq<nat>>)
    requires columns >= 2
    modifies rng
    ensures AllPerms(seeds, columns) && Swaps(seeds, columns)
    ensures |seeds| == if nSeeds < 1 then 1 else if nSeeds < 4 then nSeeds else 4
  {
    seeds := [Identity(columns)];
    var i := 1;
    while i < nSeeds && i < 4
      invariant AllPerms(seeds, columns) && Swaps(seeds, columns)
      invariant |seeds| == i <= 4 && (i <= nSeeds || i == 1)
    {
      var t := SwapEntries(Identity(columns), rng, columns, i);
      SwapsMore(seeds, t, columns);
      seeds := seeds + [t];
      i := i + 1;
    }
  }

  method MakeTailSeeds(columns: nat, nSeeds: int, rng: Generator) returns (seeds: seq<seq<nat>>)
    requires columns >= 1
    modifies rng
    ensures AllPerms(seeds, columns) && seeds[0] == Identity(columns) && Swaps(seeds, columns)
    ensures |seeds| == if columns <= 1 || nSeeds < 1 then 1 else nSeeds
  {
    if columns <= 1 {
      assert Identity(columns) == [0];
      return [[0]];
    }
    seeds := SwappedTails(columns, nSeeds, rng);
    while |seeds| < nSeeds
      invariant AllPerms(seeds, columns) && Swaps(seeds, columns)
      invariant |seeds| <= nSeeds || |seeds| == 1
      invariant |seeds| >= 4 || |seeds| >= nSeeds
    {
      var t := rng.Shuffled(columns);
      SwapsMore(seeds, t, columns);
      seeds := seeds + [t];
    }
    assert BySwaps(Identity(columns), seeds[0], 0);
  }

  // -- keys ----------------------------------------------------------------------------

  /** Concatenating blocks and a tail. */
  function Assemble(blocks: seq<seq<nat>>, tail: seq<nat>): Key {
    if |blocks| == 0 then tail else blocks[0] + Assemble(blocks[1..], tail)
  }

  lemma {:induction false} AssembleLayout(blocks: seq<seq<nat>>, tail: seq<nat>, columns: nat)
    requires (forall r :: 0 <= r < |blocks| ==> IsPerm(blocks[r], ALPHABET)) && IsPerm(tail, columns)
    ensures Layout(Assemble(blocks, tail), |blocks|, columns)
  {
    var key := Assemble(blocks, tail);
    if |blocks| == 0 {
      assert key[0..] == tail;
    } else {
      var rest := Assemble(blocks[1..], tail);
      AssembleLayout(blocks[1..], tail, columns);
      forall r | 0 <= r < |blocks| ensures IsPerm(Block(key, r), ALPHABET) {
        if r == 0 {
          assert Block(key, 0) == blocks[0];
        } else {
          assert Block(key, r) == Block(rest, r - 1);
        }
      }
      assert key[|blocks| * ALPHABET..] == rest[(|blocks| - 1) * ALPHABET..];
    }
  }

  predicate Distinct(keys: seq<Key>) {
    forall i, j :: 0 <= i < j < |keys| ==> keys[i] != keys[j]
  }

  ghost predicate AllLayout(keys: seq<Key>, period: nat, columns: nat) {
    forall i :: 0 <= i < |keys| ==> Layout(keys[i], period, columns)
  }

  /** Each key once, where it first stands. */
  function FirstSeen(keys: seq<Key>): (out: seq<Key>)
    ensures forall k :: k in out <==> k in keys
    ensures |keys| > 0 ==> |out| > 0 && out[0] == keys[0]
  {
    if |keys| == 0 then []
    else
      var init, last := keys[..|keys| - 1], keys[|keys| - 1];
      assert keys == init + [last];
      if last in init then FirstSeen(init) else FirstSeen(init) + [last]
  }

  /** k appears at n for the first time. */
  ghost predicate FirstAt(keys: seq<Key>, n: nat, k: Key) {
    n < |keys| && keys[n] == k && k !in keys[..n]
  }

  lemma FirstAtMore(keys: seq<Key>, last: Key, n: nat, k: Key)
    requires FirstAt(keys, n, k)
    ensures FirstAt(keys + [last], n, k)
  {
    assert (keys + [last])[..n] == keys[..n];
  }

  /** Where the kept keys stand in the list: in order, and each where it appears first. */
  lemma {:induction false} FirstSeenAt(keys: seq<Key>) returns (at: seq<nat>)
    ensures |at| == |FirstSeen(keys)| && forall i, j :: 0 <= i < j < |at| ==> at[i] < at[j]
    ensures forall i :: 0 <= i < |at| ==> FirstAt(keys, at[i], FirstSeen(keys)[i])
  {
    at := [];
    if |keys| > 0 {
      var init, last := keys[..|keys| - 1], keys[|keys| - 1];
      at := FirstSeenAt(init);
      assert keys == init + [last];
      forall i | 0 <= i < |at| ensures FirstAt(keys, at[i], FirstSeen(init)[i]) {
        FirstAtMore(init, last, at[i], FirstSeen(init)[i]);
      }
      if last !in init {
        assert keys[..|init|] == init && FirstAt(keys, |init|, last);
        assert forall i :: 0 <= i < |at| ==> at[i] < |init| by {
          assert forall i :: 0 <= i < |at| ==> FirstAt(init, at[i], FirstSeen(init)[i]);
        }
        at := at + [|init|];
      }
    }
  }

  /** _unique_keys_preserve_order */
  method UniqueKeys(keys: seq<Key>) returns (out: seq<Key>)
    ensures out == FirstSeen(keys) && Distinct(out)
  {
    out := [];
    var seen: set<Key> := {};
    for i := 0 to |keys|
      invariant out == FirstSeen(keys[..i]) && Distinct(out)
      invariant forall k :: k in seen <==> k in out
    {
      assert keys[..i + 1][..i] == keys[..i];
      if keys[i] !in seen {
        seen := seen + {keys[i]};
        out := out + [keys[i]];
      }
    }
    assert keys[..|keys|] == keys;
  }

  function Picked(byPhase: seq<seq<seq<nat>>>, picks: seq<nat>): (blocks: seq<seq<nat>>)
    requires |picks| == |byPhase| && forall r :: 0 <= r < |byPhase| ==> picks[r] < |byPhase[r]|
    ensures |blocks| == |byPhase| && forall r :: 0 <= r < |byPhase| ==> blocks[r] == byPhase[r][picks[r]]
  {
    seq(|byPhase|, r requires 0 <= r < |byPhase| => byPhase[r][picks[r]])
  }

  /** One seed of each phase and one tail. */
  method AssembleKey(byPhase: seq<seq<seq<nat>>>, picks: seq<nat>, tail: seq<nat>, count: nat,
                     columns: nat) returns (key: Key)
    requires BlockSeeds(byPhase, |byPhase|, count) && IsPerm(tail, columns)
    requires |picks| == |byPhase| && forall r :: 0 <= r < |picks| ==> picks[r] < count
    ensures Layout(key, |byPhase|, columns) && key == Assemble(Picked(byPhase, picks), tail)
  {
    var blocks := Picked(byPhase, picks);
    AssembleLayout(blocks, tail, columns);
    key := Assemble(blocks, tail);
  }

  /** The key is one seed of each phase and one of the tails. */
  ghost predicate FromSeeds(key: Key, byPhase: seq<seq<seq<nat>>>, tails: seq<seq<nat>>) {
    exists picks: seq<nat>, t: nat ::
      && |picks| == |byPhase| && (forall r :: 0 <= r < |byPhase| ==> picks[r] < |byPhase[r]|) && t < |tails|
      && key == Assemble(Picked(byPhase, picks), tails[t])
  }

  lemma UniqueLayout(keys: seq<Key>, out: seq<Key>, period: nat, columns: nat)
    requires AllLayout(keys, period, columns) && forall k :: k in out ==> k in keys
    ensures AllLayout(out, period, columns)
  {
    forall i | 0 <= i < |out| ensures Layout(out[i], period, columns) {
      assert out[i] in keys;
    }
  }

  method MakeStartKeys(byPhase: seq<seq<seq<nat>>>, tails: seq<seq<nat>>, count: nat, columns: nat, nStarts: int,
                       rng: Generator)
    returns (keys: seq<Key>, ghost starts: seq<Key>)
    requires |byPhase| > 0 && count > 0 && BlockSeeds(byPhase, |byPhase|, count) && AllPerms(tails, columns)
    modifies rng
    ensures |keys| > 0 && AllLayout(keys, |byPhase|, columns) && Distinct(keys)
    ensures keys[0] == Assemble(Picked(byPhase, seq(|byPhase|, _ => 0)), tails[0])
    ensures keys == FirstSeen(starts) && |starts| == if nStarts < 1 then 1 else nStarts
    ensures forall i :: 0 <= i < |starts| ==> FromSeeds(starts[i], byPhase, tails)
  {
    var first := AssembleKey(byPhase, seq(|byPhase|, _ => 0), tails[0], count, columns);
    var made := [first];
    var attempts := 0;
    var maxAttempts := if nStarts * 20 < 10 then 10 else nStarts * 20;
    while |made| < nStarts && attempts < maxAttempts
      invariant AllLayout(made, |byPhase|, columns) && |made| > 0 && made[0] == first
      invariant attempts == |made| - 1 && (|made| <= nStarts || |made| == 1)
      invariant forall i :: 0 <= i < |made| ==> FromSeeds(made[i], byPhase, tails)
      decreases maxAttempts - attempts
    {
      var picks: seq<nat> := [];
      while |picks| < |byPhase|
        invariant |picks| <= |byPhase| && forall r :: 0 <= r < |picks| ==> picks[r] < count
      {
        var pick := rng.Below(count);
        picks := picks + [pick];
      }
      var t := rng.Below(|tails|);
      var key := AssembleKey(byPhase, picks, tails[t], count, columns);
      made := made + [key];
      attempts := attempts + 1;
    }
    starts := made;
    keys := UniqueKeys(made);
    UniqueLayout(made, keys, |byPhase|, columns);
  }

  lemma {:induction false} DistinctSeen(keys: seq<Key>)
    requires Distinct(keys)
    ensures FirstSeen(keys) == keys
  {
    if |keys| > 0 {
      DistinctSeen(keys[..|keys| - 1]);
      assert keys == keys[..|keys| - 1] + [keys[|keys| - 1]];
    }
  }

  /** How many random keys are tried for so many missing ones. */
  function Attempts(missing: nat): nat {
    if missing * 50 < 100 then 100 else missing * 50
  }

  /** A random block for every phase, and a random tail. */
  method RandomKey(period: nat, columns: nat, rng: Generator) returns (key: Key)
    requires columns >= 1
    modifies rng
    ensures Layout(key, period, columns)
  {
    var blocks: seq<seq<nat>> := [];
    while |blocks| < period
      invariant |blocks| <= period && forall r :: 0 <= r < |blocks| ==> IsPerm(blocks[r], ALPHABET)
    {
      var block := rng.Shuffled(ALPHABET);
      blocks := blocks + [block];
    }
    var tail: seq<nat> := [0];
    if columns > 1 {
      tail := rng.Shuffled(columns);
    }
    AssembleLayout(blocks, tail, columns);
    key := Assemble(blocks, tail);
  }

  lemma {:induction false} SeenDistinct(keys: seq<Key>)
    ensures Distinct(FirstSeen(keys))
  {
    if |keys| > 0 {
      SeenDistinct(keys[..|keys| - 1]);
      assert keys == keys[..|keys| - 1] + [keys[|keys| - 1]];
    }
  }

  lemma SeenMore(keys: seq<Key>, made: seq<Key>, k: Key)
    ensures FirstSeen(keys + (made + [k])) == FirstSeen(keys + made) + if k in FirstSeen(keys + made) then [] else [k]
  {
    assert keys + (made + [k]) == (keys + made) + [k] && ((keys + made) + [k])[..|keys + made|] == keys + made;
  }

  /** out are the keys and, in order, what is new among the attempts. */
  ghost predicate Padded(keys: seq<Key>, made: seq<Key>, out: seq<Key>, period: nat, columns: nat) {
    keys <= out && out == FirstSeen(keys + made) && AllLayout(made, period, columns)
  }

  function KeySet(keys: seq<Key>): set<Key> {
    set k | k in keys
  }

  lemma PaddedMore(keys: seq<Key>, made: seq<Key>, out: seq<Key>, k: Key, period: nat, columns: nat)
    requires Padded(keys, made, out, period, columns) && Layout(k, period, columns)
    ensures Padded(keys, made + [k], if k in KeySet(out) then out else out + [k], period, columns)
    ensures KeySet(out + [k]) == KeySet(out) + {k}
  {
    SeenMore(keys, made, k);
  }

  lemma PaddedStart(keys: seq<Key>, period: nat, columns: nat)
    requires Distinct(keys)
    ensures Padded(keys, [], keys, period, columns)
  {
    DistinctSeen(keys);
    assert keys + [] == keys;
  }

  lemma PaddedKeeps(keys: seq<Key>, made: seq<Key>, out: seq<Key>, period: nat, columns: nat)
    requires Padded(keys, made, out, period, columns) && AllLayout(keys, period, columns)
    ensures AllLayout(out, period, columns) && Distinct(out)
  {
    SeenDistinct(keys + made);
    UniqueLayout(keys + made, out, period, columns);
  }

  /** Random keys until the target is reached or all attempts are used; `made` are the attempts. */
  method PadCandidates(keys: seq<Key>, target: nat, period: nat, columns: nat, rng: Generator)
    returns (out: seq<Key>, ghost made: seq<Key>)
    requires AllLayout(keys, period, columns) && Distinct(keys) && columns >= 1
    modifies rng
    ensures keys <= out && AllLayout(out, period, columns) && Distinct(out)
    ensures |keys| <= target ==> |out| <= target
    ensures |keys| >= target ==> out == keys && made == []
    ensures out == FirstSeen(keys + made) && AllLayout(made, period, columns)
    ensures |keys| < target ==> |out| == target || |made| == Attempts(target - |keys|)
  {
    out, made := keys, [];
    PaddedStart(keys, period, columns);
    if |keys| >= target {
      return;
    }
    var seen := KeySet(keys);
    var maxAttempts := Attempts(target - |out|);
    var attempts := 0;
    while |out| < target && attempts < maxAttempts
      invariant Padded(keys, made, out, period, columns) && |out| <= target && |made| == attempts <= maxAttempts
      invariant seen == KeySet(out)
      decreases maxAttempts - attempts
    {
      var k := RandomKey(period, columns, rng);
      PaddedMore(keys, made, out, k, period, columns);
      made := made + [k];
      if k !in seen {
        seen := seen + {k};
        out := out + [k];
      }
      attempts := attempts + 1;
    }
    PaddedKeeps(keys, made, out, period, columns);
  }

  // -- scores and the cache --------------------------------------------------------------

  /** A scorer with its cache of decrypt-and-score results. */
  class CachedScorer {
    const score: Key -> real
    var cache: map<Key, real>

    /** Every cached score is the uncached one. */
    ghost predicate Valid()
      reads this
    {
      forall k :: k in cache ==> cache[k] == score(k)
    }

    constructor (score: Key -> real)
      ensures Valid() && this.score == score && cache == map[]
    {
      this.score, cache := score, map[];
    }

    /** _score_key */
    method ScoreKey(key: Key) returns (s: real)
      requires Valid()
      modifies this
      ensures Valid() && s == score(key)
      ensures cache == old(cache)[key := s]
    {
      if key in cache {
        assert cache == cache[key := cache[key]];
        return cache[key];
      }
      s := score(key);
      cache := cache[key := s];
    }
  }

  /** Both entries lie in the tail, or in the same block. */
  predicate SamePart(i: nat, j: nat, period: nat) {
    (i >= period * ALPHABET && j >= period * ALPHABET) ||
        (i < period * ALPHABET && j < period * ALPHABET && i / ALPHABET == j / ALPHABET)
  }

  ghost predicate OneSwap(k: Key, next: Key, period: nat) {
    exists i: nat, j: nat :: i < |k| && j < |k| && i != j && SamePart(i, j, period) && next == Swapped(k, i, j)
  }

  lemma BlockIndex(phase: nat, a: nat, period: nat)
    requires a < ALPHABET && phase < period
    ensures (phase * ALPHABET + a) / ALPHABET == phase && phase * ALPHABET + a < period * ALPHABET
  {
  }

  /** One proposal of the walk: two entries of the tail or of one block change places. */
  method Propose(k: Key, period: nat, columns: nat, rng: Generator) returns (next: Key)
    requires Layout(k, period, columns) && period > 0
    modifies rng
    ensures Layout(next, period, columns) && OneSwap(k, next, period)
  {
    var tails := rng.Coin();
    if columns >= 2 && tails {
      var a, b := rng.Pair(columns);
      SwapInTail(k, period, columns, a, b);
      next := Swapped(k, period * ALPHABET + a, period * ALPHABET + b);
    } else {
      var phase := rng.Below(period);
      var a, b := rng.Pair(ALPHABET);
      SwapInBlock(k, period, columns, phase, a, b);
      BlockIndex(phase, a, period);
      BlockIndex(phase, b, period);
      next := Swapped(k, phase * ALPHABET + a, phase * ALPHABET + b);
    }
  }

  /** One step of the walk from k: the proposal is taken unless it is worse and unlucky. */
  datatype Move = Move(proposal: Key, lucky: bool)

  function Stand(score: Key -> real, k: Key, move: Move): (next: Key)
    ensures score(move.proposal) >= score(k) ==> next == move.proposal
    ensures score(move.proposal) < score(k) ==> next == if move.lucky then move.proposal else k
  {
    if score(move.proposal) >= score(k) || move.lucky then move.proposal else k
  }

  ghost predicate IsMove(k: Key, move: Move, period: nat, warm: bool) {
    OneSwap(k, move.proposal, period) && (move.lucky ==> warm)
  }

  /** Where the walk stands before and after each of its moves. */
  ghost predicate IsWalk(score: Key -> real, k0: Key, moves: seq<Move>, stands: seq<Key>, period: nat,
                         hot: nat -> bool) {
    && |stands| == |moves| + 1 && stands[0] == k0
    && forall i :: 0 <= i < |moves| ==>
         IsMove(stands[i], moves[i], period, hot(i)) && stands[i + 1] == Stand(score, stands[i], moves[i])
  }

  /** k is the first of the best keys. */
  ghost predicate FirstBest(score: Key -> real, keys: seq<Key>, k: Key) {
    && (forall i :: 0 <= i < |keys| ==> score(keys[i]) <= score(k))
    && exists i :: 0 <= i < |keys| && keys[i] == k && forall j :: 0 <= j < i ==> score(keys[j]) < score(k)
  }

  lemma FirstBestGrows(score: Key -> real, keys: seq<Key>, best: Key, k: Key)
    requires FirstBest(score, keys, best)
    ensures FirstBest(score, keys + [k], if score(k) > score(best) then k else best)
  {
    var more := keys + [k];
    if score(k) > score(best) {
      assert more[|keys|] == k;
    } else {
      var i :| 0 <= i < |keys| && keys[i] == best && forall j :: 0 <= j < i ==> score(keys[j]) < score(best);
      assert more[i] == best;
    }
  }

  lemma WalkGrows(score: Key -> real, k0: Key, moves: seq<Move>, stands: seq<Key>, period: nat, hot: nat -> bool,
                  move: Move)
    requires IsWalk(score, k0, moves, stands, period, hot)
    requires IsMove(stands[|moves|], move, period, hot(|moves|))
    ensures IsWalk(score, k0, moves + [move], stands + [Stand(score, stands[|moves|], move)], period, hot)
  {
    var more, ks := moves + [move], stands + [Stand(score, stands[|moves|], move)];
    forall i | 0 <= i < |more|
      ensures IsMove(ks[i], more[i], period, hot(i)) && ks[i + 1] == Stand(score, ks[i], more[i])
    {
      if i < |moves| {
        assert more[i] == moves[i] && ks[i] == stands[i] && ks[i + 1] == stands[i + 1];
      }
    }
  }

  lemma WalkStart(score: Key -> real, k0: Key, period: nat, hot: nat -> bool)
    ensures IsWalk(score, k0, [], [k0], period, hot) && FirstBest(score, [k0], k0)
  {
    assert [k0][0] == k0;
  }

  /** No proposal, taken or not, beats the best key. */
  lemma ProposalsBehind(score: Key -> real, k0: Key, moves: seq<Move>, stands: seq<Key>, period: nat, hot: nat -> bool,
                        best: Key)
    requires IsWalk(score, k0, moves, stands, period, hot) && FirstBest(score, stands, best)
    ensures forall i :: 0 <= i < |moves| ==> score(moves[i].proposal) <= score(best)
  {
    forall i | 0 <= i < |moves| ensures score(moves[i].proposal) <= score(best) {
      assert stands[i + 1] == Stand(score, stands[i], moves[i]);
      assert score(stands[i]) <= score(best) && score(stands[i + 1]) <= score(best);
    }
  }

  /** Cache entries are never changed or dropped. */
  twostate predicate CacheGrows(scorer: CachedScorer)
    reads scorer
  {
    forall k :: k in old(scorer.cache) ==> k in scorer.cache && scorer.cache[k] == old(scorer.cache)[k]
  }

  /** _refine_key: an annealed walk that remembers the first of the best keys it stood on. */
  method RefineKey(k0: Key, period: nat, columns: nat, steps: int, hot: nat -> bool, scorer: CachedScorer,
                   rng: Generator)
    returns (best: Key, ghost moves: seq<Move>, ghost stands: seq<Key>)
    requires Layout(k0, period, columns) && period > 0 && scorer.Valid()
    modifies scorer, rng
    ensures scorer.Valid() && CacheGrows(scorer) && (steps > 0 ==> best in scorer.cache)
    ensures Layout(best, period, columns) && scorer.score(best) >= scorer.score(k0)
    ensures |moves| == if steps < 0 then 0 else steps
    ensures IsWalk(scorer.score, k0, moves, stands, period, hot) && FirstBest(scorer.score, stands, best)
    ensures forall i :: 0 <= i < |moves| ==> scorer.score(moves[i].proposal) <= scorer.score(best)
  {
    best, moves, stands := k0, [], [k0];
    WalkStart(scorer.score, k0, period, hot);
    if steps <= 0 {
      return;
    }
    var k := k0;
    var s := scorer.ScoreKey(k);
    var sBest := s;
    for step := 0 to steps
      invariant scorer.Valid() && CacheGrows(scorer)
      invariant Layout(k, period, columns) && s == scorer.score(k)
      invariant Layout(best, period, columns) && sBest == scorer.score(best) && best in scorer.cache
      invariant |moves| == step && IsWalk(scorer.score, k0, moves, stands, period, hot) && stands[step] == k
      invariant FirstBest(scorer.score, stands, best)
    {
      var next := Propose(k, period, columns, rng);
      var sNext := scorer.ScoreKey(next);
      var lucky := false;
      if sNext - s < 0.0 && hot(step) {
        lucky := rng.Coin();
      }
      WalkGrows(scorer.score, k0, moves, stands, period, hot, Move(next, lucky));
      moves := moves + [Move(next, lucky)];
      if sNext - s >= 0.0 || lucky {
        k, s := next, sNext;
      }
      FirstBestGrows(scorer.score, stands, best, k);
      stands := stands + [k];
      if s > sBest {
        best, sBest := k, s;
      }
    }
    ProposalsBehind(scorer.score, k0, moves, stands, period, hot, best);
  }

  // -- ranking -----------------------------------------------------------------------------

  /** key.tobytes() order: each entry is a two-byte number, low byte first. */
  predicate BytesLess(a: Key, b: Key) {
    if |a| == 0 || |b| == 0 then |a| < |b|
    else if a[0] == b[0] then BytesLess(a[1..], b[1..])
    else a[0] % 256 < b[0] % 256 || (a[0] % 256 == b[0] % 256 && a[0] / 256 < b[0] / 256)
  }

  /** The bytes of a key, low byte first. */
  function Bytes(key: Key): (bytes: seq<nat>)
    ensures |bytes| == 2 * |key|
  {
    if |key| == 0 then [] else [key[0] % 256, key[0] / 256] + Bytes(key[1..])
  }

  /** s and t differ first at i, where s ends or has the smaller byte. */
  ghost predicate BytesDiffer(s: seq<nat>, t: seq<nat>, i: nat) {
    i <= |s| && i < |t| && s[..i] == t[..i] && (i < |s| ==> s[i] < t[i])
  }

  lemma DifferBehind(s: seq<nat>, t: seq<nat>, k: nat, i: nat)
    requires k <= |s| && k <= |t| && s[..k] == t[..k]
    ensures BytesDiffer(s, t, k + i) <==> BytesDiffer(s[k..], t[k..], i)
  {
    if k + i <= |s| && k + i < |t| {
      assert s[..k + i] == s[..k] + s[k..][..i] && t[..k + i] == t[..k] + t[k..][..i];
      if s[..k + i] == t[..k + i] {
        assert s[k..][..i] == s[..k + i][k..] && t[k..][..i] == t[..k + i][k..];
      }
    }
  }

  lemma SamePrefix(s: seq<nat>, t: seq<nat>, i: nat)
    requires i <= |s| && i <= |t| && s[..i] == t[..i]
    ensures forall j :: 0 <= j < i ==> s[j] == t[j]
  {
    forall j | 0 <= j < i ensures s[j] == t[j] {
      assert s[..i][j] == t[..i][j];
    }
  }

  lemma DifferInFront(s: seq<nat>, t: seq<nat>, k: nat, i: nat)
    requires k < |s| && k < |t| && s[..k] == t[..k] && s[k] != t[k]
    ensures BytesDiffer(s, t, i) <==> i == k && s[k] < t[k]
  {
    SamePrefix(s, t, k);
    if i <= |s| && i < |t| && s[..i] == t[..i] {
      SamePrefix(s, t, i);
    }
  }

  lemma NothingDiffers(s: seq<nat>, t: seq<nat>)
    requires |s| == 0 || |t| == 0
    ensures |s| < |t| <==> exists i: nat :: BytesDiffer(s, t, i)
  {
    if |s| < |t| {
      assert BytesDiffer(s, t, 0);
    }
  }

  lemma SameNumber(a: nat, b: nat)
    requires a % 256 == b % 256 && a / 256 == b / 256
    ensures a == b
  {
  }

  /** Ranking by bytes is comparing the bytes one by one. */
  lemma {:induction false} BytesLessIff(a: Key, b: Key, s: seq<nat>, t: seq<nat>)
    requires s == Bytes(a) && t == Bytes(b)
    ensures BytesLess(a, b) <==> exists i: nat :: BytesDiffer(s, t, i)
  {
    if |a| == 0 || |b| == 0 {
      NothingDiffers(s, t);
    } else if a[0] == b[0] {
      BytesLessIff(a[1..], b[1..], s[2..], t[2..]);
      assert s[..2] == t[..2];
      SamePrefix(s, t, 2);
      if i: nat :| BytesDiffer(s[2..], t[2..], i) {
        DifferBehind(s, t, 2, i);
      }
      if i: nat :| BytesDiffer(s, t, i) {
        DifferBehind(s, t, 2, i - 2);
      }
    } else {
      if a[0] % 256 == b[0] % 256 && a[0] / 256 == b[0] / 256 {
        SameNumber(a[0], b[0]);
      }
      var k := if a[0] % 256 == b[0] % 256 then 1 else 0;
      assert s[..k] == t[..k];
      forall i: nat ensures BytesDiffer(s, t, i) <==> i == k && s[k] < t[k] {
        DifferInFront(s, t, k, i);
      }
      assert BytesDiffer(s, t, k) <==> s[k] < t[k];
    }
  }

  /** The sort key (-score, bytes). */
  function RankOrder(score: Key -> real): Order<Key> {
    (x: Key, y: Key) => score(x) > score(y) || (score(x) == score(y) && BytesLess(x, y))
  }

  lemma {:induction false} BytesAsymmetric(a: Key, b: Key)
    requires BytesLess(a, b)
    ensures !BytesLess(b, a)
  {
    if |a| > 0 && a[0] == b[0] {
      BytesAsymmetric(a[1..], b[1..]);
    }
  }

  lemma {:induction false} BytesWeak(a: Key, b: Key, c: Key)
    requires BytesLess(a, c)
    ensures BytesLess(a, b) || BytesLess(b, c)
  {
    if |a| > 0 && |b| > 0 {
      if a[0] == c[0] == b[0] {
        BytesWeak(a[1..], b[1..], c[1..]);
      }
    }
  }

  lemma RankIsWeak(score: Key -> real)
    ensures StrictWeak(RankOrder(score))
  {
    var less := RankOrder(score);
    forall x, y | less(x, y) ensures !less(y, x) {
      if BytesLess(x, y) {
        BytesAsymmetric(x, y);
      }
    }
    forall x, y, z | less(x, z) ensures less(x, y) || less(y, z) {
      if BytesLess(x, z) {
        BytesWeak(x, y, z);
      }
    }
  }

  function PairOrder(): Order<(real, Key)> {
    (x: (real, Key), y: (real, Key)) => x.0 > y.0 || (x.0 == y.0 && BytesLess(x.1, y.1))
  }

  ghost predicate ScoredKeys(pairs: seq<(real, Key)>, keys: seq<Key>, score: Key -> real) {
    |pairs| == |keys| && forall i :: 0 <= i < |keys| ==> pairs[i] == (score(keys[i]), keys[i])
  }

  lemma {:induction false} InsertPair(pairs: seq<(real, Key)>, keys: seq<Key>, k: Key, score: Key -> real)
    requires ScoredKeys(pairs, keys, score)
    ensures ScoredKeys(Insert(pairs, (score(k), k), PairOrder()), Insert(keys, k, RankOrder(score)), score)
  {
    if |keys| > 0 {
      assert ScoredKeys(pairs[1..], keys[1..], score);
      InsertPair(pairs[1..], keys[1..], k, score);
    }
  }

  lemma {:induction false} SortPairs(pairs: seq<(real, Key)>, keys: seq<Key>, score: Key -> real)
    requires ScoredKeys(pairs, keys, score)
    ensures ScoredKeys(Sort(pairs, PairOrder()), Sort(keys, RankOrder(score)), score)
  {
    if |keys| > 0 {
      var n := |keys| - 1;
      assert ScoredKeys(pairs[..n], keys[..n], score);
      SortPairs(pairs[..n], keys[..n], score);
      InsertPair(Sort(pairs[..n], PairOrder()), Sort(keys[..n], RankOrder(score)), keys[n], score);
    }
  }

  /** _rank_candidates: with or without the cache, the ranking by the uncached scores. */
  method RankCandidates(keys: seq<Key>, scorer: CachedScorer, cached: bool) returns (ranked: seq<Key>)
    requires scorer.Valid()
    modifies scorer
    ensures scorer.Valid() && ranked == Sort(keys, RankOrder(scorer.score))
  {
    var scored: seq<(real, Key)> := [];
    for i := 0 to |keys|
      invariant scorer.Valid() && |scored| == i
      invariant forall j :: 0 <= j < i ==> scored[j] == (scorer.score(keys[j]), keys[j])
    {
      var s: real;
      if cached {
        s := scorer.ScoreKey(keys[i]);
      } else {
        s := scorer.score(keys[i]);
      }
      scored := scored + [(s, keys[i])];
    }
    var pairs := Sort(scored, PairOrder());
    SortPairs(scored, keys, scorer.score);
    ranked := seq(|pairs|, i requires 0 <= i < |pairs| => pairs[i].1);
  }
}
