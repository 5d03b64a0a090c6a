/** The free dimensions that the declared benchmarks promise and the case builder enforces. */
module BenchmarkLadder {
  import opened ModArith
  import opened KeySpace
  import opened TwoPeriodRank
  import opened FineWilf
  import opened CribGraph

  const CRIB_START: nat := 188
  const DORMOUSE_RUNES: seq<nat> := [23, 3, 4, 19, 3, 1, 15, 18]
  const DORMOUSE_206 := CribSpec(206, DORMOUSE_RUNES)
  const DORMOUSE_081 := CribSpec(81, DORMOUSE_RUNES)

  ghost function SpanPositions(spans: seq<CribSpec>): set<nat> {
    if |spans| == 0 then {} else
      var last := spans[|spans| - 1];
      SpanPositions(spans[..|spans| - 1]) + Window(last.start, |last.runes|)
  }

  lemma {:induction false} PositionsOfSpans(spans: seq<CribSpec>)
    ensures Positions(Knowns(spans)) == SpanPositions(spans)
  {
    if |spans| > 0 {
      var last := spans[|spans| - 1];
      var before, more := Knowns(spans[..|spans| - 1]), SpanKnowns(last, |last.runes|);
      PositionsOfSpans(spans[..|spans| - 1]);
      WindowAre(last.start, |last.runes|);
      var all := before + more;
      forall p: nat | p in Window(last.start, |last.runes|) ensures p in Positions(all) {
        var i := |before| + (p - last.start);
        assert all[i].pos == p;
      }
      forall p: nat | p in Positions(before) ensures p in Positions(all) {
        var i :| 0 <= i < |before| && before[i].pos == p;
        assert all[i].pos == p;
      }
      forall p: nat | p in Positions(all) ensures p in Positions(before) || p in Window(last.start, |last.runes|) {
        var i :| 0 <= i < |all| && all[i].pos == p;
        if i < |before| {
          assert before[i].pos == p;
        }
      }
    }
  }

  /** With the primary crib alone, thirteen known runes. */
  lemma PrimaryCribDimension(b: BenchmarkSpec, ciphertext: seq<int>, s: AffineKeys)
    requires b.Valid() && |ciphertext| == b.textLength && ExactlyFits(b, ciphertext, s)
    requires Coprime(b.periodA, b.periodB) && b.additionalCribs == []
    ensures |s.free| == b.periodA + b.periodB - 1 - Min(13, b.periodA + b.periodB - 1)
  {
    PositionsOfSpans(b.Spans());
    assert b.Spans()[..0] == [];
    assert SpanPositions(b.Spans()) == Window(b.cribStart, 13);
    ContiguousFreeDimension(b, ciphertext, s, b.cribStart, 13);
  }

  lemma DeclaredLadder(b: BenchmarkSpec, ciphertext: seq<int>, s: AffineKeys, declared: nat)
    requires b.Valid() && |ciphertext| == b.textLength && ExactlyFits(b, ciphertext, s) && b.additionalCribs == []
    requires (b.periodA, b.periodB, declared) in {(5, 7, 0), (5, 13, 4), (9, 13, 8), (13, 17, 16), (13, 31, 30)}
    ensures |s.free| == declared
  {
    CoprimeBy(5, 7, 3, -2);
    CoprimeBy(5, 13, -5, 2);
    CoprimeBy(9, 13, 3, -2);
    CoprimeBy(13, 17, 4, -3);
    CoprimeBy(13, 31, 12, -5);
    PrimaryCribDimension(b, ciphertext, s);
  }

  // -- with additional cribs: an order in which every known position reaches something new --------

  lemma TwoSpans(x: CribSpec, y: CribSpec)
    ensures SpanPositions([x, y]) == Window(x.start, |x.runes|) + Window(y.start, |y.runes|)
  {
    var one, two := [x], [x, y];
    assert two[..1] == one && one[..0] == [];
    assert SpanPositions(one) == Window(x.start, |x.runes|);
    assert SpanPositions(two) == SpanPositions(one) + Window(y.start, |y.runes|);
  }

  lemma ThreeSpans(x: CribSpec, y: CribSpec, z: CribSpec)
    ensures SpanPositions([x, y, z]) ==
              Window(x.start, |x.runes|) + Window(y.start, |y.runes|) + Window(z.start, |z.runes|)
  {
    var three := [x, y, z];
    assert three[..2] == [x, y];
    TwoSpans(x, y);
  }

  /** Runs that cover exactly the crib positions, each reaching something new. */
  lemma DimensionByRuns(b: BenchmarkSpec, ciphertext: seq<int>, s: AffineKeys, runs: Runs)
    requires b.Valid() && |ciphertext| == b.textLength && ExactlyFits(b, ciphertext, s)
    requires AllFresh(b.periodA, b.periodB, runs)
    requires forall p: nat :: p in SpanPositions(b.Spans()) <==> Covers(runs, p)
    ensures |s.free| + Count(runs) == b.KeyLength() - 1
  {
    PositionsOfSpans(b.Spans());
    forall p: nat ensures p in PositionSet(Unroll(runs)) <==> p in CribPositions(b) {
      UnrollCovers(runs, p);
    }
    FreeIsComponents(b, ciphertext, s, Unroll(runs));
    AllFreshJoin(b, runs);
  }

  const LONG_206 := Then(Then(Start, Stretch(206, 8, true)), Stretch(188, 13, true))
  const LONG_081 := Then(Then(Start, Stretch(81, 8, true)), Stretch(188, 13, true))
  const LONG_BOTH :=
    Then(Then(Then(Then(Then(Then(Then(Start,
      Stretch(211, 2, true)), Stretch(81, 6, true)), Stretch(87, 2, false)), Stretch(206, 2, false)),
      Stretch(208, 3, false)), Stretch(213, 1, true)), Stretch(188, 13, true))
  const SHORT_206 :=
    Then(Then(Then(Then(Then(Then(Then(Start,
      Stretch(206, 2, true)), Stretch(208, 2, true)), Stretch(193, 2, true)), Stretch(195, 2, true)),
      Stretch(210, 4, false)), Stretch(197, 4, true)), Stretch(188, 5, false))
  const SHORT_081 :=
    Then(Then(Then(Then(Then(Then(Then(Then(Then(Start,
      Stretch(188, 2, true)), Stretch(86, 2, false)), Stretch(190, 1, true)), Stretch(88, 1, false)),
          Stretch(200, 1, true)),
      Stretch(81, 2, false)), Stretch(83, 2, true)), Stretch(85, 1, true)), Stretch(191, 9, true))

  lemma LongFresh()
    ensures AllFresh(13, 31, LONG_206) && AllFresh(13, 31, LONG_081)
    ensures Count(LONG_206) == 21 && Count(LONG_081) == 21
  {
  }

  lemma BothFresh()
    ensures AllFresh(13, 31, LONG_BOTH) && Count(LONG_BOTH) == 29
  {
  }

  lemma Short206Fresh()
    ensures AllFresh(13, 17, SHORT_206) && Count(SHORT_206) == 21
  {
  }

  lemma Short081Fresh()
    ensures AllFresh(13, 17, SHORT_081) && Count(SHORT_081) == 21
  {
  }

  lemma Cover206(p: nat)
    ensures Covers(LONG_206, p) <==> 188 <= p < 201 || 206 <= p < 214
    ensures Covers(SHORT_206, p) <==> 188 <= p < 201 || 206 <= p < 214
  {
  }

  lemma Cover081(p: nat)
    ensures Covers(LONG_081, p) <==> 188 <= p < 201 || 81 <= p < 89
    ensures Covers(SHORT_081, p) <==> 188 <= p < 201 || 81 <= p < 89
  {
  }

  lemma CoverBoth(p: nat)
    ensures Covers(LONG_BOTH, p) <==> 188 <= p < 201 || 81 <= p < 89 || 206 <= p < 214
  {
  }

  predicate InSpan(x: CribSpec, p: nat) {
    x.start <= p < x.start + |x.runes|
  }

  lemma InTwoSpans(x: CribSpec, y: CribSpec, p: nat)
    ensures p in SpanPositions([x, y]) <==> InSpan(x, p) || InSpan(y, p)
  {
    TwoSpans(x, y);
    WindowAre(x.start, |x.runes|);
    WindowAre(y.start, |y.runes|);
  }

  lemma InThreeSpans(x: CribSpec, y: CribSpec, z: CribSpec, p: nat)
    ensures p in SpanPositions([x, y, z]) <==> InSpan(x, p) || InSpan(y, p) || InSpan(z, p)
  {
    ThreeSpans(x, y, z);
    WindowAre(x.start, |x.runes|);
    WindowAre(y.start, |y.runes|);
    WindowAre(z.start, |z.runes|);
  }

  const PRIMARY := CribSpec(CRIB_START, CRIB_RUNES)

  /** The crib at 206, with either second period. */
  lemma DeclaredWithDormouse206(b: BenchmarkSpec, ciphertext: seq<int>, s: AffineKeys, declared: nat)
    requires b.Valid() && |ciphertext| == b.textLength && ExactlyFits(b, ciphertext, s)
    requires b.cribStart == CRIB_START && b.additionalCribs == [DORMOUSE_206]
    requires (b.periodA, b.periodB, declared) in {(13, 17, 8), (13, 31, 22)}
    ensures |s.free| == declared
  {
    assert b.Spans() == [PRIMARY, DORMOUSE_206];
    forall p: nat ensures p in SpanPositions(b.Spans()) <==> Covers(LONG_206, p)
                  ensures p in SpanPositions(b.Spans()) <==> Covers(SHORT_206, p) {
      InTwoSpans(PRIMARY, DORMOUSE_206, p);
      Cover206(p);
    }
    LongFresh();
    Short206Fresh();
    DimensionByRuns(b, ciphertext, s, if b.periodB == 31 then LONG_206 else SHORT_206);
  }

  /** The crib at 81: no window of a + b - 1 positions holds both cribs. */
  lemma DeclaredWithDormouse081(b: BenchmarkSpec, ciphertext: seq<int>, s: AffineKeys, declared: nat)
    requires b.Valid() && |ciphertext| == b.textLength && ExactlyFits(b, ciphertext, s)
    requires b.cribStart == CRIB_START && b.additionalCribs == [DORMOUSE_081]
    requires (b.periodA, b.periodB, declared) in {(13, 17, 8), (13, 31, 22)}
    ensures |s.free| == declared
  {
    assert b.Spans() == [PRIMARY, DORMOUSE_081];
    forall p: nat ensures p in SpanPositions(b.Spans()) <==> Covers(LONG_081, p)
                  ensures p in SpanPositions(b.Spans()) <==> Covers(SHORT_081, p) {
      InTwoSpans(PRIMARY, DORMOUSE_081, p);
      Cover081(p);
    }
    LongFresh();
    Short081Fresh();
    DimensionByRuns(b, ciphertext, s, if b.periodB == 31 then LONG_081 else SHORT_081);
  }

  /** Both, on periods 13 and 31. */
  lemma DeclaredWithBoth(b: BenchmarkSpec, ciphertext: seq<int>, s: AffineKeys)
    requires b.Valid() && |ciphertext| == b.textLength && ExactlyFits(b, ciphertext, s)
    requires b.cribStart == CRIB_START && b.additionalCribs == [DORMOUSE_081, DORMOUSE_206]
    requires b.periodA == 13 && b.periodB == 31
    ensures |s.free| == 14
  {
    assert b.Spans() == [PRIMARY, DORMOUSE_081, DORMOUSE_206];
    forall p: nat ensures p in SpanPositions(b.Spans()) <==> Covers(LONG_BOTH, p) {
      InThreeSpans(PRIMARY, DORMOUSE_081, DORMOUSE_206, p);
      CoverBoth(p);
    }
    BothFresh();
    DimensionByRuns(b, ciphertext, s, LONG_BOTH);
  }

  /** The benchmarks that are declared, with the free dimension each of them promises. */
  predicate Declares(b: BenchmarkSpec, declared: nat) {
    && b.alphabetSize == 29 && b.textLength == 308 && b.cribStart == CRIB_START
    && b.gaugeIndex == 0 && b.gaugeValue == 0
    && (b.periodA, b.periodB, b.additionalCribs, declared) in {
      (5, 7, [], 0), (5, 13, [], 4), (9, 13, [], 8), (13, 17, [], 16),
      (13, 17, [DORMOUSE_206], 8), (13, 17, [DORMOUSE_081], 8),
      (13, 31, [], 30), (13, 31, [DORMOUSE_081], 22), (13, 31, [DORMOUSE_206], 22),
      (13, 31, [DORMOUSE_081, DORMOUSE_206], 14)
    }
  }

  /** They are the configurations that the source lists, and each of them is a valid one. */
  lemma DeclaredAre(b: BenchmarkSpec)
    requires b.alphabetSize == 29 && b.textLength == 308 && b.cribStart == 188 && b.gaugeIndex == 0 && b.gaugeValue == 0
    ensures b == b.(periodA := 5, periodB := 7, additionalCribs := []) ==> b.Valid() && Declares(b, 0)
    ensures b == b.(periodA := 5, periodB := 13, additionalCribs := []) ==> b.Valid() && Declares(b, 4)
    ensures b == b.(periodA := 9, periodB := 13, additionalCribs := []) ==> b.Valid() && Declares(b, 8)
    ensures b == b.(periodA := 13, periodB := 17, additionalCribs := []) ==> b.Valid() && Declares(b, 16)
    ensures b == b.(periodA := 13, periodB := 17, additionalCribs := [DORMOUSE_206]) ==> b.Valid() && Declares(b, 8)
    ensures b == b.(periodA := 13, periodB := 17, additionalCribs := [DORMOUSE_081]) ==> b.Valid() && Declares(b, 8)
    ensures b == b.(periodA := 13, periodB := 31, additionalCribs := []) ==> b.Valid() && Declares(b, 30)
    ensures b == b.(periodA := 13, periodB := 31, additionalCribs := [DORMOUSE_081]) ==> b.Valid() && Declares(b, 22)
    ensures b == b.(periodA := 13, periodB := 31, additionalCribs := [DORMOUSE_206]) ==> b.Valid() && Declares(b, 22)
    ensures b == b.(periodA := 13, periodB := 31, additionalCribs := [DORMOUSE_081, DORMOUSE_206]) ==>
              b.Valid() && Declares(b, 14)
  {
  }

  /** Every declared benchmark keeps its promise, on every ciphertext. */
  lemma DeclaredDimension(b: BenchmarkSpec, ciphertext: seq<int>, s: AffineKeys, declared: nat)
    requires b.Valid() && |ciphertext| == b.textLength && ExactlyFits(b, ciphertext, s) && Declares(b, declared)
    ensures |s.free| == declared
  {
    if b.additionalCribs == [] {
      DeclaredLadder(b, ciphertext, s, declared);
    } else if b.additionalCribs == [DORMOUSE_206] {
      DeclaredWithDormouse206(b, ciphertext, s, declared);
    } else if b.additionalCribs == [DORMOUSE_081] {
      DeclaredWithDormouse081(b, ciphertext, s, declared);
    } else {
      DeclaredWithBoth(b, ciphertext, s);
    }
  }
}
