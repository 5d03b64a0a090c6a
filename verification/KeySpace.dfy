/** The two-period overlay benchmark and the key space left over by its cribs. */
module KeySpace {
  import opened ModArith
  import opened LinearSystem
  import opened GraphRows
  import opened Results
  import opened Rref
  import opened AffineSpace

  const CRIB_RUNES: seq<nat> := [1, 9, 5, 3, 19, 0, 3, 4, 16, 24, 17, 20, 18]

  datatype CribSpec = CribSpec(start: nat, runes: seq<nat>)

  datatype BenchmarkSpec = BenchmarkSpec(
    periodA: nat, periodB: nat, alphabetSize: nat, textLength: nat, cribStart: nat,
    gaugeIndex: nat, gaugeValue: nat, additionalCribs: seq<CribSpec>)
  {
    /** What constructing a BenchmarkSpec checks, as far as the key space depends on it. */
    ghost predicate Valid() {
      && periodA > 0 && periodB > 0 && periodA != periodB && alphabetSize > 1
      && cribStart + |CRIB_RUNES| <= textLength
      && gaugeIndex == 0 && gaugeValue == 0
      && forall i :: 0 <= i < |additionalCribs| ==> additionalCribs[i].start + |additionalCribs[i].runes| <= textLength
    }

    function KeyLength(): nat { periodA + periodB }

    function GaugeKeyIndex(): nat { periodA + gaugeIndex }

    function Spans(): seq<CribSpec> {
      [CribSpec(cribStart, CRIB_RUNES)] + additionalCribs
    }
  }

  /** A text position whose plaintext rune is known. */
  datatype Known = Known(pos: nat, plain: nat)

  function SpanKnowns(span: CribSpec, k: nat): (r: seq<Known>)
    requires k <= |span.runes|
    ensures |r| == k && forall i :: 0 <= i < k ==> r[i] == Known(span.start + i, span.runes[i])
  {
    seq(k, i requires 0 <= i < k => Known(span.start + i, span.runes[i]))
  }

  function Knowns(spans: seq<CribSpec>): seq<Known> {
    if |spans| == 0 then []
    else var last := spans[|spans| - 1]; Knowns(spans[..|spans| - 1]) + SpanKnowns(last, |last.runes|)
  }

  ghost predicate InText(knowns: seq<Known>, length: nat) {
    forall i :: 0 <= i < |knowns| ==> knowns[i].pos < length
  }

  lemma {:induction false} KnownsInText(spans: seq<CribSpec>, length: nat)
    requires forall i :: 0 <= i < |spans| ==> spans[i].start + |spans[i].runes| <= length
    ensures InText(Knowns(spans), length)
  {
    if |spans| > 0 {
      KnownsInText(spans[..|spans| - 1], length);
    }
  }

  ghost predicate IsKey(b: BenchmarkSpec, key: Row) {
    |key| == b.KeyLength() && Residues(key, b.alphabetSize)
  }

  /** The rune the two repeating streams add at a position. */
  function Overlay(b: BenchmarkSpec, key: Row, pos: nat): int
    requires b.periodA > 0 && b.periodB > 0 && b.alphabetSize > 0 && |key| == b.KeyLength()
  {
    (key[pos % b.periodA] + key[b.periodA + pos % b.periodB]) % b.alphabetSize
  }

  /** Under the key, the ciphertext deciphers to the rune at this position. */
  ghost predicate FitsRune(b: BenchmarkSpec, ciphertext: seq<int>, key: Row, pos: nat, rune: nat)
    requires b.Valid() && pos < |ciphertext| && |key| == b.periodA + b.periodB
  {
    (ciphertext[pos] - rune) % b.alphabetSize
      == (key[pos % b.periodA] + key[b.periodA + pos % b.periodB]) % b.alphabetSize
  }

  /** A key over the alphabet under which the ciphertext deciphers to every rune of every crib. */
  ghost predicate FitsCribs(b: BenchmarkSpec, ciphertext: seq<int>, key: Row)
    requires b.Valid() && |ciphertext| == b.textLength
  {
    && |key| == b.periodA + b.periodB
    && (forall j :: 0 <= j < |key| ==> 0 <= key[j] < b.alphabetSize)
    && (forall i :: 0 <= i < |CRIB_RUNES| ==> FitsRune(b, ciphertext, key, b.cribStart + i, CRIB_RUNES[i]))
    && (forall j, i :: 0 <= j < |b.additionalCribs| && 0 <= i < |b.additionalCribs[j].runes| ==>
          FitsRune(b, ciphertext, key, b.additionalCribs[j].start + i, b.additionalCribs[j].runes[i]))
  }

  /** And the gauge B[0] = 0. */
  ghost predicate Fits(b: BenchmarkSpec, ciphertext: seq<int>, key: Row)
    requires b.Valid() && |ciphertext| == b.textLength
  {
    FitsCribs(b, ciphertext, key) && key[b.periodA] == 0
  }

  /** The key deciphers every known position to its known rune. */
  ghost predicate FitsKnowns(b: BenchmarkSpec, ciphertext: seq<int>, knowns: seq<Known>, key: Row)
    requires b.Valid() && InText(knowns, |ciphertext|)
  {
    && IsKey(b, key)
    && forall i :: 0 <= i < |knowns| ==>
         Overlay(b, key, knowns[i].pos) == (ciphertext[knowns[i].pos] - knowns[i].plain) % b.alphabetSize
  }

  /** One of the span's runes stands there. */
  ghost predicate Gives(span: CribSpec, known: Known) {
    exists i :: 0 <= i < |span.runes| && known == Known(span.start + i, span.runes[i])
  }

  lemma SpanGives(span: CribSpec, known: Known)
    ensures known in SpanKnowns(span, |span.runes|) <==> Gives(span, known)
  {
    if Gives(span, known) {
      var i :| 0 <= i < |span.runes| && known == Known(span.start + i, span.runes[i]);
      assert SpanKnowns(span, |span.runes|)[i] == known;
    }
  }

  /** The list of known positions is that of the spans, rune by rune. */
  lemma {:induction false} KnownsAre(spans: seq<CribSpec>, known: Known)
    ensures known in Knowns(spans) <==> exists s :: 0 <= s < |spans| && Gives(spans[s], known)
  {
    if |spans| > 0 {
      var n := |spans| - 1;
      KnownsAre(spans[..n], known);
      SpanGives(spans[n], known);
      assert forall s :: 0 <= s < n ==> spans[..n][s] == spans[s];
    }
  }

  /** Which positions the cribs make known, and as what. */
  lemma CribsKnown(b: BenchmarkSpec, known: Known)
    ensures known in Knowns(b.Spans()) <==>
            || (exists i :: 0 <= i < |CRIB_RUNES| && known == Known(b.cribStart + i, CRIB_RUNES[i]))
            || (exists j :: 0 <= j < |b.additionalCribs| && Gives(b.additionalCribs[j], known))
  {
    var spans := b.Spans();
    KnownsAre(spans, known);
    assert Gives(spans[0], known) <==>
           exists i :: 0 <= i < |CRIB_RUNES| && known == Known(b.cribStart + i, CRIB_RUNES[i]);
    assert forall j :: 0 <= j < |b.additionalCribs| ==> spans[j + 1] == b.additionalCribs[j];
    if s :| 0 < s < |spans| && Gives(spans[s], known) {
      assert spans[s] == b.additionalCribs[s - 1];
    }
  }

  lemma PrimaryKnown(b: BenchmarkSpec, i: nat)
    requires i < |CRIB_RUNES|
    ensures Known(b.cribStart + i, CRIB_RUNES[i]) in Knowns(b.Spans())
  {
    CribsKnown(b, Known(b.cribStart + i, CRIB_RUNES[i]));
  }

  lemma AdditionalKnown(b: BenchmarkSpec, j: nat, i: nat)
    requires j < |b.additionalCribs| && i < |b.additionalCribs[j].runes|
    ensures Known(b.additionalCribs[j].start + i, b.additionalCribs[j].runes[i]) in Knowns(b.Spans())
  {
    var known := Known(b.additionalCribs[j].start + i, b.additionalCribs[j].runes[i]);
    assert Gives(b.additionalCribs[j], known);
    CribsKnown(b, known);
  }

  /** A known position is fitted by a key that fits them all. */
  lemma FitsKnown(b: BenchmarkSpec, ciphertext: seq<int>, knowns: seq<Known>, key: Row, known: Known)
    requires b.Valid() && InText(knowns, |ciphertext|) && FitsKnowns(b, ciphertext, knowns, key) && known in knowns
    ensures known.pos < |ciphertext| && FitsRune(b, ciphertext, key, known.pos, known.plain)
  {
    var k :| 0 <= k < |knowns| && knowns[k] == known;
    assert Overlay(b, key, knowns[k].pos) == (ciphertext[knowns[k].pos] - knowns[k].plain) % b.alphabetSize;
  }

  lemma KnownFits(b: BenchmarkSpec, ciphertext: seq<int>, key: Row, known: Known)
    requires b.Valid() && |ciphertext| == b.textLength && FitsCribs(b, ciphertext, key) && known in Knowns(b.Spans())
    ensures known.pos < |ciphertext|
    ensures Overlay(b, key, known.pos) == (ciphertext[known.pos] - known.plain) % b.alphabetSize
  {
    CribsKnown(b, known);
    assert known.pos < |ciphertext| && FitsRune(b, ciphertext, key, known.pos, known.plain);
  }

  /** Fitting the cribs is fitting the list of known positions. */
  lemma FitsCribsIff(b: BenchmarkSpec, ciphertext: seq<int>, key: Row)
    requires b.Valid() && |ciphertext| == b.textLength
    ensures InText(Knowns(b.Spans()), b.textLength)
    ensures FitsCribs(b, ciphertext, key) <==> FitsKnowns(b, ciphertext, Knowns(b.Spans()), key)
  {
    var knowns := Knowns(b.Spans());
    KnownsInText(b.Spans(), b.textLength);
    if FitsCribs(b, ciphertext, key) {
      forall k | 0 <= k < |knowns|
        ensures Overlay(b, key, knowns[k].pos) == (ciphertext[knowns[k].pos] - knowns[k].plain) % b.alphabetSize
      {
        KnownFits(b, ciphertext, key, knowns[k]);
      }
    }
    if FitsKnowns(b, ciphertext, knowns, key) {
      forall i | 0 <= i < |CRIB_RUNES| ensures FitsRune(b, ciphertext, key, b.cribStart + i, CRIB_RUNES[i]) {
        PrimaryKnown(b, i);
        FitsKnown(b, ciphertext, knowns, key, Known(b.cribStart + i, CRIB_RUNES[i]));
      }
      forall j, i | 0 <= j < |b.additionalCribs| && 0 <= i < |b.additionalCribs[j].runes|
        ensures FitsRune(b, ciphertext, key, b.additionalCribs[j].start + i, b.additionalCribs[j].runes[i])
      {
        AdditionalKnown(b, j, i);
        FitsKnown(b, ciphertext, knowns, key, Known(b.additionalCribs[j].start + i, b.additionalCribs[j].runes[i]));
      }
    }
  }

  function CribRow(b: BenchmarkSpec, ciphertext: seq<int>, known: Known): (r: Row)
    requires b.Valid() && known.pos < |ciphertext|
    ensures |r| == b.KeyLength() + 1
  {
    var zeros := seq(b.KeyLength() + 1, _ => 0);
    zeros[known.pos % b.periodA := 1]
         [b.periodA + known.pos % b.periodB := 1]
         [b.KeyLength() := (ciphertext[known.pos] - known.plain) % b.alphabetSize]
  }

  function GaugeRow(b: BenchmarkSpec): (r: Row)
    requires b.Valid()
    ensures |r| == b.KeyLength() + 1
  {
    seq(b.KeyLength() + 1, _ => 0)[b.GaugeKeyIndex() := 1][b.KeyLength() := b.gaugeValue]
  }

  lemma {:induction false} TwoHotDot(r: Row, x: Row, i: nat, j: nat, k: nat)
    requires k <= |r| && k <= |x| && i < j < |x|
    requires forall s :: 0 <= s < k ==> r[s] == if s == i || s == j then 1 else 0
    ensures DotTo(r, x, k) == (if i < k then x[i] else 0) + (if j < k then x[j] else 0)
  {
    if k > 0 {
      TwoHotDot(r, x, i, j, k - 1);
    }
  }

  lemma CribRowDot(b: BenchmarkSpec, ciphertext: seq<int>, known: Known, key: Row, i: nat, j: nat)
    requires b.Valid() && known.pos < |ciphertext| && |key| == b.KeyLength()
    requires i == known.pos % b.periodA && j == b.periodA + known.pos % b.periodB
    ensures i < j < |key| && DotTo(CribRow(b, ciphertext, known), key, |key|) == key[i] + key[j]
    ensures CribRow(b, ciphertext, known)[|key|] == (ciphertext[known.pos] - known.plain) % b.alphabetSize
  {
    TwoHotDot(CribRow(b, ciphertext, known), key, i, j, |key|);
  }

  lemma SumMeets(s: int, c: int, m: int)
    requires m > 0
    ensures Cong(s, c % m, m) <==> s % m == c % m
  {
    CongIsMod(s, c % m, m);
    CongMod(c, m);
    ModOfReduced(c % m, m);
  }

  lemma RowMeets(r: Row, key: Row, s: int, c: int, m: int)
    requires m > 0 && |r| == |key| + 1 && DotTo(r, key, |key|) == s && r[|key|] == c % m
    ensures Satisfies(r, key, m) <==> s % m == c % m
  {
    SumMeets(s, c, m);
  }

  lemma CribRowMeaning(b: BenchmarkSpec, ciphertext: seq<int>, known: Known, key: Row)
    requires b.Valid() && known.pos < |ciphertext| && IsKey(b, key)
    ensures Satisfies(CribRow(b, ciphertext, known), key, b.alphabetSize)
       <==> Overlay(b, key, known.pos) == (ciphertext[known.pos] - known.plain) % b.alphabetSize
  {
    var i, j := known.pos % b.periodA, b.periodA + known.pos % b.periodB;
    CribRowDot(b, ciphertext, known, key, i, j);
    RowMeets(CribRow(b, ciphertext, known), key, key[i] + key[j], ciphertext[known.pos] - known.plain, b.alphabetSize);
  }

  lemma GaugeRowMeaning(b: BenchmarkSpec, key: Row)
    requires b.Valid() && IsKey(b, key)
    ensures Satisfies(GaugeRow(b), key, b.alphabetSize) <==> key[b.GaugeKeyIndex()] == b.gaugeValue
  {
    OneSpotDot(GaugeRow(b), key, b.GaugeKeyIndex(), |key|);
    CongIsMod(key[b.GaugeKeyIndex()], b.gaugeValue, b.alphabetSize);
    ModOfReduced(key[b.GaugeKeyIndex()], b.alphabetSize);
    ModOfReduced(b.gaugeValue, b.alphabetSize);
  }

  /** The stacked equations: one row a known position, the gauge last. */
  function SystemRows(b: BenchmarkSpec, ciphertext: seq<int>, knowns: seq<Known>): (rows: seq<Row>)
    requires b.Valid() && InText(knowns, |ciphertext|)
    ensures |rows| == |knowns| + 1 && Shaped(rows, b.KeyLength() + 1)
  {
    seq(|knowns|, i requires 0 <= i < |knowns| => CribRow(b, ciphertext, knowns[i])) + [GaugeRow(b)]
  }

  lemma CribRowIsEdge(b: BenchmarkSpec, ciphertext: seq<int>, known: Known)
    requires b.Valid() && known.pos < |ciphertext|
    ensures IsGraphRow(CribRow(b, ciphertext, known), b.periodA, b.KeyLength(), b.alphabetSize)
  {
    var r, m := CribRow(b, ciphertext, known), b.alphabetSize;
    var p, q := known.pos % b.periodA, b.periodA + known.pos % b.periodB;
    forall k | 0 <= k < b.KeyLength() ensures Cong(r[k], Coefficient(b.periodA, p, q, k), m) {
      CongRefl(r[k], m);
    }
    assert IsEdge(r, b.periodA, p, q, b.KeyLength(), m);
  }

  lemma GaugeRowIsEdge(b: BenchmarkSpec)
    requires b.Valid()
    ensures IsGraphRow(GaugeRow(b), b.periodA, b.KeyLength(), b.alphabetSize)
  {
    var r, m, n := GaugeRow(b), b.alphabetSize, b.KeyLength();
    forall k | 0 <= k < n ensures Cong(r[k], Coefficient(b.periodA, n, b.GaugeKeyIndex(), k), m) {
      CongRefl(r[k], m);
    }
    assert IsEdge(r, b.periodA, n, b.GaugeKeyIndex(), n, m);
  }

  /** A known position is an edge from the first stream to the second, the gauge one with a
      single end. */
  lemma SystemIsGraph(b: BenchmarkSpec, ciphertext: seq<int>, knowns: seq<Known>)
    requires b.Valid() && InText(knowns, |ciphertext|)
    ensures AreGraphRows(SystemRows(b, ciphertext, knowns), b.periodA, b.KeyLength(), b.alphabetSize)
  {
    var rows, a, n, m := SystemRows(b, ciphertext, knowns), b.periodA, b.KeyLength(), b.alphabetSize;
    forall i | 0 <= i < |rows| ensures IsGraphRow(rows[i], a, n, m) {
      if i < |knowns| {
        CribRowIsEdge(b, ciphertext, knowns[i]);
      } else {
        GaugeRowIsEdge(b);
      }
    }
  }

  lemma SystemMeaning(b: BenchmarkSpec, ciphertext: seq<int>, knowns: seq<Known>, key: Row)
    requires b.Valid() && InText(knowns, |ciphertext|) && IsKey(b, key)
    ensures Solves(SystemRows(b, ciphertext, knowns), key, b.alphabetSize)
       <==> FitsKnowns(b, ciphertext, knowns, key) && key[b.GaugeKeyIndex()] == b.gaugeValue
  {
    var rows, m := SystemRows(b, ciphertext, knowns), b.alphabetSize;
    GaugeRowMeaning(b, key);
    forall i | 0 <= i < |knowns|
      ensures Satisfies(rows[i], key, m)
         <==> Overlay(b, key, knowns[i].pos) == (ciphertext[knowns[i].pos] - knowns[i].plain) % m
    {
      CribRowMeaning(b, ciphertext, knowns[i], key);
    }
    assert rows[|knowns|] == GaugeRow(b);
    if Solves(rows, key, m) {
      assert Satisfies(rows[|knowns|], key, m);
      assert forall i :: 0 <= i < |knowns| ==> Satisfies(rows[i], key, m);
    }
  }

  /** Solving the benchmark's equations is fitting its cribs and the gauge. */
  lemma SystemIsFits(b: BenchmarkSpec, ciphertext: seq<int>, key: Row)
    requires b.Valid() && |ciphertext| == b.textLength && IsKey(b, key) && InText(Knowns(b.Spans()), b.textLength)
    ensures Solves(SystemRows(b, ciphertext, Knowns(b.Spans())), key, b.alphabetSize) <==> Fits(b, ciphertext, key)
  {
    SystemMeaning(b, ciphertext, Knowns(b.Spans()), key);
    FitsCribsIff(b, ciphertext, key);
  }

  datatype CribError = CiphertextLength | CribLength | CribRunes | Elimination(error: RrefError)

  datatype AffineKeys = AffineKeys(particular: Row, basis: seq<Row>, free: seq<nat>)

  datatype ExpandError = ParticularShape | BasisShape | GaugeViolated

  /** The cast to unsigned bytes. */
  function Stored(x: Row): (key: Row)
    ensures |key| == |x| && forall j :: 0 <= j < |x| ==> key[j] == x[j] % 256
  {
    seq(|x|, j requires 0 <= j < |x| => x[j] % 256)
  }

  /** expand for one vector of variables; the key is stored as bytes. */
  function Expand(b: BenchmarkSpec, v: Row, particular: Row, basis: seq<Row>): Result<Row, ExpandError>
    requires b.Valid()
  {
    if |particular| != b.KeyLength() then Err(ParticularShape)
    else if |basis| != b.KeyLength() || exists j :: 0 <= j < |basis| && |basis[j]| != |v| then Err(BasisShape)
    else
      var point := AffinePoint(particular, basis, v, b.alphabetSize);
      var key := Stored(point);
      if key[b.GaugeKeyIndex()] != b.gaugeValue then Err(GaugeViolated) else Ok(key)
  }

  predicate KeysShaped(b: BenchmarkSpec, s: AffineKeys) {
    |s.particular| == |s.basis| == b.KeyLength() && forall j :: 0 <= j < |s.basis| ==> |s.basis[j]| == |s.free|
  }

  /** The key that a vector of variables stands for, before it is stored. */
  function PointOf(b: BenchmarkSpec, s: AffineKeys, v: Row): (x: Row)
    requires b.Valid() && KeysShaped(b, s) && |v| == |s.free|
    ensures |x| == b.KeyLength() && Residues(x, b.alphabetSize)
  {
    AffinePoint(s.particular, s.basis, v, b.alphabetSize)
  }

  /** A bijection from the vectors over the alphabet, one entry a free column, onto the
      fitting keys; reading the free columns is its inverse. */
  ghost predicate ExactlyFits(b: BenchmarkSpec, ciphertext: seq<int>, s: AffineKeys)
    requires b.Valid() && |ciphertext| == b.textLength
  {
    && Within(s.free, b.KeyLength()) && KeysShaped(b, s)
    && (forall v: Row :: |v| == |s.free| && Residues(v, b.alphabetSize) ==>
          Fits(b, ciphertext, PointOf(b, s, v)) && Restrict(PointOf(b, s, v), s.free) == v)
    && (forall key: Row :: Fits(b, ciphertext, key) ==> PointOf(b, s, Restrict(key, s.free)) == key)
  }

  lemma SystemsAreFits(b: BenchmarkSpec, ciphertext: seq<int>)
    requires b.Valid() && |ciphertext| == b.textLength && InText(Knowns(b.Spans()), b.textLength)
    ensures var rows := SystemRows(b, ciphertext, Knowns(b.Spans()));
            forall key :: IsKey(b, key) ==> (Solves(rows, key, b.alphabetSize) <==> Fits(b, ciphertext, key))
  {
    var rows := SystemRows(b, ciphertext, Knowns(b.Spans()));
    forall key | IsKey(b, key) ensures Solves(rows, key, b.alphabetSize) <==> Fits(b, ciphertext, key) {
      SystemIsFits(b, ciphertext, key);
    }
  }

  /** The rows are those of the known positions. */
  ghost predicate RowsOf(b: BenchmarkSpec, ciphertext: seq<int>, rows: seq<Row>, knowns: seq<Known>)
    requires b.Valid()
  {
    |rows| == |knowns| && forall i :: 0 <= i < |rows| ==>
      knowns[i].pos < |ciphertext| && rows[i] == CribRow(b, ciphertext, knowns[i])
  }

  /** The inner loop: one row for every rune of the span. */
  method SpanRows(ciphertext: seq<int>, b: BenchmarkSpec, span: CribSpec) returns (rows: seq<Row>)
    requires b.Valid() && |ciphertext| == b.textLength && span.start + |span.runes| <= b.textLength
    ensures RowsOf(b, ciphertext, rows, SpanKnowns(span, |span.runes|))
  {
    rows := [];
    for offset := 0 to |span.runes|
      invariant RowsOf(b, ciphertext, rows, SpanKnowns(span, offset))
    {
      rows := rows + [CribRow(b, ciphertext, Known(span.start + offset, span.runes[offset]))];
    }
  }

  lemma OneMoreSpan(b: BenchmarkSpec, ciphertext: seq<int>, spans: seq<CribSpec>, s: nat, rows: seq<Row>,
                    more: seq<Row>)
    requires b.Valid() && s < |spans| && RowsOf(b, ciphertext, rows, Knowns(spans[..s]))
    requires RowsOf(b, ciphertext, more, SpanKnowns(spans[s], |spans[s].runes|))
    ensures RowsOf(b, ciphertext, rows + more, Knowns(spans[..s + 1]))
  {
    assert spans[..s + 1][..s] == spans[..s];
  }

  method CribSystem(ciphertext: seq<int>, b: BenchmarkSpec) returns (rows: seq<Row>)
    requires b.Valid() && |ciphertext| == b.textLength && InText(Knowns(b.Spans()), b.textLength)
    ensures rows == SystemRows(b, ciphertext, Knowns(b.Spans()))
    ensures forall key :: IsKey(b, key) ==> (Solves(rows, key, b.alphabetSize) <==> Fits(b, ciphertext, key))
  {
    var spans := b.Spans();
    rows := [];
    for s := 0 to |spans|
      invariant RowsOf(b, ciphertext, rows, Knowns(spans[..s]))
    {
      var more := SpanRows(ciphertext, b, spans[s]);
      OneMoreSpan(b, ciphertext, spans, s, rows, more);
      rows := rows + more;
    }
    assert spans[..|spans|] == spans;
    rows := rows + [GaugeRow(b)];
    SystemsAreFits(b, ciphertext);
  }

  /** The inner loop of the parametrisation: one pivot's row of the basis. */
  method FillPivotRow(cells: array2<int>, pivot: nat, row: Row, free: seq<nat>)
    requires pivot < cells.Length0 && cells.Length1 == |free| && Within(free, |row|)
    modifies cells
    ensures forall s :: 0 <= s < |free| ==> cells[pivot, s] == -row[free[s]]
    ensures forall k, s :: 0 <= k < cells.Length0 && 0 <= s < |free| && k != pivot ==> cells[k, s] == old(cells[k, s])
  {
    for j := 0 to |free|
      invariant forall s :: 0 <= s < j ==> cells[pivot, s] == -row[free[s]]
      invariant forall k, s :: 0 <= k < cells.Length0 && 0 <= s < |free| && k != pivot ==>
                cells[k, s] == old(cells[k, s])
    {
      cells[pivot, j] := -row[free[j]];
    }
  }

  /** Which columns the loops may write without disturbing one another. */
  ghost predicate Separate(pivots: seq<nat>, free: seq<nat>, n: nat) {
    && Within(pivots, n) && Within(free, n)
    && (forall i, j :: 0 <= i < j < |pivots| ==> pivots[i] != pivots[j])
    && (forall i, t :: 0 <= i < |pivots| && 0 <= t < |free| ==> pivots[i] != free[t])
    && (forall s, t :: 0 <= s < t < |free| ==> free[s] != free[t])
  }

  /** The right-hand sides, at the pivots. */
  method ParticularOf(rows: seq<Row>, pivots: seq<nat>, free: seq<nat>, n: nat, m: int) returns (particular: Row)
    requires m > 1 && Shaped(rows, n + 1) && |pivots| <= |rows| && Separate(pivots, free, n)
    ensures |particular| == n
    ensures forall t :: 0 <= t < |free| ==> particular[free[t]] == 0
    ensures forall i :: 0 <= i < |pivots| ==> particular[pivots[i]] == rows[i][n] % m
  {
    var p := new int[n](_ => 0);
    for i := 0 to |pivots|
      invariant forall t :: 0 <= t < |free| ==> p[free[t]] == 0
      invariant forall k :: 0 <= k < i ==> p[pivots[k]] == rows[k][n]
    {
      p[pivots[i]] := rows[i][n];
    }
    ModOfReduced(0, m);
    particular := seq(n, j requires 0 <= j < n reads p => p[j] % m);
  }

  /** A unit vector at each free column, the negated coefficients at each pivot. */
  method BasisOf(rows: seq<Row>, pivots: seq<nat>, free: seq<nat>, n: nat, m: int) returns (basis: seq<Row>)
    requires m > 1 && Shaped(rows, n + 1) && |pivots| <= |rows| && Separate(pivots, free, n)
    ensures |basis| == n && Shaped(basis, |free|)
    ensures forall t, s :: 0 <= t < |free| && 0 <= s < |free| ==> basis[free[t]][s] == if s == t then 1 % m else 0
    ensures forall i, s :: 0 <= i < |pivots| && 0 <= s < |free| ==> basis[pivots[i]][s] == -rows[i][free[s]] % m
  {
    var cells := new int[n, |free|]((_, _) => 0);
    for j := 0 to |free|
      invariant forall t, s :: 0 <= t < |free| && 0 <= s < |free| ==>
                cells[free[t], s] == if s == t && t < j then 1 else 0
    {
      cells[free[j], j] := 1;
    }
    for i := 0 to |pivots|
      invariant forall t, s :: 0 <= t < |free| && 0 <= s < |free| ==> cells[free[t], s] == if s == t then 1 else 0
      invariant forall k, s :: 0 <= k < i && 0 <= s < |free| ==> cells[pivots[k], s] == -rows[k][free[s]]
    {
      FillPivotRow(cells, pivots[i], rows[i], free);
    }
    ModOfReduced(0, m);
    basis := seq(n, j requires 0 <= j < n reads cells =>
      seq(|free|, s requires 0 <= s < |free| && 0 <= j < n reads cells => cells[j, s] % m));
  }

  method Parametrisation(rows: seq<Row>, pivots: seq<nat>, n: nat, m: int) returns (particular: Row, basis: seq<Row>)
    requires m > 1 && Shaped(rows, n + 1) && Echelon(rows, pivots, n, m)
    ensures Parametrises(rows, pivots, n, m, particular, basis)
  {
    var free := FreeTo(pivots, n);
    FreeColumns(pivots, n);
    assert forall t :: 0 <= t < |free| ==> free[t] in free;
    particular := ParticularOf(rows, pivots, free, n, m);
    basis := BasisOf(rows, pivots, free, n, m);
  }

  lemma NothingFits(b: BenchmarkSpec, ciphertext: seq<int>)
    requires b.Valid() && |ciphertext| == b.textLength && InText(Knowns(b.Spans()), b.textLength)
    requires forall x: Row :: |x| == b.KeyLength() ==>
              !Solves(SystemRows(b, ciphertext, Knowns(b.Spans())), x, b.alphabetSize)
    ensures forall key: Row :: !Fits(b, ciphertext, key)
  {
    forall key: Row ensures !Fits(b, ciphertext, key) {
      if Fits(b, ciphertext, key) {
        SystemIsFits(b, ciphertext, key);
      }
    }
  }

  lemma SomethingFits(b: BenchmarkSpec, ciphertext: seq<int>, s: AffineKeys)
    requires b.Valid() && |ciphertext| == b.textLength && ExactlyFits(b, ciphertext, s)
    ensures exists key: Row :: Fits(b, ciphertext, key)
  {
    var zero := PointOf(b, s, seq(|s.free|, _ => 0));
    assert Fits(b, ciphertext, zero);
  }

  lemma ParametrisationFits(b: BenchmarkSpec, ciphertext: seq<int>, rows: seq<Row>, pivots: seq<nat>, particular: Row,
                            basis: seq<Row>)
    requires b.Valid() && |ciphertext| == b.textLength
    requires InText(Knowns(b.Spans()), b.textLength)
    requires Shaped(rows, b.KeyLength() + 1) && Echelon(rows, pivots, b.KeyLength(), b.alphabetSize)
    requires Consistent(rows, pivots, b.KeyLength())
    requires Parametrises(rows, pivots, b.KeyLength(), b.alphabetSize, particular, basis)
    requires SameSolutions(SystemRows(b, ciphertext, Knowns(b.Spans())), rows, b.KeyLength(), b.alphabetSize)
    ensures ExactlyFits(b, ciphertext, AffineKeys(particular, basis, FreeTo(pivots, b.KeyLength())))
  {
    var n, m := b.KeyLength(), b.alphabetSize;
    var s := AffineKeys(particular, basis, FreeTo(pivots, n));
    forall v: Row | |v| == |s.free| && Residues(v, m)
      ensures Fits(b, ciphertext, PointOf(b, s, v)) && Restrict(PointOf(b, s, v), s.free) == v
    {
      AffineSound(rows, pivots, n, m, particular, basis, v);
      SystemIsFits(b, ciphertext, PointOf(b, s, v));
    }
    forall key: Row | Fits(b, ciphertext, key) ensures PointOf(b, s, Restrict(key, s.free)) == key {
      SystemIsFits(b, ciphertext, key);
      AffineComplete(rows, pivots, n, m, particular, basis, key);
    }
  }

  /** The key space of the checked cribs: it is found iff some key fits, whatever the alphabet. */
  method SolveCribs(ciphertext: seq<int>, b: BenchmarkSpec) returns (r: Result<AffineKeys, RrefError>)
    requires b.Valid() && |ciphertext| == b.textLength
    ensures r.Err? ==> r.error == Contradictory && forall key: Row :: !Fits(b, ciphertext, key)
    ensures r.Ok? ==> ExactlyFits(b, ciphertext, r.value) && exists key: Row :: Fits(b, ciphertext, key)
  {
    var n, m := b.KeyLength(), b.alphabetSize;
    KnownsInText(b.Spans(), b.textLength);
    var matrix := CribSystem(ciphertext, b);
    SystemIsGraph(b, ciphertext, Knowns(b.Spans()));
    var reduction := RrefMod(matrix, n, m, b.periodA);
    if reduction.Err? {
      assert reduction == Err(reduction.error);
      assert reduction.error == Contradictory;
      NothingFits(b, ciphertext);
      return Err(reduction.error);
    }
    var (rows, pivots) := reduction.value;
    var free := FreeTo(pivots, n);
    var particular, basis := Parametrisation(rows, pivots, n, m);
    ParametrisationFits(b, ciphertext, rows, pivots, particular, basis);
    SomethingFits(b, ciphertext, AffineKeys(particular, basis, free));
    return Ok(AffineKeys(particular, basis, free));
  }

  method CribSpace(ciphertext: seq<int>, crib: seq<int>, b: BenchmarkSpec) returns (r: Result<AffineKeys, CribError>)
    requires b.Valid()
    ensures r == Err(CiphertextLength) <==> |ciphertext| != b.textLength
    ensures r == Err(CribLength) <==> |ciphertext| == b.textLength && |crib| != |CRIB_RUNES|
    ensures r == Err(CribRunes) <==> |ciphertext| == b.textLength && |crib| == |CRIB_RUNES| && crib != CRIB_RUNES
    ensures r.Err? && r.error.Elimination? ==> r.error.error == Contradictory
    ensures r.Ok? <==> |ciphertext| == b.textLength && crib == CRIB_RUNES && exists key: Row :: Fits(b, ciphertext, key)
    ensures r.Ok? ==> |ciphertext| == b.textLength && ExactlyFits(b, ciphertext, r.value)
  {
    if |ciphertext| != b.textLength {
      return Err(CiphertextLength);
    }
    if |crib| != |CRIB_RUNES| {
      return Err(CribLength);
    }
    if crib != CRIB_RUNES {
      return Err(CribRunes);
    }
    var keys := SolveCribs(ciphertext, b);
    r := if keys.Err? then Err(Elimination(keys.error)) else Ok(keys.value);
  }

  // -- the cast to bytes ---------------------------------------------------------------

  /** Every entry of the key is stored unchanged. */
  predicate FitsBytes(x: Row) {
    forall j :: 0 <= j < |x| ==> x[j] < 256
  }

  lemma StoredIff(x: Row, m: int)
    requires Residues(x, m)
    ensures Stored(x) == x <==> FitsBytes(x)
  {
    if !FitsBytes(x) {
      var j :| 0 <= j < |x| && x[j] >= 256;
      assert Stored(x)[j] == x[j] % 256 < 256;
    }
  }

  lemma ExpandIsStored(b: BenchmarkSpec, s: AffineKeys, v: Row)
    requires b.Valid() && KeysShaped(b, s) && |v| == |s.free| && PointOf(b, s, v)[b.GaugeKeyIndex()] == b.gaugeValue
    ensures Expand(b, v, s.particular, s.basis) == Ok(Stored(PointOf(b, s, v)))
  {
  }

  /** Without variables expand starts from the particular solution, and each variable adds its
      column of the basis. */
  lemma PointOfUnit(b: BenchmarkSpec, s: AffineKeys, v: Row, t: nat, j: nat)
    requires b.Valid() && KeysShaped(b, s) && |v| == |s.free| && j < b.KeyLength()
    requires forall k :: 0 <= k < |v| ==> v[k] == if k == t then 1 else 0
    ensures PointOf(b, s, v)[j] == (s.particular[j] + if t < |v| then s.basis[j][t] else 0) % b.alphabetSize
  {
    if t < |v| {
      OneSpotDot(v, s.basis[j], t, |v|);
    } else {
      ZeroDot(v, s.basis[j], |v|);
    }
  }

  /** When expand fails: the shapes are wrong, or the byte at the gauge is not the gauge's value. */
  lemma ExpandFails(b: BenchmarkSpec, v: Row, particular: Row, basis: seq<Row>)
    requires b.Valid()
    ensures Expand(b, v, particular, basis) == Err(ParticularShape) <==> |particular| != b.periodA + b.periodB
    ensures Expand(b, v, particular, basis) == Err(BasisShape) <==>
            && |particular| == b.periodA + b.periodB
            && (|basis| != b.periodA + b.periodB || exists j :: 0 <= j < |basis| && |basis[j]| != |v|)
    ensures Expand(b, v, particular, basis).Ok? ==> var key := Expand(b, v, particular, basis).value;
              |key| == b.periodA + b.periodB && key[b.periodA] == 0 && forall j :: 0 <= j < |key| ==> 0 <= key[j] < 256
  {
  }

  /** The point of a vector over the alphabet is within the gauge and carries the vector. */
  lemma PointFits(b: BenchmarkSpec, ciphertext: seq<int>, s: AffineKeys, v: Row)
    requires b.Valid() && |ciphertext| == b.textLength && ExactlyFits(b, ciphertext, s)
    requires |v| == |s.free| && Residues(v, b.alphabetSize)
    ensures KeysShaped(b, s) && Within(s.free, b.KeyLength())
    ensures PointOf(b, s, v)[b.GaugeKeyIndex()] == b.gaugeValue && Restrict(PointOf(b, s, v), s.free) == v
  {
    assert Fits(b, ciphertext, PointOf(b, s, v));
  }

  /** On the parametrisation of crib_space, expand never fails, and it returns the key of the
      vector iff that key fits into bytes. */
  lemma ExpandIff(b: BenchmarkSpec, ciphertext: seq<int>, s: AffineKeys, v: Row)
    requires b.Valid() && |ciphertext| == b.textLength && ExactlyFits(b, ciphertext, s)
    requires |v| == |s.free| && Residues(v, b.alphabetSize)
    ensures Expand(b, v, s.particular, s.basis).Ok?
    ensures Expand(b, v, s.particular, s.basis) == Ok(PointOf(b, s, v)) <==> FitsBytes(PointOf(b, s, v))
  {
    PointFits(b, ciphertext, s, v);
    ExpandIsStored(b, s, v);
    StoredIff(PointOf(b, s, v), b.alphabetSize);
  }

  /** The first variable is the smallest number that a byte cannot hold. */
  function TooLarge(s: AffineKeys): (v: Row)
    requires |s.free| > 0
    ensures |v| == |s.free|
  {
    seq(|s.free|, t => if t == 0 then 256 else 0)
  }

  lemma TooLargeIsLost(s: AffineKeys, x: Row)
    requires |s.free| > 0 && Within(s.free, |x|) && Restrict(x, s.free) == TooLarge(s)
    ensures Restrict(Stored(x), s.free)[0] == 0 && Stored(x) != x
  {
    assert TooLarge(s)[0] == x[s.free[0]] == 256;
    assert Stored(x)[s.free[0]] == 0;
  }

  lemma CastLosesAt(b: BenchmarkSpec, s: AffineKeys)
    requires b.Valid() && KeysShaped(b, s) && Within(s.free, b.KeyLength()) && |s.free| > 0
    requires PointOf(b, s, TooLarge(s))[b.GaugeKeyIndex()] == b.gaugeValue
    requires Restrict(PointOf(b, s, TooLarge(s)), s.free) == TooLarge(s)
    ensures var r := Expand(b, TooLarge(s), s.particular, s.basis);
            r.Ok? && |r.value| == b.KeyLength() && Restrict(r.value, s.free)[0] == 0
    ensures Expand(b, TooLarge(s), s.particular, s.basis) != Ok(PointOf(b, s, TooLarge(s)))
  {
    ExpandIsStored(b, s, TooLarge(s));
    TooLargeIsLost(s, PointOf(b, s, TooLarge(s)));
  }

  /** On larger alphabets there is a vector that expand does not give back. */
  lemma CastLoses(b: BenchmarkSpec, ciphertext: seq<int>, s: AffineKeys)
    requires b.Valid() && |ciphertext| == b.textLength && ExactlyFits(b, ciphertext, s)
    requires b.alphabetSize > 256 && |s.free| > 0
    ensures Residues(TooLarge(s), b.alphabetSize)
    ensures var r := Expand(b, TooLarge(s), s.particular, s.basis);
            r.Ok? && |r.value| == b.KeyLength() && Restrict(r.value, s.free)[0] == 0
    ensures Expand(b, TooLarge(s), s.particular, s.basis) != Ok(PointOf(b, s, TooLarge(s)))
  {
    PointFits(b, ciphertext, s, TooLarge(s));
    CastLosesAt(b, s);
  }

  /** expand is exact on all vectors iff the alphabet fits into bytes, or there is no
      variable and the only key does. */
  lemma ExpandExactIff(b: BenchmarkSpec, ciphertext: seq<int>, s: AffineKeys)
    requires b.Valid() && |ciphertext| == b.textLength && ExactlyFits(b, ciphertext, s)
    ensures (forall v: Row :: |v| == |s.free| && Residues(v, b.alphabetSize) ==>
               Expand(b, v, s.particular, s.basis) == Ok(PointOf(b, s, v)))
       <==> b.alphabetSize <= 256 || (|s.free| == 0 && FitsBytes(PointOf(b, s, [])))
  {
    if b.alphabetSize <= 256 || |s.free| == 0 {
      forall v: Row | |v| == |s.free| && Residues(v, b.alphabetSize)
        ensures Expand(b, v, s.particular, s.basis) == Ok(PointOf(b, s, v)) <==> FitsBytes(PointOf(b, s, v))
      {
        ExpandIff(b, ciphertext, s, v);
      }
      assert |s.free| == 0 ==> forall v: Row :: |v| == 0 ==> v == [];
      assert Residues([], b.alphabetSize);
    } else {
      CastLoses(b, ciphertext, s);
    }
  }

  lemma SameStreamRune(b: BenchmarkSpec, ciphertext: seq<int>, key: Row, k: Row, pos: nat, rune: nat)
    requires b.Valid() && pos < |ciphertext| && |key| == |k| == b.KeyLength()
    requires Overlay(b, k, pos) == Overlay(b, key, pos)
    requires FitsRune(b, ciphertext, key, pos, rune)
    ensures FitsRune(b, ciphertext, k, pos, rune)
  {
  }

  /** A key over the alphabet with the stream of a key that fits the cribs fits them too. */
  lemma SameStreamFits(b: BenchmarkSpec, ciphertext: seq<int>, key: Row, k: Row)
    requires b.Valid() && |ciphertext| == b.textLength && FitsCribs(b, ciphertext, key) && IsKey(b, k)
    requires forall pos: nat :: Overlay(b, k, pos) == Overlay(b, key, pos)
    ensures FitsCribs(b, ciphertext, k)
  {
    forall i | 0 <= i < |CRIB_RUNES| ensures FitsRune(b, ciphertext, k, b.cribStart + i, CRIB_RUNES[i]) {
      SameStreamRune(b, ciphertext, key, k, b.cribStart + i, CRIB_RUNES[i]);
    }
    forall j, i | 0 <= j < |b.additionalCribs| && 0 <= i < |b.additionalCribs[j].runes|
      ensures FitsRune(b, ciphertext, k, b.additionalCribs[j].start + i, b.additionalCribs[j].runes[i])
    {
      SameStreamRune(b, ciphertext, key, k, b.additionalCribs[j].start + i, b.additionalCribs[j].runes[i]);
    }
  }

  /** Moving t from one stream to the other until B[0] meets the gauge. */
  function Regauge(b: BenchmarkSpec, key: Row): (k: Row)
    requires b.Valid() && |key| == b.KeyLength()
    ensures |k| == |key|
  {
    var t := key[b.GaugeKeyIndex()] - b.gaugeValue;
    seq(|key|, j requires 0 <= j < |key| => (if j < b.periodA then key[j] + t else key[j] - t) % b.alphabetSize)
  }

  lemma RegaugedOverlay(b: BenchmarkSpec, key: Row, pos: nat)
    requires b.Valid() && |key| == b.KeyLength()
    ensures Overlay(b, Regauge(b, key), pos) == Overlay(b, key, pos)
  {
    var t, m := key[b.GaugeKeyIndex()] - b.gaugeValue, b.alphabetSize;
    var i, j := pos % b.periodA, b.periodA + pos % b.periodB;
    CongMod(key[i] + t, m);
    CongMod(key[j] - t, m);
    CongAdd((key[i] + t) % m, key[i] + t, (key[j] - t) % m, key[j] - t, m);
    CongIsMod((key[i] + t) % m + (key[j] - t) % m, key[i] + key[j], m);
  }

  lemma RegaugedFits(b: BenchmarkSpec, ciphertext: seq<int>, key: Row)
    requires b.Valid() && |ciphertext| == b.textLength && FitsCribs(b, ciphertext, key)
    ensures Fits(b, ciphertext, Regauge(b, key))
  {
    forall pos: nat ensures Overlay(b, Regauge(b, key), pos) == Overlay(b, key, pos) {
      RegaugedOverlay(b, key, pos);
    }
    SameStreamFits(b, ciphertext, key, Regauge(b, key));
    ModOfReduced(b.gaugeValue, b.alphabetSize);
  }

  /** A key that fits the cribs but not the gauge has the stream of a parametrised key. */
  lemma UngaugedKeyCovered(b: BenchmarkSpec, ciphertext: seq<int>, s: AffineKeys, key: Row)
    requires b.Valid() && |ciphertext| == b.textLength && ExactlyFits(b, ciphertext, s)
    requires FitsCribs(b, ciphertext, key)
    ensures exists v: Row :: |v| == |s.free| && Residues(v, b.alphabetSize)
              && forall pos: nat :: Overlay(b, PointOf(b, s, v), pos) == Overlay(b, key, pos)
  {
    var k := Regauge(b, key);
    RegaugedFits(b, ciphertext, key);
    forall pos: nat ensures Overlay(b, k, pos) == Overlay(b, key, pos) {
      RegaugedOverlay(b, key, pos);
    }
    assert PointOf(b, s, Restrict(k, s.free)) == k;
  }
}
