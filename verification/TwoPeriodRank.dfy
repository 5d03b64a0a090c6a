/** How many variables the cribs of a two-period overlay leave free. */
module TwoPeriodRank {
  import opened ModArith
  import opened LinearSystem
  import opened AffineSpace
  import opened KeySpace
  import opened Counting
  import opened FineWilf

  ghost predicate Invisible(b: BenchmarkSpec, positions: set<nat>, x: Row)
    requires b.Valid()
  {
    |x| == b.KeyLength() && x[b.GaugeKeyIndex()] == 0 && forall p :: p in positions ==> Overlay(b, x, p) == 0
  }

  /** The gauge-fixed differences of keys that no position of the set can see. */
  ghost function Null(b: BenchmarkSpec, positions: set<nat>): set<Row>
    requires b.Valid()
  {
    set x | x in Vectors(b.KeyLength(), b.alphabetSize) && Invisible(b, positions, x)
  }

  function Difference(x: Row, y: Row, m: int): (d: Row)
    requires m > 0 && |x| == |y|
    ensures |d| == |x| && Residues(d, m)
  {
    seq(|x|, j requires 0 <= j < |x| => (x[j] - y[j]) % m)
  }

  lemma SumOfDifferences(d: int, d': int, x: int, x': int, y: int, y': int, m: int)
    requires m > 0 && d == (x - y) % m && d' == (x' - y') % m
    ensures Cong(d + d', (x + x') - (y + y'), m)
  {
    CongMod(x - y, m);
    CongMod(x' - y', m);
    CongAdd(d, x - y, d', x' - y', m);
  }

  /** Sums of entrywise differences, when the sums subtracted from one another agree ... */
  lemma SumsAgree(d: int, d': int, x: int, x': int, y: int, y': int, m: int)
    requires m > 0 && d == (x - y) % m && d' == (x' - y') % m && (x + x') % m == (y + y') % m
    ensures (d + d') % m == 0
  {
    SumOfDifferences(d, d', x, x', y, y', m);
    CongIsMod(x + x', y + y', m);
    CongRefl(y + y', m);
    CongSub(x + x', y + y', y + y', y + y', m);
    CongTrans(d + d', (x + x') - (y + y'), 0, m);
    CongIsMod(d + d', 0, m);
    ModOfReduced(0, m);
  }

  /** ... and when the one subtracted is zero. */
  lemma SumKept(d: int, d': int, x: int, x': int, y: int, y': int, m: int)
    requires m > 0 && d == (x - y) % m && d' == (x' - y') % m && (y + y') % m == 0
    ensures (d + d') % m == (x + x') % m
  {
    SumOfDifferences(d, d', x, x', y, y', m);
    ModOfReduced(0, m);
    CongIsMod(y + y', 0, m);
    CongRefl(x + x', m);
    CongSub(x + x', x + x', y + y', 0, m);
    CongTrans(d + d', (x + x') - (y + y'), x + x', m);
    CongIsMod(d + d', x + x', m);
  }

  lemma SameOverlay(b: BenchmarkSpec, x: Row, y: Row, p: nat)
    requires b.Valid() && |x| == |y| == b.KeyLength() && Overlay(b, x, p) == Overlay(b, y, p)
    ensures Overlay(b, Difference(x, y, b.alphabetSize), p) == 0
  {
    var d, i, j := Difference(x, y, b.alphabetSize), p % b.periodA, b.periodA + p % b.periodB;
    SumsAgree(d[i], d[j], x[i], x[j], y[i], y[j], b.alphabetSize);
  }

  lemma KeptOverlay(b: BenchmarkSpec, x: Row, y: Row, p: nat)
    requires b.Valid() && |x| == |y| == b.KeyLength() && Overlay(b, y, p) == 0
    ensures Overlay(b, Difference(x, y, b.alphabetSize), p) == Overlay(b, x, p)
  {
    var d, i, j := Difference(x, y, b.alphabetSize), p % b.periodA, b.periodA + p % b.periodB;
    SumKept(d[i], d[j], x[i], x[j], y[i], y[j], b.alphabetSize);
  }

  lemma DifferenceInjective(x: Row, y: Row, z: Row, m: int)
    requires m > 0 && |x| == |y| == |z| && Residues(x, m) && Residues(y, m)
    requires Difference(x, z, m) == Difference(y, z, m)
    ensures x == y
  {
    forall j | 0 <= j < |x| ensures x[j] == y[j] {
      assert Difference(x, z, m)[j] == Difference(y, z, m)[j];
      CongIsMod(x[j] - z[j], y[j] - z[j], m);
      CongRefl(z[j], m);
      CongAdd(x[j] - z[j], y[j] - z[j], z[j], z[j], m);
      CongReduced(x[j], y[j], m);
    }
  }

  lemma NullDifference(b: BenchmarkSpec, positions: set<nat>, x: Row, z: Row)
    requires b.Valid() && x in Null(b, positions) && z in Null(b, positions)
    ensures Invisible(b, positions, Difference(x, z, b.alphabetSize))
  {
    forall p | p in positions ensures Overlay(b, Difference(x, z, b.alphabetSize), p) == 0 {
      SameOverlay(b, x, z, p);
    }
  }

  /** Two invisible differences that look alike at p differ by one that p cannot see. */
  lemma AlikeDifference(b: BenchmarkSpec, positions: set<nat>, p: nat, x: Row, z: Row)
    requires b.Valid() && x in Null(b, positions) && z in Null(b, positions)
    requires Overlay(b, x, p) == Overlay(b, z, p)
    ensures Difference(x, z, b.alphabetSize) in Null(b, positions + {p})
  {
    NullDifference(b, positions, x, z);
    SameOverlay(b, x, z, p);
    VectorsAre(b.KeyLength(), b.alphabetSize, Difference(x, z, b.alphabetSize));
  }

  function OverlayAt(b: BenchmarkSpec, p: nat): Row -> int
    requires b.Valid()
  {
    x => if |x| == b.KeyLength() then Overlay(b, x, p) else 0
  }

  function Subtract(z: Row, m: int): Row -> Row
    requires m > 0
  {
    x => if |x| == |z| then Difference(x, z, m) else x
  }

  lemma FibreShrinks(b: BenchmarkSpec, positions: set<nat>, p: nat, c: int)
    requires b.Valid()
    ensures |Fibre(Null(b, positions), OverlayAt(b, p), c)| <= |Null(b, positions + {p})|
  {
    var m, n := b.alphabetSize, b.KeyLength();
    var fibre, t := Fibre(Null(b, positions), OverlayAt(b, p), c), Null(b, positions + {p});
    if fibre != {} {
      var z :| z in fibre;
      forall x | x in fibre ensures Subtract(z, m)(x) in t {
        AlikeDifference(b, positions, p, x, z);
      }
      forall x, y | x in fibre && y in fibre && Subtract(z, m)(x) == Subtract(z, m)(y) ensures x == y {
        VectorsAre(n, m, x);
        VectorsAre(n, m, y);
        DifferenceInjective(x, y, z, m);
      }
      InjectionCard(fibre, t, Subtract(z, m));
    }
  }

  /** One more position cuts the invisible differences by at most the alphabet size. */
  lemma NullShrinks(b: BenchmarkSpec, positions: set<nat>, p: nat)
    requires b.Valid()
    ensures |Null(b, positions)| <= b.alphabetSize * |Null(b, positions + {p})|
  {
    var m, s, t := b.alphabetSize, Null(b, positions), Null(b, positions + {p});
    forall x | x in s ensures 0 <= OverlayAt(b, p)(x) < m {
    }
    forall c | 0 <= c < m ensures |Fibre(s, OverlayAt(b, p), c)| <= |t| {
      FibreShrinks(b, positions, p, c);
    }
    FibresCard(s, OverlayAt(b, p), m, |t|);
  }

  lemma MulMonotone(k: nat, x: nat, y: nat)
    requires x <= y
    ensures k * x <= k * y
  {
  }

  lemma ChainBounds(x: nat, k: nat, y: nat, m: nat, c: nat)
    requires x <= k * y && y <= m * c
    ensures x <= (m * k) * c
  {
    MulMonotone(k, y, m * c);
    assert k * (m * c) == (m * k) * c;
  }

  lemma ShrinksOnce(b: BenchmarkSpec, positions: set<nat>, less: set<nat>, p: nat, k: nat)
    requires b.Valid() && |Null(b, positions)| <= Pow(b.alphabetSize, k) * |Null(b, less)|
    ensures |Null(b, positions)| <= Pow(b.alphabetSize, k + 1) * |Null(b, less + {p})|
  {
    var x, y, c := |Null(b, positions)|, |Null(b, less)|, |Null(b, less + {p})|;
    NullShrinks(b, less, p);
    ChainBounds(x, Pow(b.alphabetSize, k), y, b.alphabetSize, c);
  }

  lemma {:induction false} NullShrinksBy(b: BenchmarkSpec, positions: set<nat>, more: set<nat>)
    requires b.Valid()
    ensures |Null(b, positions)| <= Pow(b.alphabetSize, |more|) * |Null(b, positions + more)|
    decreases |more|
  {
    if more == {} {
      assert positions + more == positions;
    } else {
      var p :| p in more;
      NullShrinksBy(b, positions, more - {p});
      assert positions + (more - {p}) + {p} == positions + more;
      ShrinksOnce(b, positions, positions + (more - {p}), p, |more - {p}|);
    }
  }

  function EntryAt(n: nat, g: nat): Row -> int
    requires g < n
  {
    (x: Row) => if |x| == n then x[g] else 0
  }

  lemma GaugeFibre(b: BenchmarkSpec, c: int)
    requires b.Valid()
    ensures |Fibre(Vectors(b.KeyLength(), b.alphabetSize), EntryAt(b.KeyLength(), b.GaugeKeyIndex()), c)|
            <= |Null(b, {})|
  {
    var m, n := b.alphabetSize, b.KeyLength();
    var fibre, t := Fibre(Vectors(n, m), EntryAt(n, b.GaugeKeyIndex()), c), Null(b, {});
    if fibre != {} {
      var z :| z in fibre;
      VectorsAre(n, m, z);
      forall x | x in fibre ensures Subtract(z, m)(x) in t {
        VectorsAre(n, m, x);
        VectorsAre(n, m, Difference(x, z, m));
        ModOfReduced(0, m);
      }
      forall x, y | x in fibre && y in fibre && Subtract(z, m)(x) == Subtract(z, m)(y) ensures x == y {
        VectorsAre(n, m, x);
        VectorsAre(n, m, y);
        DifferenceInjective(x, y, z, m);
      }
      InjectionCard(fibre, t, Subtract(z, m));
    }
  }

  lemma CancelFactor(m: nat, x: nat, y: nat)
    requires m > 0 && m * x <= m * y
    ensures x <= y
  {
    if y < x {
      MulMonotone(m, y + 1, x);
    }
  }

  /** The gauge alone leaves one entry fewer than the key has. */
  lemma GaugeOnly(b: BenchmarkSpec)
    requires b.Valid()
    ensures Pow(b.alphabetSize, b.KeyLength() - 1) <= |Null(b, {})|
  {
    var m, n, g := b.alphabetSize, b.KeyLength(), b.GaugeKeyIndex();
    var all, t := Vectors(n, m), Null(b, {});
    var f := EntryAt(n, g);
    forall x | x in all ensures 0 <= f(x) < m {
      VectorsAre(n, m, x);
    }
    forall c | 0 <= c < m ensures |Fibre(all, f, c)| <= |t| {
      GaugeFibre(b, c);
    }
    FibresCard(all, f, m, |t|);
    VectorsCard(n, m);
    CancelFactor(m, Pow(m, n - 1), |t|);
  }

  /** i with (s + i) % p == j. */
  function Offset(s: nat, j: nat, p: nat): (i: nat)
    requires j < p
    ensures i < p && (s + i) % p == j
  {
    var i := (j - s) % p;
    CongMod(j - s, p);
    CongRefl(s, p);
    CongAdd(i, j - s, s, s, p);
    CongIsMod(s + i, j, p);
    ModOfReduced(j, p);
    i
  }

  lemma PeriodicMod(k: nat, p: nat)
    requires p > 0
    ensures (k + p) % p == k % p
  {
    CongBy(k + p, k, p, 1);
    CongIsMod(k + p, k, p);
  }

  /** Two residues that cancel each other determine each other. */
  lemma Opposite(x: int, y: int, z: int, m: int)
    requires m > 0 && 0 <= x < m && 0 <= y < m && (x + z) % m == 0 && (y + z) % m == 0
    ensures x == y
  {
    CongIsMod(x + z, y + z, m);
    CongRefl(z, m);
    CongSub(x + z, y + z, z, z, m);
    CongReduced(x, y, m);
  }

  ghost function Window(s: nat, length: nat): set<nat> {
    if length == 0 then {} else Window(s, length - 1) + {s + length - 1}
  }

  lemma {:induction false} WindowAre(s: nat, length: nat)
    ensures forall p: nat :: p in Window(s, length) <==> s <= p < s + length
    ensures |Window(s, length)| == length
  {
    if length > 0 {
      WindowAre(s, length - 1);
    }
  }

  /** The first stream as it is met along a window. */
  function Along(x: Row, s: nat, length: nat, a: nat): (w: Row)
    requires 0 < a <= |x|
    ensures |w| == length && forall i :: 0 <= i < length ==> w[i] == x[(s + i) % a]
  {
    seq(length, i requires 0 <= i < length => x[(s + i) % a])
  }

  lemma InvisibleAt(b: BenchmarkSpec, s: nat, x: Row, p: nat)
    requires b.Valid() && s <= p < s + b.KeyLength() - 1
    requires Invisible(b, Window(s, b.KeyLength() - 1), x)
    ensures Overlay(b, x, p) == 0
  {
    WindowAre(s, b.KeyLength() - 1);
  }

  /** Where the second stream agrees and both positions are invisible, the first stream agrees. */
  lemma SameFirst(b: BenchmarkSpec, x: Row, p: nat, q: nat)
    requires b.Valid() && IsKey(b, x) && Overlay(b, x, p) == 0 == Overlay(b, x, q)
    requires q % b.periodB == p % b.periodB
    ensures x[p % b.periodA] == x[q % b.periodA]
  {
    Opposite(x[p % b.periodA], x[q % b.periodA], x[b.periodA + p % b.periodB], b.alphabetSize);
  }

  lemma OppositeOfZero(y: int, m: int)
    requires 0 <= y < m && y % m == 0
    ensures y == 0
  {
    ModOfReduced(y, m);
  }

  lemma FirstOfGauge(b: BenchmarkSpec, x: Row, p: nat)
    requires b.Valid() && IsKey(b, x) && Overlay(b, x, p) == 0
    requires p % b.periodB == 0 && x[b.GaugeKeyIndex()] == 0
    ensures x[p % b.periodA] == 0
  {
    OppositeOfZero(x[p % b.periodA], b.alphabetSize);
  }

  lemma SecondOfZero(b: BenchmarkSpec, x: Row, p: nat)
    requires b.Valid() && IsKey(b, x) && Overlay(b, x, p) == 0 && x[p % b.periodA] == 0
    ensures x[b.periodA + p % b.periodB] == 0
  {
    OppositeOfZero(x[b.periodA + p % b.periodB], b.alphabetSize);
  }

  lemma SecondPeriod(b: BenchmarkSpec, s: nat, x: Row, i: nat)
    requires b.Valid() && IsKey(b, x) && i + b.periodB < b.KeyLength() - 1
    requires Invisible(b, Window(s, b.KeyLength() - 1), x)
    ensures x[(s + i) % b.periodA] == x[(s + i + b.periodB) % b.periodA]
  {
    var p, q := s + i, s + i + b.periodB;
    PeriodicMod(p, b.periodB);
    InvisibleAt(b, s, x, p);
    InvisibleAt(b, s, x, q);
    SameFirst(b, x, p, q);
  }

  lemma OwnPeriod(x: Row, s: nat, length: nat, a: nat)
    requires 0 < a <= |x|
    ensures Periodic(Along(x, s, length, a), a)
  {
    var w := Along(x, s, length, a);
    forall i | 0 <= i && i + a < |w| ensures w[i] == w[i + a] {
      PeriodicMod(s + i, a);
    }
  }

  /** Met along the window, the first stream has its own period and, being the
      opposite of the second stream, that one's period too. */
  lemma FirstStreamConstant(b: BenchmarkSpec, s: nat, x: Row)
    requires b.Valid() && Coprime(b.periodA, b.periodB) && IsKey(b, x)
    requires Invisible(b, Window(s, b.KeyLength() - 1), x)
    ensures Constant(Along(x, s, b.KeyLength() - 1, b.periodA))
  {
    var w := Along(x, s, b.KeyLength() - 1, b.periodA);
    OwnPeriod(x, s, b.KeyLength() - 1, b.periodA);
    forall i | 0 <= i && i + b.periodB < |w| ensures w[i] == w[i + b.periodB] {
      SecondPeriod(b, s, x, i);
    }
    CoprimePeriods(w, b.periodA, b.periodB);
  }

  lemma FirstStreamZero(b: BenchmarkSpec, s: nat, x: Row, j: nat)
    requires b.Valid() && Coprime(b.periodA, b.periodB) && IsKey(b, x) && j < b.periodA
    requires Invisible(b, Window(s, b.KeyLength() - 1), x)
    ensures x[j] == 0
  {
    var w := Along(x, s, b.KeyLength() - 1, b.periodA);
    FirstStreamConstant(b, s, x);
    var gauged, at := Offset(s, 0, b.periodB), Offset(s, j, b.periodA);
    InvisibleAt(b, s, x, s + gauged);
    FirstOfGauge(b, x, s + gauged);
    assert x[j] == w[at] == w[gauged];
  }

  lemma SecondStreamZero(b: BenchmarkSpec, s: nat, x: Row, j: nat)
    requires b.Valid() && Coprime(b.periodA, b.periodB) && IsKey(b, x) && j < b.periodB
    requires Invisible(b, Window(s, b.KeyLength() - 1), x)
    ensures x[b.periodA + j] == 0
  {
    var p := s + Offset(s, j, b.periodB);
    InvisibleAt(b, s, x, p);
    FirstStreamZero(b, s, x, p % b.periodA);
    SecondOfZero(b, x, p);
  }

  /** A difference invisible on a + b - 1 consecutive positions is zero: the first
      stream is constant there, and the gauge pins the constant. */
  lemma InvisibleIsZero(b: BenchmarkSpec, s: nat, x: Row)
    requires b.Valid() && Coprime(b.periodA, b.periodB) && IsKey(b, x)
    requires Invisible(b, Window(s, b.KeyLength() - 1), x)
    ensures forall j :: 0 <= j < |x| ==> x[j] == 0
  {
    forall j | 0 <= j < |x| ensures x[j] == 0 {
      if j < b.periodA {
        FirstStreamZero(b, s, x, j);
      } else {
        SecondStreamZero(b, s, x, j - b.periodA);
      }
    }
  }

  lemma ZeroDifference(x: Row, y: Row, m: int)
    requires m > 0 && |x| == |y| && Residues(x, m) && Residues(y, m)
    requires forall j :: 0 <= j < |x| ==> Difference(x, y, m)[j] == 0
    ensures x == y
  {
    forall j | 0 <= j < |x| ensures x[j] == y[j] {
      assert Difference(x, y, m)[j] == 0;
      ModOfReduced(0, m);
      CongIsMod(x[j] - y[j], 0, m);
      CongRefl(y[j], m);
      CongAdd(x[j] - y[j], 0, y[j], y[j], m);
      CongReduced(x[j], y[j], m);
    }
  }

  /** On a window of a + b - 1 positions the stream determines the gauge-fixed key. */
  lemma StreamDeterminesKey(b: BenchmarkSpec, s: nat, x: Row, y: Row)
    requires b.Valid() && Coprime(b.periodA, b.periodB) && IsKey(b, x) && IsKey(b, y)
    requires x[b.GaugeKeyIndex()] == y[b.GaugeKeyIndex()]
    requires forall p :: s <= p < s + b.KeyLength() - 1 ==> Overlay(b, x, p) == Overlay(b, y, p)
    ensures x == y
  {
    var d := Difference(x, y, b.alphabetSize);
    WindowAre(s, b.KeyLength() - 1);
    ModOfReduced(0, b.alphabetSize);
    forall p | p in Window(s, b.KeyLength() - 1) ensures Overlay(b, d, p) == 0 {
      SameOverlay(b, x, y, p);
    }
    InvisibleIsZero(b, s, d);
    ZeroDifference(x, y, b.alphabetSize);
  }

  lemma WindowNull(b: BenchmarkSpec, s: nat)
    requires b.Valid() && Coprime(b.periodA, b.periodB)
    ensures |Null(b, Window(s, b.KeyLength() - 1))| <= 1
  {
    var n, m := b.KeyLength(), b.alphabetSize;
    var zero := seq(n, _ => 0);
    var nulls := Null(b, Window(s, n - 1));
    forall x | x in nulls ensures x == zero {
      VectorsAre(n, m, x);
      InvisibleIsZero(b, s, x);
    }
    InjectionCard(nulls, {zero}, (x: Row) => x);
  }

  ghost function Positions(knowns: seq<Known>): set<nat> {
    set i | 0 <= i < |knowns| :: knowns[i].pos
  }

  /** The positions whose plaintext rune the cribs give. */
  ghost function CribPositions(b: BenchmarkSpec): set<nat> {
    Positions(Knowns(b.Spans()))
  }

  /** The key of a vector of variables, less the key of the zero vector. */
  function ToNull(b: BenchmarkSpec, s: AffineKeys, base: Row): Row -> Row
    requires b.Valid() && KeysShaped(b, s) && |base| == b.KeyLength()
  {
    v => if |v| == |s.free| then Difference(PointOf(b, s, v), base, b.alphabetSize) else v
  }

  lemma FitsDifference(b: BenchmarkSpec, ciphertext: seq<int>, x: Row, y: Row)
    requires b.Valid() && |ciphertext| == b.textLength && Fits(b, ciphertext, x) && Fits(b, ciphertext, y)
    ensures Invisible(b, CribPositions(b), Difference(x, y, b.alphabetSize))
  {
    var knowns, m := Knowns(b.Spans()), b.alphabetSize;
    FitsCribsIff(b, ciphertext, x);
    FitsCribsIff(b, ciphertext, y);
    ModOfReduced(0, m);
    forall p | p in Positions(knowns) ensures Overlay(b, Difference(x, y, m), p) == 0 {
      var i :| 0 <= i < |knowns| && knowns[i].pos == p;
      SameOverlay(b, x, y, p);
    }
  }

  lemma VectorsAtMostNulls(b: BenchmarkSpec, ciphertext: seq<int>, s: AffineKeys, base: Row)
    requires b.Valid() && |ciphertext| == b.textLength && ExactlyFits(b, ciphertext, s) && Fits(b, ciphertext, base)
    ensures |Vectors(|s.free|, b.alphabetSize)| <= |Null(b, CribPositions(b))|
  {
    var n, m, d := b.KeyLength(), b.alphabetSize, |s.free|;
    var nulls, vectors, f := Null(b, CribPositions(b)), Vectors(d, m), ToNull(b, s, base);
    forall v | v in vectors ensures f(v) in nulls {
      VectorsAre(d, m, v);
      FitsDifference(b, ciphertext, PointOf(b, s, v), base);
      VectorsAre(n, m, f(v));
    }
    forall v, w | v in vectors && w in vectors && f(v) == f(w) ensures v == w {
      VectorsAre(d, m, v);
      VectorsAre(d, m, w);
      DifferenceInjective(PointOf(b, s, v), PointOf(b, s, w), base, m);
    }
    InjectionCard(vectors, nulls, f);
  }

  /** base minus an invisible difference. */
  function Shifted(b: BenchmarkSpec, base: Row, x: Row): (k: Row)
    requires b.Valid() && |x| == |base|
    ensures |k| == |x|
  {
    Difference(base, x, b.alphabetSize)
  }

  /** The variables of the base key less an invisible difference. */
  function ToVector(b: BenchmarkSpec, s: AffineKeys, base: Row): Row -> Row
    requires b.Valid() && Within(s.free, |base|)
  {
    x => if |x| == |base| then Restrict(Shifted(b, base, x), s.free) else x
  }

  lemma ShiftedFits(b: BenchmarkSpec, ciphertext: seq<int>, base: Row, x: Row)
    requires b.Valid() && |ciphertext| == b.textLength && Fits(b, ciphertext, base)
    requires Invisible(b, CribPositions(b), x)
    ensures Fits(b, ciphertext, Shifted(b, base, x))
  {
    var knowns, m := Knowns(b.Spans()), b.alphabetSize;
    FitsCribsIff(b, ciphertext, base);
    FitsCribsIff(b, ciphertext, Shifted(b, base, x));
    ModOfReduced(0, m);
    forall i | 0 <= i < |knowns|
      ensures Overlay(b, Shifted(b, base, x), knowns[i].pos) == Overlay(b, base, knowns[i].pos)
    {
      var p := knowns[i].pos;
      assert p in Positions(knowns);
      KeptOverlay(b, base, x, p);
    }
  }

  lemma NullToVector(b: BenchmarkSpec, ciphertext: seq<int>, s: AffineKeys, base: Row, x: Row)
    requires b.Valid() && |ciphertext| == b.textLength && ExactlyFits(b, ciphertext, s) && Fits(b, ciphertext, base)
    requires x in Null(b, CribPositions(b))
    ensures ToVector(b, s, base)(x) in Vectors(|s.free|, b.alphabetSize)
    ensures PointOf(b, s, ToVector(b, s, base)(x)) == Shifted(b, base, x)
  {
    VectorsAre(b.KeyLength(), b.alphabetSize, x);
    ShiftedFits(b, ciphertext, base, x);
    VectorsAre(|s.free|, b.alphabetSize, ToVector(b, s, base)(x));
  }

  lemma ShiftInjective(b: BenchmarkSpec, base: Row, x: Row, y: Row)
    requires b.Valid() && |x| == |y| == |base|
    requires Residues(x, b.alphabetSize) && Residues(y, b.alphabetSize)
    requires Shifted(b, base, x) == Shifted(b, base, y)
    ensures x == y
  {
    var m := b.alphabetSize;
    forall j | 0 <= j < |x| ensures x[j] == y[j] {
      assert Shifted(b, base, x)[j] == Shifted(b, base, y)[j];
      CongIsMod(base[j] - x[j], base[j] - y[j], m);
      CongRefl(base[j], m);
      CongSub(base[j], base[j], base[j] - x[j], base[j] - y[j], m);
      CongReduced(x[j], y[j], m);
    }
  }

  lemma SameVector(b: BenchmarkSpec, ciphertext: seq<int>, s: AffineKeys, base: Row, x: Row, y: Row)
    requires b.Valid() && |ciphertext| == b.textLength && ExactlyFits(b, ciphertext, s) && Fits(b, ciphertext, base)
    requires x in Null(b, CribPositions(b)) && y in Null(b, CribPositions(b))
    requires ToVector(b, s, base)(x) == ToVector(b, s, base)(y)
    ensures x == y
  {
    NullToVector(b, ciphertext, s, base, x);
    NullToVector(b, ciphertext, s, base, y);
    VectorsAre(b.KeyLength(), b.alphabetSize, x);
    VectorsAre(b.KeyLength(), b.alphabetSize, y);
    ShiftInjective(b, base, x, y);
  }

  lemma NullsAtMostVectors(b: BenchmarkSpec, ciphertext: seq<int>, s: AffineKeys, base: Row)
    requires b.Valid() && |ciphertext| == b.textLength && ExactlyFits(b, ciphertext, s) && Fits(b, ciphertext, base)
    ensures |Null(b, CribPositions(b))| <= |Vectors(|s.free|, b.alphabetSize)|
  {
    var m, nulls, f := b.alphabetSize, Null(b, CribPositions(b)), ToVector(b, s, base);
    forall x | x in nulls ensures f(x) in Vectors(|s.free|, m) {
      NullToVector(b, ciphertext, s, base, x);
    }
    forall x, y | x in nulls && y in nulls && f(x) == f(y) ensures x == y {
      SameVector(b, ciphertext, s, base, x, y);
    }
    InjectionCard(nulls, Vectors(|s.free|, m), f);
  }

  /** There are as many fitting keys as invisible differences. */
  lemma FreeCard(b: BenchmarkSpec, ciphertext: seq<int>, s: AffineKeys)
    requires b.Valid() && |ciphertext| == b.textLength && ExactlyFits(b, ciphertext, s)
    ensures |Null(b, CribPositions(b))| == Pow(b.alphabetSize, |s.free|)
  {
    SomethingFits(b, ciphertext, s);
    var base: Row :| Fits(b, ciphertext, base);
    VectorsCard(|s.free|, b.alphabetSize);
    VectorsAtMostNulls(b, ciphertext, s, base);
    NullsAtMostVectors(b, ciphertext, s, base);
  }

  lemma RankBound(m: nat, full: nat, known: nat, free: nat, all: nat, left: nat)
    requires m > 1 && Pow(m, full) <= all <= Pow(m, known) * left && left == Pow(m, free)
    ensures full <= known + free
  {
    PowAdd(m, known, free);
    PowOrder(m, full, known + free);
  }

  lemma NullBound(b: BenchmarkSpec, positions: set<nat>, free: nat)
    requires b.Valid() && |Null(b, positions)| == Pow(b.alphabetSize, free)
    ensures free + |positions| >= b.KeyLength() - 1
  {
    var all, left := |Null(b, {})|, |Null(b, positions)|;
    GaugeOnly(b);
    NullShrinksBy(b, {}, positions);
    assert {} + positions == positions;
    RankBound(b.alphabetSize, b.KeyLength() - 1, |positions|, free, all, left);
  }

  /** No cribs can save more variables than they have positions. */
  lemma FreeAtLeast(b: BenchmarkSpec, ciphertext: seq<int>, s: AffineKeys)
    requires b.Valid() && |ciphertext| == b.textLength && ExactlyFits(b, ciphertext, s)
    ensures |s.free| + |CribPositions(b)| >= b.KeyLength() - 1
  {
    FreeCard(b, ciphertext, s);
    NullBound(b, CribPositions(b), |s.free|);
  }

  lemma WindowBound(m: nat, rest: nat, free: nat, all: nat, left: nat)
    requires m > 1 && all <= Pow(m, rest) * left && left <= 1 && all == Pow(m, free)
    ensures free <= rest
  {
    MulMonotone(Pow(m, rest), left, 1);
    PowOrder(m, free, rest);
  }

  lemma SubsetCard<T>(a: set<T>, b: set<T>)
    requires a <= b
    ensures a + (b - a) == b && |a| + |b - a| == |b|
  {
    assert a + (b - a) == b;
  }

  lemma RestBound(b: BenchmarkSpec, positions: set<nat>, rest: set<nat>, start: nat, free: nat)
    requires b.Valid() && Coprime(b.periodA, b.periodB) && positions + rest == Window(start, b.KeyLength() - 1)
    requires |Null(b, positions)| == Pow(b.alphabetSize, free)
    ensures free <= |rest|
  {
    var all, left := |Null(b, positions)|, |Null(b, positions + rest)|;
    NullShrinksBy(b, positions, rest);
    WindowNull(b, start);
    WindowBound(b.alphabetSize, |rest|, free, all, left);
  }

  lemma FreeInWindow(b: BenchmarkSpec, positions: set<nat>, start: nat, free: nat)
    requires b.Valid() && Coprime(b.periodA, b.periodB) && positions <= Window(start, b.KeyLength() - 1)
    requires |Null(b, positions)| == Pow(b.alphabetSize, free) && free + |positions| >= b.KeyLength() - 1
    ensures free == b.KeyLength() - 1 - |positions|
  {
    var window := Window(start, b.KeyLength() - 1);
    WindowAre(start, b.KeyLength() - 1);
    SubsetCard(positions, window);
    RestBound(b, positions, window - positions, start, free);
  }

  /** Inside any window of a + b - 1 positions, with coprime periods, every crib
      position saves exactly one variable. */
  lemma FreeInsideWindow(b: BenchmarkSpec, ciphertext: seq<int>, s: AffineKeys, start: nat)
    requires b.Valid() && |ciphertext| == b.textLength && ExactlyFits(b, ciphertext, s)
    requires Coprime(b.periodA, b.periodB)
    requires CribPositions(b) <= Window(start, b.KeyLength() - 1)
    ensures |s.free| == b.KeyLength() - 1 - |CribPositions(b)|
  {
    FreeAtLeast(b, ciphertext, s);
    FreeCard(b, ciphertext, s);
    FreeInWindow(b, CribPositions(b), start, |s.free|);
  }

  /** Covering such a window leaves nothing free. */
  lemma FreeOverWindow(b: BenchmarkSpec, ciphertext: seq<int>, s: AffineKeys, start: nat)
    requires b.Valid() && |ciphertext| == b.textLength && ExactlyFits(b, ciphertext, s)
    requires Coprime(b.periodA, b.periodB)
    requires Window(start, b.KeyLength() - 1) <= CribPositions(b)
    ensures |s.free| == 0
  {
    var positions, window := CribPositions(b), Window(start, b.KeyLength() - 1);
    FreeCard(b, ciphertext, s);
    WindowNull(b, start);
    InjectionCard(Null(b, positions), Null(b, window), (x: Row) => x);
    PowOrder(b.alphabetSize, |s.free|, 0);
  }

  lemma WindowGrows(start: nat, count: nat, more: nat)
    requires count <= more
    ensures Window(start, count) <= Window(start, more) && |Window(start, count)| == count
  {
    WindowAre(start, count);
    WindowAre(start, more);
  }

  /** One contiguous stretch of `count` known positions: the rank is cut off at a + b - 1. */
  lemma ContiguousFreeDimension(b: BenchmarkSpec, ciphertext: seq<int>, s: AffineKeys, start: nat, count: nat)
    requires b.Valid() && |ciphertext| == b.textLength && ExactlyFits(b, ciphertext, s)
    requires Coprime(b.periodA, b.periodB)
    requires CribPositions(b) == Window(start, count)
    ensures |s.free| == b.KeyLength() - 1 - Min(count, b.KeyLength() - 1)
  {
    var whole := b.KeyLength() - 1;
    if count <= whole {
      WindowGrows(start, count, whole);
      FreeInsideWindow(b, ciphertext, s, start);
    } else {
      WindowGrows(start, whole, count);
      FreeOverWindow(b, ciphertext, s, start);
    }
  }
}
