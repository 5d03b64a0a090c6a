/** The exact number of free variables, for any cribs: every known position joins an entry
    of the first stream to an entry of the second, and each connected component of that
    graph has one degree of freedom, less the one the gauge takes. */
module CribGraph {
  import opened ModArith
  import opened LinearSystem
  import opened KeySpace
  import opened Counting
  import opened Permutations
  import opened TwoPeriodRank

  function NodeA(b: BenchmarkSpec, p: nat): (v: nat)
    requires b.Valid()
    ensures v < b.periodA
  {
    p % b.periodA
  }

  function NodeB(b: BenchmarkSpec, p: nat): (v: nat)
    requires b.Valid()
    ensures b.periodA <= v < b.KeyLength()
  {
    b.periodA + p % b.periodB
  }

  /** Everything labelled like j is labelled like i from now on. */
  function Merge(l: seq<nat>, i: nat, j: nat): (r: seq<nat>)
    requires i < |l| && j < |l|
    ensures |r| == |l| && forall v :: 0 <= v < |l| ==> r[v] == if l[v] == l[j] then l[i] else l[v]
  {
    seq(|l|, v requires 0 <= v < |l| => if l[v] == l[j] then l[i] else l[v])
  }

  /** A component label for every key entry, after joining the entries of each position. */
  function Labels(b: BenchmarkSpec, ps: seq<nat>): (l: seq<nat>)
    requires b.Valid()
    ensures |l| == b.KeyLength()
  {
    if |ps| == 0 then Identity(b.KeyLength())
    else Merge(Labels(b, ps[..|ps| - 1]), NodeA(b, ps[|ps| - 1]), NodeB(b, ps[|ps| - 1]))
  }

  predicate Joined(b: BenchmarkSpec, ps: seq<nat>, p: nat)
    requires b.Valid()
  {
    Labels(b, ps)[NodeA(b, p)] == Labels(b, ps)[NodeB(b, p)]
  }

  /** How many of the positions connect two components that were apart before. */
  function Joins(b: BenchmarkSpec, ps: seq<nat>): nat
    requires b.Valid()
  {
    if |ps| == 0 then 0
    else Joins(b, ps[..|ps| - 1]) + if Joined(b, ps[..|ps| - 1], ps[|ps| - 1]) then 0 else 1
  }

  ghost function LabelSet(l: seq<nat>): set<nat> {
    set v | 0 <= v < |l| :: l[v]
  }

  ghost function PositionSet(ps: seq<nat>): set<nat> {
    set p | p in ps
  }

  lemma PositionSetSnoc(ps: seq<nat>)
    requires |ps| > 0
    ensures PositionSet(ps) == PositionSet(ps[..|ps| - 1]) + {ps[|ps| - 1]}
  {
    var init, last := ps[..|ps| - 1], ps[|ps| - 1];
    assert ps == init + [last];
  }

  // -- components ----------------------------------------------------------------------

  lemma MergeLoses(l: seq<nat>, i: nat, j: nat)
    requires i < |l| && j < |l| && l[i] != l[j]
    ensures LabelSet(Merge(l, i, j)) == LabelSet(l) - {l[j]}
  {
    var r := Merge(l, i, j);
    forall t | t in LabelSet(l) - {l[j]} ensures t in LabelSet(r) {
      var v :| 0 <= v < |l| && l[v] == t;
      assert r[v] == t;
    }
    forall t | t in LabelSet(r) ensures t in LabelSet(l) - {l[j]} {
      var v :| 0 <= v < |r| && r[v] == t;
      assert t == l[i] || t == l[v];
    }
  }

  lemma LabelSetSnoc(l: seq<nat>)
    requires |l| > 0
    ensures LabelSet(l) == LabelSet(l[..|l| - 1]) + {l[|l| - 1]}
  {
    var init := l[..|l| - 1];
    forall t | t in LabelSet(l) ensures t in LabelSet(init) + {l[|l| - 1]} {
      var v :| 0 <= v < |l| && l[v] == t;
      assert v < |init| ==> init[v] == t;
    }
    forall t | t in LabelSet(init) ensures t in LabelSet(l) {
      var v :| 0 <= v < |init| && init[v] == t;
      assert l[v] == t;
    }
  }

  lemma {:induction false} DistinctLabels(l: seq<nat>)
    requires forall i, j :: 0 <= i < j < |l| ==> l[i] != l[j]
    ensures |LabelSet(l)| == |l|
  {
    if |l| > 0 {
      var init := l[..|l| - 1];
      DistinctLabels(init);
      LabelSetSnoc(l);
    }
  }

  /** Each join leaves one component fewer. */
  lemma {:induction false} ComponentCount(b: BenchmarkSpec, ps: seq<nat>)
    requires b.Valid()
    ensures |LabelSet(Labels(b, ps))| + Joins(b, ps) == b.KeyLength()
  {
    if |ps| == 0 {
      DistinctLabels(Identity(b.KeyLength()));
    } else {
      var init, p := ps[..|ps| - 1], ps[|ps| - 1];
      ComponentCount(b, init);
      var l := Labels(b, init);
      if Joined(b, init, p) {
        assert Merge(l, NodeA(b, p), NodeB(b, p)) == l;
      } else {
        MergeLoses(l, NodeA(b, p), NodeB(b, p));
        assert l[NodeB(b, p)] in LabelSet(l);
      }
    }
  }

  lemma {:induction false} EndsJoined(b: BenchmarkSpec, ps: seq<nat>, k: nat)
    requires b.Valid() && k < |ps|
    ensures Joined(b, ps, ps[k])
  {
    if k < |ps| - 1 {
      EndsJoined(b, ps[..|ps| - 1], k);
    }
  }

  // -- what a component says about an invisible difference ---------------------------------

  /** The entry of the first stream, or the opposite of the entry of the second. */
  function Signed(b: BenchmarkSpec, x: Row, v: nat): int
    requires b.Valid() && |x| == b.KeyLength() && v < |x|
  {
    if v < b.periodA then x[v] else if x[v] == 0 then 0 else b.alphabetSize - x[v]
  }

  lemma SumZeroIff(u: int, w: int, m: int)
    requires 0 <= u < m && 0 <= w < m
    ensures (u + w) % m == 0 <==> u == if w == 0 then 0 else m - w
  {
    if u + w < m {
      ModOfReduced(u + w, m);
    } else {
      CongBy(u + w, u + w - m, m, 1);
      CongIsMod(u + w, u + w - m, m);
      ModOfReduced(u + w - m, m);
    }
  }

  /** A position cannot see x exactly when its two ends carry the same signed value. */
  lemma UnseenIff(b: BenchmarkSpec, x: Row, p: nat)
    requires b.Valid() && IsKey(b, x)
    ensures Overlay(b, x, p) == 0 <==> Signed(b, x, NodeA(b, p)) == Signed(b, x, NodeB(b, p))
  {
    SumZeroIff(x[NodeA(b, p)], x[NodeB(b, p)], b.alphabetSize);
  }

  /** Throughout a component the signed values agree. */
  lemma {:induction false} SameLabel(b: BenchmarkSpec, ps: seq<nat>, x: Row, v: nat, w: nat)
    requires b.Valid() && IsKey(b, x) && (forall k :: 0 <= k < |ps| ==> Overlay(b, x, ps[k]) == 0)
    requires v < |x| && w < |x| && Labels(b, ps)[v] == Labels(b, ps)[w]
    ensures Signed(b, x, v) == Signed(b, x, w)
  {
    if |ps| > 0 {
      var init, p := ps[..|ps| - 1], ps[|ps| - 1];
      var l, i, j := Labels(b, init), NodeA(b, p), NodeB(b, p);
      assert forall k :: 0 <= k < |init| ==> init[k] == ps[k];
      UnseenIff(b, x, p);
      if l[v] == l[w] {
        SameLabel(b, init, x, v, w);
      } else if l[v] == l[j] {
        SameLabel(b, init, x, v, j);
        SameLabel(b, init, x, w, i);
      } else {
        SameLabel(b, init, x, v, i);
        SameLabel(b, init, x, w, j);
      }
    }
  }

  /** A position within a component sees nothing new. */
  lemma LoopKeeps(b: BenchmarkSpec, ps: seq<nat>, p: nat)
    requires b.Valid() && Joined(b, ps, p)
    ensures Null(b, PositionSet(ps) + {p}) == Null(b, PositionSet(ps))
  {
    forall x | x in Null(b, PositionSet(ps)) ensures x in Null(b, PositionSet(ps) + {p}) {
      VectorsAre(b.KeyLength(), b.alphabetSize, x);
      assert forall k :: 0 <= k < |ps| ==> ps[k] in PositionSet(ps);
      SameLabel(b, ps, x, NodeA(b, p), NodeB(b, p));
      UnseenIff(b, x, p);
    }
  }

  // -- moving a whole component --------------------------------------------------------------

  /** x with e added to the first-stream entries of a component and taken from the others. */
  function Moved(b: BenchmarkSpec, l: seq<nat>, root: nat, e: int): Row -> Row
    requires b.Valid() && |l| == b.KeyLength()
  {
    x =>
      if |x| != |l| then
        x
      else
        seq(|x|, v requires 0 <= v < |x| == |l| =>
          if l[v] == root then (if v < b.periodA then x[v] + e else x[v] - e) % b.alphabetSize else x[v])
  }

  lemma MovedBack(u: int, w: int, e: int, m: int)
    requires 0 <= u < m && 0 <= w < m && (u + e) % m == (w + e) % m
    ensures u == w
  {
    CongIsMod(u + e, w + e, m);
    CongRefl(e, m);
    CongSub(u + e, w + e, e, e, m);
    CongReduced(u, w, m);
  }

  lemma MovedInjective(b: BenchmarkSpec, l: seq<nat>, root: nat, e: int, x: Row, y: Row)
    requires b.Valid() && |l| == b.KeyLength() && IsKey(b, x) && IsKey(b, y)
    requires Moved(b, l, root, e)(x) == Moved(b, l, root, e)(y)
    ensures x == y
  {
    forall v | 0 <= v < |x| ensures x[v] == y[v] {
      assert Moved(b, l, root, e)(x)[v] == Moved(b, l, root, e)(y)[v];
      if l[v] == root {
        MovedBack(x[v], y[v], if v < b.periodA then e else -e, b.alphabetSize);
      }
    }
  }

  lemma SumMoved(u: int, w: int, e: int, f: int, m: int)
    requires m > 0
    ensures ((u + e) % m + (w + f) % m) % m == (u + w + (e + f)) % m
  {
    CongMod(u + e, m);
    CongMod(w + f, m);
    CongAdd((u + e) % m, u + e, (w + f) % m, w + f, m);
    CongIsMod((u + e) % m + (w + f) % m, u + w + (e + f), m);
  }

  /** By how much moving the component changes the sum at a position. */
  function Gain(b: BenchmarkSpec, l: seq<nat>, root: nat, e: int, p: nat): int
    requires b.Valid() && |l| == b.KeyLength()
  {
    (if l[NodeA(b, p)] == root then e else 0) + (if l[NodeB(b, p)] == root then -e else 0)
  }

  lemma MovedEntry(b: BenchmarkSpec, l: seq<nat>, root: nat, e: int, x: Row, v: nat)
    requires b.Valid() && |l| == b.KeyLength() && IsKey(b, x) && v < |x|
    ensures Moved(b, l, root, e)(x)[v] ==
              (x[v] + if l[v] != root then 0 else if v < b.periodA then e else -e) % b.alphabetSize
  {
    ModOfReduced(x[v], b.alphabetSize);
  }

  lemma MovedOverlay(b: BenchmarkSpec, l: seq<nat>, root: nat, e: int, x: Row, p: nat)
    requires b.Valid() && |l| == b.KeyLength() && IsKey(b, x)
    ensures Overlay(b, Moved(b, l, root, e)(x), p) ==
              (x[NodeA(b, p)] + x[NodeB(b, p)] + Gain(b, l, root, e, p)) % b.alphabetSize
  {
    var i, j, m, y := NodeA(b, p), NodeB(b, p), b.alphabetSize, Moved(b, l, root, e)(x);
    MovedEntry(b, l, root, e, x, i);
    MovedEntry(b, l, root, e, x, j);
    SumMoved(x[i], x[j], if l[i] == root then e else 0, if l[j] == root then -e else 0, m);
  }

  lemma MovedKey(b: BenchmarkSpec, l: seq<nat>, root: nat, e: int, x: Row)
    requires b.Valid() && |l| == b.KeyLength() && IsKey(b, x)
    ensures IsKey(b, Moved(b, l, root, e)(x))
  {
  }

  lemma SumFrom(s: int, c: int, m: int)
    requires 0 <= c < m && s % m == 0
    ensures (s + c) % m == c
  {
    CongIsMod(s, 0, m);
    ModOfReduced(0, m);
    CongRefl(c, m);
    CongAdd(s, 0, c, c, m);
    CongIsMod(s + c, c, m);
    ModOfReduced(c, m);
  }

  lemma MovedGains(b: BenchmarkSpec, l: seq<nat>, root: nat, e: int, x: Row, p: nat, c: int)
    requires b.Valid() && |l| == b.KeyLength() && IsKey(b, x) && Overlay(b, x, p) == 0
    requires 0 <= c < b.alphabetSize && Gain(b, l, root, e, p) == c
    ensures Overlay(b, Moved(b, l, root, e)(x), p) == c
  {
    MovedOverlay(b, l, root, e, x, p);
    SumFrom(x[NodeA(b, p)] + x[NodeB(b, p)], c, b.alphabetSize);
  }

  lemma MovedUnseen(b: BenchmarkSpec, ps: seq<nat>, root: nat, e: int, x: Row, q: nat)
    requires b.Valid() && IsKey(b, x) && q in PositionSet(ps) && Overlay(b, x, q) == 0
    ensures Overlay(b, Moved(b, Labels(b, ps), root, e)(x), q) == 0
  {
    var k :| 0 <= k < |ps| && ps[k] == q;
    EndsJoined(b, ps, k);
    MovedGains(b, Labels(b, ps), root, e, x, q, 0);
  }

  /** An invisible difference stays one when a component without the gauge is moved, and a
      position that leaves the component sees it change by e or -e. */
  lemma MovedStays(b: BenchmarkSpec, ps: seq<nat>, root: nat, e: int, x: Row, p: nat, c: int)
    requires b.Valid() && x in Null(b, PositionSet(ps) + {p}) && root != Labels(b, ps)[b.GaugeKeyIndex()]
    requires 0 <= c < b.alphabetSize && Gain(b, Labels(b, ps), root, e, p) == c
    ensures Moved(b, Labels(b, ps), root, e)(x) in Fibre(Null(b, PositionSet(ps)), OverlayAt(b, p), c)
  {
    var y := Moved(b, Labels(b, ps), root, e)(x);
    VectorsAre(b.KeyLength(), b.alphabetSize, x);
    MovedKey(b, Labels(b, ps), root, e, x);
    VectorsAre(b.KeyLength(), b.alphabetSize, y);
    forall q | q in PositionSet(ps) ensures Overlay(b, y, q) == 0 {
      MovedUnseen(b, ps, root, e, x, q);
    }
    MovedGains(b, Labels(b, ps), root, e, x, p, c);
  }

  /** A position between two components sees every value equally often. */
  lemma JoinFibre(b: BenchmarkSpec, ps: seq<nat>, p: nat, c: int)
    requires b.Valid() && !Joined(b, ps, p) && 0 <= c < b.alphabetSize
    ensures |Null(b, PositionSet(ps) + {p})| <= |Fibre(Null(b, PositionSet(ps)), OverlayAt(b, p), c)|
  {
    var l, i, j, m := Labels(b, ps), NodeA(b, p), NodeB(b, p), b.alphabetSize;
    var withA := l[i] != l[b.GaugeKeyIndex()];
    var root, e := if withA then l[i] else l[j], if withA then c else -c;
    var s, t, f := Null(b, PositionSet(ps) + {p}), Fibre(Null(b, PositionSet(ps)), OverlayAt(b, p), c),
        Moved(b, l, root, e);
    forall x | x in s ensures f(x) in t {
      MovedStays(b, ps, root, e, x, p, c);
    }
    forall x, y | x in s && y in s && f(x) == f(y) ensures x == y {
      VectorsAre(b.KeyLength(), m, x);
      VectorsAre(b.KeyLength(), m, y);
      MovedInjective(b, l, root, e, x, y);
    }
    InjectionCard(s, t, f);
  }

  /** k added m times. */
  function Copies(m: nat, k: nat): nat {
    if m == 0 then 0 else Copies(m - 1, k) + k
  }

  lemma {:induction false} CopiesIs(m: nat, k: nat)
    ensures Copies(m, k) == m * k
  {
    if m > 0 {
      CopiesIs(m - 1, k);
      OneMore(m, k);
    }
  }

  /** If every fibre of f has at least k elements, s has at least k for each value. */
  lemma {:induction false} FibresAtLeast<T(!new)>(s: set<T>, f: T -> int, m: nat, k: nat)
    requires forall c :: 0 <= c < m ==> |Fibre(s, f, c)| >= k
    ensures |s| >= Copies(m, k)
    decreases m
  {
    if m > 0 {
      var top := Fibre(s, f, m - 1);
      var rest := s - top;
      forall c | 0 <= c < m - 1 ensures |Fibre(rest, f, c)| >= k {
        RestFibre(s, f, m - 1, c);
      }
      FibresAtLeast(rest, f, m - 1, k);
      SubsetCard(top, s);
    }
  }

  /** A position between two components cuts the invisible differences by exactly the alphabet size. */
  lemma JoinCuts(b: BenchmarkSpec, ps: seq<nat>, p: nat)
    requires b.Valid() && !Joined(b, ps, p)
    ensures |Null(b, PositionSet(ps))| == b.alphabetSize * |Null(b, PositionSet(ps) + {p})|
  {
    NullShrinks(b, PositionSet(ps), p);
    forall c | 0 <= c < b.alphabetSize
      ensures |Fibre(Null(b, PositionSet(ps)), OverlayAt(b, p), c)| >= |Null(b, PositionSet(ps) + {p})|
    {
      JoinFibre(b, ps, p, c);
    }
    FibresAtLeast(Null(b, PositionSet(ps)), OverlayAt(b, p), b.alphabetSize, |Null(b, PositionSet(ps) + {p})|);
    CopiesIs(b.alphabetSize, |Null(b, PositionSet(ps) + {p})|);
  }

  // -- the dimension ---------------------------------------------------------------------------

  function WithoutEntry(n: nat, g: nat): Row -> Row
    requires g < n
  {
    x => if |x| == n then x[..g] + x[g + 1..] else x
  }

  lemma ShorterKey(x: Row, g: nat, m: int)
    requires g < |x| && Residues(x, m)
    ensures |WithoutEntry(|x|, g)(x)| == |x| - 1 && Residues(WithoutEntry(|x|, g)(x), m)
  {
  }

  lemma Shortened(b: BenchmarkSpec, x: Row)
    requires b.Valid() && x in Null(b, {})
    ensures |x| == b.KeyLength() && x[b.GaugeKeyIndex()] == 0
    ensures WithoutEntry(b.KeyLength(), b.GaugeKeyIndex())(x) in Vectors(b.KeyLength() - 1, b.alphabetSize)
  {
    var n, m, g := b.KeyLength(), b.alphabetSize, b.GaugeKeyIndex();
    VectorsAre(n, m, x);
    ShorterKey(x, g, m);
    VectorsAre(n - 1, m, WithoutEntry(n, g)(x));
  }

  lemma SameRest(x: Row, y: Row, g: nat)
    requires |x| == |y| > g && x[g] == y[g] && x[..g] + x[g + 1..] == y[..g] + y[g + 1..]
    ensures x == y
  {
    forall v | 0 <= v < |x| ensures x[v] == y[v] {
      if v < g {
        assert x[v] == (x[..g] + x[g + 1..])[v] && y[v] == (y[..g] + y[g + 1..])[v];
      } else if v > g {
        assert x[v] == (x[..g] + x[g + 1..])[v - 1] && y[v] == (y[..g] + y[g + 1..])[v - 1];
      }
    }
  }

  lemma ShortApart(b: BenchmarkSpec, x: Row, y: Row)
    requires b.Valid() && x in Null(b, {}) && y in Null(b, {})
    requires WithoutEntry(b.KeyLength(), b.GaugeKeyIndex())(x) == WithoutEntry(b.KeyLength(), b.GaugeKeyIndex())(y)
    ensures x == y
  {
    Shortened(b, x);
    Shortened(b, y);
    SameRest(x, y, b.GaugeKeyIndex());
  }

  lemma AtMostGauged(b: BenchmarkSpec)
    requires b.Valid()
    ensures |Null(b, {})| <= |Vectors(b.KeyLength() - 1, b.alphabetSize)|
  {
    var n, m, g := b.KeyLength(), b.alphabetSize, b.GaugeKeyIndex();
    var s, t, f := Null(b, {}), Vectors(n - 1, m), WithoutEntry(n, g);
    forall x | x in s ensures f(x) in t {
      Shortened(b, x);
    }
    forall x, y | x in s && y in s && f(x) == f(y) ensures x == y {
      ShortApart(b, x, y);
    }
    InjectionCard(s, t, f);
  }

  lemma GaugedKeys(b: BenchmarkSpec)
    requires b.Valid()
    ensures |Null(b, {})| == Pow(b.alphabetSize, b.KeyLength() - 1)
  {
    AtMostGauged(b);
    VectorsCard(b.KeyLength() - 1, b.alphabetSize);
    GaugeOnly(b);
  }

  lemma CutOnce(all: nat, k: nat, before: nat, m: nat, after: nat)
    requires all == k * before && before == m * after
    ensures all == (m * k) * after
  {
    assert k * (m * after) == (m * k) * after;
  }

  lemma {:induction false} NullCard(b: BenchmarkSpec, ps: seq<nat>)
    requires b.Valid()
    ensures |Null(b, {})| == Pow(b.alphabetSize, Joins(b, ps)) * |Null(b, PositionSet(ps))|
  {
    if |ps| == 0 {
      assert PositionSet(ps) == {};
    } else {
      var init, p := ps[..|ps| - 1], ps[|ps| - 1];
      NullCard(b, init);
      PositionSetSnoc(ps);
      if Joined(b, init, p) {
        LoopKeeps(b, init, p);
      } else {
        JoinCuts(b, init, p);
        CutOnce(|Null(b, {})|, Pow(b.alphabetSize, Joins(b, init)), |Null(b, PositionSet(init))|,
                b.alphabetSize, |Null(b, PositionSet(ps))|);
      }
    }
  }

  lemma PowSame(m: nat, i: nat, j: nat)
    requires m > 1 && Pow(m, i) == Pow(m, j)
    ensures i == j
  {
    PowOrder(m, i, j);
    PowOrder(m, j, i);
  }

  lemma PowEqual(m: nat, i: nat, j: nat, k: nat, all: nat, left: nat)
    requires m > 1 && all == Pow(m, i) && all == Pow(m, j) * left && left == Pow(m, k)
    ensures i == j + k
  {
    PowAdd(m, j, k);
    PowSame(m, i, j + k);
  }

  lemma NullsCountJoins(b: BenchmarkSpec, ps: seq<nat>, free: nat)
    requires b.Valid() && |Null(b, PositionSet(ps))| == Pow(b.alphabetSize, free)
    ensures free + Joins(b, ps) == b.KeyLength() - 1
  {
    GaugedKeys(b);
    NullCard(b, ps);
    PowEqual(b.alphabetSize, b.KeyLength() - 1, Joins(b, ps), free, |Null(b, {})|, |Null(b, PositionSet(ps))|);
  }

  /** For any cribs, any periods and any alphabet: the variables left free are the
      components of the crib graph but one. */
  lemma FreeIsComponents(b: BenchmarkSpec, ciphertext: seq<int>, s: AffineKeys, ps: seq<nat>)
    requires b.Valid() && |ciphertext| == b.textLength && ExactlyFits(b, ciphertext, s)
    requires PositionSet(ps) == CribPositions(b)
    ensures |s.free| + 1 == |LabelSet(Labels(b, ps))|
    ensures |s.free| + Joins(b, ps) == b.KeyLength() - 1
  {
    FreeCard(b, ciphertext, s);
    NullsCountJoins(b, ps, |s.free|);
    ComponentCount(b, ps);
  }

  // -- runs of positions that each reach a new entry ----------------------------------------------

  /** No position of ps ends at v. */
  predicate Untouched(b: BenchmarkSpec, ps: seq<nat>, v: nat)
    requires b.Valid()
  {
    forall k :: 0 <= k < |ps| ==> NodeA(b, ps[k]) != v && NodeB(b, ps[k]) != v
  }

  lemma {:induction false} UntouchedAlone(b: BenchmarkSpec, ps: seq<nat>, v: nat, w: nat)
    requires b.Valid() && v < b.KeyLength() && w < b.KeyLength() && v != w && Untouched(b, ps, v)
    ensures Labels(b, ps)[v] == v && Labels(b, ps)[w] != v
  {
    if |ps| > 0 {
      var init, p := ps[..|ps| - 1], ps[|ps| - 1];
      assert forall k :: 0 <= k < |init| ==> init[k] == ps[k];
      UntouchedAlone(b, init, v, w);
      UntouchedAlone(b, init, v, NodeA(b, p));
      UntouchedAlone(b, init, v, NodeB(b, p));
    }
  }

  /** A position that reaches a new entry is a join. */
  lemma FreshJoins(b: BenchmarkSpec, ps: seq<nat>, more: seq<nat>, p: nat, second: bool)
    requires b.Valid() && more == ps + [p] && Untouched(b, ps, if second then NodeB(b, p) else NodeA(b, p))
    ensures Joins(b, more) == Joins(b, ps) + 1
  {
    if second {
      UntouchedAlone(b, ps, NodeB(b, p), NodeA(b, p));
    } else {
      UntouchedAlone(b, ps, NodeA(b, p), NodeB(b, p));
    }
    assert more[..|ps|] == ps;
  }

  /** Consecutive positions, each of which reaches an entry of the first or second stream
      that no position before it has reached. */
  datatype Stretch = Stretch(start: nat, count: nat, second: bool)

  function Upto(s: nat, k: nat): seq<nat> {
    seq(k, i => s + i)
  }

  datatype Runs = Start | Then(earlier: Runs, stretch: Stretch)

  function Unroll(runs: Runs): seq<nat> {
    match runs
    case Start => []
    case Then(earlier, r) => Unroll(earlier) + Upto(r.start, r.count)
  }

  function Count(runs: Runs): nat {
    match runs
    case Start => 0
    case Then(earlier, r) => Count(earlier) + r.count
  }

  predicate Covers(runs: Runs, p: nat)
    decreases runs
  {
    match runs
    case Start => false
    case Then(earlier, r) => Covers(earlier, p) || r.start <= p < r.start + r.count
  }

  lemma {:induction false} UnrollCovers(runs: Runs, p: nat)
    ensures p in Unroll(runs) <==> Covers(runs, p)
  {
    match runs
    case Start =>
    case Then(earlier, r) =>
      UnrollCovers(earlier, p);
      if r.start <= p < r.start + r.count {
        assert Upto(r.start, r.count)[p - r.start] == p;
      }
  }

  /** The two stretches lie in different parts of the period, and neither wraps around it. */
  predicate Apart(e: Stretch, r: Stretch, c: nat)
    requires c > 0
  {
    var x, y := e.start % c, r.start % c;
    x + e.count <= c && y + r.count <= c && (x + e.count <= y || y + r.count <= x)
  }

  predicate Fresh(earlier: Runs, r: Stretch, c: nat)
    requires c > 0
  {
    match earlier
    case Start => r.count <= c
    case Then(before, e) => Apart(e, r, c) && Fresh(before, r, c)
  }

  /** An order of the positions in which every one reaches something new. */
  predicate AllFresh(a: nat, c: nat, runs: Runs)
    requires a > 0 && c > 0
  {
    match runs
    case Start => true
    case Then(earlier, r) => AllFresh(a, c, earlier) && Fresh(earlier, r, if r.second then c else a)
  }

  lemma ResidueInside(s: nat, i: nat, c: nat)
    requires c > 0 && s % c + i < c
    ensures (s + i) % c == s % c + i
  {
    CongMod(s, c);
    CongRefl(i, c);
    CongAdd(s, s % c, i, i, c);
    CongIsMod(s + i, s % c + i, c);
    ModOfReduced(s % c + i, c);
  }

  lemma ApartResidues(e: Stretch, r: Stretch, c: nat, j: nat, i: nat)
    requires c > 0 && Apart(e, r, c) && j < e.count && i < r.count
    ensures (e.start + j) % c != (r.start + i) % c
  {
    ResidueInside(e.start, j, c);
    ResidueInside(r.start, i, c);
  }

  lemma {:induction false} FreshResidue(earlier: Runs, r: Stretch, c: nat, q: nat, i: nat)
    requires c > 0 && Fresh(earlier, r, c) && Covers(earlier, q) && i < r.count
    ensures q % c != (r.start + i) % c
  {
    var e := earlier.stretch;
    if e.start <= q < e.start + e.count {
      ApartResidues(e, r, c, q - e.start, i);
    } else {
      FreshResidue(earlier.earlier, r, c, q, i);
    }
  }

  lemma {:induction false} FreshCount(earlier: Runs, r: Stretch, c: nat)
    requires c > 0 && Fresh(earlier, r, c)
    ensures r.count <= c
  {
    if earlier.Then? {
      FreshCount(earlier.earlier, r, c);
    }
  }

  lemma DifferentResidues(s: nat, i: nat, j: nat, c: nat)
    requires i < j < i + c
    ensures (s + i) % c != (s + j) % c
  {
    if (s + i) % c == (s + j) % c {
      CongIsMod(s + j, s + i, c);
      var k :| (s + j) - (s + i) == k * c;
      SmallMultiple(k, c);
    }
  }

  lemma FreshEnd(b: BenchmarkSpec, earlier: Runs, r: Stretch, i: nat)
    requires b.Valid() && i < r.count && Fresh(earlier, r, if r.second then b.periodB else b.periodA)
    ensures Untouched(b, Unroll(earlier) + Upto(r.start, i),
                      if r.second then NodeB(b, r.start + i) else NodeA(b, r.start + i))
  {
    var ps, c := Unroll(earlier) + Upto(r.start, i), if r.second then b.periodB else b.periodA;
    FreshCount(earlier, r, c);
    forall k | 0 <= k < |ps| ensures ps[k] % c != (r.start + i) % c {
      if k < |Unroll(earlier)| {
        UnrollCovers(earlier, ps[k]);
        FreshResidue(earlier, r, c, ps[k], i);
      } else {
        DifferentResidues(r.start, k - |Unroll(earlier)|, i, c);
      }
    }
  }

  lemma UptoSnoc(ps: seq<nat>, s: nat, i: nat)
    ensures ps + Upto(s, i + 1) == ps + Upto(s, i) + [s + i]
  {
  }

  lemma NextJoins(b: BenchmarkSpec, earlier: Runs, r: Stretch, i: nat)
    requires b.Valid() && i < r.count && Fresh(earlier, r, if r.second then b.periodB else b.periodA)
    ensures Joins(b, Unroll(earlier) + Upto(r.start, i + 1)) == Joins(b, Unroll(earlier) + Upto(r.start, i)) + 1
  {
    var ps := Unroll(earlier) + Upto(r.start, i);
    FreshEnd(b, earlier, r, i);
    UptoSnoc(Unroll(earlier), r.start, i);
    FreshJoins(b, ps, Unroll(earlier) + Upto(r.start, i + 1), r.start + i, r.second);
  }

  lemma UptoNone(ps: seq<nat>, s: nat)
    ensures ps + Upto(s, 0) == ps
  {
  }

  lemma {:induction false} StretchJoins(b: BenchmarkSpec, earlier: Runs, r: Stretch, i: nat)
    requires b.Valid() && i <= r.count && Fresh(earlier, r, if r.second then b.periodB else b.periodA)
    ensures Joins(b, Unroll(earlier) + Upto(r.start, i)) == Joins(b, Unroll(earlier)) + i
  {
    if i == 0 {
      UptoNone(Unroll(earlier), r.start);
    } else {
      var k := i - 1;
      StretchJoins(b, earlier, r, k);
      var before := Joins(b, Unroll(earlier) + Upto(r.start, k));
      NextJoins(b, earlier, r, k);
      assert k + 1 == i;
    }
  }

  /** Then every position is a join. */
  lemma {:induction false} AllFreshJoin(b: BenchmarkSpec, runs: Runs)
    requires b.Valid() && AllFresh(b.periodA, b.periodB, runs)
    ensures Joins(b, Unroll(runs)) == Count(runs)
  {
    match runs
    case Start =>
    case Then(earlier, r) =>
      AllFreshJoin(b, earlier);
      StretchJoins(b, earlier, r, r.count);
  }
}
