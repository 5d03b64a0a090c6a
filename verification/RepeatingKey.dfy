/** When a recovered repeating key counts as the expected one. */
module RepeatingKey {
  import opened ModArith
  import opened Results

  datatype Direction = LTR | RTL

  function Reversed(key: seq<int>): (r: seq<int>)
    ensures |r| == |key| && forall i :: 0 <= i < |r| ==> r[i] == key[|key| - 1 - i]
  {
    seq(|key|, i requires 0 <= i < |key| => key[|key| - 1 - i])
  }

  function Rotated(r: seq<int>, shift: nat): (t: seq<int>)
    requires shift <= |r|
    ensures |t| == |r|
  {
    if shift != 0 then r[|r| - shift..] + r[..|r| - shift] else r
  }

  /** The reversed key rotated right by the core length. */
  function RightToLeft(key: seq<int>, coreLength: int): (t: seq<int>)
    requires |key| > 0
    ensures |t| == |key|
  {
    Rotated(Reversed(key), coreLength % |key|)
  }

  /** _repeating_key_equivalence; the expected key is None when the case has none. */
  predicate Equivalent(direction: Direction, expected: Option<seq<int>>, recovered: seq<int>, coreLength: int) {
    match expected
    case None => false
    case Some(key) =>
      |key| > 0 && |recovered| == |key| &&
      recovered == if direction == LTR then key else RightToLeft(key, coreLength)
  }

  lemma RotatedAt(key: seq<int>, shift: nat, i: nat)
    requires shift < |key| && i < |key|
    ensures Rotated(Reversed(key), shift)[i] == key[if i < shift then shift - 1 - i else |key| + shift - 1 - i]
  {
  }

  lemma IndexBefore(n: nat, shift: nat, i: nat)
    requires shift < n && i < n
    ensures (shift - 1 - i) % n == if i < shift then shift - 1 - i else n + shift - 1 - i
  {
    if i < shift {
      ModOfReduced(shift - 1 - i, n);
    } else {
      CongBy(n + shift - 1 - i, shift - 1 - i, n, 1);
      CongIsMod(n + shift - 1 - i, shift - 1 - i, n);
      ModOfReduced(n + shift - 1 - i, n);
    }
  }

  lemma ModOfMinus(x: int, y: int, n: nat)
    requires n > 0
    ensures (x % n - 1 - y) % n == (x - 1 - y) % n
    ensures (x - 1 - y % n) % n == (x - 1 - y) % n
  {
    CongMod(x, n);
    CongMod(y, n);
    CongRefl(1 + y, n);
    CongRefl(x - 1, n);
    CongSub(x, x % n, 1 + y, 1 + y, n);
    CongIsMod(x - (1 + y), x % n - (1 + y), n);
    CongSub(x - 1, x - 1, y % n, y, n);
    CongIsMod(x - 1 - y % n, x - 1 - y, n);
  }

  /** Entry i of the transformed key is the expected key read backwards from the end of the core. */
  lemma RightToLeftAt(key: seq<int>, coreLength: int, i: nat)
    requires i < |key|
    ensures RightToLeft(key, coreLength)[i] == key[(coreLength - 1 - i) % |key|]
  {
    RotatedAt(key, coreLength % |key|, i);
    IndexBefore(|key|, coreLength % |key|, i);
    ModOfMinus(coreLength, i, |key|);
  }

  /** At every position of the core the transformed key's stream is the expected
      key's stream read backwards. */
  lemma RightToLeftStream(key: seq<int>, coreLength: int, j: nat)
    requires |key| > 0
    ensures RightToLeft(key, coreLength)[j % |key|] == key[(coreLength - 1 - j) % |key|]
  {
    RightToLeftAt(key, coreLength, j % |key|);
    ModOfMinus(coreLength, j, |key|);
  }

  /** Without an expected key, or with an empty one, nothing is accepted. */
  lemma NothingExpected(direction: Direction, recovered: seq<int>, coreLength: int)
    ensures !Equivalent(direction, None, recovered, coreLength)
    ensures !Equivalent(direction, Some([]), recovered, coreLength)
  {
  }

  /** A left-to-right key is accepted exactly when it generates the forward stream, once the
      core is long enough to show the whole key. */
  lemma EquivalentIffForwardStream(key: seq<int>, recovered: seq<int>, coreLength: int)
    requires |key| > 0 && coreLength >= |key|
    ensures Equivalent(LTR, Some(key), recovered, coreLength)
       <==> |recovered| == |key| && forall j :: 0 <= j < coreLength ==> recovered[j % |key|] == key[j % |key|]
  {
    var n := |key|;
    if |recovered| == n && forall j :: 0 <= j < coreLength ==> recovered[j % n] == key[j % n] {
      forall i | 0 <= i < n ensures recovered[i] == key[i] {
        ModOfReduced(i, n);
        assert recovered[i % n] == key[i % n];
      }
      assert recovered == key;
    }
  }

  /** A right-to-left key is accepted exactly when it generates the backward stream,
      once the core is long enough to show the whole key. */
  lemma EquivalentIffBackwardStream(key: seq<int>, recovered: seq<int>, coreLength: int)
    requires |key| > 0 && coreLength >= |key|
    ensures Equivalent(RTL, Some(key), recovered, coreLength)
       <==> |recovered| == |key| &&
            forall j :: 0 <= j < coreLength ==> recovered[j % |key|] == key[(coreLength - 1 - j) % |key|]
  {
    var n, t := |key|, RightToLeft(key, coreLength);
    if Equivalent(RTL, Some(key), recovered, coreLength) {
      forall j | 0 <= j < coreLength ensures recovered[j % n] == key[(coreLength - 1 - j) % n] {
        RightToLeftStream(key, coreLength, j);
      }
    }
    if |recovered| == n && forall j :: 0 <= j < coreLength ==> recovered[j % n] == key[(coreLength - 1 - j) % n] {
      forall i | 0 <= i < n ensures recovered[i] == t[i] {
        ModOfReduced(i, n);
        assert recovered[i % n] == key[(coreLength - 1 - i) % n];
        RightToLeftAt(key, coreLength, i);
      }
      assert recovered == t;
    }
  }
}
