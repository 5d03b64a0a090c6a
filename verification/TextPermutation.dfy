/** Checking, applying and inverting a permutation of the text's tokens. */
module TextPermutation {
  import opened Results
  import opened StableSort
  import opened Permutations

  datatype PermError = WrongLength | Duplicates | NotPermutation | EmptyMinimum | IndexError | OutOfRange

  function Smaller(): Order<int> {
    (x: int, y: int) => x < y
  }

  function Range(n: nat): (s: seq<int>)
    ensures |s| == n && forall i :: 0 <= i < n ==> s[i] == i
  {
    seq(n, i => i)
  }

  predicate NoDuplicates(p: seq<int>) {
    forall i, j :: 0 <= i < j < |p| ==> p[i] != p[j]
  }

  /** normalize_text_permutation for a permutation that is given. For no tokens the
      minimum of the empty list raises. */
  function Normalize(p: seq<int>, tokens: nat): Result<seq<int>, PermError> {
    if |p| != tokens then Err(WrongLength)
    else if !NoDuplicates(p) then Err(Duplicates)
    else if tokens == 0 then Err(EmptyMinimum)
    else
      var sorted := Sort(p, Smaller());
      if sorted[0] != 0 || sorted[tokens - 1] != tokens - 1 || sorted != Range(tokens) then Err(NotPermutation)
      else Ok(p)
  }

  lemma SortDistinct(p: seq<int>)
    requires NoDuplicates(p)
    ensures forall i, j :: 0 <= i < j < |p| ==> Sort(p, Smaller())[i] < Sort(p, Smaller())[j]
  {
    var s := Sort(p, Smaller());
    SortSorted(p, Smaller());
    SortElements(p, Smaller());
    forall i, j | 0 <= i < j < |p| ensures s[i] < s[j] {
      assert !Smaller()(s[j], s[i]);
      if s[i] == s[j] {
        TwiceIn(s, i, j);
        DistinctOnce(p, s[i]);
      }
    }
  }

  lemma PermSortsToRange(p: seq<int>)
    requires IsIntPerm(p, |p|)
    ensures Sort(p, Smaller()) == Range(|p|)
  {
    var s := Sort(p, Smaller());
    SortDistinct(p);
    SortSorted(p, Smaller());
    forall v ensures v in s <==> v in Range(|p|) {
      SortMember(p, Smaller(), v);
      if 0 <= v < |p| {
        PermOnto(AsNats(p), |p|, v);
        var i :| 0 <= i < |p| && AsNats(p)[i] == v;
        assert p[i] == v;
        assert Range(|p|)[v] == v;
      }
    }
    SortedUnique(s, Range(|p|), Smaller());
  }

  /** A text permutation is accepted exactly when it is one and there are tokens. */
  lemma NormalizeIff(p: seq<int>, tokens: nat)
    ensures Normalize(p, tokens) == Ok(p) <==> tokens > 0 && IsIntPerm(p, tokens)
  {
    if |p| == tokens && NoDuplicates(p) && tokens > 0 {
      if IsIntPerm(p, tokens) {
        PermSortsToRange(p);
      } else if Sort(p, Smaller()) == Range(tokens) {
        forall i | 0 <= i < tokens ensures 0 <= p[i] < tokens {
          SortMember(p, Smaller(), p[i]);
          assert p[i] in Range(tokens);
        }
        assert false;
      }
    }
  }

  /** And refused in this order: for its length, a repeated value, no tokens, a value out of range. */
  lemma NormalizeRefuses(p: seq<int>, tokens: nat)
    ensures Normalize(p, tokens) == Err(WrongLength) <==> |p| != tokens
    ensures Normalize(p, tokens) == Err(Duplicates) <==>
            |p| == tokens && exists i, j :: 0 <= i < j < tokens && p[i] == p[j]
    ensures Normalize(p, tokens) == Err(EmptyMinimum) <==> p == [] && tokens == 0
    ensures Normalize(p, tokens) == Err(NotPermutation) <==>
            && |p| == tokens > 0 && (forall i, j :: 0 <= i < j < tokens ==> p[i] != p[j])
            && exists i :: 0 <= i < tokens && !(0 <= p[i] < tokens)
  {
    NormalizeIff(p, tokens);
  }

  /** tokens[i] with Python's negative indices. */
  function Wrapped(i: int, n: nat): int {
    if i < 0 then i + n else i
  }

  /** apply_permutation */
  function Apply<T>(tokens: seq<T>, perm: seq<int>): (r: Result<seq<T>, PermError>)
    ensures r.Ok? ==> |r.value| == |tokens|
  {
    if |perm| != |tokens| then Err(WrongLength)
    else if exists k :: 0 <= k < |perm| && !(-|tokens| <= perm[k] < |tokens|) then Err(IndexError)
    else Ok(seq(|perm|, k requires 0 <= k < |perm| => tokens[Wrapped(perm[k], |tokens|)]))
  }

  /** inv holds, at each value of p[..k], the last position of that value. */
  ghost predicate InvertedPrefix(inv: seq<int>, p: seq<int>, k: nat) {
    && |inv| == |p| && k <= |p|
    && (forall i :: 0 <= i < k ==> 0 <= p[i] < |p| && i <= inv[p[i]] < k && p[inv[p[i]]] == p[i])
    && (forall v :: 0 <= v < |p| && v !in p[..k] ==> inv[v] == 0)
  }

  lemma InvertedMore(inv: seq<int>, p: seq<int>, i: nat)
    requires InvertedPrefix(inv, p, i) && i < |p| && 0 <= p[i] < |p|
    ensures InvertedPrefix(inv[p[i] := i], p, i + 1)
  {
    assert p[..i + 1] == p[..i] + [p[i]];
  }

  /** invert_permutation: fails exactly on a value out of range; a repeated value is not
      noticed, its last position wins. */
  method Invert(p: seq<int>) returns (r: Result<seq<int>, PermError>)
    ensures r.Ok? <==> forall i :: 0 <= i < |p| ==> 0 <= p[i] < |p|
    ensures r.Ok? ==> InvertedPrefix(r.value, p, |p|)
    ensures r.Err? ==> r.error == OutOfRange
  {
    var inv := new int[|p|](_ => 0);
    for i := 0 to |p|
      invariant InvertedPrefix(inv[..], p, i)
    {
      var v := p[i];
      if v < 0 || v >= |p| {
        return Err(OutOfRange);
      }
      InvertedMore(inv[..], p, i);
      ghost var was := inv[..];
      inv[v] := i;
      assert inv[..] == was[v := i];
    }
    return Ok(inv[..]);
  }

  /** Applying a permutation and then its inverse gives the tokens back. */
  lemma ApplyInverse<T>(tokens: seq<T>, p: seq<int>, inv: seq<int>, moved: seq<T>)
    requires IsIntPerm(p, |tokens|) && InvertedPrefix(inv, p, |p|) && Apply(tokens, p) == Ok(moved)
    ensures Apply(moved, inv) == Ok(tokens)
  {
    forall v | 0 <= v < |p| ensures 0 <= inv[v] < |p| && p[inv[v]] == v {
      PermOnto(AsNats(p), |p|, v);
      var i :| 0 <= i < |p| && AsNats(p)[i] == v;
      assert p[i] == v;
    }
    assert Apply(moved, inv).value == tokens;
  }

  /** And the other way round. */
  lemma InverseApply<T>(tokens: seq<T>, p: seq<int>, inv: seq<int>, moved: seq<T>)
    requires IsIntPerm(p, |tokens|) && InvertedPrefix(inv, p, |p|) && Apply(tokens, inv) == Ok(moved)
    ensures Apply(moved, p) == Ok(tokens)
  {
    forall i | 0 <= i < |p| ensures inv[p[i]] == i {
      var j := inv[p[i]];
      assert i <= j < |p| && p[j] == p[i];
    }
    assert Apply(moved, p).value == tokens;
  }

  /** On values in range the result is an inverse exactly when nothing is repeated. */
  /** The inverse reaches every position of a p that it undoes, so p repeats nothing. */
  lemma UndoneIsDistinct(p: seq<int>, inv: seq<int>)
    requires |inv| == |p| && forall v :: 0 <= v < |p| ==> 0 <= inv[v] < |p| && p[inv[v]] == v
    ensures NoDuplicates(p)
  {
    forall i, j | 0 <= i < j < |p| ensures inv[i] != inv[j] {
      assert p[inv[i]] == i && p[inv[j]] == j;
    }
    forall i | 0 <= i < |p| ensures 0 <= p[i] < |p| && inv[p[i]] == i {
      PermOnto(AsNats(inv), |p|, i);
      var a :| 0 <= a < |p| && AsNats(inv)[a] == i;
      assert p[inv[a]] == a;
    }
  }

  lemma InverseIff(p: seq<int>, inv: seq<int>)
    requires InvertedPrefix(inv, p, |p|)
    ensures (forall v :: 0 <= v < |p| ==> 0 <= inv[v] < |p| && p[inv[v]] == v) <==> NoDuplicates(p)
  {
    if NoDuplicates(p) {
      forall v | 0 <= v < |p| ensures 0 <= inv[v] < |p| && p[inv[v]] == v {
        PermOnto(AsNats(p), |p|, v);
        var i :| 0 <= i < |p| && AsNats(p)[i] == v;
        assert p[i] == v;
      }
    } else if forall v :: 0 <= v < |p| ==> 0 <= inv[v] < |p| && p[inv[v]] == v {
      UndoneIsDistinct(p, inv);
      assert false;
    }
  }

  lemma AppliedTo<T>(tokens: seq<T>, perm: seq<int>, moved: seq<T>)
    requires |perm| == |tokens| == |moved|
    requires forall k :: 0 <= k < |perm| ==>
              -|tokens| <= perm[k] < |tokens| && moved[k] == tokens[Wrapped(perm[k], |tokens|)]
    ensures Apply(tokens, perm) == Ok(moved)
  {
    assert Apply(tokens, perm).value == moved;
  }

  /** apply_permutation, index by index: fails on a wrong length or an index out of range, and
      otherwise takes the tokens at the indices, counting negative ones from the end. */
  lemma ApplyIs<T>(tokens: seq<T>, perm: seq<int>)
    ensures Apply(tokens, perm) == Err(WrongLength) <==> |perm| != |tokens|
    ensures Apply(tokens, perm) == Err(IndexError) <==>
            |perm| == |tokens| && exists k :: 0 <= k < |perm| && (perm[k] < -|tokens| || perm[k] >= |tokens|)
    ensures Apply(tokens, perm).Err? ==> Apply(tokens, perm).error in {WrongLength, IndexError}
    ensures Apply(tokens, perm).Ok? ==> forall k :: 0 <= k < |tokens| ==>
              && (0 <= perm[k] ==> Apply(tokens, perm).value[k] == tokens[perm[k]])
              && (perm[k] < 0 ==> Apply(tokens, perm).value[k] == tokens[|tokens| + perm[k]])
  {
  }

  /** Two tokens that both go to the first place: an inverse is returned, and it loses a token. */
  lemma RepeatedUnnoticed<T>(a: T, b: T, inv: seq<int>)
    requires a != b && InvertedPrefix(inv, [0, 0], 2)
    ensures inv == [1, 0] && Apply([a, b], [0, 0]) == Ok([a, a]) && Apply([a, a], inv) == Ok([a, a])
    ensures Apply(Apply([a, b], [0, 0]).value, inv) != Ok([a, b])
  {
    var p: seq<int> := [0, 0];
    assert p[0] == 0 && p[1] == 0 && p[..2] == p;
    assert p[inv[p[1]]] == p[1] && 1 <= inv[p[1]] < 2;
    assert inv[1] == 0 by { assert 1 !in p[..2]; }
    assert inv == [1, 0];
    AppliedTo([a, b], p, [a, a]);
    AppliedTo([a, a], inv, [a, a]);
    assert [a, a][1] != [a, b][1];
  }
}
