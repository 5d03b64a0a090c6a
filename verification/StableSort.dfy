/** Python's sorted and list.sort as a function: insertion keeps equal elements in
    their original order. less(x, y) says that x must come strictly before y. */
module StableSort {

  type Order<!T> = (T, T) -> bool

  ghost predicate StrictWeak<T(!new)>(less: Order<T>) {
    && (forall x, y :: less(x, y) ==> !less(y, x))
    && (forall x, y, z :: less(x, z) ==> less(x, y) || less(y, z))
  }

  function Insert<T>(s: seq<T>, x: T, less: Order<T>): (r: seq<T>)
    ensures |r| == |s| + 1
  {
    if |s| == 0 then [x]
    else if less(x, s[0]) then [x] + s
    else [s[0]] + Insert(s[1..], x, less)
  }

  function Sort<T>(xs: seq<T>, less: Order<T>): (r: seq<T>)
    ensures |r| == |xs|
  {
    if |xs| == 0 then [] else Insert(Sort(xs[..|xs| - 1], less), xs[|xs| - 1], less)
  }

  function Take<T>(s: seq<T>, k: nat): (r: seq<T>)
    ensures |r| <= k && |r| <= |s|
  {
    if |s| <= k then s else s[..k]
  }

  ghost predicate Sorted<T(!new)>(s: seq<T>, less: Order<T>) {
    forall i, j :: 0 <= i < j < |s| ==> !less(s[j], s[i])
  }

  /** The elements of s that rank the same as e, in order. */
  ghost function Ties<T(!new)>(s: seq<T>, e: T, less: Order<T>): seq<T> {
    if |s| == 0 then []
    else Ties(s[..|s| - 1], e, less) + if less(e, s[|s| - 1]) || less(s[|s| - 1], e) then [] else [s[|s| - 1]]
  }

  lemma SortSnoc<T>(xs: seq<T>, x: T, less: Order<T>)
    ensures Sort(xs + [x], less) == Insert(Sort(xs, less), x, less)
  {
    assert (xs + [x])[..|xs|] == xs;
  }

  lemma {:induction false} InsertElements<T>(s: seq<T>, x: T, less: Order<T>)
    ensures multiset(Insert(s, x, less)) == multiset(s) + multiset{x}
  {
    if |s| > 0 {
      assert s == [s[0]] + s[1..];
      if !less(x, s[0]) {
        InsertElements(s[1..], x, less);
      }
    }
  }

  lemma {:induction false} SortElements<T>(xs: seq<T>, less: Order<T>)
    ensures multiset(Sort(xs, less)) == multiset(xs)
  {
    if |xs| > 0 {
      assert xs == xs[..|xs| - 1] + [xs[|xs| - 1]];
      SortElements(xs[..|xs| - 1], less);
      InsertElements(Sort(xs[..|xs| - 1], less), xs[|xs| - 1], less);
    }
  }

  lemma InsertMember<T>(s: seq<T>, x: T, less: Order<T>, e: T)
    ensures e in Insert(s, x, less) <==> e == x || e in s
  {
    InsertElements(s, x, less);
    assert e in Insert(s, x, less) <==> e in multiset(Insert(s, x, less));
    assert e in s <==> e in multiset(s);
  }

  lemma SortMember<T>(xs: seq<T>, less: Order<T>, e: T)
    ensures e in Sort(xs, less) <==> e in xs
  {
    SortElements(xs, less);
    assert e in Sort(xs, less) <==> e in multiset(Sort(xs, less));
    assert e in xs <==> e in multiset(xs);
  }

  lemma {:induction false} InsertSorted<T(!new)>(s: seq<T>, x: T, less: Order<T>)
    requires StrictWeak(less) && Sorted(s, less)
    ensures Sorted(Insert(s, x, less), less)
  {
    if |s| > 0 {
      var r := Insert(s, x, less);
      if less(x, s[0]) {
        forall j | 0 < j < |r| ensures !less(r[j], x) {
          assert r[j] == s[j - 1];
          if j > 1 { assert !less(s[j - 1], s[0]); }
        }
      } else {
        InsertSorted(s[1..], x, less);
        forall j | 0 < j < |r| ensures !less(r[j], s[0]) {
          assert r[j] == Insert(s[1..], x, less)[j - 1];
          InsertMember(s[1..], x, less, r[j]);
        }
      }
    }
  }

  lemma {:induction false} SortSorted<T(!new)>(xs: seq<T>, less: Order<T>)
    requires StrictWeak(less)
    ensures Sorted(Sort(xs, less), less)
  {
    if |xs| > 0 {
      SortSorted(xs[..|xs| - 1], less);
      InsertSorted(Sort(xs[..|xs| - 1], less), xs[|xs| - 1], less);
    }
  }

  /** x lands at the end of a list that nothing in it must follow. */
  lemma {:induction false} InsertLast<T(!new)>(s: seq<T>, x: T, less: Order<T>)
    requires forall i :: 0 <= i < |s| ==> !less(x, s[i])
    ensures Insert(s, x, less) == s + [x]
  {
    if |s| > 0 {
      InsertLast(s[1..], x, less);
    }
  }

  /** Sorting a sorted list changes nothing. */
  lemma {:induction false} SortFixed<T(!new)>(s: seq<T>, less: Order<T>)
    requires Sorted(s, less)
    ensures Sort(s, less) == s
  {
    if |s| > 0 {
      SortFixed(s[..|s| - 1], less);
      InsertLast(s[..|s| - 1], s[|s| - 1], less);
    }
  }

  lemma {:induction false} TiesAppend<T(!new)>(s: seq<T>, t: seq<T>, e: T, less: Order<T>)
    ensures Ties(s + t, e, less) == Ties(s, e, less) + Ties(t, e, less)
  {
    if |t| == 0 {
      assert s + t == s;
    } else {
      TiesAppend(s, t[..|t| - 1], e, less);
      assert (s + t)[..|s + t| - 1] == s + t[..|t| - 1];
    }
  }

  lemma {:induction false} TiesOfAfter<T(!new)>(s: seq<T>, e: T, less: Order<T>)
    requires forall i :: 0 <= i < |s| ==> less(e, s[i])
    ensures Ties(s, e, less) == []
  {
    if |s| > 0 {
      TiesOfAfter(s[..|s| - 1], e, less);
    }
  }

  /** Among its equals an inserted element comes last. */
  lemma {:induction false} InsertTies<T(!new)>(s: seq<T>, x: T, less: Order<T>, e: T)
    requires StrictWeak(less) && Sorted(s, less)
    ensures Ties(Insert(s, x, less), e, less) == Ties(s + [x], e, less)
  {
    TiesAppend(s, [x], e, less);
    if |s| > 0 {
      if less(x, s[0]) {
        TiesAppend([x], s, e, less);
        if !less(e, x) && !less(x, e) {
          forall i | 0 <= i < |s| ensures less(e, s[i]) {
            assert i > 0 ==> !less(s[i], s[0]);
          }
          TiesOfAfter(s, e, less);
        }
      } else {
        InsertTies(s[1..], x, less, e);
        assert s == [s[0]] + s[1..];
        TiesAppend([s[0]], s[1..], e, less);
        TiesAppend([s[0]], Insert(s[1..], x, less), e, less);
        TiesAppend(s[1..], [x], e, less);
      }
    }
  }

  /** The sort is stable. */
  lemma {:induction false} SortStable<T(!new)>(xs: seq<T>, less: Order<T>, e: T)
    requires StrictWeak(less)
    ensures Ties(Sort(xs, less), e, less) == Ties(xs, e, less)
  {
    if |xs| > 0 {
      var init, x := xs[..|xs| - 1], xs[|xs| - 1];
      SortStable(init, less, e);
      SortSorted(init, less);
      InsertTies(Sort(init, less), x, less, e);
      TiesAppend(Sort(init, less), [x], e, less);
      TiesAppend(init, [x], e, less);
      assert xs == init + [x];
    }
  }

  lemma HasMember<T(!new)>(s: seq<T>)
    requires |s| > 0
    ensures exists x :: x in s
  {
    assert s[0] in s;
  }

  /** Two sorted lists without repetitions and with the same elements are the same
      list, when no two elements tie. */
  lemma {:induction false} SortedUnique<T(!new)>(s: seq<T>, t: seq<T>, less: Order<T>)
    requires StrictWeak(less) && Sorted(s, less) && Sorted(t, less)
    requires forall x :: x in s <==> x in t
    requires forall i, j :: 0 <= i < j < |s| ==> less(s[i], s[j])
    requires forall i, j :: 0 <= i < j < |t| ==> less(t[i], t[j])
    ensures s == t
  {
    if |s| == 0 {
      if |t| > 0 {
        HasMember(t);
      }
    } else {
      assert s[0] in s && s[0] in t;
      assert t[0] in t && t[0] in s;
      assert s[0] == t[0];
      forall x ensures x in s[1..] <==> x in t[1..] {
        if x in s[1..] {
          var i :| 0 <= i < |s[1..]| && s[1..][i] == x;
          assert x == s[i + 1] && x in s && x != s[0];
        }
        if x in t[1..] {
          var i :| 0 <= i < |t[1..]| && t[1..][i] == x;
          assert x == t[i + 1] && x in t && x != t[0];
        }
      }
      SortedUnique(s[1..], t[1..], less);
    }
  }

  /** Cutting to k before an insertion does not change the first k after it. */
  lemma {:induction false} InsertTake<T>(s: seq<T>, x: T, less: Order<T>, k: nat)
    ensures Take(Insert(Take(s, k), x, less), k) == Take(Insert(s, x, less), k)
  {
    if |s| > k && k > 0 && !less(x, s[0]) {
      InsertTake(s[1..], x, less, k - 1);
      assert Take(s, k)[1..] == Take(s[1..], k - 1);
    }
  }
}
