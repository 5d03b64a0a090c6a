/** keep_top: a list of the best records so far, sorted and cut only now and then. */
module TopBuffer {
  import opened StableSort

  /** A sort key is a tuple of numbers, where a missing language score is minus infinity. */
  datatype Number = MinusInfinity | Finite(value: real)

  type Key = seq<Number>

  predicate NumberLess(a: Number, b: Number) {
    b.Finite? && (a.Finite? ==> a.value < b.value)
  }

  /** Python's a < b on tuples. */
  predicate KeyLess(a: Key, b: Key) {
    if |a| == 0 || |b| == 0 then |a| < |b|
    else NumberLess(a[0], b[0]) || (a[0] == b[0] && KeyLess(a[1..], b[1..]))
  }

  /** a and b differ first at i: a ends there, or has the smaller number, minus infinity being
      less than all others. */
  ghost predicate LessAt(a: Key, b: Key, i: nat) {
    && i <= |a| && i < |b| && a[..i] == b[..i]
    && (i < |a| ==> b[i].Finite? && (a[i] == MinusInfinity || a[i].value < b[i].value))
  }

  lemma LessInFront(a: Key, b: Key, i: nat)
    requires LessAt(a, b, i)
    ensures i > 0 ==> |a| > 0 && a[0] == b[0]
  {
    if i > 0 {
      assert a[..i][0] == b[..i][0];
    }
  }

  /** The first difference decides. */
  lemma {:induction false} KeyLessIff(a: Key, b: Key)
    ensures KeyLess(a, b) <==> exists i: nat :: LessAt(a, b, i)
  {
    if |b| > 0 && |a| > 0 && a[0] == b[0] {
      KeyLessIff(a[1..], b[1..]);
      if i: nat :| LessAt(a[1..], b[1..], i) {
        assert a[..i + 1] == [a[0]] + a[1..][..i] && b[..i + 1] == [b[0]] + b[1..][..i];
        assert LessAt(a, b, i + 1);
      }
      if i: nat :| LessAt(a, b, i) {
        assert a[1..][..i - 1] == a[..i][1..] && b[1..][..i - 1] == b[..i][1..];
        assert LessAt(a[1..], b[1..], i - 1);
      }
    } else if KeyLess(a, b) {
      assert LessAt(a, b, 0);
    } else {
      forall i: nat | LessAt(a, b, i) ensures i == 0 {
        LessInFront(a, b, i);
      }
    }
  }

  lemma {:induction false} KeyLessAsymmetric(a: Key, b: Key)
    requires KeyLess(a, b)
    ensures !KeyLess(b, a)
  {
    if |a| > 0 && a[0] == b[0] {
      KeyLessAsymmetric(a[1..], b[1..]);
    }
  }

  lemma {:induction false} KeyLessWeak(a: Key, b: Key, c: Key)
    requires KeyLess(a, c)
    ensures KeyLess(a, b) || KeyLess(b, c)
  {
    if |a| > 0 && |b| > 0 && a[0] == c[0] == b[0] {
      KeyLessWeak(a[1..], b[1..], c[1..]);
    }
  }

  /** records.sort(key=key, reverse=True): a greater key comes first, ties keep their order. */
  function Descending<T(!new)>(key: T -> Key): Order<T> {
    (x: T, y: T) => KeyLess(key(y), key(x))
  }

  lemma DescendingIsWeak<T(!new)>(key: T -> Key)
    ensures StrictWeak(Descending(key))
  {
    var less := Descending(key);
    forall x, y | less(x, y) ensures !less(y, x) {
      KeyLessAsymmetric(key(y), key(x));
    }
    forall x, y, z | less(x, z) ensures less(x, y) || less(y, z) {
      KeyLessWeak(key(z), key(y), key(x));
    }
  }

  /** What one stable descending sort of everything offered, cut to limit, would give. */
  function Best<T(!new)>(offered: seq<T>, key: T -> Key, limit: nat): seq<T> {
    Take(Sort(offered, Descending(key)), limit)
  }

  /** Lists with the same best records still have the same best records after more arrive. */
  lemma {:induction false} SameBestExtends<T(!new)>(a: seq<T>, b: seq<T>, more: seq<T>, key: T -> Key, limit: nat)
    requires Best(a, key, limit) == Best(b, key, limit)
    ensures Best(a + more, key, limit) == Best(b + more, key, limit)
  {
    if |more| == 0 {
      assert a + more == a && b + more == b;
    } else {
      var init, x, less := more[..|more| - 1], more[|more| - 1], Descending(key);
      SameBestExtends(a, b, init, key, limit);
      assert a + more == (a + init) + [x] && b + more == (b + init) + [x];
      SortSnoc(a + init, x, less);
      SortSnoc(b + init, x, less);
      InsertTake(Sort(a + init, less), x, less, limit);
      InsertTake(Sort(b + init, less), x, less, limit);
    }
  }

  /** Cutting at any time loses nothing: the cut list stands for the whole one. */
  lemma PrunedBest<T(!new)>(xs: seq<T>, more: seq<T>, key: T -> Key, limit: nat)
    ensures Best(Best(xs, key, limit) + more, key, limit) == Best(xs + more, key, limit)
  {
    var less := Descending(key);
    DescendingIsWeak(key);
    SortSorted(xs, less);
    SortFixed(Best(xs, key, limit), less);
    SameBestExtends(Best(xs, key, limit), xs, more, key, limit);
  }

  class Buffer<T(!new)> {
    const limit: nat
    const key: T -> Key
    var records: seq<T>

    constructor (limit: nat, key: T -> Key)
      ensures this.limit == limit && this.key == key && records == []
    {
      this.limit, this.key, records := limit, key, [];
    }

    method KeepTop(record: T)
      modifies this
      ensures Best(records, key, limit) == Best(old(records) + [record], key, limit)
      ensures |old(records)| <= 4 * limit ==> |records| <= 4 * limit
      ensures |old(records)| < 4 * limit ==> records == old(records) + [record]
    {
      records := records + [record];
      if |records| > limit * 4 {
        PrunedBest(records, [], key, limit);
        assert records + [] == records;
        records := Sort(records, Descending(key));
        records := Take(records, limit);
        assert records + [] == records;
      }
    }
  }

  /** How build_shape_records and build_attempt_records use the buffer. */
  method KeepAll<T(!new)>(stream: seq<T>, limit: nat, key: T -> Key) returns (top: seq<T>)
    ensures top == Best(stream, key, limit)
  {
    var buffer := new Buffer(limit, key);
    for i := 0 to |stream|
      invariant buffer.limit == limit && buffer.key == key && |buffer.records| <= 4 * limit
      invariant Best(buffer.records, key, limit) == Best(stream[..i], key, limit)
    {
      ghost var before := buffer.records;
      buffer.KeepTop(stream[i]);
      assert stream[..i + 1] == stream[..i] + [stream[i]];
      SameBestExtends(before, stream[..i], [stream[i]], key, limit);
    }
    assert stream[..|stream|] == stream;
    buffer.records := Sort(buffer.records, Descending(key));
    top := Take(buffer.records, limit);
  }

  /** all holds the elements of xs in descending order, and those that tie with e as they came. */
  ghost predicate StableOrder<T(!new)>(all: seq<T>, xs: seq<T>, key: T -> Key, e: T) {
    && multiset(all) == multiset(xs)
    && (forall i, j :: 0 <= i < j < |all| ==> !KeyLess(key(all[i]), key(all[j])))
    && Ties(all, e, Descending(key)) == Ties(xs, e, Descending(key))
  }

  lemma SortIsStable<T(!new)>(xs: seq<T>, key: T -> Key, e: T)
    ensures StableOrder(Sort(xs, Descending(key)), xs, key, e)
  {
    var less := Descending(key);
    var s := Sort(xs, less);
    DescendingIsWeak(key);
    SortSorted(xs, less);
    SortElements(xs, less);
    SortStable(xs, less, e);
    assert forall i, j :: 0 <= i < j < |s| ==> !less(s[j], s[i]);
  }

  lemma TakeAndRest<T>(s: seq<T>, limit: nat, rest: seq<T>)
    requires rest == if |s| <= limit then [] else s[limit..]
    ensures Take(s, limit) + rest == s
  {
  }

  /** The cut sort is what the documentation of list.sort promises: in descending
      order, ties as they arrived, and nothing left out outranks anything kept. */
  lemma BestIsStableTop<T(!new)>(xs: seq<T>, key: T -> Key, limit: nat, e: T)
    ensures exists rest: seq<T> ::
              && StableOrder(Best(xs, key, limit) + rest, xs, key, e)
              && (|rest| > 0 ==> |Best(xs, key, limit)| == limit)
  {
    var s := Sort(xs, Descending(key));
    SortIsStable(xs, key, e);
    var rest := if |s| <= limit then [] else s[limit..];
    TakeAndRest(s, limit, rest);
  }
}
