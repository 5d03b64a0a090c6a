/** The candidate archive: a dictionary of records that every accepted offer replaces
    by its own selection. A dictionary is a list of records with distinct ids, in
    insertion order. */
module Archive {
  import opened Results
  import opened StableSort
  import opened ArchiveSelect

  datatype OfferAction = Added | Updated | Unchanged | Evicted | Rejected

  datatype OfferResult = OfferResult(action: OfferAction, id: nat, retained: bool, evicted: seq<nat>, size: nat)

  function Find(records: Records, id: nat): (r: Option<CandidateRecord>)
    ensures r.Some? <==> HasId(records, id)
    ensures r.Some? ==> r.value in records && r.value.id == id
  {
    if |records| == 0 then None
    else if records[0].id == id then Some(records[0])
    else
      assert forall i :: 0 < i < |records| ==> records[i] == records[1..][i - 1];
      Find(records[1..], id)
  }

  /** records[x.id] = x */
  function Put(records: Records, x: CandidateRecord): Records {
    if |records| == 0 then [x]
    else if records[0].id == x.id then [x] + records[1..]
    else [records[0]] + Put(records[1..], x)
  }

  predicate Improves(p: ArchivePolicy, records: Records, x: CandidateRecord) {
    var existing := Find(records, x.id);
    p.Scored(x) && (existing.None? || p.Better(x, existing.value))
  }

  /** The dictionary after one offer. */
  function Offered(p: ArchivePolicy, records: Records, x: CandidateRecord): Records {
    if !Improves(p, records, x) then records
    else
      var selected := Select(p, Put(records, x));
      if Find(selected, x.id).None? then records else selected
  }

  /** The offer is reported as retained: it was selected, or it was no improvement. */
  predicate Retains(p: ArchivePolicy, records: Records, x: CandidateRecord) {
    p.Scored(x) && (Improves(p, records, x) ==> Find(Select(p, Put(records, x)), x.id).Some?)
  }

  /** The same bookkeeping with no capacity and no family limit: the best record per id. */
  function Kept(p: ArchivePolicy, records: Records, x: CandidateRecord): Records {
    if Improves(p, records, x) then Put(records, x) else records
  }

  function Run(p: ArchivePolicy, history: Records): Records {
    if |history| == 0 then [] else Offered(p, Run(p, history[..|history| - 1]), history[|history| - 1])
  }

  function Best(p: ArchivePolicy, history: Records): Records {
    if |history| == 0 then [] else Kept(p, Best(p, history[..|history| - 1]), history[|history| - 1])
  }

  function Ids(records: Records): (ids: seq<nat>)
    ensures |ids| == |records| && forall i :: 0 <= i < |ids| ==> ids[i] == records[i].id
  {
    seq(|records|, i requires 0 <= i < |records| => records[i].id)
  }

  function Missing(before: Records, after: Records): (ids: seq<nat>)
    ensures forall id :: id in ids <==> HasId(before, id) && !HasId(after, id)
  {
    if |before| == 0 then []
    else
      var rest := Missing(before[1..], after);
      assert forall i :: 0 < i < |before| ==> before[i] == before[1..][i - 1];
      if Find(after, before[0].id).None? then [before[0].id] + rest else rest
  }

  /** sorted(old_ids - set(new)) */
  function Gone(before: Records, after: Records): seq<nat> {
    Sort(Missing(before, after), (x: nat, y: nat) => x < y)
  }

  lemma {:induction false} MissingNone(a: Records, b: Records)
    requires forall i :: 0 <= i < |a| ==> HasId(b, a[i].id)
    ensures Missing(a, b) == []
  {
    if |a| > 0 {
      MissingNone(a[1..], b);
    }
  }

  lemma NothingGone(records: Records)
    ensures Gone(records, records) == []
  {
    MissingNone(records, records);
  }

  lemma GoneIs(before: Records, after: Records)
    ensures forall id :: id in Gone(before, after) <==> HasId(before, id) && !HasId(after, id)
  {
    forall id ensures id in Gone(before, after) <==> id in Missing(before, after) {
      SortMember(Missing(before, after), (x: nat, y: nat) => x < y, id);
    }
  }

  /** With distinct ids there is only one record to be found. */
  lemma {:induction false} FindIs(records: Records, id: nat)
    ensures DistinctIds(records) ==> forall e :: e in records && e.id == id ==> Find(records, id) == Some(e)
  {
    if |records| > 0 && DistinctIds(records) {
      assert records == [records[0]] + records[1..];
      assert forall i :: 0 <= i < |records[1..]| ==> records[1..][i] == records[i + 1];
      FindIs(records[1..], id);
    }
  }

  class CandidateArchive {
    const policy: ArchivePolicy
    var records: Records

    constructor (policy: ArchivePolicy)
      ensures this.policy == policy && records == []
    {
      this.policy, records := policy, [];
    }

    method Offer(x: CandidateRecord) returns (r: OfferResult)
      modifies this
      ensures records == Offered(policy, old(records), x)
      ensures r.id == x.id && r.size == |records|
      ensures r.retained <==> Retains(policy, old(records), x)
      ensures r.evicted == Gone(old(records), records)
      ensures r.action == Evicted <==> r.evicted != []
      ensures r.action == Unchanged <==>
                policy.Scored(x) && HasId(old(records), x.id) && !Improves(policy, old(records), x)
      ensures forall e :: e in old(records) && e.id == x.id && DistinctIds(old(records))
                          && policy.decisionScore in e.scores && policy.decisionScore in x.scores ==>
                (r.action == Unchanged <==>
                 if policy.higherIsBetter then x.scores[policy.decisionScore] <= e.scores[policy.decisionScore]
                 else x.scores[policy.decisionScore] >= e.scores[policy.decisionScore])
      ensures forall id :: id in r.evicted <==> HasId(old(records), id) && !HasId(records, id)
      ensures r.action == Rejected <==> !r.retained
      ensures r.action in {Added, Updated} ==> (r.action == Updated <==> HasId(old(records), x.id))
    {
      FindIs(records, x.id);
      if !policy.Scored(x) {
        NothingGone(records);
        return OfferResult(Rejected, x.id, false, [], |records|);
      }
      var existing := Find(records, x.id);
      if existing.Some? && !policy.Better(x, existing.value) {
        NothingGone(records);
        return OfferResult(Unchanged, x.id, true, [], |records|);
      }
      var proposed := Put(records, x);
      var selected := SelectLoop(policy, proposed);
      if Find(selected, x.id).None? {
        NothingGone(records);
        return OfferResult(Rejected, x.id, false, [], |records|);
      }
      var gone := Gone(records, selected);
      GoneIs(records, selected);
      records := selected;
      var action := if gone != [] then Evicted else if existing.Some? then Updated else Added;
      return OfferResult(action, x.id, true, gone, |records|);
    }
  }

  // -- ranked lists of distinct ids ----------------------------------------------

  lemma DistinctTotal(p: ArchivePolicy, xs: Records)
    requires DistinctIds(xs) && Sorted(xs, p.Rank())
    ensures forall i, j :: 0 <= i < j < |xs| ==> p.Rank()(xs[i], xs[j])
  {
    forall i, j | 0 <= i < j < |xs| ensures p.Rank()(xs[i], xs[j]) {
      assert !p.Rank()(xs[j], xs[i]) && xs[i].id != xs[j].id;
    }
  }

  lemma {:induction false} InsertDistinct(p: ArchivePolicy, xs: Records, x: CandidateRecord)
    requires DistinctIds(xs) && !HasId(xs, x.id)
    ensures DistinctIds(Insert(xs, x, p.Rank()))
  {
    if |xs| > 0 && !p.Before(x, xs[0]) {
      var rest := Insert(xs[1..], x, p.Rank());
      assert forall i :: 0 <= i < |xs[1..]| ==> xs[1..][i] == xs[i + 1];
      InsertDistinct(p, xs[1..], x);
      forall j | 0 <= j < |rest| ensures rest[j].id != xs[0].id {
        InsertMember(xs[1..], x, p.Rank(), rest[j]);
      }
    }
  }

  lemma {:induction false} SortDistinct(p: ArchivePolicy, xs: Records)
    requires DistinctIds(xs)
    ensures DistinctIds(Sort(xs, p.Rank()))
  {
    if |xs| > 0 {
      var init, x := xs[..|xs| - 1], xs[|xs| - 1];
      SortDistinct(p, init);
      forall i | 0 <= i < |init| ensures Sort(init, p.Rank())[i].id != x.id {
        SortMember(init, p.Rank(), Sort(init, p.Rank())[i]);
      }
      InsertDistinct(p, Sort(init, p.Rank()), x);
    }
  }

  /** A ranked list is the sort of any list with its elements. */
  lemma SortIs(p: ArchivePolicy, xs: Records, ranked: Records)
    requires DistinctIds(xs) && DistinctIds(ranked) && Sorted(ranked, p.Rank())
    requires forall r :: r in xs <==> r in ranked
    ensures Sort(xs, p.Rank()) == ranked
  {
    var s := Sort(xs, p.Rank());
    RankIsWeak(p);
    SortSorted(xs, p.Rank());
    SortDistinct(p, xs);
    DistinctTotal(p, s);
    DistinctTotal(p, ranked);
    forall r ensures r in s <==> r in ranked {
      SortMember(xs, p.Rank(), r);
    }
    SortedUnique(s, ranked, p.Rank());
  }

  lemma {:induction false} WithoutMember(xs: Records, id: nat, r: CandidateRecord)
    requires DistinctIds(xs)
    ensures r in Without(xs, id) <==> r in xs && r.id != id
  {
    if |xs| > 0 {
      assert xs == [xs[0]] + xs[1..];
      assert forall i :: 0 <= i < |xs[1..]| ==> xs[1..][i] == xs[i + 1];
      if xs[0].id != id {
        WithoutMember(xs[1..], id, r);
      }
    }
  }

  lemma {:induction false} WithoutShape(p: ArchivePolicy, xs: Records, id: nat)
    requires DistinctIds(xs) && Sorted(xs, p.Rank())
    ensures DistinctIds(Without(xs, id)) && Sorted(Without(xs, id), p.Rank()) && !HasId(Without(xs, id), id)
  {
    if |xs| > 0 {
      var rest := Without(xs[1..], id);
      assert forall i :: 0 <= i < |xs[1..]| ==> xs[1..][i] == xs[i + 1];
      if xs[0].id != id {
        WithoutShape(p, xs[1..], id);
        forall j | 0 <= j < |rest| ensures rest[j].id != xs[0].id && !p.Rank()(rest[j], xs[0]) {
          WithoutMember(xs[1..], id, rest[j]);
        }
      }
    }
  }

  lemma {:induction false} PutMember(records: Records, x: CandidateRecord, r: CandidateRecord)
    requires DistinctIds(records)
    ensures r in Put(records, x) <==> r == x || (r in records && r.id != x.id)
  {
    if |records| > 0 {
      assert records == [records[0]] + records[1..];
      assert forall i :: 0 <= i < |records[1..]| ==> records[1..][i] == records[i + 1];
      if records[0].id != x.id {
        PutMember(records[1..], x, r);
      }
    }
  }

  lemma {:induction false} PutDistinct(records: Records, x: CandidateRecord)
    requires DistinctIds(records)
    ensures DistinctIds(Put(records, x))
  {
    if |records| > 0 && records[0].id != x.id {
      var rest := Put(records[1..], x);
      assert forall i :: 0 <= i < |records[1..]| ==> records[1..][i] == records[i + 1];
      PutDistinct(records[1..], x);
      forall j | 0 <= j < |rest| ensures rest[j].id != records[0].id {
        PutMember(records[1..], x, rest[j]);
      }
    }
  }

  /** Ranking the updated dictionary: take the old version out, insert the new one. */
  lemma SortPut(p: ArchivePolicy, records: Records, ranked: Records, x: CandidateRecord)
    requires DistinctIds(records) && DistinctIds(ranked) && Sorted(ranked, p.Rank())
    requires forall r :: r in records <==> r in ranked
    ensures Sort(Put(records, x), p.Rank()) == Insert(Without(ranked, x.id), x, p.Rank())
  {
    var rest := Without(ranked, x.id);
    RankIsWeak(p);
    WithoutShape(p, ranked, x.id);
    InsertSorted(rest, x, p.Rank());
    InsertDistinct(p, rest, x);
    PutDistinct(records, x);
    forall r ensures r in Put(records, x) <==> r in Insert(rest, x, p.Rank()) {
      PutMember(records, x, r);
      InsertMember(rest, x, p.Rank(), r);
      WithoutMember(ranked, x.id, r);
    }
    SortIs(p, Put(records, x), Insert(rest, x, p.Rank()));
  }

  lemma {:induction false} WithoutAbsent(xs: Records, id: nat)
    requires !HasId(xs, id)
    ensures Without(xs, id) == xs
  {
    if |xs| > 0 {
      assert xs[0].id != id;
      assert forall i :: 0 <= i < |xs[1..]| ==> xs[1..][i] == xs[i + 1];
      WithoutAbsent(xs[1..], id);
    }
  }

  lemma {:induction false} WithoutInserted(p: ArchivePolicy, xs: Records, x: CandidateRecord)
    requires !HasId(xs, x.id)
    ensures Without(Insert(xs, x, p.Rank()), x.id) == xs
  {
    if |xs| > 0 && !p.Before(x, xs[0]) {
      assert xs[0].id != x.id;
      assert forall i :: 0 <= i < |xs[1..]| ==> xs[1..][i] == xs[i + 1];
      WithoutInserted(p, xs[1..], x);
    }
  }
}
