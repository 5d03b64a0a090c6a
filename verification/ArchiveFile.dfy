/** read_candidate_archive: which record lists it accepts, and what it rebuilds. */
module ArchiveFile {
  import opened Results
  import opened StableSort
  import opened ArchiveSelect
  import opened Archive
  import opened ArchiveStreaming

  datatype Statistics = Statistics(
    policy: ArchivePolicy, retained: nat, familyCount: nat, bestId: Option<nat>, bestScore: Option<real>)

  function FamilySet(records: Records): set<string> {
    set i | 0 <= i < |records| && records[i].family.Some? :: records[i].family.value
  }

  function StatisticsOf(p: ArchivePolicy, records: Records): Statistics {
    Statistics(p, |records|, |FamilySet(records)|,
               if records == [] then None else Some(records[0].id),
               if records == [] then None else Some(p.Score(records[0])))
  }

  datatype ReadError = TooManyRecords | DuplicateIds | FamilyLimit | Retention | NotBestFirst | StatisticsDiffer

  lemma {:induction false} PutFresh(records: Records, x: CandidateRecord)
    requires !HasId(records, x.id)
    ensures Put(records, x) == records + [x]
  {
    if |records| > 0 {
      assert records[0].id != x.id;
      assert forall i :: 0 <= i < |records[1..]| ==> records[1..][i] == records[i + 1];
      PutFresh(records[1..], x);
    }
  }

  lemma {:induction false} PickPrefix(p: ArchivePolicy, xs: Records, counts: Counts, room: nat, k: nat)
    requires Pick(p, xs, counts, room) == xs && k <= |xs|
    ensures Pick(p, xs[..k], counts, room) == xs[..k]
  {
    if k > 0 {
      PickMember(p, xs, counts, room, xs[0]);
      PickPrefix(p, xs[1..], Bump(counts, xs[0]), room - 1, k - 1);
      assert xs[..k][1..] == xs[1..][..k - 1];
    }
  }

  lemma PrefixSettled(p: ArchivePolicy, raw: Records, k: nat)
    requires Settled(p, raw) && k <= |raw|
    ensures Settled(p, raw[..k])
  {
    SelectSettled(p, raw);
    SortFixed(raw, p.Rank());
    SelectIsPick(p, raw);
    PickPrefix(p, raw, map[], p.capacity, k);
    SortFixed(raw[..k], p.Rank());
    SelectIsPick(p, raw[..k]);
  }

  /** Replaying a settled list adds one record an offer and evicts none. */
  lemma ReplayStep(p: ArchivePolicy, raw: Records, k: nat)
    requires Settled(p, raw) && k < |raw|
    ensures Offered(p, raw[..k], raw[k]) == raw[..k + 1] && Retains(p, raw[..k], raw[k])
    ensures Gone(raw[..k], raw[..k + 1]) == []
  {
    var before, x := raw[..k], raw[k];
    PrefixSettled(p, raw, k + 1);
    PutFresh(before, x);
    assert before + [x] == raw[..k + 1];
    assert raw[..k + 1][k].id == x.id;
    forall i | 0 <= i < k ensures HasId(raw[..k + 1], before[i].id) {
      assert raw[..k + 1][i].id == before[i].id;
    }
    MissingNone(before, raw[..k + 1]);
  }

  lemma {:induction false} ReplayRebuilds(p: ArchivePolicy, raw: Records, k: nat)
    requires Settled(p, raw) && k <= |raw|
    ensures Run(p, raw[..k]) == raw[..k]
  {
    if k > 0 {
      ReplayRebuilds(p, raw, k - 1);
      ReplayStep(p, raw, k - 1);
      assert raw[..k][..k - 1] == raw[..k - 1];
    }
  }

  /** The settled lists are exactly the record lists of reachable archives. */
  lemma SettledIffReachable(p: ArchivePolicy, raw: Records)
    ensures Settled(p, raw) <==> exists history :: Run(p, history) == raw
  {
    if Settled(p, raw) {
      ReplayRebuilds(p, raw, |raw|);
      assert raw[..|raw|] == raw;
    }
    if history :| Run(p, history) == raw {
      RunSettled(p, history);
    }
  }

  /** An accepted list of distinct ids whose replay ends in the same ids is that replay. */
  lemma SameIdsSettled(p: ArchivePolicy, raw: Records)
    requires DistinctIds(raw) && Ids(Select(p, Run(p, raw))) == Ids(raw)
    ensures Settled(p, raw) && Run(p, raw) == raw
  {
    var r := Run(p, raw);
    RunSettled(p, raw);
    StreamingEqualsBatch(p, raw);
    BestFacts(p, raw);
    SelectSettled(p, Best(p, raw));
    assert |r| == |raw| by { assert |Ids(r)| == |Ids(raw)|; }
    forall i | 0 <= i < |raw| ensures r[i] == raw[i] {
      assert Ids(r)[i] == Ids(raw)[i];
      assert r[i] in raw;
      SameIdSame(raw, r[i], raw[i]);
    }
    assert r == raw;
  }

  // -- the family counts ------------------------------------------------------------------

  /** No family occurs more often than the limit allows. */
  ghost predicate FamiliesFit(p: ArchivePolicy, raw: Records) {
    p.familyLimit.Some? ==> forall f: string :: FamilyCount(raw, f) <= p.familyLimit.value
  }

  lemma {:induction false} FamilyCountAppend(a: Records, b: Records, f: string)
    ensures FamilyCount(a + b, f) == FamilyCount(a, f) + FamilyCount(b, f)
  {
    if |a| == 0 {
      assert a + b == b;
    } else {
      assert (a + b)[1..] == a[1..] + b;
      FamilyCountAppend(a[1..], b, f);
    }
  }

  lemma CountNext(raw: Records, i: nat, f: string)
    requires i < |raw|
    ensures FamilyCount(raw[..i + 1], f) == FamilyCount(raw[..i], f) + if raw[i].family == Some(f) then 1 else 0
    ensures FamilyCount(raw[..i + 1], f) <= FamilyCount(raw, f)
  {
    assert raw[..i + 1] == raw[..i] + [raw[i]];
    FamilyCountAppend(raw[..i], [raw[i]], f);
    assert [raw[i]][1..] == [];
    assert raw == raw[..i + 1] + raw[i + 1..];
    FamilyCountAppend(raw[..i + 1], raw[i + 1..], f);
  }

  /** The dictionary holds the family counts of the records so far, none above the limit. */
  ghost predicate Counted(p: ArchivePolicy, counts: Counts, xs: Records)
    requires p.familyLimit.Some?
  {
    forall f: string :: CountOf(counts, f) == FamilyCount(xs, f) <= p.familyLimit.value
  }

  lemma CountedMore(p: ArchivePolicy, before: Counts, counts: Counts, raw: Records, i: nat)
    requires p.familyLimit.Some? && i < |raw| && Counted(p, before, raw[..i]) && counts == Bump(before, raw[i])
    requires raw[i].family.Some? ==> CountOf(counts, raw[i].family.value) <= p.familyLimit.value
    ensures Counted(p, counts, raw[..i + 1])
  {
    forall f: string ensures CountOf(counts, f) == FamilyCount(raw[..i + 1], f) <= p.familyLimit.value {
      CountNext(raw, i, f);
      assert CountOf(before, f) == FamilyCount(raw[..i], f);
    }
  }

  /** The reader's check that no family exceeds its limit. */
  method FamiliesWithinLimit(p: ArchivePolicy, raw: Records) returns (ok: bool)
    ensures ok <==> FamiliesFit(p, raw)
  {
    if p.familyLimit.None? {
      return true;
    }
    var counts: Counts := map[];
    for i := 0 to |raw|
      invariant Counted(p, counts, raw[..i])
    {
      var record := raw[i];
      ghost var before := counts;
      if record.family.Some? {
        var count := CountOf(counts, record.family.value) + 1;
        counts := counts[record.family.value := count];
        if count > p.familyLimit.value {
          CountNext(raw, i, record.family.value);
          return false;
        }
      }
      CountedMore(p, before, counts, raw, i);
    }
    assert raw[..|raw|] == raw;
    return true;
  }

  lemma {:induction false} InsertCount(p: ArchivePolicy, xs: Records, x: CandidateRecord, f: string)
    ensures FamilyCount(Insert(xs, x, p.Rank()), f) == FamilyCount(xs, f) + if x.family == Some(f) then 1 else 0
  {
    if |xs| == 0 || p.Before(x, xs[0]) {
      assert Insert(xs, x, p.Rank()) == [x] + xs;
      assert ([x] + xs)[1..] == xs;
    } else {
      InsertCount(p, xs[1..], x, f);
      assert Insert(xs, x, p.Rank())[1..] == Insert(xs[1..], x, p.Rank());
    }
  }

  lemma {:induction false} SortCount(p: ArchivePolicy, xs: Records, f: string)
    ensures FamilyCount(Sort(xs, p.Rank()), f) == FamilyCount(xs, f)
  {
    if |xs| > 0 {
      var init, x := xs[..|xs| - 1], xs[|xs| - 1];
      SortCount(p, init, f);
      InsertCount(p, Sort(init, p.Rank()), x, f);
      assert xs == init + [x] && [x][1..] == [];
      FamilyCountAppend(init, [x], f);
    }
  }

  /** There is room for all records and for all families. */
  ghost predicate RoomFor(p: ArchivePolicy, xs: Records, counts: Counts, room: nat) {
    |xs| <= room && (p.familyLimit.Some? ==> forall f: string :: FamilyCount(xs, f) > 0 ==>
        CountOf(counts, f) + FamilyCount(xs, f) <= p.familyLimit.value)
  }

  lemma RoomBehind(p: ArchivePolicy, xs: Records, counts: Counts, room: nat)
    requires |xs| > 0 && RoomFor(p, xs, counts, room)
    ensures !Full(p, counts, xs[0]) && room > 0 && RoomFor(p, xs[1..], Bump(counts, xs[0]), room - 1)
  {
    if p.familyLimit.Some? {
      if xs[0].family.Some? {
        assert FamilyCount(xs, xs[0].family.value) > 0;
      }
      forall f: string | FamilyCount(xs[1..], f) > 0
        ensures CountOf(Bump(counts, xs[0]), f) + FamilyCount(xs[1..], f) <= p.familyLimit.value
      {
        assert FamilyCount(xs, f) > 0;
      }
    }
  }

  lemma {:induction false} AllPicked(p: ArchivePolicy, xs: Records, counts: Counts, room: nat)
    requires RoomFor(p, xs, counts, room)
    ensures Pick(p, xs, counts, room) == xs
  {
    if |xs| > 0 {
      RoomBehind(p, xs, counts, room);
      AllPicked(p, xs[1..], Bump(counts, xs[0]), room - 1);
    }
  }

  // -- what the checks amount to ------------------------------------------------------------

  /** The checks made before any record is offered. */
  ghost predicate Sized(p: ArchivePolicy, raw: Records) {
    |raw| <= p.capacity && DistinctIds(raw) && FamiliesFit(p, raw)
  }

  lemma SizedPrefix(p: ArchivePolicy, raw: Records, k: nat)
    requires Sized(p, raw) && k <= |raw|
    ensures Sized(p, raw[..k])
  {
    forall f: string | p.familyLimit.Some? ensures FamilyCount(raw[..k], f) <= p.familyLimit.value {
      assert raw == raw[..k] + raw[k..];
      FamilyCountAppend(raw[..k], raw[k..], f);
      assert FamilyCount(raw, f) <= p.familyLimit.value;
    }
  }

  /** Such records are all retained, in ranked order. */
  lemma SizedSelect(p: ArchivePolicy, raw: Records)
    requires Sized(p, raw)
    ensures Select(p, raw) == Sort(raw, p.Rank())
  {
    forall f: string | p.familyLimit.Some? ensures FamilyCount(Sort(raw, p.Rank()), f) <= p.familyLimit.value {
      SortCount(p, raw, f);
      assert FamilyCount(raw, f) <= p.familyLimit.value;
    }
    SelectIsPick(p, raw);
    AllPicked(p, Sort(raw, p.Rank()), map[], p.capacity);
  }

  /** The best records of distinct scored offers are the offers. */
  lemma {:induction false} BestOfDistinct(p: ArchivePolicy, raw: Records)
    requires DistinctIds(raw) && AllScored(p, raw)
    ensures Best(p, raw) == raw
  {
    if |raw| > 0 {
      var init, x := raw[..|raw| - 1], raw[|raw| - 1];
      BestOfDistinct(p, init);
      assert !HasId(init, x.id);
      PutFresh(init, x);
      assert init + [x] == raw;
    }
  }

  lemma SizedRun(p: ArchivePolicy, raw: Records)
    requires Sized(p, raw) && AllScored(p, raw)
    ensures Run(p, raw) == Sort(raw, p.Rank())
  {
    StreamingEqualsBatch(p, raw);
    BestOfDistinct(p, raw);
    SizedSelect(p, raw);
  }

  /** An offer of a new id that is in the archive afterwards was retained. */
  lemma NewIdRetained(p: ArchivePolicy, less: Records, before: Records, x: CandidateRecord)
    requires before == Sort(less, p.Rank()) && DistinctIds(less + [x]) && HasId(Offered(p, before, x), x.id) &&
              p.Scored(x)
    ensures Retains(p, before, x)
  {
    forall i | 0 <= i < |before| ensures before[i].id != x.id {
      SortMember(less, p.Rank(), before[i]);
      var j :| 0 <= j < |less| && less[j] == before[i];
      assert (less + [x])[j] == less[j] && (less + [x])[|less|] == x;
    }
  }

  lemma NextRetained(p: ArchivePolicy, raw: Records, k: nat)
    requires Sized(p, raw) && k < |raw| && AllScored(p, raw[..k]) && p.Scored(raw[k])
    ensures var before := Run(p, raw[..k]);
            Retains(p, before, raw[k]) && Gone(before, Offered(p, before, raw[k])) == []
  {
    var x, less, more := raw[k], raw[..k], raw[..k + 1];
    assert more == less + [x];
    SizedPrefix(p, raw, k);
    SizedPrefix(p, raw, k + 1);
    SizedRun(p, less);
    SizedRun(p, more);
    var before, after := Run(p, less), Run(p, more);
    assert more[..k] == less && after == Offered(p, before, x);
    forall i | 0 <= i < |before| ensures HasId(after, before[i].id) {
      SortMember(less, p.Rank(), before[i]);
      SortMember(more, p.Rank(), before[i]);
      MemberHasId(after, before[i]);
    }
    MissingNone(before, after);
    SortMember(more, p.Rank(), x);
    MemberHasId(after, x);
    NewIdRetained(p, less, before, x);
  }

  /** The next record is retained without an eviction iff it has the decision score. */
  lemma NextRetainedIff(p: ArchivePolicy, raw: Records, k: nat)
    requires Sized(p, raw) && k < |raw| && AllScored(p, raw[..k])
    ensures var before := Run(p, raw[..k]);
            Retains(p, before, raw[k]) && Gone(before, Offered(p, before, raw[k])) == [] <==> p.Scored(raw[k])
  {
    if p.Scored(raw[k]) {
      NextRetained(p, raw, k);
    }
  }

  /** A list is settled iff it passes the checks made up front, every record has the decision
      score, and they are ranked. */
  lemma SettledIff(p: ArchivePolicy, raw: Records)
    ensures Settled(p, raw) <==> Sized(p, raw) && AllScored(p, raw) && Sorted(raw, p.Rank())
  {
    if Settled(p, raw) {
      SelectSettled(p, raw);
      SortFixed(raw, p.Rank());
      SelectIsPick(p, raw);
      forall f: string | p.familyLimit.Some? ensures FamilyCount(raw, f) <= p.familyLimit.value {
        PickedFits(p, raw, map[], p.capacity, f);
      }
    }
    if Sized(p, raw) && AllScored(p, raw) && Sorted(raw, p.Rank()) {
      SizedSelect(p, raw);
      SortFixed(raw, p.Rank());
    }
  }

  /** A ranked list of the same ids is the sort itself. */
  lemma SameOrderIff(p: ArchivePolicy, raw: Records)
    requires Sized(p, raw) && AllScored(p, raw)
    ensures Select(p, Run(p, raw)) == Sort(raw, p.Rank())
    ensures Ids(Sort(raw, p.Rank())) == Ids(raw) <==> Sorted(raw, p.Rank())
  {
    SizedRun(p, raw);
    RunSettled(p, raw);
    if Sorted(raw, p.Rank()) {
      SortFixed(raw, p.Rank());
    } else if Ids(Sort(raw, p.Rank())) == Ids(raw) {
      SameIdsSettled(p, raw);
      SettledIff(p, raw);
    }
  }

  lemma RunPrefix(p: ArchivePolicy, raw: Records, i: nat)
    requires i < |raw|
    ensures Run(p, raw[..i + 1]) == Offered(p, Run(p, raw[..i]), raw[i])
    ensures AllScored(p, raw[..i + 1]) <==> AllScored(p, raw[..i]) && p.Scored(raw[i])
  {
    assert raw[..i + 1][..i] == raw[..i];
    assert raw[..i + 1][i] == raw[i];
    assert forall j :: 0 <= j < i ==> raw[..i + 1][j] == raw[..i][j];
  }

  /** The offers of the file's records to an empty archive, up to one that is not simply added. */
  method Replay(p: ArchivePolicy, raw: Records) returns (archive: CandidateArchive, kept: bool)
    requires Sized(p, raw)
    ensures fresh(archive) && archive.policy == p
    ensures kept <==> AllScored(p, raw)
    ensures kept ==> archive.records == Run(p, raw)
  {
    archive := new CandidateArchive(p);
    for i := 0 to |raw|
      invariant archive.policy == p && archive.records == Run(p, raw[..i]) && fresh(archive) && AllScored(p, raw[..i])
    {
      NextRetainedIff(p, raw, i);
      RunPrefix(p, raw, i);
      var result := archive.Offer(raw[i]);
      if !result.retained || result.evicted != [] {
        return archive, false;
      }
    }
    assert raw[..|raw|] == raw;
    return archive, true;
  }

  method ReadArchive(p: ArchivePolicy, raw: Records, statistics: Option<Statistics>)
    returns (r: Result<CandidateArchive, ReadError>)
    ensures r.Ok? <==> Settled(p, raw) && (statistics.Some? ==> statistics.value == StatisticsOf(p, raw))
    ensures r.Ok? ==> fresh(r.value) && r.value.policy == p && r.value.records == raw
    ensures r == Err(TooManyRecords) <==> |raw| > p.capacity
    ensures r == Err(DuplicateIds) <==> |raw| <= p.capacity && !DistinctIds(raw)
    ensures r == Err(FamilyLimit) <==> |raw| <= p.capacity && DistinctIds(raw) && !FamiliesFit(p, raw)
    ensures r == Err(Retention) <==> Sized(p, raw) && !AllScored(p, raw)
    ensures r == Err(NotBestFirst) <==> Sized(p, raw) && AllScored(p, raw) && !Sorted(raw, p.Rank())
    ensures r == Err(StatisticsDiffer) <==>
              Settled(p, raw) && statistics.Some? && statistics.value != StatisticsOf(p, raw)
  {
    SettledIff(p, raw);
    if |raw| > p.capacity {
      return Err(TooManyRecords);
    }
    if !DistinctIds(raw) {
      return Err(DuplicateIds);
    }
    var within := FamiliesWithinLimit(p, raw);
    if !within {
      return Err(FamilyLimit);
    }
    var archive, kept := Replay(p, raw);
    if !kept {
      return Err(Retention);
    }
    SameOrderIff(p, raw);
    var listed := SelectLoop(p, archive.records);
    if Ids(listed) != Ids(raw) {
      return Err(NotBestFirst);
    }
    SortFixed(raw, p.Rank());
    SizedRun(p, raw);
    if statistics.Some? && statistics.value != StatisticsOf(p, listed) {
      return Err(StatisticsDiffer);
    }
    return Ok(archive);
  }
}
