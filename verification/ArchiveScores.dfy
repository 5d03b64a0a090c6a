/** What ranking and retention mean in the records' own decision scores. */
module ArchiveScores {
  import opened Results
  import opened StableSort
  import opened ArchiveSelect
  import opened Archive
  import opened ArchiveStreaming
  import opened ArchiveRuns
  import opened ArchiveFile

  /** x has the better decision score, or an equal one and the smaller id. */
  predicate StandsAhead(p: ArchivePolicy, x: CandidateRecord, y: CandidateRecord) {
    && p.decisionScore in x.scores && p.decisionScore in y.scores
    && if x.scores[p.decisionScore] == y.scores[p.decisionScore] then x.id < y.id
       else if p.higherIsBetter then x.scores[p.decisionScore] > y.scores[p.decisionScore]
       else x.scores[p.decisionScore] < y.scores[p.decisionScore]
  }

  lemma BeforeIsAhead(p: ArchivePolicy, x: CandidateRecord, y: CandidateRecord)
    requires p.Scored(x) && p.Scored(y)
    ensures p.Before(x, y) <==> StandsAhead(p, x, y)
  {
  }

  /** Best first: the archive is in the order of the scores, and of the ids where they are equal. */
  lemma RunOrdered(p: ArchivePolicy, history: Records)
    ensures var r := Run(p, history);
            forall i, j :: 0 <= i < j < |r| ==>
              && p.decisionScore in r[i].scores && p.decisionScore in r[j].scores
              && (p.higherIsBetter ==> r[i].scores[p.decisionScore] >= r[j].scores[p.decisionScore])
              && (!p.higherIsBetter ==> r[i].scores[p.decisionScore] <= r[j].scores[p.decisionScore])
              && (r[i].scores[p.decisionScore] == r[j].scores[p.decisionScore] ==> r[i].id < r[j].id)
  {
    var r := Run(p, history);
    RunSettled(p, history);
    SelectSettled(p, r);
    DistinctTotal(p, r);
    forall i, j | 0 <= i < j < |r| ensures StandsAhead(p, r[i], r[j]) {
      assert p.Rank()(r[i], r[j]);
      BeforeIsAhead(p, r[i], r[j]);
    }
  }

  /** The records of xs that stand ahead of r. */
  ghost function AheadOf(p: ArchivePolicy, xs: Records, r: CandidateRecord): set<CandidateRecord> {
    set k | k in xs && StandsAhead(p, k, r)
  }

  /** Those of its family. */
  ghost function RivalsOf(p: ArchivePolicy, xs: Records, r: CandidateRecord): set<CandidateRecord> {
    set k | k in xs && k.family == r.family && StandsAhead(p, k, r)
  }

  /** There is room for r behind the kept records that stand ahead of it. */
  ghost predicate RoomFor(p: ArchivePolicy, kept: Records, r: CandidateRecord, counts: Counts, room: nat) {
    && |AheadOf(p, kept, r)| < room
    && (p.familyLimit.Some? && r.family.Some? ==>
          CountOf(counts, r.family.value) + |RivalsOf(p, kept, r)| < p.familyLimit.value)
  }

  lemma NothingAhead(p: ArchivePolicy, xs: Records, r: CandidateRecord)
    requires forall k :: k in xs ==> !StandsAhead(p, k, r)
    ensures AheadOf(p, xs, r) == {} && RivalsOf(p, xs, r) == {}
  {
  }

  lemma OneMoreAhead(p: ArchivePolicy, h: CandidateRecord, rest: Records, r: CandidateRecord)
    requires StandsAhead(p, h, r) && h !in rest
    ensures |AheadOf(p, [h] + rest, r)| == 1 + |AheadOf(p, rest, r)|
  {
    assert AheadOf(p, [h] + rest, r) == {h} + AheadOf(p, rest, r);
  }

  lemma OneMoreRival(p: ArchivePolicy, h: CandidateRecord, rest: Records, r: CandidateRecord)
    requires StandsAhead(p, h, r) && h !in rest
    ensures |RivalsOf(p, [h] + rest, r)| == |RivalsOf(p, rest, r)| + if h.family == r.family then 1 else 0
  {
    if h.family == r.family {
      assert RivalsOf(p, [h] + rest, r) == {h} + RivalsOf(p, rest, r);
    } else {
      assert RivalsOf(p, [h] + rest, r) == RivalsOf(p, rest, r);
    }
  }

  ghost predicate RankedScored(p: ArchivePolicy, xs: Records) {
    Sorted(xs, p.Rank()) && DistinctIds(xs) && AllScored(p, xs)
  }

  lemma HeadAhead(p: ArchivePolicy, xs: Records, r: CandidateRecord)
    requires |xs| > 0 && RankedScored(p, xs) && r in xs
    ensures RankedScored(p, xs[1..]) && xs[0] !in xs[1..]
    ensures r == xs[0] ==> forall k :: k in xs ==> !StandsAhead(p, k, r)
    ensures r != xs[0] ==> StandsAhead(p, xs[0], r) && r in xs[1..]
  {
    DistinctTotal(p, xs);
    var i :| 0 <= i < |xs| && xs[i] == r;
    if i > 0 {
      assert p.Rank()(xs[0], xs[i]) && xs[1..][i - 1] == r;
      BeforeIsAhead(p, xs[0], r);
    }
    forall k | k in xs ensures !StandsAhead(p, k, xs[0]) {
      var j :| 0 <= j < |xs| && xs[j] == k;
      assert j > 0 ==> !p.Rank()(xs[j], xs[0]);
      BeforeIsAhead(p, k, xs[0]);
    }
  }

  lemma PickedIfRoom(p: ArchivePolicy, xs: Records, counts: Counts, room: nat, r: CandidateRecord)
    requires |xs| > 0 && RankedScored(p, xs) && r == xs[0]
    ensures r in Pick(p, xs, counts, room) <==> RoomFor(p, Pick(p, xs, counts, room), r, counts, room)
  {
    var picked := Pick(p, xs, counts, room);
    HeadAhead(p, xs, r);
    forall k | k in picked ensures !StandsAhead(p, k, r) {
      PickMember(p, xs, counts, room, k);
    }
    NothingAhead(p, picked, r);
    if Full(p, counts, r) && r in picked {
      PickMember(p, xs, counts, room, r);
    }
  }

  lemma PickedBehind(p: ArchivePolicy, h: CandidateRecord, rest: Records, counts: Counts, room: nat, r: CandidateRecord)
    requires h !in rest && room > 0 && !Full(p, counts, h) && StandsAhead(p, h, r)
    ensures var picked := Pick(p, rest, Bump(counts, h), room - 1);
            RoomFor(p, [h] + picked, r, counts, room) <==> RoomFor(p, picked, r, Bump(counts, h), room - 1)
  {
    var picked := Pick(p, rest, Bump(counts, h), room - 1);
    if h in picked {
      PickMember(p, rest, Bump(counts, h), room - 1, h);
    }
    OneMoreAhead(p, h, picked, r);
    OneMoreRival(p, h, picked, r);
  }

  lemma {:induction false} PickedIff(p: ArchivePolicy, xs: Records, counts: Counts, room: nat, r: CandidateRecord)
    requires RankedScored(p, xs) && r in xs
    ensures r in Pick(p, xs, counts, room) <==> RoomFor(p, Pick(p, xs, counts, room), r, counts, room)
  {
    HeadAhead(p, xs, r);
    if r == xs[0] {
      PickedIfRoom(p, xs, counts, room, r);
    } else if room > 0 {
      if Full(p, counts, xs[0]) {
        PickedIff(p, xs[1..], counts, room, r);
      } else {
        PickedIff(p, xs[1..], Bump(counts, xs[0]), room - 1, r);
        PickedBehind(p, xs[0], xs[1..], counts, room, r);
      }
    }
  }

  /** A record is selected iff fewer selected records than the capacity stand ahead of it, and
      fewer of its family than the limit. */
  lemma SelectedIff(p: ArchivePolicy, records: Records, r: CandidateRecord)
    requires DistinctIds(records) && AllScored(p, records) && r in records
    ensures r in Select(p, records) <==>
            && |AheadOf(p, Select(p, records), r)| < p.capacity
            && (p.familyLimit.Some? && r.family.Some? ==>
                  |RivalsOf(p, Select(p, records), r)| < p.familyLimit.value)
  {
    var s := Sort(records, p.Rank());
    RankIsWeak(p);
    SortSorted(records, p.Rank());
    SortDistinct(p, records);
    SortMember(records, p.Rank(), r);
    forall i | 0 <= i < |s| ensures p.Scored(s[i]) {
      SortMember(records, p.Rank(), s[i]);
    }
    SelectIsPick(p, records);
    PickedIff(p, s, map[], p.capacity, r);
  }

  /** Best has, for every scored offer, an offer of its id with at least as good a score. */
  lemma BestIsBest(p: ArchivePolicy, history: Records, e: CandidateRecord)
    requires e in history && p.decisionScore in e.scores
    ensures exists r :: r in Best(p, history) && r in history && r.id == e.id && p.decisionScore in r.scores
              && if p.higherIsBetter then r.scores[p.decisionScore] >= e.scores[p.decisionScore]
                 else r.scores[p.decisionScore] <= e.scores[p.decisionScore]
  {
    var r := BestCovers(p, history, e);
    BestScored(p, history, r);
  }

  /** With stable families an archive keeps, of the best offers of all ids, exactly those with
      room behind the kept ones that stand ahead. */
  lemma RetainedIff(p: ArchivePolicy, history: Records, r: CandidateRecord)
    requires FamilyStable(history) && r in Best(p, history)
    ensures r in Run(p, history) <==>
            && |AheadOf(p, Run(p, history), r)| < p.capacity
            && (p.familyLimit.Some? && r.family.Some? ==> |RivalsOf(p, Run(p, history), r)| < p.familyLimit.value)
  {
    StreamingEqualsBatch(p, history);
    BestFacts(p, history);
    SelectedIff(p, Best(p, history), r);
  }

  lemma {:induction false} FamilyCountSnoc(xs: Records, x: CandidateRecord, f: string)
    ensures FamilyCount(xs + [x], f) == FamilyCount(xs, f) + if x.family == Some(f) then 1 else 0
  {
    if |xs| > 0 {
      assert (xs + [x])[1..] == xs[1..] + [x];
      FamilyCountSnoc(xs[1..], x, f);
    }
  }

  /** Where the records of the family stand. */
  ghost function Members(xs: Records, f: string): set<nat> {
    set i | 0 <= i < |xs| && xs[i].family == Some(f)
  }

  lemma MembersSnoc(xs: Records, x: CandidateRecord, f: string)
    ensures |Members(xs + [x], f)| == |Members(xs, f)| + if x.family == Some(f) then 1 else 0
  {
    assert Members(xs + [x], f) == Members(xs, f) + if x.family == Some(f) then {|xs|} else {};
  }

  lemma {:induction false} FamilyCountIs(xs: Records, f: string)
    ensures FamilyCount(xs, f) == |Members(xs, f)|
  {
    if |xs| > 0 {
      var init, last := xs[..|xs| - 1], xs[|xs| - 1];
      assert xs == init + [last];
      FamilyCountIs(init, f);
      FamilyCountSnoc(init, last, f);
      MembersSnoc(init, last, f);
    }
  }

  lemma SelectedIsOffered(p: ArchivePolicy, r: Records, x: CandidateRecord)
    requires Settled(p, r) && Improves(p, r, x)
    ensures Find(Select(p, Put(r, x)), x.id).Some? <==> x in Offered(p, r, x)
  {
    var sel := Select(p, Put(r, x));
    PutScored(p, r, x);
    SelectSettled(p, Put(r, x));
    if Find(sel, x.id).Some? {
      PutMember(r, x, Find(sel, x.id).value);
    } else if x in r {
      FindIs(r, x.id);
    }
    if x in sel {
      MemberHasId(sel, x);
    }
  }

  /** An offer is reported as retained iff the offered record is in the archive afterwards, or its
      id is there already with a score that is no worse. */
  lemma RetainsIff(p: ArchivePolicy, history: Records, x: CandidateRecord)
    ensures var r := Run(p, history);
            Retains(p, r, x) <==>
            && p.decisionScore in x.scores
            && (x in Offered(p, r, x) ||
                exists e :: e in r && e.id == x.id && p.decisionScore in e.scores
                  && if p.higherIsBetter then x.scores[p.decisionScore] <= e.scores[p.decisionScore]
                     else x.scores[p.decisionScore] >= e.scores[p.decisionScore])
  {
    var r := Run(p, history);
    RunSettled(p, history);
    FindIs(r, x.id);
    if p.Scored(x) {
      if HasId(r, x.id) {
        var e := Find(r, x.id).value;
        assert p.Scored(e);
      }
      if Improves(p, r, x) {
        SelectedIsOffered(p, r, x);
      }
    }
  }

  /** What the statistics report: the policy, the size, the number of different families, and
      the id and score of the record that no other one stands ahead of. */
  lemma StatisticsMean(p: ArchivePolicy, history: Records, families: set<string>)
    requires forall f :: f in families <==> exists k :: k in Run(p, history) && k.family == Some(f)
    ensures var r, s := Run(p, history), StatisticsOf(p, Run(p, history));
            && s.policy == p && s.retained == |r| && s.familyCount == |families|
            && (r == [] ==> s.bestId == None && s.bestScore == None)
            && (r != [] ==>
                  exists k ::
                    && k in r && p.decisionScore in k.scores
                    && s.bestId == Some(k.id) && s.bestScore == Some(k.scores[p.decisionScore])
                    && forall e :: e in r && e != k ==> StandsAhead(p, k, e))
  {
    var r := Run(p, history);
    assert families == FamilySet(r);
    if r != [] {
      RunSettled(p, history);
      SelectSettled(p, r);
      forall e | e in r && e != r[0] ensures StandsAhead(p, r[0], e) {
        HeadAhead(p, r, e);
      }
      assert r[0] in r && p.Scored(r[0]);
    }
  }
}
