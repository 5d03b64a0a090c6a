/** Any run of offers leaves what ranking the whole history at once would leave. */
module ArchiveStreaming {
  import opened Results
  import opened StableSort
  import opened ArchiveSelect
  import opened Archive

  /** Each candidate id is offered under one family only. */
  ghost predicate FamilyStable(history: Records) {
    forall i, j :: 0 <= i < |history| && 0 <= j < |history| && history[i].id == history[j].id
      ==> history[i].family == history[j].family
  }

  ghost predicate AllScored(p: ArchivePolicy, xs: Records) {
    forall i :: 0 <= i < |xs| ==> p.Scored(xs[i])
  }

  /** A dictionary that is its own selection. */
  ghost predicate Settled(p: ArchivePolicy, records: Records) {
    DistinctIds(records) && AllScored(p, records) && Select(p, records) == records
  }

  lemma {:induction false} PickDistinct(p: ArchivePolicy, xs: Records, counts: Counts, room: nat)
    requires DistinctIds(xs)
    ensures DistinctIds(Pick(p, xs, counts, room))
  {
    if |xs| > 0 && room > 0 {
      if Full(p, counts, xs[0]) {
        PickDistinct(p, xs[1..], counts, room);
      } else {
        var rest := Pick(p, xs[1..], Bump(counts, xs[0]), room - 1);
        PickDistinct(p, xs[1..], Bump(counts, xs[0]), room - 1);
        forall j | 0 <= j < |rest| ensures rest[j].id != xs[0].id {
          PickMember(p, xs[1..], Bump(counts, xs[0]), room - 1, rest[j]);
        }
      }
    }
  }

  lemma SelectSettled(p: ArchivePolicy, xs: Records)
    requires DistinctIds(xs) && AllScored(p, xs)
    ensures Settled(p, Select(p, xs))
    ensures Sorted(Select(p, xs), p.Rank())
    ensures forall r :: r in Select(p, xs) ==> r in xs
  {
    var s, sel := Sort(xs, p.Rank()), Select(p, xs);
    RankIsWeak(p);
    SelectIsPick(p, xs);
    SortSorted(xs, p.Rank());
    SortDistinct(p, xs);
    PickSorted(p, s, map[], p.capacity);
    PickDistinct(p, s, map[], p.capacity);
    forall r | r in sel ensures r in xs && p.Scored(r) {
      PickMember(p, s, map[], p.capacity, r);
      SortMember(xs, p.Rank(), r);
      var i :| 0 <= i < |xs| && xs[i] == r;
    }
    assert forall i :: 0 <= i < |sel| ==> sel[i] in sel;
    SortFixed(sel, p.Rank());
    SelectIsPick(p, sel);
    PickAgain(p, s, map[], p.capacity);
  }

  lemma PutScored(p: ArchivePolicy, records: Records, x: CandidateRecord)
    requires DistinctIds(records) && AllScored(p, records) && p.Scored(x)
    ensures DistinctIds(Put(records, x)) && AllScored(p, Put(records, x))
  {
    PutDistinct(records, x);
    forall i | 0 <= i < |Put(records, x)| ensures p.Scored(Put(records, x)[i]) {
      PutMember(records, x, Put(records, x)[i]);
    }
  }

  /** Every reachable archive is settled: reading `records` twice selects nothing new. */
  lemma {:induction false} RunSettled(p: ArchivePolicy, history: Records)
    ensures Settled(p, Run(p, history))
  {
    if |history| == 0 {
      SelectSettled(p, []);
    } else {
      var before, x := Run(p, history[..|history| - 1]), history[|history| - 1];
      RunSettled(p, history[..|history| - 1]);
      if Improves(p, before, x) {
        PutScored(p, before, x);
        SelectSettled(p, Put(before, x));
      }
    }
  }

  lemma {:induction false} BestFacts(p: ArchivePolicy, history: Records)
    ensures DistinctIds(Best(p, history)) && AllScored(p, Best(p, history))
    ensures forall r :: r in Best(p, history) ==> r in history
  {
    if |history| > 0 {
      var init, x := history[..|history| - 1], history[|history| - 1];
      BestFacts(p, init);
      if Improves(p, Best(p, init), x) {
        PutScored(p, Best(p, init), x);
        forall r | r in Best(p, history) ensures r in history {
          PutMember(Best(p, init), x, r);
        }
      }
    }
  }

  // -- one offer against the ranked list of all best records ----------------------

  lemma {:induction false} FullInsert(p: ArchivePolicy, xs: Records, counts: Counts, room: nat, x: CandidateRecord)
    requires Full(p, counts, x)
    ensures Pick(p, Insert(xs, x, p.Rank()), counts, room) == Pick(p, xs, counts, room)
  {
    if |xs| > 0 && room > 0 && !p.Before(x, xs[0]) {
      if Full(p, counts, xs[0]) {
        FullInsert(p, xs[1..], counts, room, x);
      } else {
        FullPersists(p, counts, xs[0], x);
        FullInsert(p, xs[1..], Bump(counts, xs[0]), room - 1, x);
      }
    }
  }

  /** A record ranked behind an unpicked one of its family is not picked either. */
  lemma {:induction false} BehindUnpicked(p: ArchivePolicy, xs: Records, counts: Counts, room: nat,
                                          prior: CandidateRecord, x: CandidateRecord)
    requires Sorted(xs, p.Rank()) && prior in xs && prior.family == x.family && !p.Before(x, prior)
    requires prior !in Pick(p, xs, counts, room)
    ensures Pick(p, Insert(xs, x, p.Rank()), counts, room) == Pick(p, xs, counts, room)
  {
    var h := xs[0];
    if p.Before(x, h) {
      HeadFirst(p, xs, x, prior);
    } else if room > 0 {
      if Full(p, counts, h) {
        if h == prior {
          FullInsert(p, xs[1..], counts, room, x);
        } else {
          BehindUnpicked(p, xs[1..], counts, room, prior, x);
        }
      } else {
        assert h in Pick(p, xs, counts, room);
        assert forall r :: r in Pick(p, xs[1..], Bump(counts, h), room - 1) ==> r in Pick(p, xs, counts, room);
        BehindUnpicked(p, xs[1..], Bump(counts, h), room - 1, prior, x);
      }
    }
  }

  lemma PickHead(p: ArchivePolicy, x: CandidateRecord, rest: Records, counts: Counts, room: nat)
    requires room > 0 && !Full(p, counts, x)
    ensures Pick(p, [x] + rest, counts, room) == [x] + Pick(p, rest, Bump(counts, x), room - 1)
  {
    assert ([x] + rest)[1..] == rest;
  }

  /** A record of prior's family at the head takes the place that prior gave away. */
  lemma NewHead(p: ArchivePolicy, rest: Records, counts: Counts, room: nat, prior: CandidateRecord, x: CandidateRecord)
    requires prior.family == x.family && room > 0 && !Full(p, counts, prior)
    ensures Pick(p, [x] + rest, counts, room) == [x] + Pick(p, rest, Bump(counts, prior), room - 1)
  {
    assert Bump(counts, x) == Bump(counts, prior);
    PickHead(p, x, rest, counts, room);
  }

  lemma ReplaceInFront(p: ArchivePolicy, xs: Records, counts: Counts, room: nat, prior: CandidateRecord,
                       x: CandidateRecord)
    requires DistinctIds(xs) && prior in Pick(p, xs, counts, room) && prior.id == x.id && prior.family == x.family
    ensures var r := Pick(p, [x] + Without(xs, x.id), counts, room);
            x in r && r == Pick(p, [x] + Without(Pick(p, xs, counts, room), x.id), counts, room)
  {
    var a, b := Without(xs, x.id), Without(Pick(p, xs, counts, room), x.id);
    PickMember(p, xs, counts, room, prior);
    PickReplaced(p, xs, counts, room, prior);
    NewHead(p, a, counts, room, prior, x);
    NewHead(p, b, counts, room, prior, x);
  }

  /** Before the head of a ranked list is before everything left of it. */
  lemma AheadOfAll(p: ArchivePolicy, xs: Records, x: CandidateRecord)
    requires |xs| > 0 && Sorted(xs, p.Rank()) && DistinctIds(xs) && p.Before(x, xs[0])
    ensures Insert(Without(xs, x.id), x, p.Rank()) == [x] + Without(xs, x.id)
  {
    var rest := Without(xs, x.id);
    if |rest| > 0 {
      WithoutMember(xs, x.id, rest[0]);
      HeadFirst(p, xs, x, rest[0]);
    }
  }

  lemma AheadOfPicked(p: ArchivePolicy, xs: Records, counts: Counts, room: nat, x: CandidateRecord)
    requires |xs| > 0 && Sorted(xs, p.Rank()) && DistinctIds(xs) && p.Before(x, xs[0])
    requires |Pick(p, xs, counts, room)| > 0
    ensures var picked := Pick(p, xs, counts, room);
            Insert(Without(picked, x.id), x, p.Rank()) == [x] + Without(picked, x.id)
  {
    var picked := Pick(p, xs, counts, room);
    PickSorted(p, xs, counts, room);
    PickDistinct(p, xs, counts, room);
    PickMember(p, xs, counts, room, picked[0]);
    HeadFirst(p, xs, x, picked[0]);
    AheadOfAll(p, picked, x);
  }

  lemma ImproveAtHead(p: ArchivePolicy, xs: Records, counts: Counts, room: nat,
                      prior: CandidateRecord, x: CandidateRecord)
    requires |xs| > 0 && Sorted(xs, p.Rank()) && DistinctIds(xs) && p.Before(x, xs[0])
    requires prior in Pick(p, xs, counts, room) && prior.id == x.id && prior.family == x.family
    ensures var r := Pick(p, Insert(Without(xs, x.id), x, p.Rank()), counts, room);
            x in r && r == Pick(p, Insert(Without(Pick(p, xs, counts, room), x.id), x, p.Rank()), counts, room)
  {
    PickMember(p, xs, counts, room, prior);
    AheadOfAll(p, xs, x);
    AheadOfPicked(p, xs, counts, room, x);
    ReplaceInFront(p, xs, counts, room, prior, x);
  }

  lemma InsertedBehind(p: ArchivePolicy, h: CandidateRecord, rest: Records, x: CandidateRecord)
    requires h.id != x.id && !p.Before(x, h)
    ensures Insert(Without([h] + rest, x.id), x, p.Rank()) == [h] + Insert(Without(rest, x.id), x, p.Rank())
  {
    assert Without([h] + rest, x.id) == [h] + Without(rest, x.id);
  }

  /** A better version of a picked record takes its place among the picked. */
  lemma {:induction false} ImprovePicked(p: ArchivePolicy, xs: Records, counts: Counts, room: nat,
                                         prior: CandidateRecord, x: CandidateRecord)
    requires Sorted(xs, p.Rank()) && DistinctIds(xs)
    requires prior in Pick(p, xs, counts, room) && prior.id == x.id && prior.family == x.family && p.Before(x, prior)
    ensures var r := Pick(p, Insert(Without(xs, x.id), x, p.Rank()), counts, room);
            x in r && r == Pick(p, Insert(Without(Pick(p, xs, counts, room), x.id), x, p.Rank()), counts, room)
  {
    var h, picked := xs[0], Pick(p, xs, counts, room);
    PickMember(p, xs, counts, room, prior);
    if p.Before(x, h) {
      ImproveAtHead(p, xs, counts, room, prior, x);
    } else {
      OtherId(xs, prior);
      if Full(p, counts, h) {
        ImprovePicked(p, xs[1..], counts, room, prior, x);
      } else {
        assert picked == [h] + picked[1..];
        ImprovePicked(p, xs[1..], Bump(counts, h), room - 1, prior, x);
        assert xs == [h] + xs[1..];
        InsertedBehind(p, h, xs[1..], x);
        InsertedBehind(p, h, picked[1..], x);
      }
    }
  }

  /** The ranked list s of the best records, its selection sel, and both with x put in. */
  ghost predicate Ranked(p: ArchivePolicy, best: Records, s: Records, sel: Records, x: CandidateRecord) {
    && DistinctIds(s) && Sorted(s, p.Rank())
    && sel == Pick(p, s, map[], p.capacity) && sel == Pick(p, sel, map[], p.capacity)
    && Select(p, Put(sel, x)) == Pick(p, Insert(Without(sel, x.id), x, p.Rank()), map[], p.capacity)
    && Select(p, Put(best, x)) == Pick(p, Insert(Without(s, x.id), x, p.Rank()), map[], p.capacity)
  }

  lemma RankedFacts(p: ArchivePolicy, best: Records, x: CandidateRecord)
    requires DistinctIds(best) && AllScored(p, best)
    ensures Ranked(p, best, Sort(best, p.Rank()), Select(p, best), x)
  {
    var s, sel := Sort(best, p.Rank()), Select(p, best);
    RankIsWeak(p);
    SortSorted(best, p.Rank());
    SortDistinct(p, best);
    SelectIsPick(p, best);
    SelectSettled(p, best);
    SortFixed(sel, p.Rank());
    SelectIsPick(p, sel);
    forall r ensures r in best <==> r in s {
      SortMember(best, p.Rank(), r);
    }
    SelectIsPick(p, Put(sel, x));
    SelectIsPick(p, Put(best, x));
    SortPut(p, sel, sel, x);
    SortPut(p, best, s, x);
  }

  lemma SameIdSame(xs: Records, a: CandidateRecord, b: CandidateRecord)
    requires DistinctIds(xs) && a in xs && b in xs && a.id == b.id
    ensures a == b
  {
    var i :| 0 <= i < |xs| && xs[i] == a;
    var j :| 0 <= j < |xs| && xs[j] == b;
    assert !(i < j) && !(j < i);
  }

  lemma SelectedFromBest(p: ArchivePolicy, s: Records, sel: Records)
    requires sel == Pick(p, s, map[], p.capacity)
    ensures forall i :: 0 <= i < |sel| ==> sel[i] in s
  {
    forall i | 0 <= i < |sel| ensures sel[i] in s {
      PickMember(p, s, map[], p.capacity, sel[i]);
    }
  }

  /** x's id is not selected: offering it selects from the whole ranked list `rest`. */
  lemma FreshOffer(p: ArchivePolicy, rest: Records, sel: Records, x: CandidateRecord)
    requires Sorted(rest, p.Rank()) && sel == Pick(p, rest, map[], p.capacity)
    requires sel == Pick(p, sel, map[], p.capacity) && !HasId(sel, x.id)
    requires Select(p, Put(sel, x)) == Pick(p, Insert(Without(sel, x.id), x, p.Rank()), map[], p.capacity)
    ensures Select(p, Put(sel, x)) == Pick(p, Insert(rest, x, p.Rank()), map[], p.capacity)
    ensures !HasId(Select(p, Put(sel, x)), x.id) ==> Select(p, Put(sel, x)) == sel
  {
    WithoutAbsent(sel, x.id);
    PickInsert(p, rest, map[], p.capacity, x);
    if !HasId(Select(p, Put(sel, x)), x.id) {
      PickWithout(p, Insert(sel, x, p.Rank()), map[], p.capacity, x.id);
      WithoutInserted(p, sel, x);
    }
  }

  lemma NotIn(best: Records, xs: Records, id: nat)
    requires !HasId(best, id) && forall i :: 0 <= i < |xs| ==> xs[i] in best
    ensures !HasId(xs, id)
  {
  }

  lemma UnknownOffer(p: ArchivePolicy, best: Records, s: Records, sel: Records, x: CandidateRecord)
    requires Ranked(p, best, s, sel, x) && p.Scored(x) && Find(best, x.id).None?
    requires forall r :: r in s ==> r in best
    ensures Offered(p, sel, x) == Select(p, Kept(p, best, x))
  {
    SelectedFromBest(p, s, sel);
    assert forall i :: 0 <= i < |sel| ==> sel[i] in best;
    assert forall i :: 0 <= i < |s| ==> s[i] in best;
    NotIn(best, s, x.id);
    NotIn(best, sel, x.id);
    WithoutAbsent(s, x.id);
    FreshOffer(p, s, sel, x);
  }

  lemma MemberHasId(xs: Records, r: CandidateRecord)
    requires r in xs
    ensures HasId(xs, r.id)
  {
    var i :| 0 <= i < |xs| && xs[i] == r;
  }

  /** A better version of a record that was not selected: its old version does not matter. */
  lemma PassedOver(p: ArchivePolicy, s: Records, sel: Records, x: CandidateRecord)
    requires Sorted(s, p.Rank()) && DistinctIds(s) && sel == Pick(p, s, map[], p.capacity)
    requires sel == Pick(p, sel, map[], p.capacity) && !HasId(sel, x.id)
    requires Select(p, Put(sel, x)) == Pick(p, Insert(Without(sel, x.id), x, p.Rank()), map[], p.capacity)
    ensures Select(p, Put(sel, x)) == Pick(p, Insert(Without(s, x.id), x, p.Rank()), map[], p.capacity)
    ensures !HasId(Select(p, Put(sel, x)), x.id) ==> Select(p, Put(sel, x)) == sel
  {
    PickWithout(p, s, map[], p.capacity, x.id);
    WithoutShape(p, s, x.id);
    FreshOffer(p, Without(s, x.id), sel, x);
  }

  lemma KnownOffer(p: ArchivePolicy, best: Records, s: Records, sel: Records, known: CandidateRecord,
                   x: CandidateRecord)
    requires Ranked(p, best, s, sel, x) && p.Scored(x) && p.Scored(known) && Find(best, x.id) == Some(known)
    requires known in s && forall r :: r in s && r.id == x.id ==> r == known
    requires known.family == x.family
    requires sel == Select(p, best)
    ensures Offered(p, sel, x) == Select(p, Kept(p, best, x))
  {
    SelectedFromBest(p, s, sel);
    if known in sel {
      MemberHasId(sel, known);
      assert Find(sel, x.id) == Some(known);
      if p.Better(x, known) {
        ImprovePicked(p, s, map[], p.capacity, known, x);
        MemberHasId(Select(p, Put(sel, x)), x);
      }
    } else {
      assert !HasId(sel, x.id);
      if p.Better(x, known) {
        PassedOver(p, s, sel, x);
      } else {
        BehindUnpicked(p, s, map[], p.capacity, known, x);
        FreshOffer(p, s, sel, x);
        assert Select(p, Put(sel, x)) == sel;
      }
    }
  }

  /** select(select(best) + x) == select(best + x), for one offer. */
  lemma OfferStep(p: ArchivePolicy, best: Records, x: CandidateRecord)
    requires DistinctIds(best) && AllScored(p, best)
    requires forall r :: r in best && r.id == x.id ==> r.family == x.family
    ensures Offered(p, Select(p, best), x) == Select(p, Kept(p, best, x))
  {
    if p.Scored(x) {
      var s, sel, known := Sort(best, p.Rank()), Select(p, best), Find(best, x.id);
      RankedFacts(p, best, x);
      forall r ensures r in s <==> r in best {
        SortMember(best, p.Rank(), r);
      }
      if known.None? {
        UnknownOffer(p, best, s, sel, x);
      } else {
        forall r | r in s && r.id == x.id ensures r == known.value {
          SameIdSame(best, r, known.value);
        }
        KnownOffer(p, best, s, sel, known.value, x);
      }
    }
  }

  /** Streaming equals batch. */
  lemma {:induction false} StreamingEqualsBatch(p: ArchivePolicy, history: Records)
    requires FamilyStable(history)
    ensures Run(p, history) == Select(p, Best(p, history))
  {
    if |history| == 0 {
      SelectSettled(p, []);
    } else {
      var init, x := history[..|history| - 1], history[|history| - 1];
      assert FamilyStable(init);
      StreamingEqualsBatch(p, init);
      BestFacts(p, init);
      forall r | r in Best(p, init) && r.id == x.id ensures r.family == x.family {
        var i :| 0 <= i < |init| && init[i] == r;
        assert history[i] == r;
      }
      OfferStep(p, Best(p, init), x);
    }
  }
}
