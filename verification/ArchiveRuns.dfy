/** Evictions and the order of the offers. */
module ArchiveRuns {
  import opened StableSort
  import opened ArchiveSelect
  import opened Archive
  import opened ArchiveStreaming

  // -- evictions -------------------------------------------------------------------

  /** A slot and a family place given back cannot hurt. */
  lemma {:induction false} PickLoosened(p: ArchivePolicy, xs: Records, counts: Counts, room: nat, x: CandidateRecord)
    requires room > 0 && Pick(p, xs, Bump(counts, x), room - 1) == xs
    ensures Pick(p, xs, counts, room) == xs
  {
    if |xs| > 0 {
      var h := xs[0];
      if Full(p, Bump(counts, x), h) {
        PickMember(p, xs, Bump(counts, x), room - 1, h);
      } else {
        BumpCommutes(counts, x, h);
        PickLoosened(p, xs[1..], Bump(counts, h), room - 1, x);
      }
    }
  }

  lemma {:induction false} WithoutSelfPicked(p: ArchivePolicy, xs: Records, counts: Counts, room: nat, id: nat)
    requires Pick(p, xs, counts, room) == xs
    ensures Pick(p, Without(xs, id), counts, room) == Without(xs, id)
  {
    if |xs| > 0 {
      var h := xs[0];
      PickMember(p, xs, counts, room, h);
      if h.id == id {
        PickLoosened(p, xs[1..], counts, room, h);
      } else {
        WithoutSelfPicked(p, xs[1..], Bump(counts, h), room - 1, id);
      }
    }
  }

  /** At most one record of xs, the one called `out`, fails to be in kept. */
  ghost predicate AllBut(xs: Records, kept: Records, out: nat) {
    forall i :: 0 <= i < |xs| && xs[i].id != out ==> xs[i] in kept
  }

  lemma {:induction false} SpentDropsOne(p: ArchivePolicy, xs: Records, counts: Counts, room: nat, x: CandidateRecord)
    returns (out: nat)
    requires room > 0 && Pick(p, xs, counts, room) == xs && !Full(p, counts, x)
    ensures AllBut(xs, Pick(p, xs, Bump(counts, x), room - 1), out)
  {
    if |xs| == 0 {
      out := 0;
    } else {
      var h := xs[0];
      PickMember(p, xs, counts, room, h);
      if room == 1 {
        out := h.id;
        assert |xs| == 1;
      } else if Full(p, Bump(counts, x), h) {
        out := h.id;
        assert Bump(counts, h) == Bump(counts, x);
        assert xs[1..] == Pick(p, xs[1..], Bump(counts, x), room - 1);
        assert forall i :: 0 < i < |xs| ==> xs[i] == xs[1..][i - 1];
      } else {
        BumpCommutes(counts, x, h);
        assert !Full(p, Bump(counts, h), x);
        out := SpentDropsOne(p, xs[1..], Bump(counts, h), room - 1, x);
        assert forall i :: 0 < i < |xs| ==> xs[i] == xs[1..][i - 1];
      }
    }
  }

  lemma {:induction false} InsertDropsOne(p: ArchivePolicy, xs: Records, counts: Counts, room: nat, x: CandidateRecord)
    returns (out: nat)
    requires Pick(p, xs, counts, room) == xs
    ensures AllBut(xs, Pick(p, Insert(xs, x, p.Rank()), counts, room), out)
  {
    if |xs| == 0 {
      out := 0;
    } else {
      var h := xs[0];
      PickMember(p, xs, counts, room, h);
      if !p.Before(x, h) {
        out := InsertDropsOne(p, xs[1..], Bump(counts, h), room - 1, x);
        assert forall i :: 0 < i < |xs| ==> xs[i] == xs[1..][i - 1];
      } else if Full(p, counts, x) {
        FullInsert(p, xs, counts, room, x);
        out := 0;
      } else {
        out := SpentDropsOne(p, xs, counts, room, x);
        PickHead(p, x, xs, counts, room);
      }
    }
  }

  lemma {:induction false} MissingAtMostOne(xs: Records, kept: Records, out: nat)
    requires DistinctIds(xs)
    requires forall i :: 0 <= i < |xs| && xs[i].id != out ==> HasId(kept, xs[i].id)
    ensures |Missing(xs, kept)| <= 1
  {
    if |xs| > 0 {
      assert forall i :: 0 <= i < |xs[1..]| ==> xs[1..][i] == xs[i + 1];
      if xs[0].id == out {
        MissingNone(xs[1..], kept);
      } else {
        MissingAtMostOne(xs[1..], kept, out);
      }
    }
  }

  lemma AllButOneKept(r: Records, after: Records, id: nat, out: nat)
    requires DistinctIds(r) && HasId(after, id) && AllBut(Without(r, id), after, out)
    ensures forall i :: 0 <= i < |r| && r[i].id != out ==> HasId(after, r[i].id)
  {
    forall i | 0 <= i < |r| && r[i].id != out ensures HasId(after, r[i].id) {
      if r[i].id != id {
        WithoutMember(r, id, r[i]);
        var j :| 0 <= j < |Without(r, id)| && Without(r, id)[j] == r[i];
        MemberHasId(after, r[i]);
      }
    }
  }

  /** No offer evicts more than one record, whatever families the offers name. */
  lemma OfferEvictsAtMostOne(p: ArchivePolicy, history: Records, x: CandidateRecord)
    ensures |Gone(Run(p, history), Offered(p, Run(p, history), x))| <= 1
  {
    var r := Run(p, history);
    var after := Offered(p, r, x);
    RunSettled(p, history);
    SelectSettled(p, r);
    if after == r {
      MissingNone(r, r);
    } else {
      var rest, none := Without(r, x.id), map[];
      SelectIsPick(p, r);
      SortFixed(r, p.Rank());
      SelectIsPick(p, Put(r, x));
      SortPut(p, r, r, x);
      WithoutSelfPicked(p, r, none, p.capacity, x.id);
      var out := InsertDropsOne(p, rest, none, p.capacity, x);
      AllButOneKept(r, after, x.id, out);
      MissingAtMostOne(r, after, out);
    }
  }

  // -- the order of the offers -------------------------------------------------------

  /** All that ranking and retention look at. */
  function Outline(p: ArchivePolicy, r: CandidateRecord): CandidateRecord {
    CandidateRecord(r.id, map[p.decisionScore := p.Score(r)], r.family, "")
  }

  function Outlines(p: ArchivePolicy, xs: Records): (r: Records)
    ensures |r| == |xs| && forall i :: 0 <= i < |xs| ==> r[i] == Outline(p, xs[i])
  {
    seq(|xs|, i requires 0 <= i < |xs| => Outline(p, xs[i]))
  }

  lemma {:induction false} OutlineInsert(p: ArchivePolicy, s: Records, x: CandidateRecord)
    ensures Outlines(p, Insert(s, x, p.Rank())) == Insert(Outlines(p, s), Outline(p, x), p.Rank())
  {
    if |s| > 0 {
      assert Outlines(p, s)[1..] == Outlines(p, s[1..]);
      if !p.Before(x, s[0]) {
        OutlineInsert(p, s[1..], x);
      }
    }
  }

  lemma {:induction false} OutlineSort(p: ArchivePolicy, xs: Records)
    ensures Outlines(p, Sort(xs, p.Rank())) == Sort(Outlines(p, xs), p.Rank())
  {
    if |xs| > 0 {
      var init := xs[..|xs| - 1];
      OutlineSort(p, init);
      OutlineInsert(p, Sort(init, p.Rank()), xs[|xs| - 1]);
      assert Outlines(p, xs)[..|xs| - 1] == Outlines(p, init);
    }
  }

  lemma {:induction false} OutlinePick(p: ArchivePolicy, xs: Records, counts: Counts, room: nat)
    ensures Outlines(p, Pick(p, xs, counts, room)) == Pick(p, Outlines(p, xs), counts, room)
  {
    if |xs| > 0 && room > 0 {
      assert Outlines(p, xs)[1..] == Outlines(p, xs[1..]);
      if Full(p, counts, xs[0]) {
        OutlinePick(p, xs[1..], counts, room);
      } else {
        assert Bump(counts, Outline(p, xs[0])) == Bump(counts, xs[0]);
        OutlinePick(p, xs[1..], Bump(counts, xs[0]), room - 1);
      }
    }
  }

  lemma OutlineSelect(p: ArchivePolicy, xs: Records)
    ensures Outlines(p, Select(p, xs)) == Select(p, Outlines(p, xs))
  {
    SelectIsPick(p, xs);
    SelectIsPick(p, Outlines(p, xs));
    OutlineSort(p, xs);
    OutlinePick(p, Sort(xs, p.Rank()), map[], p.capacity);
  }

  /** Best keeps, for every scored offer, a record of its id that is at least as good. */
  lemma {:induction false} BestCovers(p: ArchivePolicy, history: Records, e: CandidateRecord)
    returns (r: CandidateRecord)
    requires e in history && p.Scored(e)
    ensures r in Best(p, history) && r.id == e.id && !p.Better(e, r)
  {
    var init, x := history[..|history| - 1], history[|history| - 1];
    var before := Best(p, init);
    BestFacts(p, init);
    if e in init {
      r := BestCovers(p, init, e);
      if Improves(p, before, x) {
        PutMember(before, x, r);
        PutMember(before, x, x);
        if r.id == x.id {
          MemberHasId(before, r);
          SameIdSame(before, r, Find(before, x.id).value);
          r := x;
        }
      }
    } else {
      assert e == x;
      if Improves(p, before, x) {
        PutMember(before, x, x);
        r := x;
      } else {
        r := Find(before, x.id).value;
      }
    }
  }

  lemma FamilyOf(history: Records, r: CandidateRecord, s: CandidateRecord)
    requires FamilyStable(history) && r in history && s in history && r.id == s.id
    ensures r.family == s.family
  {
    var i :| 0 <= i < |history| && history[i] == r;
    var j :| 0 <= j < |history| && history[j] == s;
  }

  lemma BestScored(p: ArchivePolicy, history: Records, r: CandidateRecord)
    requires r in Best(p, history)
    ensures p.Scored(r) && r in history
  {
    BestFacts(p, history);
    var i :| 0 <= i < |Best(p, history)| && Best(p, history)[i] == r;
  }

  ghost predicate SameOffers(a: Records, b: Records) {
    forall e :: e in a <==> e in b
  }

  lemma SameHistoryOutlines(p: ArchivePolicy, a: Records, b: Records, r: CandidateRecord) returns (s: CandidateRecord)
    requires FamilyStable(a) && SameOffers(a, b) && r in Best(p, a)
    ensures s in Best(p, b) && Outline(p, s) == Outline(p, r)
  {
    BestScored(p, a, r);
    s := BestCovers(p, b, r);
    BestScored(p, b, s);
    var t := BestCovers(p, a, s);
    BestFacts(p, a);
    SameIdSame(Best(p, a), t, r);
    FamilyOf(a, r, s);
  }

  lemma OutlineMember(p: ArchivePolicy, xs: Records, o: CandidateRecord)
    ensures o in Outlines(p, xs) <==> exists r :: r in xs && Outline(p, r) == o
  {
    if o in Outlines(p, xs) {
      var i :| 0 <= i < |xs| && Outlines(p, xs)[i] == o;
      assert xs[i] in xs && Outline(p, xs[i]) == o;
    }
    if r :| r in xs && Outline(p, r) == o {
      var i :| 0 <= i < |xs| && xs[i] == r;
      assert Outlines(p, xs)[i] == o;
    }
  }

  lemma OutlinesCovered(p: ArchivePolicy, a: Records, b: Records, o: CandidateRecord)
    requires FamilyStable(a) && SameOffers(a, b) && o in Outlines(p, Best(p, a))
    ensures o in Outlines(p, Best(p, b))
  {
    OutlineMember(p, Best(p, a), o);
    OutlineMember(p, Best(p, b), o);
    var r :| r in Best(p, a) && Outline(p, r) == o;
    var s := SameHistoryOutlines(p, a, b, r);
  }

  /** The retained ids, scores and families do not depend on the order of the offers
      or on repeating them. */
  lemma OrderIndependent(p: ArchivePolicy, a: Records, b: Records)
    requires FamilyStable(a) && FamilyStable(b) && SameOffers(a, b)
    ensures Outlines(p, Run(p, a)) == Outlines(p, Run(p, b))
  {
    var x, y := Outlines(p, Best(p, a)), Outlines(p, Best(p, b));
    StreamingEqualsBatch(p, a);
    StreamingEqualsBatch(p, b);
    OutlineSelect(p, Best(p, a));
    OutlineSelect(p, Best(p, b));
    BestFacts(p, a);
    BestFacts(p, b);
    RankIsWeak(p);
    SortSorted(y, p.Rank());
    SortDistinct(p, y);
    forall o ensures o in x <==> o in Sort(y, p.Rank()) {
      SortMember(y, p.Rank(), o);
      if o in x {
        OutlinesCovered(p, a, b, o);
      }
      if o in y {
        OutlinesCovered(p, b, a, o);
      }
    }
    SortIs(p, x, Sort(y, p.Rank()));
  }
}
