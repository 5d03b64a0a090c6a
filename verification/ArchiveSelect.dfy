/** Ranking and retention in the candidate archive: the best records first, no family
    above its limit, cut to the capacity. */
module ArchiveSelect {
  import opened Results
  import opened StableSort
  import opened Sequences

  /** Candidate ids are 40 hexadecimal digits; their order is that of the numbers. */
  datatype CandidateRecord = CandidateRecord(
    id: nat, scores: map<string, real>, family: Option<string>, payload: string)

  datatype ArchivePolicy = ArchivePolicy(
    capacity: nat, decisionScore: string, higherIsBetter: bool, familyLimit: Option<nat>)
  {
    predicate Scored(r: CandidateRecord) { decisionScore in r.scores }

    function Score(r: CandidateRecord): real {
      if Scored(r) then r.scores[decisionScore] else 0.0
    }

    /** _rank_key(x) < _rank_key(y) */
    predicate Before(x: CandidateRecord, y: CandidateRecord) {
      var a, b := Score(x), Score(y);
      (if higherIsBetter then a > b else a < b) || (a == b && x.id < y.id)
    }

    function Rank(): Order<CandidateRecord> {
      (x, y) => Before(x, y)
    }

    predicate Better(x: CandidateRecord, y: CandidateRecord) {
      if higherIsBetter then Score(x) > Score(y) else Score(x) < Score(y)
    }
  }

  type Records = seq<CandidateRecord>
  type Counts = map<string, nat>

  lemma RankIsWeak(p: ArchivePolicy)
    ensures StrictWeak(p.Rank())
  {
  }

  function CountOf(counts: Counts, family: string): nat {
    if family in counts then counts[family] else 0
  }

  /** The record's family has used up its limit. */
  predicate Full(p: ArchivePolicy, counts: Counts, r: CandidateRecord) {
    p.familyLimit.Some? && r.family.Some? && CountOf(counts, r.family.value) >= p.familyLimit.value
  }

  function Bump(counts: Counts, r: CandidateRecord): Counts {
    if r.family.Some? then counts[r.family.value := CountOf(counts, r.family.value) + 1] else counts
  }

  /** How many of the records name the family. */
  function FamilyCount(xs: Records, family: string): nat {
    if |xs| == 0 then 0
    else (if xs[0].family == Some(family) then 1 else 0) + FamilyCount(xs[1..], family)
  }

  /** The family filter of _select, over ranked records. */
  function FamilyFilter(p: ArchivePolicy, xs: Records, counts: Counts): Records {
    if |xs| == 0 then []
    else if Full(p, counts, xs[0]) then FamilyFilter(p, xs[1..], counts)
    else [xs[0]] + FamilyFilter(p, xs[1..], Bump(counts, xs[0]))
  }

  /** _select, as it is written: rank, filter, slice. */
  function Select(p: ArchivePolicy, records: Records): Records {
    Take(FamilyFilter(p, Sort(records, p.Rank()), map[]), p.capacity)
  }

  /** Filter and slice in one pass that stops when no room is left. */
  function Pick(p: ArchivePolicy, xs: Records, counts: Counts, room: nat): (r: Records)
    ensures |r| <= room
  {
    if |xs| == 0 || room == 0 then []
    else if Full(p, counts, xs[0]) then Pick(p, xs[1..], counts, room)
    else [xs[0]] + Pick(p, xs[1..], Bump(counts, xs[0]), room - 1)
  }

  lemma {:induction false} PickIsTake(p: ArchivePolicy, xs: Records, counts: Counts, room: nat)
    ensures Take(FamilyFilter(p, xs, counts), room) == Pick(p, xs, counts, room)
  {
    if |xs| > 0 && room > 0 {
      if Full(p, counts, xs[0]) {
        PickIsTake(p, xs[1..], counts, room);
      } else {
        PickIsTake(p, xs[1..], Bump(counts, xs[0]), room - 1);
      }
    }
  }

  lemma SelectIsPick(p: ArchivePolicy, records: Records)
    ensures Select(p, records) == Pick(p, Sort(records, p.Rank()), map[], p.capacity)
  {
    PickIsTake(p, Sort(records, p.Rank()), map[], p.capacity);
  }

  lemma {:induction false} NoFilter(p: ArchivePolicy, xs: Records, counts: Counts)
    requires p.familyLimit.None?
    ensures FamilyFilter(p, xs, counts) == xs
  {
    if |xs| > 0 {
      NoFilter(p, xs[1..], Bump(counts, xs[0]));
    }
  }

  /** The method form of _select: two mutable collections and one loop. */
  method SelectLoop(p: ArchivePolicy, records: Records) returns (selected: Records)
    ensures selected == Select(p, records)
  {
    var ordered := Sort(records, p.Rank());
    if p.familyLimit.Some? {
      var counts: Counts := map[];
      selected := [];
      for i := 0 to |ordered|
        invariant selected + FamilyFilter(p, ordered[i..], counts) == FamilyFilter(p, ordered, map[])
      {
        var record := ordered[i];
        assert ordered[i..][1..] == ordered[i + 1..];
        if record.family.Some? {
          var count := CountOf(counts, record.family.value);
          if count >= p.familyLimit.value {
            continue;
          }
          counts := counts[record.family.value := count + 1];
        }
        Assoc(selected, [record], FamilyFilter(p, ordered[i + 1..], counts));
        selected := selected + [record];
      }
      ordered := selected;
    } else {
      NoFilter(p, ordered, map[]);
    }
    selected := Take(ordered, p.capacity);
  }

  // -- algebra of Pick ---------------------------------------------------------

  lemma BumpCommutes(counts: Counts, a: CandidateRecord, b: CandidateRecord)
    ensures Bump(Bump(counts, a), b) == Bump(Bump(counts, b), a)
  {
  }

  lemma FullPersists(p: ArchivePolicy, counts: Counts, a: CandidateRecord, r: CandidateRecord)
    requires Full(p, counts, r)
    ensures Full(p, Bump(counts, a), r)
  {
  }

  lemma {:induction false} PickMember(p: ArchivePolicy, xs: Records, counts: Counts, room: nat, r: CandidateRecord)
    requires r in Pick(p, xs, counts, room)
    ensures r in xs && room > 0 && !Full(p, counts, r)
  {
    if r != xs[0] || Full(p, counts, xs[0]) {
      if Full(p, counts, xs[0]) {
        PickMember(p, xs[1..], counts, room, r);
      } else {
        PickMember(p, xs[1..], Bump(counts, xs[0]), room - 1, r);
      }
    }
  }

  lemma {:induction false} PickSorted(p: ArchivePolicy, xs: Records, counts: Counts, room: nat)
    requires Sorted(xs, p.Rank())
    ensures Sorted(Pick(p, xs, counts, room), p.Rank())
  {
    if |xs| > 0 && room > 0 {
      if Full(p, counts, xs[0]) {
        PickSorted(p, xs[1..], counts, room);
      } else {
        var rest := Pick(p, xs[1..], Bump(counts, xs[0]), room - 1);
        PickSorted(p, xs[1..], Bump(counts, xs[0]), room - 1);
        forall j | 0 <= j < |rest| ensures !p.Rank()(rest[j], xs[0]) {
          PickMember(p, xs[1..], Bump(counts, xs[0]), room - 1, rest[j]);
        }
      }
    }
  }

  /** A list that is picked whole has room for itself and for its families. */
  lemma {:induction false} PickedFits(p: ArchivePolicy, xs: Records, counts: Counts, room: nat, f: string)
    requires Pick(p, xs, counts, room) == xs && p.familyLimit.Some? && CountOf(counts, f) <= p.familyLimit.value
    ensures |xs| <= room && CountOf(counts, f) + FamilyCount(xs, f) <= p.familyLimit.value
  {
    if |xs| > 0 {
      assert xs[0] in Pick(p, xs, counts, room);
      PickMember(p, xs, counts, room, xs[0]);
      PickedFits(p, xs[1..], Bump(counts, xs[0]), room - 1, f);
    }
  }

  /** Picking from what was picked picks it all. */
  lemma {:induction false} PickAgain(p: ArchivePolicy, xs: Records, counts: Counts, room: nat)
    ensures Pick(p, Pick(p, xs, counts, room), counts, room) == Pick(p, xs, counts, room)
  {
    if |xs| > 0 && room > 0 {
      if Full(p, counts, xs[0]) {
        PickAgain(p, xs[1..], counts, room);
      } else {
        PickAgain(p, xs[1..], Bump(counts, xs[0]), room - 1);
      }
    }
  }

  /** One slot and one family place spent on another record x may be spent before or
      after a first pick: the second pick sees the same candidates. */
  lemma {:induction false} PickSpent(p: ArchivePolicy, xs: Records, counts: Counts, room: nat, x: CandidateRecord)
    requires room > 0 && !Full(p, counts, x)
    ensures Pick(p, Pick(p, xs, counts, room), Bump(counts, x), room - 1) == Pick(p, xs, Bump(counts, x), room - 1)
  {
    if |xs| > 0 {
      var h := xs[0];
      if Full(p, counts, h) {
        FullPersists(p, counts, x, h);
        PickSpent(p, xs[1..], counts, room, x);
      } else if Full(p, Bump(counts, x), h) {
        assert Bump(counts, h) == Bump(counts, x);
        PickAgain(p, xs[1..], Bump(counts, h), room - 1);
      } else if room > 1 {
        BumpCommutes(counts, x, h);
        if Full(p, Bump(counts, h), x) {
          assert x.family == h.family;
        } else {
          PickSpent(p, xs[1..], Bump(counts, h), room - 1, x);
        }
      }
    }
  }

  lemma HeadFirst(p: ArchivePolicy, xs: Records, x: CandidateRecord, r: CandidateRecord)
    requires |xs| > 0 && Sorted(xs, p.Rank()) && p.Before(x, xs[0]) && r in xs
    ensures p.Before(x, r)
  {
    var i :| 0 <= i < |xs| && xs[i] == r;
    if i > 0 {
      assert !p.Rank()(xs[i], xs[0]);
    }
  }

  /** Offering x to the picked records is offering it to all of them. */
  lemma {:induction false} PickInsert(p: ArchivePolicy, xs: Records, counts: Counts, room: nat, x: CandidateRecord)
    requires Sorted(xs, p.Rank())
    ensures Pick(p, Insert(Pick(p, xs, counts, room), x, p.Rank()), counts, room)
         == Pick(p, Insert(xs, x, p.Rank()), counts, room)
  {
    if |xs| > 0 && room > 0 {
      var h, picked := xs[0], Pick(p, xs, counts, room);
      if p.Before(x, h) {
        if |picked| > 0 {
          PickMember(p, xs, counts, room, picked[0]);
          HeadFirst(p, xs, x, picked[0]);
        }
        assert Insert(picked, x, p.Rank()) == [x] + picked;
        if Full(p, counts, x) {
          PickAgain(p, xs, counts, room);
        } else {
          PickSpent(p, xs, counts, room, x);
        }
      } else if Full(p, counts, h) {
        PickInsert(p, xs[1..], counts, room, x);
      } else {
        PickInsert(p, xs[1..], Bump(counts, h), room - 1, x);
      }
    }
  }

  predicate DistinctIds(xs: Records) {
    forall i, j :: 0 <= i < j < |xs| ==> xs[i].id != xs[j].id
  }

  ghost predicate HasId(xs: Records, id: nat) {
    exists i :: 0 <= i < |xs| && xs[i].id == id
  }

  /** xs without its record called id. */
  function Without(xs: Records, id: nat): Records {
    if |xs| == 0 then [] else if xs[0].id == id then xs[1..] else [xs[0]] + Without(xs[1..], id)
  }

  /** A record that was not picked was not needed. */
  lemma {:induction false} PickWithout(p: ArchivePolicy, xs: Records, counts: Counts, room: nat, id: nat)
    requires !HasId(Pick(p, xs, counts, room), id)
    ensures Pick(p, Without(xs, id), counts, room) == Pick(p, xs, counts, room)
  {
    if |xs| > 0 && room > 0 {
      var picked := Pick(p, xs, counts, room);
      if Full(p, counts, xs[0]) {
        PickWithout(p, xs[1..], counts, room, id);
      } else {
        assert picked[0].id != id;
        assert forall i :: 0 <= i < |picked[1..]| ==> picked[1..][i] == picked[i + 1];
        PickWithout(p, xs[1..], Bump(counts, xs[0]), room - 1, id);
      }
    }
  }

  /** A picked head ahead of the record whose place is given away stays picked. */
  lemma HeadReplaced(p: ArchivePolicy, h: CandidateRecord, rest: Records, counts: Counts, room: nat,
                     prior: CandidateRecord)
    requires h.id != prior.id && !Full(p, Bump(counts, prior), h) && room > 0
    ensures Pick(p, Without([h] + rest, prior.id), Bump(counts, prior), room)
         == [h] + Pick(p, Without(rest, prior.id), Bump(Bump(counts, h), prior), room - 1)
  {
    BumpCommutes(counts, prior, h);
    assert ([h] + rest)[1..] == rest;
    var a := [h] + Without(rest, prior.id);
    assert a[1..] == Without(rest, prior.id);
  }

  lemma RoomForBoth(p: ArchivePolicy, h: CandidateRecord, rest: Records, counts: Counts, room: nat,
                    prior: CandidateRecord)
    requires !Full(p, counts, h) && room > 0 && prior in Pick(p, rest, Bump(counts, h), room - 1)
    ensures room > 1 && !Full(p, Bump(counts, prior), h)
  {
    PickMember(p, rest, Bump(counts, h), room - 1, prior);
  }

  lemma OtherId(xs: Records, r: CandidateRecord)
    requires DistinctIds(xs) && r in xs && xs[0] != r
    ensures xs[0].id != r.id
  {
    var i :| 0 <= i < |xs| && xs[i] == r;
  }

  /** Giving a picked record's slot and family place away in advance replaces it. */
  lemma {:induction false} PickReplaced(p: ArchivePolicy, xs: Records, counts: Counts, room: nat,
                                        prior: CandidateRecord)
    requires DistinctIds(xs) && prior in Pick(p, xs, counts, room)
    ensures room > 0
    ensures Pick(p, Without(Pick(p, xs, counts, room), prior.id), Bump(counts, prior), room - 1)
         == Pick(p, Without(xs, prior.id), Bump(counts, prior), room - 1)
    decreases |xs| + 1, 0
  {
    PickMember(p, xs, counts, room, prior);
    var h, rest := xs[0], xs[1..];
    assert xs == [h] + rest;
    if h == prior {
      PickAgain(p, rest, Bump(counts, h), room - 1);
    } else {
      OtherId(xs, prior);
      if Full(p, counts, h) {
        FullPersists(p, counts, prior, h);
        PickReplaced(p, rest, counts, room, prior);
      } else {
        PickReplacedBehind(p, h, rest, counts, room, prior);
      }
    }
  }

  lemma {:induction false} PickReplacedBehind(p: ArchivePolicy, h: CandidateRecord, rest: Records, counts: Counts,
                                              room: nat, prior: CandidateRecord)
    requires DistinctIds(rest) && h.id != prior.id && !Full(p, counts, h) && room > 0
    requires prior in Pick(p, rest, Bump(counts, h), room - 1)
    ensures Pick(p, Without([h] + Pick(p, rest, Bump(counts, h), room - 1), prior.id), Bump(counts, prior), room - 1)
         == Pick(p, Without([h] + rest, prior.id), Bump(counts, prior), room - 1)
    decreases |rest| + 1, 1
  {
    var picked := Pick(p, rest, Bump(counts, h), room - 1);
    PickReplaced(p, rest, Bump(counts, h), room - 1, prior);
    RoomForBoth(p, h, rest, counts, room, prior);
    HeadReplaced(p, h, rest, counts, room - 1, prior);
    HeadReplaced(p, h, picked, counts, room - 1, prior);
  }
}
