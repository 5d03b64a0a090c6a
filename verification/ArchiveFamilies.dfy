/** Candidates that change their family: exactly when streaming still agrees with ranking
    everything ever offered, and the three ways in which it does not. */
module ArchiveFamilies {
  import opened Results
  import opened StableSort
  import opened ArchiveSelect
  import opened Archive
  import opened ArchiveStreaming
  import opened ArchiveRuns

  // -- room for one record ------------------------------------------------------------

  /** The records of xs that rank before r. */
  function Ahead(p: ArchivePolicy, xs: Records, r: CandidateRecord): Records {
    if |xs| == 0 then []
    else (if p.Before(xs[0], r) then [xs[0]] else []) + Ahead(p, xs[1..], r)
  }

  /** The records ahead of r leave no room for it, given that counts are spent already. */
  predicate CrowdedAt(p: ArchivePolicy, xs: Records, r: CandidateRecord, counts: Counts, room: nat) {
    || |Ahead(p, xs, r)| >= room
    || (p.familyLimit.Some? && r.family.Some?
        && CountOf(counts, r.family.value) + FamilyCount(Ahead(p, xs, r), r.family.value) >= p.familyLimit.value)
  }

  /** As many records as there is capacity rank ahead of r, or as many of its family as the
      limit allows. */
  predicate Crowded(p: ArchivePolicy, xs: Records, r: CandidateRecord) {
    CrowdedAt(p, xs, r, map[], p.capacity)
  }

  lemma {:induction false} NoneAhead(p: ArchivePolicy, xs: Records, r: CandidateRecord)
    requires forall i :: 0 <= i < |xs| ==> !p.Before(xs[i], r)
    ensures Ahead(p, xs, r) == []
  {
    if |xs| > 0 {
      NoneAhead(p, xs[1..], r);
    }
  }

  /** A record ahead of the whole list is crowded by nothing but what was spent before. */
  lemma CrowdedAtHead(p: ArchivePolicy, xs: Records, r: CandidateRecord, counts: Counts, room: nat)
    requires forall i :: 0 <= i < |xs| ==> !p.Before(xs[i], r)
    ensures CrowdedAt(p, xs, r, counts, room) <==> room == 0 || Full(p, counts, r)
  {
    NoneAhead(p, xs, r);
  }

  /** A picked head takes its slot and its family place away from those behind it. */
  lemma CrowdedBehind(p: ArchivePolicy, h: CandidateRecord, rest: Records, r: CandidateRecord, counts: Counts,
                      room: nat)
    requires p.Before(h, r) && room > 0
    ensures CrowdedAt(p, [h] + rest, r, counts, room) <==> CrowdedAt(p, rest, r, Bump(counts, h), room - 1)
  {
    var xs := [h] + rest;
    assert xs[0] == h && xs[1..] == rest;
    assert Ahead(p, xs, r) == [h] + Ahead(p, rest, r);
    if r.family.Some? {
      assert ([h] + Ahead(p, rest, r))[1..] == Ahead(p, rest, r);
    }
  }

  lemma BeforeRest(p: ArchivePolicy, xs: Records, r: CandidateRecord)
    requires |xs| > 0 && Sorted(xs, p.Rank()) && DistinctIds(xs) && r in xs[1..]
    ensures p.Before(xs[0], r) && r != xs[0]
  {
    var i :| 0 <= i < |xs[1..]| && xs[1..][i] == r;
    DistinctTotal(p, xs);
    assert p.Rank()(xs[0], xs[i + 1]);
  }

  lemma InsertedAtHead(p: ArchivePolicy, xs: Records, r: CandidateRecord, counts: Counts, room: nat)
    requires r !in xs && (|xs| == 0 || p.Before(r, xs[0]))
    ensures r in Pick(p, Insert(xs, r, p.Rank()), counts, room) <==> room > 0 && !Full(p, counts, r)
  {
    assert Insert(xs, r, p.Rank()) == [r] + xs;
    if room > 0 && !Full(p, counts, r) {
      PickHead(p, r, xs, counts, room);
    } else if r in Pick(p, [r] + xs, counts, room) {
      PickMember(p, [r] + xs, counts, room, r);
    }
  }

  lemma PickedAhead(p: ArchivePolicy, xs: Records, r: CandidateRecord, counts: Counts, room: nat)
    requires Sorted(xs, p.Rank()) && !HasId(xs, r.id) && (|xs| == 0 || p.Before(r, xs[0]))
    ensures r in Pick(p, Insert(xs, r, p.Rank()), counts, room) <==> !CrowdedAt(p, xs, r, counts, room)
  {
    forall i | 0 <= i < |xs| ensures !p.Before(xs[i], r) && xs[i] != r {
      assert xs[i].id != r.id;
      HeadFirst(p, xs, r, xs[i]);
    }
    CrowdedAtHead(p, xs, r, counts, room);
    InsertedAtHead(p, xs, r, counts, room);
  }

  lemma BehindHead(p: ArchivePolicy, xs: Records, r: CandidateRecord, counts: Counts, room: nat)
    requires |xs| > 0 && Sorted(xs, p.Rank()) && Pick(p, xs, counts, room) == xs
    requires !HasId(xs, r.id) && !p.Before(r, xs[0])
    ensures room > 0 && Sorted(xs[1..], p.Rank()) && !HasId(xs[1..], r.id)
    ensures Pick(p, xs[1..], Bump(counts, xs[0]), room - 1) == xs[1..]
    ensures CrowdedAt(p, xs, r, counts, room) <==> CrowdedAt(p, xs[1..], r, Bump(counts, xs[0]), room - 1)
    ensures r in Pick(p, Insert(xs, r, p.Rank()), counts, room)
       <==> r in Pick(p, Insert(xs[1..], r, p.Rank()), Bump(counts, xs[0]), room - 1)
  {
    var h, rest := xs[0], xs[1..];
    assert h in Pick(p, xs, counts, room) && h.id != r.id;
    PickMember(p, xs, counts, room, h);
    assert forall i :: 0 <= i < |rest| ==> rest[i] == xs[i + 1];
    assert xs == [h] + rest;
    CrowdedBehind(p, h, rest, r, counts, room);
    PickHead(p, h, Insert(rest, r, p.Rank()), counts, room);
  }

  /** A record is inserted into a selection successfully iff it is not crowded. */
  lemma {:induction false} InsertPicked(p: ArchivePolicy, xs: Records, r: CandidateRecord, counts: Counts, room: nat)
    requires Sorted(xs, p.Rank()) && !HasId(xs, r.id) && Pick(p, xs, counts, room) == xs
    ensures r in Pick(p, Insert(xs, r, p.Rank()), counts, room) <==> !CrowdedAt(p, xs, r, counts, room)
  {
    if |xs| == 0 || p.Before(r, xs[0]) {
      PickedAhead(p, xs, r, counts, room);
    } else {
      BehindHead(p, xs, r, counts, room);
      InsertPicked(p, xs[1..], r, Bump(counts, xs[0]), room - 1);
    }
  }

  lemma RestOf(p: ArchivePolicy, xs: Records)
    requires |xs| > 0 && Sorted(xs, p.Rank()) && DistinctIds(xs)
    ensures xs == [xs[0]] + xs[1..] && Sorted(xs[1..], p.Rank()) && DistinctIds(xs[1..])
  {
    assert forall i :: 0 <= i < |xs[1..]| ==> xs[1..][i] == xs[i + 1];
  }

  lemma CrowdedBehindHead(p: ArchivePolicy, xs: Records, r: CandidateRecord, counts: Counts, room: nat)
    requires |xs| > 0 && room > 0 && !Full(p, counts, xs[0]) && p.Before(xs[0], r)
    requires var picked := Pick(p, xs[1..], Bump(counts, xs[0]), room - 1);
             CrowdedAt(p, picked, r, Bump(counts, xs[0]), room - 1)
    ensures CrowdedAt(p, Pick(p, xs, counts, room), r, counts, room)
  {
    CrowdedBehind(p, xs[0], Pick(p, xs[1..], Bump(counts, xs[0]), room - 1), r, counts, room);
  }

  lemma PickedBehind(p: ArchivePolicy, xs: Records, counts: Counts, room: nat)
    requires |xs| > 0 && Sorted(xs, p.Rank())
    ensures forall i :: 0 <= i < |Pick(p, xs, counts, room)| ==> !p.Before(Pick(p, xs, counts, room)[i], xs[0])
  {
    var picked := Pick(p, xs, counts, room);
    forall i | 0 <= i < |picked| ensures !p.Before(picked[i], xs[0]) {
      PickMember(p, xs, counts, room, picked[i]);
      var j :| 0 <= j < |xs| && xs[j] == picked[i];
      assert j > 0 ==> !p.Rank()(xs[j], xs[0]);
    }
  }

  /** What a selection passes over is crowded by what it takes. */
  lemma {:induction false} PassedIsCrowded(p: ArchivePolicy, xs: Records, r: CandidateRecord, counts: Counts, room: nat)
    requires Sorted(xs, p.Rank()) && DistinctIds(xs) && r in xs && r !in Pick(p, xs, counts, room)
    ensures CrowdedAt(p, Pick(p, xs, counts, room), r, counts, room)
  {
    if room > 0 {
      var h, rest := xs[0], xs[1..];
      RestOf(p, xs);
      if !Full(p, counts, h) {
        assert r in rest && r !in Pick(p, rest, Bump(counts, h), room - 1);
        PassedIsCrowded(p, rest, r, Bump(counts, h), room - 1);
        BeforeRest(p, xs, r);
        CrowdedBehindHead(p, xs, r, counts, room);
      } else if r == h {
        PickedBehind(p, xs, counts, room);
        CrowdedAtHead(p, Pick(p, xs, counts, room), r, counts, room);
      } else {
        PassedIsCrowded(p, rest, r, counts, room);
      }
    }
  }

  /** Every element of the one list stands in the other. */
  ghost predicate Within(t: Records, xs: Records) {
    forall r :: r in t ==> r in xs
  }

  /** The first of a ranked list is the first of any ranked part of it that has it. */
  lemma HeadOfBoth(p: ArchivePolicy, xs: Records, t: Records)
    requires |xs| > 0 && Sorted(xs, p.Rank()) && DistinctIds(xs) && Sorted(t, p.Rank()) && DistinctIds(t) &&
              Within(t, xs) && xs[0] in t
    ensures t[0] == xs[0]
  {
    var i :| 0 <= i < |t| && t[i] == xs[0];
    assert i > 0 ==> !p.Rank()(t[i], t[0]);
    assert t[0] in t && t[0] in xs;
    var j :| 0 <= j < |xs| && xs[j] == t[0];
    DistinctTotal(p, xs);
  }

  lemma WithoutFirst(p: ArchivePolicy, xs: Records, t: Records, counts: Counts, room: nat)
    requires |xs| > 0 && |t| > 0 && t[0] == xs[0] && room > 0 && !Full(p, counts, t[0])
    requires DistinctIds(xs) && DistinctIds(t) && Within(t, xs) && Pick(p, t, counts, room) == t
    ensures DistinctIds(t[1..]) && Within(t[1..], xs[1..]) && Pick(p, t[1..], Bump(counts, t[0]), room - 1) == t[1..]
  {
    var rest := Pick(p, t[1..], Bump(counts, t[0]), room - 1);
    assert t == [t[0]] + rest && t[1..] == rest;
    forall r | r in t[1..] ensures r in xs[1..] {
      var i :| 0 <= i < |t[1..]| && t[1..][i] == r;
      assert r == t[i + 1] && r in t && r in xs;
      var j :| 0 <= j < |xs| && xs[j] == r;
      assert r.id != t[0].id;
      assert xs[1..][j - 1] == r;
    }
    assert forall i :: 0 <= i < |t[1..]| ==> t[1..][i] == t[i + 1];
  }

  lemma {:induction false} PassedHead(p: ArchivePolicy, xs: Records, t: Records, counts: Counts, room: nat)
    requires |xs| > 0 && room > 0 && xs[0] !in t
    requires Sorted(xs, p.Rank()) && DistinctIds(xs) && Sorted(t, p.Rank()) && DistinctIds(t) && Within(t, xs)
    requires Pick(p, t, counts, room) == t
    requires forall r :: r in xs && r !in t ==> CrowdedAt(p, t, r, counts, room)
    ensures Pick(p, xs, counts, room) == t
    decreases |xs|, 0
  {
    var h, rest := xs[0], xs[1..];
    assert xs == [h] + rest;
    assert forall i :: 0 <= i < |rest| ==> rest[i] == xs[i + 1];
    forall i | 0 <= i < |t| ensures !p.Before(t[i], h) {
      assert t[i] in t && t[i] in rest;
      BeforeRest(p, xs, t[i]);
    }
    CrowdedAtHead(p, t, h, counts, room);
    CrowdingIsPick(p, rest, t, counts, room);
  }

  /** A selection that crowds everything else of a list is the selection from that list. */
  lemma {:induction false} CrowdingIsPick(p: ArchivePolicy, xs: Records, t: Records, counts: Counts, room: nat)
    requires Sorted(xs, p.Rank()) && DistinctIds(xs) && Sorted(t, p.Rank()) && DistinctIds(t) && Within(t, xs)
    requires Pick(p, t, counts, room) == t
    requires forall r :: r in xs && r !in t ==> CrowdedAt(p, t, r, counts, room)
    ensures Pick(p, xs, counts, room) == t
    decreases |xs|, 1
  {
    if |xs| == 0 {
      if |t| > 0 {
        HasMember(t);
      }
    } else if room > 0 {
      if xs[0] in t {
        TakenHead(p, xs, t, counts, room);
      } else {
        PassedHead(p, xs, t, counts, room);
      }
    }
  }

  lemma {:induction false} TakenHead(p: ArchivePolicy, xs: Records, t: Records, counts: Counts, room: nat)
    requires |xs| > 0 && room > 0 && xs[0] in t
    requires Sorted(xs, p.Rank()) && DistinctIds(xs) && Sorted(t, p.Rank()) && DistinctIds(t) && Within(t, xs)
    requires Pick(p, t, counts, room) == t
    requires forall r :: r in xs && r !in t ==> CrowdedAt(p, t, r, counts, room)
    ensures Pick(p, xs, counts, room) == t
    decreases |xs|, 0
  {
    var h, rest := xs[0], xs[1..];
    HeadOfBoth(p, xs, t);
    var more := t[1..];
    assert t == [h] + more && xs == [h] + rest;
    PickMember(p, t, counts, room, h);
    WithoutFirst(p, xs, t, counts, room);
    assert forall i :: 0 <= i < |rest| ==> rest[i] == xs[i + 1];
    assert forall i :: 0 <= i < |more| ==> more[i] == t[i + 1];
    forall r | r in rest && r !in more ensures CrowdedAt(p, more, r, Bump(counts, h), room - 1) {
      BeforeRest(p, xs, r);
      assert r in xs && r !in t;
      CrowdedBehind(p, h, more, r, counts, room);
    }
    CrowdingIsPick(p, rest, more, Bump(counts, h), room - 1);
  }

  // -- a better version put in the place of the old one -------------------------------------

  /** xs without its last record of the family. */
  function DropLast(xs: Records, family: string): Records {
    if |xs| == 0 then []
    else if xs[0].family == Some(family) && FamilyCount(xs[1..], family) == 0 then xs[1..]
    else [xs[0]] + DropLast(xs[1..], family)
  }

  /** With x, its family has one record more than the limit allows. */
  predicate Overfull(p: ArchivePolicy, xs: Records, x: CandidateRecord, counts: Counts) {
    && p.familyLimit.Some? && x.family.Some?
    && CountOf(counts, x.family.value) + FamilyCount(xs, x.family.value) >= p.familyLimit.value
  }

  /** x among the ranked others, less the last record of its family when that is overfull. */
  function Squeezed(p: ArchivePolicy, xs: Records, x: CandidateRecord, counts: Counts): Records {
    var all := Insert(xs, x, p.Rank());
    if Overfull(p, xs, x, counts) then DropLast(all, x.family.value) else all
  }

  /** The selected records with x in the place of its old version. */
  function Updated(p: ArchivePolicy, sel: Records, x: CandidateRecord): Records {
    Squeezed(p, Without(sel, x.id), x, map[])
  }

  lemma CountCons(h: CandidateRecord, rest: Records, f: string)
    ensures FamilyCount([h] + rest, f) == (if h.family == Some(f) then 1 else 0) + FamilyCount(rest, f)
  {
    assert ([h] + rest)[1..] == rest;
  }

  lemma DropCons(h: CandidateRecord, rest: Records, f: string)
    ensures DropLast([h] + rest, f)
         == if h.family == Some(f) && FamilyCount(rest, f) == 0 then rest else [h] + DropLast(rest, f)
  {
    assert ([h] + rest)[1..] == rest;
  }

  /** A list that is picked whole, taken apart. */
  lemma PickedCons(p: ArchivePolicy, xs: Records, counts: Counts, room: nat)
    requires |xs| > 0 && Pick(p, xs, counts, room) == xs
    ensures room > 0 && !Full(p, counts, xs[0]) && xs == [xs[0]] + xs[1..]
    ensures Pick(p, xs[1..], Bump(counts, xs[0]), room - 1) == xs[1..]
  {
    assert xs[0] in Pick(p, xs, counts, room);
    PickMember(p, xs, counts, room, xs[0]);
  }

  /** One slot and one family place less: everything is still picked while the family has room ... */
  lemma {:induction false} SpentKeeps(p: ArchivePolicy, xs: Records, counts: Counts, room: nat, x: CandidateRecord)
    requires Pick(p, xs, counts, room) == xs && |xs| < room && !Overfull(p, xs, x, counts)
    ensures Pick(p, xs, Bump(counts, x), room - 1) == xs
  {
    if |xs| > 0 {
      var h, rest := xs[0], xs[1..];
      PickedCons(p, xs, counts, room);
      assert !Full(p, Bump(counts, x), h);
      BumpCommutes(counts, x, h);
      SpentKeeps(p, rest, Bump(counts, h), room - 1, x);
    }
  }

  /** ... and otherwise everything but the last record of the family. */
  lemma {:induction false} SpentDrops(p: ArchivePolicy, xs: Records, counts: Counts, room: nat, x: CandidateRecord)
    requires Pick(p, xs, counts, room) == xs && |xs| < room && Overfull(p, xs, x, counts) && !Full(p, counts, x)
    ensures Pick(p, xs, Bump(counts, x), room - 1) == DropLast(xs, x.family.value)
  {
    var f := x.family.value;
    PickedFits(p, xs, counts, room, f);
    var h, rest := xs[0], xs[1..];
    PickedCons(p, xs, counts, room);
    if Full(p, Bump(counts, x), h) {
      assert h.family == x.family && Bump(counts, x) == Bump(counts, h);
      PickedFits(p, rest, Bump(counts, h), room - 1, f);
    } else {
      BumpCommutes(counts, x, h);
      SpentDrops(p, rest, Bump(counts, h), room - 1, x);
      PickHead(p, h, rest, Bump(counts, x), room - 1);
    }
  }

  lemma SqueezesAhead(p: ArchivePolicy, xs: Records, x: CandidateRecord, counts: Counts, room: nat)
    requires Sorted(xs, p.Rank()) && !HasId(xs, x.id) && Pick(p, xs, counts, room) == xs && |xs| < room
    requires !CrowdedAt(p, xs, x, counts, room) && (|xs| == 0 || p.Before(x, xs[0]))
    ensures Pick(p, Insert(xs, x, p.Rank()), counts, room) == Squeezed(p, xs, x, counts)
  {
    PickedAhead(p, xs, x, counts, room);
    assert Insert(xs, x, p.Rank()) == [x] + xs;
    PickMember(p, [x] + xs, counts, room, x);
    PickHead(p, x, xs, counts, room);
    if Overfull(p, xs, x, counts) {
      SpentDrops(p, xs, counts, room, x);
      DropCons(x, xs, x.family.value);
    } else {
      SpentKeeps(p, xs, counts, room, x);
    }
  }

  lemma {:induction false} InsertedCount(p: ArchivePolicy, xs: Records, x: CandidateRecord)
    requires x.family.Some?
    ensures FamilyCount(Insert(xs, x, p.Rank()), x.family.value) > 0
  {
    if |xs| == 0 || p.Before(x, xs[0]) {
      CountCons(x, xs, x.family.value);
    } else {
      InsertedCount(p, xs[1..], x);
      CountCons(xs[0], Insert(xs[1..], x, p.Rank()), x.family.value);
    }
  }

  lemma SqueezedBehind(p: ArchivePolicy, h: CandidateRecord, rest: Records, x: CandidateRecord, counts: Counts,
                       room: nat)
    requires room > 0 && !Full(p, counts, h) && !p.Before(x, h)
    requires Pick(p, Insert(rest, x, p.Rank()), Bump(counts, h), room - 1) == Squeezed(p, rest, x, Bump(counts, h))
    ensures Pick(p, Insert([h] + rest, x, p.Rank()), counts, room) == Squeezed(p, [h] + rest, x, counts)
  {
    var tail := Insert(rest, x, p.Rank());
    assert ([h] + rest)[1..] == rest;
    assert Insert([h] + rest, x, p.Rank()) == [h] + tail;
    PickHead(p, h, tail, counts, room);
    if x.family.Some? {
      CountCons(h, rest, x.family.value);
      InsertedCount(p, rest, x);
      DropCons(h, tail, x.family.value);
    }
  }

  /** A record with room among the selected is selected, and squeezes out at most the last
      record of its family. */
  lemma {:induction false} InsertSqueezes(p: ArchivePolicy, xs: Records, x: CandidateRecord, counts: Counts, room: nat)
    requires Sorted(xs, p.Rank()) && !HasId(xs, x.id) && Pick(p, xs, counts, room) == xs && |xs| < room
    requires !CrowdedAt(p, xs, x, counts, room)
    ensures Pick(p, Insert(xs, x, p.Rank()), counts, room) == Squeezed(p, xs, x, counts)
  {
    if |xs| == 0 || p.Before(x, xs[0]) {
      SqueezesAhead(p, xs, x, counts, room);
    } else {
      BehindHead(p, xs, x, counts, room);
      PickedCons(p, xs, counts, room);
      InsertSqueezes(p, xs[1..], x, Bump(counts, xs[0]), room - 1);
      SqueezedBehind(p, xs[0], xs[1..], x, counts, room);
    }
  }

  // -- one more offer ---------------------------------------------------------------------

  /** What decides, before a better version x of a selected record is offered: x has room
      without the old version, and nothing passed over so far has room beside the selected
      records with x in the place of the old version. */
  ghost predicate Replaces(p: ArchivePolicy, best: Records, sel: Records, x: CandidateRecord) {
    && !Crowded(p, Without(sel, x.id), x)
    && forall r :: r in best && r !in sel ==> Crowded(p, Updated(p, sel, x), r)
  }

  /** When the archive that holds the selection from the best records of all offers so far
      holds it also after the offer of x. */
  ghost predicate Agrees(p: ArchivePolicy, best: Records, x: CandidateRecord) {
    var sel, known := Select(p, best), Find(best, x.id);
    if !p.Scored(x) || known.None? then true
    else if p.Better(x, known.value) then known.value in sel ==> Replaces(p, best, sel, x)
    else known.value in sel || Crowded(p, sel, x)
  }

  /** s and sel as in Ranked, with what the members of s are. */
  ghost predicate Known(p: ArchivePolicy, best: Records, s: Records, sel: Records, known: CandidateRecord,
                        x: CandidateRecord) {
    && Ranked(p, best, s, sel, x) && DistinctIds(sel) && Sorted(sel, p.Rank()) && Within(sel, s)
    && (forall r :: r in s <==> r in best)
    && known in s && known.id == x.id && p.Scored(x) && Find(best, x.id) == Some(known)
    && forall r :: r in s && r.id == x.id ==> r == known
  }

  lemma KnownFacts(p: ArchivePolicy, best: Records, x: CandidateRecord)
    requires DistinctIds(best) && AllScored(p, best) && p.Scored(x) && HasId(best, x.id)
    ensures Known(p, best, Sort(best, p.Rank()), Select(p, best), Find(best, x.id).value, x)
  {
    var s, sel, known := Sort(best, p.Rank()), Select(p, best), Find(best, x.id).value;
    RankedFacts(p, best, x);
    SelectSettled(p, best);
    forall r ensures r in s <==> r in best {
      SortMember(best, p.Rank(), r);
    }
    forall r | r in s && r.id == x.id ensures r == known {
      SameIdSame(best, r, known);
    }
  }

  /** The selection after x is put in has x's id iff it has x. */
  lemma PutPicked(p: ArchivePolicy, sel: Records, rest: Records, x: CandidateRecord)
    requires Select(p, Put(sel, x)) == Pick(p, Insert(rest, x, p.Rank()), map[], p.capacity) && !HasId(rest, x.id)
    ensures HasId(Select(p, Put(sel, x)), x.id) <==> x in Select(p, Put(sel, x))
  {
    var after := Select(p, Put(sel, x));
    if HasId(after, x.id) {
      var i :| 0 <= i < |after| && after[i].id == x.id;
      PickMember(p, Insert(rest, x, p.Rank()), map[], p.capacity, after[i]);
      InsertMember(rest, x, p.Rank(), after[i]);
    }
    if x in after {
      MemberHasId(after, x);
    }
  }

  /** An offer whose id is not selected. */
  lemma UnselectedOffer(p: ArchivePolicy, best: Records, s: Records, sel: Records, known: CandidateRecord,
                        x: CandidateRecord)
    requires Known(p, best, s, sel, known, x) && known !in sel
    ensures !HasId(sel, x.id) && Find(sel, x.id).None?
    ensures Find(Select(p, Put(sel, x)), x.id).Some? <==> !Crowded(p, sel, x)
  {
    assert !HasId(sel, x.id) by {
      assert forall i :: 0 <= i < |sel| ==> sel[i] in sel && sel[i] in s;
    }
    WithoutAbsent(sel, x.id);
    InsertPicked(p, sel, x, map[], p.capacity);
    PutPicked(p, sel, sel, x);
  }

  /** Not better than the version known so far. */
  lemma WorseAgrees(p: ArchivePolicy, best: Records, s: Records, sel: Records, known: CandidateRecord,
                    x: CandidateRecord)
    requires Known(p, best, s, sel, known, x) && !p.Better(x, known) && sel == Select(p, best)
    ensures Offered(p, sel, x) == sel <==> known in sel || Crowded(p, sel, x)
  {
    if known in sel {
      MemberHasId(sel, known);
      var found := Find(sel, x.id).value;
      assert found in s;
    } else {
      UnselectedOffer(p, best, s, sel, known, x);
    }
  }

  /** Better than a known version that is not selected: the old version does not matter. */
  lemma BetterUnselected(p: ArchivePolicy, best: Records, s: Records, sel: Records, known: CandidateRecord,
                         x: CandidateRecord)
    requires Known(p, best, s, sel, known, x) && p.Better(x, known) && known !in sel
    ensures Offered(p, sel, x) == Select(p, Put(best, x))
  {
    UnselectedOffer(p, best, s, sel, known, x);
    PassedOver(p, s, sel, x);
  }

  /** Both ranked lists with x in the place of its old version. */
  ghost predicate Swapped(p: ArchivePolicy, s: Records, sel: Records, x: CandidateRecord, u: Records, v: Records) {
    && u == Insert(Without(s, x.id), x, p.Rank()) && v == Insert(Without(sel, x.id), x, p.Rank())
    && Sorted(u, p.Rank()) && DistinctIds(u) && Sorted(v, p.Rank()) && DistinctIds(v) && Within(v, u)
    && (forall r :: r in u <==> r == x || (r in s && r.id != x.id))
    && (forall r :: r in v <==> r == x || (r in sel && r.id != x.id))
  }

  lemma InsertedFacts(p: ArchivePolicy, s: Records, x: CandidateRecord)
    requires DistinctIds(s) && Sorted(s, p.Rank())
    ensures var u := Insert(Without(s, x.id), x, p.Rank());
            Sorted(u, p.Rank()) && DistinctIds(u) && forall r :: r in u <==> r == x || (r in s && r.id != x.id)
  {
    RankIsWeak(p);
    WithoutShape(p, s, x.id);
    InsertSorted(Without(s, x.id), x, p.Rank());
    InsertDistinct(p, Without(s, x.id), x);
    forall r ensures r in Insert(Without(s, x.id), x, p.Rank()) <==> r == x || (r in s && r.id != x.id) {
      InsertMember(Without(s, x.id), x, p.Rank(), r);
      WithoutMember(s, x.id, r);
    }
  }

  lemma SwappedFacts(p: ArchivePolicy, s: Records, sel: Records, x: CandidateRecord)
    requires DistinctIds(s) && Sorted(s, p.Rank()) && DistinctIds(sel) && Sorted(sel, p.Rank()) && Within(sel, s)
    ensures Swapped(p, s, sel, x, Insert(Without(s, x.id), x, p.Rank()), Insert(Without(sel, x.id), x, p.Rank()))
  {
    InsertedFacts(p, s, x);
    InsertedFacts(p, sel, x);
  }

  /** The selections from the longer and the shorter list agree iff the latter crowds
      whatever the former has more. */
  lemma SamePickIff(p: ArchivePolicy, u: Records, v: Records)
    requires Sorted(u, p.Rank()) && DistinctIds(u) && Sorted(v, p.Rank()) && DistinctIds(v) && Within(v, u)
    ensures var t := Pick(p, v, map[], p.capacity);
            Pick(p, u, map[], p.capacity) == t <==> forall r :: r in u && r !in v ==> Crowded(p, t, r)
  {
    var none: Counts, t := map[], Pick(p, v, map[], p.capacity);
    PickSorted(p, v, none, p.capacity);
    PickDistinct(p, v, none, p.capacity);
    PickAgain(p, v, none, p.capacity);
    forall r | r in t ensures r in v && r in u {
      PickMember(p, v, none, p.capacity, r);
    }
    forall r | r in v && r !in t ensures Crowded(p, t, r) {
      PassedIsCrowded(p, v, r, none, p.capacity);
    }
    if Pick(p, u, none, p.capacity) == t {
      forall r | r in u && r !in v ensures Crowded(p, t, r) {
        PassedIsCrowded(p, u, r, none, p.capacity);
      }
    } else if forall r :: r in u && r !in v ==> Crowded(p, t, r) {
      CrowdingIsPick(p, u, t, none, p.capacity);
    }
  }

  /** Better than a selected version: the offer finds room, or it is turned away. */
  lemma SelectedOffer(p: ArchivePolicy, best: Records, s: Records, sel: Records, known: CandidateRecord,
                      x: CandidateRecord)
    requires Known(p, best, s, sel, known, x) && p.Better(x, known) && known in sel
    ensures Find(sel, x.id) == Some(known)
    ensures Offered(p, sel, x) == if Crowded(p, Without(sel, x.id), x) then sel else Select(p, Put(sel, x))
  {
    MemberHasId(sel, known);
    assert Find(sel, x.id).value in s;
    var rest := Without(sel, x.id);
    WithoutShape(p, sel, x.id);
    WithoutSelfPicked(p, sel, map[], p.capacity, x.id);
    InsertPicked(p, rest, x, map[], p.capacity);
    PutPicked(p, sel, rest, x);
  }

  lemma {:induction false} WithoutOne(xs: Records, id: nat)
    requires HasId(xs, id)
    ensures |Without(xs, id)| == |xs| - 1
  {
    if xs[0].id != id {
      var i :| 0 <= i < |xs| && xs[i].id == id;
      assert xs[1..][i - 1] == xs[i];
      WithoutOne(xs[1..], id);
    }
  }

  /** What the archive holds after such an offer, in terms of what it held before. */
  lemma UpdatedIsSelected(p: ArchivePolicy, sel: Records, x: CandidateRecord)
    requires Settled(p, sel) && Sorted(sel, p.Rank()) && HasId(sel, x.id) && !Crowded(p, Without(sel, x.id), x)
    ensures Select(p, Put(sel, x)) == Updated(p, sel, x)
  {
    var rest := Without(sel, x.id);
    RankedFacts(p, sel, x);
    SortFixed(sel, p.Rank());
    WithoutShape(p, sel, x.id);
    WithoutSelfPicked(p, sel, map[], p.capacity, x.id);
    WithoutOne(sel, x.id);
    InsertSqueezes(p, rest, x, map[], p.capacity);
  }

  /** What the longer list has more is what was passed over so far. */
  lemma PassedOverAre(p: ArchivePolicy, best: Records, s: Records, sel: Records, known: CandidateRecord,
                      x: CandidateRecord, u: Records, v: Records)
    requires Known(p, best, s, sel, known, x) && known in sel && Swapped(p, s, sel, x, u, v)
    ensures forall r :: (r in u && r !in v) <==> (r in best && r !in sel)
  {
    forall r ensures (r in u && r !in v) <==> (r in best && r !in sel) {
      assert r in best <==> r in s;
    }
  }

  lemma BetterSelected(p: ArchivePolicy, best: Records, s: Records, sel: Records, known: CandidateRecord,
                       x: CandidateRecord)
    requires Known(p, best, s, sel, known, x) && p.Better(x, known) && known in sel && Settled(p, sel)
    ensures Offered(p, sel, x) == Select(p, Put(best, x)) <==> Replaces(p, best, sel, x)
  {
    var u, v := Insert(Without(s, x.id), x, p.Rank()), Insert(Without(sel, x.id), x, p.Rank());
    SelectedOffer(p, best, s, sel, known, x);
    SwappedFacts(p, s, sel, x);
    if Crowded(p, Without(sel, x.id), x) {
      if known in Pick(p, u, map[], p.capacity) {
        PickMember(p, u, map[], p.capacity, known);
      }
    } else {
      UpdatedIsSelected(p, sel, x);
      SamePickIff(p, u, v);
      PassedOverAre(p, best, s, sel, known, x, u, v);
    }
  }

  /** One more offer, against the whole history: exactly when the archive still holds the
      selection from the best record of every id. */
  lemma OfferAgreesIff(p: ArchivePolicy, best: Records, x: CandidateRecord)
    requires DistinctIds(best) && AllScored(p, best)
    ensures Offered(p, Select(p, best), x) == Select(p, Kept(p, best, x)) <==> Agrees(p, best, x)
  {
    if p.Scored(x) {
      var s, sel := Sort(best, p.Rank()), Select(p, best);
      if HasId(best, x.id) {
        var known := Find(best, x.id).value;
        KnownFacts(p, best, x);
        SelectSettled(p, best);
        if !p.Better(x, known) {
          WorseAgrees(p, best, s, sel, known, x);
        } else if known in sel {
          BetterSelected(p, best, s, sel, known, x);
        } else {
          BetterUnselected(p, best, s, sel, known, x);
        }
      } else {
        OfferStep(p, best, x);
      }
    }
  }

  ghost predicate StreamsLikeBatch(p: ArchivePolicy, history: Records) {
    Run(p, history) == Select(p, Best(p, history))
  }

  ghost predicate AgreesAt(p: ArchivePolicy, history: Records, k: nat)
    requires k < |history|
  {
    Agrees(p, Best(p, history[..k]), history[k])
  }

  lemma RunMore(p: ArchivePolicy, history: Records, x: CandidateRecord)
    ensures Run(p, history + [x]) == Offered(p, Run(p, history), x)
    ensures Best(p, history + [x]) == Kept(p, Best(p, history), x)
  {
    assert (history + [x])[..|history|] == history;
  }

  lemma NextAgreesIff(p: ArchivePolicy, history: Records, k: nat)
    requires k < |history| && StreamsLikeBatch(p, history[..k])
    ensures StreamsLikeBatch(p, history[..k + 1]) <==> AgreesAt(p, history, k)
  {
    assert history[..k + 1] == history[..k] + [history[k]];
    RunMore(p, history[..k], history[k]);
    BestFacts(p, history[..k]);
    OfferAgreesIff(p, Best(p, history[..k]), history[k]);
  }

  lemma {:induction false} AgreeingStreams(p: ArchivePolicy, history: Records, n: nat)
    requires n <= |history| && forall k: nat :: k < n ==> AgreesAt(p, history, k)
    ensures StreamsLikeBatch(p, history[..n])
  {
    if n == 0 {
      assert history[..0] == [];
      SelectSettled(p, []);
    } else {
      AgreeingStreams(p, history, n - 1);
      assert AgreesAt(p, history, n - 1);
      NextAgreesIff(p, history, n - 1);
    }
  }

  /** Streaming agrees with batch all along a history iff every offer meets the condition. */
  lemma RunAgreesIff(p: ArchivePolicy, history: Records)
    ensures (forall k: nat :: k <= |history| ==> StreamsLikeBatch(p, history[..k]))
       <==> (forall k: nat :: k < |history| ==> AgreesAt(p, history, k))
  {
    if forall k: nat :: k <= |history| ==> StreamsLikeBatch(p, history[..k]) {
      forall k: nat | k < |history| ensures AgreesAt(p, history, k) {
        assert StreamsLikeBatch(p, history[..k]) && StreamsLikeBatch(p, history[..k + 1]);
        NextAgreesIff(p, history, k);
      }
    }
    if forall k: nat :: k < |history| ==> AgreesAt(p, history, k) {
      forall k: nat | k <= |history| ensures StreamsLikeBatch(p, history[..k]) {
        AgreeingStreams(p, history, k);
      }
    }
  }

  /** With one family an id the condition always holds. */
  lemma SameFamilyAgrees(p: ArchivePolicy, best: Records, x: CandidateRecord)
    requires DistinctIds(best) && AllScored(p, best)
    requires forall r :: r in best && r.id == x.id ==> r.family == x.family
    ensures Agrees(p, best, x)
  {
    OfferStep(p, best, x);
    OfferAgreesIff(p, best, x);
  }

  // -- the three ways to disagree --------------------------------------------------------------

  const SMALL := ArchivePolicy(2, "s", true, Some(1))

  function Scoring(id: nat, family: string, score: real): CandidateRecord {
    CandidateRecord(id, map["s" := score], Some(family), "")
  }

  lemma SelectOne(p: ArchivePolicy, a: CandidateRecord)
    requires p.familyLimit == Some(1) && p.capacity > 0
    ensures Sort([a], p.Rank()) == [a] && Select(p, [a]) == [a]
  {
    var one := [a];
    assert one[..0] == [] && one[0] == a;
    assert Sort(one, p.Rank()) == Insert([], a, p.Rank());
    PickHead(p, a, [], map[], p.capacity);
    SelectIsPick(p, one);
  }

  lemma OneOffer(a: CandidateRecord)
    requires SMALL.Scored(a) && a.family.Some?
    ensures Run(SMALL, [a]) == [a] == Best(SMALL, [a])
  {
    RunMore(SMALL, [], a);
    assert [] + [a] == [a];
    SelectOne(SMALL, a);
  }

  lemma PutSecond(a: CandidateRecord, b: CandidateRecord)
    requires a.id != b.id
    ensures Put([a], b) == [a, b]
  {
    assert [a][1..] == [];
  }

  lemma SelectPair(p: ArchivePolicy, a: CandidateRecord, b: CandidateRecord)
    requires p.familyLimit == Some(1) && p.capacity == 2 && a.family.Some? && b.family.Some?
    ensures var (x, y) := if p.Before(b, a) then (b, a) else (a, b);
            Select(p, [a, b]) == if x.family == y.family then [x] else [x, y]
  {
    var two := [a, b];
    var (x, y) := if p.Before(b, a) then (b, a) else (a, b);
    SelectOne(p, a);
    assert two[..1] == [a];
    assert Sort(two, p.Rank()) == Insert([a], b, p.Rank());
    assert Insert([a], b, p.Rank()) == [x] + [y];
    PickHead(p, x, [y], map[], 2);
    assert [y][1..] == [];
    assert Pick(p, [y], Bump(map[], x), 1) == if x.family == y.family then [] else [y];
    SelectIsPick(p, two);
  }

  /** A new id: the archive selects from its record and the new one. */
  lemma SecondOffer(a: CandidateRecord, b: CandidateRecord)
    requires SMALL.Scored(a) && SMALL.Scored(b) && a.family.Some? && b.family.Some? && a.id != b.id
    ensures Best(SMALL, [a, b]) == [a, b]
    ensures Run(SMALL, [a, b]) == if a.family != b.family then (if SMALL.Before(b, a) then [b, a] else [a, b])
                                  else if SMALL.Before(b, a) then [b] else [a]
  {
    OneOffer(a);
    RunMore(SMALL, [a], b);
    assert [a] + [b] == [a, b];
    PutSecond(a, b);
    SelectPair(SMALL, a, b);
  }

  lemma PutInPair(a: CandidateRecord, b: CandidateRecord, x: CandidateRecord)
    requires a.id != b.id && x.id in {a.id, b.id}
    ensures Put([a, b], x) == if a.id == x.id then [x, b] else [a, x]
  {
    assert [a, b][1..] == [b] && [b][1..] == [];
    assert Put([b], x) == if b.id == x.id then [x] else [b, x];
  }

  /** A better version that moves to a full family is turned away and the old one stays. */
  lemma TurnedAway()
    ensures var a, b, x := Scoring(1, "f", 1.0), Scoring(2, "g", 5.0), Scoring(1, "g", 3.0);
            Run(SMALL, [a, b, x]) == [b, a] && Select(SMALL, Best(SMALL, [a, b, x])) == [b]
  {
    var a, b, x := Scoring(1, "f", 1.0), Scoring(2, "g", 5.0), Scoring(1, "g", 3.0);
    SecondOffer(a, b);
    RunMore(SMALL, [a, b], x);
    assert [a, b] + [x] == [a, b, x];
    PutInPair(b, a, x);
    PutInPair(a, b, x);
    SelectPair(SMALL, b, x);
    SelectPair(SMALL, x, b);
  }

  /** A better version moves away, and the record that its old family had kept out is gone. */
  lemma PlaceNotGivenBack()
    ensures var a, b, x := Scoring(1, "f", 5.0), Scoring(2, "f", 4.0), Scoring(1, "g", 6.0);
            Run(SMALL, [a, b, x]) == [x] && Select(SMALL, Best(SMALL, [a, b, x])) == [x, b]
  {
    var a, b, x := Scoring(1, "f", 5.0), Scoring(2, "f", 4.0), Scoring(1, "g", 6.0);
    SecondOffer(a, b);
    RunMore(SMALL, [a, b], x);
    assert [a, b] + [x] == [a, b, x];
    assert Put([a], x) == [x] by { assert [a][1..] == []; }
    PutInPair(a, b, x);
    SelectOne(SMALL, x);
    SelectPair(SMALL, x, b);
  }

  /** A worse version of a record that was passed over is retained under its new family. */
  lemma WorseVersionRetained()
    ensures var a, b, x := Scoring(1, "f", 5.0), Scoring(2, "f", 4.0), Scoring(2, "g", 3.0);
            Run(SMALL, [a, b, x]) == [a, x] && Select(SMALL, Best(SMALL, [a, b, x])) == [a]
  {
    var a, b, x := Scoring(1, "f", 5.0), Scoring(2, "f", 4.0), Scoring(2, "g", 3.0);
    SecondOffer(a, b);
    RunMore(SMALL, [a, b], x);
    assert [a, b] + [x] == [a, b, x];
    PutSecond(a, x);
    SelectPair(SMALL, a, x);
    SelectPair(SMALL, a, b);
    assert Find([a, b], 2) == Some(b);
  }
}
