/** Runs of the campaign: sessions that walk the plan and append, crashes that may cut
    the append in progress, and resumes that repair the log and go on. */
module CampaignRuns {
  import opened Results
  import opened CampaignLog
  import opened Sequences

  datatype Session = Session(records: seq<Record>, next: nat)

  /** The file, and the running session unless the machine is down. */
  datatype State = State(content: seq<Byte>, session: Option<Session>)

  /** k bytes of an append's line reach the file before a crash. */
  datatype Step =
    | Skip                        // the planned trial is already completed
    | Append(record: Record)
    | CrashIdle
    | CrashAppending(record: Record, k: nat)
    | Resume

  datatype Campaign = Campaign(codec: Codec, plan: seq<string>) {
    ghost predicate Valid() {
      Lawful(codec) && forall i, j :: 0 <= i < j < |plan| ==> plan[i] != plan[j]
    }
  }

  predicate Completed(records: seq<Record>, id: string) {
    exists i :: 0 <= i < |records| && records[i].trialId == id
  }

  ghost predicate Planned(m: Campaign, records: seq<Record>) {
    forall i :: 0 <= i < |records| ==> records[i].trialId in m.plan
  }

  /** The session is about to run the next planned trial, and r is what it records. */
  ghost predicate Running(m: Campaign, s: State, r: Record) {
    && s.session.Some?
    && s.session.value.next < |m.plan|
    && r.trialId == m.plan[s.session.value.next]
    && !Completed(s.session.value.records, r.trialId)
  }

  ghost predicate Next(m: Campaign, s: State, step: Step, t: State) {
    match step
    case Skip =>
      && s.session.Some? && s.session.value.next < |m.plan|
      && Completed(s.session.value.records, m.plan[s.session.value.next])
      && t == s.(session := Some(s.session.value.(next := s.session.value.next + 1)))
    case Append(r) =>
      && Running(m, s, r)
      && t == State(s.content + Line(m.codec, r),
                    Some(Session(s.session.value.records + [r], s.session.value.next + 1)))
    case CrashIdle =>
      s.session.Some? && t == s.(session := None)
    case CrashAppending(r, k) =>
      && Running(m, s, r) && k <= |Line(m.codec, r)|
      && t == State(s.content + Line(m.codec, r)[..k], None)
    case Resume =>
      var (loaded, content) := Load(m.codec, s.content, true);
      && s.session.None? && loaded.Ok? && Planned(m, loaded.value)
      && t == State(content, Some(Session(loaded.value, 0)))
  }

  /** The one cut that is excluded: the whole text is written and its newline is not. */
  predicate SafeStep(m: Campaign, step: Step) {
    step.CrashAppending? ==> step.k != |m.codec.encode(step.record)|
  }

  const FRESH := State([], Some(Session([], 0)))

  ghost predicate IsRun(m: Campaign, states: seq<State>, steps: seq<Step>) {
    && |states| == |steps| + 1 && states[0] == FRESH
    && forall i :: 0 <= i < |steps| ==> Next(m, states[i], steps[i], states[i + 1]) && SafeStep(m, steps[i])
  }

  // -- what every step keeps ---------------------------------------------------------

  function TrialIds(records: seq<Record>): (ids: seq<string>)
    ensures |ids| == |records| && forall i :: 0 <= i < |ids| ==> ids[i] == records[i].trialId
  {
    seq(|records|, i requires 0 <= i < |records| => records[i].trialId)
  }

  /** A cut line that does not decode, or nothing. */
  ghost predicate CutTail(m: Campaign, tail: seq<Byte>) {
    NoBreak(tail) && (tail != [] ==> m.codec.decode(tail) == None)
  }

  /** The file holds the records of a prefix of the plan, and behind them at most a cut
      line; a session has seen exactly those records and stands at or before their end. */
  ghost predicate Consistent(m: Campaign, s: State, records: seq<Record>, tail: seq<Byte>) {
    && TrialIds(records) <= m.plan
    && s.content == Lines(m.codec, records) + tail && CutTail(m, tail)
    && (s.session.Some? ==> tail == [] && s.session.value.records == records && s.session.value.next <= |records|)
  }

  lemma PlanPrefixDistinct(m: Campaign, records: seq<Record>)
    requires m.Valid() && TrialIds(records) <= m.plan
    ensures DistinctTrials(records) && Planned(m, records)
  {
    forall i | 0 <= i < |records| ensures records[i].trialId == m.plan[i] {
      assert TrialIds(records)[i] == m.plan[i];
    }
  }

  /** A trial is completed exactly when it lies in the recorded prefix of the plan. */
  lemma CompletedIsPrefix(m: Campaign, records: seq<Record>, k: nat)
    requires m.Valid() && TrialIds(records) <= m.plan && k < |m.plan|
    ensures Completed(records, m.plan[k]) <==> k < |records|
  {
    forall i | 0 <= i < |records| ensures records[i].trialId == m.plan[i] {
      assert TrialIds(records)[i] == m.plan[i];
    }
  }

  lemma CutLine(m: Campaign, r: Record, k: nat)
    requires m.Valid() && k < |m.codec.encode(r)|
    ensures CutTail(m, Line(m.codec, r)[..k])
  {
    assert Line(m.codec, r)[..k] == m.codec.encode(r)[..k];
    assert forall i :: 0 <= i < k ==> m.codec.encode(r)[..k][i] == m.codec.encode(r)[i];
  }

  /** The log's whole lines only ever grow at the end. */
  ghost predicate Extends(m: Campaign, before: seq<Record>, after: seq<Record>) {
    before <= after && Lines(m.codec, before) <= Lines(m.codec, after)
  }

  lemma PlanGrows(m: Campaign, records: seq<Record>, r: Record)
    requires TrialIds(records) <= m.plan && |records| < |m.plan| && r.trialId == m.plan[|records|]
    ensures TrialIds(records + [r]) <= m.plan
  {
    var all := TrialIds(records + [r]);
    forall i | 0 <= i < |all| ensures all[i] == m.plan[i] {
      if i < |records| {
        assert TrialIds(records)[i] == m.plan[i];
      }
    }
  }

  lemma RecordsGrow(m: Campaign, records: seq<Record>, r: Record, next: nat)
    requires m.Valid() && TrialIds(records) <= m.plan && next == |records| < |m.plan| && r.trialId == m.plan[next]
    ensures TrialIds(records + [r]) <= m.plan && Extends(m, records, records + [r])
    ensures Lines(m.codec, records + [r]) == Lines(m.codec, records) + Line(m.codec, r)
  {
    LinesSnoc(m.codec, records, r);
    PlanGrows(m, records, r);
  }

  lemma AppendStands(m: Campaign, s: State, r: Record, records: seq<Record>)
    requires m.Valid() && Running(m, s, r) && Consistent(m, s, records, [])
    ensures s.session.value.next == |records|
  {
    CompletedIsPrefix(m, records, s.session.value.next);
  }

  lemma CutKeeps(m: Campaign, s: State, r: Record, k: nat, t: State, records: seq<Record>)
    returns (records': seq<Record>, tail': seq<Byte>)
    requires m.Valid() && Next(m, s, CrashAppending(r, k), t) && SafeStep(m, CrashAppending(r, k)) &&
              Consistent(m, s, records, [])
    ensures Consistent(m, t, records', tail') && Extends(m, records, records')
  {
    AppendStands(m, s, r, records);
    if k < |m.codec.encode(r)| {
      CutLine(m, r, k);
      records', tail' := records, Line(m.codec, r)[..k];
      assert s.content == Lines(m.codec, records);
    } else {
      RecordsGrow(m, records, r, s.session.value.next);
      records', tail' := records + [r], [];
      assert Line(m.codec, r)[..k] == Line(m.codec, r);
      assert t.content == Lines(m.codec, records') + [];
    }
  }

  /** Every step, crashes included, keeps the log a prefix of the plan and extends it. */
  lemma StepKeeps(m: Campaign, s: State, step: Step, t: State, records: seq<Record>, tail: seq<Byte>)
    returns (records': seq<Record>, tail': seq<Byte>)
    requires m.Valid() && Next(m, s, step, t) && SafeStep(m, step) && Consistent(m, s, records, tail)
    ensures Consistent(m, t, records', tail') && Extends(m, records, records')
  {
    records', tail' := records, tail;
    match step
    case Skip =>
      CompletedIsPrefix(m, records, s.session.value.next);
    case Append(r) =>
      AppendStands(m, s, r, records);
      RecordsGrow(m, records, r, s.session.value.next);
      records', tail' := records + [r], [];
      assert t.content == Lines(m.codec, records') + [];
    case CrashIdle =>
    case CrashAppending(r, k) =>
      records', tail' := CutKeeps(m, s, r, k, t, records);
    case Resume =>
      PlanPrefixDistinct(m, records);
      LoadLog(m.codec, records, tail, true);
      tail' := [];
      assert t.content == Lines(m.codec, records') + [];
  }

  /** Safety over a whole run: every state is consistent, and what was durable earlier
      is a prefix, byte for byte, of what is durable later. */
  lemma {:induction false} RunKeeps(m: Campaign, states: seq<State>, steps: seq<Step>, i: nat, j: nat)
    returns (early: seq<Record>, late: seq<Record>, tail: seq<Byte>)
    requires m.Valid() && IsRun(m, states, steps) && i <= j < |states|
    ensures (exists cut :: Consistent(m, states[i], early, cut)) && Consistent(m, states[j], late, tail)
    ensures Extends(m, early, late)
    decreases j
  {
    if j == 0 {
      early, late, tail := [], [], [];
      assert Consistent(m, FRESH, [], []);
    } else if i < j {
      var before, cut;
      early, before, cut := RunKeeps(m, states, steps, i, j - 1);
      late, tail := StepKeeps(m, states[j - 1], steps[j - 1], states[j], before, cut);
    } else {
      var first, before, cut := RunKeeps(m, states, steps, j - 1, j - 1);
      late, tail := StepKeeps(m, states[j - 1], steps[j - 1], states[j], before, cut);
      early := late;
    }
  }

  /** A crashed run can always be resumed: the repaired log is the recorded prefix of the plan. */
  lemma ResumeSucceeds(m: Campaign, states: seq<State>, steps: seq<Step>, i: nat)
    requires m.Valid() && IsRun(m, states, steps) && i < |states| && states[i].session.None?
    ensures var (loaded, content) := Load(m.codec, states[i].content, true);
            && loaded.Ok? && TrialIds(loaded.value) <= m.plan && content == Lines(m.codec, loaded.value)
            && content <= states[i].content
            && Next(m, states[i], Resume, State(content, Some(Session(loaded.value, 0))))
  {
    var _, records, tail := RunKeeps(m, states, steps, i, i);
    PlanPrefixDistinct(m, records);
    LoadLog(m.codec, records, tail, true);
  }

  /** A session that resumes has loaded only records of planned trials, each trial once, and none
      is skipped or run yet. */
  lemma ResumedIsPlanned(m: Campaign, s: State, t: State)
    requires Next(m, s, Resume, t)
    ensures t.session.Some? && t.session.value.next == 0
    ensures forall i :: 0 <= i < |t.session.value.records| ==>
              exists p :: 0 <= p < |m.plan| && m.plan[p] == t.session.value.records[i].trialId
    ensures forall i, j :: 0 <= i < j < |t.session.value.records| ==>
              t.session.value.records[i].trialId != t.session.value.records[j].trialId
  {
    LoadMeans(m.codec, s.content, true);
    forall i | 0 <= i < |t.session.value.records|
      ensures exists p :: 0 <= p < |m.plan| && m.plan[p] == t.session.value.records[i].trialId
    {
      assert t.session.value.records[i].trialId in m.plan;
    }
  }

  /** A finished session leaves every planned trial in the log exactly once, in plan
      order, and the log loads without repair. */
  lemma FinishedRun(m: Campaign, states: seq<State>, steps: seq<Step>, i: nat)
    requires m.Valid() && IsRun(m, states, steps) && i < |states|
    requires states[i].session.Some? && states[i].session.value.next == |m.plan|
    ensures var records := states[i].session.value.records;
            TrialIds(records) == m.plan && Load(m.codec, states[i].content, false) == (Ok(records), states[i].content)
  {
    var _, records, tail := RunKeeps(m, states, steps, i, i);
    assert |TrialIds(records)| == |m.plan|;
    PlanPrefixDistinct(m, records);
    assert states[i].content == Lines(m.codec, records) + [];
    LoadLog(m.codec, records, [], false);
    assert Lines(m.codec, records) == states[i].content;
  }

  // -- progress ------------------------------------------------------------------------

  /** A session at the end of the plan. */
  predicate Finished(m: Campaign, s: State) {
    s.session.Some? && s.session.value.next == |m.plan|
  }

  lemma PlanPrefixShorter(m: Campaign, records: seq<Record>)
    requires TrialIds(records) <= m.plan
    ensures |records| <= |m.plan|
  {
    assert |TrialIds(records)| <= |m.plan|;
  }

  /** Until then the session can go on: it skips the planned trial or runs it, whatever it records. */
  lemma CanStep(m: Campaign, s: State, records: seq<Record>, fields: string)
    returns (step: Step, t: State, records': seq<Record>)
    requires m.Valid() && Consistent(m, s, records, []) && s.session.Some? && !Finished(m, s)
    ensures Next(m, s, step, t) && (step.Skip? || step.Append?) && SafeStep(m, step)
    ensures t.session.Some? && t.session.value.next == s.session.value.next + 1 && Consistent(m, t, records', [])
    ensures step.Append? ==> step.record.fields == fields
  {
    var next := s.session.value.next;
    PlanPrefixShorter(m, records);
    CompletedIsPrefix(m, records, next);
    if next < |records| {
      step, t := Skip, s.(session := Some(s.session.value.(next := next + 1)));
    } else {
      var r := Record(m.plan[next], fields);
      step := Append(r);
      t := State(s.content + Line(m.codec, r), Some(Session(records + [r], next + 1)));
    }
    var tail;
    records', tail := StepKeeps(m, s, step, t, records, []);
  }

  lemma RunGrows(m: Campaign, states: seq<State>, steps: seq<Step>, step: Step, t: State)
    requires IsRun(m, states, steps) && Next(m, states[|steps|], step, t) && SafeStep(m, step)
    ensures IsRun(m, states + [t], steps + [step])
  {
    var ss, ts := states + [t], steps + [step];
    forall i | 0 <= i < |ts| ensures Next(m, ss[i], ts[i], ss[i + 1]) && SafeStep(m, ts[i]) {
      if i < |steps| {
        assert ss[i] == states[i] && ss[i + 1] == states[i + 1] && ts[i] == steps[i];
      }
    }
  }

  lemma {:induction false} SessionCanFinish(m: Campaign, states: seq<State>, steps: seq<Step>, records: seq<Record>,
                                            fields: string)
    returns (states': seq<State>, steps': seq<Step>)
    requires m.Valid() && IsRun(m, states, steps)
    requires states[|steps|].session.Some? && Consistent(m, states[|steps|], records, [])
    ensures IsRun(m, states', steps') && states <= states' && steps <= steps' && Finished(m, states'[|steps'|])
    ensures forall i :: |steps| <= i < |steps'| ==> steps'[i].Skip? || steps'[i].Append?
    decreases |m.plan| - states[|steps|].session.value.next
  {
    PlanPrefixShorter(m, records);
    var s := states[|steps|];
    if Finished(m, s) {
      states', steps' := states, steps;
    } else {
      var step, t, more := CanStep(m, s, records, fields);
      RunGrows(m, states, steps, step, t);
      states', steps' := SessionCanFinish(m, states + [t], steps + [step], more, fields);
      assert steps'[|steps|] == (steps + [step])[|steps|];
    }
  }

  /** Progress: from every state of every run the campaign can be brought to the end of the
      plan, resuming first if the machine is down, by skips and appends alone. */
  lemma RunCanFinish(m: Campaign, states: seq<State>, steps: seq<Step>, fields: string)
    returns (states': seq<State>, steps': seq<Step>)
    requires m.Valid() && IsRun(m, states, steps)
    ensures IsRun(m, states', steps') && states <= states' && steps <= steps' && Finished(m, states'[|steps'|])
    ensures forall i :: |steps| <= i < |steps'| ==>
              steps'[i].Skip? || steps'[i].Append? || (i == |steps| && steps'[i] == Resume)
  {
    var n := |steps|;
    var _, records, tail := RunKeeps(m, states, steps, n, n);
    if states[n].session.Some? {
      states', steps' := SessionCanFinish(m, states, steps, records, fields);
    } else {
      ResumeSucceeds(m, states, steps, n);
      var (loaded, content) := Load(m.codec, states[n].content, true);
      var t := State(content, Some(Session(loaded.value, 0)));
      RunGrows(m, states, steps, Resume, t);
      assert content == Lines(m.codec, loaded.value) + [];
      assert Consistent(m, t, loaded.value, []);
      states', steps' := SessionCanFinish(m, states + [t], steps + [Resume], loaded.value, fields);
      assert steps'[n] == (steps + [Resume])[n];
    }
  }

  // -- the excluded cut ----------------------------------------------------------------

  lemma ParseOne(c: Codec, r: Record)
    requires Lawful(c)
    ensures ParseLines(c, SplitLines(c.encode(r)), true) == Ok(([r], |c.encode(r)|))
  {
    var lines := [c.encode(r)];
    SplitTail(c.encode(r));
    assert lines[1..] == [] && [r] + [] == [r];
  }

  /** The unterminated record is taken for a finished one and its line is left open. */
  lemma UnterminatedAccepted(c: Codec, records: seq<Record>, last: Record)
    requires Lawful(c) && DistinctTrials(records + [last])
    ensures var content := Lines(c, records) + c.encode(last);
            Load(c, content, true) == (Ok(records + [last]), content)
  {
    ParseOne(c, last);
    ParseLog(c, records, c.encode(last), true);
    Prefix(Lines(c, records) + c.encode(last), []);
    assert Lines(c, records) + c.encode(last) + [] == Lines(c, records) + c.encode(last);
  }

  /** Two records on one line are no record. */
  lemma ParseGlued(c: Codec, a: Record, b: Record, more: seq<Record>, repair: bool)
    requires Lawful(c)
    ensures ParseLines(c, SplitLines(c.encode(a) + Line(c, b) + Lines(c, more)), repair)
         == if repair && more == [] then Ok(([], 0)) else Err(InvalidLine)
  {
    var glued := c.encode(a) + c.encode(b);
    assert c.encode(a) + Line(c, b) + Lines(c, more) == glued + [NL] + Lines(c, more);
    SplitFirst(glued, Lines(c, more));
    assert c.decode(glued + [NL]) == None;
    if more != [] {
      assert |Lines(c, more)| > 0;
      assert |SplitLines(Lines(c, more))| > 0;
    }
  }

  lemma LoadGlued(c: Codec, records: seq<Record>, a: Record, b: Record, more: seq<Record>, repair: bool)
    requires Lawful(c) && DistinctTrials(records)
    ensures var content := Lines(c, records) + (c.encode(a) + Line(c, b) + Lines(c, more));
            Load(c, content, repair) ==
                if repair && more == [] then (Ok(records), Lines(c, records)) else (Err(InvalidLine), content)
  {
    var tail := c.encode(a) + Line(c, b) + Lines(c, more);
    ParseGlued(c, a, b, more, repair);
    ParseLog(c, records, tail, repair);
    assert records + [] == records;
    Prefix(Lines(c, records), tail);
  }

  /** After it, the next append is glued to the open line: repairing loses both records
      while they stand last, and with one record more the file no longer loads at all. */
  lemma GluedRecordsLost(c: Codec, records: seq<Record>, a: Record, b: Record, more: seq<Record>)
    requires Lawful(c) && DistinctTrials(records)
    ensures var content := Lines(c, records) + c.encode(a) + Line(c, b) + Lines(c, more);
            && Load(c, content, false).0 == Err(InvalidLine)
            && (more == [] ==> Load(c, content, true) == (Ok(records), Lines(c, records)))
            && (more != [] ==> Load(c, content, true) == (Err(InvalidLine), content))
  {
    Assoc4(Lines(c, records), c.encode(a), Line(c, b), Lines(c, more));
    LoadGlued(c, records, a, b, more, true);
    LoadGlued(c, records, a, b, more, false);
  }

  /** The records a crashed log stands for, depending on where the append was cut. */
  function Survivors(c: Codec, records: seq<Record>, a: Record, k: nat): seq<Record> {
    if k < |c.encode(a)| then records else records + [a]
  }

  /** Crash, resume, append: the file is good exactly when the cut was not the excluded one. */
  lemma CutIsSafeIff(c: Codec, records: seq<Record>, a: Record, b: Record, k: nat)
    requires Lawful(c) && k <= |Line(c, a)| && DistinctTrials(records + [a])
    requires DistinctTrials(Survivors(c, records, a, k) + [b])
    ensures var (loaded, repaired) := Load(c, Lines(c, records) + Line(c, a)[..k], true);
            && loaded == Ok(Survivors(c, records, a, k))
            && (Load(c, repaired + Line(c, b), false).0 == Ok(Survivors(c, records, a, k) + [b]) <==>
                k != |c.encode(a)|)
  {
    var content, cut, kept := Lines(c, records) + Line(c, a)[..k], Line(c, a)[..k], Survivors(c, records, a, k);
    assert DistinctTrials(records) by {
      assert forall i :: 0 <= i < |records| ==> (records + [a])[i] == records[i];
    }
    if k == |c.encode(a)| {
      assert cut == c.encode(a);
      UnterminatedAccepted(c, records, a);
      GluedRecordsLost(c, records, a, b, []);
      assert content + Line(c, b) + Lines(c, []) == content + Line(c, b);
    } else {
      if k < |c.encode(a)| {
        assert cut == c.encode(a)[..k];
        assert forall i :: 0 <= i < k ==> cut[i] == c.encode(a)[i];
        LoadLog(c, records, cut, true);
      } else {
        assert cut == Line(c, a);
        LinesSnoc(c, records, a);
        assert content == Lines(c, kept) + [];
        LoadLog(c, kept, [], true);
      }
      LinesSnoc(c, kept, b);
      assert Lines(c, kept) + Line(c, b) == Lines(c, kept + [b]) + [];
      LoadLog(c, kept + [b], [], false);
    }
  }
}
