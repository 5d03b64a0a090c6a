/** The campaign's append-only evidence file: one JSON record a line, appended as the
    trials finish, reloaded and repaired when a run resumes after a crash. */
module CampaignLog {
  import opened Results
  import opened Sequences

  type Byte = b: int | 0 <= b < 256

  const NL: Byte := 10
  const CR: Byte := 13

  datatype Record = Record(trialId: string, fields: string)

  /** json.dumps, and json.loads followed by the schema check; None stands for the
      exceptions that load_completed_records catches. */
  datatype Codec = Codec(encode: Record -> seq<Byte>, decode: seq<Byte> -> Option<Record>)

  ghost predicate NoBreak(text: seq<Byte>) {
    forall i :: 0 <= i < |text| ==> text[i] != NL && text[i] != CR
  }

  /** What the log relies on: record texts have no line breaks and read back, with or
      without a line end; a cut text, or a text with more of another behind it, does not. */
  ghost predicate Lawful(c: Codec) {
    && (forall r :: NoBreak(c.encode(r)) && |c.encode(r)| > 0)
    && (forall r :: c.decode(c.encode(r)) == Some(r) && c.decode(c.encode(r) + [NL]) == Some(r))
    && (forall r, k :: 0 <= k < |c.encode(r)| ==> c.decode(c.encode(r)[..k]) == None)
    && (forall r, s :: c.decode(c.encode(r) + c.encode(s) + [NL]) == None)
  }

  // -- lines -------------------------------------------------------------------------

  /** The end of the line that starts at or before i, as bytes.splitlines sees it. */
  function LineEnd(b: seq<Byte>, i: nat): (e: nat)
    requires i <= |b|
    ensures i <= e <= |b| && (i < |b| ==> e > i)
    decreases |b| - i
  {
    if i == |b| then i
    else if b[i] == NL then i + 1
    else if b[i] == CR then if i + 1 < |b| && b[i + 1] == NL then i + 2 else i + 1
    else LineEnd(b, i + 1)
  }

  /** path.read_bytes().splitlines(keepends=True) */
  function SplitLines(b: seq<Byte>): (lines: seq<seq<Byte>>) {
    if |b| == 0 then [] else [b[..LineEnd(b, 0)]] + SplitLines(b[LineEnd(b, 0)..])
  }

  function Line(c: Codec, r: Record): seq<Byte> {
    c.encode(r) + [NL]
  }

  /** What a log of finished appends holds. */
  function Lines(c: Codec, records: seq<Record>): seq<Byte> {
    if |records| == 0 then [] else Line(c, records[0]) + Lines(c, records[1..])
  }

  lemma {:induction false} LinesSnoc(c: Codec, records: seq<Record>, r: Record)
    ensures Lines(c, records + [r]) == Lines(c, records) + Line(c, r)
  {
    if |records| == 0 {
      assert [r][1..] == [];
    } else {
      assert (records + [r])[1..] == records[1..] + [r];
      LinesSnoc(c, records[1..], r);
    }
  }

  lemma {:induction false} LineEndAt(b: seq<Byte>, text: seq<Byte>, rest: seq<Byte>, i: nat)
    requires NoBreak(text) && i <= |text| && b == text + rest && (rest == [] || rest[0] == NL)
    ensures LineEnd(b, i) == if rest == [] then |text| else |text| + 1
    decreases |text| - i
  {
    if i < |text| {
      assert b[i] == text[i];
      LineEndAt(b, text, rest, i + 1);
    }
  }

  lemma SplitFirst(text: seq<Byte>, rest: seq<Byte>)
    requires NoBreak(text)
    ensures SplitLines(text + [NL] + rest) == [text + [NL]] + SplitLines(rest)
  {
    var b := text + [NL] + rest;
    assert b == text + ([NL] + rest);
    LineEndAt(b, text, [NL] + rest, 0);
    assert b[..|text| + 1] == text + [NL] && b[|text| + 1..] == rest;
  }

  lemma SplitTail(text: seq<Byte>)
    requires NoBreak(text)
    ensures SplitLines(text) == if text == [] then [] else [text]
  {
    LineEndAt(text, text, [], 0);
  }

  lemma {:induction false} LineEndAfter(b: seq<Byte>, text: seq<Byte>, rest: seq<Byte>, i: nat)
    requires NoBreak(text) && i <= |text| && b == text + [CR] + rest
    ensures LineEnd(b, i) == |text| + if rest != [] && rest[0] == NL then 2 else 1
    decreases |text| - i
  {
    if i < |text| {
      assert b[i] == text[i];
      LineEndAfter(b, text, rest, i + 1);
    } else {
      assert b[i] == CR && (rest != [] ==> b[i + 1] == rest[0]);
    }
  }

  /** A carriage return ends a line too, together with a newline that follows it. */
  lemma SplitAtReturn(text: seq<Byte>, rest: seq<Byte>)
    requires NoBreak(text)
    ensures (rest == [] || rest[0] != NL) ==> SplitLines(text + [CR] + rest) == [text + [CR]] + SplitLines(rest)
    ensures rest != [] && rest[0] == NL ==>
              SplitLines(text + [CR] + rest) == [text + [CR, NL]] + SplitLines(rest[1..])
  {
    var b := text + [CR] + rest;
    LineEndAfter(b, text, rest, 0);
    if rest != [] && rest[0] == NL {
      assert b[..|text| + 2] == text + [CR, NL] && b[|text| + 2..] == rest[1..];
    } else {
      assert b[..|text| + 1] == text + [CR] && b[|text| + 1..] == rest;
    }
  }

  // -- loading -----------------------------------------------------------------------

  datatype LoadError = InvalidLine | DuplicateTrial

  /** The record loop over the remaining lines: the records read and the bytes they
      take. A line that does not decode ends the loop if repair is on and it is the last. */
  function ParseLines(c: Codec, lines: seq<seq<Byte>>, repair: bool): Result<(seq<Record>, nat), LoadError> {
    if |lines| == 0 then Ok(([], 0))
    else match c.decode(lines[0])
      case None => if repair && |lines| == 1 then Ok(([], 0)) else Err(InvalidLine)
      case Some(r) =>
        match ParseLines(c, lines[1..], repair)
        case Err(e) => Err(e)
        case Ok((rs, n)) => Ok(([r] + rs, |lines[0]| + n))
  }

  predicate DistinctTrials(records: seq<Record>) {
    forall i, j :: 0 <= i < j < |records| ==> records[i].trialId != records[j].trialId
  }

  /** load_completed_records: the records, or the error, and the file afterwards. */
  function Load(c: Codec, content: seq<Byte>, repair: bool): (Result<seq<Record>, LoadError>, seq<Byte>) {
    match ParseLines(c, SplitLines(content), repair)
    case Err(e) => (Err(e), content)
    case Ok((rs, n)) =>
      (if DistinctTrials(rs) then Ok(rs) else Err(DuplicateTrial), if n <= |content| then content[..n] else content)
  }

  function Total(lines: seq<seq<Byte>>): nat {
    if |lines| == 0 then 0 else |lines[0]| + Total(lines[1..])
  }

  lemma {:induction false} SplitTotal(b: seq<Byte>)
    ensures Total(SplitLines(b)) == |b|
    decreases |b|
  {
    if |b| > 0 {
      SplitTotal(b[LineEnd(b, 0)..]);
    }
  }

  /** What parsing means line by line: it fails iff a line is bad that repair may not drop, and
      otherwise reads every line but such a bad last one. */
  lemma {:induction false} ParseMeans(c: Codec, lines: seq<seq<Byte>>, repair: bool)
    ensures var parsed := ParseLines(c, lines, repair);
            && (parsed.Err? <==>
                exists i :: 0 <= i < |lines| && c.decode(lines[i]) == None && !(repair && i == |lines| - 1))
            && (parsed.Err? ==> parsed.error == InvalidLine)
            && (parsed.Ok? ==>
                  var (records, n) := parsed.value;
                  && |records| <= |lines| && n == Total(lines[..|records|])
                  && (forall i :: 0 <= i < |records| ==> c.decode(lines[i]) == Some(records[i]))
                  && (|records| < |lines| ==> repair && |records| == |lines| - 1 && c.decode(lines[|records|]) == None))
  {
    if |lines| > 0 {
      var rest := lines[1..];
      ParseMeans(c, rest, repair);
      assert forall i :: 0 <= i < |rest| ==> rest[i] == lines[i + 1];
      if ParseLines(c, rest, repair).Ok? && c.decode(lines[0]).Some? {
        var (rs, n) := ParseLines(c, rest, repair).value;
        assert lines[..|rs| + 1][1..] == rest[..|rs|];
      }
      if ParseLines(c, rest, repair).Err? {
        var i :| 0 <= i < |rest| && c.decode(rest[i]) == None && !(repair && i == |rest| - 1);
        assert c.decode(lines[i + 1]) == None;
      }
    }
  }

  lemma {:induction false} TotalPrefix(lines: seq<seq<Byte>>, k: nat)
    requires k <= |lines|
    ensures Total(lines[..k]) <= Total(lines)
  {
    if k > 0 {
      assert lines[..k][1..] == lines[1..][..k - 1];
      TotalPrefix(lines[1..], k - 1);
    }
  }

  /** What loading means for any file, logged or not. */
  lemma LoadMeans(c: Codec, content: seq<Byte>, repair: bool)
    ensures var lines, (loaded, kept) := SplitLines(content), Load(c, content, repair);
            && (loaded == Err(InvalidLine) <==>
                exists i :: 0 <= i < |lines| && c.decode(lines[i]) == None && !(repair && i == |lines| - 1))
            && (loaded == Err(InvalidLine) ==> kept == content)
            && (loaded != Err(InvalidLine) ==>
                  exists records: seq<Record> ::
                    && |records| <= |lines|
                    && (forall i :: 0 <= i < |records| ==> c.decode(lines[i]) == Some(records[i]))
                    && (|records| < |lines| ==>
                          repair && |records| == |lines| - 1 && c.decode(lines[|records|]) == None)
                    && kept <= content && |kept| == Total(lines[..|records|])
                    && loaded ==
                       if exists i, j :: 0 <= i < j < |records| && records[i].trialId == records[j].trialId
                       then Err(DuplicateTrial) else Ok(records))
  {
    var lines := SplitLines(content);
    ParseMeans(c, lines, repair);
    SplitTotal(content);
    if ParseLines(c, lines, repair).Ok? {
      var (records, n) := ParseLines(c, lines, repair).value;
      TotalPrefix(lines, |records|);
      assert |records| <= |lines|;
    }
  }

  /** The outcome of a file of which `records`, in n bytes, have been read already. */
  function Behind(records: seq<Record>, n: nat, rest: Result<(seq<Record>, nat), LoadError>)
    : Result<(seq<Record>, nat), LoadError>
  {
    match rest
    case Err(e) => Err(e)
    case Ok((rs, k)) => Ok((records + rs, n + k))
  }

  lemma NothingBefore(c: Codec, lines: seq<seq<Byte>>, repair: bool)
    ensures lines[0..] == lines
    ensures ParseLines(c, lines, repair) == Behind([], 0, ParseLines(c, lines, repair))
  {
    var parsed := ParseLines(c, lines, repair);
    assert parsed.Ok? ==> [] + parsed.value.0 == parsed.value.0;
  }

  lemma NothingLeft(records: seq<Record>)
    ensures records + [] == records
  {
  }

  lemma LineBad(c: Codec, lines: seq<seq<Byte>>, i: nat, repair: bool, records: seq<Record>, n: nat)
    requires i < |lines| && c.decode(lines[i]) == None
    ensures Behind(records, n, ParseLines(c, lines[i..], repair))
         == if repair && i == |lines| - 1 then Ok((records, n)) else Err(InvalidLine)
  {
    NothingLeft(records);
  }

  lemma LoadIs(c: Codec, content: seq<Byte>, repair: bool, records: seq<Record>, n: nat)
    requires n <= |content| && ParseLines(c, SplitLines(content), repair) == Ok((records, n))
    ensures Load(c, content, repair) ==
              (if DistinctTrials(records) then Ok(records) else Err(DuplicateTrial), content[..n])
    ensures n == |content| ==> content[..n] == content
  {
  }

  lemma LineRead(c: Codec, lines: seq<seq<Byte>>, i: nat, repair: bool, records: seq<Record>, n: nat, r: Record)
    requires i < |lines| && c.decode(lines[i]) == Some(r)
    ensures Total(lines[i..]) == |lines[i]| + Total(lines[i + 1..])
    ensures Behind(records, n, ParseLines(c, lines[i..], repair))
         == Behind(records + [r], n + |lines[i]|, ParseLines(c, lines[i + 1..], repair))
  {
    assert lines[i..][1..] == lines[i + 1..];
    var rest := ParseLines(c, lines[i + 1..], repair);
    if rest.Ok? {
      Assoc(records, [r], rest.value.0);
    }
  }

  class LogFile {
    var content: seq<Byte>

    constructor ()
      ensures content == []
    {
      content := [];
    }

    /** append_record, when nothing interrupts it. */
    method AppendRecord(c: Codec, record: Record)
      modifies this
      ensures content == old(content) + Line(c, record)
    {
      content := content + (c.encode(record) + [NL]);
    }

    method LoadCompletedRecords(c: Codec, repair: bool) returns (r: Result<seq<Record>, LoadError>)
      modifies this
      ensures (r, content) == Load(c, old(content), repair)
      ensures content <= old(content) && (!repair ==> content == old(content))
    {
      var lines := SplitLines(content);
      SplitTotal(content);
      var records: seq<Record> := [];
      var validBytes: nat := 0;
      var index := 0;
      NothingBefore(c, lines, repair);
      while index < |lines|
        invariant 0 <= index <= |lines| && content == old(content)
        invariant validBytes + Total(lines[index..]) == |content|
        invariant ParseLines(c, lines, repair) == Behind(records, validBytes, ParseLines(c, lines[index..], repair))
      {
        var decoded := c.decode(lines[index]);
        if decoded.None? {
          LineBad(c, lines, index, repair, records, validBytes);
          if repair && index == |lines| - 1 {
            content := content[..validBytes];
            break;
          }
          return Err(InvalidLine);
        }
        LineRead(c, lines, index, repair, records, validBytes, decoded.value);
        records := records + [decoded.value];
        validBytes := validBytes + |lines[index]|;
        index := index + 1;
      }
      NothingLeft(records);
      LoadIs(c, old(content), repair, records, validBytes);
      if !DistinctTrials(records) {
        return Err(DuplicateTrial);
      }
      return Ok(records);
    }
  }

  // -- a log of whole lines and at most one cut line -------------------------------------

  /** A whole line in front is read and the rest follows. */
  lemma ParseCons(c: Codec, r: Record, rest: seq<Byte>, repair: bool)
    requires Lawful(c)
    ensures ParseLines(c, SplitLines(Line(c, r) + rest), repair)
         == Behind([r], |Line(c, r)|, ParseLines(c, SplitLines(rest), repair))
  {
    SplitFirst(c.encode(r), rest);
    assert ([Line(c, r)] + SplitLines(rest))[1..] == SplitLines(rest);
  }

  lemma BehindTwice(r: Record, k: nat, records: seq<Record>, n: nat, rest: Result<(seq<Record>, nat), LoadError>)
    ensures Behind([r], k, Behind(records, n, rest)) == Behind([r] + records, k + n, rest)
  {
    if rest.Ok? {
      Assoc([r], records, rest.value.0);
    }
  }

  lemma LinesCons(c: Codec, records: seq<Record>, tail: seq<Byte>)
    requires |records| > 0
    ensures [records[0]] + records[1..] == records
    ensures Lines(c, records) + tail == Line(c, records[0]) + (Lines(c, records[1..]) + tail)
    ensures |Lines(c, records)| == |Line(c, records[0])| + |Lines(c, records[1..])|
  {
    Assoc(Line(c, records[0]), Lines(c, records[1..]), tail);
  }

  lemma NothingBeforeTail(c: Codec, tail: seq<Byte>)
    ensures Lines(c, []) + tail == tail
  {
  }

  lemma LogCons(c: Codec, records: seq<Record>, tail: seq<Byte>, repair: bool)
    requires Lawful(c) && |records| > 0
    requires ParseLines(c, SplitLines(Lines(c, records[1..]) + tail), repair)
          == Behind(records[1..], |Lines(c, records[1..])|, ParseLines(c, SplitLines(tail), repair))
    ensures ParseLines(c, SplitLines(Lines(c, records) + tail), repair)
         == Behind(records, |Lines(c, records)|, ParseLines(c, SplitLines(tail), repair))
  {
    var r, rest := records[0], records[1..];
    LinesCons(c, records, tail);
    ParseCons(c, r, Lines(c, rest) + tail, repair);
    BehindTwice(r, |Line(c, r)|, rest, |Lines(c, rest)|, ParseLines(c, SplitLines(tail), repair));
  }

  /** So are any number of whole lines. */
  lemma {:induction false} ParseLog(c: Codec, records: seq<Record>, tail: seq<Byte>, repair: bool)
    requires Lawful(c)
    ensures ParseLines(c, SplitLines(Lines(c, records) + tail), repair)
         == Behind(records, |Lines(c, records)|, ParseLines(c, SplitLines(tail), repair))
  {
    if |records| == 0 {
      NothingBefore(c, SplitLines(tail), repair);
      NothingBeforeTail(c, tail);
    } else {
      ParseLog(c, records[1..], tail, repair);
      LogCons(c, records, tail, repair);
    }
  }

  /** A cut line ends the reading, or spoils it when nothing may be repaired. */
  lemma ParseTail(c: Codec, tail: seq<Byte>, repair: bool)
    requires NoBreak(tail) && (tail != [] ==> c.decode(tail) == None)
    ensures ParseLines(c, SplitLines(tail), repair) == if tail == [] || repair then Ok(([], 0)) else Err(InvalidLine)
  {
    SplitTail(tail);
  }

  lemma LoadLog(c: Codec, records: seq<Record>, tail: seq<Byte>, repair: bool)
    requires Lawful(c) && NoBreak(tail) && DistinctTrials(records)
    requires tail != [] ==> repair && c.decode(tail) == None
    ensures Load(c, Lines(c, records) + tail, repair) == (Ok(records), Lines(c, records))
  {
    ParseLog(c, records, tail, repair);
    ParseTail(c, tail, repair);
    assert records + [] == records;
    Prefix(Lines(c, records), tail);
  }
}
