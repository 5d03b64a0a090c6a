/** Word-length information: one [position in word, word length] pair a rune. */
module WordLengths {
  import opened Results
  import opened Sequences

  datatype Entry = Entry(pos: int, length: int)

  type Wli = seq<Entry>

  const MAX_WORD := 63

  function WordEntries(length: int): (w: Wli)
    ensures |w| == if length < 0 then 0 else length
    ensures forall i :: 0 <= i < |w| ==> w[i] == Entry(i, length)
  {
    seq(if length < 0 then 0 else length, i => Entry(i, length))
  }

  /** _wli_from_word_lengths */
  function FromWordLengths(lengths: seq<int>): Wli {
    if |lengths| == 0 then [] else WordEntries(lengths[0]) + FromWordLengths(lengths[1..])
  }

  ghost predicate Encodable(lengths: seq<int>) {
    forall i :: 0 <= i < |lengths| ==> 1 <= lengths[i] <= MAX_WORD
  }

  /** The word lengths of well-formed information, word by word. */
  function Parse(w: Wli): Option<seq<int>>
    decreases |w|
  {
    if |w| == 0 then Some([])
    else
      var n := w[0].length;
      if 1 <= n <= MAX_WORD && n <= |w| && w[..n] == WordEntries(n) then
        match Parse(w[n..])
        case None => None
        case Some(rest) => Some([n] + rest)
      else None
  }

  lemma EncodeCons(n: int, rest: seq<int>)
    ensures FromWordLengths([n] + rest) == WordEntries(n) + FromWordLengths(rest)
  {
    assert ([n] + rest)[1..] == rest;
  }

  lemma {:induction false} ParseSound(w: Wli)
    requires Parse(w).Some?
    ensures Encodable(Parse(w).value) && FromWordLengths(Parse(w).value) == w
    decreases |w|
  {
    if |w| > 0 {
      var n := w[0].length;
      var rest := Parse(w[n..]).value;
      ParseSound(w[n..]);
      EncodeCons(n, rest);
      assert w == w[..n] + w[n..];
    }
  }

  lemma {:induction false} ParseComplete(lengths: seq<int>)
    requires Encodable(lengths)
    ensures Parse(FromWordLengths(lengths)) == Some(lengths)
  {
    if |lengths| > 0 {
      var n, rest := lengths[0], FromWordLengths(lengths[1..]);
      ParseComplete(lengths[1..]);
      var w := WordEntries(n) + rest;
      assert w[..n] == WordEntries(n) && w[n..] == rest;
      assert lengths == [n] + lengths[1..];
    }
  }

  /** Word-length information parses exactly when it comes from word lengths, and
      then from one list of them only. */
  lemma ParsesIffEncodes(w: Wli, lengths: seq<int>)
    ensures Parse(w) == Some(lengths) <==> Encodable(lengths) && FromWordLengths(lengths) == w
  {
    if Parse(w) == Some(lengths) {
      ParseSound(w);
    }
    if Encodable(lengths) && FromWordLengths(lengths) == w {
      ParseComplete(lengths);
    }
  }

  datatype WliError = WrongLength | NotPositive | PastWordEnd | TooLong | LengthChanged | NotContiguous | CutWord

  /** A whole word stands at `start`. */
  ghost predicate WordAt(w: Wli, start: nat)
    requires start < |w|
  {
    var n := w[start].length;
    1 <= n <= MAX_WORD && start + n <= |w| && forall k :: start <= k < start + n ==> w[k] == Entry(k - start, n)
  }

  lemma HeadWord(w: Wli, start: nat)
    requires start < |w|
    ensures Parse(w[start..]).Some? <==> WordAt(w, start) && Parse(w[start + w[start].length..]).Some?
  {
    var rest, n := w[start..], w[start].length;
    assert rest[0] == w[start];
    if 1 <= n <= |rest| {
      assert rest[n..] == w[start + n..];
      if rest[..n] == WordEntries(n) {
        forall k | start <= k < start + n ensures w[k] == Entry(k - start, n) {
          assert rest[..n][k - start] == w[k];
        }
      }
      if WordAt(w, start) {
        assert rest[..n] == WordEntries(n);
      }
    }
  }

  /** What the validator knows inside a word that started at `start`. */
  ghost predicate InWord(w: Wli, start: nat, i: nat, current: Option<int>) {
    && start <= i <= |w|
    && (current.None? ==> i == start)
    && (current.Some? ==> start < i && current.value == w[start].length <= MAX_WORD && i - start < current.value)
    && (current.Some? ==> forall k :: start <= k < i ==> w[k] == Entry(k - start, current.value))
  }

  /** From `start` on, whole words follow each other to the end. */
  ghost predicate Readable(w: Wli, start: nat)
    requires start <= |w|
    decreases |w| - start
  {
    start == |w| || (WordAt(w, start) && Readable(w, start + w[start].length))
  }

  lemma {:induction false} ReadableIffParses(w: Wli, start: nat)
    requires start <= |w|
    ensures Readable(w, start) <==> Parse(w[start..]).Some?
    decreases |w| - start
  {
    if start < |w| {
      HeadWord(w, start);
      if WordAt(w, start) {
        ReadableIffParses(w, start + w[start].length);
      }
    }
  }

  /** One more entry of the word is right; it may be the word's last. */
  lemma EntryRead(w: Wli, start: nat, i: nat, current: Option<int>, c: int)
    requires i < |w| && InWord(w, start, i, current) && (current.Some? ==> current == Some(c))
    requires c == w[start].length <= MAX_WORD && i - start < c && w[i] == Entry(i - start, c)
    ensures i + 1 - start < c ==> InWord(w, start, i + 1, Some(c))
    ensures i + 1 - start == c ==> (Readable(w, start) <==> Readable(w, i + 1))
  {
    if i + 1 - start == c {
      assert WordAt(w, start);
    }
  }

  /** One round of the validator's loop: the checks, in order, and the current word length. */
  method CheckEntry(w: Wli, i: nat, expected: int, current: Option<int>, ghost start: nat)
    returns (r: Option<WliError>, c: int)
    requires i < |w| && InWord(w, start, i, current) && expected == i - start
    ensures r != Some(WrongLength)
    ensures r.Some? ==> !WordAt(w, start)
    ensures r.None? ==> c == w[start].length <= MAX_WORD && i - start < c && w[i] == Entry(i - start, c)
    ensures r.None? && current.Some? ==> current == Some(c)
  {
    var pos, ln := w[i].pos, w[i].length;
    if pos < 0 || ln <= 0 {
      return Some(NotPositive), 0;
    }
    if pos >= ln {
      return Some(PastWordEnd), 0;
    }
    if pos > MAX_WORD || ln > MAX_WORD {
      return Some(TooLong), 0;
    }
    c := if expected == 0 then ln else current.value;
    if ln != c {
      return Some(LengthChanged), c;
    }
    if pos != expected {
      return Some(NotContiguous), c;
    }
    return None, c;
  }

  /** The validator's loop. */
  method ScanEntries(w: Wli) returns (r: Option<WliError>)
    ensures r == None <==> Readable(w, 0)
    ensures r != Some(WrongLength)
  {
    var expected := 0;
    var current: Option<int> := None;
    ghost var start: nat := 0;
    for i := 0 to |w|
      invariant InWord(w, start, i, current) && expected == i - start
      invariant Readable(w, 0) <==> Readable(w, start)
    {
      var r, c := CheckEntry(w, i, expected, current, start);
      if r.Some? {
        return r;
      }
      EntryRead(w, start, i, current, c);
      current := Some(c);
      expected := expected + 1;
      if Some(expected) == current {
        start := i + 1;
        expected := 0;
        current := None;
      }
    }
    if expected != 0 {
      return Some(CutWord);
    }
    return None;
  }

  lemma EncodedIffParses(w: Wli)
    ensures Parse(w).Some? <==> exists lengths :: Encodable(lengths) && FromWordLengths(lengths) == w
  {
    if Parse(w).Some? {
      ParseSound(w);
    }
    if lengths :| Encodable(lengths) && FromWordLengths(lengths) == w {
      ParseComplete(lengths);
    }
  }

  /** _validate_wli_poslen */
  method ValidateWli(w: Wli, length: nat) returns (r: Option<WliError>)
    ensures r == None <==> |w| == length && exists lengths :: Encodable(lengths) && FromWordLengths(lengths) == w
    ensures r == Some(WrongLength) <==> |w| != length
  {
    if |w| != length {
      return Some(WrongLength);
    }
    EncodedIffParses(w);
    ReadableIffParses(w, 0);
    assert w[0..] == w;
    r := ScanEntries(w);
  }

  lemma NextWord(w: Wli, cursor: nat, lengths: seq<int>)
    requires cursor < |w| && Parse(w[cursor..]).Some?
    ensures var n := w[cursor].length;
            0 < n && cursor + n <= |w| && Parse(w[cursor + n..]).Some?
            && lengths + Parse(w[cursor..]).value == (lengths + [n]) + Parse(w[cursor + n..]).value
  {
    var n := w[cursor].length;
    assert w[cursor..][0] == w[cursor] && w[cursor..][n..] == w[cursor + n..];
    Assoc(lengths, [n], Parse(w[cursor + n..]).value);
  }

  /** word_lengths_from_wli: without positive lengths its cursor would not advance. */
  method WordLengthsFromWli(w: Wli) returns (lengths: seq<int>)
    requires forall i :: 0 <= i < |w| ==> w[i].length > 0
    ensures forall original :: Encodable(original) && FromWordLengths(original) == w ==> lengths == original
  {
    lengths := [];
    var cursor := 0;
    assert w[0..] == w;
    assert Parse(w).Some? ==> [] + Parse(w).value == Parse(w).value;
    while cursor < |w|
      invariant 0 <= cursor
      invariant cursor <= |w| || Parse(w) == None
      invariant cursor <= |w| && Parse(w).Some? ==>
                Parse(w[cursor..]).Some? && Parse(w) == Some(lengths + Parse(w[cursor..]).value)
    {
      var n := w[cursor].length;
      if Parse(w).Some? {
        NextWord(w, cursor, lengths);
      }
      lengths := lengths + [n];
      cursor := cursor + n;
    }
    forall original | Encodable(original) && FromWordLengths(original) == w ensures lengths == original {
      ParseComplete(original);
      assert w[cursor..] == [];
    }
  }
}
