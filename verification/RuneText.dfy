/** Rune text: printing indices word by word, and reading the words back. */
module RuneText {
  import opened Results
  import opened WordLengths

  /** The rune at a position of the 29-letter table. */
  function Rune(p: nat): char
    requires p < 29
  {
    if p == 0 then '\U{16A0}'
    else if p == 1 then '\U{16A2}'
    else if p == 2 then '\U{16A6}'
    else if p == 3 then '\U{16A9}'
    else if p == 4 then '\U{16B1}'
    else if p == 5 then '\U{16B3}'
    else if p == 6 then '\U{16B7}'
    else if p == 7 then '\U{16B9}'
    else if p == 8 then '\U{16BB}'
    else if p == 9 then '\U{16BE}'
    else if p == 10 then '\U{16C1}'
    else if p == 11 then '\U{16C2}'
    else if p == 12 then '\U{16C7}'
    else if p == 13 then '\U{16C8}'
    else if p == 14 then '\U{16C9}'
    else if p == 15 then '\U{16CB}'
    else if p == 16 then '\U{16CF}'
    else if p == 17 then '\U{16D2}'
    else if p == 18 then '\U{16D6}'
    else if p == 19 then '\U{16D7}'
    else if p == 20 then '\U{16DA}'
    else if p == 21 then '\U{16DD}'
    else if p == 22 then '\U{16DF}'
    else if p == 23 then '\U{16DE}'
    else if p == 24 then '\U{16AA}'
    else if p == 25 then '\U{16AB}'
    else if p == 26 then '\U{16A3}'
    else if p == 27 then '\U{16E1}'
    else '\U{16E0}'
  }

  /** The position of a rune; J has two forms. */
  function PositionOf(c: char): (p: Option<nat>)
    ensures p.Some? ==> p.value < 29
  {
    if c == '\U{16A0}' then Some(0)
    else if c == '\U{16A2}' then Some(1)
    else if c == '\U{16A6}' then Some(2)
    else if c == '\U{16A9}' then Some(3)
    else if c == '\U{16B1}' then Some(4)
    else if c == '\U{16B3}' then Some(5)
    else if c == '\U{16B7}' then Some(6)
    else if c == '\U{16B9}' then Some(7)
    else if c == '\U{16BB}' then Some(8)
    else if c == '\U{16BE}' then Some(9)
    else if c == '\U{16C1}' then Some(10)
    else if c == '\U{16C2}' || c == '\U{16C4}' then Some(11)
    else if c == '\U{16C7}' then Some(12)
    else if c == '\U{16C8}' then Some(13)
    else if c == '\U{16C9}' then Some(14)
    else if c == '\U{16CB}' then Some(15)
    else if c == '\U{16CF}' then Some(16)
    else if c == '\U{16D2}' then Some(17)
    else if c == '\U{16D6}' then Some(18)
    else if c == '\U{16D7}' then Some(19)
    else if c == '\U{16DA}' then Some(20)
    else if c == '\U{16DD}' then Some(21)
    else if c == '\U{16DF}' then Some(22)
    else if c == '\U{16DE}' then Some(23)
    else if c == '\U{16AA}' then Some(24)
    else if c == '\U{16AB}' then Some(25)
    else if c == '\U{16A3}' then Some(26)
    else if c == '\U{16E1}' then Some(27)
    else if c == '\U{16E0}' then Some(28)
    else None
  }

  /** The characters str.split() separates at. */
  predicate IsSpace(c: char) {
    var n := c as int;
    9 <= n <= 13 || 28 <= n <= 32 || n == 133 || n == 160 || n == 5760 || 8192 <= n <= 8202 ||
    n == 8232 || n == 8233 || n == 8239 || n == 8287 || n == 12288
  }

  lemma PositionOfRune(p: nat)
    requires p < 29
    ensures PositionOf(Rune(p)) == Some(p) && !IsSpace(Rune(p))
  {
  }

  function Digits(n: nat): (s: string)
    ensures |s| > 0
  {
    if n < 10 then [n as char + '0'] else Digits(n / 10) + [(n % 10) as char + '0']
  }

  /** The number that a string of digits shows. */
  function Shown(s: string): int {
    if |s| == 0 then 0 else 10 * Shown(s[..|s| - 1]) + (s[|s| - 1] as int - '0' as int)
  }

  /** Numbers are shown in decimal, without leading zeros. */
  lemma {:induction false} DigitsShow(n: nat)
    ensures Shown(Digits(n)) == n && (n > 0 ==> Digits(n)[0] != '0')
    ensures forall i :: 0 <= i < |Digits(n)| ==> '0' <= Digits(n)[i] <= '9'
  {
    var s := Digits(n);
    if n < 10 {
      assert s[..0] == "";
    } else {
      DigitsShow(n / 10);
      assert s[..|s| - 1] == Digits(n / 10);
    }
  }

  /** pos_to_rune: positions outside the table are shown in decimal. */
  function PosToRune(p: int): (s: string)
    ensures |s| > 0
  {
    if 0 <= p < 29 then [Rune(p)] else if p >= 0 then Digits(p) else "-" + Digits(-p)
  }

  // -- printing ------------------------------------------------------------------

  /** The words still to come at position k, when cur has been gathered so far. */
  function WordsFrom(idx: seq<int>, w: Wli, cur: string, k: nat): seq<string>
    requires k <= |idx| <= |w|
    decreases |idx| - k
  {
    if k == |idx| then (if cur == "" then [] else [cur])
    else
      var more := cur + PosToRune(idx[k]);
      if w[k].pos == w[k].length - 1 then [more] + WordsFrom(idx, w, "", k + 1) else WordsFrom(idx, w, more, k + 1)
  }

  function Concat(idx: seq<int>): string {
    if |idx| == 0 then "" else Concat(idx[..|idx| - 1]) + PosToRune(idx[|idx| - 1])
  }

  /** " ".join(words) */
  function Join(words: seq<string>): string {
    if |words| == 0 then "" else if |words| == 1 then words[0] else words[0] + " " + Join(words[1..])
  }

  /** One space between any two words, and none elsewhere. */
  lemma {:induction false} JoinSnoc(words: seq<string>, word: string)
    ensures Join([word]) == word
    ensures words != [] ==> Join(words + [word]) == Join(words) + " " + word
  {
    if |words| == 1 {
      assert (words + [word])[1..] == [word];
    } else if |words| > 1 {
      JoinSnoc(words[1..], word);
      assert (words + [word])[1..] == words[1..] + [word];
    }
  }

  datatype RenderError = WliTooShort

  function Rendered(idx: seq<int>, w: Wli): Result<string, RenderError> {
    if w == [] then Ok(Concat(idx))
    else if |w| < |idx| then Err(WliTooShort)
    else Ok(Join(WordsFrom(idx, w, "", 0)))
  }

  /** Without word-length information: one word. */
  method ConcatRunes(idx: seq<int>) returns (text: string)
    ensures text == Concat(idx)
  {
    text := "";
    for i := 0 to |idx|
      invariant text == Concat(idx[..i])
    {
      assert idx[..i + 1][..i] == idx[..i];
      text := text + PosToRune(idx[i]);
    }
    assert idx[..|idx|] == idx;
  }

  method RunesFromIndices(idx: seq<int>, w: Wli) returns (r: Result<string, RenderError>)
    ensures r == Rendered(idx, w)
  {
    if w == [] {
      var text := ConcatRunes(idx);
      return Ok(text);
    }
    var words: seq<string>, cur := [], "";
    var i := 0;
    while i < |idx|
      invariant 0 <= i <= |idx| && i <= |w|
      invariant |idx| <= |w| ==> words + WordsFrom(idx, w, cur, i) == WordsFrom(idx, w, "", 0)
    {
      cur := cur + PosToRune(idx[i]);
      if i >= |w| {
        return Err(WliTooShort);
      }
      if w[i].pos == w[i].length - 1 {
        words := words + [cur];
        cur := "";
      }
      i := i + 1;
    }
    assert words + [] == words;
    if cur != "" {
      words := words + [cur];
    }
    assert words == WordsFrom(idx, w, "", 0);
    return Ok(Join(words));
  }

  // -- reading -------------------------------------------------------------------

  /** text.split(), with cur the word being read. */
  function SplitFrom(text: string, cur: string): seq<string> {
    if |text| == 0 then (if cur == "" then [] else [cur])
    else if IsSpace(text[0]) then (if cur == "" then [] else [cur]) + SplitFrom(text[1..], "")
    else SplitFrom(text[1..], cur + [text[0]])
  }

  /** Splitting is the words before a space and then the words behind it; a text without spaces is
      one word, or none if it is empty. */
  lemma {:induction false} SplitAtSpace(a: string, space: char, b: string, cur: string)
    requires IsSpace(space)
    ensures SplitFrom(a + [space] + b, cur) == SplitFrom(a, cur) + SplitFrom(b, "")
    decreases |a|
  {
    var text := a + [space] + b;
    if |a| == 0 {
      assert text[0] == space && text[1..] == b;
    } else {
      assert text[1..] == a[1..] + [space] + b;
      if IsSpace(a[0]) {
        SplitAtSpace(a[1..], space, b, "");
        var first := if cur == "" then [] else [cur];
        assert first + (SplitFrom(a[1..], "") + SplitFrom(b, "")) == (first + SplitFrom(a[1..], "")) + SplitFrom(b, "");
      } else {
        SplitAtSpace(a[1..], space, b, cur + [a[0]]);
      }
    }
  }

  /** rune_to_pos; None stands for the KeyError of an unknown rune. */
  function RuneToPos(word: string): Option<seq<int>> {
    if |word| == 0 then Some([])
    else match RuneToPos(word[..|word| - 1])
      case None => None
      case Some(before) => match PositionOf(word[|word| - 1])
        case None => None
        case Some(p) => Some(before + [p])
  }

  datatype RuneError = UnknownRune

  /** What _parse_rune_words makes of the words. */
  function ReadWords(words: seq<string>): Result<(seq<int>, seq<int>), RuneError> {
    if |words| == 0 then Ok(([], []))
    else match ReadWords(words[..|words| - 1])
      case Err(e) => Err(e)
      case Ok((idx, lengths)) => match RuneToPos(words[|words| - 1])
        case None => Err(UnknownRune)
        case Some(more) => Ok((idx + more, lengths + [|more|]))
  }

  function Parsed(text: string): Result<(seq<int>, Wli), RuneError> {
    match ReadWords(SplitFrom(text, ""))
    case Err(e) => Err(e)
    case Ok((idx, lengths)) => Ok((idx, FromWordLengths(lengths)))
  }

  lemma {:induction false} ReadWordsFails(words: seq<string>, k: nat)
    requires k <= |words| && ReadWords(words[..k]).Err?
    ensures ReadWords(words) == Err(UnknownRune)
    decreases |words| - k
  {
    if k == |words| {
      assert words[..k] == words && ReadWords(words).error.UnknownRune?;
    } else {
      assert words[..k + 1][..k] == words[..k];
      ReadWordsFails(words, k + 1);
    }
  }

  method ParseRuneWords(text: string) returns (r: Result<(seq<int>, Wli), RuneError>)
    ensures r == Parsed(text)
  {
    var words := SplitFrom(text, "");
    var indices: seq<int>, wordLengths: seq<int> := [], [];
    for k := 0 to |words|
      invariant ReadWords(words[..k]) == Ok((indices, wordLengths))
    {
      assert words[..k + 1][..k] == words[..k];
      var read := RuneToPos(words[k]);
      if read.None? {
        ReadWordsFails(words, k + 1);
        return Err(UnknownRune);
      }
      indices := indices + read.value;
      wordLengths := wordLengths + [|read.value|];
    }
    assert words[..|words|] == words;
    return Ok((indices, FromWordLengths(wordLengths)));
  }

  // -- reading back what was printed --------------------------------------------------

  ghost predicate Letters(idx: seq<int>) {
    forall i :: 0 <= i < |idx| ==> 0 <= idx[i] < 29
  }

  function Total(lengths: seq<int>): int {
    if |lengths| == 0 then 0 else lengths[0] + Total(lengths[1..])
  }

  lemma {:induction false} TotalPositive(lengths: seq<int>)
    requires Encodable(lengths)
    ensures Total(lengths) >= 0 && |FromWordLengths(lengths)| == Total(lengths)
  {
    if |lengths| > 0 {
      TotalPositive(lengths[1..]);
    }
  }

  /** idx cut into words of the given lengths. */
  function Groups(idx: seq<int>, lengths: seq<int>): (groups: seq<seq<int>>)
    requires Encodable(lengths) && Total(lengths) == |idx|
  {
    if |lengths| == 0 then []
    else
      TotalPositive(lengths[1..]);
      [idx[..lengths[0]]] + Groups(idx[lengths[0]..], lengths[1..])
  }

  function Texts(groups: seq<seq<int>>): (words: seq<string>)
    ensures |words| == |groups| && forall i :: 0 <= i < |groups| ==> words[i] == Concat(groups[i])
  {
    seq(|groups|, i requires 0 <= i < |groups| => Concat(groups[i]))
  }

  function Flat(groups: seq<seq<int>>): seq<int> {
    if |groups| == 0 then [] else groups[0] + Flat(groups[1..])
  }

  function Sizes(groups: seq<seq<int>>): (s: seq<int>)
    ensures |s| == |groups| && forall i :: 0 <= i < |groups| ==> s[i] == |groups[i]|
  {
    seq(|groups|, i requires 0 <= i < |groups| => |groups[i]|)
  }

  lemma {:induction false} GroupsFit(idx: seq<int>, lengths: seq<int>)
    requires Encodable(lengths) && Total(lengths) == |idx|
    ensures Flat(Groups(idx, lengths)) == idx && Sizes(Groups(idx, lengths)) == lengths
  {
    if |lengths| > 0 {
      var n, groups := lengths[0], Groups(idx, lengths);
      TotalPositive(lengths[1..]);
      GroupsFit(idx[n..], lengths[1..]);
      assert groups[1..] == Groups(idx[n..], lengths[1..]);
      assert idx[..n] + idx[n..] == idx;
      forall i | 0 <= i < |groups| ensures Sizes(groups)[i] == lengths[i] {
        if i > 0 {
          assert Sizes(groups[1..])[i - 1] == lengths[1..][i - 1];
        }
      }
    }
  }

  lemma {:induction false} FlatMember(groups: seq<seq<int>>, i: nat)
    requires i < |groups| && Letters(Flat(groups))
    ensures Letters(groups[i])
  {
    var rest := Flat(groups[1..]);
    assert forall k :: 0 <= k < |groups[0]| ==> Flat(groups)[k] == groups[0][k];
    assert forall k :: 0 <= k < |rest| ==> Flat(groups)[|groups[0]| + k] == rest[k];
    if i > 0 {
      FlatMember(groups[1..], i - 1);
    }
  }

  /** The printer shifted by a prefix it has left behind. */
  lemma {:induction false} WordsShift(idx: seq<int>, w: Wli, a: nat, cur: string, k: nat)
    requires a <= |idx| <= |w| && k <= |idx| - a
    ensures WordsFrom(idx, w, cur, a + k) == WordsFrom(idx[a..], w[a..], cur, k)
    decreases |idx| - k
  {
    if k < |idx| - a {
      var more := cur + PosToRune(idx[a + k]);
      WordsShift(idx, w, a, more, k + 1);
      WordsShift(idx, w, a, "", k + 1);
    }
  }

  /** Inside the first word the printer gathers runes until the word is full. */
  lemma {:induction false} FirstWord(idx: seq<int>, w: Wli, n: nat, k: nat)
    requires 1 <= n <= |idx| <= |w| && k < n && w[..n] == WordEntries(n)
    ensures WordsFrom(idx, w, Concat(idx[..k]), k) == [Concat(idx[..n])] + WordsFrom(idx, w, "", n)
    decreases n - k
  {
    assert w[k] == w[..n][k] == Entry(k, n);
    assert idx[..k + 1][..k] == idx[..k];
    assert Concat(idx[..k + 1]) == Concat(idx[..k]) + PosToRune(idx[k]);
    if k < n - 1 {
      FirstWord(idx, w, n, k + 1);
    }
  }

  lemma PrintedWord(idx: seq<int>, n: int, rest: Wli)
    requires 1 <= n <= MAX_WORD && |idx| == n + |rest|
    ensures WordsFrom(idx, WordEntries(n) + rest, "", 0) == [Concat(idx[..n])] + WordsFrom(idx[n..], rest, "", 0)
  {
    var w := WordEntries(n) + rest;
    assert w[..n] == WordEntries(n) && w[n..] == rest;
    assert Concat(idx[..0]) == "";
    FirstWord(idx, w, n, 0);
    WordsShift(idx, w, n, "", 0);
  }

  lemma GroupsCons(idx: seq<int>, lengths: seq<int>)
    requires |lengths| > 0 && Encodable(lengths) && Total(lengths) == |idx|
    ensures lengths[0] <= |idx| && Total(lengths[1..]) == |idx[lengths[0]..]|
    ensures var groups := Groups(idx, lengths);
            |groups| > 0 && groups[0] == idx[..lengths[0]] && groups[1..] == Groups(idx[lengths[0]..], lengths[1..])
  {
    TotalPositive(lengths[1..]);
  }

  lemma TextsByIndex(groups: seq<seq<int>>)
    requires |groups| > 0
    ensures Texts(groups) == [Concat(groups[0])] + Texts(groups[1..])
  {
    var a, b := Texts(groups), [Concat(groups[0])] + Texts(groups[1..]);
    forall i | 0 <= i < |a| ensures a[i] == b[i] {
      if i > 0 {
        assert b[i] == Texts(groups[1..])[i - 1] == Concat(groups[1..][i - 1]);
      }
    }
  }

  lemma {:induction false} PrintedIsCut(idx: seq<int>, lengths: seq<int>)
    requires Encodable(lengths) && Total(lengths) == |idx|
    ensures |FromWordLengths(lengths)| == |idx|
    ensures WordsFrom(idx, FromWordLengths(lengths), "", 0) == Texts(Groups(idx, lengths))
  {
    TotalPositive(lengths);
    if |lengths| > 0 {
      var n, rest := lengths[0], lengths[1..];
      TotalPositive(rest);
      PrintedIsCut(idx[n..], rest);
      PrintedWord(idx, n, FromWordLengths(rest));
      GroupsCons(idx, lengths);
      TextsByIndex(Groups(idx, lengths));
    }
  }

  lemma RuneToPosMore(word: string, c: char)
    requires RuneToPos(word).Some? && PositionOf(c).Some?
    ensures RuneToPos(word + [c]) == Some(RuneToPos(word).value + [PositionOf(c).value])
  {
    assert (word + [c])[..|word|] == word;
  }

  lemma {:induction false} ReadConcat(idx: seq<int>)
    requires Letters(idx)
    ensures RuneToPos(Concat(idx)) == Some(idx) && |Concat(idx)| == |idx|
    ensures forall i :: 0 <= i < |Concat(idx)| ==> !IsSpace(Concat(idx)[i])
  {
    if |idx| > 0 {
      var init, p := idx[..|idx| - 1], idx[|idx| - 1];
      ReadConcat(init);
      PositionOfRune(p);
      RuneToPosMore(Concat(init), Rune(p));
      assert init + [p] == idx;
    }
  }

  ghost predicate IsWord(word: string) {
    |word| > 0 && forall i :: 0 <= i < |word| ==> !IsSpace(word[i])
  }

  lemma {:induction false} SplitWord(word: string, rest: string, cur: string)
    requires forall i :: 0 <= i < |word| ==> !IsSpace(word[i])
    ensures SplitFrom(word + rest, cur) == SplitFrom(rest, cur + word)
    decreases |word|
  {
    if |word| == 0 {
      assert word + rest == rest && cur + word == cur;
    } else {
      assert (word + rest)[1..] == word[1..] + rest;
      SplitWord(word[1..], rest, cur + [word[0]]);
      assert cur + [word[0]] + word[1..] == cur + word;
    }
  }

  lemma {:induction false} SplitJoin(words: seq<string>)
    requires forall i :: 0 <= i < |words| ==> IsWord(words[i])
    ensures SplitFrom(Join(words), "") == words
  {
    if |words| == 1 {
      SplitWord(words[0], "", "");
      assert words[0] + "" == words[0] && "" + words[0] == words[0];
    } else if |words| > 1 {
      var rest := " " + Join(words[1..]);
      SplitWord(words[0], rest, "");
      assert words[0] + rest == words[0] + " " + Join(words[1..]) && "" + words[0] == words[0];
      assert rest[1..] == Join(words[1..]);
      SplitJoin(words[1..]);
    }
  }

  lemma {:induction false} ReadWordsCons(word: string, words: seq<string>)
    ensures ReadWords([word] + words) == match RuneToPos(word)
              case None => Err(UnknownRune)
              case Some(more) => (match ReadWords(words)
                case Err(e) => Err(e)
                case Ok((idx, lengths)) => Ok((more + idx, [|more|] + lengths)))
  {
    if |words| == 0 {
      var one := [word];
      assert [word] + words == one && one[..0] == [] && one[0] == word;
      assert ReadWords(one[..0]) == Ok(([], []));
      if RuneToPos(word).Some? {
        var more := RuneToPos(word).value;
        assert [] + more == more && more + [] == more && [] + [|more|] == [|more|] && [|more|] + [] == [|more|];
      }
    } else {
      var init := words[..|words| - 1];
      ReadWordsCons(word, init);
      assert ([word] + words)[..|words|] == [word] + init;
      if RuneToPos(word).Some? && ReadWords(words).Ok? {
        var more, last := RuneToPos(word).value, RuneToPos(words[|words| - 1]).value;
        var (idx, lengths) := ReadWords(init).value;
        assert (more + idx) + last == more + (idx + last);
        assert ([|more|] + lengths) + [|last|] == [|more|] + (lengths + [|last|]);
      }
    }
  }

  lemma ReadWordsAnd(word: string, words: seq<string>, more: seq<int>, idx: seq<int>, lengths: seq<int>)
    requires RuneToPos(word) == Some(more) && ReadWords(words) == Ok((idx, lengths))
    ensures ReadWords([word] + words) == Ok((more + idx, [|more|] + lengths))
  {
    ReadWordsCons(word, words);
  }

  lemma SizesByIndex(groups: seq<seq<int>>)
    requires |groups| > 0
    ensures Sizes(groups) == [|groups[0]|] + Sizes(groups[1..])
  {
    var a, b := Sizes(groups), [|groups[0]|] + Sizes(groups[1..]);
    forall i | 0 <= i < |a| ensures a[i] == b[i] {
      if i > 0 {
        assert b[i] == Sizes(groups[1..])[i - 1] == |groups[1..][i - 1]|;
      }
    }
  }

  lemma TextsCons(groups: seq<seq<int>>)
    requires |groups| > 0
    ensures Texts(groups) == [Concat(groups[0])] + Texts(groups[1..])
    ensures Sizes(groups) == [|groups[0]|] + Sizes(groups[1..])
  {
    TextsByIndex(groups);
    SizesByIndex(groups);
  }

  lemma {:induction false} ReadTexts(groups: seq<seq<int>>)
    requires forall i :: 0 <= i < |groups| ==> Letters(groups[i])
    ensures ReadWords(Texts(groups)) == Ok((Flat(groups), Sizes(groups)))
  {
    if |groups| > 0 {
      var first, rest := groups[0], groups[1..];
      ReadConcat(first);
      ReadTexts(rest);
      ReadWordsAnd(Concat(first), Texts(rest), first, Flat(rest), Sizes(rest));
      TextsCons(groups);
    }
  }

  lemma TextsAreWords(groups: seq<seq<int>>)
    requires forall i :: 0 <= i < |groups| ==> Letters(groups[i]) && |groups[i]| > 0
    ensures forall i :: 0 <= i < |groups| ==> IsWord(Texts(groups)[i])
  {
    forall i | 0 <= i < |groups| ensures IsWord(Texts(groups)[i]) {
      ReadConcat(groups[i]);
    }
  }

  /** Whatever index data the validator accepts is read back from its own rune text. */
  lemma PrintThenParse(idx: seq<int>, w: Wli)
    requires idx != [] && Letters(idx) && |w| == |idx| && Parse(w).Some?
    ensures Rendered(idx, w).Ok? && Parsed(Rendered(idx, w).value) == Ok((idx, w))
  {
    var lengths := Parse(w).value;
    ParseSound(w);
    TotalPositive(lengths);
    PrintedIsCut(idx, lengths);
    var groups := Groups(idx, lengths);
    GroupsFit(idx, lengths);
    forall i | 0 <= i < |groups| ensures Letters(groups[i]) && |groups[i]| > 0 {
      FlatMember(groups, i);
      assert Sizes(groups)[i] == lengths[i];
    }
    ReadTexts(groups);
    TextsAreWords(groups);
    SplitJoin(Texts(groups));
  }
}
