/** Why a cut or glued JSON object never reads as a record: the brackets of a printed
    object close at its last byte and not before. */
module JsonText {
  import opened Results
  import opened CampaignLog
  import Counting
  import opened Sequences

  type Text = seq<Byte>

  const QUOTE: Byte := 34
  const BACKSLASH: Byte := 92
  const COMMA: Byte := 44
  const COLON: Byte := 58
  const SPACE: Byte := 32
  const LBRACKET: Byte := 91
  const RBRACKET: Byte := 93
  const LBRACE: Byte := 123
  const RBRACE: Byte := 125

  /** A literal is null, true, false or a number. Object members are sorted by the caller. */
  datatype Json =
    | Literal(text: Text)
    | Str(chars: Text)
    | List(items: seq<Json>)
    | Object(keys: seq<Text>, values: seq<Json>)

  predicate LiteralByte(b: Byte) {
    b > SPACE && b !in {QUOTE, BACKSLASH, COMMA, COLON, LBRACKET, RBRACKET, LBRACE, RBRACE}
  }

  ghost predicate WellFormed(v: Json) {
    match v
    case Literal(text) => forall i :: 0 <= i < |text| ==> LiteralByte(text[i])
    case Str(_) => true
    case List(items) => forall i :: 0 <= i < |items| ==> WellFormed(items[i])
    case Object(keys, values) => |keys| == |values| && forall i :: 0 <= i < |values| ==> WellFormed(values[i])
  }

  function HexDigit(d: nat): Byte
    requires d < 16
  {
    if d < 10 then 48 + d else 87 + d
  }

  function EscapeByte(b: Byte): Text {
    if b == QUOTE || b == BACKSLASH then [BACKSLASH, b]
    else if b == NL then [BACKSLASH, 110]
    else if b == CR then [BACKSLASH, 114]
    else if b == 9 then [BACKSLASH, 116]
    else if b == 8 then [BACKSLASH, 98]
    else if b == 12 then [BACKSLASH, 102]
    else if b < SPACE then [BACKSLASH, 117, 48, 48, HexDigit(b / 16), HexDigit(b % 16)]
    else [b]
  }

  function Escape(s: Text): Text {
    if |s| == 0 then [] else Escape(s[..|s| - 1]) + EscapeByte(s[|s| - 1])
  }

  function Quoted(s: Text): Text {
    [QUOTE] + Escape(s) + [QUOTE]
  }

  function PrintMembers(v: Json, k: nat): Text
    requires v.Object? && WellFormed(v) && k <= |v.values|
    decreases v, k
  {
    if k == 0 then
      []
    else
      PrintMembers(v, k - 1) + (if k == 1 then [] else [COMMA, SPACE]) +
      Quoted(v.keys[k - 1]) + [COLON, SPACE] + Print(v.values[k - 1])
  }

  /** json.dumps with ensure_ascii off and the default separators. */
  function Print(v: Json): Text
    requires WellFormed(v)
    decreases v
  {
    match v
    case Literal(text) => text
    case Str(s) => Quoted(s)
    case List(items) => [LBRACKET] + PrintItems(v, |items|) + [RBRACKET]
    case Object(keys, values) => [LBRACE] + PrintMembers(v, |values|) + [RBRACE]
  }

  function PrintItems(v: Json, k: nat): Text
    requires v.List? && WellFormed(v) && k <= |v.items|
    decreases v, k
  {
    if k == 0 then []
    else PrintItems(v, k - 1) + (if k == 1 then [] else [COMMA, SPACE]) + Print(v.items[k - 1])
  }

  // -- the bracket scanner -----------------------------------------------------------

  datatype Mode = Plain | InString | Escaped

  datatype Scan = Scan(depth: int, mode: Mode)

  function ScanByte(s: Scan, b: Byte): Scan {
    match s.mode
    case Plain =>
      if b == QUOTE then s.(mode := InString)
      else if b == LBRACE || b == LBRACKET then s.(depth := s.depth + 1)
      else if b == RBRACE || b == RBRACKET then s.(depth := s.depth - 1)
      else s
    case InString => if b == BACKSLASH then s.(mode := Escaped) else if b == QUOTE then s.(mode := Plain) else s
    case Escaped => s.(mode := InString)
  }

  /** The scanner's state after the first k bytes. */
  function ScanTo(t: Text, k: nat, s: Scan): Scan
    requires k <= |t|
  {
    if k == 0 then s else ScanByte(ScanTo(t, k - 1, s), t[k - 1])
  }

  lemma {:induction false} ScanPrefix(a: Text, b: Text, k: nat, s: Scan)
    requires k <= |a|
    ensures ScanTo(a + b, k, s) == ScanTo(a, k, s)
  {
    if k > 0 {
      ScanPrefix(a, b, k - 1, s);
    }
  }

  lemma {:induction false} ScanSuffix(a: Text, b: Text, k: nat, s: Scan)
    requires k <= |b|
    ensures ScanTo(a + b, |a| + k, s) == ScanTo(b, k, ScanTo(a, |a|, s))
  {
    if k == 0 {
      ScanPrefix(a, b, |a|, s);
    } else {
      ScanSuffix(a, b, k - 1, s);
    }
  }

  /** From s the text leads to e without line breaks and without going below depth low. */
  ghost predicate Leads(t: Text, s: Scan, e: Scan, low: int) {
    && NoBreak(t) && ScanTo(t, |t|, s) == e
    && forall k :: 0 <= k <= |t| ==> ScanTo(t, k, s).depth >= low
  }

  lemma LeadsAppend(a: Text, b: Text, s: Scan, m: Scan, e: Scan, low: int)
    requires Leads(a, s, m, low) && Leads(b, m, e, low)
    ensures Leads(a + b, s, e, low)
  {
    ScanSuffix(a, b, |b|, s);
    forall k | 0 <= k <= |a + b| ensures ScanTo(a + b, k, s).depth >= low {
      if k <= |a| {
        ScanPrefix(a, b, k, s);
      } else {
        ScanSuffix(a, b, k - |a|, s);
      }
    }
  }

  lemma LeadsByte(b: Byte, s: Scan, low: int)
    requires b != NL && b != CR && s.depth >= low && ScanByte(s, b).depth >= low
    ensures Leads([b], s, ScanByte(s, b), low)
  {
    assert ScanTo([b], 0, s) == s;
  }

  lemma {:induction false} LeadsLiteral(t: Text, d: int)
    requires forall i :: 0 <= i < |t| ==> LiteralByte(t[i])
    ensures Leads(t, Scan(d, Plain), Scan(d, Plain), d)
  {
    if |t| > 0 {
      LeadsLiteral(t[..|t| - 1], d);
      LeadsByte(t[|t| - 1], Scan(d, Plain), d);
      LeadsAppend(t[..|t| - 1], [t[|t| - 1]], Scan(d, Plain), Scan(d, Plain), Scan(d, Plain), d);
      assert t == t[..|t| - 1] + [t[|t| - 1]];
    }
  }

  /** Bytes that mean nothing inside a string. */
  lemma {:induction false} LeadsInString(t: Text, d: int)
    requires forall i :: 0 <= i < |t| ==> t[i] !in {QUOTE, BACKSLASH, NL, CR}
    ensures Leads(t, Scan(d, InString), Scan(d, InString), d)
  {
    if |t| > 0 {
      LeadsInString(t[..|t| - 1], d);
      LeadsByte(t[|t| - 1], Scan(d, InString), d);
      LeadsAppend(t[..|t| - 1], [t[|t| - 1]], Scan(d, InString), Scan(d, InString), Scan(d, InString), d);
      assert t == t[..|t| - 1] + [t[|t| - 1]];
    }
  }

  lemma LeadsEscapeByte(b: Byte, d: int)
    ensures Leads(EscapeByte(b), Scan(d, InString), Scan(d, InString), d)
  {
    var e, s := EscapeByte(b), Scan(d, InString);
    if |e| == 1 {
      LeadsByte(b, s, d);
    } else {
      LeadsByte(BACKSLASH, s, d);
      LeadsByte(e[1], Scan(d, Escaped), d);
      LeadsAppend([BACKSLASH], [e[1]], s, Scan(d, Escaped), s, d);
      LeadsInString(e[2..], d);
      LeadsAppend([BACKSLASH] + [e[1]], e[2..], s, s, s, d);
      assert e == [BACKSLASH] + [e[1]] + e[2..];
    }
  }

  lemma {:induction false} LeadsEscape(t: Text, d: int)
    ensures Leads(Escape(t), Scan(d, InString), Scan(d, InString), d)
  {
    var s := Scan(d, InString);
    if |t| == 0 {
      LeadsInString([], d);
    } else {
      LeadsEscape(t[..|t| - 1], d);
      LeadsEscapeByte(t[|t| - 1], d);
      LeadsAppend(Escape(t[..|t| - 1]), EscapeByte(t[|t| - 1]), s, s, s, d);
    }
  }

  lemma LeadsQuoted(t: Text, d: int)
    ensures Leads(Quoted(t), Scan(d, Plain), Scan(d, Plain), d)
  {
    var p, s := Scan(d, Plain), Scan(d, InString);
    LeadsByte(QUOTE, p, d);
    LeadsEscape(t, d);
    LeadsByte(QUOTE, s, d);
    LeadsAppend([QUOTE], Escape(t), p, s, s, d);
    LeadsAppend([QUOTE] + Escape(t), [QUOTE], p, s, p, d);
  }

  lemma LeadsBetween(a: Text, x: Byte, y: Byte, b: Text, d: int)
    requires Leads(a, Scan(d, Plain), Scan(d, Plain), d) && Leads(b, Scan(d, Plain), Scan(d, Plain), d)
    requires x in {COMMA, COLON} && y == SPACE
    ensures Leads(a + [x, y] + b, Scan(d, Plain), Scan(d, Plain), d)
  {
    var p := Scan(d, Plain);
    LeadsByte(x, p, d);
    LeadsByte(y, p, d);
    LeadsAppend([x], [y], p, p, p, d);
    LeadsAppend(a, [x] + [y], p, p, p, d);
    LeadsAppend(a + ([x] + [y]), b, p, p, p, d);
    assert [x] + [y] == [x, y];
  }

  lemma LeadsMember(key: Text, value: Text, d: int)
    requires Leads(value, Scan(d, Plain), Scan(d, Plain), d)
    ensures Leads(Quoted(key) + [COLON, SPACE] + value, Scan(d, Plain), Scan(d, Plain), d)
  {
    LeadsQuoted(key, d);
    LeadsBetween(Quoted(key), COLON, SPACE, value, d);
  }

  lemma LeadsBracketed(open: Byte, body: Text, close: Byte, d: int)
    requires (open == LBRACKET && close == RBRACKET) || (open == LBRACE && close == RBRACE)
    requires Leads(body, Scan(d + 1, Plain), Scan(d + 1, Plain), d + 1)
    ensures Leads([open] + body + [close], Scan(d, Plain), Scan(d, Plain), d)
  {
    var p, q := Scan(d, Plain), Scan(d + 1, Plain);
    LeadsByte(open, p, d);
    LeadsByte(close, q, d);
    LeadsAppend([open], body, p, q, q, d);
    LeadsAppend([open] + body, [close], p, q, p, d);
  }

  lemma {:induction false} LeadsMembers(v: Json, k: nat, d: int)
    requires v.Object? && WellFormed(v) && k <= |v.values|
    ensures Leads(PrintMembers(v, k), Scan(d, Plain), Scan(d, Plain), d)
    decreases v, k
  {
    if k == 0 {
      LeadsLiteral([], d);
    } else {
      var before, key, value := PrintMembers(v, k - 1), Quoted(v.keys[k - 1]), Print(v.values[k - 1]);
      LeadsMembers(v, k - 1, d);
      LeadsPrint(v.values[k - 1], d);
      LeadsMember(v.keys[k - 1], value, d);
      if k > 1 {
        LeadsBetween(before, COMMA, SPACE, key + [COLON, SPACE] + value, d);
        Assoc5(before, [COMMA, SPACE], key, [COLON, SPACE], value);
      } else {
        Assoc5([], [], key, [COLON, SPACE], value);
        assert [] + [] + (key + [COLON, SPACE] + value) == key + [COLON, SPACE] + value;
      }
    }
  }

  /** A printed value leaves the scanner where it was and never goes below. */
  lemma {:induction false} LeadsPrint(v: Json, d: int)
    requires WellFormed(v)
    ensures Leads(Print(v), Scan(d, Plain), Scan(d, Plain), d)
    decreases v
  {
    match v
    case Literal(text) => LeadsLiteral(text, d);
    case Str(s) => LeadsQuoted(s, d);
    case List(items) =>
      LeadsItems(v, |items|, d + 1);
      LeadsBracketed(LBRACKET, PrintItems(v, |items|), RBRACKET, d);
    case Object(keys, values) =>
      LeadsMembers(v, |values|, d + 1);
      LeadsBracketed(LBRACE, PrintMembers(v, |values|), RBRACE, d);
  }

  lemma {:induction false} LeadsItems(v: Json, k: nat, d: int)
    requires v.List? && WellFormed(v) && k <= |v.items|
    ensures Leads(PrintItems(v, k), Scan(d, Plain), Scan(d, Plain), d)
    decreases v, k
  {
    if k == 0 {
      LeadsLiteral([], d);
    } else {
      LeadsItems(v, k - 1, d);
      LeadsPrint(v.items[k - 1], d);
      if k > 1 {
        LeadsBetween(PrintItems(v, k - 1), COMMA, SPACE, Print(v.items[k - 1]), d);
      } else {
        assert PrintItems(v, 1) == Print(v.items[0]);
      }
    }
  }

  /** Between its brackets the scanner stays above where it was. */
  lemma InsideBrackets(open: Byte, body: Text, close: Byte, d: int)
    requires open == LBRACKET || open == LBRACE
    requires Leads(body, Scan(d + 1, Plain), Scan(d + 1, Plain), d + 1)
    ensures forall k :: 0 < k <= |body| + 1 ==> ScanTo([open] + body + [close], k, Scan(d, Plain)).depth > d
  {
    var p := Scan(d, Plain);
    LeadsByte(open, p, d);
    forall k | 0 < k <= |body| + 1 ensures ScanTo([open] + body + [close], k, p).depth > d {
      ScanPrefix([open] + body, [close], k, p);
      ScanSuffix([open], body, k - 1, p);
    }
  }

  // -- records as objects --------------------------------------------------------------

  predicate Blank(b: Byte) {
    b == SPACE || b == 9 || b == NL || b == CR
  }

  const START := Scan(0, Plain)

  /** The brackets of the text close for the first time after k bytes, and only blanks follow. */
  ghost predicate ClosesAt(t: Text, k: nat) {
    && 0 < k <= |t| && ScanTo(t, k, START) == START
    && (forall j :: 0 < j < k ==> ScanTo(t, j, START).depth > 0)
    && (forall i :: k <= i < |t| ==> Blank(t[i]))
  }

  ghost predicate AllBlank(t: Text) {
    forall i :: 0 <= i < |t| ==> Blank(t[i])
  }

  /** After a leading blanks the brackets close for the first time k bytes on. */
  ghost predicate ObjectAt(t: Text, a: nat, k: nat) {
    a <= |t| && AllBlank(t[..a]) && ClosesAt(t[a..], k)
  }

  /** What the JSON grammar demands of any text that reads as an object: blanks, one pair of
      brackets with everything between them, blanks. */
  ghost predicate OnlyObjects(decode: Text -> Option<Record>) {
    forall t :: decode(t).Some? ==> exists a, k :: ObjectAt(t, a, k)
  }

  /** A text that starts with a bracket has no leading blanks. */
  lemma NoLeadingBlanks(t: Text, a: nat, k: nat)
    requires ObjectAt(t, a, k) && (|t| > 0 ==> t[0] == LBRACE)
    ensures ClosesAt(t, k)
  {
    assert t[0..] == t;
  }

  ghost predicate ReadsBack(toJson: Record -> Json, decode: Text -> Option<Record>) {
    forall r :: toJson(r).Object? && WellFormed(toJson(r))
      && decode(Print(toJson(r))) == Some(r) && decode(Print(toJson(r)) + [NL]) == Some(r)
  }

  function Encoder(toJson: Record -> Json): Record -> Text
    requires forall r :: WellFormed(toJson(r))
  {
    (r: Record) => Print(toJson(r))
  }

  lemma ObjectScan(v: Json)
    requires v.Object? && WellFormed(v)
    ensures Leads(Print(v), START, START, 0) && |Print(v)| >= 2 && Print(v)[0] == LBRACE
    ensures forall k :: 0 < k < |Print(v)| ==> ScanTo(Print(v), k, START).depth > 0
  {
    LeadsMembers(v, |v.values|, 1);
    LeadsBracketed(LBRACE, PrintMembers(v, |v.values|), RBRACE, 0);
    InsideBrackets(LBRACE, PrintMembers(v, |v.values|), RBRACE, 0);
  }

  lemma CutDoesNotClose(v: Json, k: nat, j: nat)
    requires v.Object? && WellFormed(v) && k < |Print(v)|
    ensures !ClosesAt(Print(v)[..k], j)
  {
    ObjectScan(v);
    if 0 < j <= k {
      assert Print(v) == Print(v)[..k] + Print(v)[k..];
      ScanPrefix(Print(v)[..k], Print(v)[k..], j, START);
    }
  }

  lemma GluedDoesNotClose(v: Json, w: Json, j: nat)
    requires v.Object? && WellFormed(v) && w.Object? && WellFormed(w)
    ensures !ClosesAt(Print(v) + Print(w) + [NL], j)
  {
    var a, b := Print(v), Print(w);
    var t := a + b + [NL];
    ObjectScan(v);
    ObjectScan(w);
    assert t == a + (b + [NL]) && t[|a|] == LBRACE;
    if 0 < j < |a| {
      ScanPrefix(a, b + [NL], j, START);
    } else if j > |a| {
      ScanPrefix(a, b + [NL], |a|, START);
    }
  }

  lemma CutUnread(v: Json, k: nat, decode: Text -> Option<Record>)
    requires v.Object? && WellFormed(v) && k < |Print(v)| && OnlyObjects(decode)
    ensures decode(Print(v)[..k]) == None
  {
    var t := Print(v)[..k];
    ObjectScan(v);
    if decode(t).Some? {
      var a, j :| ObjectAt(t, a, j);
      NoLeadingBlanks(t, a, j);
      CutDoesNotClose(v, k, j);
    }
  }

  lemma GluedUnread(v: Json, w: Json, decode: Text -> Option<Record>)
    requires v.Object? && WellFormed(v) && w.Object? && WellFormed(w) && OnlyObjects(decode)
    ensures decode(Print(v) + Print(w) + [NL]) == None
  {
    var t := Print(v) + Print(w) + [NL];
    ObjectScan(v);
    if decode(t).Some? {
      var a, j :| ObjectAt(t, a, j);
      NoLeadingBlanks(t, a, j);
      GluedDoesNotClose(v, w, j);
    }
  }

  /** The laws the log relies on follow from reading back what was printed and from
      accepting nothing but whole objects. */
  lemma JsonCodecIsLawful(toJson: Record -> Json, decode: Text -> Option<Record>)
    requires ReadsBack(toJson, decode) && OnlyObjects(decode)
    ensures Lawful(Codec(Encoder(toJson), decode))
  {
    var c := Codec(Encoder(toJson), decode);
    forall r ensures NoBreak(c.encode(r)) && |c.encode(r)| > 0 {
      ObjectScan(toJson(r));
    }
    forall r, k | 0 <= k < |c.encode(r)| ensures c.decode(c.encode(r)[..k]) == None {
      CutUnread(toJson(r), k, decode);
    }
    forall r, s ensures c.decode(c.encode(r) + c.encode(s) + [NL]) == None {
      GluedUnread(toJson(r), toJson(s), decode);
    }
  }

  // -- a printer and a reader that meet the demands -----------------------------------------

  const DOT: Byte := 46
  const DIGIT_ONE: Byte := 49

  /** n in w decimal digits. */
  function Digits(n: nat, w: nat): (t: Text)
    ensures |t| == w && forall i :: 0 <= i < w ==> 48 <= t[i] < 58
  {
    if w == 0 then [] else Digits(n / 10, w - 1) + [48 + n % 10]
  }

  lemma {:induction false} DigitsInjective(m: nat, n: nat, w: nat)
    requires Digits(m, w) == Digits(n, w) && m < Counting.Pow(10, w) && n < Counting.Pow(10, w)
    ensures m == n
  {
    if w > 0 {
      var a, b := Digits(m / 10, w - 1), Digits(n / 10, w - 1);
      assert Digits(m, w)[..w - 1] == a && Digits(n, w)[..w - 1] == b;
      assert Digits(m, w)[w - 1] == 48 + m % 10 && Digits(n, w)[w - 1] == 48 + n % 10;
      DigitsInjective(m / 10, n / 10, w - 1);
    }
  }

  /** A string as seven digits a character. */
  function Spelled(s: string): (t: Text)
    ensures |t| == 7 * |s| && forall i :: 0 <= i < |t| ==> 48 <= t[i] < 58
  {
    if |s| == 0 then [] else Spelled(s[..|s| - 1]) + Digits(s[|s| - 1] as nat, 7)
  }

  lemma {:induction false} SpelledInjective(s: string, u: string)
    requires Spelled(s) == Spelled(u)
    ensures s == u
  {
    if |s| > 0 {
      var n, a, b := |s| - 1, Spelled(s[..|s| - 1]), Spelled(u[..|u| - 1]);
      assert Spelled(s)[..7 * n] == a && Spelled(u)[..7 * n] == b;
      assert Spelled(s)[7 * n..] == Digits(s[n] as nat, 7) && Spelled(u)[7 * n..] == Digits(u[n] as nat, 7);
      SpelledInjective(s[..n], u[..n]);
      assert Counting.Pow(10, 7) == 10000000;
      DigitsInjective(s[n] as nat, u[n] as nat, 7);
      assert s == s[..n] + [s[n]] && u == u[..n] + [u[n]];
    }
  }

  /** A record as one number: what it names before the point, the rest of it behind. */
  function Number(r: Record): (t: Text)
    ensures forall i :: 0 <= i < |t| ==> LiteralByte(t[i])
  {
    [DIGIT_ONE] + Spelled(r.trialId) + [DOT] + [DIGIT_ONE] + Spelled(r.fields)
  }

  lemma FirstDot(r: Record, i: nat)
    requires i < |Number(r)| && Number(r)[i] == DOT
    ensures i > |Spelled(r.trialId)|
  {
  }

  lemma NumberInjective(r: Record, s: Record)
    requires Number(r) == Number(s)
    ensures r == s
  {
    var a, b := |Spelled(r.trialId)|, |Spelled(s.trialId)|;
    assert Number(r)[1 + a] == DOT && Number(s)[1 + b] == DOT;
    FirstDot(s, 1 + a);
    FirstDot(r, 1 + b);
    assert Number(r)[1..1 + a] == Spelled(r.trialId) && Number(s)[1..1 + b] == Spelled(s.trialId);
    assert Number(r)[3 + a..] == Spelled(r.fields) && Number(s)[3 + b..] == Spelled(s.fields);
    SpelledInjective(r.trialId, s.trialId);
    SpelledInjective(r.fields, s.fields);
  }

  /** An object with the number as its one member. */
  function ToJson(r: Record): (v: Json)
    ensures v.Object? && WellFormed(v)
  {
    Object([[]], [Literal(Number(r))])
  }

  lemma NothingInFront(a: Text, b: Text, c: Text)
    ensures [] + [] + a + b + c == a + b + c
  {
  }

  lemma PrintMember(v: Json)
    requires v.Object? && WellFormed(v) && |v.values| == 1
    ensures Print(v) == [LBRACE] + (Quoted(v.keys[0]) + [COLON, SPACE] + Print(v.values[0])) + [RBRACE]
  {
    var name, value := Quoted(v.keys[0]), Print(v.values[0]);
    NothingInFront(name, [COLON, SPACE], value);
    assert PrintMembers(v, 0) == [];
    assert PrintMembers(v, 1) == [] + [] + name + [COLON, SPACE] + value;
  }

  lemma ToJsonPrint(r: Record)
    ensures Print(ToJson(r)) == [LBRACE, QUOTE, QUOTE, COLON, SPACE] + Number(r) + [RBRACE]
  {
    assert Quoted([]) == [QUOTE, QUOTE];
    PrintMember(ToJson(r));
    assert Print(Literal(Number(r))) == Number(r);
  }

  /** t is the printed record between blanks. */
  ghost predicate Spaced(t: Text, r: Record, a: nat) {
    && a + |Print(ToJson(r))| <= |t| && AllBlank(t[..a])
    && t[a..a + |Print(ToJson(r))|] == Print(ToJson(r)) && AllBlank(t[a + |Print(ToJson(r))|..])
  }

  /** A reader that skips leading and trailing blanks, as json.loads does. */
  ghost function Reader(t: Text): Option<Record> {
    if exists r, a :: Spaced(t, r, a) then
      var r, a :| Spaced(t, r, a);
      Some(r)
    else None
  }

  lemma SpacedStart(t: Text, r: Record, a: nat, s: Record, b: nat)
    requires Spaced(t, r, a) && Spaced(t, s, b)
    ensures a <= b
  {
    ToJsonPrint(s);
    assert t[b..b + |Print(ToJson(s))|][0] == t[b];
  }

  lemma SpacedEnd(t: Text, r: Record, s: Record, a: nat)
    requires Spaced(t, r, a) && Spaced(t, s, a)
    ensures |Print(ToJson(r))| >= |Print(ToJson(s))|
  {
    var m, n := |Print(ToJson(r))|, |Print(ToJson(s))|;
    ToJsonPrint(s);
    assert t[a..a + n][n - 1] == t[a + n - 1];
  }

  lemma SpacedUnique(t: Text, r: Record, a: nat, s: Record, b: nat)
    requires Spaced(t, r, a) && Spaced(t, s, b)
    ensures r == s
  {
    SpacedStart(t, r, a, s, b);
    SpacedStart(t, s, b, r, a);
    var x, y := Print(ToJson(r)), Print(ToJson(s));
    SpacedEnd(t, r, s, a);
    SpacedEnd(t, s, r, a);
    ToJsonPrint(r);
    ToJsonPrint(s);
    assert x == y;
    assert x[5..|x| - 1] == Number(r) && y[5..|y| - 1] == Number(s);
    NumberInjective(r, s);
  }

  lemma ReaderReads(t: Text, r: Record, a: nat)
    requires Spaced(t, r, a)
    ensures Reader(t) == Some(r)
  {
    forall s, b | Spaced(t, s, b) ensures s == r {
      SpacedUnique(t, s, b, r, a);
    }
  }

  lemma ReadBetween(before: Text, r: Record, after: Text)
    requires AllBlank(before) && AllBlank(after)
    ensures Reader(before + Print(ToJson(r)) + after) == Some(r)
  {
    var a, x := |before|, Print(ToJson(r));
    var t := before + x + after;
    assert t[..a] == before && t[a..a + |x|] == x && t[a + |x|..] == after;
    ReaderReads(t, r, a);
  }

  lemma SpacedCloses(t: Text, r: Record, a: nat)
    requires Spaced(t, r, a)
    ensures ObjectAt(t, a, |Print(ToJson(r))|)
  {
    var x, rest := Print(ToJson(r)), t[a..];
    var k := |x|;
    assert rest[..k] == x && rest[k..] == t[a + k..];
    assert rest == x + rest[k..];
    ObjectScan(ToJson(r));
    forall j | 0 <= j <= k ensures ScanTo(rest, j, START) == ScanTo(x, j, START) {
      ScanPrefix(x, rest[k..], j, START);
    }
    forall i | k <= i < |rest| ensures Blank(rest[i]) {
      assert rest[i] == t[a + k..][i - k];
    }
  }

  /** The demands on a printer and a reader can be met, also by a reader that skips blanks. */
  lemma DemandsAreMet()
    ensures ReadsBack(ToJson, Reader) && OnlyObjects(Reader) && Lawful(Codec(Encoder(ToJson), Reader))
    ensures forall r :: Reader([SPACE] + Print(ToJson(r))) == Some(r)
  {
    forall r
      ensures Reader(Print(ToJson(r))) == Some(r) && Reader(Print(ToJson(r)) + [NL]) == Some(r)
      ensures Reader([SPACE] + Print(ToJson(r))) == Some(r)
    {
      ReadBetween([], r, []);
      ReadBetween([], r, [NL]);
      ReadBetween([SPACE], r, []);
      var x := Print(ToJson(r));
      assert [] + x + [] == x && [] + x + [NL] == x + [NL] && [SPACE] + x + [] == [SPACE] + x;
    }
    forall t | Reader(t).Some? ensures exists a, k :: ObjectAt(t, a, k) {
      var r, a :| Spaced(t, r, a);
      SpacedCloses(t, r, a);
    }
    JsonCodecIsLawful(ToJson, Reader);
  }
}
