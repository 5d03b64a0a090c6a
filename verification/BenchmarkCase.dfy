/** Building a benchmark case: a plaintext is enciphered under the benchmark's own key, and
    the cribs must lead back to it. */
module BenchmarkCase {
  import opened ModArith
  import opened LinearSystem
  import opened Results
  import opened Rref
  import opened AffineSpace
  import opened KeySpace
  import opened TwoPeriodRank
  import opened CribGraph
  import opened BenchmarkLadder

  const LAST_RUNE: int := 28

  /** k entries of a stream that goes up by a constant step. */
  function Steps(step: nat, first: nat, k: nat, m: nat): (r: Row)
    requires m > 0
    ensures |r| == k && Residues(r, m) && forall i :: 0 <= i < k ==> r[i] == (step * i + first) % m
  {
    seq(k, i requires 0 <= i < k => (step * i + first) % m)
  }

  lemma StoredResidues(x: Row, m: int)
    requires Residues(x, m)
    ensures Residues(Stored(x), m)
  {
  }

  /** The key that every benchmark is enciphered with; it is stored as bytes. */
  function DeterministicKey(b: BenchmarkSpec): (key: Row)
    requires b.Valid()
    ensures IsKey(b, key) && key[b.periodA] == 0
  {
    var x := Steps(5, 3, b.periodA, b.alphabetSize) + [b.gaugeValue] + Steps(7, 18, b.periodB - 1, b.alphabetSize);
    StoredResidues(x, b.alphabetSize);
    Stored(x)
  }

  lemma ByteFits(x: int, m: int)
    requires 0 < m <= 256
    ensures x % m % 256 == x % m
  {
  }

  /** Entry by entry, on alphabets that fit into bytes. */
  lemma DeterministicKeyAt(b: BenchmarkSpec, i: nat)
    requires b.Valid() && b.alphabetSize <= 256
    ensures i < b.periodA ==> DeterministicKey(b)[i] == (5 * i + 3) % b.alphabetSize
    ensures 0 < i < b.periodB ==> DeterministicKey(b)[b.periodA + i] == (7 * i + 11) % b.alphabetSize
  {
    ByteFits(5 * i + 3, b.alphabetSize);
    ByteFits(7 * i + 11, b.alphabetSize);
  }

  // -- the cipher --------------------------------------------------------------------------

  /** The cipher takes and returns runes 0 to 28 only, and none outside its alphabet. */
  predicate InRunes(b: BenchmarkSpec, text: seq<int>) {
    forall p :: 0 <= p < |text| ==> 0 <= text[p] <= LAST_RUNE && text[p] < b.alphabetSize
  }

  /** Position by position, both streams are added. */
  function Added(b: BenchmarkSpec, text: seq<int>, key: Row): (r: seq<int>)
    requires b.Valid() && |key| == b.KeyLength()
    ensures |r| == |text| && forall p :: 0 <= p < |r| ==> 0 <= r[p] < b.alphabetSize
  {
    seq(|text|, p requires 0 <= p < |text| =>
      (text[p] + key[p % b.periodA] + key[b.periodA + p % b.periodB]) % b.alphabetSize)
  }

  /** Or subtracted. */
  function Subtracted(b: BenchmarkSpec, text: seq<int>, key: Row): (r: seq<int>)
    requires b.Valid() && |key| == b.KeyLength()
    ensures |r| == |text| && forall p :: 0 <= p < |r| ==> 0 <= r[p] < b.alphabetSize
  {
    seq(|text|, p requires 0 <= p < |text| =>
      (text[p] - key[p % b.periodA] - key[b.periodA + p % b.periodB]) % b.alphabetSize)
  }

  /** api.encrypt */
  function Encrypt(b: BenchmarkSpec, text: seq<int>, key: Row): Option<seq<int>>
    requires b.Valid() && |key| == b.KeyLength()
  {
    if InRunes(b, text) && InRunes(b, Added(b, text, key)) then Some(Added(b, text, key)) else None
  }

  /** It refuses exactly the texts with a symbol outside the runes or the alphabet, and those that
      it would take to one, and adds both streams position by position. */
  lemma EncryptIs(b: BenchmarkSpec, text: seq<int>, key: Row, sums: seq<int>)
    requires b.Valid() && |key| == b.KeyLength() && |sums| == |text|
    requires forall p :: 0 <= p < |text| ==> sums[p] == text[p] + key[p % b.periodA] + key[b.periodA + p % b.periodB]
    ensures Encrypt(b, text, key).None? <==>
            || (exists p :: 0 <= p < |text| && !(0 <= text[p] <= 28 && text[p] < b.alphabetSize))
            || (exists p :: 0 <= p < |text| && sums[p] % b.alphabetSize > 28)
    ensures Encrypt(b, text, key).Some? ==>
              && |Encrypt(b, text, key).value| == |text|
              && forall p :: 0 <= p < |text| ==> Encrypt(b, text, key).value[p] == sums[p] % b.alphabetSize
  {
    var c := Added(b, text, key);
    forall p | 0 <= p < |text| ensures c[p] == sums[p] % b.alphabetSize {
      assert c[p] == (text[p] + key[p % b.periodA] + key[b.periodA + p % b.periodB]) % b.alphabetSize;
    }
  }

  /** api.decrypt */
  function Decrypt(b: BenchmarkSpec, text: seq<int>, key: Row): Option<seq<int>>
    requires b.Valid() && |key| == b.KeyLength()
  {
    if InRunes(b, text) && InRunes(b, Subtracted(b, text, key)) then Some(Subtracted(b, text, key)) else None
  }

  lemma AddedBack(x: int, k: int, l: int, m: int)
    requires 0 <= x < m
    ensures ((x + k + l) % m - k - l) % m == x
  {
    CongMod(x + k + l, m);
    CongRefl(k + l, m);
    CongSub((x + k + l) % m, x + k + l, k + l, k + l, m);
    CongIsMod((x + k + l) % m - k - l, x, m);
    ModOfReduced(x, m);
  }

  /** What was enciphered is deciphered, so the round trip check never fails. */
  lemma DecryptEncrypt(b: BenchmarkSpec, text: seq<int>, key: Row)
    requires b.Valid() && |key| == b.KeyLength() && Encrypt(b, text, key).Some?
    ensures Decrypt(b, Encrypt(b, text, key).value, key) == Some(text)
  {
    var c := Added(b, text, key);
    var back := Subtracted(b, c, key);
    forall p | 0 <= p < |text| ensures back[p] == text[p] {
      AddedBack(text[p], key[p % b.periodA], key[b.periodA + p % b.periodB], b.alphabetSize);
    }
    assert back == text;
  }

  // -- what the cribs say about the plaintext -----------------------------------------------

  /** The plaintext has the primary crib at its place. */
  ghost predicate HasPrimary(b: BenchmarkSpec, text: seq<int>)
    requires b.Valid() && |text| == b.textLength
  {
    forall i :: 0 <= i < |CRIB_RUNES| ==> text[b.cribStart + i] == CRIB_RUNES[i]
  }

  /** And an additional one. */
  ghost predicate HasCrib(crib: CribSpec, text: seq<int>)
    requires crib.start + |crib.runes| <= |text|
  {
    forall i :: 0 <= i < |crib.runes| ==> text[crib.start + i] == crib.runes[i]
  }

  ghost predicate HasExtras(b: BenchmarkSpec, text: seq<int>)
    requires b.Valid() && |text| == b.textLength
  {
    forall j :: 0 <= j < |b.additionalCribs| ==> HasCrib(b.additionalCribs[j], text)
  }

  lemma SubtractedRune(c: int, k: int, l: int, rune: nat, m: int)
    requires m > 0
    ensures (c - k - l) % m == rune % m <==> (c - rune) % m == (k + l) % m
  {
    CongIsMod(c - k - l, rune, m);
    CongIsMod(c - rune, k + l, m);
    if Cong(c - k - l, rune, m) {
      CongRefl(k + l - rune, m);
      CongAdd(c - k - l, rune, k + l - rune, k + l - rune, m);
    }
    if Cong(c - rune, k + l, m) {
      CongRefl(rune - k - l, m);
      CongAdd(c - rune, k + l, rune - k - l, rune - k - l, m);
    }
  }

  lemma ShowsIff(c: int, k: int, l: int, rune: nat, m: int, shown: int, overlay: int)
    requires m > 0 && shown == (c - k - l) % m && overlay == (k + l) % m
    ensures shown == rune % m <==> (c - rune) % m == overlay
  {
    SubtractedRune(c, k, l, rune, m);
  }

  /** The text has the rune there, as far as the alphabet can tell. */
  ghost predicate Shows(b: BenchmarkSpec, text: seq<int>, pos: nat, rune: nat)
    requires b.Valid() && pos < |text|
  {
    text[pos] == rune % b.alphabetSize
  }

  lemma FitsRuneIff(b: BenchmarkSpec, ciphertext: seq<int>, key: Row, pos: nat, rune: nat)
    requires b.Valid() && IsKey(b, key) && pos < |ciphertext|
    ensures FitsRune(b, ciphertext, key, pos, rune) <==> Shows(b, Subtracted(b, ciphertext, key), pos, rune)
  {
    var i, j, m := pos % b.periodA, b.periodA + pos % b.periodB, b.alphabetSize;
    ShowsIff(ciphertext[pos], key[i], key[j], rune, m, Subtracted(b, ciphertext, key)[pos], Overlay(b, key, pos));
  }

  /** A key fits the cribs iff deciphering with it shows every one of them. */
  lemma FitsIffDeciphers(b: BenchmarkSpec, ciphertext: seq<int>, key: Row)
    requires b.Valid() && |ciphertext| == b.textLength && IsKey(b, key)
    ensures var text := Subtracted(b, ciphertext, key);
            FitsCribs(b, ciphertext, key) <==>
            && (forall i :: 0 <= i < |CRIB_RUNES| ==> Shows(b, text, b.cribStart + i, CRIB_RUNES[i]))
            && (forall j, i :: 0 <= j < |b.additionalCribs| && 0 <= i < |b.additionalCribs[j].runes| ==>
                  Shows(b, text, b.additionalCribs[j].start + i, b.additionalCribs[j].runes[i]))
  {
    var text, cribs := Subtracted(b, ciphertext, key), b.additionalCribs;
    forall i | 0 <= i < |CRIB_RUNES|
      ensures FitsRune(b, ciphertext, key, b.cribStart + i, CRIB_RUNES[i])
         <==> Shows(b, text, b.cribStart + i, CRIB_RUNES[i])
    {
      FitsRuneIff(b, ciphertext, key, b.cribStart + i, CRIB_RUNES[i]);
    }
    forall j, i | 0 <= j < |cribs| && 0 <= i < |cribs[j].runes|
      ensures FitsRune(b, ciphertext, key, cribs[j].start + i, cribs[j].runes[i])
         <==> Shows(b, text, cribs[j].start + i, cribs[j].runes[i])
    {
      FitsRuneIff(b, ciphertext, key, cribs[j].start + i, cribs[j].runes[i]);
    }
  }

  lemma EncipheredRune(b: BenchmarkSpec, text: seq<int>, key: Row, pos: nat, rune: nat)
    requires b.Valid() && |key| == b.KeyLength() && pos < |text| && text[pos] == rune
    ensures FitsRune(b, Added(b, text, key), key, pos, rune)
  {
    var k, l, m := key[pos % b.periodA], key[b.periodA + pos % b.periodB], b.alphabetSize;
    CongMod(rune + k + l, m);
    CongRefl(rune, m);
    CongSub((rune + k + l) % m, rune + k + l, rune, rune, m);
    CongIsMod((rune + k + l) % m - rune, k + l, m);
  }

  /** The key that a text with the cribs was enciphered with fits them, and regauged the gauge. */
  lemma EncipheredFits(b: BenchmarkSpec, text: seq<int>, key: Row)
    requires b.Valid() && |text| == b.textLength && IsKey(b, key) && HasPrimary(b, text) && HasExtras(b, text)
    ensures FitsCribs(b, Added(b, text, key), key) && Fits(b, Added(b, text, key), Regauge(b, key))
  {
    var c := Added(b, text, key);
    forall i | 0 <= i < |CRIB_RUNES| ensures FitsRune(b, c, key, b.cribStart + i, CRIB_RUNES[i]) {
      EncipheredRune(b, text, key, b.cribStart + i, CRIB_RUNES[i]);
    }
    forall j, i | 0 <= j < |b.additionalCribs| && 0 <= i < |b.additionalCribs[j].runes|
      ensures FitsRune(b, c, key, b.additionalCribs[j].start + i, b.additionalCribs[j].runes[i])
    {
      assert HasCrib(b.additionalCribs[j], text);
      EncipheredRune(b, text, key, b.additionalCribs[j].start + i, b.additionalCribs[j].runes[i]);
    }
    RegaugedFits(b, c, key);
  }

  lemma SameDifference(c: int, k: int, l: int, k': int, l': int, m: int)
    requires m > 0 && (k + l) % m == (k' + l') % m
    ensures (c - k - l) % m == (c - k' - l') % m
  {
    CongIsMod(k + l, k' + l', m);
    CongRefl(c, m);
    CongSub(c, c, k + l, k' + l', m);
    CongIsMod(c - k - l, c - k' - l', m);
  }

  lemma SameStreamDecrypts(b: BenchmarkSpec, c: seq<int>, key: Row, k: Row)
    requires b.Valid() && |key| == |k| == b.KeyLength()
    requires forall pos: nat :: Overlay(b, k, pos) == Overlay(b, key, pos)
    ensures Subtracted(b, c, k) == Subtracted(b, c, key)
  {
    forall p | 0 <= p < |c| ensures Subtracted(b, c, k)[p] == Subtracted(b, c, key)[p] {
      assert Overlay(b, k, p) == Overlay(b, key, p);
      SameDifference(c[p], k[p % b.periodA], k[b.periodA + p % b.periodB], key[p % b.periodA],
                     key[b.periodA + p % b.periodB], b.alphabetSize);
    }
  }

  /** Whatever key a text with the cribs was enciphered with, gauged or not: the space of its
      ciphertext has a key that deciphers it. */
  lemma SpaceHasPlaintext(b: BenchmarkSpec, text: seq<int>, key: Row, s: AffineKeys)
    requires b.Valid() && |text| == b.textLength && IsKey(b, key) && HasPrimary(b, text) && HasExtras(b, text)
    requires Encrypt(b, text, key).Some? && ExactlyFits(b, Added(b, text, key), s)
    ensures exists v: Row :: |v| == |s.free| && Residues(v, b.alphabetSize)
              && Decrypt(b, Added(b, text, key), PointOf(b, s, v)) == Some(text)
  {
    var c := Added(b, text, key);
    EncipheredFits(b, text, key);
    DecryptEncrypt(b, text, key);
    UngaugedKeyCovered(b, c, s, key);
    var v: Row :| |v| == |s.free| && Residues(v, b.alphabetSize)
      && forall pos: nat :: Overlay(b, PointOf(b, s, v), pos) == Overlay(b, key, pos);
    SameStreamDecrypts(b, c, key, PointOf(b, s, v));
  }

  // -- build_rdp_case ----------------------------------------------------------------------

  datatype CaseError =
    | PrimaryMismatch
    | ExtraMismatch
    | Refused
    | RoundTripFailed
    | NoSpace(error: CribError)
    | WrongDimension
    | KeyNotReproduced

  datatype Case = Case(ciphertext: seq<int>, key: Row, space: AffineKeys)

  method CheckPrimary(text: seq<int>, b: BenchmarkSpec) returns (ok: bool)
    requires b.Valid() && |text| == b.textLength
    ensures ok <==> HasPrimary(b, text)
  {
    var shown := text[b.cribStart..b.cribStart + |CRIB_RUNES|];
    ok := shown == CRIB_RUNES;
    assert forall i :: 0 <= i < |CRIB_RUNES| ==> shown[i] == text[b.cribStart + i];
  }

  method CheckExtras(text: seq<int>, b: BenchmarkSpec) returns (ok: bool)
    requires b.Valid() && |text| == b.textLength
    ensures ok <==> HasExtras(b, text)
  {
    for j := 0 to |b.additionalCribs|
      invariant forall k :: 0 <= k < j ==> HasCrib(b.additionalCribs[k], text)
    {
      var crib := b.additionalCribs[j];
      var shown := text[crib.start..crib.start + |crib.runes|];
      assert forall i :: 0 <= i < |crib.runes| ==> shown[i] == text[crib.start + i];
      if shown != crib.runes {
        return false;
      }
    }
    return true;
  }

  /** The parametrisation gives the benchmark's key back from its own free entries. */
  lemma KeyReproduced(b: BenchmarkSpec, c: seq<int>, s: AffineKeys)
    requires b.Valid() && |c| == b.textLength && ExactlyFits(b, c, s) && Fits(b, c, DeterministicKey(b))
    ensures Expand(b, Restrict(DeterministicKey(b), s.free), s.particular, s.basis) == Ok(DeterministicKey(b))
  {
    var key := DeterministicKey(b);
    ExpandIsStored(b, s, Restrict(key, s.free));
    StoredIff(key, b.alphabetSize);
  }

  /** The plaintext has the cribs that are checked, and the cipher takes it. */
  ghost predicate Enciphered(b: BenchmarkSpec, text: seq<int>, exact: bool)
    requires b.Valid() && |text| == b.textLength
  {
    HasPrimary(b, text) && (exact ==> HasExtras(b, text)) && Encrypt(b, text, DeterministicKey(b)).Some?
  }

  /** Two parametrisations of the same space have equally many variables. */
  lemma SameDimension(b: BenchmarkSpec, c: seq<int>, s: AffineKeys, t: AffineKeys)
    requires b.Valid() && |c| == b.textLength && ExactlyFits(b, c, s) && ExactlyFits(b, c, t)
    ensures |s.free| == |t.free|
  {
    FreeCard(b, c, s);
    FreeCard(b, c, t);
    PowSame(b.alphabetSize, |s.free|, |t.free|);
  }

  lemma NoOtherDimension(b: BenchmarkSpec, c: seq<int>, s: AffineKeys)
    requires b.Valid() && |c| == b.textLength && ExactlyFits(b, c, s)
    ensures forall t :: ExactlyFits(b, c, t) ==> |t.free| == |s.free|
    ensures exists key: Row :: Fits(b, c, key)
  {
    SomethingFits(b, c, s);
    forall t | ExactlyFits(b, c, t) ensures |t.free| == |s.free| {
      SameDimension(b, c, s, t);
    }
  }

  lemma NoDimension(b: BenchmarkSpec, c: seq<int>)
    requires b.Valid() && |c| == b.textLength && forall key: Row :: !Fits(b, c, key)
    ensures forall s :: !ExactlyFits(b, c, s)
  {
    forall s ensures !ExactlyFits(b, c, s) {
      if ExactlyFits(b, c, s) {
        SomethingFits(b, c, s);
      }
    }
  }

  /** build_rdp_case, from the plaintext on. With exact cribs nothing can fail but the cribs,
      the range of the runes and the declared dimension; a declared benchmark never does. */
  method BuildCase(text: seq<int>, b: BenchmarkSpec, declared: nat, exact: bool) returns (r: Result<Case, CaseError>)
    requires b.Valid() && |text| == b.textLength
    ensures r == Err(PrimaryMismatch) <==> !HasPrimary(b, text)
    ensures r == Err(ExtraMismatch) <==> HasPrimary(b, text) && exact && !HasExtras(b, text)
    ensures r == Err(Refused) <==>
            HasPrimary(b, text) && (exact ==> HasExtras(b, text)) && Encrypt(b, text, DeterministicKey(b)).None?
    ensures r != Err(RoundTripFailed) && r != Err(KeyNotReproduced)
    ensures r.Err? && r.error.NoSpace? ==> r.error.error == Elimination(Contradictory) && !exact
    ensures r.Err? && r.error.NoSpace? <==>
            Enciphered(b, text, exact) && forall key: Row :: !Fits(b, Added(b, text, DeterministicKey(b)), key)
    ensures r == Err(WrongDimension) <==>
            && Enciphered(b, text, exact)
            && exists s :: ExactlyFits(b, Added(b, text, DeterministicKey(b)), s) && |s.free| != declared
    ensures r.Ok? ==>
              && Encrypt(b, text, DeterministicKey(b)) == Some(r.value.ciphertext) && r.value.key == DeterministicKey(b)
              && ExactlyFits(b, r.value.ciphertext, r.value.space) && |r.value.space.free| == declared
    ensures r.Ok? && exact ==> Fits(b, r.value.ciphertext, r.value.key)
    ensures Declares(b, declared) && exact ==>
              (r.Ok? <==>
               HasPrimary(b, text) && HasExtras(b, text) && forall p :: 0 <= p < |text| ==> 0 <= text[p] <= 28)
  {
    var primary := CheckPrimary(text, b);
    if !primary {
      return Err(PrimaryMismatch);
    }
    if exact {
      var extras := CheckExtras(text, b);
      if !extras {
        return Err(ExtraMismatch);
      }
    }
    var key := DeterministicKey(b);
    var encrypted := Encrypt(b, text, key);
    if encrypted.None? {
      return Err(Refused);
    }
    var ciphertext := encrypted.value;
    DecryptEncrypt(b, text, key);
    if Decrypt(b, ciphertext, key) != Some(text) {
      return Err(RoundTripFailed);
    }
    if exact {
      EncipheredFits(b, text, key);
      assert Fits(b, ciphertext, key);
    }
    var keys := CribSpace(ciphertext, CRIB_RUNES, b);
    if keys.Err? {
      NoDimension(b, ciphertext);
      return Err(NoSpace(keys.error));
    }
    var space := keys.value;
    NoOtherDimension(b, ciphertext, space);
    if Declares(b, declared) {
      DeclaredDimension(b, ciphertext, space, declared);
    }
    if |space.free| != declared {
      return Err(WrongDimension);
    }
    if exact {
      KeyReproduced(b, ciphertext, space);
      if Expand(b, Restrict(key, space.free), space.particular, space.basis) != Ok(key) {
        return Err(KeyNotReproduced);
      }
    }
    return Ok(Case(ciphertext, key, space));
  }
}
