/**
 Exporting a secret key and reading it back: the nsec form (`Hr`; NIP-19), the hexadecimal form and
 the parser of both (`Zs`, with the part of `Nr` that it needs).
 */
module PasskeySecret {
  import opened Bech32
  import opened Bech32Checksum
  import opened ByteStrings
  import opened Hex
  import opened Outcomes
  import opened PositionalNotation
  import opened PowersOfTwo
  import Alphabet
  import Radix

  const MAX_INPUT: nat := 256
  const MAX_BECH32: nat := 5000
  const NSEC: string := "nsec"
  const BECH32: State := 1

  // ------------------------------------------------------------------ printing

  /** `Hr`: the nsec form of a key. */
  ghost function Nsec(k: Bytes): Result<string> {
    var words := Radix.Encode(k, 5);
    if words.Thrown? then Thrown else Bech32.Encode(NSEC, words.value, Some(MAX_BECH32), BECH32)
  }

  lemma BytesInRange(k: Bytes)
    ensures InRange(k, 8)
  {
    assert Pow2(8) == 256;
  }

  lemma FiveBits()
    ensures Pow2(5) == 32 && Pow2(8) == 256
  {
  }

  /** The words of a key. */
  lemma KeyWords(k: Bytes)
    ensures Radix.Encode(k, 5).Ok? && Small(Radix.Encode(k, 5).value)
    ensures var n := |Radix.Encode(k, 5).value|; 5 * n >= 8 * |k| && 5 * n < 8 * |k| + 5
    ensures Radix.Decode(Radix.Encode(k, 5).value, 5) == Ok(k)
  {
    hide Radix.Encode, Radix.Decode, InRange;
    Radix.UsedCodecs();
    BytesInRange(k);
    Radix.EncodeValue(k, 5);
    Radix.RoundTrips(k, 5);
    FiveBits();
    InRangeIsSmall(Radix.Encode(k, 5).value);
  }

  lemma InRangeIsSmall(words: seq<nat>)
    ensures InRange(words, 5) <==> Small(words)
  {
    FiveBits();
  }

  lemma NsecIsPrefix()
    ensures Lower(NSEC) == NSEC && ValidPrefix(NSEC)
  {
  }

  /** Keys of up to 3118 bytes have an nsec form, and longer ones do not. */
  lemma NsecFits(k: Bytes)
    ensures Nsec(k).Ok? <==> |k| <= 3118
  {
    hide Radix.Encode, Radix.Decode, ValidPrefix, Small, ChecksumOf, Letters;
    KeyWords(k);
    NsecIsPrefix();
    SpelledIsSmall(Radix.Encode(k, 5).value);
  }

  /** The nsec form: its length tells the length of the key. */
  lemma NsecShape(k: Bytes)
    requires Nsec(k).Ok?
    ensures var text := Nsec(k).value;
            && |text| == 11 + (8 * |k| + 4) / 5
            && text[..5] == NSEC + "1" && LastOne(text) == 4 && Lower(text) == text
            && !IsSpace(text[0]) && !IsSpace(text[|text| - 2]) && !IsSpace(text[|text| - 1])
  {
    hide Radix.Encode, Radix.Decode, ValidPrefix, Small, ChecksumOf, Letters, Place, IsSpace, Lower, OneCase, LastOne;
    KeyWords(k);
    NsecIsPrefix();
    var words := Radix.Encode(k, 5).value;
    SpelledIsSmall(words);
    Alphabet.SpellShape(Letters(), words);
    var front, check := Alphabet.Spell(Letters(), words).value, ChecksumOf(NSEC, words, BECH32);
    WrittenData(words, front);
    WrittenData(ChecksumDigits(NSEC, words, BECH32), check);
    var text := Nsec(k).value;
    assert text == NSEC + "1" + (front + check);
    LowerConcat(front, check);
    PartsOfWhole(NSEC, front + check);
    ChecksumIsNoSpace(NSEC, words, 4);
    ChecksumIsNoSpace(NSEC, words, 5);
    assert text[|text| - 2] == check[4] && text[|text| - 1] == check[5] && text[0] == 'n';
    assert !IsSpace('n') by {
      NoSpace('n');
    }
  }

  lemma NoSpace(c: char)
    requires 33 <= c as int <= 126
    ensures !IsSpace(c)
  {
  }

  lemma ChecksumIsNoSpace(prefix: string, words: seq<nat>, j: nat)
    requires ValidPrefix(prefix) && Small(words) && j < 6
    ensures !IsSpace(ChecksumOf(prefix, words, BECH32)[j])
  {
    hide ValidPrefix, Small, Letters, Place, StateDigits, Residue;
    var digits, check := ChecksumDigits(prefix, words, BECH32), ChecksumOf(prefix, words, BECH32);
    Alphabet.SpellShape(Letters(), digits);
    assert check[j] == Letters()[digits[j]];
    PlaceOfLetter(digits[j]);
    SpacesHaveNoPlace(check[j]);
  }

  lemma SpacesHaveNoPlace(c: char)
    ensures IsSpace(c) ==> Place(c) == -1
  {
  }

  // ------------------------------------------------------------------ parsing

  /** White space as JavaScript's `trim` knows it. */
  predicate IsSpace(c: char) {
    var u := c as int;
    9 <= u <= 13 || u == 0x20 || u == 0xa0 || u == 0x1680 || 0x2000 <= u <= 0x200a || u == 0x2028 || u == 0x2029
    || u == 0x202f || u == 0x205f || u == 0x3000 || u == 0xfeff
  }

  function Trim(s: string): string {
    if s == "" then ""
    else if IsSpace(s[0]) then Trim(s[1..])
    else if IsSpace(s[|s| - 1]) then Trim(s[..|s| - 1])
    else s
  }

  predicate IsHexKey(e: string) {
    |e| == 64 && AllHex(e)
  }

  lemma TrimLeaves(s: string)
    requires s != "" ==> !IsSpace(s[0]) && !IsSpace(s[|s| - 1])
    ensures Trim(s) == s
  {
  }

  /** What `Nr` returns for an nsec; the other kinds of identifier are refused by `Zs` anyway. */
  ghost function DecodeNsec(e: string): Result<seq<nat>> {
    var decoded := Bech32.Decode(e, Some(MAX_BECH32), BECH32);
    if decoded.Thrown? then Thrown
    else
      var bytes := Radix.Decode(decoded.value.1, 5);
      if bytes.Thrown? || decoded.value.0 != NSEC then Thrown else bytes
  }

  /** `Zs` */
  method ParseSecret(t: string) returns (res: Result<seq<nat>>)
    ensures res.Ok? <==> Trim(t) != "" && |Trim(t)| <= 256 && (IsHexKey(Trim(t)) || DecodeNsec(Trim(t)).Ok?)
    ensures res.Ok? && IsHexKey(Trim(t)) ==>
              |res.value| == 32 && forall i | 0 <= i < 32 :: res.value[i] == PairValue(Trim(t), i)
    ensures res.Ok? && !IsHexKey(Trim(t)) ==> res == DecodeNsec(Trim(t))
  {
    hide Bech32.Decode, Radix.Regroup;
    var e := Trim(t);
    if e == "" {
      return Thrown;
    }
    if |e| > MAX_INPUT {
      return Thrown;
    }
    if IsHexKey(e) {
      var key := FromHex(e);
      return Ok(key.value);
    }
    var decoded := Bech32.Decode(e, Some(MAX_BECH32), BECH32);
    if decoded.Thrown? {
      return Thrown;
    }
    var (prefix, words) := decoded.value;
    var bytes := Radix.Convert(words, 5, 8, false);
    if bytes.Thrown? {
      return Thrown;
    }
    if prefix == NSEC {
      return bytes;
    }
    return Thrown;
  }

  // ------------------------------------------------------------------ what can be relied on

  /** Reading the nsec form gives back exactly the key it was made of. */
  lemma NsecAccepted(e: string, k: Bytes)
    requires |e| <= MAX_INPUT
    ensures DecodeNsec(e) == Ok(k) <==> OneCase(e) && Nsec(k) == Ok(Lower(e))
  {
    hide Bech32.Encode, Radix.Encode, Radix.Decode, DecodeParts;
    KeyWords(k);
    NsecIsPrefix();
    LowerTwice(e);
    if DecodeNsec(e) == Ok(k) {
      DecodeThenEncode(e, Some(MAX_BECH32), BECH32);
      var prefix, data, words := DecodedParts(e, Some(MAX_BECH32), BECH32);
      Radix.UsedCodecs();
      Radix.AcceptedIsEncoding(words, 5);
    }
    if OneCase(e) && Nsec(k) == Ok(Lower(e)) {
      EncodeThenDecode(NSEC, Radix.Encode(k, 5).value, Some(MAX_BECH32), BECH32);
    }
  }

  /** Every key of 32 bytes survives the nsec form, which has 63 characters. */
  lemma NsecRecovers(k: Bytes)
    requires |k| == 32
    ensures Nsec(k).Ok? && |Nsec(k).value| == 63 && Trim(Nsec(k).value) == Nsec(k).value
    ensures !IsHexKey(Nsec(k).value) && DecodeNsec(Nsec(k).value) == Ok(k)
  {
    hide Nsec, DecodeNsec, IsSpace;
    NsecFits(k);
    NsecShape(k);
    var text := Nsec(k).value;
    assert (8 * 32 + 4) / 5 == 52;
    NsecAccepted(text, k);
    TrimLeaves(text);
  }

  /** Every key of 32 bytes survives the hexadecimal form. */
  lemma HexRecovers(k: Bytes)
    requires |k| == 32
    ensures Trim(ToHex(k)) == ToHex(k) && IsHexKey(ToHex(k))
    ensures forall r: Bytes | |r| == 32 && (forall i | 0 <= i < 32 :: r[i] == PairValue(ToHex(k), i)) :: r == k
  {
    var s := ToHex(k);
    assert IsHexDigit(s[0]) && IsHexDigit(s[63]);
    TrimLeaves(s);
    forall r: Bytes | |r| == 32 && (forall i | 0 <= i < 32 :: r[i] == PairValue(s, i)) ensures r == k {
      ReadsBack(k, r);
    }
  }

  /**
   The parser takes an nsec of any length, so the key it returns need not have 32 bytes: it does exactly
   for 64 hexadecimal digits and for an nsec of 63 characters.
   */
  lemma KeyLength(e: string, k: Bytes)
    requires |e| <= MAX_INPUT && DecodeNsec(e) == Ok(k)
    ensures |k| == 32 <==> |e| == 63
  {
    hide DecodeNsec, Nsec, OneCase, IsSpace;
    NsecAccepted(e, k);
    NsecShape(k);
  }

  lemma NsecJoined()
    ensures "nsec" + "1" + "jlrw3c" == "nsec1jlrw3c"
  {
  }

  lemma NoWordsEncoded()
    ensures Bech32.Encode(NSEC, [], Some(MAX_BECH32), BECH32) == Ok("nsec1jlrw3c")
  {
    hide ChecksumOf, Lower, Bech32.Encode, ValidPrefix;
    NsecIsPrefix();
    ChecksumOfNsec();
    NsecJoined();
    EncodeBare(NSEC, "jlrw3c", MAX_BECH32, NSEC + "1" + "jlrw3c");
  }

  lemma EmptyKeyText()
    ensures Nsec([]) == Ok("nsec1jlrw3c")
  {
    hide Radix.Encode, Radix.Decode, Bech32.Encode;
    KeyWords([]);
    NoWordsEncoded();
    assert Radix.Encode([], 5).value == [];
  }

  /** The empty key: its nsec has 11 characters, and the parser accepts it although it holds no key. */
  lemma EmptyKeyAccepted()
    ensures Nsec([]) == Ok("nsec1jlrw3c") && |Nsec([]).value| == 11 && Trim(Nsec([]).value) == Nsec([]).value
    ensures !IsHexKey(Nsec([]).value) && DecodeNsec(Nsec([]).value) == Ok([])
  {
    hide Nsec, DecodeNsec, IsSpace;
    NsecFits([]);
    NsecShape([]);
    EmptyKeyText();
    var text := Nsec([]).value;
    assert (8 * 0 + 4) / 5 == 0;
    NsecAccepted(text, []);
    TrimLeaves(text);
  }

  /** Whatever is accepted starts with the prefix, holds no other separator, and never has 62 characters. */
  lemma AcceptedShape(e: string)
    requires |e| <= MAX_INPUT && DecodeNsec(e).Ok?
    ensures |e| >= 5 && |e| != 62 && Lower(e)[..5] == NSEC + "1" && LastOne(Lower(e)) == 4
  {
    hide Nsec, DecodeNsec, OneCase, Lower, LastOne, IsSpace;
    var k := DecodedKey(e);
    NsecAccepted(e, k);
    NsecShape(k);
    assert |Lower(e)| == |e|;
    NoSuchLength(|k|);
  }

  /** What is decoded is bytes. */
  lemma DecodedKey(e: string) returns (k: Bytes)
    requires DecodeNsec(e).Ok?
    ensures DecodeNsec(e) == Ok(k)
  {
    hide Bech32.Decode, Radix.Decode;
    var words := Bech32.Decode(e, Some(MAX_BECH32), BECH32).value.1;
    Radix.UsedCodecs();
    Radix.AcceptedIsEncoding(words, 5);
    FiveBits();
    k := Radix.Decode(words, 5).value;
  }

  lemma NoSuchLength(n: nat)
    ensures 11 + (8 * n + 4) / 5 != 62
  {
  }

  /** One character replaced: what is left after trimming. */
  lemma TrimmedMistake(text: string, i: nat, c: char)
    requires i < |text| && |text| >= 3
    requires !IsSpace(text[0]) && !IsSpace(text[1]) && !IsSpace(text[|text| - 2]) && !IsSpace(text[|text| - 1])
    ensures var wrong := text[i := c];
            Trim(wrong) == if !IsSpace(c) || 0 < i < |text| - 1 then wrong
                           else if i == 0 then text[1..] else text[..|text| - 1]
  {
    hide IsSpace;
    var wrong := text[i := c];
    if IsSpace(c) && i == 0 {
      assert wrong[1..] == text[1..];
      TrimLeaves(text[1..]);
    } else if IsSpace(c) && i == |text| - 1 {
      assert wrong[..|wrong| - 1] == text[..|text| - 1];
      TrimLeaves(text[..|text| - 1]);
    } else {
      TrimLeaves(wrong);
    }
  }

  /** A key never comes back changed because one character of its nsec was mistyped, whichever and for whatever. */
  lemma MistypedNsec(k: Bytes, i: nat, c: char)
    requires |k| == 32 && Nsec(k).Ok? && i < |Nsec(k).value| && LowerChar(c) != Nsec(k).value[i]
    ensures var typed := Trim(Nsec(k).value[i := c]);
            !IsHexKey(typed) && DecodeNsec(typed).Thrown?
  {
    hide Nsec, DecodeNsec, IsSpace, LastOne, Trim;
    var text := Nsec(k).value;
    NsecShape(k);
    NsecRecovers(k);
    assert text[0] == (NSEC + "1")[0] && text[1] == (NSEC + "1")[1];
    NoSpace('s');
    TrimmedMistake(text, i, c);
    var typed := Trim(text[i := c]);
    assert |typed| == 62 || typed == text[i := c];
    if DecodeNsec(typed).Ok? {
      AcceptedShape(typed);
      MistakeShows(k, i, c);
    }
  }

  /** With the mistake in it, a text of the full length is not accepted. */
  lemma MistakeShows(k: Bytes, i: nat, c: char)
    requires |k| == 32 && Nsec(k).Ok? && i < |Nsec(k).value| && LowerChar(c) != Nsec(k).value[i]
    ensures DecodeNsec(Nsec(k).value[i := c]).Thrown?
  {
    hide Nsec, Bech32.Decode, Radix.Decode, IsSpace;
    var text, wrong := Nsec(k).value, Nsec(k).value[i := c];
    NsecShape(k);
    NsecRecovers(k);
    if i >= 5 && c != '1' {
      assert text[i] == Lower(text)[i];
      SubstitutionRejected(text, i, c, Some(MAX_BECH32), BECH32);
    } else if DecodeNsec(wrong).Ok? {
      var low := Lower(wrong);
      assert low[i] == LowerChar(c);
      assert i < 5 ==> low[..5][i] == low[i] && text[..5][i] == text[i];
      AcceptedShape(wrong);
      assert false;
    }
  }
}
