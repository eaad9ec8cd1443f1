/** Base64 without the engine's own codec: radix 6, the alphabet, and padding (`On`, `$i`). */
module Base64 {
  import opened Alphabet
  import opened Outcomes
  import opened PositionalNotation
  import opened PowersOfTwo
  import opened Radix

  const UPPER: string := "ABCDEFGHIJKLMNOPQRSTUVWXYZ"
  const LOWER: string := "abcdefghijklmnopqrstuvwxyz"
  const OTHER: string := "0123456789+/"
  const LETTERS: string := UPPER + LOWER + OTHER

  // ------------------------------------------------------------------ padding

  function Equals(k: nat): (s: string)
    ensures |s| == k && forall i | 0 <= i < k :: s[i] == '='
  {
    if k == 0 then "" else Equals(k - 1) + "="
  }

  /** How many characters are missing from a multiple of four. */
  function Missing(n: nat): nat {
    if n % 4 == 0 then 0 else 4 - n % 4
  }

  function Fill(p: string): string {
    p + Equals(Missing(|p|))
  }

  /** Characters of six bits make whole bytes in groups of four. */
  predicate WholeBytes(n: nat) {
    n * 6 % 8 == 0
  }

  lemma WholeBytesInFours(n: nat)
    ensures WholeBytes(n) <==> n % 4 == 0
  {
  }

  lemma FilledIsWhole(n: nat, k: nat)
    requires k <= Missing(n)
    ensures WholeBytes(n + k) <==> k == Missing(n)
  {
    WholeBytesInFours(n + k);
  }

  predicate EndsInPadding(p: string) {
    p != "" && p[|p| - 1] == '='
  }

  lemma MissingCompletes(n: nat)
    ensures Missing(n) <= 3 && (n + Missing(n)) % 4 == 0
  {
  }

  /** Where the padding starts can be seen from the filled-up text. */
  lemma PaddingStarts(p: string)
    requires !EndsInPadding(p)
    ensures |p| <= |Fill(p)| <= |p| + 3 && |Fill(p)| % 4 == 0 && Fill(p)[..|p|] == p
    ensures p != "" ==> Fill(p)[|p| - 1] != '='
    ensures forall i | |p| <= i < |Fill(p)| :: Fill(p)[i] == '='
  {
    hide Equals;
    var k := Missing(|p|);
    MissingCompletes(|p|);
    assert Fill(p) == p + Equals(k);
    assert forall i | |p| <= i < |p| + k :: Fill(p)[i] == Equals(k)[i - |p|];
  }

  /** The part in front of the padding is unique. */
  lemma FillInjective(p: string, q: string)
    requires Fill(p) == Fill(q) && !EndsInPadding(p) && !EndsInPadding(q)
    ensures p == q
  {
    hide Fill;
    PaddingStarts(p);
    PaddingStarts(q);
  }

  /** Encoding of `$i(6)`. */
  method AddPadding(n: string) returns (r: string)
    ensures r == Fill(n)
  {
    hide WholeBytes, Missing;
    r := n;
    ghost var k := 0;
    FilledIsWhole(|n|, k);
    while !WholeBytes(|r|)
      invariant r == n + Equals(k) && k <= Missing(|n|) && (WholeBytes(|r|) <==> k == Missing(|n|))
      decreases Missing(|n|) - k
    {
      r := r + "=";
      k := k + 1;
      FilledIsWhole(|n|, k);
    }
  }

  /** `s` is some text without padding at its end, filled up. */
  ghost predicate IsFilled(s: string) {
    exists p :: !EndsInPadding(p) && Fill(p) == s
  }

  /** Decoding of `$i(6)`: accepts exactly the filled-up texts and gives back the part in front. */
  method StripPadding(s: string) returns (res: Result<string>)
    ensures res.Ok? <==> IsFilled(s)
    ensures res.Ok? ==> !EndsInPadding(res.value) && Fill(res.value) == s
  {
    hide IsFilled, Fill, WholeBytes;
    var r := |s|;
    WholeBytesInFours(r);
    if !WholeBytes(r) {
      WholeGroups(s);
      return Thrown;
    }
    while r > 0 && s[r - 1] == '='
      invariant 0 <= r <= |s| && |s| - r <= 3
      invariant forall i | r <= i < |s| :: s[i] == '='
    {
      WholeBytesInFours(r - 1);
      if WholeBytes(r - 1) {
        TooMuchPadding(s, r - 1);
        return Thrown;
      }
      r := r - 1;
    }
    StripsToFill(s, r);
    res := Ok(s[..r]);
  }

  lemma WholeGroups(s: string)
    requires |s| % 4 != 0
    ensures !IsFilled(s)
  {
    hide Fill;
    forall p: string | !EndsInPadding(p) ensures Fill(p) != s {
      PaddingStarts(p);
    }
  }

  lemma StripsToFill(s: string, r: nat)
    requires r <= |s| <= r + 3 && |s| % 4 == 0 && (forall i | r <= i < |s| :: s[i] == '=') && !EndsInPadding(s[..r])
    ensures Fill(s[..r]) == s && IsFilled(s)
  {
    assert s == s[..r] + Equals(|s| - r);
  }

  /** No text is filled up with a whole group of four. */
  lemma TooMuchPadding(s: string, r: nat)
    requires |s| % 4 == 0 && r < |s| && r % 4 == 0
    requires forall i | r <= i < |s| :: s[i] == '='
    ensures !IsFilled(s)
  {
    hide Fill;
    forall p: string | !EndsInPadding(p) ensures Fill(p) != s {
      PaddingStarts(p);
    }
  }

  // ------------------------------------------------------------------ the codec

  /** The number a letter stands for. */
  function Place(c: char): int {
    if 'A' <= c <= 'Z' then c as int - 'A' as int
    else if 'a' <= c <= 'z' then c as int - 'a' as int + 26
    else if '0' <= c <= '9' then c as int - '0' as int + 52
    else if c == '+' then 62
    else if c == '/' then 63
    else -1
  }

  lemma PlaceOfUpper(i: nat)
    requires i < |UPPER|
    ensures Place(UPPER[i]) == i
  {
  }

  lemma PlaceOfLower(i: nat)
    requires i < |LOWER|
    ensures Place(LOWER[i]) == 26 + i
  {
  }

  lemma PlaceOfOther(i: nat)
    requires i < |OTHER|
    ensures Place(OTHER[i]) == 52 + i
  {
  }

  lemma PlaceOfLetter(i: nat)
    requires i < |LETTERS|
    ensures Place(LETTERS[i]) == i
  {
    hide Place;
    if i < |UPPER| {
      PlaceOfUpper(i);
    } else if i < 52 {
      PlaceOfLower(i - 26);
    } else {
      PlaceOfOther(i - 52);
    }
  }

  lemma PlacesDiffer(letters: string)
    requires forall i | 0 <= i < |letters| :: Place(letters[i]) == i
    ensures Distinct(letters) && '=' !in letters
  {
    assert Place('=') == -1;
  }

  lemma LetterCount()
    ensures |LETTERS| == 64
  {
  }

  lemma LettersAreDistinct()
    ensures Distinct(LETTERS) && |LETTERS| == 64 && '=' !in LETTERS
  {
    LetterCount();
    hide Place, Distinct;
    forall i | 0 <= i < |LETTERS| ensures Place(LETTERS[i]) == i {
      PlaceOfLetter(i);
    }
    PlacesDiffer(LETTERS);
  }

  /** The text of a list of bytes. */
  ghost function Text(b: seq<nat>): Result<string> {
    var d := Radix.Encode(b, 6);
    if d.Thrown? then Thrown
    else
      var letters := Spell(LETTERS, d.value);
      if letters.Thrown? then Thrown else Ok(Fill(letters.value))
  }

  lemma DigitsHaveLetters(d: seq<nat>)
    requires InRange(d, 6)
    ensures Spell(LETTERS, d).Ok? && !EndsInPadding(Spell(LETTERS, d).value)
  {
    LettersAreDistinct();
    assert Pow2(6) == 64;
    SpellShape(LETTERS, d);
    if d != [] {
      assert LETTERS[d[|d| - 1]] in LETTERS;
    }
  }

  /** Encoding never throws. */
  method Encode(b: seq<nat>) returns (res: Result<string>)
    requires InRange(b, 8)
    ensures res.Ok? && res == Text(b)
  {
    hide Regroup, Fill, InRange;
    UsedCodecs();
    EncodeValue(b, 6);
    var d := Convert(b, 8, 6, true);
    DigitsHaveLetters(d.value);
    var letters := Spell(LETTERS, d.value);
    var text := AddPadding(letters.value);
    res := Ok(text);
  }

  /** Different bytes have different texts. */
  lemma TextInjective(b: seq<nat>, c: seq<nat>)
    requires InRange(b, 8) && InRange(c, 8) && Text(b) == Text(c)
    ensures b == c
  {
    hide Fill, InRange, Radix.Encode, Radix.Decode;
    UsedCodecs();
    RoundTripDigits(b);
    RoundTripDigits(c);
    var d, e := Radix.Encode(b, 6).value, Radix.Encode(c, 6).value;
    DigitsHaveLetters(d);
    DigitsHaveLetters(e);
    FillInjective(Spell(LETTERS, d).value, Spell(LETTERS, e).value);
    LettersAreDistinct();
    ReadIffWritten(LETTERS, d, Spell(LETTERS, d).value);
    ReadIffWritten(LETTERS, e, Spell(LETTERS, e).value);
  }

  lemma RoundTripDigits(b: seq<nat>)
    requires InRange(b, 8)
    ensures Radix.Encode(b, 6).Ok? && InRange(Radix.Encode(b, 6).value, 6)
    ensures Radix.Decode(Radix.Encode(b, 6).value, 6) == Ok(b)
  {
    hide InRange, Radix.Encode, Radix.Decode;
    UsedCodecs();
    EncodeValue(b, 6);
    RoundTrips(b, 6);
  }

  /** Decoding accepts exactly the texts that encoding produces, and gives back the bytes they came from. */
  method Decode(s: string) returns (res: Result<seq<nat>>)
    ensures res.Ok? ==> InRange(res.value, 8) && Text(res.value) == Ok(s)
    ensures forall b :: InRange(b, 8) && Text(b) == Ok(s) ==> res == Ok(b)
  {
    hide Regroup, Fill, InRange, Text, IsFilled;
    var body := StripPadding(s);
    if body.Thrown? {
      forall b: seq<nat> | InRange(b, 8) && Text(b) == Ok(s) ensures false {
        TextIsFilled(b, s);
      }
      return Thrown;
    }
    var d := Unspell(LETTERS, body.value);
    if d.Thrown? {
      forall b: seq<nat> | InRange(b, 8) ensures Text(b) != Ok(s) {
        OnlyTextOf(b, s, body.value);
      }
      return Thrown;
    }
    res := Convert(d.value, 6, 8, false);
    forall b: seq<nat> | InRange(b, 8) && Text(b) == Ok(s) ensures res == Ok(b) {
      OnlyTextOf(b, s, body.value);
    }
    if res.Ok? {
      DecodedIsText(d.value, body.value, res.value);
    }
  }

  lemma TextShape(b: seq<nat>)
    requires InRange(b, 8)
    ensures Text(b).Ok?
    ensures var p := Spell(LETTERS, Radix.Encode(b, 6).value);
            p.Ok? && !EndsInPadding(p.value) && Text(b).value == Fill(p.value)
  {
    hide Fill, InRange, Radix.Encode, Radix.Decode;
    RoundTripDigits(b);
    DigitsHaveLetters(Radix.Encode(b, 6).value);
  }

  lemma TextIsFilled(b: seq<nat>, s: string)
    requires InRange(b, 8) && Text(b) == Ok(s)
    ensures IsFilled(s)
  {
    hide Fill, InRange, Radix.Encode, Radix.Decode, Text;
    TextShape(b);
  }

  lemma OnlyTextOf(b: seq<nat>, s: string, body: string)
    requires InRange(b, 8) && !EndsInPadding(body) && Fill(body) == s
    ensures Text(b) == Ok(s) ==>
              Unspell(LETTERS, body).Ok? && Radix.Decode(Unspell(LETTERS, body).value, 6) == Ok(b)
  {
    hide Fill, InRange, Radix.Encode, Radix.Decode, Text;
    TextShape(b);
    RoundTripDigits(b);
    var d := Radix.Encode(b, 6).value;
    if Text(b) == Ok(s) {
      FillInjective(body, Spell(LETTERS, d).value);
      LettersAreDistinct();
      ReadIffWritten(LETTERS, d, body);
    }
  }

  lemma DecodedIsText(d: seq<nat>, body: string, b: seq<nat>)
    requires Unspell(LETTERS, body) == Ok(d) && Radix.Decode(d, 6) == Ok(b)
    ensures InRange(b, 8) && Text(b) == Ok(Fill(body))
  {
    hide Fill, InRange, Radix.Encode, Radix.Decode;
    UsedCodecs();
    AcceptedIsEncoding(d, 6);
    LettersAreDistinct();
    ReadIffWritten(LETTERS, d, body);
  }

  /** Three bytes make four characters, and a rest makes four more. */
  lemma TextLength(b: seq<nat>)
    requires InRange(b, 8)
    ensures Text(b).Ok? && |Text(b).value| == 4 * ((|b| + 2) / 3)
  {
    hide InRange, Radix.Encode, Radix.Decode, Text;
    UsedCodecs();
    TextShape(b);
    EncodeValue(b, 6);
    var d := Radix.Encode(b, 6).value;
    SpellShape(LETTERS, d);
    SextetCount(|b|, |d|, Pad(8 * |b|, 6));
    PaddingStarts(Spell(LETTERS, d).value);
  }

  lemma SextetCount(bytes: nat, digits: nat, pad: nat)
    requires digits * 6 == 8 * bytes + pad && pad < 6
    ensures digits + Missing(digits) == 4 * ((bytes + 2) / 3)
  {
    var q, r := bytes / 3, bytes % 3;
    assert bytes == 3 * q + r;
    assert digits == 4 * q + (if r == 0 then 0 else r + 1);
    FillsGroup(q, if r == 0 then 0 else r + 1);
    assert (bytes + 2) / 3 == if r == 0 then q else q + 1;
  }

  lemma FillsGroup(q: nat, r: nat)
    requires r < 4
    ensures 4 * q + r + Missing(4 * q + r) == if r == 0 then 4 * q else 4 * q + 4
  {
  }

  /** A text starts with a letter of the alphabet. */
  lemma TextStarts(b: seq<nat>)
    requires InRange(b, 8) && b != []
    ensures Text(b).Ok? && Text(b).value != "" && Text(b).value[0] in LETTERS
  {
    hide InRange, Radix.Encode, Radix.Decode, Text;
    UsedCodecs();
    TextShape(b);
    EncodeValue(b, 6);
    var d := Radix.Encode(b, 6).value;
    SpellShape(LETTERS, d);
    var p := Spell(LETTERS, d).value;
    PaddingStarts(p);
    assert p != "" && p[0] == LETTERS[d[0]];
  }

  lemma NoHashSign()
    ensures '#' !in LETTERS
  {
    hide Place;
    forall i | 0 <= i < |LETTERS| ensures LETTERS[i] != '#' {
      PlaceOfLetter(i);
      NoPlaceForHash();
    }
  }

  lemma NoPlaceForHash()
    ensures Place('#') == -1
  {
  }
}
