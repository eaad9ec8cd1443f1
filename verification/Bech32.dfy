/** The bech32 codec (`Wi`): prefix, separator, data and checksum (BIP-173). */
module Bech32 {
  import opened Alphabet
  import opened Bech32Checksum
  import opened Outcomes

  // ------------------------------------------------------------------ letter case

  /** The one character outside ASCII that JavaScript turns into an ASCII letter; it counts as upper case. */
  const KELVIN_SIGN: char := '\U{212A}'

  function LowerChar(c: char): char {
    if 'A' <= c <= 'Z' then ((c as int) + 32) as char else if c == KELVIN_SIGN then 'k' else c
  }

  function UpperChar(c: char): char {
    if 'a' <= c <= 'z' then ((c as int) - 32) as char else c
  }

  function Lower(s: string): (r: string)
    ensures |r| == |s| && forall i | 0 <= i < |s| :: r[i] == LowerChar(s[i])
  {
    seq(|s|, i requires 0 <= i < |s| => LowerChar(s[i]))
  }

  function Upper(s: string): (r: string)
    ensures |r| == |s| && forall i | 0 <= i < |s| :: r[i] == UpperChar(s[i])
  {
    seq(|s|, i requires 0 <= i < |s| => UpperChar(s[i]))
  }

  predicate OneCase(s: string) {
    s == Lower(s) || s == Upper(s)
  }

  lemma LowerTwice(s: string)
    ensures Lower(Lower(s)) == Lower(s)
  {
  }

  lemma LowerConcat(s: string, t: string)
    ensures Lower(s + t) == Lower(s) + Lower(t)
  {
  }

  // ------------------------------------------------------------------ the separator

  /** `lastIndexOf("1")`, or -1. */
  function LastOne(s: string): (r: int)
    ensures -1 <= r < |s|
    ensures r >= 0 ==> s[r] == '1'
    ensures forall i | r < i < |s| :: s[i] != '1'
  {
    if s == "" then -1 else if s[|s| - 1] == '1' then |s| - 1 else LastOne(s[..|s| - 1])
  }

  lemma LastOneUnique(s: string, r: nat)
    requires r < |s| && s[r] == '1' && forall i | r < i < |s| :: s[i] != '1'
    ensures LastOne(s) == r
  {
  }

  // ------------------------------------------------------------------ the codec

  predicate WithinLimit(length: nat, limit: Option<nat>) {
    limit.None? || length <= limit.value
  }

  /** `encode`: `words` are digits of five bits. */
  function Encode(prefix: string, words: seq<nat>, limit: Option<nat>, variant: State): Result<string> {
    if |prefix| == 0 || !WithinLimit(|prefix| + 7 + |words|, limit) then Thrown
    else
      var low := Lower(prefix);
      var data := Spell(Letters(), words);
      if !ValidPrefix(low) || data.Thrown? then Thrown
      else
        SpelledIsSmall(words);
        Ok(low + "1" + data.value + ChecksumOf(low, words, variant))
  }

  lemma SpelledIsSmall(words: seq<nat>)
    ensures Spell(Letters(), words).Ok? <==> Small(words)
  {
    hide Letters;
    LetterCount();
    SpellShape(Letters(), words);
  }

  lemma ReadIsSmall(text: string)
    ensures Unspell(Letters(), text).Ok? ==> Small(Unspell(Letters(), text).value)
  {
    hide Letters;
    LetterCount();
    UnspellShape(Letters(), text);
  }

  /** The part of `decode` behind the checks on the whole text: a prefix, and data with its checksum. */
  function DecodeParts(prefix: string, data: string, variant: State): Result<(string, seq<nat>)> {
    if |data| < 6 then Thrown
    else
      var all := Unspell(Letters(), data);
      if all.Thrown? || !ValidPrefix(prefix) then Thrown
      else
        ReadIsSmall(data);
        UnspellShape(Letters(), data);
        var words := all.value[..|data| - 6];
        if data[|data| - 6..] != ChecksumOf(prefix, words, variant) then Thrown else Ok((prefix, words))
  }

  /** `decode` */
  function Decode(text: string, limit: Option<nat>, variant: State): Result<(string, seq<nat>)> {
    if |text| < 8 || !WithinLimit(|text|, limit) then Thrown
    else
      var low := Lower(text);
      var m := LastOne(low);
      if !OneCase(text) || m == 0 || m == -1 then Thrown
      else DecodeParts(low[..m], low[m + 1..], variant)
  }

  /** Nothing but the place of a letter, from which distinctness follows. */
  function Place(c: char): int {
    if c <= '9' then
      if c == '0' then 15 else if c == '2' then 10 else if c == '3' then 17 else if c == '4' then 21
      else if c == '5' then 20 else if c == '6' then 26 else if c == '7' then 30 else if c == '8' then 7
      else if c == '9' then 5 else -1
    else if c <= 'j' then
      if c == 'a' then 29 else if c == 'c' then 24 else if c == 'd' then 13 else if c == 'e' then 25
      else if c == 'f' then 9 else if c == 'g' then 8 else if c == 'h' then 23 else if c == 'j' then 18 else -1
    else if c <= 'r' then
      if c == 'k' then 22 else if c == 'l' then 31 else if c == 'm' then 27 else if c == 'n' then 19
      else if c == 'p' then 1 else if c == 'q' then 0 else if c == 'r' then 3 else -1
    else
      if c == 's' then 16 else if c == 't' then 11 else if c == 'u' then 28 else if c == 'v' then 12
      else if c == 'w' then 14 else if c == 'x' then 6 else if c == 'y' then 4 else if c == 'z' then 2 else -1
  }

  lemma PlaceOfLetter(i: nat)
    requires i < |Letters()|
    ensures Place(Letters()[i]) == i
  {
  }

  lemma PlacesDiffer(letters: string)
    requires forall i | 0 <= i < |letters| :: Place(letters[i]) == i
    ensures Distinct(letters) && '1' !in letters
    ensures forall i | 0 <= i < |letters| :: LowerChar(letters[i]) == letters[i]
  {
    forall i | 0 <= i < |letters| ensures letters[i] != '1' && LowerChar(letters[i]) == letters[i] {
      assert Place(letters[i]) == i;
    }
  }

  lemma AlphabetFits()
    ensures Distinct(Letters()) && |Letters()| == 32 && '1' !in Letters()
    ensures forall i | 0 <= i < |Letters()| :: LowerChar(Letters()[i]) == Letters()[i]
  {
    hide Place, Distinct, Letters;
    LetterCount();
    forall i | 0 <= i < |Letters()| ensures Place(Letters()[i]) == i {
      PlaceOfLetter(i);
    }
    PlacesDiffer(Letters());
  }

  /** Written data holds no separator and no upper-case letter. */
  lemma WrittenData(words: seq<nat>, text: string)
    requires Spell(Letters(), words) == Ok(text)
    ensures '1' !in text && Lower(text) == text
  {
    hide Letters, Distinct;
    AlphabetFits();
    SpellShape(Letters(), words);
    forall i | 0 <= i < |text| ensures text[i] != '1' && LowerChar(text[i]) == text[i] {
      assert text[i] == Letters()[words[i]];
    }
  }

  /** The parts of a text, put together and taken apart. */
  lemma PartsOfWhole(prefix: string, data: string)
    requires Lower(prefix) == prefix && Lower(data) == data && '1' !in data
    ensures var s := prefix + "1" + data;
            && LastOne(s) == |prefix| && s[..|prefix|] == prefix && s[|prefix| + 1..] == data
            && Lower(s) == s && OneCase(s)
  {
    hide Lower, Upper;
    LastOneUnique(prefix + "1" + data, |prefix|);
    WholeIsLower(prefix, data);
  }

  lemma WholeIsLower(prefix: string, data: string)
    requires Lower(prefix) == prefix && Lower(data) == data
    ensures Lower(prefix + "1" + data) == prefix + "1" + data
  {
    LowerConcat(prefix + "1", data);
    LowerConcat(prefix, "1");
    assert Lower("1") == "1";
  }

  lemma {:induction false} SpellConcat(u: seq<nat>, v: seq<nat>, s: string, t: string)
    requires Spell(Letters(), u) == Ok(s) && Spell(Letters(), v) == Ok(t)
    ensures Spell(Letters(), u + v) == Ok(s + t)
    decreases |v|
  {
    hide Letters;
    if v == [] {
      assert u + v == u && s + t == s;
    } else {
      var front, t' := v[..|v| - 1], Spell(Letters(), v[..|v| - 1]).value;
      SpellConcat(u, front, s, t');
      assert (u + v)[..|u + v| - 1] == u + front;
      assert s + t == s + t' + [t[|t| - 1]];
    }
  }

  /** The digits of the checksum. */
  function ChecksumDigits(prefix: string, words: seq<nat>, variant: State): seq<nat>
    requires ValidPrefix(prefix) && Small(words)
  {
    StateDigits(Residue(prefix, words, variant))
  }

  /** Data is accepted exactly when it is the written words followed by their checksum. */
  lemma PartsAccepted(prefix: string, data: string, words: seq<nat>, variant: State)
    ensures DecodeParts(prefix, data, variant) == Ok((prefix, words)) <==>
              ValidPrefix(prefix) && Small(words) && Spell(Letters(), words).Ok?
              && data == Spell(Letters(), words).value + ChecksumOf(prefix, words, variant)
  {
    hide ValidPrefix, ChecksumOf, Small, Letters;
    AlphabetFits();
    if DecodeParts(prefix, data, variant) == Ok((prefix, words)) {
      AcceptedIsWritten(prefix, data, words, variant);
    }
    if ValidPrefix(prefix) && Small(words) && Spell(Letters(), words).Ok?
       && data == Spell(Letters(), words).value + ChecksumOf(prefix, words, variant)
    {
      WrittenIsAccepted(prefix, words, variant);
    }
  }

  lemma AcceptedIsWritten(prefix: string, data: string, words: seq<nat>, variant: State)
    requires DecodeParts(prefix, data, variant) == Ok((prefix, words))
    ensures ValidPrefix(prefix) && Small(words) && Spell(Letters(), words).Ok?
    ensures data == Spell(Letters(), words).value + ChecksumOf(prefix, words, variant)
  {
    hide ChecksumOf, Distinct, Letters, Small, Spell, Unspell;
    AlphabetFits();
    ReadIsSmall(data);
    UnspellShape(Letters(), data);
    SpelledIsSmall(words);
    var front := data[..|data| - 6];
    UnspellShape(Letters(), front);
    SpellShape(Letters(), words);
    assert Spell(Letters(), words).value == front;
    assert data == front + data[|data| - 6..];
  }

  lemma WrittenIsAccepted(prefix: string, words: seq<nat>, variant: State)
    requires ValidPrefix(prefix) && Small(words) && Spell(Letters(), words).Ok?
    ensures var data := Spell(Letters(), words).value + ChecksumOf(prefix, words, variant);
            DecodeParts(prefix, data, variant) == Ok((prefix, words))
  {
    hide Distinct, StateDigits, Residue, Letters;
    var front, check := Spell(Letters(), words).value, ChecksumOf(prefix, words, variant);
    var digits := ChecksumDigits(prefix, words, variant);
    AlphabetFits();
    SpellConcat(words, digits, front, check);
    ReadIffWritten(Letters(), words + digits, front + check);
    SpellShape(Letters(), words);
    assert (words + digits)[..|words|] == words;
  }

  /** What `encode` writes, `decode` reads back, under the same limit. */
  lemma EncodeThenDecode(prefix: string, words: seq<nat>, limit: Option<nat>, variant: State)
    requires Encode(prefix, words, limit, variant).Ok?
    ensures Decode(Encode(prefix, words, limit, variant).value, limit, variant) == Ok((Lower(prefix), words))
  {
    hide ValidPrefix, ChecksumOf, DecodeParts, Small, Lower, Letters, OneCase;
    var low, text := Lower(prefix), Encode(prefix, words, limit, variant).value;
    SpelledIsSmall(words);
    SpellShape(Letters(), words);
    var data := Spell(Letters(), words).value + ChecksumOf(low, words, variant);
    WrittenData(words, Spell(Letters(), words).value);
    WrittenData(ChecksumDigits(low, words, variant), ChecksumOf(low, words, variant));
    LowerConcat(Spell(Letters(), words).value, ChecksumOf(low, words, variant));
    LowerTwice(prefix);
    assert text == low + "1" + data;
    PartsOfWhole(low, data);
    PartsAccepted(low, data, words, variant);
  }

  /** What `decode` accepts is, apart from its case, what `encode` writes for the result. */
  lemma DecodeThenEncode(text: string, limit: Option<nat>, variant: State)
    requires Decode(text, limit, variant).Ok?
    ensures var (prefix, words) := Decode(text, limit, variant).value;
            prefix == Lower(prefix) && Encode(prefix, words, limit, variant) == Ok(Lower(text))
  {
    hide ChecksumOf, DecodeParts, Small, ValidPrefix, Letters, Lower, OneCase;
    var prefix, data, words := DecodedParts(text, limit, variant);
    PartsAccepted(prefix, data, words, variant);
    SpellShape(Letters(), words);
    var front, check := Spell(Letters(), words).value, ChecksumOf(prefix, words, variant);
    assert prefix + "1" + (front + check) == prefix + "1" + front + check;
  }

  /** The parts an accepted text falls into. */
  lemma DecodedParts(text: string, limit: Option<nat>, variant: State) returns (prefix: string, data: string, words: seq<nat>)
    requires Decode(text, limit, variant).Ok?
    ensures prefix != "" && Lower(prefix) == prefix && Lower(text) == prefix + "1" + data
    ensures WithinLimit(|text|, limit) && OneCase(text) && LastOne(Lower(text)) == |prefix|
    ensures Decode(text, limit, variant) == Ok((prefix, words))
    ensures DecodeParts(prefix, data, variant) == Ok((prefix, words))
  {
    hide DecodeParts, OneCase;
    var low := Lower(text);
    var m := LastOne(low);
    prefix, data := low[..m], low[m + 1..];
    PartsGivePrefix(prefix, data, variant);
    words := Decode(text, limit, variant).value.1;
    LowerTwice(text);
    assert Lower(prefix) == prefix;
    assert low == prefix + "1" + data;
  }

  lemma PartsGivePrefix(prefix: string, data: string, variant: State)
    ensures DecodeParts(prefix, data, variant).Ok? ==> DecodeParts(prefix, data, variant).value.0 == prefix
  {
  }

  lemma EncodeBare(prefix: string, check: string, limit: nat, text: string)
    requires prefix != "" && |prefix| + 7 <= limit && Lower(prefix) == prefix && ValidPrefix(prefix)
    requires ChecksumOf(prefix, [], 1) == check && text == prefix + "1" + check
    ensures Encode(prefix, [], Some(limit), 1) == Ok(text)
  {
    hide ChecksumOf, Lower, ValidPrefix, Letters;
    assert Spell(Letters(), []) == Ok("");
    assert prefix + "1" + "" + check == prefix + "1" + check;
  }

  lemma TextJoined()
    ensures "a" + "1" + "2uel5l" == "a12uel5l"
  {
  }

  /** The shortest valid text of BIP-173, written and read. */
  lemma KnownText()
    ensures Encode("a", [], Some(90), 1) == Ok("a12uel5l")
    ensures Decode("a12uel5l", Some(90), 1) == Ok(("a", []))
  {
    hide ChecksumOf, Encode, Decode, Lower, ValidPrefix;
    ChecksumOfA();
    LowerLetter('a');
    TextJoined();
    EncodeBare("a", "2uel5l", 90, "a" + "1" + "2uel5l");
    EncodeThenDecode("a", [], Some(90), 1);
  }

  lemma LowerLetter(c: char)
    requires 'a' <= c <= 'z'
    ensures Lower([c]) == [c]
  {
  }

  // ------------------------------------------------------------------ one wrong character

  /** Two accepted data parts of the same length under the same prefix never differ in one place only. */
  lemma OneWrongLetter(prefix: string, data: string, words: seq<nat>, j: nat, c: char, variant: State)
    requires DecodeParts(prefix, data, variant) == Ok((prefix, words))
    requires j < |data| && c != data[j]
    ensures DecodeParts(prefix, data[j := c], variant).Thrown?
  {
    hide ChecksumOf, DecodeParts, Small, ValidPrefix, Letters;
    PartsAccepted(prefix, data, words, variant);
    SpellShape(Letters(), words);
    var wrong := data[j := c];
    if DecodeParts(prefix, wrong, variant).Ok? {
      PartsGivePrefix(prefix, wrong, variant);
      var others := DecodeParts(prefix, wrong, variant).value.1;
      PartsAccepted(prefix, wrong, others, variant);
      SpellShape(Letters(), others);
      BothWritten(prefix, data, words, others, j, c, variant);
    }
  }

  lemma BothWritten(prefix: string, data: string, words: seq<nat>, others: seq<nat>, j: nat, c: char, variant: State)
    requires ValidPrefix(prefix) && Small(words) && Small(others) && |others| == |words|
    requires Spell(Letters(), words).Ok? && data == Spell(Letters(), words).value + ChecksumOf(prefix, words, variant)
    requires j < |data| && c != data[j]
    requires Spell(Letters(), others).Ok?
    ensures data[j := c] != Spell(Letters(), others).value + ChecksumOf(prefix, others, variant)
  {
    hide ChecksumOf, ValidPrefix, Letters, Small, Distinct;
    var wrong := data[j := c];
    var front, check := Spell(Letters(), words).value, ChecksumOf(prefix, words, variant);
    var front', check' := Spell(Letters(), others).value, ChecksumOf(prefix, others, variant);
    SpellShape(Letters(), words);
    SpellShape(Letters(), others);
    assert data[..|words|] == front && data[|words|..] == check;
    if wrong == front' + check' {
      assert wrong[..|words|] == front' && wrong[|words|..] == check';
      AlphabetFits();
      ReadIffWritten(Letters(), words, front);
      ReadIffWritten(Letters(), others, front');
      if j < |words| {
        assert front' == front[j := c];
        OneLetterOneWord(words, others, front, j, c);
        assert wrong[|words|..] == data[|words|..];
        ChecksumsDiffer(prefix, words, j, others[j], variant);
      }
      assert false;
    }
  }

  lemma OneLetterOneWord(words: seq<nat>, others: seq<nat>, text: string, j: nat, c: char)
    requires |words| == |others| && j < |text| && c != text[j]
    requires Spell(Letters(), words) == Ok(text) && Spell(Letters(), others) == Ok(text[j := c])
    ensures |words| == |text| && others == words[j := others[j]] && others[j] != words[j]
  {
    hide Letters;
    AlphabetFits();
    SpellShape(Letters(), words);
    SpellShape(Letters(), others);
    forall i | 0 <= i < |words| && i != j ensures others[i] == words[i] {
      assert text[j := c][i] == text[i];
    }
  }

  lemma ChecksumsDiffer(prefix: string, words: seq<nat>, j: nat, w: nat, variant: State)
    requires ValidPrefix(prefix) && Small(words) && j < |words| && w < 32 && w != words[j]
    ensures Small(words[j := w]) && ChecksumOf(prefix, words[j := w], variant) != ChecksumOf(prefix, words, variant)
  {
    hide ValidPrefix, Letters, Distinct, StateDigits, Absorb, Plus;
    var head := Uppers(prefix) + [0] + Lowers(prefix);
    var wrong := words[j := w];
    assert Small(wrong);
    assert Expanded(prefix, wrong) == Expanded(prefix, words)[|head| + j := w];
    OneChangeShows(1, Expanded(prefix, words), |head| + j, w);
    var a, b := Residue(prefix, wrong, variant), Residue(prefix, words, variant);
    PlusCancels(Absorb(1, Expanded(prefix, wrong)), Absorb(1, Expanded(prefix, words)), variant);
    if ChecksumOf(prefix, wrong, variant) == ChecksumOf(prefix, words, variant) {
      AlphabetFits();
      ReadIffWritten(Letters(), StateDigits(a), ChecksumOf(prefix, wrong, variant));
      ReadIffWritten(Letters(), StateDigits(b), ChecksumOf(prefix, words, variant));
      StateDigitsInjective(a, b);
    }
  }

  /**
   One wrong character behind the separator of an accepted text makes `decode` reject it, for texts
   of any length. A wrong "1" is the one exception, since it would move the separator.
   */
  lemma SubstitutionRejected(text: string, i: nat, c: char, limit: Option<nat>, variant: State)
    requires Decode(text, limit, variant).Ok?
    requires LastOne(Lower(text)) < i < |text| && c != '1' && LowerChar(c) != LowerChar(text[i])
    ensures Decode(text[i := c], limit, variant).Thrown?
  {
    hide DecodeParts, OneCase;
    var prefix, data, words := DecodedParts(text, limit, variant);
    var wrong, m := text[i := c], |prefix|;
    assert Lower(wrong) == Lower(text)[i := LowerChar(c)];
    LastOneUnique(Lower(wrong), m);
    assert Lower(wrong)[..m] == prefix;
    assert data == Lower(text)[m + 1..];
    assert Lower(wrong)[m + 1..] == data[i - m - 1 := LowerChar(c)];
    OneWrongLetter(prefix, data, words, i - m - 1, LowerChar(c), variant);
  }
}
