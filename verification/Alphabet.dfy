/** Digits written as letters of an alphabet (`Co`). */
module Alphabet {
  import opened Outcomes

  ghost predicate Distinct(alphabet: string) {
    forall i, j | 0 <= i < j < |alphabet| :: alphabet[i] != alphabet[j]
  }

  /** The place of a letter; the source's map keeps the last one of a repeated letter. */
  function IndexOf(alphabet: string, c: char): (r: Option<nat>)
    ensures r.Some? <==> c in alphabet
    ensures r.Some? ==> r.value < |alphabet| && alphabet[r.value] == c
  {
    if alphabet == "" then None
    else if alphabet[|alphabet| - 1] == c then Some(|alphabet| - 1)
    else IndexOf(alphabet[..|alphabet| - 1], c)
  }

  function Spell(alphabet: string, digits: seq<nat>): Result<string> {
    if digits == [] then Ok("")
    else
      var front := Spell(alphabet, digits[..|digits| - 1]);
      var last := digits[|digits| - 1];
      if front.Thrown? || last >= |alphabet| then Thrown else Ok(front.value + [alphabet[last]])
  }

  function Unspell(alphabet: string, text: string): Result<seq<nat>> {
    if text == "" then Ok([])
    else
      var front := Unspell(alphabet, text[..|text| - 1]);
      var last := IndexOf(alphabet, text[|text| - 1]);
      if front.Thrown? || last.None? then Thrown else Ok(front.value + [last.value])
  }

  lemma {:induction false} SpellShape(alphabet: string, digits: seq<nat>)
    ensures Spell(alphabet, digits).Ok? <==> forall i | 0 <= i < |digits| :: digits[i] < |alphabet|
    ensures Spell(alphabet, digits).Ok? ==>
              && |Spell(alphabet, digits).value| == |digits|
              && forall i | 0 <= i < |digits| :: Spell(alphabet, digits).value[i] == alphabet[digits[i]]
  {
    if digits != [] {
      SpellShape(alphabet, digits[..|digits| - 1]);
    }
  }

  lemma {:induction false} UnspellShape(alphabet: string, text: string)
    ensures Unspell(alphabet, text).Ok? <==> forall i | 0 <= i < |text| :: text[i] in alphabet
    ensures Unspell(alphabet, text).Ok? ==>
              && |Unspell(alphabet, text).value| == |text|
              && forall i | 0 <= i < |text| :: Unspell(alphabet, text).value[i] < |alphabet|
                                               && alphabet[Unspell(alphabet, text).value[i]] == text[i]
  {
    if text != "" {
      UnspellShape(alphabet, text[..|text| - 1]);
    }
  }

  /** Text is read as certain digits exactly when those digits are written as the text. */
  lemma ReadIffWritten(alphabet: string, digits: seq<nat>, text: string)
    requires Distinct(alphabet)
    ensures Unspell(alphabet, text) == Ok(digits) <==> Spell(alphabet, digits) == Ok(text)
  {
    SpellShape(alphabet, digits);
    UnspellShape(alphabet, text);
    if Unspell(alphabet, text) == Ok(digits) {
      assert Spell(alphabet, digits).value == text;
    }
    if Spell(alphabet, digits) == Ok(text) {
      assert forall i | 0 <= i < |text| :: text[i] in alphabet;
      assert Unspell(alphabet, text).value == digits;
    }
  }
}
