/** Bytes written as hexadecimal digits (`Ln`) and read back (`Fe`). */
module Hex {
  import opened Outcomes

  predicate IsHexDigit(c: char) {
    '0' <= c <= '9' || 'a' <= c <= 'f' || 'A' <= c <= 'F'
  }

  predicate AllHex(s: string) {
    forall i | 0 <= i < |s| :: IsHexDigit(s[i])
  }

  function DigitValue(c: char): (v: nat)
    requires IsHexDigit(c)
    ensures v < 16
  {
    if c <= '9' then c as int - '0' as int
    else if c >= 'a' then c as int - 'a' as int + 10
    else c as int - 'A' as int + 10
  }

  function HexDigit(v: nat): (c: char)
    requires v < 16
    ensures IsHexDigit(c) && DigitValue(c) == v
  {
    if v < 10 then ('0' as int + v) as char else ('a' as int + v - 10) as char
  }

  /** `Ln` */
  function ToHex(b: seq<byte>): (s: string)
    ensures |s| == 2 * |b| && AllHex(s)
  {
    if b == [] then ""
    else
      var front := ToHex(b[..|b| - 1]);
      var last := b[|b| - 1];
      front + [HexDigit(last / 16), HexDigit(last % 16)]
  }

  /** Two digits make a byte. */
  function PairValue(s: string, i: nat): byte
    requires AllHex(s) && 2 * i + 1 < |s|
  {
    16 * DigitValue(s[2 * i]) + DigitValue(s[2 * i + 1])
  }

  /** `Fe` */
  method FromHex(s: string) returns (res: Result<seq<byte>>)
    ensures res.Ok? <==> AllHex(s) && |s| % 2 == 0
    ensures res.Ok? ==> 2 * |res.value| == |s| && forall i | 0 <= i < |res.value| :: res.value[i] == PairValue(s, i)
  {
    if !AllHex(s) || |s| % 2 != 0 {
      return Thrown;
    }
    var e := new byte[|s| / 2];
    var n := 0;
    while n < |s|
      invariant 0 <= n <= |s| && n % 2 == 0
      invariant forall i | 0 <= i < n / 2 :: e[i] == PairValue(s, i)
    {
      e[n / 2] := 16 * DigitValue(s[n]) + DigitValue(s[n + 1]);
      n := n + 2;
    }
    res := Ok(e[..]);
  }

  /** The digits of a byte stand where it stands, and make it up. */
  lemma {:induction false} PairsOfHex(b: seq<byte>, i: nat)
    requires i < |b|
    ensures PairValue(ToHex(b), i) == b[i]
  {
    var front, s := b[..|b| - 1], ToHex(b);
    if i < |b| - 1 {
      PairsOfHex(front, i);
      assert s[2 * i] == ToHex(front)[2 * i] && s[2 * i + 1] == ToHex(front)[2 * i + 1];
    } else {
      assert s[2 * i] == HexDigit(b[i] / 16) && s[2 * i + 1] == HexDigit(b[i] % 16);
    }
  }

  /** Bytes whose pairs of digits stand in a text are determined by it. */
  lemma ReadsBack(b: seq<byte>, r: seq<byte>)
    requires |r| == |b| && forall i | 0 <= i < |r| :: r[i] == PairValue(ToHex(b), i)
    ensures r == b
  {
    forall i | 0 <= i < |b| ensures r[i] == b[i] {
      PairsOfHex(b, i);
    }
  }

  const DIGITS: string := "0123456789abcdef"

  lemma DigitText(v: nat)
    requires v < 16
    ensures HexDigit(v) == DIGITS[v]
  {
  }

  /** Each byte is written as its high digit, then its low one. */
  lemma {:induction false} DigitsWritten(b: seq<byte>, i: nat)
    requires i < |b|
    ensures ToHex(b)[2 * i] == DIGITS[b[i] / 16] && ToHex(b)[2 * i + 1] == DIGITS[b[i] % 16]
    decreases |b|
  {
    hide HexDigit;
    var front, last := b[..|b| - 1], b[|b| - 1];
    if i < |front| {
      DigitsWritten(front, i);
    } else {
      DigitText(last / 16);
      DigitText(last % 16);
    }
  }

  /** Upper-case digits are read like lower-case ones. */
  lemma CaseDoesNotMatter(c: char)
    requires 'A' <= c <= 'F'
    ensures IsHexDigit((c as int + 32) as char) && DigitValue(c) == DigitValue((c as int + 32) as char)
  {
  }
}
