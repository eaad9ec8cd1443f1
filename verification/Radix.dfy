/** Regrouping bits into digits of another width (`_n` and the codec `_o`), under JavaScript's 32-bit operators. */
module Radix {
  import opened Arithmetic
  import opened ModularInverse
  import opened Outcomes
  import opened PositionalNotation
  import opened PowersOfTwo

  // ------------------------------------------------------------------ 32-bit operators

  const WORD: int := 0x1_0000_0000

  /** The signed 32-bit number with the same low 32 bits. */
  function Int32(x: int): int {
    var m := x % WORD;
    if m >= WORD / 2 then m - WORD else m
  }

  /** `x << k`, which uses the low five bits of the count. */
  function ShiftLeft(x: int, k: nat): int {
    Int32(x * Pow2(k % 32))
  }

  /** `x >> k`, which keeps the sign. */
  function ShiftRight(x: int, k: nat): int {
    x / Pow2(k)
  }

  /** `(x & 2^k - 1) >>> 0`: the low bits of a signed number. */
  function Mask(x: int, k: nat): (r: nat)
    ensures r < Pow2(k)
  {
    DivMod(x, Pow2(k));
    x % Pow2(k)
  }

  lemma WordIsPow2()
    ensures Pow2(32) == WORD
  {
    assert Pow2(8) == 0x100;
    Pow2Add(8, 8);
    Pow2Add(16, 16);
  }

  /** Adding a multiple moves the quotient and leaves the remainder. */
  lemma QuotientShifts(x: int, p: int, m: int)
    requires p > 0
    ensures (x + p * m) / p == x / p + m
    ensures (x + p * m) % p == x % p
  {
    DivMod(x, p);
    MulDistributes(p, x / p, m);
    DivModUnique(x + p * m, p, x / p + m, x % p);
  }

  lemma LowIsMask(x: nat, k: nat)
    ensures Mask(x, k) == Low(x, k)
    ensures ShiftRight(x, k) == High(x, k)
  {
  }

  /** A sign bit does not show in the low bits, nor in bits shifted down to them. */
  lemma Int32Bits(x: nat, k: nat, n: nat)
    requires x < WORD && k + n <= 32
    ensures Mask(ShiftRight(Int32(x), k), n) == Low(High(x, k), n)
    ensures Mask(Int32(x), k) == Low(x, k)
  {
    hide Pow2, Mask, ShiftRight, High, Low;
    assert Int32(x) == x || Int32(x) == x - WORD;
    LowIsMask(x, k);
    LowIsMask(High(x, k), n);
    if Int32(x) == x - WORD {
      var rest := Pow2(32 - k - n);
      WordIsPow2();
      Pow2Add(k, 32 - k);
      Pow2Add(n, 32 - k - n);
      SignShifts(x, k, Pow2(32 - k));
      SignShifts(High(x, k), n, rest);
    }
  }

  lemma SignShifts(x: nat, k: nat, m: nat)
    ensures ShiftRight(x - Pow2(k) * m, k) == High(x, k) - m
    ensures Mask(x - Pow2(k) * m, k) == Low(x, k)
  {
    hide Pow2;
    QuotientShifts(x, Pow2(k), 0 - m);
    assert x - Pow2(k) * m == x + Pow2(k) * (0 - m);
  }

  /** The low k + n bits are n bits above the low k bits. */
  lemma LowSplit(x: nat, k: nat, n: nat)
    ensures Low(x, k + n) == Low(High(x, k), n) * Pow2(k) + Low(x, k)
  {
    hide Pow2, High, Low;
    var h := High(x, k);
    HighLow(x, k);
    HighLow(h, n);
    Pow2Add(k, n);
    var low := Low(h, n) * Pow2(k) + Low(x, k);
    MulMonotone(Low(h, n) + 1, Pow2(n), Pow2(k));
    MulDistributes(Pow2(k), Low(h, n), 1);
    MulDistributes(Pow2(k), High(h, n) * Pow2(n), Low(h, n));
    MulAssociates(High(h, n), Pow2(n), Pow2(k));
    HighLowUnique(x, k + n, High(h, n), low);
  }

  // ------------------------------------------------------------------ the specification

  /** `Lo`: Euclid's algorithm. */
  function Gcd(x: nat, y: nat): nat
    decreases y
  {
    if y == 0 then x else Gcd(y, x % y)
  }

  lemma {:induction false} GcdDivides(x: nat, y: nat)
    requires x > 0
    ensures Gcd(x, y) > 0 && Divides(Gcd(x, y), x) && Divides(Gcd(x, y), y)
    decreases y
  {
    hide Divides;
    if y == 0 {
      DividesItself(x);
    } else {
      var g := Gcd(y, x % y);
      GcdDivides(y, x % y);
      DividesMultiple(g, y, x / y);
      DividesSum(g, (x / y) * y, x % y);
      DivMod(x, y);
    }
  }

  /** `Pt`: the most bits the carry and one digit can take up together. */
  function CarryBits(from: nat, to: nat): int {
    from + (to - Gcd(from, to))
  }

  predicate ValidWidths(from: int, to: int) {
    0 < from <= 32 && 0 < to <= 32 && CarryBits(from, to) <= 32
  }

  /** How many zero bits complete the last digit. */
  function Pad(bits: nat, to: nat): nat
    requires to > 0
  {
    if bits % to == 0 then 0 else to - bits % to
  }

  /**
   Regrouping by value. With padding the number is extended by zero bits to whole digits; without it
   the bits that do not fill a digit must be fewer than an input digit and all zero.
   */
  ghost function Regroup(t: seq<nat>, from: int, to: int, padding: bool): Result<seq<nat>> {
    if !ValidWidths(from, to) || !InRange(t, from) then Thrown
    else if padding then Ok(Padded(Val(t, from), Times(|t|, from), to))
    else Unpadded(Val(t, from), Times(|t|, from), from, to)
  }

  ghost function Padded(v: nat, bits: nat, to: nat): seq<nat>
    requires to > 0
  {
    Digits(Times(v, Pow2(Pad(bits, to))), to, Quotient(bits + Pad(bits, to), to))
  }

  ghost function Unpadded(v: nat, bits: nat, from: nat, to: nat): Result<seq<nat>>
    requires to > 0
  {
    var rest := Remainder(bits, to);
    if rest >= from || Low(v, rest) > 0 then Thrown
    else Ok(Digits(High(v, rest), to, Quotient(bits, to)))
  }

  function Times(x: nat, y: nat): nat {
    MulMonotone(0, x, y);
    x * y
  }

  function Remainder(x: nat, y: nat): nat
    requires y > 0
  {
    x % y
  }

  // ------------------------------------------------------------------ the loop

  /** The carry in front of a whole digit: `s` pending bits with value `o`, `a` written so far. */
  ghost predicate Carrying(t: seq<nat>, from: nat, to: nat, a: seq<nat>, s: nat, o: nat) {
    && InRange(t, from) && InRange(a, to) && o < Pow2(s)
    && s + |a| * to == |t| * from
    && Val(t, from) == Val(a, to) * Pow2(s) + o
    && (to > 0 ==> Divides(Gcd(from, to), s))
  }

  lemma CarryStarts(from: nat, to: nat)
    requires from > 0
    ensures Carrying([], from, to, [], 0, 0)
  {
    DividesItself(Gcd(from, to));
  }

  /** A pending carry and the next digit take up no more than the bits reckoned with, so never over 32. */
  lemma CarryFits(from: nat, to: nat, s: nat)
    requires ValidWidths(from, to) && s < to && Divides(Gcd(from, to), s)
    ensures s + from <= CarryBits(from, to) <= 32
  {
    hide Gcd;
    var g := Gcd(from, to);
    GcdDivides(from, to);
    DividesSum(g, to, s);
    var q :| to - s == Product(q, g);
    assert q > 0 by {
      if q <= 0 {
        MulMonotone(q, 0, g);
      }
    }
    MulMonotone(1, q, g);
  }

  /** Shifting a digit in. */
  lemma CarryTakes(t: seq<nat>, from: nat, to: nat, a: seq<nat>, s: nat, o: nat, f: nat)
    requires Carrying(t, from, to, a, s, o) && f < Pow2(from) && from > 0 && to > 0
    ensures Carrying(t + [f], from, to, a, s + from, o * Pow2(from) + f)
  {
    hide Pow2, Val, Divides, Gcd;
    ValAppend(t, f, from);
    Pow2Add(s, from);
    MulMonotone(o + 1, Pow2(s), Pow2(from));
    MulDistributes(Pow2(from), o, 1);
    MulDistributes(Pow2(from), Val(a, to) * Pow2(s), o);
    MulAssociates(Val(a, to), Pow2(s), Pow2(from));
    MulDistributes(from, |t|, 1);
    GcdDivides(from, to);
    DividesSum(Gcd(from, to), s, from);
  }

  /** Writing a digit out. */
  lemma CarryGives(t: seq<nat>, from: nat, to: nat, a: seq<nat>, s: nat, x: nat)
    requires Carrying(t, from, to, a, s, Low(x, s)) && s >= to > 0 && from > 0
    ensures Carrying(t, from, to, a + [Low(High(x, s - to), to)], s - to, Low(x, s - to))
  {
    hide Pow2, Val, Divides, Gcd, Low, High;
    var k, d := s - to, Low(High(x, s - to), to);
    LowSplit(x, k, to);
    ValAppend(a, d, to);
    Pow2Add(to, k);
    MulDistributes(Pow2(k), Val(a, to) * Pow2(to), d);
    MulAssociates(Val(a, to), Pow2(to), Pow2(k));
    MulDistributes(to, |a|, 1);
    GcdDivides(from, to);
    DividesSum(Gcd(from, to), s, to);
  }

  lemma CarryBelowWord(o: nat, s: nat, from: nat, f: nat)
    requires o < Pow2(s) && f < Pow2(from) && s + from <= 32
    ensures o * Pow2(from) + f < WORD
  {
    hide Pow2;
    Pow2Add(s, from);
    MulMonotone(o + 1, Pow2(s), Pow2(from));
    MulDistributes(Pow2(from), o, 1);
    Pow2Monotone(s + from, 32);
    WordIsPow2();
  }

  /** Shifting the carry up and adding the digit gives the word of the true number. */
  lemma ShiftInIsExact(o: nat, s: nat, from: nat, f: nat)
    requires o < Pow2(s) && f < Pow2(from) && 0 < from && s + from <= 32
    ensures Int32(ShiftLeft(o, from) + f) == Int32(o * Pow2(from) + f)
  {
    hide Pow2, ShiftLeft, Int32;
    if from == 32 {
      NoBits();
      ShiftZero(from);
      assert 0 * Pow2(from) == 0;
    } else {
      ShiftBelowWord(o, from);
      WrapOnce(o * Pow2(from), f);
    }
  }

  lemma ShiftZero(k: nat)
    ensures ShiftLeft(0, k) == 0
  {
    hide Pow2;
    assert 0 * Pow2(k % 32) == 0;
  }

  lemma ShiftBelowWord(x: int, k: nat)
    requires k < 32
    ensures ShiftLeft(x, k) == Int32(x * Pow2(k))
  {
    hide Pow2, Int32;
  }

  lemma WrapOnce(x: int, f: int)
    ensures Int32(Int32(x) + f) == Int32(x + f)
  {
    hide Int32;
    Int32Differs(x);
    var q :| Int32(x) == x + WORD * q;
    Int32Shifts(x + f, q);
  }

  lemma Int32Differs(x: int)
    ensures exists q :: Int32(x) == x + WORD * q
  {
    DivMod(x, WORD);
    assert Int32(x) == x + WORD * (-(x / WORD)) || Int32(x) == x + WORD * (-(x / WORD) - 1);
  }

  lemma Int32Shifts(x: int, q: int)
    ensures Int32(x + WORD * q) == Int32(x)
  {
    QuotientShifts(x, WORD, q);
  }

  /** All pending bits of a number of `s` bits are the number. */
  lemma WholeIsLow(t: seq<nat>, from: nat, to: nat, a: seq<nat>, s: nat, whole: nat)
    requires Carrying(t, from, to, a, s, whole)
    ensures Low(whole, s) == whole
  {
    HighLowUnique(whole, s, 0, whole);
  }

  lemma CarryMeans(t: seq<nat>, from: nat, to: nat, a: seq<nat>, s: nat, o: nat)
    requires Carrying(t, from, to, a, s, o)
    ensures o < Pow2(s) && (to > 0 ==> Divides(Gcd(from, to), s))
  {
  }

  lemma RegroupThrows(t: seq<nat>, from: int, to: int, padding: bool)
    ensures !ValidWidths(from, to) || !InRange(t, from) ==> Regroup(t, from, to, padding) == Thrown
  {
  }

  lemma OutOfRange(t: seq<nat>, i: nat, bits: nat)
    requires i < |t| && t[i] >= Pow2(bits)
    ensures !InRange(t, bits)
  {
  }

  /** The last shift moves the leftover bits to the top of a digit. */
  lemma LastShift(carry: nat, s: nat, to: nat)
    requires carry < Pow2(s) && s < to <= 32
    ensures var x := carry * Pow2(to - s);
            x < Pow2(to) && Mask(ShiftLeft(carry, to - s), to) == x && Mask(Int32(x), 32) == x
  {
    hide Pow2, ShiftLeft, Mask, Low, High;
    var x := carry * Pow2(to - s);
    Pow2Add(s, to - s);
    MulMonotone(carry + 1, Pow2(s), Pow2(to - s));
    MulDistributes(Pow2(to - s), carry, 1);
    assert x < Pow2(to);
    LastShiftIsWord(carry, s, to);
    Pow2Monotone(to, 32);
    WordIsPow2();
    Int32Bits(x, to, 0);
    Int32Bits(x, 32, 0);
    HighLowUnique(x, to, 0, x);
    HighLowUnique(x, 32, 0, x);
  }

  lemma LastShiftIsWord(carry: nat, s: nat, to: nat)
    requires carry < Pow2(s) && s < to <= 32
    ensures ShiftLeft(carry, to - s) == Int32(carry * Pow2(to - s))
  {
    hide Pow2, ShiftLeft, Int32;
    if to - s == 32 {
      NoBits();
      ShiftZero(32);
      assert 0 * Pow2(32) == 0 && Int32(0) == 0 by {
        ShiftZero(0);
        ShiftBelowWord(0, 0);
      }
    } else {
      ShiftBelowWord(carry, to - s);
    }
  }

  /** The test `o > 0` sees every leftover bit: digits of 32 bits, which have a sign, leave none. */
  lemma LeftoverIsSeen(t: seq<nat>, from: nat, to: nat, a: seq<nat>, s: nat, carry: nat)
    requires Carrying(t, from, to, a, s, carry) && ValidWidths(from, to) && s < from && s < to
    ensures Int32(carry * Pow2(to - s)) > 0 <==> carry > 0
  {
    hide Pow2, Val, Gcd, InRange;
    var x, p := carry * Pow2(to - s), Pow2(to - s);
    Pow2Add(s, to - s);
    MulMonotone(carry + 1, Pow2(s), p);
    MulDistributes(p, carry, 1);
    WordIsPow2();
    HalfWord();
    if to == 32 {
      WholeDigitsLeaveNothing(from, s);
      NoBits();
      assert x == 0;
    } else {
      Pow2Monotone(to, 31);
      assert x > 0 <==> carry > 0 by {
        MulMonotone(if carry > 0 then 1 else 0, carry, p);
        assert 1 * p == p && 0 * p == 0;
      }
    }
  }

  lemma WholeDigitsLeaveNothing(from: nat, s: nat)
    requires ValidWidths(from, 32) && s < from && Divides(Gcd(from, 32), s)
    ensures s == 0
  {
    hide Gcd;
    var g := Gcd(from, 32);
    GcdDivides(from, 32);
    assert g >= from;
    var q :| s == Product(q, g);
    if q >= 1 {
      MulMonotone(1, q, g);
    } else {
      MulMonotone(q, 0, g);
    }
  }

  lemma HalfWord()
    ensures Pow2(31) == WORD / 2
  {
    WordIsPow2();
    assert Pow2(32) == 2 * Pow2(31);
  }

  lemma EndShape(t: seq<nat>, from: nat, to: nat, a: seq<nat>, s: nat, carry: nat)
    requires Carrying(t, from, to, a, s, carry) && s < to
    ensures (|t| * from) % to == s && (|t| * from) / to == |a|
    ensures High(Val(t, from), s) == Val(a, to) && Low(Val(t, from), s) == carry
    ensures Digits(Val(a, to), to, |a|) == a
  {
    hide Pow2, Val, High, Low, Digits, Gcd;
    assert |a| * to == to * |a|;
    DivModUnique(|t| * from, to, |a|, s);
    HighLowUnique(Val(t, from), s, Val(a, to), carry);
    DigitsOfVal(a, to);
  }

  lemma NoPaddingEnds(t: seq<nat>, from: nat, to: nat, a: seq<nat>, s: nat, carry: nat)
    requires Carrying(t, from, to, a, s, carry) && s < to && ValidWidths(from, to)
    ensures Regroup(t, from, to, false) == if s >= from || carry > 0 then Thrown else Ok(a)
  {
    hide Pow2, Val, High, Low, Digits, Gcd, CarryBits, InRange;
    EndShape(t, from, to, a, s, carry);
  }

  lemma PaddingEnds(t: seq<nat>, from: nat, to: nat, a: seq<nat>, s: nat, carry: nat)
    requires Carrying(t, from, to, a, s, carry) && s < to && ValidWidths(from, to)
    ensures Regroup(t, from, to, true) == Ok(if s > 0 then a + [carry * Pow2(to - s)] else a)
  {
    hide Pow2, Val, High, Low, Digits, Gcd, CarryBits, InRange;
    EndShape(t, from, to, a, s, carry);
    var v := Val(t, from);
    if s > 0 {
      var p, x := Pow2(to - s), carry * Pow2(to - s);
      Pow2Add(s, to - s);
      MulDistributes(p, Val(a, to) * Pow2(s), carry);
      MulAssociates(Val(a, to), Pow2(s), p);
      assert v * p == Val(a, to) * Pow2(to) + x;
      MulMonotone(carry + 1, Pow2(s), p);
      MulDistributes(p, carry, 1);
      HighLowUnique(v * p, to, Val(a, to), x);
      LengthAfterPadding(|t| * from, to);
      DigitsStep(v * p, to, |a| + 1);
    } else {
      NoBits();
      HighLowUnique(v, 0, v, 0);
    }
  }

  lemma DigitsStep(v: nat, bits: nat, n: nat)
    requires n > 0
    ensures Digits(v, bits, n) == Digits(High(v, bits), bits, n - 1) + [Low(v, bits)]
  {
  }

  lemma LengthAfterPadding(bits: nat, to: nat)
    requires to > 0 && bits % to > 0
    ensures (bits + Pad(bits, to)) / to == bits / to + 1
  {
    DivMod(bits, to);
    MulDistributes(to, bits / to, 1);
    DivModUnique(bits + Pad(bits, to), to, bits / to + 1, 0);
  }

  /** `_n`: regroups digits of `from` bits into digits of `to` bits. */
  method Convert(t: seq<nat>, from: int, to: int, padding: bool) returns (res: Result<seq<nat>>)
    ensures res == Regroup(t, from, to, padding)
  {
    hide Pow2, Val, Low, High, Digits, Carrying, Gcd, Int32, ShiftLeft, ShiftRight, Mask, InRange, Regroup, CarryBits;
    RegroupThrows(t, from, to, padding);
    if from <= 0 || from > 32 || to <= 0 || to > 32 {
      return Thrown;
    }
    if CarryBits(from, to) > 32 {
      return Thrown;
    }
    var o: int, s: nat, a: seq<nat> := 0, 0, [];
    var i := 0;
    CarryStarts(from, to);
    assert t[..0] == [];
    while i < |t|
      invariant 0 <= i <= |t| && 0 <= o && s < to
      invariant Carrying(t[..i], from, to, a, s, o)
    {
      var f := t[i];
      if f >= Pow2(from) {
        OutOfRange(t, i, from);
        return Thrown;
      }
      CarryMeans(t[..i], from, to, a, s, o);
      CarryFits(from, to, s);
      CarryTakes(t[..i], from, to, a, s, o, f);
      CarryBelowWord(o, s, from, f);
      ShiftInIsExact(o, s, from, f);
      assert t[..i] + [f] == t[..i + 1];
      ghost var whole: nat := o * Pow2(from) + f;
      o := Int32(ShiftLeft(o, from) + f);
      if s + from > 32 {
        return Thrown;
      }
      s := s + from;
      WholeIsLow(t[..i + 1], from, to, a, s, whole);
      while s >= to
        invariant s <= 32 && o == Int32(whole) && whole < WORD
        invariant Carrying(t[..i + 1], from, to, a, s, Low(whole, s))
      {
        CarryGives(t[..i + 1], from, to, a, s, whole);
        Int32Bits(whole, s - to, to);
        a := a + [Mask(ShiftRight(o, s - to), to)];
        s := s - to;
      }
      Int32Bits(whole, s, 0);
      o := Mask(o, s);
      i := i + 1;
    }
    assert t[..i] == t;
    ghost var carry: nat := o;
    CarryMeans(t, from, to, a, s, carry);
    LastShift(carry, s, to);
    ghost var written := a;
    o := Int32(Mask(ShiftLeft(o, to - s), to));
    if !padding && s >= from {
      NoPaddingEnds(t, from, to, a, s, carry);
      return Thrown;
    }
    if !padding {
      LeftoverIsSeen(t, from, to, a, s, carry);
    }
    if !padding && o > 0 {
      NoPaddingEnds(t, from, to, a, s, carry);
      return Thrown;
    }
    if padding && s > 0 {
      a := a + [Mask(o, 32)];
    }
    if padding {
      PaddingEnds(t, from, to, written, s, carry);
    } else {
      NoPaddingEnds(t, from, to, a, s, carry);
    }
    res := Ok(a);
  }

  // ------------------------------------------------------------------ the codec

  /** Encoding of `_o`: bytes to digits, the last one filled up with zero bits. */
  ghost function Encode(b: seq<nat>, width: int): Result<seq<nat>> {
    Regroup(b, 8, width, true)
  }

  /** Decoding of `_o`: digits to bytes, without padding. */
  ghost function Decode(d: seq<nat>, width: int): Result<seq<nat>> {
    Regroup(d, width, 8, false)
  }

  /** The widths for which `_o` builds a codec. */
  predicate IsCodec(width: int) {
    ValidWidths(8, width) && ValidWidths(width, 8)
  }

  /** Between bytes and the digits of bech32 and base64 the carry takes up at most 12 bits. */
  lemma UsedCodecs()
    ensures IsCodec(5) && CarryBits(8, 5) == 12 && CarryBits(5, 8) == 12
    ensures IsCodec(6) && CarryBits(8, 6) == 12 && CarryBits(6, 8) == 12
  {
    assert Gcd(8, 5) == 1 && Gcd(5, 8) == 1;
    assert Gcd(8, 6) == 2 && Gcd(6, 8) == 2;
  }

  function Zeros(n: nat): (z: seq<nat>)
    ensures |z| == n && forall i | 0 <= i < n :: z[i] == 0
  {
    if n == 0 then [] else Zeros(n - 1) + [0]
  }

  lemma {:induction false} ValWithZeros(b: seq<nat>, bits: nat, z: nat)
    ensures Val(b + Zeros(z), bits) == Val(b, bits) * Pow2(z * bits)
  {
    hide Pow2, Val;
    if z == 0 {
      assert b + Zeros(0) == b && 0 * bits == 0;
      NoBits();
    } else {
      ValWithZeros(b, bits, z - 1);
      assert b + Zeros(z) == (b + Zeros(z - 1)) + [0];
      ValAppend(b + Zeros(z - 1), 0, bits);
      OneMore(z - 1, bits);
      MulAssociates(Val(b, bits), Pow2((z - 1) * bits), Pow2(bits));
    }
  }

  lemma PadCompletes(bits: nat, to: nat)
    requires to > 0
    ensures Pad(bits, to) < to && (bits + Pad(bits, to)) % to == 0
    ensures Quotient(bits + Pad(bits, to), to) * to == bits + Pad(bits, to)
  {
    DivMod(bits, to);
    if bits % to > 0 {
      LengthAfterPadding(bits, to);
      MulDistributes(to, bits / to, 1);
    }
    DivMod(bits + Pad(bits, to), to);
    DivModUnique(bits + Pad(bits, to), to, (bits + Pad(bits, to)) / to, 0);
  }

  /** What encoding returns, in terms of values. */
  lemma EncodeValue(b: seq<nat>, width: int)
    requires IsCodec(width) && InRange(b, 8)
    ensures var pad := Pad(8 * |b|, width);
            Encode(b, width).Ok? && var d := Encode(b, width).value;
            && InRange(d, width) && |d| * width == 8 * |b| + pad && pad < width
            && Val(d, width) == Val(b, 8) * Pow2(pad)
  {
    hide Pow2, Val, InRange, CarryBits, Pad;
    var bits, pad := 8 * |b|, Pad(8 * |b|, width);
    var n := Quotient(bits + pad, width);
    PadCompletes(bits, width);
    ValBelow(b, 8);
    Pow2Add(bits, pad);
    MulMonotone(Val(b, 8) + 1, Pow2(bits), Pow2(pad));
    MulDistributes(Pow2(pad), Val(b, 8), 1);
    ValOfDigits(Val(b, 8) * Pow2(pad), width, n);
    DigitsInRange(Val(b, 8) * Pow2(pad), width, n);
  }

  /** Decoding gives back the bytes, followed by as many zero bytes as fit into the padding. */
  lemma DecodeOfEncode(b: seq<nat>, width: int)
    requires IsCodec(width) && InRange(b, 8)
    ensures Encode(b, width).Ok?
    ensures Decode(Encode(b, width).value, width) == Ok(b + Zeros(Pad(8 * |b|, width) / 8))
  {
    hide Pow2, Val, InRange, CarryBits, Pad, Digits;
    EncodeValue(b, width);
    var d, pad := Encode(b, width).value, Pad(8 * |b|, width);
    var z, rest := pad / 8, pad % 8;
    DivModUnique(8 * |b| + pad, 8, |b| + z, rest);
    Pow2Add(8 * z, rest);
    MulAssociates(Val(b, 8), Pow2(8 * z), Pow2(rest));
    HighLowUnique(Val(d, width), rest, Val(b, 8) * Pow2(8 * z), 0);
    ValWithZeros(b, 8, z);
    ZerosInRange(b, z);
    DigitsOfVal(b + Zeros(z), 8);
  }

  lemma ZerosInRange(b: seq<nat>, z: nat)
    requires InRange(b, 8)
    ensures InRange(b + Zeros(z), 8)
  {
  }

  /** Decoding undoes encoding exactly when less than a byte of padding was added. */
  lemma RoundTrips(b: seq<nat>, width: int)
    requires IsCodec(width) && InRange(b, 8)
    ensures Encode(b, width).Ok?
    ensures Decode(Encode(b, width).value, width) == Ok(b) <==> Pad(8 * |b|, width) < 8
    ensures width <= 8 ==> Pad(8 * |b|, width) < 8
  {
    hide Encode, Decode, InRange;
    DecodeOfEncode(b, width);
    var z := Pad(8 * |b|, width) / 8;
    assert b + Zeros(z) == b <==> z == 0 by {
      assert |b + Zeros(z)| == |b| + z;
    }
  }

  lemma EightAndSixteen()
    ensures CarryBits(8, 16) == 16 && CarryBits(16, 8) == 16
  {
    assert Gcd(16, 8) == 8;
    assert Gcd(8, 16) == Gcd(16, 8);
  }

  lemma WideCodec()
    ensures IsCodec(16) && Pad(8, 16) == 8
  {
    hide CarryBits;
    EightAndSixteen();
  }

  lemma OneZero(x: nat)
    ensures [x] + Zeros(1) == [x, 0]
  {
    assert Zeros(1) == Zeros(0) + [0];
  }

  /** With digits of 16 bits the padding of one byte is a byte itself, which decoding returns as well. */
  lemma WideDigitsDoNot(x: nat)
    requires x < 256
    ensures IsCodec(16) && Encode([x], 16).Ok? && Decode(Encode([x], 16).value, 16) == Ok([x, 0])
  {
    hide Encode, Decode, Pow2, IsCodec, Pad, Zeros;
    WideCodec();
    ByteBound();
    assert InRange([x], 8);
    DecodeOfEncode([x], 16);
    OneZero(x);
  }

  lemma ByteBound()
    ensures Pow2(8) == 256
  {
  }

  /** Whatever decoding accepts is the encoding of the bytes it returns. */
  lemma AcceptedIsEncoding(d: seq<nat>, width: int)
    requires IsCodec(width) && Decode(d, width).Ok?
    ensures InRange(Decode(d, width).value, 8)
    ensures Encode(Decode(d, width).value, width) == Ok(d)
  {
    hide Pow2, Val, InRange, CarryBits, Pad, Digits;
    var b := Decode(d, width).value;
    var bits := |d| * width;
    var rest := Remainder(bits, 8);
    DivMod(bits, 8);
    assert |b| == Quotient(bits, 8) && bits == 8 * |b| + rest && rest < width;
    HighLow(Val(d, width), rest);
    ValBelow(d, width);
    Pow2Add(8 * |b|, rest);
    HighBelow(Val(d, width), rest, Pow2(8 * |b|));
    ValOfDigits(High(Val(d, width), rest), 8, |b|);
    DigitsInRange(High(Val(d, width), rest), 8, |b|);
    EncodeValue(b, width);
    SamePadding(|d|, width, |b|, rest);
    ValInjective(Encode(b, width).value, d, width);
  }

  /** Fewer leftover bits than a digit has are exactly the padding. */
  lemma SamePadding(n: nat, width: nat, bytes: nat, rest: nat)
    requires width > 0 && n * width == 8 * bytes + rest && rest < width
    ensures Pad(8 * bytes, width) == rest
    ensures forall m: nat :: m * width == n * width ==> m == n
  {
    if rest == 0 {
      DivModUnique(8 * bytes, width, n, 0);
    } else {
      MulDistributes(width, n - 1, 1);
      DivModUnique(8 * bytes, width, n - 1, width - rest);
    }
    forall m: nat | m * width == n * width ensures m == n {
      DivModUnique(m * width, width, m, 0);
      DivModUnique(n * width, width, n, 0);
    }
  }
}
