/** The checksum of bech32 (`ct` and `Ao`; BIP-173, "Checksum") over states of 30 bits. */
module Bech32Checksum {
  import opened Alphabet
  import opened Arithmetic
  import opened Outcomes
  import opened PositionalNotation
  import opened PowersOfTwo
  import opened Radix

  type State = bv30

  const GENERATORS: seq<State> := [996825010, 642813549, 513874426, 1027748829, 705979059]

  function Plus(a: State, b: State): State {
    a ^ b
  }

  /** `e >> r & 1` for the five top bits of a state. */
  predicate TopBit(t: State, r: nat)
    requires r < 5
  {
    LowBit(ShiftDown(t >> 25, r)) == 1
  }

  function ShiftDown(e: State, r: nat): State
    requires r < 5
  {
    if r == 0 then e else if r == 1 then e >> 1 else if r == 2 then e >> 2 else if r == 3 then e >> 3 else e >> 4
  }

  function LowBit(e: State): State {
    e & 1
  }

  function Shifted(t: State): State {
    (t & 33554431) << 5
  }

  function Tap(t: State, r: nat): State
    requires r < 5
  {
    if TopBit(t, r) then GENERATORS[r] else 0
  }

  /** The shifted state with the first `r` generators added in. */
  function Tapped(t: State, r: nat): State
    requires r <= 5
  {
    if r == 0 then Shifted(t) else Plus(Tapped(t, r - 1), Tap(t, r - 1))
  }

  function Step(t: State): State {
    Tapped(t, |GENERATORS|)
  }

  /** `ct` */
  method NextState(t: State) returns (n: State)
    ensures n == Step(t)
  {
    hide TopBit, Shifted, Plus;
    n := Shifted(t);
    for r := 0 to |GENERATORS|
      invariant n == Tapped(t, r)
    {
      if TopBit(t, r) {
        n := Plus(n, GENERATORS[r]);
      } else {
        AddsNothing(n);
      }
    }
  }

  lemma AddsNothing(n: State)
    ensures Plus(n, 0) == n && Plus(0, n) == n
  {
  }

  lemma PlusCommutes(a: State, b: State)
    ensures Plus(a, b) == Plus(b, a)
  {
  }

  lemma PlusAssociates(a: State, b: State, c: State)
    ensures Plus(Plus(a, b), c) == Plus(a, Plus(b, c))
  {
  }

  lemma PlusTwice(a: State)
    ensures Plus(a, a) == 0
  {
  }

  lemma ZeroSum(a: State, b: State)
    requires Plus(a, b) == 0
    ensures a == b
  {
  }

  lemma PlusCancels(a: State, b: State, c: State)
    ensures Plus(a, c) == Plus(b, c) ==> a == b
    ensures Plus(c, a) == Plus(c, b) ==> a == b
  {
    hide Plus;
    PlusAssociates(a, c, c);
    PlusAssociates(b, c, c);
    PlusTwice(c);
    AddsNothing(a);
    AddsNothing(b);
    PlusCommutes(a, c);
    PlusCommutes(b, c);
  }

  lemma ShiftedLinear(a: State, b: State)
    ensures Shifted(Plus(a, b)) == Plus(Shifted(a), Shifted(b))
  {
  }

  lemma ShiftDownTop(t: State, r: nat)
    requires r < 5
    ensures ShiftDown(t >> 25, r)
            == if r == 0 then t >> 25 else if r == 1 then t >> 26 else if r == 2 then t >> 27
               else if r == 3 then t >> 28 else t >> 29
  {
  }

  lemma TopLinear(a: State, b: State, r: nat)
    requires r < 5
    ensures ShiftDown(Plus(a, b) >> 25, r) == Plus(ShiftDown(a >> 25, r), ShiftDown(b >> 25, r))
  {
    hide Plus, ShiftDown;
    ShiftDownTop(a, r);
    ShiftDownTop(b, r);
    ShiftDownTop(Plus(a, b), r);
    Shift25(a, b);
    Shift26(a, b);
    Shift27(a, b);
    Shift28(a, b);
    Shift29(a, b);
  }

  lemma Shift25(a: State, b: State)
    ensures Plus(a, b) >> 25 == Plus(a >> 25, b >> 25)
  {
  }

  lemma Shift26(a: State, b: State)
    ensures Plus(a, b) >> 26 == Plus(a >> 26, b >> 26)
  {
  }

  lemma Shift27(a: State, b: State)
    ensures Plus(a, b) >> 27 == Plus(a >> 27, b >> 27)
  {
  }

  lemma Shift28(a: State, b: State)
    ensures Plus(a, b) >> 28 == Plus(a >> 28, b >> 28)
  {
  }

  lemma Shift29(a: State, b: State)
    ensures Plus(a, b) >> 29 == Plus(a >> 29, b >> 29)
  {
  }

  lemma LowBitLinear(a: State, b: State)
    ensures LowBit(Plus(a, b)) == 1 <==> (LowBit(a) == 1) != (LowBit(b) == 1)
  {
  }

  lemma TopBitLinear(a: State, b: State, r: nat)
    requires r < 5
    ensures TopBit(Plus(a, b), r) <==> TopBit(a, r) != TopBit(b, r)
  {
    hide Plus, ShiftDown, LowBit;
    TopLinear(a, b, r);
    LowBitLinear(ShiftDown(a >> 25, r), ShiftDown(b >> 25, r));
  }

  lemma TapLinear(a: State, b: State, r: nat)
    requires r < 5
    ensures Tap(Plus(a, b), r) == Plus(Tap(a, r), Tap(b, r))
  {
    hide TopBit, Plus;
    TopBitLinear(a, b, r);
    AddsNothing(GENERATORS[r]);
    AddsNothing(0);
    PlusTwice(GENERATORS[r]);
  }

  lemma {:induction false} TappedLinear(a: State, b: State, r: nat)
    requires r <= 5
    ensures Tapped(Plus(a, b), r) == Plus(Tapped(a, r), Tapped(b, r))
  {
    hide Tap, Plus, Shifted;
    if r == 0 {
      ShiftedLinear(a, b);
    } else {
      TappedLinear(a, b, r - 1);
      TapLinear(a, b, r - 1);
      var u, v, x, y := Tapped(a, r - 1), Tapped(b, r - 1), Tap(a, r - 1), Tap(b, r - 1);
      PlusAssociates(u, v, Plus(x, y));
      PlusAssociates(v, x, y);
      PlusCommutes(v, x);
      PlusAssociates(x, v, y);
      PlusAssociates(u, x, Plus(v, y));
    }
  }

  /** The step written out. */
  function Written(t: State): State {
    With(t, 4, With(t, 3, With(t, 2, With(t, 1, With(t, 0, (t & 33554431) << 5)))))
  }

  function With(t: State, r: nat, n: State): State
    requires r < 5
  {
    if TopBit(t, r) then Plus(n, GENERATORS[r]) else n
  }

  lemma OnlyZeroVanishes(t: State)
    requires Written(t) == 0
    ensures t == 0
  {
  }

  lemma StepIsWritten(t: State)
    ensures Step(t) == Written(t)
  {
    hide Tapped, Tap, Plus, With;
    TappedNone(t);
    TappedOnce(t, 1);
    WithIsTap(t, 0, Tapped(t, 0));
    TappedOnce(t, 2);
    WithIsTap(t, 1, Tapped(t, 1));
    TappedOnce(t, 3);
    WithIsTap(t, 2, Tapped(t, 2));
    TappedOnce(t, 4);
    WithIsTap(t, 3, Tapped(t, 3));
    TappedOnce(t, 5);
    WithIsTap(t, 4, Tapped(t, 4));
  }

  lemma WithIsTap(t: State, r: nat, n: State)
    requires r < 5
    ensures With(t, r, n) == Plus(n, Tap(t, r))
  {
    hide Plus, TopBit;
    AddsNothing(n);
  }

  lemma TappedNone(t: State)
    ensures Tapped(t, 0) == Shifted(t)
  {
  }

  lemma TappedOnce(t: State, r: nat)
    requires 0 < r <= 5
    ensures Tapped(t, r) == Plus(Tapped(t, r - 1), Tap(t, r - 1))
  {
    hide Tap, Plus;
  }

  /** Different states stay different. */
  lemma StepInjective(a: State, b: State)
    requires Step(a) == Step(b)
    ensures a == b
  {
    hide Tapped, Plus, Written;
    TappedLinear(a, b, 5);
    PlusTwice(Step(a));
    StepIsWritten(Plus(a, b));
    OnlyZeroVanishes(Plus(a, b));
    ZeroSum(a, b);
  }

  // ------------------------------------------------------------------ the step as multiplication

  /** Twice an element of the field of 32 elements, in which a^5 = a^3 + 1 (41 in bits). */
  function Doubled(d: State): State {
    if d & 16 == 0 then d << 1 else (d << 1) ^ 41
  }

  function DoubledTimes(d: State, r: nat): State {
    if r == 0 then d else Doubled(DoubledTimes(d, r - 1))
  }

  /** The lowest `r` bits of `c` times `d` in that field, by doubling and adding. */
  function PartialTimes(c: State, d: State, r: nat): State
    requires r <= 5
  {
    if r == 0 then 0
    else Plus(PartialTimes(c, d, r - 1), if LowBit(ShiftDown(c, r - 1)) == 1 then DoubledTimes(d, r - 1) else 0)
  }

  /** The product in that field. */
  function FieldTimes(c: State, d: State): State {
    PartialTimes(c, d, 5)
  }

  function Low5(t: State): State {
    t & 31
  }

  /** The coefficient of x^(5 - i) that a state stands for. */
  function Coefficient(t: State, i: nat): State
    requires i < 6
  {
    Low5(if i == 0 then t >> 25 else if i == 1 then t >> 20 else if i == 2 then t >> 15
         else if i == 3 then t >> 10 else if i == 4 then t >> 5 else t)
  }

  /** x^6 is this, modulo the generator x^6 + 29x^5 + 22x^4 + 20x^3 + 21x^2 + 29x + 18 of BIP-173. */
  function GeneratorCoefficient(i: nat): State
    requires i < 6
  {
    if i == 0 then 29 else if i == 1 then 22 else if i == 2 then 20 else if i == 3 then 21 else if i == 4 then 29 else 18
  }

  lemma FirstLinear(a: bv30, b: bv30)
    ensures ((a ^ b) >> 25) & 31 == ((a >> 25) & 31) ^ ((b >> 25) & 31)
  {
  }

  lemma SecondLinear(a: bv30, b: bv30)
    ensures ((a ^ b) >> 20) & 31 == ((a >> 20) & 31) ^ ((b >> 20) & 31)
  {
  }

  lemma ThirdLinear(a: bv30, b: bv30)
    ensures ((a ^ b) >> 15) & 31 == ((a >> 15) & 31) ^ ((b >> 15) & 31)
  {
  }

  lemma FourthLinear(a: bv30, b: bv30)
    ensures ((a ^ b) >> 10) & 31 == ((a >> 10) & 31) ^ ((b >> 10) & 31)
  {
  }

  lemma FifthLinear(a: bv30, b: bv30)
    ensures ((a ^ b) >> 5) & 31 == ((a >> 5) & 31) ^ ((b >> 5) & 31)
  {
  }

  lemma SixthLinear(a: bv30, b: bv30)
    ensures (a ^ b) & 31 == (a & 31) ^ (b & 31)
  {
  }

  lemma CoefficientLinear(a: State, b: State, i: nat)
    requires i < 6
    ensures Coefficient(Plus(a, b), i) == Plus(Coefficient(a, i), Coefficient(b, i))
  {
    if i == 0 {
      FirstLinear(a, b);
    } else if i == 1 {
      SecondLinear(a, b);
    } else if i == 2 {
      ThirdLinear(a, b);
    } else if i == 3 {
      FourthLinear(a, b);
    } else if i == 4 {
      FifthLinear(a, b);
    } else {
      SixthLinear(a, b);
    }
  }

  lemma FirstShifted(t: State)
    ensures Low5(Shifted(t) >> 25) == Low5(t >> 20)
  {
  }

  lemma SecondShifted(t: State)
    ensures Low5(Shifted(t) >> 20) == Low5(t >> 15)
  {
  }

  lemma ThirdShifted(t: State)
    ensures Low5(Shifted(t) >> 15) == Low5(t >> 10)
  {
  }

  lemma FourthShifted(t: State)
    ensures Low5(Shifted(t) >> 10) == Low5(t >> 5)
  {
  }

  lemma FifthShifted(t: State)
    ensures Low5(Shifted(t) >> 5) == Low5(t)
  {
  }

  lemma SixthShifted(t: State)
    ensures Low5(Shifted(t)) == 0
  {
  }

  lemma CoefficientShifted(t: State, i: nat)
    requires i < 6
    ensures Coefficient(Shifted(t), i) == if i < 5 then Coefficient(t, i + 1) else 0
  {
    hide Shifted, Low5;
    if i == 0 {
      FirstShifted(t);
    } else if i == 1 {
      SecondShifted(t);
    } else if i == 2 {
      ThirdShifted(t);
    } else if i == 3 {
      FourthShifted(t);
    } else if i == 4 {
      FifthShifted(t);
    } else {
      SixthShifted(t);
    }
  }

  lemma TopCoefficient(t: State)
    ensures Coefficient(t, 0) == t >> 25
  {
  }

  /** Each of the constants is the double of the one before it, and the first one is the generator. */
  lemma GeneratorsDouble(r: nat, i: nat)
    requires r < 5 && i < 6
    ensures Coefficient(GENERATORS[r], i) == DoubledTimes(GeneratorCoefficient(i), r)
    decreases r
  {
    if r > 0 {
      GeneratorsDouble(r - 1, i);
      DoubleOfNext(r - 1, i);
    }
  }

  lemma DoubleOfNext(r: nat, i: nat)
    requires r < 4 && i < 6
    ensures Coefficient(GENERATORS[r + 1], i) == Doubled(Coefficient(GENERATORS[r], i))
  {
  }

  lemma {:induction false} TappedMultiplies(t: State, i: nat, r: nat)
    requires i < 6 && r <= 5
    ensures Coefficient(Tapped(t, r), i)
            == Plus(Coefficient(Shifted(t), i), PartialTimes(Coefficient(t, 0), GeneratorCoefficient(i), r))
    decreases r
  {
    hide Coefficient, Plus, Shifted, GeneratorCoefficient, DoubledTimes, LowBit, ShiftDown;
    var base, g := Coefficient(Shifted(t), i), GeneratorCoefficient(i);
    if r == 0 {
      AddsNothing(base);
    } else {
      var tap := Tap(t, r - 1);
      TappedMultiplies(t, i, r - 1);
      CoefficientLinear(Tapped(t, r - 1), tap, i);
      TopCoefficient(t);
      GeneratorsDouble(r - 1, i);
      ZeroCoefficient(i);
      assert Coefficient(tap, i) == if TopBit(t, r - 1) then DoubledTimes(g, r - 1) else 0;
      PlusAssociates(base, PartialTimes(Coefficient(t, 0), g, r - 1), Coefficient(tap, i));
    }
  }

  lemma ZeroCoefficient(i: nat)
    requires i < 6
    ensures Coefficient(0, i) == 0
  {
  }

  /** The step multiplies by x, modulo the generator. */
  lemma StepMultiplies(t: State, i: nat)
    requires i < 6
    ensures Coefficient(Step(t), i)
            == Plus(if i < 5 then Coefficient(t, i + 1) else 0, FieldTimes(Coefficient(t, 0), GeneratorCoefficient(i)))
  {
    hide Coefficient, Plus, Shifted, GeneratorCoefficient, PartialTimes, Tapped;
    TappedMultiplies(t, i, 5);
    CoefficientShifted(t, i);
  }

  // ------------------------------------------------------------------ absorbing a list of words

  ghost predicate Small(words: seq<nat>) {
    forall i | 0 <= i < |words| :: words[i] < 32
  }

  function Word(w: nat): State
    requires w < 32
  {
    (w as bv5) as bv30
  }

  lemma WordInjective(v: nat, w: nat)
    requires v < 32 && w < 32 && Word(v) == Word(w)
    ensures v == w
  {
    FiveBitValue(v);
    FiveBitValue(w);
    WidenInjective(v as bv5, w as bv5);
  }

  lemma FiveBitValue(w: nat)
    requires w < 32
    ensures (w as bv5) as int == w
  {
  }

  lemma WidenInjective(v: bv5, w: bv5)
    requires v as bv30 == w as bv30
    ensures v == w
  {
  }

  function Absorb(o: State, words: seq<nat>): State
    requires Small(words)
    decreases |words|
  {
    if words == [] then o else Absorb(Plus(Step(o), Word(words[0])), words[1..])
  }

  lemma {:induction false} AbsorbConcat(o: State, u: seq<nat>, v: seq<nat>)
    requires Small(u) && Small(v)
    ensures Small(u + v) && Absorb(o, u + v) == Absorb(Absorb(o, u), v)
    decreases |u|
  {
    hide Step, Plus, Word;
    if u == [] {
      assert u + v == v;
    } else {
      assert Small(u + v) && (u + v)[1..] == u[1..] + v;
      AbsorbConcat(Plus(Step(o), Word(u[0])), u[1..], v);
    }
  }

  lemma AbsorbOne(o: State, u: seq<nat>, w: nat)
    requires Small(u) && w < 32
    ensures Small(u + [w]) && Absorb(o, u + [w]) == Plus(Step(Absorb(o, u)), Word(w))
  {
    hide Step, Plus, Word;
    AbsorbConcat(o, u, [w]);
  }

  /** Two different states never become equal again over the same words. */
  lemma {:induction false} AbsorbInjective(a: State, b: State, words: seq<nat>)
    requires Small(words) && Absorb(a, words) == Absorb(b, words)
    ensures a == b
    decreases |words|
  {
    hide Step, Plus, Word;
    if words != [] {
      var w := Word(words[0]);
      AbsorbInjective(Plus(Step(a), w), Plus(Step(b), w), words[1..]);
      PlusCancels(Step(a), Step(b), w);
      StepInjective(a, b);
    }
  }

  /** One word changed, wherever it stands, changes the final state. */
  lemma {:induction false} OneChangeShows(o: State, words: seq<nat>, j: nat, w: nat)
    requires Small(words) && j < |words| && w < 32 && w != words[j]
    ensures Small(words[j := w]) && Absorb(o, words[j := w]) != Absorb(o, words)
    decreases |words|
  {
    hide Step, Plus, Word;
    var changed := words[j := w];
    var next := Step(o);
    assert Small(changed);
    if j == 0 {
      assert changed[1..] == words[1..];
      if Absorb(o, changed) == Absorb(o, words) {
        AbsorbInjective(Plus(next, Word(w)), Plus(next, Word(words[0])), words[1..]);
        PlusCancels(Word(w), Word(words[0]), next);
        WordInjective(w, words[0]);
      }
    } else {
      assert changed[1..] == words[1..][j - 1 := w];
      OneChangeShows(Plus(next, Word(words[0])), words[1..], j - 1, w);
    }
  }

  // ------------------------------------------------------------------ the checksum

  function Letters(): string {
    "qpzry9x8gf2tvdw0s3jn54khce6mua7l"
  }

  lemma LetterCount()
    ensures |Letters()| == 32
  {
  }

  predicate ValidPrefix(prefix: string) {
    forall i | 0 <= i < |prefix| :: 33 <= prefix[i] as int <= 126
  }

  /** The upper bits of the prefix's characters. */
  function Uppers(prefix: string): (words: seq<nat>)
    requires ValidPrefix(prefix)
    ensures |words| == |prefix| && Small(words)
  {
    seq(|prefix|, i requires 0 <= i < |prefix| => prefix[i] as int / 32)
  }

  /** Their lower five bits. */
  function Lowers(prefix: string): (words: seq<nat>)
    requires ValidPrefix(prefix)
    ensures |words| == |prefix| && Small(words)
  {
    seq(|prefix|, i requires 0 <= i < |prefix| => prefix[i] as int % 32)
  }

  const SIX_ZEROS: seq<nat> := [0, 0, 0, 0, 0, 0]

  /** The words the checksum is taken over: the expanded prefix, the data, and room for the checksum. */
  function Expanded(prefix: string, words: seq<nat>): (all: seq<nat>)
    requires ValidPrefix(prefix) && Small(words)
    ensures Small(all)
  {
    Uppers(prefix) + [0] + Lowers(prefix) + words + SIX_ZEROS
  }

  function Residue(prefix: string, words: seq<nat>, variant: State): State
    requires ValidPrefix(prefix) && Small(words)
  {
    Plus(Absorb(1, Expanded(prefix, words)), variant)
  }

  /** The six digits a state is written as. */
  function StateDigits(t: State): (d: seq<nat>)
    ensures |d| == 6
  {
    Digits(t as nat, 5, 6)
  }

  lemma Pow2Of30()
    ensures Pow2(30) == 0x4000_0000 && Pow2(5) == 32
  {
    assert Pow2(10) == 1024;
    Pow2Add(10, 10);
    Pow2Add(20, 10);
  }

  lemma StateDigitsSmall(t: State)
    ensures Small(StateDigits(t)) && Val(StateDigits(t), 5) == t as nat
  {
    hide Pow2;
    Pow2Of30();
    DigitsInRange(t as nat, 5, 6);
    ValOfDigits(t as nat, 5, 6);
  }

  lemma StateDigitsInjective(a: State, b: State)
    requires StateDigits(a) == StateDigits(b)
    ensures a == b
  {
    hide StateDigits;
    StateDigitsSmall(a);
    StateDigitsSmall(b);
    assert (a as int) as bv30 == a && (b as int) as bv30 == b;
  }

  /** The checksum of a prefix and its data as six letters. */
  function ChecksumOf(prefix: string, words: seq<nat>, variant: State): (text: string)
    requires ValidPrefix(prefix) && Small(words)
    ensures Spell(Letters(), StateDigits(Residue(prefix, words, variant))) == Ok(text) && |text| == 6
  {
    SmallHasLetters(StateDigits(Residue(prefix, words, variant)), Residue(prefix, words, variant));
    Spell(Letters(), StateDigits(Residue(prefix, words, variant))).value
  }

  lemma SmallHasLetters(d: seq<nat>, t: State)
    requires d == StateDigits(t)
    ensures Spell(Letters(), d).Ok? && |Spell(Letters(), d).value| == 6
  {
    hide Letters, StateDigits;
    LetterCount();
    StateDigitsSmall(t);
    SpellShape(Letters(), d);
  }

  lemma OneDigitValue(v: nat, bits: nat)
    ensures Val([v], bits) == v
  {
    hide Pow2;
    ValAppend([], v, bits);
    assert [] + [v] == [v];
  }

  lemma ThirtyBitsInFives()
    ensures Times(1, 30) == 30 && Remainder(30, 5) == 0 && Quotient(30, 5) == 6 && ValidWidths(30, 5)
  {
    assert Gcd(30, 5) == 5;
  }

  lemma NoLowBits(v: nat)
    ensures High(v, 0) == v && Low(v, 0) == 0
  {
    hide High, Low;
    NoBits();
    HighLowUnique(v, 0, v, 0);
  }

  lemma OneWordOfThirtyBits(v: nat)
    requires v < Pow2(30)
    ensures Regroup([v], 30, 5, false) == Ok(Digits(v, 5, 6))
  {
    hide Pow2, Digits, Val, High, Low, Times, Remainder, Quotient, ValidWidths;
    OneDigitValue(v, 30);
    ThirtyBitsInFives();
    NoLowBits(v);
    assert InRange([v], 30);
    assert Unpadded(v, 30, 30, 5) == Ok(Digits(v, 5, 6));
  }

  /** `Ao`: throws exactly for a prefix with a character outside 33 .. 126. */
  method Checksum(prefix: string, words: seq<nat>, variant: State) returns (res: Result<string>)
    requires Small(words)
    ensures res.Ok? <==> ValidPrefix(prefix)
    ensures res.Ok? ==> res.value == ChecksumOf(prefix, words, variant)
  {
    hide Step, Plus, Absorb, StateDigits, ChecksumOf, Letters;
    var o: State := 1;
    ghost var seen: seq<nat> := [];
    AbsorbNothing(1);
    for i := 0 to |prefix|
      invariant ValidPrefix(prefix[..i]) && seen == Uppers(prefix[..i])
      invariant Small(seen) && o == Absorb(1, seen)
    {
      var code := prefix[i] as int;
      if code < 33 || code > 126 {
        return Thrown;
      }
      var next := NextState(o);
      AbsorbOne(1, seen, code / 32);
      seen := seen + [code / 32];
      o := Plus(next, Word(code / 32));
    }
    assert prefix[..|prefix|] == prefix;
    o := NextState(o);
    AbsorbOne(1, seen, 0);
    ZeroWord(o);
    seen := seen + [0];
    ghost var before := seen;
    for i := 0 to |prefix|
      invariant seen == before + Lowers(prefix)[..i]
      invariant Small(seen) && o == Absorb(1, seen)
    {
      var code := prefix[i] as int;
      var next := NextState(o);
      AbsorbOne(1, seen, code % 32);
      seen := seen + [code % 32];
      o := Plus(next, Word(code % 32));
    }
    before := seen;
    for i := 0 to |words|
      invariant seen == before + words[..i]
      invariant Small(seen) && o == Absorb(1, seen)
    {
      var next := NextState(o);
      AbsorbOne(1, seen, words[i]);
      seen := seen + [words[i]];
      o := Plus(next, Word(words[i]));
    }
    before := seen;
    for i := 0 to 6
      invariant seen == before + SIX_ZEROS[..i]
      invariant Small(seen) && o == Absorb(1, seen)
    {
      o := NextState(o);
      AbsorbOne(1, seen, 0);
      ZeroWord(o);
      seen := seen + [0];
    }
    assert seen == Expanded(prefix, words);
    o := Plus(o, variant);
    var digits := WriteState(o);
    assert StateDigits(o) == StateDigits(Residue(prefix, words, variant));
    SmallHasLetters(digits, o);
    assert ChecksumOf(prefix, words, variant) == Spell(Letters(), digits).value;
    res := Spell(Letters(), digits);
  }

  /** The last line of `Ao`: one word of 30 bits regrouped into six of 5 bits. */
  method WriteState(o: State) returns (digits: seq<nat>)
    ensures digits == StateDigits(o)
  {
    hide Pow2, Regroup, Digits;
    Pow2Of30();
    var word: nat := o as nat;
    WholeWord(word);
    OneWordOfThirtyBits(word);
    var res := Convert([word % 0x4000_0000], 30, 5, false);
    digits := res.value;
  }

  lemma WholeWord(word: nat)
    requires word < 0x4000_0000
    ensures word % 0x4000_0000 == word
  {
  }

  lemma AbsorbNothing(o: State)
    ensures Small([]) && Absorb(o, []) == o
  {
  }

  lemma ZeroWord(o: State)
    ensures Plus(o, Word(0)) == o
  {
    assert Word(0) == 0;
    AddsNothing(o);
  }

  // ------------------------------------------------------------------ known checksums

  lemma AbsorbAt(start: State, words: seq<nat>, k: nat, o: State, next: State)
    requires k < |words| && Small(words) && Absorb(start, words[..k]) == o && Plus(Step(o), Word(words[k])) == next
    ensures Absorb(start, words[..k + 1]) == next
  {
    hide Step, Plus, Word, Absorb;
    assert words[..k + 1] == words[..k] + [words[k]];
    AbsorbOne(start, words[..k], words[k]);
  }

  lemma LastSum(o: State, residue: State)
    requires residue == o ^ 1
    ensures Plus(o, 1) == residue
  {
  }

  lemma WordValues()
    ensures Word(0) == 0 && Word(1) == 1 && Word(3) == 3 && Word(5) == 5 && Word(14) == 14 && Word(19) == 19
  {
  }

  lemma StepsOfA()
    ensures Plus(Step(1), Word(3)) == 35 && Plus(Step(35), Word(0)) == 1120 && Plus(Step(1120), Word(1)) == 35841
    ensures Plus(Step(35841), Word(0)) == 1146912 && Plus(Step(1146912), Word(0)) == 36701184 && Plus(Step(36701184), Word(0)) == 1030412210
    ensures Plus(Step(1030412210), Word(0)) == 50147513 && Plus(Step(50147513), Word(0)) == 617365650 && Plus(Step(617365650), Word(0)) == 365756062
  {
    WordValues();
    hide Word;
    StepIsWritten(1);
    StepIsWritten(35);
    StepIsWritten(1120);
    StepIsWritten(35841);
    StepIsWritten(1146912);
    StepIsWritten(36701184);
    StepIsWritten(1030412210);
    StepIsWritten(50147513);
    StepIsWritten(617365650);
    hide Step;
  }

  lemma AbsorbedOfA(words: seq<nat>)
    requires words == [3, 0, 1, 0, 0, 0, 0, 0, 0]
    ensures Small(words) && Absorb(1, words) == 365756062
  {
    hide Step, Plus, Word, Absorb;
    StepsOfA();
    AbsorbNothing(1);
    assert words[..0] == [];
    AbsorbAt(1, words, 0, 1, 35);
    AbsorbAt(1, words, 1, 35, 1120);
    AbsorbAt(1, words, 2, 1120, 35841);
    AbsorbAt(1, words, 3, 35841, 1146912);
    AbsorbAt(1, words, 4, 1146912, 36701184);
    AbsorbAt(1, words, 5, 36701184, 1030412210);
    AbsorbAt(1, words, 6, 1030412210, 50147513);
    AbsorbAt(1, words, 7, 50147513, 617365650);
    AbsorbAt(1, words, 8, 617365650, 365756062);
    assert words[..9] == words;
  }

  lemma ExpandedOfA()
    ensures ValidPrefix("a") && Expanded("a", []) == [3, 0, 1, 0, 0, 0, 0, 0, 0]
  {
  }

  /** The residue of the shortest prefix, without data. */
  lemma ResidueOfA()
    ensures ValidPrefix("a") && Residue("a", [], 1) == 365756063
  {
    hide Plus, Absorb, Expanded;
    ExpandedOfA();
    var words := Expanded("a", []);
    AbsorbedOfA(words);
    LastSum(365756062, 365756063);
  }

  lemma StepsFrontOfNsec()
    ensures Plus(Step(1), Word(3)) == 35 && Plus(Step(35), Word(3)) == 1123 && Plus(Step(1123), Word(3)) == 35939
    ensures Plus(Step(35939), Word(3)) == 1150051 && Plus(Step(1150051), Word(0)) == 36801632 && Plus(Step(36801632), Word(14)) == 1029430204
    ensures Plus(Step(1029430204), Word(19)) == 81572202 && Plus(Step(81572202), Word(5)) == 1036428072
  {
    WordValues();
    hide Word;
    StepIsWritten(1);
    StepIsWritten(35);
    StepIsWritten(1123);
    StepIsWritten(35939);
    StepIsWritten(1150051);
    StepIsWritten(36801632);
    StepIsWritten(1029430204);
    StepIsWritten(81572202);
    hide Step;
  }

  lemma AbsorbedFrontOfNsec(words: seq<nat>)
    requires words == [3, 3, 3, 3, 0, 14, 19, 5]
    ensures Small(words) && Absorb(1, words) == 1036428072
  {
    hide Step, Plus, Word, Absorb;
    StepsFrontOfNsec();
    AbsorbNothing(1);
    assert words[..0] == [];
    AbsorbAt(1, words, 0, 1, 35);
    AbsorbAt(1, words, 1, 35, 1123);
    AbsorbAt(1, words, 2, 1123, 35939);
    AbsorbAt(1, words, 3, 35939, 1150051);
    AbsorbAt(1, words, 4, 1150051, 36801632);
    AbsorbAt(1, words, 5, 36801632, 1029430204);
    AbsorbAt(1, words, 6, 1029430204, 81572202);
    AbsorbAt(1, words, 7, 81572202, 1036428072);
    assert words[..8] == words;
  }

  lemma StepsBackOfNsec()
    ensures Plus(Step(1036428072), Word(3)) == 393454586 && Plus(Step(393454586), Word(0)) == 235705666 && Plus(Step(235705666), Word(0)) == 34170981
    ensures Plus(Step(34170981), Word(0)) == 977754898 && Plus(Step(977754898), Word(0)) == 980843878 && Plus(Step(980843878), Word(0)) == 1012052966
    ensures Plus(Step(1012052966), Word(0)) == 636598841
  {
    WordValues();
    hide Word;
    StepIsWritten(1036428072);
    StepIsWritten(393454586);
    StepIsWritten(235705666);
    StepIsWritten(34170981);
    StepIsWritten(977754898);
    StepIsWritten(980843878);
    StepIsWritten(1012052966);
    hide Step;
  }

  lemma AbsorbedBackOfNsec(words: seq<nat>)
    requires words == [3, 0, 0, 0, 0, 0, 0]
    ensures Small(words) && Absorb(1036428072, words) == 636598841
  {
    hide Step, Plus, Word, Absorb;
    StepsBackOfNsec();
    AbsorbNothing(1036428072);
    assert words[..0] == [];
    AbsorbAt(1036428072, words, 0, 1036428072, 393454586);
    AbsorbAt(1036428072, words, 1, 393454586, 235705666);
    AbsorbAt(1036428072, words, 2, 235705666, 34170981);
    AbsorbAt(1036428072, words, 3, 34170981, 977754898);
    AbsorbAt(1036428072, words, 4, 977754898, 980843878);
    AbsorbAt(1036428072, words, 5, 980843878, 1012052966);
    AbsorbAt(1036428072, words, 6, 1012052966, 636598841);
    assert words[..7] == words;
  }

  lemma ExpandedOfNsec()
    ensures ValidPrefix("nsec") && Expanded("nsec", []) == [3, 3, 3, 3, 0, 14, 19, 5, 3, 0, 0, 0, 0, 0, 0]
  {
  }

  /** The residue of an nsec without data. */
  lemma ResidueOfNsec()
    ensures ValidPrefix("nsec") && Residue("nsec", [], 1) == 636598840
  {
    hide Plus, Absorb, Expanded;
    ExpandedOfNsec();
    var words := Expanded("nsec", []);
    AbsorbedFrontOfNsec(words[..8]);
    AbsorbedBackOfNsec(words[8..]);
    AbsorbConcat(1, words[..8], words[8..]);
    assert words == words[..8] + words[8..];
    LastSum(636598841, 636598840);
  }

  lemma SixDigits(d: seq<nat>, t: State, v: nat)
    requires |d| == 6 && Small(d) && t as nat == v
    requires ((((d[0] * 32 + d[1]) * 32 + d[2]) * 32 + d[3]) * 32 + d[4]) * 32 + d[5] == v
    ensures StateDigits(t) == d
  {
    hide Pow2, Val, Digits;
    Pow2Of30();
    ValAppend([], d[0], 5);
    EmptyValue();
    ValAppend([d[0]], d[1], 5);
    ValAppend([d[0], d[1]], d[2], 5);
    ValAppend([d[0], d[1], d[2]], d[3], 5);
    ValAppend([d[0], d[1], d[2], d[3]], d[4], 5);
    ValAppend([d[0], d[1], d[2], d[3], d[4]], d[5], 5);
    assert [] + [d[0]] == [d[0]];
    assert d == [d[0], d[1], d[2], d[3], d[4]] + [d[5]];
    assert [d[0]] + [d[1]] == [d[0], d[1]];
    assert [d[0], d[1]] + [d[2]] == [d[0], d[1], d[2]];
    assert [d[0], d[1], d[2]] + [d[3]] == [d[0], d[1], d[2], d[3]];
    assert [d[0], d[1], d[2], d[3]] + [d[4]] == [d[0], d[1], d[2], d[3], d[4]];
    assert InRange(d, 5);
    DigitsOfVal(d, 5);
  }

  lemma EmptyValue()
    ensures Val([], 5) == 0
  {
  }

  lemma SpelledDigits(d: seq<nat>, text: string)
    requires |d| == |text| == 6 && Small(d)
    requires forall i | 0 <= i < 6 :: Letters()[d[i]] == text[i]
    ensures Spell(Letters(), d) == Ok(text)
  {
    hide Letters;
    LetterCount();
    SpellShape(Letters(), d);
    assert Spell(Letters(), d).value == text;
  }

  /** The checksum that BIP-173 gives for the prefix "a" without data. */
  lemma ChecksumOfA()
    ensures ValidPrefix("a") && ChecksumOf("a", [], 1) == "2uel5l"
  {
    hide Residue, StateDigits, Spell;
    ResidueOfA();
    SixDigits([10, 28, 25, 31, 20, 31], 365756063, 365756063);
    SpelledDigits([10, 28, 25, 31, 20, 31], "2uel5l");
  }

  lemma ChecksumOfNsec()
    ensures ValidPrefix("nsec") && ChecksumOf("nsec", [], 1) == "jlrw3c"
  {
    hide Residue, StateDigits, Spell;
    ResidueOfNsec();
    SixDigits([18, 31, 3, 14, 17, 24], 636598840, 636598840);
    SpelledDigits([18, 31, 3, 14, 17, 24], "jlrw3c");
  }
}
