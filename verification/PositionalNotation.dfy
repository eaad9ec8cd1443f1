/** Numbers written with digits of a given bit width, most significant digit first. */
module PositionalNotation {
  import opened Arithmetic
  import opened PowersOfTwo

  ghost predicate InRange(d: seq<nat>, bits: nat) {
    forall i | 0 <= i < |d| :: d[i] < Pow2(bits)
  }

  /** The number the digits stand for. */
  function Val(d: seq<nat>, bits: nat): nat {
    if d == [] then 0 else Val(d[..|d| - 1], bits) * Pow2(bits) + d[|d| - 1]
  }

  /** What is left of a number above its lowest bits. */
  function High(v: nat, bits: nat): nat {
    Quotient(v, Pow2(bits))
  }

  function Quotient(v: nat, p: nat): nat
    requires p > 0
  {
    v / p
  }

  /** The lowest bits of a number. */
  function Low(v: nat, bits: nat): (x: nat)
    ensures x < Pow2(bits)
  {
    v % Pow2(bits)
  }

  lemma HighLow(v: nat, bits: nat)
    ensures v == High(v, bits) * Pow2(bits) + Low(v, bits)
  {
    DivMod(v, Pow2(bits));
  }

  lemma HighLowUnique(v: nat, bits: nat, high: nat, low: nat)
    requires v == high * Pow2(bits) + low && low < Pow2(bits)
    ensures High(v, bits) == high && Low(v, bits) == low
  {
    DivModUnique(v, Pow2(bits), high, low);
  }

  /** The lowest `n` digits of a number. */
  function Digits(v: nat, bits: nat, n: nat): (d: seq<nat>)
    ensures |d| == n
    decreases n
  {
    if n == 0 then [] else Digits(High(v, bits), bits, n - 1) + [Low(v, bits)]
  }

  lemma ValAppend(d: seq<nat>, x: nat, bits: nat)
    ensures Val(d + [x], bits) == Val(d, bits) * Pow2(bits) + x
  {
    assert (d + [x])[..|d|] == d;
  }

  lemma HighBelow(v: nat, bits: nat, q: nat)
    requires v < Pow2(bits) * q
    ensures High(v, bits) < q
  {
    hide Pow2;
    HighLow(v, bits);
    if High(v, bits) >= q {
      MulMonotone(q, High(v, bits), Pow2(bits));
    }
  }

  lemma {:induction false} DigitsInRange(v: nat, bits: nat, n: nat)
    ensures InRange(Digits(v, bits, n), bits)
    decreases n
  {
    hide High, Low, Pow2;
    if n > 0 {
      DigitsInRange(High(v, bits), bits, n - 1);
    }
  }

  lemma OneMore(n: nat, bits: nat)
    ensures (n + 1) * bits == n * bits + bits
    ensures Pow2((n + 1) * bits) == Pow2(bits) * Pow2(n * bits)
  {
    MulDistributes(bits, n, 1);
    Pow2Add(bits, n * bits);
  }

  /** A number that fits is the value of its digits. */
  lemma {:induction false} ValOfDigits(v: nat, bits: nat, n: nat)
    requires v < Pow2(n * bits)
    ensures Val(Digits(v, bits, n), bits) == v
    decreases n
  {
    hide High, Low, Pow2;
    if n > 0 {
      OneMore(n - 1, bits);
      HighBelow(v, bits, Pow2((n - 1) * bits));
      ValOfDigits(High(v, bits), bits, n - 1);
      ValAppend(Digits(High(v, bits), bits, n - 1), Low(v, bits), bits);
      HighLow(v, bits);
    } else {
      assert 0 * bits == 0;
      NoBits();
    }
  }

  lemma NoBits()
    ensures Pow2(0) == 1
  {
  }

  lemma LastDigit(front: seq<nat>, x: nat, bits: nat)
    requires x < Pow2(bits)
    ensures Digits(Val(front + [x], bits), bits, |front| + 1) == Digits(Val(front, bits), bits, |front|) + [x]
  {
    hide High, Low, Pow2, Val;
    ValAppend(front, x, bits);
    HighLowUnique(Val(front + [x], bits), bits, Val(front, bits), x);
    assert Digits(Val(front + [x], bits), bits, |front| + 1)
        == Digits(High(Val(front + [x], bits), bits), bits, |front|) + [Low(Val(front + [x], bits), bits)];
  }

  /** Digits in range are the digits of their value. */
  lemma {:induction false} DigitsOfVal(d: seq<nat>, bits: nat)
    requires InRange(d, bits)
    ensures Digits(Val(d, bits), bits, |d|) == d
  {
    hide High, Low, Pow2, Val;
    if d != [] {
      var front, x := d[..|d| - 1], d[|d| - 1];
      DigitsOfVal(front, bits);
      LastDigit(front, x, bits);
      assert d == front + [x];
    }
  }

  lemma {:induction false} ValBelow(d: seq<nat>, bits: nat)
    requires InRange(d, bits)
    ensures Val(d, bits) < Pow2(|d| * bits)
  {
    hide Pow2;
    if d != [] {
      var front, x, p := d[..|d| - 1], d[|d| - 1], Pow2(bits);
      ValBelow(front, bits);
      OneMore(|front|, bits);
      MulMonotone(Val(front, bits) + 1, Pow2(|front| * bits), p);
      MulDistributes(p, Val(front, bits), 1);
    } else {
      assert 0 * bits == 0;
      NoBits();
    }
  }

  /** Equal lengths and equal values make equal digits. */
  lemma ValInjective(d: seq<nat>, e: seq<nat>, bits: nat)
    requires InRange(d, bits) && InRange(e, bits) && |d| == |e| && Val(d, bits) == Val(e, bits)
    ensures d == e
  {
    DigitsOfVal(d, bits);
    DigitsOfVal(e, bits);
  }
}
