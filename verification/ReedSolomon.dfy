/** The QR code's error correction: polynomial arithmetic on bytes (`ss`) and the encoder (`as`). */
module ReedSolomon {
  import opened Outcomes
  import opened GaloisField
  import opened Polynomials

  /** The field of 256 elements as a ring. */
  ghost function Field(): Ring<bv8> {
    Ring(0, 1, (a, b) => Plus(a, b), (a, b) => Mul(a, b))
  }

  lemma PlusLaws(x: bv8, y: bv8, z: bv8)
    ensures Plus(x, y) == Plus(y, x)
    ensures Plus(Plus(x, y), z) == Plus(x, Plus(y, z))
    ensures Plus(x, 0) == x && Plus(x, x) == 0
  {
  }

  lemma FieldIsRing()
    ensures IsRing(Field())
  {
    hide Plus, Mul;
    var R := Field();
    forall x, y ensures PlusCommutes(R, x, y) && TimesCommutes(R, x, y) {
      PlusLaws(x, y, x);
      MulCommutes(x, y);
    }
    forall x, y, z ensures PlusAssociates(R, x, y, z) && TimesAssociates(R, x, y, z) && Distributes(R, x, y, z) {
      PlusLaws(x, y, z);
      MulAssociates(x, y, z);
      MulDistributes(x, y, z);
    }
    forall x ensures PlusUnits(R, x) && TimesUnit(R, x) {
      PlusLaws(x, x, x);
      MulOne(x);
    }
  }

  /** What the source's `exp` reads: beyond the table a byte array stores 0. */
  function Exponential(r: nat): bv8 {
    if r < 512 then Power(r) else 0
  }

  /** The product of the factors x + 2^r for r below the degree. */
  ghost function Generator(degree: nat): (g: seq<bv8>)
    ensures |g| == degree + 1
  {
    if degree == 0 then [1]
    else Product(Field(), Generator(degree - 1), [1, Exponential(degree - 1)])
  }

  /** `mul`: the product of two polynomials, accumulated row by row. */
  method Multiply(t: Tables, e: seq<bv8>, n: seq<bv8>) returns (r: seq<bv8>)
    requires ValidTables(t) && |n| > 0
    ensures r == Product(Field(), e, n)
  {
    hide Plus, Mul, Xtime;
    ghost var R := Field();
    var size := |e| + |n| - 1;
    var a := new bv8[size](_ => 0);
    var o := 0;
    while o < |e|
      invariant 0 <= o <= |e|
      invariant forall k | 0 <= k < size :: a[k] == Coeff(R, e, n, k, o)
    {
      var s := 0;
      while s < |n|
        invariant 0 <= s <= |n|
        invariant forall k | 0 <= k < size ::
                    a[k] == if o <= k < o + s then Coeff(R, e, n, k, o + 1) else Coeff(R, e, n, k, o)
      {
        var x := TableMul(t, e[o], n[s]);
        assert Term(R, e, n, o, o + s) == x;
        a[o + s] := Plus(a[o + s], x);
        s := s + 1;
      }
      forall k | 0 <= k < size && !(o <= k < o + |n|) ensures Coeff(R, e, n, k, o + 1) == Coeff(R, e, n, k, o) {
        assert Term(R, e, n, o, k) == 0;
        PlusLaws(Coeff(R, e, n, k, o), 0, 0);
      }
      o := o + 1;
    }
    r := a[..];
    assert r == Product(R, e, n);
  }

  /** The bytes with zeros in front, up to a length. */
  ghost function PadLeft(r: seq<bv8>, length: nat): seq<bv8> {
    Zeros(Field(), if |r| < length then length - |r| else 0) + r
  }

  /** Stripping a leading zero does not change the padded remainder. */
  lemma StripOne(r: seq<bv8>, n: seq<bv8>)
    requires |n| > 0 && |r| > 0 && r[0] == 0
    ensures PadLeft(Remainder(Field(), r, n), |n| - 1) == PadLeft(Remainder(Field(), r[1..], n), |n| - 1)
  {
    hide Plus, Mul, Xtime, IsRing, PadLeft;
    var R := Field();
    FieldIsRing();
    if |r| >= |n| {
      RemainderSkipsZero(R, r, n);
    } else {
      PadMoves(r, |n| - 1);
    }
  }

  lemma PadFull(r: seq<bv8>, length: nat)
    requires |r| >= length
    ensures PadLeft(r, length) == r
  {
    assert Zeros(Field(), 0) == [];
  }

  lemma PadMoves(r: seq<bv8>, length: nat)
    requires 0 < |r| <= length && r[0] == 0
    ensures PadLeft(r, length) == PadLeft(r[1..], length)
  {
    var R := Field();
    var before, after := PadLeft(r, length), PadLeft(r[1..], length);
    forall i | 0 <= i < length ensures before[i] == after[i] {
    }
  }

  /** The inner loop of `mod`: cancels the leading coefficient. */
  method Cancel(t: Tables, r: seq<bv8>, n: seq<bv8>) returns (reduced: seq<bv8>)
    requires ValidTables(t) && 0 < |n| <= |r|
    ensures reduced == Reduced(Field(), r, n)
  {
    hide Plus, Mul, Xtime;
    var a := new bv8[|r|](i requires 0 <= i < |r| => r[i]);
    var o, i := r[0], 0;
    while i < |n|
      invariant 0 <= i <= |n|
      invariant forall k | 0 <= k < |r| :: a[k] == if k < i then Plus(r[k], Mul(n[k], o)) else r[k]
    {
      var x := TableMul(t, n[i], o);
      a[i] := Plus(a[i], x);
      i := i + 1;
    }
    reduced := a[..];
  }

  /**
   `mod`: cancels leading coefficients and strips leading zeros until the rest is shorter than the
   divisor. Behind the stripped zeros it is the remainder of long division.
   */
  method Modulo(t: Tables, e: seq<bv8>, n: seq<bv8>) returns (r: seq<bv8>)
    requires ValidTables(t) && |n| > 0 && n[0] == 1
    ensures |r| < |n|
    ensures |e| < |n| ==> r == e
    ensures |e| >= |n| ==> Remainder(Field(), e, n) == PadLeft(r, |n| - 1)
  {
    hide Plus, Mul, Xtime, IsRing, PadLeft;
    ghost var R := Field();
    FieldIsRing();
    r := e;
    if |e| >= |n| {
      RemainderLength(R, e, n);
      PadFull(Remainder(R, e, n), |n| - 1);
    }
    while |r| - |n| >= 0
      invariant |e| < |n| ==> r == e
      invariant |e| >= |n| ==> Remainder(R, e, n) == PadLeft(Remainder(R, r, n), |n| - 1)
      decreases |r|
    {
      ReducedLeads(R, r, n);
      ghost var before := r;
      r := Cancel(t, r, n);
      ghost var cancelled := r;
      RemainderOfCancelled(before, n);
      var s := 0;
      while s < |r| && r[s] == 0
        invariant 0 <= s <= |r|
        invariant PadLeft(Remainder(R, r[s..], n), |n| - 1) == PadLeft(Remainder(R, r, n), |n| - 1)
      {
        StripOne(r[s..], n);
        assert r[s..][1..] == r[s + 1..];
        s := s + 1;
      }
      assert s > 0;
      r := r[s..];
    }
  }

  lemma RemainderOfCancelled(r: seq<bv8>, n: seq<bv8>)
    requires 0 < |n| <= |r| && n[0] == 1
    ensures Remainder(Field(), Reduced(Field(), r, n), n) == Remainder(Field(), r, n)
  {
    hide Plus, Mul, Xtime;
    FieldIsRing();
    var t := Reduced(Field(), r, n);
    ReducedLeads(Field(), r, n);
    RemainderSkipsZero(Field(), t, n);
  }

  lemma {:induction false} GeneratorMonic(degree: nat)
    ensures Generator(degree)[0] == 1
  {
    hide Plus, Mul, Xtime;
    if degree == 0 {
    } else {
      GeneratorMonic(degree - 1);
      var R, g, factor := Field(), Generator(degree - 1), [1, Exponential(degree - 1)];
      FieldIsRing();
      assert g == [g[0]] + g[1..];
      CoeffCons(R, g[0], g[1..], factor, 0, |g| - 1);
      CoeffNegative(R, g[1..], factor, -1, |g| - 1);
      assert PlusUnits(R, 1 as bv8) && TimesUnit(R, 1 as bv8);
    }
  }

  /** `generateECPolynomial`. */
  method GenerateECPolynomial(t: Tables, degree: nat) returns (g: seq<bv8>)
    requires ValidTables(t)
    ensures g == Generator(degree)
  {
    g := [1];
    var r := 0;
    while r < degree
      invariant 0 <= r <= degree
      invariant g == Generator(r)
    {
      var root := if r < 512 then t.exp[r] else 0;
      g := Multiply(t, g, [1, root]);
      r := r + 1;
    }
  }

  /** `initialize` and `encode`: throws for degree 0, else returns the error correction bytes. */
  method Encode(t: Tables, degree: nat, data: seq<bv8>) returns (res: Result<seq<bv8>>)
    requires ValidTables(t)
    ensures res.Ok? <==> degree > 0
    ensures res.Ok? ==> |res.value| == degree && IsMultiple(Field(), data + res.value, Generator(degree))
  {
    hide Plus, Mul, Xtime, IsRing, IsMultiple, Generator, PadLeft;
    if degree == 0 {
      return Thrown;
    }
    ghost var R := Field();
    FieldIsRing();
    GeneratorMonic(degree);
    var g := GenerateECPolynomial(t, degree);
    var n := data + seq(degree, _ => 0);
    assert n == data + Zeros(R, degree);
    RemainderCompletes(R, data, g);
    var r := Modulo(t, n, g);
    ghost var stripped := r;
    var start := degree - |r|;
    if start > 0 {
      r := seq(start, _ => 0) + r;
    }
    PadByHand(stripped, r, degree);
    assert r == Remainder(R, n, g);
    res := Ok(r);
  }

  lemma PadByHand(r: seq<bv8>, padded: seq<bv8>, length: nat)
    requires |r| <= length
    requires padded == if |r| < length then seq(length - |r|, _ => 0) + r else r
    ensures PadLeft(r, length) == padded
  {
    PadFull(r, |r|);
    assert |r| < length ==> Zeros(Field(), length - |r|) == seq(length - |r|, _ => 0 as bv8);
  }

  // ---------------------------------------------------------------- what a decoder relies on

  lemma {:induction false} GeneratorRoots(degree: nat, i: nat)
    requires i < degree && i < 512
    ensures Eval(Field(), Generator(degree), Power(i)) == 0
  {
    hide Plus, Mul, Xtime, Power;
    var R := Field();
    FieldIsRing();
    var g, factor, x := Generator(degree - 1), [1, Exponential(degree - 1)], Power(i);
    EvalProduct(R, g, factor, x);
    if i == degree - 1 {
      EvalConcat(R, [1], [x], x);
      assert [1] + [x] == factor;
      EvalSingle(R, 1, x);
      EvalSingle(R, x, x);
      assert Raised(R, x, 1) == R.times(R.one, x);
      assert TimesUnit(R, x) && PlusUnits(R, x);
      TimesZero(R, Eval(R, g, x));
    } else {
      GeneratorRoots(degree - 1, i);
      TimesZero(R, Eval(R, factor, x));
    }
  }

  /** Every syndrome of a codeword is zero. */
  lemma SyndromesVanish(degree: nat, w: seq<bv8>, i: nat)
    requires IsMultiple(Field(), w, Generator(degree))
    requires i < degree && i < 512
    ensures Eval(Field(), w, Power(i)) == 0
  {
    hide Plus, Mul, Xtime, Power;
    var R := Field();
    FieldIsRing();
    var q :| w == Product(R, q, Generator(degree));
    GeneratorRoots(degree, i);
    EvalProduct(R, q, Generator(degree), Power(i));
    TimesZero(R, Eval(R, q, Power(i)));
  }

  /** No other bytes of the same length complete the data to a codeword. */
  lemma CorrectionBytesUnique(degree: nat, data: seq<bv8>, ec: seq<bv8>, other: seq<bv8>)
    requires |ec| == degree && IsMultiple(Field(), data + ec, Generator(degree))
    requires |other| == degree && IsMultiple(Field(), data + other, Generator(degree))
    ensures ec == other
  {
    hide Plus, Mul, Xtime;
    FieldIsRing();
    GeneratorMonic(degree);
    CompletionUnique(Field(), data, ec, other, Generator(degree));
  }
}
