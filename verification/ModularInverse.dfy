/** Modular inversion by the extended Euclidean algorithm (`Cr`), one number or a batch (`xt`). */
module ModularInverse {
  import opened Arithmetic
  import opened Outcomes

  ghost predicate Divides(d: int, x: int) {
    exists q :: x == Product(q, d)
  }

  function Product(q: int, d: int): int {
    q * d
  }

  ghost predicate CommonDivisor(d: int, x: int, y: int) {
    Divides(d, x) && Divides(d, y)
  }

  ghost predicate Coprime(x: int, y: int) {
    forall d | d > 1 :: !CommonDivisor(d, x, y)
  }

  /** `x` times `a` leaves 1 modulo `m`. */
  ghost predicate IsInverse(x: int, a: int, m: int) {
    Divides(m, x * a - 1)
  }

  lemma DividesMultiple(d: int, x: int, q: int)
    requires Divides(d, x)
    ensures Divides(d, q * x)
  {
    var k :| x == Product(k, d);
    MulAssociates(q, k, d);
    assert q * x == Product(q * k, d);
  }

  lemma DividesSum(d: int, x: int, y: int)
    requires Divides(d, x) && Divides(d, y)
    ensures Divides(d, x + y) && Divides(d, x - y)
  {
    var k :| x == Product(k, d);
    var l :| y == Product(l, d);
    MulDistributes(d, k, l);
    MulDistributes(d, k, -l);
    assert x + y == Product(k + l, d);
    assert x - y == Product(k - l, d);
  }

  lemma DividesItself(d: int)
    ensures Divides(d, d) && Divides(d, 0)
  {
    assert d == Product(1, d) && 0 == Product(0, d);
  }

  lemma OneIsNotDivided(d: int)
    requires d > 1
    ensures !Divides(d, 1)
  {
    if Divides(d, 1) {
      var q :| 1 == Product(q, d);
      if q >= 1 {
        MulMonotone(1, q, d);
      } else {
        MulMonotone(q, 0, d);
      }
    }
  }

  /** Remainder of the source's `ge`: always in 0 .. m-1. */
  lemma ReduceCongruent(x: int, m: int)
    requires m > 0
    ensures 0 <= x % m < m && Divides(m, x - x % m)
  {
    DivMod(x, m);
    assert x - x % m == Product(x / m, m);
  }

  /** A division step of Euclid's algorithm keeps the common divisors. */
  lemma StepKeepsDivisors(d: int, x: int, y: int, q: int)
    ensures CommonDivisor(d, x, y) <==> CommonDivisor(d, y - q * x, x)
  {
    if CommonDivisor(d, x, y) {
      DividesMultiple(d, x, q);
      DividesSum(d, y, q * x);
    }
    if CommonDivisor(d, y - q * x, x) {
      DividesMultiple(d, x, q);
      DividesSum(d, y - q * x, q * x);
    }
  }

  lemma StepKeepsCoefficient(m: int, a: int, x: int, cx: int, y: int, cy: int, q: int)
    requires Divides(m, x - cx * a) && Divides(m, y - cy * a)
    ensures Divides(m, (y - q * x) - (cy - q * cx) * a)
  {
    DividesMultiple(m, x - cx * a, q);
    DividesSum(m, y - cy * a, q * (x - cx * a));
    MulDistributes(q, x, -(cx * a));
    MulAssociates(q, cx, a);
    MulDistributes(a, cy, -(q * cx));
  }

  lemma InverseImpliesCoprime(x: int, a: int, m: int)
    requires IsInverse(x, a, m)
    ensures Coprime(a, m)
  {
    forall d | d > 1 ensures !CommonDivisor(d, a, m) {
      if CommonDivisor(d, a, m) {
        var q :| x * a - 1 == Product(q, m);
        DividesMultiple(d, a, x);
        DividesMultiple(d, m, q);
        DividesSum(d, x * a, q * m);
        OneIsNotDivided(d);
      }
    }
  }

  /** Inverses modulo m are unique. */
  lemma InverseUnique(x: int, y: int, a: int, m: int)
    requires m > 0 && 0 <= x < m && 0 <= y < m
    requires IsInverse(x, a, m) && IsInverse(y, a, m)
    ensures x == y
  {
    // y*(x*a - 1) - x*(y*a - 1) == x - y
    DividesMultiple(m, x * a - 1, y);
    DividesMultiple(m, y * a - 1, x);
    DividesSum(m, y * (x * a - 1), x * (y * a - 1));
    assert y * (x * a - 1) - x * (y * a - 1) == x - y by {
      MulDistributes(y, x * a, -1);
      MulDistributes(x, y * a, -1);
      MulAssociates(y, x, a);
      MulAssociates(x, y, a);
    }
    var q :| x - y == Product(q, m);
    if q >= 1 {
      MulMonotone(1, q, m);
    } else if q <= -1 {
      MulMonotone(q, -1, m);
    }
  }

  /** `Cr`: throws for zero, for a modulus below 1, and exactly when there is no inverse. */
  method Invert(t: int, m: int) returns (res: Result<int>)
    ensures res.Ok? <==> t != 0 && m > 0 && Coprime(t, m)
    ensures res.Ok? ==> 0 <= res.value < m && IsInverse(res.value, t, m)
  {
    if t == 0 || m <= 0 {
      return Thrown;
    }
    var n, r := t % m, m;
    var o, s := 0, 1;
    ReduceCongruent(t, m);
    DividesItself(m);
    StartDivisors(t, m);
    assert Divides(m, n - s * t) by {
      DividesMultiple(m, t - n, -1);
    }
    while n != 0
      invariant 0 <= n && 0 < r
      invariant Divides(m, n - s * t) && Divides(m, r - o * t)
      invariant forall d :: CommonDivisor(d, n, r) <==> CommonDivisor(d, t, m)
      decreases n
    {
      var f, u := r / n, r % n;
      DivMod(r, n);
      assert u == r - f * n;
      StepKeepsCoefficient(m, t, n, s, r, o, f);
      forall d ensures CommonDivisor(d, u, n) <==> CommonDivisor(d, t, m) {
        StepKeepsDivisors(d, n, r, f);
        assert CommonDivisor(d, n, r) <==> CommonDivisor(d, t, m);
      }
      r, n, o, s := n, u, s, o - s * f;
    }
    DividesItself(r);
    if r != 1 {
      assert CommonDivisor(r, n, r);
      return Thrown;
    }
    InverseFromCoefficient(o, t, m);
    InverseImpliesCoprime(o % m, t, m);
    res := Ok(o % m);
  }

  lemma StartDivisors(t: int, m: int)
    requires m > 0
    ensures forall d :: CommonDivisor(d, t % m, m) <==> CommonDivisor(d, t, m)
  {
    DivMod(t, m);
    forall d ensures CommonDivisor(d, t % m, m) <==> CommonDivisor(d, t, m) {
      StepKeepsDivisors(d, m, t, t / m);
      assert t - (t / m) * m == t % m;
    }
  }

  lemma InverseFromCoefficient(o: int, t: int, m: int)
    requires m > 0 && Divides(m, 1 - o * t)
    ensures 0 <= o % m < m && IsInverse(o % m, t, m)
  {
    hide Divides;
    ReduceCongruent(o, m);
    DividesMultiple(m, o - o % m, t);
    DividesSum(m, 1 - o * t, t * (o - o % m));
    MulDistributes(t, o, -(o % m));
    DividesMultiple(m, 1 - o * t + t * (o - o % m), -1);
  }

  // ---------------------------------------------------------------- batch inversion

  /** The product, modulo m, of the non-zero numbers. */
  function NonZeroProduct(xs: seq<int>, m: int): int
    requires m > 0
  {
    if xs == [] then 1
    else
      var before := NonZeroProduct(xs[..|xs| - 1], m);
      if xs[|xs| - 1] == 0 then before else (before * xs[|xs| - 1]) % m
  }

  lemma CongruentInverse(x: int, a: int, b: int, m: int)
    requires Divides(m, a - b)
    ensures IsInverse(x, a, m) <==> IsInverse(x, b, m)
  {
    DividesMultiple(m, a - b, x);
    MulDistributes(x, a, -b);
    if IsInverse(x, a, m) {
      DividesSum(m, x * a - 1, x * (a - b));
    }
    if IsInverse(x, b, m) {
      DividesSum(m, x * b - 1, x * (a - b));
    }
  }

  /** If the product of two numbers has an inverse, each factor has the one the batch computes. */
  lemma FactorInverses(x: int, a: int, b: int, m: int)
    requires IsInverse(x, a * b, m)
    ensures IsInverse(x * a, b, m) && IsInverse(x * b, a, m)
  {
    MulAssociates(x, a, b);
    MulAssociates(x, b, a);
    assert a * b == b * a;
  }

  lemma ReducedInverse(x: int, a: int, m: int)
    requires m > 0
    ensures IsInverse(x, a, m) <==> IsInverse(x % m, a, m)
  {
    ReduceCongruent(x, m);
    CongruentInverse(a, x, x % m, m);
    assert a * x == x * a && a * (x % m) == (x % m) * a;
  }

  /** Inverses of two numbers multiply to one of their product. */
  lemma ProductOfInverses(x: int, a: int, y: int, b: int, m: int)
    requires IsInverse(x, a, m) && IsInverse(y, b, m)
    ensures IsInverse(x * y, a * b, m)
  {
    DividesMultiple(m, x * a - 1, y * b);
    DividesSum(m, (y * b) * (x * a - 1), y * b - 1);
    MulDistributes(y * b, x * a, -1);
    assert (y * b) * (x * a) == (x * y) * (a * b) by {
      MulAssociates(y, b, x * a);
      MulAssociates(b, x, a);
      MulAssociates(x, y, a * b);
      assert b * (x * a) == x * (a * b);
    }
  }

  ghost predicate HasInverse(a: int, m: int) {
    exists x :: IsInverse(x, a, m)
  }

  /** The product has an inverse exactly when all its non-zero factors have one. */
  lemma {:induction false} ProductInvertible(xs: seq<int>, m: int)
    requires m > 0
    ensures HasInverse(NonZeroProduct(xs, m), m) <==> forall i | 0 <= i < |xs| && xs[i] != 0 :: HasInverse(xs[i], m)
  {
    if xs == [] {
      DividesItself(m);
      assert IsInverse(1, 1, m);
    } else {
      var init, last := xs[..|xs| - 1], xs[|xs| - 1];
      ProductInvertible(init, m);
      var before := NonZeroProduct(init, m);
      assert forall i | 0 <= i < |init| :: xs[i] == init[i];
      if last != 0 {
        StepInvertible(before, last, m);
      }
    }
  }

  lemma StepInvertible(a: int, b: int, m: int)
    requires m > 0
    ensures HasInverse((a * b) % m, m) <==> HasInverse(a, m) && HasInverse(b, m)
  {
    ReduceCongruent(a * b, m);
    if HasInverse((a * b) % m, m) {
      var x :| IsInverse(x, (a * b) % m, m);
      CongruentInverse(x, a * b, (a * b) % m, m);
      FactorInverses(x, a, b, m);
    }
    if HasInverse(a, m) && HasInverse(b, m) {
      var x :| IsInverse(x, a, m);
      var y :| IsInverse(y, b, m);
      ProductOfInverses(x, a, y, b, m);
      CongruentInverse(x * y, a * b, (a * b) % m, m);
    }
  }

  /** Coefficients that make a common divisor of two numbers, not both zero. */
  lemma {:induction false} Bezout(n: int, r: int) returns (d: int, x: int, y: int)
    requires 0 <= n && 0 < r
    ensures d > 0 && d == x * n + y * r && CommonDivisor(d, n, r)
    decreases n
  {
    if n == 0 {
      d, x, y := r, 0, 1;
      DividesItself(r);
    } else {
      DivMod(r, n);
      var f := r / n;
      var y': int;
      d, x, y' := Bezout(r % n, n);
      assert r % n == r - f * n;
      StepKeepsDivisors(d, n, r, f);
      MulDistributes(x, r, -(f * n));
      MulAssociates(x, f, n);
      MulDistributes(n, y', -(x * f));
      x, y := y' - x * f, x;
    }
  }

  lemma InverseFromBezout(x: int, a: int, y: int, m: int)
    requires 1 == x * a + y * m
    ensures IsInverse(x, a, m)
  {
    assert x * a - 1 == Product(-y, m);
  }

  /** A number coprime to the modulus has an inverse: with `InverseImpliesCoprime`, exactly those have. */
  lemma CoprimeImpliesInverse(t: int, m: int)
    requires m > 0 && Coprime(t, m)
    ensures HasInverse(t, m)
  {
    hide Divides;
    ReduceCongruent(t, m);
    var d, x, y := Bezout(t % m, m);
    StartDivisors(t, m);
    assert d == 1;
    InverseFromBezout(x, t % m, y, m);
    CongruentInverse(x, t, t % m, m);
  }

  ghost predicate Prime(m: int) {
    m > 1 && forall d | 1 < d < m :: !Divides(d, m)
  }

  lemma DivisorBound(d: int, x: int)
    requires d > 1 && x > 0 && Divides(d, x)
    ensures d <= x
  {
    var q :| x == Product(q, d);
    if q >= 1 {
      MulMonotone(1, q, d);
    } else {
      MulMonotone(q, 0, d);
    }
  }

  /** In a prime field every non-zero element has an inverse. */
  lemma FieldElementHasInverse(a: int, m: int)
    requires Prime(m) && 0 < a < m
    ensures HasInverse(a, m)
  {
    forall d | d > 1 ensures !CommonDivisor(d, a, m) {
      if CommonDivisor(d, a, m) {
        DivisorBound(d, a);
      }
    }
    CoprimeImpliesInverse(a, m);
  }

  /** What the batch must hold for one element of the input. */
  ghost predicate BatchEntry(x: int, r: Option<int>, m: int, passZero: bool) {
    if x == 0 then r == (if passZero then Some(0) else None)
    else r.Some? && 0 <= r.value < m && IsInverse(r.value, x, m)
  }

  /**
   `xt`: two passes and a single inversion. It throws exactly when some non-zero element has no
   inverse; otherwise each non-zero element gets its own inverse and zero elements are left alone.
   */
  method InvertBatch(xs: seq<int>, m: int, passZero: bool) returns (res: Result<seq<Option<int>>>)
    requires m > 0 && forall i | 0 <= i < |xs| :: 0 <= xs[i] < m
    ensures res.Ok? <==> forall i | 0 <= i < |xs| && xs[i] != 0 :: HasInverse(xs[i], m)
    ensures res.Ok? ==> |res.value| == |xs| && forall i | 0 <= i < |xs| :: BatchEntry(xs[i], res.value[i], m, passZero)
  {
    var r, product := PrefixProducts(xs, m, if passZero then Some(0) else None);
    ProductInvertible(xs, m);
    var inverse := Invert(product, m);
    if inverse.Thrown? {
      if HasInverse(product, m) {
        var x :| IsInverse(x, product, m);
        InverseImpliesCoprime(x, product, m);
        ZeroHasNoInverse(x, m);
      }
      return Thrown;
    }
    assert HasInverse(product, m);
    var rest, a := inverse.value, |xs|;
    assert xs[..a] == xs;
    while a > 0
      invariant 0 <= a <= |xs| == |r|
      invariant IsInverse(rest, NonZeroProduct(xs[..a], m), m)
      invariant forall i | 0 <= i < a :: r[i] == PrefixEntry(xs, i, m, if passZero then Some(0) else None)
      invariant forall i | a <= i < |xs| :: BatchEntry(xs[i], r[i], m, passZero)
    {
      a := a - 1;
      assert xs[..a + 1][..a] == xs[..a];
      if xs[a] != 0 {
        var before := r[a].value;
        BackwardStep(rest, before, xs[a], m);
        r := r[a := Some((rest * before) % m)];
        rest := (rest * xs[a]) % m;
      }
    }
    res := Ok(r);
  }

  /** What the first pass of the batch leaves for one element. */
  function PrefixEntry(xs: seq<int>, i: nat, m: int, zero: Option<int>): Option<int>
    requires m > 0 && i < |xs|
  {
    if xs[i] != 0 then Some(NonZeroProduct(xs[..i], m)) else zero
  }

  /** The first pass: for each non-zero element the product of those before it. */
  method PrefixProducts(xs: seq<int>, m: int, zero: Option<int>) returns (r: seq<Option<int>>, product: int)
    requires m > 0 && forall i | 0 <= i < |xs| :: 0 <= xs[i] < m
    ensures product == NonZeroProduct(xs, m)
    ensures product == 0 ==> m > 1
    ensures |r| == |xs| && forall i | 0 <= i < |xs| :: r[i] == PrefixEntry(xs, i, m, zero)
  {
    r, product := seq(|xs|, _ => zero), 1;
    var a := 0;
    while a < |xs|
      invariant 0 <= a <= |xs| == |r|
      invariant product == NonZeroProduct(xs[..a], m)
      invariant product == 0 ==> m > 1
      invariant forall i | 0 <= i < a :: r[i] == PrefixEntry(xs, i, m, zero)
      invariant forall i | a <= i < |xs| :: r[i] == zero
    {
      assert xs[..a + 1][..a] == xs[..a];
      if xs[a] != 0 {
        r := r[a := Some(product)];
        product := (product * xs[a]) % m;
      }
      a := a + 1;
    }
    assert xs[..a] == xs;
  }

  lemma ZeroHasNoInverse(x: int, m: int)
    requires m > 1
    ensures !IsInverse(x, 0, m)
  {
    if IsInverse(x, 0, m) {
      DividesMultiple(m, -1, -1);
      OneIsNotDivided(m);
    }
  }

  lemma BackwardStep(rest: int, before: int, x: int, m: int)
    requires m > 0 && IsInverse(rest, (before * x) % m, m)
    ensures 0 <= (rest * before) % m < m && IsInverse((rest * before) % m, x, m)
    ensures IsInverse((rest * x) % m, before, m)
  {
    ReduceCongruent(before * x, m);
    CongruentInverse(rest, before * x, (before * x) % m, m);
    FactorInverses(rest, before, x, m);
    ReducedInverse(rest * before, x, m);
    ReducedInverse(rest * x, before, m);
  }

  /** Over a prime field the batch never throws. */
  lemma FieldBatchNeverThrows(xs: seq<int>, m: int)
    requires Prime(m) && forall i | 0 <= i < |xs| :: 0 <= xs[i] < m
    ensures forall i | 0 <= i < |xs| && xs[i] != 0 :: HasInverse(xs[i], m)
  {
    forall i | 0 <= i < |xs| && xs[i] != 0 ensures HasInverse(xs[i], m) {
      FieldElementHasInverse(xs[i], m);
    }
  }
}
