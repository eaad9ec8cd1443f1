/**
 Polynomials over a commutative ring in which every element is its own negative, as sequences of
 coefficients with the highest degree first.
 */
module Polynomials {

  datatype Ring<!F> = Ring(zero: F, one: F, plus: (F, F) -> F, times: (F, F) -> F)

  ghost predicate PlusCommutes<F>(R: Ring<F>, x: F, y: F) {
    R.plus(x, y) == R.plus(y, x)
  }

  ghost predicate PlusAssociates<F>(R: Ring<F>, x: F, y: F, z: F) {
    R.plus(R.plus(x, y), z) == R.plus(x, R.plus(y, z))
  }

  ghost predicate PlusUnits<F>(R: Ring<F>, x: F) {
    R.plus(x, R.zero) == x && R.plus(x, x) == R.zero
  }

  ghost predicate TimesCommutes<F>(R: Ring<F>, x: F, y: F) {
    R.times(x, y) == R.times(y, x)
  }

  ghost predicate TimesAssociates<F>(R: Ring<F>, x: F, y: F, z: F) {
    R.times(R.times(x, y), z) == R.times(x, R.times(y, z))
  }

  ghost predicate TimesUnit<F>(R: Ring<F>, x: F) {
    R.times(R.one, x) == x
  }

  ghost predicate Distributes<F>(R: Ring<F>, x: F, y: F, z: F) {
    R.times(x, R.plus(y, z)) == R.plus(R.times(x, y), R.times(x, z))
  }

  ghost predicate IsRing<F(!new)>(R: Ring<F>) {
    && (forall x, y :: PlusCommutes(R, x, y) && TimesCommutes(R, x, y))
    && (forall x, y, z :: PlusAssociates(R, x, y, z) && TimesAssociates(R, x, y, z) && Distributes(R, x, y, z))
    && (forall x :: PlusUnits(R, x) && TimesUnit(R, x))
  }

  lemma TimesZero<F(!new)>(R: Ring<F>, x: F)
    requires IsRing(R)
    ensures R.times(x, R.zero) == R.zero && R.times(R.zero, x) == R.zero
  {
    assert Distributes(R, x, R.zero, R.zero) && PlusUnits(R, R.zero);
    assert PlusUnits(R, R.times(x, R.zero)) && TimesCommutes(R, x, R.zero);
  }

  lemma ZeroPlus<F(!new)>(R: Ring<F>, x: F)
    requires IsRing(R)
    ensures R.plus(R.zero, x) == x
  {
    assert PlusUnits(R, x) && PlusCommutes(R, R.zero, x);
  }

  /** Adding the same element twice changes nothing. */
  lemma PlusTwice<F(!new)>(R: Ring<F>, x: F, y: F)
    requires IsRing(R)
    ensures R.plus(R.plus(x, y), y) == x
  {
    assert PlusAssociates(R, x, y, y) && PlusUnits(R, y) && PlusUnits(R, x);
  }

  lemma PlusSwaps<F(!new)>(R: Ring<F>, a: F, b: F, c: F, d: F)
    requires IsRing(R)
    ensures R.plus(R.plus(a, b), R.plus(c, d)) == R.plus(R.plus(a, c), R.plus(b, d))
  {
    assert PlusAssociates(R, a, b, R.plus(c, d)) && PlusAssociates(R, b, c, d) && PlusCommutes(R, b, c);
    assert PlusAssociates(R, c, b, d) && PlusAssociates(R, a, c, R.plus(b, d));
  }

  lemma DistributesRight<F(!new)>(R: Ring<F>, x: F, y: F, z: F)
    requires IsRing(R)
    ensures R.times(R.plus(y, z), x) == R.plus(R.times(y, x), R.times(z, x))
  {
    assert Distributes(R, x, y, z) && TimesCommutes(R, x, y) && TimesCommutes(R, x, z) && TimesCommutes(R, x, R.plus(y, z));
  }

  // ---------------------------------------------------------------- products

  /** What coefficient i of the first factor adds to coefficient k of the product. */
  function Term<F>(R: Ring<F>, p: seq<F>, q: seq<F>, i: nat, k: int): F
    requires i < |p|
  {
    if 0 <= k - i < |q| then R.times(p[i], q[k - i]) else R.zero
  }

  /** The sum of the first n terms of coefficient k. */
  function Coeff<F>(R: Ring<F>, p: seq<F>, q: seq<F>, k: int, n: nat): F
    requires n <= |p|
  {
    if n == 0 then R.zero else R.plus(Coeff(R, p, q, k, n - 1), Term(R, p, q, n - 1, k))
  }

  function Product<F>(R: Ring<F>, p: seq<F>, q: seq<F>): (r: seq<F>)
    requires |q| > 0
    ensures |r| == |p| + |q| - 1
  {
    seq(|p| + |q| - 1, k requires 0 <= k < |p| + |q| - 1 => Coeff(R, p, q, k, |p|))
  }

  function Zeros<F>(R: Ring<F>, n: nat): (z: seq<F>)
    ensures |z| == n
  {
    seq(n, _ => R.zero)
  }

  function Sum<F>(R: Ring<F>, a: seq<F>, b: seq<F>): (r: seq<F>)
    requires |a| == |b|
    ensures |r| == |a|
  {
    seq(|a|, i requires 0 <= i < |a| => R.plus(a[i], b[i]))
  }

  function Scaled<F>(R: Ring<F>, c: F, q: seq<F>): (r: seq<F>)
    ensures |r| == |q|
  {
    seq(|q|, i requires 0 <= i < |q| => R.times(c, q[i]))
  }

  lemma {:induction false} CoeffCons<F(!new)>(R: Ring<F>, c: F, p: seq<F>, q: seq<F>, k: int, n: nat)
    requires IsRing(R) && n <= |p|
    ensures Coeff(R, [c] + p, q, k, n + 1)
            == R.plus(if 0 <= k < |q| then R.times(c, q[k]) else R.zero, Coeff(R, p, q, k - 1, n))
  {
    var whole := [c] + p;
    var first := if 0 <= k < |q| then R.times(c, q[k]) else R.zero;
    if n == 0 {
      assert Coeff(R, whole, q, k, 1) == R.plus(Coeff(R, whole, q, k, 0), Term(R, whole, q, 0, k));
      assert PlusCommutes(R, R.zero, first);
    } else {
      CoeffCons(R, c, p, q, k, n - 1);
      assert Term(R, whole, q, n, k) == Term(R, p, q, n - 1, k - 1);
      assert PlusAssociates(R, first, Coeff(R, p, q, k - 1, n - 1), Term(R, p, q, n - 1, k - 1));
    }
  }

  lemma {:induction false} CoeffNegative<F(!new)>(R: Ring<F>, p: seq<F>, q: seq<F>, k: int, n: nat)
    requires IsRing(R) && n <= |p| && (k < 0 || k >= n + |q|)
    ensures Coeff(R, p, q, k, n) == R.zero
  {
    if n == 0 {
    } else {
      CoeffNegative(R, p, q, k, n - 1);
      assert PlusUnits(R, R.zero);
    }
  }

  /** Multiplying by one more leading coefficient. */
  lemma ProductCons<F(!new)>(R: Ring<F>, c: F, p: seq<F>, q: seq<F>)
    requires IsRing(R) && |q| > 0
    ensures Product(R, [c] + p, q)
            == Sum(R, Scaled(R, c, q) + Zeros(R, |p|), [R.zero] + Product(R, p, q))
  {
    var whole := Product(R, [c] + p, q);
    var sum := Sum(R, Scaled(R, c, q) + Zeros(R, |p|), [R.zero] + Product(R, p, q));
    forall k | 0 <= k < |whole| ensures whole[k] == sum[k] {
      CoeffCons(R, c, p, q, k, |p|);
      if k == 0 {
        CoeffNegative(R, p, q, -1, |p|);
      }
    }
  }

  lemma {:induction false} ProductEmpty<F(!new)>(R: Ring<F>, q: seq<F>)
    requires |q| > 0
    ensures Product(R, [], q) == Zeros(R, |q| - 1)
  {
  }

  // ---------------------------------------------------------------- division

  /** The divisor times the leading coefficient taken off the front. */
  function Reduced<F>(R: Ring<F>, r: seq<F>, g: seq<F>): (t: seq<F>)
    requires 0 < |g| <= |r|
    ensures |t| == |r|
  {
    seq(|r|, i requires 0 <= i < |r| => if i < |g| then R.plus(r[i], R.times(g[i], r[0])) else r[i])
  }

  /** Long division by a monic polynomial, one leading coefficient at a time. */
  function Remainder<F>(R: Ring<F>, r: seq<F>, g: seq<F>): seq<F>
    requires |g| > 0
    decreases |r|
  {
    if |r| < |g| then r else Remainder(R, Reduced(R, r, g)[1..], g)
  }

  lemma {:induction false} RemainderLength<F>(R: Ring<F>, r: seq<F>, g: seq<F>)
    requires |g| > 0 && |r| >= |g| - 1
    ensures |Remainder(R, r, g)| == |g| - 1
    decreases |r|
  {
    if |r| >= |g| {
      RemainderLength(R, Reduced(R, r, g)[1..], g);
    }
  }

  /** A leading zero contributes nothing to the remainder. */
  lemma RemainderSkipsZero<F(!new)>(R: Ring<F>, r: seq<F>, g: seq<F>)
    requires IsRing(R) && 0 < |g| <= |r| && r[0] == R.zero
    ensures Remainder(R, r, g) == Remainder(R, r[1..], g)
  {
    var t := Reduced(R, r, g);
    forall i | 0 <= i < |r| ensures t[i] == r[i] {
      if i < |g| {
        TimesZero(R, g[i]);
        assert PlusUnits(R, r[i]);
      }
    }
    assert t == r;
  }

  lemma ReducedLeads<F(!new)>(R: Ring<F>, r: seq<F>, g: seq<F>)
    requires IsRing(R) && 0 < |g| <= |r| && g[0] == R.one
    ensures Reduced(R, r, g)[0] == R.zero
    ensures r == Sum(R, Scaled(R, r[0], g) + Zeros(R, |r| - |g|), Reduced(R, r, g))
  {
    var t := Reduced(R, r, g);
    var back := Sum(R, Scaled(R, r[0], g) + Zeros(R, |r| - |g|), t);
    assert TimesUnit(R, r[0]) && PlusUnits(R, r[0]);
    forall i | 0 <= i < |r| ensures back[i] == r[i] {
      if i < |g| {
        var x := R.times(g[i], r[0]);
        assert TimesCommutes(R, g[i], r[0]);
        PlusTwice(R, r[i], x);
        assert PlusCommutes(R, x, t[i]);
      } else {
        ZeroPlus(R, r[i]);
      }
    }
  }

  /** The dividend is a multiple of the divisor plus the remainder. */
  lemma {:induction false} Division<F(!new)>(R: Ring<F>, r: seq<F>, g: seq<F>) returns (q: seq<F>)
    requires IsRing(R) && |g| > 0 && g[0] == R.one && |r| >= |g| - 1
    ensures |q| == |r| - |g| + 1 && |Remainder(R, r, g)| == |g| - 1
    ensures r == Sum(R, Product(R, q, g), Zeros(R, |q|) + Remainder(R, r, g))
    decreases |r|
  {
    if |r| < |g| {
      q := [];
      ProductEmpty(R, g);
      forall i | 0 <= i < |r| ensures R.plus(R.zero, r[i]) == r[i] {
        ZeroPlus(R, r[i]);
      }
      assert Zeros(R, 0) + r == r;
    } else {
      var t := Reduced(R, r, g);
      var q' := Division(R, t[1..], g);
      q := [r[0]] + q';
      ReducedLeads(R, r, g);
      ProductCons(R, r[0], q', g);
      var rest := Remainder(R, r, g);
      var shifted := Zeros(R, |q|) + rest;
      assert shifted == [R.zero] + (Zeros(R, |q'|) + rest);
      var front := Scaled(R, r[0], g) + Zeros(R, |q'|);
      assert front[0] == R.times(r[0], g[0]);
      forall i | 0 <= i < |r| ensures R.plus(Product(R, q, g)[i], shifted[i]) == r[i] {
        if i == 0 {
          assert t[0] == R.zero && PlusUnits(R, R.zero);
          assert PlusUnits(R, front[0]);
        } else {
          assert t[i] == R.plus(Product(R, q', g)[i - 1], shifted[i]);
          assert PlusAssociates(R, front[i], Product(R, q', g)[i - 1], shifted[i]);
        }
      }
    }
  }

  ghost predicate IsMultiple<F(!new)>(R: Ring<F>, w: seq<F>, g: seq<F>)
    requires |g| > 0
  {
    exists q :: w == Product(R, q, g)
  }

  /** Replacing the cleared tail by the remainder makes a multiple of the divisor. */
  lemma RemainderCompletes<F(!new)>(R: Ring<F>, data: seq<F>, g: seq<F>)
    requires IsRing(R) && |g| > 0 && g[0] == R.one
    ensures var rest := Remainder(R, data + Zeros(R, |g| - 1), g);
            |rest| == |g| - 1 && IsMultiple(R, data + rest, g)
  {
    var dividend := data + Zeros(R, |g| - 1);
    var q := Division(R, dividend, g);
    var rest := Remainder(R, dividend, g);
    var product := Product(R, q, g);
    var w := data + rest;
    forall i | 0 <= i < |w| ensures w[i] == product[i] {
      var tail := (Zeros(R, |q|) + rest)[i];
      assert dividend[i] == R.plus(product[i], tail);
      PlusTwice(R, product[i], tail);
      if i < |data| {
        assert PlusUnits(R, dividend[i]);
      } else {
        ZeroPlus(R, rest[i - |data|]);
      }
    }
    assert w == product;
  }

  // ---------------------------------------------------------------- the completion is unique

  lemma {:induction false} LeadingZeros<F(!new)>(R: Ring<F>, q: seq<F>, g: seq<F>)
    requires IsRing(R) && |g| > 0 && g[0] == R.one
    requires forall k | 0 <= k < |q| :: Product(R, q, g)[k] == R.zero
    ensures q == Zeros(R, |q|)
  {
    if q == [] {
    } else {
      var c, q' := q[0], q[1..];
      assert q == [c] + q';
      ProductCons(R, c, q', g);
      var front := Scaled(R, c, g) + Zeros(R, |q'|);
      assert front[0] == R.times(c, R.one) == c by {
        assert TimesCommutes(R, c, R.one) && TimesUnit(R, c);
      }
      assert c == R.zero by {
        assert PlusUnits(R, c);
        assert Product(R, q, g)[0] == R.plus(front[0], R.zero);
      }
      forall k | 0 <= k < |q'| ensures Product(R, q', g)[k] == R.zero {
        assert Product(R, q, g)[k + 1] == R.plus(front[k + 1], Product(R, q', g)[k]);
        if k + 1 < |g| {
          TimesZero(R, g[k + 1]);
        }
        ZeroPlus(R, Product(R, q', g)[k]);
      }
      LeadingZeros(R, q', g);
    }
  }

  lemma {:induction false} ProductOfZeros<F(!new)>(R: Ring<F>, n: nat, g: seq<F>)
    requires IsRing(R) && |g| > 0
    ensures Product(R, Zeros(R, n), g) == Zeros(R, n + |g| - 1)
  {
    if n == 0 {
      ProductEmpty(R, g);
    } else {
      ProductOfZeros(R, n - 1, g);
      assert Zeros(R, n) == [R.zero] + Zeros(R, n - 1);
      ProductCons(R, R.zero, Zeros(R, n - 1), g);
      forall i | 0 <= i < |g| ensures R.times(R.zero, g[i]) == R.zero {
        TimesZero(R, g[i]);
      }
      assert PlusUnits(R, R.zero);
    }
  }

  lemma {:induction false} CoeffSum<F(!new)>(R: Ring<F>, p: seq<F>, p': seq<F>, q: seq<F>, k: int, n: nat)
    requires IsRing(R) && |p| == |p'| && n <= |p|
    ensures Coeff(R, Sum(R, p, p'), q, k, n) == R.plus(Coeff(R, p, q, k, n), Coeff(R, p', q, k, n))
  {
    if n == 0 {
      assert PlusUnits(R, R.zero);
    } else {
      CoeffSum(R, p, p', q, k, n - 1);
      if 0 <= k - (n - 1) < |q| {
        DistributesRight(R, q[k - (n - 1)], p[n - 1], p'[n - 1]);
      } else {
        assert PlusUnits(R, R.zero);
      }
      PlusSwaps(R, Coeff(R, p, q, k, n - 1), Coeff(R, p', q, k, n - 1),
                Term(R, p, q, n - 1, k), Term(R, p', q, n - 1, k));
    }
  }

  /** Two multiples of a monic divisor that agree in their leading part are the same. */
  lemma CompletionUnique<F(!new)>(R: Ring<F>, data: seq<F>, e: seq<F>, e': seq<F>, g: seq<F>)
    requires IsRing(R) && |g| > 0 && g[0] == R.one && |e| == |e'| == |g| - 1
    requires IsMultiple(R, data + e, g) && IsMultiple(R, data + e', g)
    ensures e == e'
  {
    var q :| data + e == Product(R, q, g);
    var q' :| data + e' == Product(R, q', g);
    var d := Sum(R, q, q');
    forall k | 0 <= k < |data| + |e| ensures Product(R, d, g)[k] == R.plus((data + e)[k], (data + e')[k]) {
      CoeffSum(R, q, q', g, k, |q|);
    }
    forall k | 0 <= k < |d| ensures Product(R, d, g)[k] == R.zero {
      assert PlusUnits(R, data[k]);
    }
    LeadingZeros(R, d, g);
    ProductOfZeros(R, |d|, g);
    forall i | 0 <= i < |e| ensures e[i] == e'[i] {
      var k := |data| + i;
      assert Product(R, d, g)[k] == Zeros(R, |data| + |e|)[k] == R.zero;
      assert (data + e)[k] == e[i] && (data + e')[k] == e'[i];
      PlusTwice(R, e[i], e'[i]);
      ZeroPlus(R, e'[i]);
    }
  }

  // ---------------------------------------------------------------- evaluation

  function Eval<F>(R: Ring<F>, p: seq<F>, x: F): F {
    if p == [] then R.zero
    else R.plus(R.times(Eval(R, p[..|p| - 1], x), x), p[|p| - 1])
  }

  function Raised<F>(R: Ring<F>, x: F, n: nat): F {
    if n == 0 then R.one else R.times(Raised(R, x, n - 1), x)
  }

  lemma {:induction false} EvalConcat<F(!new)>(R: Ring<F>, a: seq<F>, b: seq<F>, x: F)
    requires IsRing(R)
    ensures Eval(R, a + b, x) == R.plus(R.times(Eval(R, a, x), Raised(R, x, |b|)), Eval(R, b, x))
    decreases |b|
  {
    var ea := Eval(R, a, x);
    if b == [] {
      assert a + b == a;
      assert TimesCommutes(R, ea, R.one) && TimesUnit(R, ea) && PlusUnits(R, ea);
    } else {
      var b', last := b[..|b| - 1], b[|b| - 1];
      assert (a + b)[..|a + b| - 1] == a + b';
      EvalConcat(R, a, b', x);
      var power := Raised(R, x, |b'|);
      DistributesRight(R, x, R.times(ea, power), Eval(R, b', x));
      assert TimesAssociates(R, ea, power, x);
      assert PlusAssociates(R, R.times(ea, Raised(R, x, |b|)), R.times(Eval(R, b', x), x), last);
    }
  }

  lemma {:induction false} EvalSum<F(!new)>(R: Ring<F>, a: seq<F>, b: seq<F>, x: F)
    requires IsRing(R) && |a| == |b|
    ensures Eval(R, Sum(R, a, b), x) == R.plus(Eval(R, a, x), Eval(R, b, x))
  {
    if a == [] {
      assert PlusUnits(R, R.zero);
    } else {
      var a', b' := a[..|a| - 1], b[..|b| - 1];
      EvalSum(R, a', b', x);
      assert Sum(R, a, b)[..|a| - 1] == Sum(R, a', b');
      DistributesRight(R, x, Eval(R, a', x), Eval(R, b', x));
      PlusSwaps(R, R.times(Eval(R, a', x), x), R.times(Eval(R, b', x), x), a[|a| - 1], b[|b| - 1]);
    }
  }

  lemma {:induction false} EvalZeros<F(!new)>(R: Ring<F>, n: nat, x: F)
    requires IsRing(R)
    ensures Eval(R, Zeros(R, n), x) == R.zero
  {
    if n == 0 {
    } else {
      EvalZeros(R, n - 1, x);
      assert Zeros(R, n)[..n - 1] == Zeros(R, n - 1);
      TimesZero(R, x);
      assert PlusUnits(R, R.zero);
    }
  }

  lemma {:induction false} EvalScaled<F(!new)>(R: Ring<F>, c: F, q: seq<F>, x: F)
    requires IsRing(R)
    ensures Eval(R, Scaled(R, c, q), x) == R.times(c, Eval(R, q, x))
  {
    if q == [] {
      TimesZero(R, c);
    } else {
      var q', last := q[..|q| - 1], q[|q| - 1];
      EvalScaled(R, c, q', x);
      assert Scaled(R, c, q)[..|q| - 1] == Scaled(R, c, q');
      assert TimesAssociates(R, c, Eval(R, q', x), x);
      assert Distributes(R, c, R.times(Eval(R, q', x), x), last);
    }
  }

  /** Evaluation turns products of polynomials into products of values. */
  lemma {:induction false} EvalProduct<F(!new)>(R: Ring<F>, p: seq<F>, q: seq<F>, x: F)
    requires IsRing(R) && |q| > 0
    ensures Eval(R, Product(R, p, q), x) == R.times(Eval(R, p, x), Eval(R, q, x))
  {
    var eq := Eval(R, q, x);
    if p == [] {
      ProductEmpty(R, q);
      EvalZeros(R, |q| - 1, x);
      TimesZero(R, eq);
    } else {
      var c, p' := p[0], p[1..];
      assert p == [c] + p';
      EvalProduct(R, p', q, x);
      ProductCons(R, c, p', q);
      var front, back := Scaled(R, c, q) + Zeros(R, |p'|), [R.zero] + Product(R, p', q);
      EvalSum(R, front, back, x);
      EvalConcat(R, Scaled(R, c, q), Zeros(R, |p'|), x);
      EvalZeros(R, |p'|, x);
      EvalScaled(R, c, q, x);
      EvalConcat(R, [R.zero], Product(R, p', q), x);
      EvalSingle(R, R.zero, x);
      EvalConcat(R, [c], p', x);
      EvalSingle(R, c, x);
      var power := Raised(R, x, |p'|);
      TimesZero(R, Raised(R, x, |Product(R, p', q)|));
      ZeroPlus(R, Eval(R, Product(R, p', q), x));
      assert PlusUnits(R, R.times(R.times(c, eq), power));
      assert TimesAssociates(R, c, eq, power) && TimesCommutes(R, eq, power) && TimesAssociates(R, c, power, eq);
      DistributesRight(R, eq, R.times(c, power), Eval(R, p', x));
    }
  }

  lemma EvalSingle<F(!new)>(R: Ring<F>, c: F, x: F)
    requires IsRing(R)
    ensures Eval(R, [c], x) == c
  {
    assert [c][..0] == [];
    assert Eval(R, [c], x) == R.plus(R.times(Eval(R, [], x), x), c);
    TimesZero(R, x);
    ZeroPlus(R, c);
  }
}
