/**
 The split of a scalar for the curve's endomorphism: `jr`, `hi` and the basis `yi`.

 The endomorphism multiplies a point by a fixed number `root` for the price of one field
 multiplication, so k*p = k1*p + k2*(root*p) costs two multiplications of half the length.
 */
module ScalarSplit {
  import opened Arithmetic
  import opened PowersOfTwo
  import opened Outcomes

  const ORDER: int := 0xfffffffffffffffffffffffffffffffebaaedce6af48a03bbfd25e8cd0364141

  /** A basis of the lattice of pairs (a, b) with a + b*root divisible by the order. */
  datatype Basis = Basis(a1: int, b1: int, a2: int, b2: int)

  const SECP256K1_BASIS: Basis := Basis(
    0x3086d221a7d46bcde86c90e49284eb15, -0xe4437ed6010e88286f547fa90abfe4c3,
    0x114ca50f7a8e2f3f657c1108d9d44cfd8, 0x3086d221a7d46bcde86c90e49284eb15)

  /** The cube root of unity modulo the order that the basis belongs to. */
  const SECP256K1_ROOT: int := 0x5363ad4cc05c30e0a5261c028812645a122e22ea20816678df02967c1b23bd72

  function Abs(x: int): nat {
    if x < 0 then -x else x
  }

  /** Division of the source's big integers, which drops the fraction. */
  function TruncatedDiv(t: int, e: int): int
    requires e > 0
  {
    if t >= 0 then t / e else -(-t / e)
  }

  /** `jr`: the quotient rounded to a nearest integer. */
  function DivNearest(t: int, e: int): int
    requires e > 0
  {
    TruncatedDiv(t + (if t >= 0 then e / 2 else -(e / 2)), e)
  }

  lemma DivNearestError(t: int, e: int)
    requires e > 0
    ensures 2 * Abs(t - DivNearest(t, e) * e) <= e
  {
    var u := if t >= 0 then t + e / 2 else -t + e / 2;
    DivMod(u, e);
    var q := u / e;
    assert q * e == e * q && (-q) * e == -(e * q);
    if t < 0 {
      assert DivNearest(t, e) == -q by {
        if u == 0 {
          DivModUnique(0, e, 0, 0);
        }
      }
    }
  }

  /** The signed halves that `hi` computes before it takes their signs off. */
  function Halves(k: int, basis: Basis, n: int): (int, int)
    requires n > 0
  {
    var c1 := DivNearest(basis.b2 * k, n);
    var c2 := DivNearest(-basis.b1 * k, n);
    (k - c1 * basis.a1 - c2 * basis.a2, -c1 * basis.b1 - c2 * basis.b2)
  }

  ghost predicate Congruent(x: int, y: int, n: int) {
    exists q :: x == y + Multiple(q, n)
  }

  function Multiple(q: int, n: int): int {
    q * n
  }

  /** `root` is the multiplier the basis belongs to. */
  ghost predicate BelongsTo(basis: Basis, root: int, n: int) {
    && Congruent(basis.a1 + basis.b1 * root, 0, n)
    && Congruent(basis.a2 + basis.b2 * root, 0, n)
  }

  lemma SplitCongruent(k: int, basis: Basis, n: int, root: int)
    requires n > 0 && BelongsTo(basis, root, n)
    ensures var (k1, k2) := Halves(k, basis, n);
            Congruent(k1 + root * k2, k, n)
  {
    var (k1, k2) := Halves(k, basis, n);
    var c1 := DivNearest(basis.b2 * k, n);
    var c2 := DivNearest(-basis.b1 * k, n);
    var q1 :| basis.a1 + basis.b1 * root == Multiple(q1, n);
    var q2 :| basis.a2 + basis.b2 * root == Multiple(q2, n);
    ScaledColumn(c1, basis.a1, basis.b1, root);
    ScaledColumn(c2, basis.a2, basis.b2, root);
    MulDistributes(root, -c1 * basis.b1, -c2 * basis.b2);
    assert -c1 * basis.b1 == -(c1 * basis.b1) && -c2 * basis.b2 == -(c2 * basis.b2);
    assert root * -(c1 * basis.b1) == -(root * (c1 * basis.b1));
    assert root * -(c2 * basis.b2) == -(root * (c2 * basis.b2));
    CombineMultiples(c1, q1, c2, q2, n);
    assert k1 + root * k2 == k + Multiple(-(c1 * q1) - c2 * q2, n);
  }

  lemma CombineMultiples(c1: int, q1: int, c2: int, q2: int, n: int)
    ensures -(c1 * Multiple(q1, n)) - c2 * Multiple(q2, n) == Multiple(-(c1 * q1) - c2 * q2, n)
  {
    MulAssociates(c1, q1, n);
    MulAssociates(c2, q2, n);
    MulDistributes(n, -(c1 * q1), -(c2 * q2));
  }

  lemma ScaledColumn(c: int, a: int, b: int, root: int)
    ensures c * (a + b * root) == c * a + root * (c * b)
  {
    MulDistributes(c, a, b * root);
    MulAssociates(c, b, root);
  }

  lemma ScaledBound(x: int, e: int, n: int)
    requires 2 * Abs(e) <= n
    ensures 2 * Abs(x * e) <= Abs(x) * n
  {
    if x >= 0 {
      MulMonotone(2 * e, n, x);
      MulMonotone(-n, 2 * e, x);
    } else {
      MulMonotone(2 * e, n, -x);
      MulMonotone(-n, 2 * e, -x);
    }
  }

  lemma DivideBound(x: int, y: int, n: int)
    requires n > 0 && 2 * Abs(n * x) <= y * n
    ensures 2 * Abs(x) <= y
  {
    if 2 * Abs(x) > y {
      MulMonotone(y + 1, 2 * Abs(x), n);
    }
  }

  /** Each half is at most half the size of its column of the basis, whatever the scalar is. */
  lemma SplitBounded(k: int, basis: Basis, n: int)
    requires n > 0 && basis.a1 * basis.b2 - basis.a2 * basis.b1 == n
    ensures var (k1, k2) := Halves(k, basis, n);
            && 2 * Abs(k1) <= Abs(basis.a1) + Abs(basis.a2)
            && 2 * Abs(k2) <= Abs(basis.b1) + Abs(basis.b2)
  {
    var (k1, k2) := Halves(k, basis, n);
    var t1, t2 := basis.b2 * k, -basis.b1 * k;
    var c1, c2 := DivNearest(t1, n), DivNearest(t2, n);
    var e1, e2 := t1 - c1 * n, t2 - c2 * n;
    DivNearestError(t1, n);
    DivNearestError(t2, n);
    ErrorsGiveHalves(k, basis, n, c1, c2);
    ScaledBound(basis.a1, e1, n);
    ScaledBound(basis.a2, e2, n);
    MulDistributes(n, Abs(basis.a1), Abs(basis.a2));
    DivideBound(k1, Abs(basis.a1) + Abs(basis.a2), n);
    ScaledBound(basis.b1, e1, n);
    ScaledBound(basis.b2, e2, n);
    MulDistributes(n, Abs(basis.b1), Abs(basis.b2));
    DivideBound(k2, Abs(basis.b1) + Abs(basis.b2), n);
  }

  /** The order times a half is a combination of the two rounding errors. */
  lemma ErrorsGiveHalves(k: int, b: Basis, n: int, c1: int, c2: int)
    requires b.a1 * b.b2 - b.a2 * b.b1 == n
    ensures n * (k - c1 * b.a1 - c2 * b.a2) == b.a1 * (b.b2 * k - c1 * n) + b.a2 * (-b.b1 * k - c2 * n)
    ensures n * (-c1 * b.b1 - c2 * b.b2) == b.b1 * (b.b2 * k - c1 * n) + b.b2 * (-b.b1 * k - c2 * n)
  {
    DeterminantTimes(b.a1, b.b2, b.a2, -b.b1, k);
    CombineErrors(b.a1, b.b2 * k, c1, b.a2, -b.b1 * k, c2, n);
    DeterminantTimes(b.b1, b.b2, b.b2, -b.b1, k);
    CombineErrors(b.b1, b.b2 * k, c1, b.b2, -b.b1 * k, c2, n);
    MulDistributes(n, k, -c1 * b.a1 - c2 * b.a2);
    assert k - c1 * b.a1 - c2 * b.a2 == k + (-c1 * b.a1 - c2 * b.a2);
  }

  lemma DeterminantTimes(x: int, y: int, u: int, v: int, k: int)
    ensures (x * y + u * v) * k == x * (y * k) + u * (v * k)
  {
    MulDistributes(k, x * y, u * v);
    MulAssociates(x, y, k);
    MulAssociates(u, v, k);
  }

  lemma CombineErrors(x: int, t: int, c: int, y: int, u: int, d: int, n: int)
    ensures x * (t - c * n) + y * (u - d * n) == (x * t + y * u) + n * (-c * x - d * y)
  {
    ErrorExpands(x, t, c, n);
    ErrorExpands(y, u, d, n);
    MulDistributes(n, -c * x, -(d * y));
    assert n * (-c * x) == -(n * (c * x)) && n * (-(d * y)) == -(n * (d * y));
  }

  lemma ErrorExpands(a: int, t: int, c: int, n: int)
    ensures a * (t - c * n) == a * t - n * (c * a)
  {
    MulDistributes(a, t, -(c * n));
    MulAssociates(a, c, n);
  }

  /** How many bits a number has. */
  function BitLength(x: nat): nat {
    if x == 0 then 0 else 1 + BitLength(x / 2)
  }

  lemma {:induction false} BitLengthBounds(x: nat, bits: nat)
    ensures BitLength(x) <= bits <==> x < Pow2(bits)
  {
    if x == 0 {
    } else if bits == 0 {
    } else {
      BitLengthBounds(x / 2, bits - 1);
    }
  }

  /** `on`: the bit length, counted by shifting. */
  method CountBits(x: nat) returns (bits: nat)
    ensures bits == BitLength(x)
  {
    var t: nat := x;
    bits := 0;
    while t > 0
      invariant bits + BitLength(t) == BitLength(x)
    {
      t, bits := t / 2, bits + 1;
    }
  }

  datatype Split = Split(k1neg: bool, k1: nat, k2neg: bool, k2: nat)

  /** The signed number a sign and a magnitude stand for. */
  function Signed(neg: bool, magnitude: nat): int {
    if neg then 0 - magnitude else magnitude
  }

  /** `hi`: the signs and magnitudes of both halves; throws when a magnitude is too long. */
  method SplitScalar(k: int, basis: Basis, n: int) returns (res: Result<Split>)
    requires n > 0
    ensures var (k1, k2) := Halves(k, basis, n);
            var limit := Pow2((BitLength(n) + 1) / 2);
            && (res.Ok? <==> Abs(k1) < limit && Abs(k2) < limit)
            && (res.Ok? ==> Signed(res.value.k1neg, res.value.k1) == k1 && Signed(res.value.k2neg, res.value.k2) == k2)
  {
    hide DivNearest, BitLength, Pow2;
    var c1 := DivNearest(basis.b2 * k, n);
    var c2 := DivNearest(-basis.b1 * k, n);
    var k1 := k - c1 * basis.a1 - c2 * basis.a2;
    var k2 := -c1 * basis.b1 - c2 * basis.b2;
    var k1neg, k2neg := k1 < 0, k2 < 0;
    if k1neg {
      k1 := -k1;
    }
    if k2neg {
      k2 := -k2;
    }
    var bits := CountBits(n);
    var limit := (Pow2((bits + 1) / 2) - 1) + 1;
    if k1 < 0 || k1 >= limit || k2 < 0 || k2 >= limit {
      return Thrown;
    }
    res := Ok(Split(k1neg, k1, k2neg, k2));
  }

  lemma Pow2Squared(k: nat, power: int)
    requires power == Pow2(k)
    ensures Pow2(k + k) == power * power
  {
    Pow2Add(k, k);
  }

  /** 2 to the power 128, the bound on each half. */
  const HALF_BOUND: int := 0x1_0000_0000_0000_0000_0000_0000_0000_0000

  lemma Pow2Of128()
    ensures Pow2(128) == HALF_BOUND
  {
    assert Pow2(8) == 0x100;
    Pow2Squared(8, 0x100);
    Pow2Squared(16, 0x1_0000);
    Pow2Squared(32, 0x1_0000_0000);
    Pow2Squared(64, 0x1_0000_0000_0000_0000);
  }

  lemma OrderBitLength()
    ensures BitLength(ORDER) == 256
  {
    Pow2Of128();
    Pow2Squared(128, 0x1_0000_0000_0000_0000_0000_0000_0000_0000);
    var top := 255;
    assert Pow2(top + 1) == 2 * Pow2(top);
    BitLengthBounds(ORDER, 256);
    BitLengthBounds(ORDER, top);
  }

  /** A curve's order, its multiplier and the basis the source ships for it. */
  datatype Curve = Curve(order: int, root: int, basis: Basis)

  const SECP256K1: Curve := Curve(ORDER, SECP256K1_ROOT, SECP256K1_BASIS)

  /** The basis is the multiplier's, its determinant is the order, and its columns are short. */
  ghost predicate BasisFits(c: Curve) {
    && c.order > HALF_BOUND
    && (BitLength(c.order) + 1) / 2 == 128
    && c.basis.a1 * c.basis.b2 - c.basis.a2 * c.basis.b1 == c.order
    && BelongsTo(c.basis, c.root, c.order)
    && Abs(c.basis.a1) + Abs(c.basis.a2) < 2 * HALF_BOUND
    && Abs(c.basis.b1) + Abs(c.basis.b2) < 2 * HALF_BOUND
  }

  lemma ShippedBasis()
    ensures var b := SECP256K1_BASIS;
            && b.a1 * b.b2 - b.a2 * b.b1 == ORDER
            && BelongsTo(b, SECP256K1_ROOT, ORDER)
            && Abs(b.a1) + Abs(b.a2) < 2 * HALF_BOUND
            && Abs(b.b1) + Abs(b.b2) < 2 * HALF_BOUND
  {
    var b := SECP256K1_BASIS;
    Pow2Of128();
    var q1 := (b.a1 + b.b1 * SECP256K1_ROOT) / ORDER;
    var q2 := (b.a2 + b.b2 * SECP256K1_ROOT) / ORDER;
    assert b.a1 + b.b1 * SECP256K1_ROOT == 0 + Multiple(q1, ORDER);
    assert b.a2 + b.b2 * SECP256K1_ROOT == 0 + Multiple(q2, ORDER);
  }

  lemma Secp256k1BasisFits()
    ensures BasisFits(SECP256K1)
  {
    hide Pow2, BitLength, BelongsTo, Abs;
    ShippedBasis();
    OrderBitLength();
    Pow2Of128();
  }

  /** With a fitting basis no scalar at all makes the split fail. */
  lemma SplitNeverFails(k: int, c: Curve)
    requires BasisFits(c)
    ensures var (k1, k2) := Halves(k, c.basis, c.order);
            Abs(k1) < HALF_BOUND && Abs(k2) < HALF_BOUND
  {
    hide Halves, BitLength, Pow2, BelongsTo;
    SplitBounded(k, c.basis, c.order);
  }

  /** The split with the curve's constants, which always succeeds. */
  method SplitForCurve(k: int, c: Curve) returns (s: Split)
    requires BasisFits(c)
    ensures Congruent(Signed(s.k1neg, s.k1) + c.root * Signed(s.k2neg, s.k2), k, c.order)
    ensures s.k1 < HALF_BOUND && s.k2 < HALF_BOUND
  {
    hide BelongsTo, Congruent, Halves, Pow2, BitLength;
    Pow2Of128();
    SplitNeverFails(k, c);
    SplitCongruent(k, c.basis, c.order, c.root);
    var res := SplitScalar(k, c.basis, c.order);
    s := res.value;
  }
}
