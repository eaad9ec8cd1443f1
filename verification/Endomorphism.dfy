/** Point multiplication over the two half-length scalars of the split: `multiply`, `$r`, `multiplyUnsafe`. */
module Endomorphism {
  import opened Arithmetic
  import opened PowersOfTwo
  import opened CommutativeGroup
  import opened Outcomes
  import opened ScalarSplit
  import opened WindowedMultiplication

  ghost predicate Additive<P>(g: Group<P>, phi: P -> P, x: P, y: P) {
    phi(g.add(x, y)) == g.add(phi(x), phi(y))
  }

  /** `phi` is the group endomorphism that multiplies the point `p`, of the given order, by root. */
  ghost predicate IsEndomorphism<P(!new)>(g: Group<P>, phi: P -> P, p: P, root: int, order: int) {
    && (forall x, y :: Additive(g, phi, x, y))
    && phi(p) == Times(g, root, p)
    && Times(g, order, p) == g.zero
  }

  lemma {:induction false} EndomorphismOfMultiple<P(!new)>(g: Group<P>, phi: P -> P, p: P, root: int, order: int, k: nat)
    requires IsCommutativeGroup(g) && IsEndomorphism(g, phi, p, root, order)
    ensures phi(Times(g, k, p)) == Times(g, root * k, p)
  {
    if k == 0 {
      var z := phi(g.zero);
      assert Additive(g, phi, g.zero, g.zero) && HasUnit(g, g.zero);
      assert Associates(g, g.negate(z), z, z) && HasInverse(g, z) && HasUnit(g, z) && Commutes(g, z, g.negate(z));
    } else {
      EndomorphismOfMultiple(g, phi, p, root, order, k - 1);
      assert Additive(g, phi, p, Times(g, k - 1, p));
      TimesAdd(g, root, root * (k - 1), p);
      MulDistributes(root, 1, k - 1);
    }
  }

  lemma CongruentMultiples<P(!new)>(g: Group<P>, p: P, x: int, y: int, order: int)
    requires IsCommutativeGroup(g) && Times(g, order, p) == g.zero
    requires Congruent(x, y, order)
    ensures Times(g, x, p) == Times(g, y, p)
  {
    var q :| x == y + Multiple(q, order);
    TimesAdd(g, y, q * order, p);
    TimesTimes(g, q, order, p);
    TimesOfZero(g, q);
    assert HasUnit(g, Times(g, y, p)) && Commutes(g, Times(g, y, p), g.zero);
  }

  lemma {:induction false} TimesOfZero<P(!new)>(g: Group<P>, q: int)
    requires IsCommutativeGroup(g)
    ensures Times(g, q, g.zero) == g.zero
    decreases Abs(q)
  {
    assert HasUnit(g, g.zero) && HasInverse(g, g.zero) && HasUnit(g, g.negate(g.zero));
    if q > 0 {
      TimesOfZero(g, q - 1);
    } else if q < 0 {
      TimesOfZero(g, q + 1);
    }
  }

  function NegateIf<P>(g: Group<P>, neg: bool, x: P): P {
    if neg then g.negate(x) else x
  }

  lemma SignedMultiple<P(!new)>(g: Group<P>, p: P, c: int, neg: bool, magnitude: nat)
    requires IsCommutativeGroup(g)
    ensures NegateIf(g, neg, Times(g, c * magnitude, p)) == Times(g, c * Signed(neg, magnitude), p)
  {
    TimesNegate(g, c * magnitude, p);
    assert c * (0 - magnitude) == -(c * magnitude);
  }

  /** Joining the two half-length products gives the whole one. */
  lemma HalvesJoin<P(!new)>(g: Group<P>, phi: P -> P, p: P, c: Curve, k: int, s: Split)
    requires IsCommutativeGroup(g) && IsEndomorphism(g, phi, p, c.root, c.order)
    requires Congruent(Signed(s.k1neg, s.k1) + c.root * Signed(s.k2neg, s.k2), k, c.order)
    ensures g.add(NegateIf(g, s.k1neg, Times(g, s.k1, p)), NegateIf(g, s.k2neg, phi(Times(g, s.k2, p))))
            == Times(g, k, p)
  {
    hide IsCommutativeGroup, Congruent, Times;
    var k1, k2 := Signed(s.k1neg, s.k1), Signed(s.k2neg, s.k2);
    SignedMultiple(g, p, 1, s.k1neg, s.k1);
    EndomorphismOfMultiple(g, phi, p, c.root, c.order, s.k2);
    SignedMultiple(g, p, c.root, s.k2neg, s.k2);
    TimesAdd(g, k1, c.root * k2, p);
    CongruentMultiples(g, p, k1 + c.root * k2, k, c.order);
  }

  /**
   `multiply`: the constant-time product k*p over the half-length windows. It throws exactly for a
   scalar outside 1 .. order-1 or a window width outside 1 .. 128; neither the split nor the
   leftover check of the windows ever throws.
   */
  method Multiply<P(!new)>(g: Group<P>, phi: P -> P, base: P, p: P, width: int, k: int, c: Curve)
    returns (res: Result<P>)
    requires IsCommutativeGroup(g) && IsEndomorphism(g, phi, p, c.root, c.order)
    requires BasisFits(c)
    ensures res.Ok? <==> 0 < k < c.order && ValidWidth(width, 128)
    ensures res.Ok? ==> res.value == Times(g, k, p)
  {
    hide IsCommutativeGroup, IsEndomorphism, Congruent, BelongsTo, BitLength, Pow2, MaxScalar, Sizes, Times;
    if !(0 < k < c.order) {
      return Thrown;
    }
    var split := SplitForCurve(k, c);
    var Split(k1neg, k1, k2neg, k2) := split;
    var table := PrecomputeWindow(g, p, width, 128);
    if table.Thrown? {
      return Thrown;
    }
    Pow2Of128();
    InRangeScalarFits(width, 128, k1);
    InRangeScalarFits(width, 128, k2);
    var p1 := WNAF(g, base, p, width, 128, c.order, table.value, k1);
    var p2 := WNAF(g, base, p, width, 128, c.order, table.value, k2);
    HalvesJoin(g, phi, p, c, k, split);
    res := Ok(g.add(NegateIf(g, k1neg, p1.value.0), NegateIf(g, k2neg, phi(p2.value.0))));
  }

  /** `$r`: the two half-length products side by side, sharing the doublings. */
  method DoubleLadder<P(!new)>(g: Group<P>, p: P, n1: nat, n2: nat) returns (p1: P, p2: P)
    requires IsCommutativeGroup(g)
    ensures p1 == Times(g, n1, p) && p2 == Times(g, n2, p)
  {
    var d := p;
    var a: nat, b: nat := n1, n2;
    p1, p2 := g.zero, g.zero;
    ghost var weight: nat := 1;
    ghost var whole1, whole2 := Times(g, n1, p), Times(g, n2, p);
    TimesOne(g, p);
    assert HasUnit(g, whole1) && HasUnit(g, whole2);
    while a > 0 || b > 0
      invariant d == Times(g, weight, p)
      invariant g.add(p1, Times(g, weight * a, p)) == whole1
      invariant g.add(p2, Times(g, weight * b, p)) == whole2
      decreases a + b
    {
      LadderStep(g, p, weight, a, p1, d);
      LadderStep(g, p, weight, b, p2, d);
      if a % 2 == 1 {
        p1 := g.add(p1, d);
      }
      if b % 2 == 1 {
        p2 := g.add(p2, d);
      }
      TimesAdd(g, weight, weight, p);
      d, a, b := g.add(d, d), a / 2, b / 2;
      weight := 2 * weight;
    }
    assert weight * a == 0 && weight * b == 0;
    assert Commutes(g, p1, g.zero) && HasUnit(g, p1) && Commutes(g, p2, g.zero) && HasUnit(g, p2);
  }

  lemma HalfStep(weight: int, k: nat)
    ensures weight * k == 2 * weight * (k / 2) + (if k % 2 == 1 then weight else 0)
  {
    MulDistributes(weight, 2 * (k / 2), k % 2);
    MulAssociates(weight, 2, k / 2);
  }

  lemma LadderStep<P(!new)>(g: Group<P>, p: P, weight: nat, k: nat, sum: P, d: P)
    requires IsCommutativeGroup(g) && d == Times(g, weight, p)
    ensures g.add(if k % 2 == 1 then g.add(sum, d) else sum, Times(g, 2 * weight * (k / 2), p))
            == g.add(sum, Times(g, weight * k, p))
  {
    HalfStep(weight, k);
    var rest := 2 * weight * (k / 2);
    if k % 2 == 1 {
      TimesAdd(g, weight, rest, p);
      assert Associates(g, sum, d, Times(g, rest, p));
    }
  }

  /**
   `multiplyUnsafe`: the early-exit product. `cachedWidth` is the window width of a point with
   precomputed multiples, which is handed to `multiply`.
   */
  method MultiplyUnsafe<P(!new, ==)>(g: Group<P>, phi: P -> P, base: P, p: P, cachedWidth: int, k: int, c: Curve)
    returns (res: Result<P>)
    requires IsCommutativeGroup(g) && IsEndomorphism(g, phi, p, c.root, c.order)
    requires BasisFits(c)
    requires ValidWidth(cachedWidth, 128)
    ensures res.Ok? <==> 0 <= k < c.order
    ensures res.Ok? ==> res.value == Times(g, k, p)
  {
    hide IsCommutativeGroup, IsEndomorphism, Congruent, BelongsTo, BitLength, Pow2;
    if !(0 <= k < c.order) {
      return Thrown;
    }
    if k == 0 || p == g.zero {
      TimesOfZero(g, k);
      return Ok(g.zero);
    }
    if k == 1 {
      TimesOne(g, p);
      return Ok(p);
    }
    if cachedWidth != 1 {
      res := Multiply(g, phi, base, p, cachedWidth, k, c);
      return;
    }
    var split := SplitForCurve(k, c);
    var Split(k1neg, k1, k2neg, k2) := split;
    var p1, p2 := DoubleLadder(g, p, k1, k2);
    HalvesJoin(g, phi, p, c, k, split);
    res := Ok(g.add(NegateIf(g, k1neg, p1), NegateIf(g, k2neg, phi(p2))));
  }
}
