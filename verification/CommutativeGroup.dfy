/**
 Points of the curve as elements of an abstract commutative group.

 The curve's addition formulas are not modelled: a group is a record of operations, and
 `IsCommutativeGroup` says that they obey the group laws. Each law is a named predicate, so that a
 law is used only for the elements a proof mentions.
 */
module CommutativeGroup {

  datatype Group<!P> = Group(zero: P, add: (P, P) -> P, negate: P -> P)

  ghost predicate Commutes<P>(g: Group<P>, x: P, y: P) {
    g.add(x, y) == g.add(y, x)
  }

  ghost predicate Associates<P>(g: Group<P>, x: P, y: P, z: P) {
    g.add(g.add(x, y), z) == g.add(x, g.add(y, z))
  }

  ghost predicate HasUnit<P>(g: Group<P>, x: P) {
    g.add(g.zero, x) == x
  }

  ghost predicate HasInverse<P>(g: Group<P>, x: P) {
    g.add(x, g.negate(x)) == g.zero
  }

  ghost predicate IsCommutativeGroup<P(!new)>(g: Group<P>) {
    && (forall x, y :: Commutes(g, x, y))
    && (forall x, y, z :: Associates(g, x, y, z))
    && (forall x :: HasUnit(g, x))
    && (forall x :: HasInverse(g, x))
  }

  /** The multiple n*p for any integer n: what every multiplication algorithm must return. */
  function Times<P>(g: Group<P>, n: int, p: P): P
    decreases if n < 0 then -n else n
  {
    if n == 0 then g.zero
    else if n > 0 then g.add(p, Times(g, n - 1, p))
    else g.add(g.negate(p), Times(g, n + 1, p))
  }

  lemma TimesStep<P(!new)>(g: Group<P>, n: int, p: P)
    requires IsCommutativeGroup(g)
    ensures Times(g, n + 1, p) == g.add(p, Times(g, n, p))
  {
    if n < 0 {
      var t := Times(g, n + 1, p);
      assert Associates(g, p, g.negate(p), t);
      assert HasInverse(g, p) && HasUnit(g, t);
    }
  }

  lemma {:induction false} TimesAdd<P(!new)>(g: Group<P>, a: int, b: int, p: P)
    requires IsCommutativeGroup(g)
    ensures Times(g, a + b, p) == g.add(Times(g, a, p), Times(g, b, p))
    decreases if a < 0 then -a else a
  {
    if a == 0 {
      assert HasUnit(g, Times(g, b, p));
    } else if a > 0 {
      TimesAdd(g, a - 1, b, p);
      TimesStep(g, a - 1 + b, p);
      assert Associates(g, p, Times(g, a - 1, p), Times(g, b, p));
    } else {
      TimesAdd(g, a + 1, b, p);
      TimesStepDown(g, a + 1 + b, p);
      assert Associates(g, g.negate(p), Times(g, a + 1, p), Times(g, b, p));
    }
  }

  lemma TimesStepDown<P(!new)>(g: Group<P>, n: int, p: P)
    requires IsCommutativeGroup(g)
    ensures Times(g, n - 1, p) == g.add(g.negate(p), Times(g, n, p))
  {
    if n > 0 {
      var t := Times(g, n - 1, p);
      assert Associates(g, g.negate(p), p, t);
      assert HasInverse(g, p) && HasUnit(g, t) && Commutes(g, p, g.negate(p));
    }
  }

  lemma NegateUnique<P(!new)>(g: Group<P>, x: P, y: P)
    requires IsCommutativeGroup(g)
    requires g.add(x, y) == g.zero
    ensures g.negate(x) == y
  {
    var nx := g.negate(x);
    assert HasInverse(g, x) && HasUnit(g, y) && HasUnit(g, nx);
    assert Associates(g, nx, x, y);
    assert Commutes(g, x, nx) && Commutes(g, nx, g.zero);
  }

  lemma TimesNegate<P(!new)>(g: Group<P>, n: int, p: P)
    requires IsCommutativeGroup(g)
    ensures g.negate(Times(g, n, p)) == Times(g, -n, p)
  {
    TimesAdd(g, n, -n, p);
    NegateUnique(g, Times(g, n, p), Times(g, -n, p));
  }

  lemma {:induction false} TimesTimes<P(!new)>(g: Group<P>, a: int, b: int, p: P)
    requires IsCommutativeGroup(g)
    ensures Times(g, a, Times(g, b, p)) == Times(g, a * b, p)
    decreases if a < 0 then -a else a
  {
    if a == 0 {
    } else if a > 0 {
      TimesTimes(g, a - 1, b, p);
      TimesAdd(g, b, (a - 1) * b, p);
      assert b + (a - 1) * b == a * b;
    } else {
      TimesTimes(g, a + 1, b, p);
      TimesNegate(g, b, p);
      TimesAdd(g, -b, (a + 1) * b, p);
      assert -b + (a + 1) * b == a * b;
    }
  }

  lemma TimesOne<P(!new)>(g: Group<P>, p: P)
    requires IsCommutativeGroup(g)
    ensures Times(g, 1, p) == p
  {
    assert HasUnit(g, p) && Commutes(g, p, g.zero);
    assert Times(g, 1, p) == g.add(p, Times(g, 0, p));
  }
}
