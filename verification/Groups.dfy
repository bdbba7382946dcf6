/**
  Abelian groups given by their operations, and multiples of their elements.
  Curve points enter the model only through this interface.
 */
module Groups {

  datatype Group<!G> = Group(zero: G, add: (G, G) -> G, neg: G -> G)

  ghost predicate IsAbelian<G(!new)>(g: Group<G>) {
    && (forall a, b, c {:trigger g.add(a, g.add(b, c))} :: g.add(a, g.add(b, c)) == g.add(g.add(a, b), c))
    && (forall a, b {:trigger g.add(a, b)} :: g.add(a, b) == g.add(b, a))
    && (forall a {:trigger g.add(a, g.zero)} :: g.add(a, g.zero) == a)
    && (forall a {:trigger g.neg(a)} :: g.add(a, g.neg(a)) == g.zero)
  }

  lemma Assoc<G(!new)>(g: Group<G>, a: G, b: G, c: G)
    requires IsAbelian(g)
    ensures g.add(a, g.add(b, c)) == g.add(g.add(a, b), c)
  {
  }

  lemma Comm<G(!new)>(g: Group<G>, a: G, b: G)
    requires IsAbelian(g)
    ensures g.add(a, b) == g.add(b, a)
  {
  }

  lemma Unit<G(!new)>(g: Group<G>, a: G)
    requires IsAbelian(g)
    ensures g.add(a, g.zero) == a && g.add(g.zero, a) == a
  {
    Comm(g, a, g.zero);
    assert g.add(a, g.zero) == a;
  }

  lemma Inverse<G(!new)>(g: Group<G>, a: G)
    requires IsAbelian(g)
    ensures g.add(a, g.neg(a)) == g.zero && g.add(g.neg(a), a) == g.zero
  {
    Comm(g, a, g.neg(a));
  }

  /** (a + b) + (c + d) == (a + c) + (b + d) */
  lemma Exchange<G(!new)>(g: Group<G>, a: G, b: G, c: G, d: G)
    requires IsAbelian(g)
    ensures g.add(g.add(a, b), g.add(c, d)) == g.add(g.add(a, c), g.add(b, d))
  {
    hide IsAbelian;
    Assoc(g, a, b, g.add(c, d));
    Assoc(g, b, c, d);
    Comm(g, b, c);
    Assoc(g, c, b, d);
    Assoc(g, a, c, g.add(b, d));
  }

  lemma InverseIsUnique<G(!new)>(g: Group<G>, a: G, b: G)
    requires IsAbelian(g) && g.add(a, b) == g.zero
    ensures b == g.neg(a)
  {
    hide IsAbelian;
    Inverse(g, a);
    Unit(g, b);
    Assoc(g, g.neg(a), a, b);
    Unit(g, g.neg(a));
  }

  lemma NegSum<G(!new)>(g: Group<G>, a: G, b: G)
    requires IsAbelian(g)
    ensures g.neg(g.add(a, b)) == g.add(g.neg(a), g.neg(b))
  {
    hide IsAbelian;
    Exchange(g, a, b, g.neg(a), g.neg(b));
    Inverse(g, a);
    Inverse(g, b);
    Unit(g, g.zero);
    InverseIsUnique(g, g.add(a, b), g.add(g.neg(a), g.neg(b)));
  }

  // ----- Multiples -----

  function Times<G>(g: Group<G>, n: nat, p: G): G {
    if n == 0 then g.zero else g.add(Times(g, n - 1, p), p)
  }

  function Multiple<G>(g: Group<G>, n: int, p: G): G {
    if n >= 0 then Times(g, n, p) else g.neg(Times(g, -n, p))
  }

  lemma {:induction false} MultipleStep<G(!new)>(g: Group<G>, n: int, p: G)
    requires IsAbelian(g)
    ensures Multiple(g, n + 1, p) == g.add(Multiple(g, n, p), p)
  {
    hide IsAbelian;
    if n < -1 {
      var t := Times(g, -n - 1, p);
      NegSum(g, t, p);
      Assoc(g, g.neg(t), g.neg(p), p);
      Inverse(g, p);
      Unit(g, g.neg(t));
    } else if n == -1 {
      assert Times(g, 1, p) == g.add(Times(g, 0, p), p);
      Unit(g, p);
      Inverse(g, p);
    }
  }

  lemma {:induction false} MultipleSum<G(!new)>(g: Group<G>, a: int, b: int, p: G)
    requires IsAbelian(g)
    ensures Multiple(g, a + b, p) == g.add(Multiple(g, a, p), Multiple(g, b, p))
    decreases if b < 0 then -b else b
  {
    hide IsAbelian;
    if b == 0 {
      Unit(g, Multiple(g, a, p));
    } else if b > 0 {
      MultipleSum(g, a, b - 1, p);
      MultipleStep(g, a + b - 1, p);
      MultipleStep(g, b - 1, p);
      Assoc(g, Multiple(g, a, p), Multiple(g, b - 1, p), p);
    } else {
      MultipleSum(g, a, b + 1, p);
      MultipleStep(g, a + b, p);
      MultipleStep(g, b, p);
      var x, y := Multiple(g, a, p), Multiple(g, b, p);
      Assoc(g, x, y, p);
      Cancel(g, Multiple(g, a + b, p), g.add(x, y), p);
    }
  }

  lemma Cancel<G(!new)>(g: Group<G>, a: G, b: G, p: G)
    requires IsAbelian(g) && g.add(a, p) == g.add(b, p)
    ensures a == b
  {
    hide IsAbelian;
    Assoc(g, a, p, g.neg(p));
    Assoc(g, b, p, g.neg(p));
    Inverse(g, p);
    Unit(g, a);
    Unit(g, b);
  }

  lemma {:induction false} MultipleOfSum<G(!new)>(g: Group<G>, n: int, p: G, q: G)
    requires IsAbelian(g)
    ensures Multiple(g, n, g.add(p, q)) == g.add(Multiple(g, n, p), Multiple(g, n, q))
    decreases if n < 0 then -n else n
  {
    hide IsAbelian;
    if n == 0 {
      Unit(g, g.zero);
    } else if n > 0 {
      MultipleOfSum(g, n - 1, p, q);
      Exchange(g, Multiple(g, n - 1, p), Multiple(g, n - 1, q), p, q);
      MultipleStep(g, n - 1, p);
      MultipleStep(g, n - 1, q);
      MultipleStep(g, n - 1, g.add(p, q));
    } else {
      MultipleOfSum(g, n + 1, p, q);
      MultipleStep(g, n, p);
      MultipleStep(g, n, q);
      MultipleStep(g, n, g.add(p, q));
      var x, y := Multiple(g, n, p), Multiple(g, n, q);
      Exchange(g, x, y, p, q);
      Cancel(g, Multiple(g, n, g.add(p, q)), g.add(x, y), g.add(p, q));
    }
  }

  lemma MultipleNeg<G(!new)>(g: Group<G>, n: int, p: G)
    requires IsAbelian(g)
    ensures Multiple(g, -n, p) == g.neg(Multiple(g, n, p))
  {
    hide IsAbelian;
    MultipleSum(g, n, -n, p);
    InverseIsUnique(g, Multiple(g, n, p), Multiple(g, -n, p));
  }

  lemma MultipleOne<G(!new)>(g: Group<G>, p: G)
    requires IsAbelian(g)
    ensures Multiple(g, 1, p) == p && Multiple(g, 2, p) == g.add(p, p)
  {
    hide IsAbelian;
    Unit(g, p);
    MultipleStep(g, 0, p);
    MultipleStep(g, 1, p);
  }

  lemma MultipleZero<G(!new)>(g: Group<G>, p: G)
    ensures Multiple(g, 0, p) == g.zero
  {
  }
}
