/** Commutative groups and multiples of their elements: what the ge_* formulas of src/crypto/crypto-ops.c
    are taken to compute in. Every result about scalar multiplication holds in any such group. */
module Groups {

  datatype Group<!G(!new)> = Group(zero: G, add: (G, G) -> G, neg: G -> G) {

    ghost predicate Commutative() {
      && (forall x, y :: add(x, y) == add(y, x))
      && (forall x, y, z :: add(add(x, y), z) == add(x, add(y, z)))
      && (forall x :: add(x, zero) == x)
      && (forall x :: add(x, neg(x)) == zero)
    }

    function Sub(x: G, y: G): G {
      add(x, neg(y))
    }

    /** n * x */
    ghost function Times(n: int, x: G): G
      decreases n < 0, if n < 0 then -n else n
    {
      if n == 0 then zero
      else if n > 0 then add(Times(n - 1, x), x)
      else neg(Times(-n, x))
    }
  }

  // The laws one at a time, so that proofs use no more of them than they name.

  lemma Commutes<G(!new)>(g: Group<G>, x: G, y: G)
    requires g.Commutative()
    ensures g.add(x, y) == g.add(y, x)
  {
  }

  lemma Associates<G(!new)>(g: Group<G>, x: G, y: G, z: G)
    requires g.Commutative()
    ensures g.add(g.add(x, y), z) == g.add(x, g.add(y, z))
  {
  }

  lemma Zero<G(!new)>(g: Group<G>, x: G)
    requires g.Commutative()
    ensures g.add(x, g.zero) == x == g.add(g.zero, x)
  {
  }

  lemma Inverse<G(!new)>(g: Group<G>, x: G)
    requires g.Commutative()
    ensures g.add(x, g.neg(x)) == g.zero == g.add(g.neg(x), x)
  {
  }

  /** (a + b) + (c + d) == (a + c) + (b + d) */
  lemma Interchange<G(!new)>(g: Group<G>, a: G, b: G, c: G, d: G)
    requires g.Commutative()
    ensures g.add(g.add(a, b), g.add(c, d)) == g.add(g.add(a, c), g.add(b, d))
  {
    hide Group.Commutative;
    calc {
      g.add(g.add(a, b), g.add(c, d));
      { Associates(g, a, b, g.add(c, d)); }
      g.add(a, g.add(b, g.add(c, d)));
      { Associates(g, b, c, d); Commutes(g, b, c); Associates(g, c, b, d); }
      g.add(a, g.add(c, g.add(b, d)));
      { Associates(g, a, c, g.add(b, d)); }
      g.add(g.add(a, c), g.add(b, d));
    }
  }

  lemma Cancel<G(!new)>(g: Group<G>, x: G, y: G)
    requires g.Commutative() && g.add(x, y) == g.zero
    ensures y == g.neg(x)
  {
    hide Group.Commutative;
    calc {
      y;
      { Zero(g, y); Inverse(g, x); }
      g.add(g.add(g.neg(x), x), y);
      { Associates(g, g.neg(x), x, y); }
      g.add(g.neg(x), g.zero);
      { Zero(g, g.neg(x)); }
      g.neg(x);
    }
  }

  lemma NegAdds<G(!new)>(g: Group<G>, x: G, y: G)
    requires g.Commutative()
    ensures g.neg(g.add(x, y)) == g.add(g.neg(x), g.neg(y))
  {
    hide Group.Commutative;
    Interchange(g, x, y, g.neg(x), g.neg(y));
    Inverse(g, x);
    Inverse(g, y);
    Zero(g, g.zero);
    Cancel(g, g.add(x, y), g.add(g.neg(x), g.neg(y)));
  }

  lemma NegNeg<G(!new)>(g: Group<G>, x: G)
    requires g.Commutative()
    ensures g.neg(g.neg(x)) == x
  {
    hide Group.Commutative;
    Inverse(g, x);
    Cancel(g, g.neg(x), x);
  }

  lemma NegZero<G(!new)>(g: Group<G>)
    requires g.Commutative()
    ensures g.neg(g.zero) == g.zero
  {
    hide Group.Commutative;
    Zero(g, g.zero);
    Cancel(g, g.zero, g.zero);
  }

  // ---------------------------------------------------------------------------
  // Multiples
  // ---------------------------------------------------------------------------

  lemma TimesNeg<G(!new)>(g: Group<G>, n: int, x: G)
    requires g.Commutative()
    ensures g.Times(-n, x) == g.neg(g.Times(n, x))
  {
    hide Group.Commutative;
    NegZero(g);
    if n < 0 {
      NegNeg(g, g.Times(-n, x));
    }
  }

  lemma TimesSucc<G(!new)>(g: Group<G>, n: int, x: G)
    requires g.Commutative()
    ensures g.Times(n + 1, x) == g.add(g.Times(n, x), x)
  {
    if n < 0 {
      var y := g.Times(-n - 1, x);
      assert g.Times(-n, x) == g.add(y, x);
      assert g.Times(n + 1, x) == g.neg(y) by { hide Group.Commutative; TimesNeg(g, -n - 1, x); }
      hide Group.Commutative, Group.Times;
      TimesNeg(g, -n, x);
      calc {
        g.add(g.neg(g.add(y, x)), x);
        { NegAdds(g, y, x); Associates(g, g.neg(y), g.neg(x), x); }
        g.add(g.neg(y), g.add(g.neg(x), x));
        { Inverse(g, x); Zero(g, g.neg(y)); }
        g.neg(y);
      }
    }
  }

  lemma {:induction false} TimesAdd<G(!new)>(g: Group<G>, m: int, n: int, x: G)
    requires g.Commutative()
    ensures g.Times(m + n, x) == g.add(g.Times(m, x), g.Times(n, x))
    decreases n < 0, if n < 0 then -n else n
  {
    if n == 0 {
      hide Group.Commutative;
      Zero(g, g.Times(m, x));
    } else if n > 0 {
      hide Group.Commutative, Group.Times;
      TimesAdd(g, m, n - 1, x);
      TimesSucc(g, n - 1, x);
      TimesSucc(g, m + n - 1, x);
      Associates(g, g.Times(m, x), g.Times(n - 1, x), x);
    } else {
      hide Group.Commutative, Group.Times;
      TimesAdd(g, -m, -n, x);
      TimesNeg(g, m + n, x);
      TimesNeg(g, m, x);
      TimesNeg(g, n, x);
      NegAdds(g, g.Times(m, x), g.Times(n, x));
      NegNeg(g, g.Times(m + n, x));
      NegNeg(g, g.add(g.Times(m, x), g.Times(n, x)));
    }
  }

  lemma {:induction false} TimesTimes<G(!new)>(g: Group<G>, m: int, n: int, x: G)
    requires g.Commutative()
    ensures g.Times(m * n, x) == g.Times(m, g.Times(n, x))
    decreases m < 0, if m < 0 then -m else m
  {
    hide Group.Commutative;
    if m == 0 {
    } else if m > 0 {
      hide Group.Times;
      TimesTimes(g, m - 1, n, x);
      assert m * n == (m - 1) * n + n;
      TimesAdd(g, (m - 1) * n, n, x);
      TimesSucc(g, m - 1, g.Times(n, x));
    } else {
      hide Group.Commutative, Group.Times;
      TimesTimes(g, -m, n, x);
      assert m * n == -((-m) * n);
      TimesNeg(g, (-m) * n, x);
      TimesNeg(g, -m, g.Times(n, x));
    }
  }

  lemma {:induction false} TimesSum<G(!new)>(g: Group<G>, n: int, x: G, y: G)
    requires g.Commutative()
    ensures g.Times(n, g.add(x, y)) == g.add(g.Times(n, x), g.Times(n, y))
    decreases n < 0, if n < 0 then -n else n
  {
    if n == 0 {
      hide Group.Commutative;
      Zero(g, g.zero);
    } else if n > 0 {
      hide Group.Commutative, Group.Times;
      TimesSum(g, n - 1, x, y);
      TimesSucc(g, n - 1, g.add(x, y));
      TimesSucc(g, n - 1, x);
      TimesSucc(g, n - 1, y);
      Interchange(g, g.Times(n - 1, x), g.Times(n - 1, y), x, y);
    } else {
      hide Group.Commutative, Group.Times;
      TimesSum(g, -n, x, y);
      TimesNeg(g, -n, g.add(x, y));
      TimesNeg(g, -n, x);
      TimesNeg(g, -n, y);
      NegAdds(g, g.Times(-n, x), g.Times(-n, y));
    }
  }

  lemma TimesZero<G(!new)>(g: Group<G>, x: G)
    ensures g.Times(0, x) == g.zero
  {
  }

  lemma TimesOne<G(!new)>(g: Group<G>, x: G)
    requires g.Commutative()
    ensures g.Times(1, x) == x
  {
    hide Group.Commutative;
    Zero(g, x);
    assert g.Times(0, x) == g.zero;
  }
}
