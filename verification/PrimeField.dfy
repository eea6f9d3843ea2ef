/** The integers modulo P as a field, under the hypothesis that P is prime. */
module PrimeField {
  import opened Words
  import opened FieldElement
  import opened Congruences

  ghost predicate Divides(k: int, n: int)
    requires k != 0
  {
    n % k == 0
  }

  ghost predicate PIsPrime() {
    forall k :: 1 < k < P ==> !Divides(k, P)
  }

  ghost predicate IsRoot(u: int, d: int) {
    Congruent(u * u, d)
  }

  ghost predicate IsNonsquare(d: int) {
    forall u :: !IsRoot(u, d)
  }

  /** A common divisor of a and b that is a combination of them. */
  lemma {:induction false} Bezout(a: nat, b: nat) returns (g: nat, x: int, y: int)
    requires a > 0
    ensures g > 0 && g == a * x + b * y && Divides(g, a) && Divides(g, b)
    decreases b
  {
    if b == 0 {
      g, x, y := a, 1, 0;
      assert a % a == 0 by { DivModUnique(a, a, 1, 0); }
    } else {
      var q, r := a / b, a % b;
      RemainderIsSmall(a, b);
      var u, v;
      g, u, v := Bezout(b, r);
      x, y := v, u - q * v;
      Combination(a, b, q, r, u, v);
      DividesSum(g, b, r, q);
    }
  }

  lemma RemainderIsSmall(a: nat, b: nat)
    requires b > 0
    ensures 0 <= a % b < b && a == b * (a / b) + a % b
  {
  }

  lemma Combination(a: int, b: int, q: int, r: int, u: int, v: int)
    requires a == b * q + r
    ensures b * u + r * v == a * v + b * (u - q * v)
  {
    assert r * v == a * v - (b * q) * v;
    MulAssociates(b, q, v);
  }

  lemma DividesSum(g: nat, b: int, r: int, q: int)
    requires g > 0 && Divides(g, b) && Divides(g, r)
    ensures Divides(g, b * q + r)
  {
    var m, n := b / g, r / g;
    assert b == g * m && r == g * n;
    MulAssociates(g, m, q);
    assert b * q + r == g * (m * q + n);
    DivModUnique(b * q + r, g, m * q + n, 0);
  }

  lemma Inverse(w: int) returns (v: int)
    requires PIsPrime() && !Congruent(w, 0)
    ensures Congruent(v * w, 1)
  {
    var a, g, x := w % P, 0, 0;
    CongruentExactly(w, 0);
    g, x, v := Bezout(P, a);
    DivisorIsOne(g, a);
    var q := w / P;
    assert w == P * q + a;
    ByQuotient(v, w, a, q, x);
  }

  lemma DivisorIsOne(g: nat, a: int)
    requires PIsPrime() && 0 < a < P && g > 0 && Divides(g, P) && Divides(g, a)
    ensures g == 1
  {
    var k := a / g;
    assert a == g * k;
    if g > a {
      if k > 0 {
        MulAtLeast(g, k);
      }
      assert false;
    }
  }

  lemma ByQuotient(v: int, w: int, a: int, q: int, x: int)
    requires w == P * q + a && 1 == P * x + a * v
    ensures Congruent(v * w, 1)
  {
    assert v * w == P * (q * v) + a * v;
    CongruentByQuotient(v * w, 1, q * v - x);
  }

  lemma NoZeroDivisors(a: int, b: int)
    requires PIsPrime() && Congruent(a * b, 0)
    ensures Congruent(a, 0) || Congruent(b, 0)
  {
    hide FieldElement.Congruent, PIsPrime;
    if !Congruent(a, 0) {
      var v := Inverse(a);
      Reflexive(v);
      Reflexive(b);
      CongruentMul(v, v, a * b, 0);
      CongruentMul(v * a, 1, b, b);
      MulAssociates(v, a, b);
      CongruentSym(v * (a * b), b);
      CongruentTrans(b, v * (a * b), 0);
    }
  }

  lemma CongruentSym(a: int, b: int)
    requires Congruent(a, b)
    ensures Congruent(b, a)
  {
    var k := CongruentQuotient(a, b);
    CongruentByQuotient(b, a, -k);
  }

  /** If u^2 = d w^2 for a nonsquare d, then w is zero. */
  lemma NonsquareRatio(u: int, w: int, d: int)
    requires PIsPrime() && IsNonsquare(d) && Congruent(u * u, d * (w * w))
    ensures Congruent(w, 0)
  {
    hide FieldElement.Congruent, PIsPrime;
    if !Congruent(w, 0) {
      var v := Inverse(w);
      Reflexive(v * v);
      Reflexive(d);
      CongruentMul(v * v, v * v, u * u, d * (w * w));
      CongruentMul(v * w, 1, v * w, 1);
      CongruentMul(d, d, (v * w) * (v * w), 1);
      Regroup(u, v, w, d);
      NotRoot(v * u, d);
      CongruentTrans((v * u) * (v * u), d * ((v * w) * (v * w)), d);
    }
  }

  lemma NotRoot(u: int, d: int)
    requires IsNonsquare(d)
    ensures !Congruent(u * u, d)
  {
    assert !IsRoot(u, d);
  }

  lemma Regroup(u: int, v: int, w: int, d: int)
    ensures (v * v) * (u * u) == (v * u) * (v * u)
    ensures (v * v) * (d * (w * w)) == d * ((v * w) * (v * w))
  {
  }
}
