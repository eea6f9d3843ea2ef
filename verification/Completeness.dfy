/** The addition law of the curve is complete: no denominator of the formulas of src/crypto/crypto-ops.c vanishes at
    points of the curve, P being prime, d not a square and -1 a square modulo P. */
module Completeness {
  import opened Words
  import opened FieldElement
  import opened Congruences
  import opened CurveEquation
  import opened PrimeField

  /** The hypotheses about the field, with a root of -1. */
  ghost predicate Hypotheses(d: int, i: int) {
    PIsPrime() && IsNonsquare(d) && Congruent(i * i, -1)
  }

  ghost predicate Zero(a: int) {
    Congruent(a, 0)
  }

  lemma ZeroProduct(a: int, b: int)
    requires PIsPrime()
    ensures Zero(a * b) <==> Zero(a) || Zero(b)
  {
    hide FieldElement.Congruent, PIsPrime;
    Reflexive(a);
    Reflexive(b);
    if Zero(a) {
      CongruentMul(a, 0, b, b);
    } else if Zero(b) {
      CongruentMul(a, a, b, 0);
    } else if Zero(a * b) {
      NoZeroDivisors(a, b);
    }
  }

  lemma ZeroIfCongruent(a: int, b: int)
    requires Congruent(a, b)
    ensures Zero(a) <==> Zero(b)
  {
    hide FieldElement.Congruent;
    CongruentSym(a, b);
    if Zero(a) {
      CongruentTrans(b, a, 0);
    }
    if Zero(b) {
      CongruentTrans(a, b, 0);
    }
  }

  // ---------------------------------------------------------------------------
  // The argument
  // ---------------------------------------------------------------------------

  /** (i x + s y)^2 = z^2 + d t^2 + 2 i s z t for a point and a sign s. */
  lemma SquareAtPoint(x: int, y: int, z: int, t: int, d: int, i: int, s: int)
    requires OnCurve(x, y, z, t, d) && Congruent(i * i, -1) && s * s == 1
    ensures Congruent((i * x + s * y) * (i * x + s * y), z * z + d * (t * t) + 2 * (i * s) * (z * t))
  {
    hide FieldElement.Congruent;
    Binomial(i, x, s, y);
    Reflexive(x * x);
    Reflexive(y * y);
    Reflexive(2 * (i * s));
    CongruentMul(i * i, -1, x * x, x * x);
    CongruentAdd(y * y, y * y, (i * i) * (x * x), -1 * (x * x));
    assert y * y + -1 * (x * x) == y * y - x * x;
    CongruentTrans(y * y + (i * i) * (x * x), y * y - x * x, z * z + d * (t * t));
    CongruentMul(2 * (i * s), 2 * (i * s), x * y, z * t);
    CongruentAdd(y * y + (i * i) * (x * x), z * z + d * (t * t), 2 * (i * s) * (x * y), 2 * (i * s) * (z * t));
  }

  lemma Binomial(i: int, x: int, s: int, y: int)
    requires s * s == 1
    ensures (i * x + s * y) * (i * x + s * y) == y * y + (i * i) * (x * x) + 2 * (i * s) * (x * y)
  {
    assert (i * x) * (i * x) == (i * i) * (x * x) && (s * y) * (s * y) == (s * s) * (y * y);
    assert (i * x) * (s * y) == (i * s) * (x * y);
    assert (s * s) * (y * y) == y * y;
    SquareOfTwo(i * x, s * y);
  }

  lemma SquareOfTwo(a: int, b: int)
    ensures (a + b) * (a + b) == a * a + 2 * (a * b) + b * b
  {
  }

  /** z2^2 (z1^2 + d t1^2 + e n z1 t1) and d t1^2 (z2^2 + d t2^2 + n z2 t2) differ by a multiple of
      e z1 z2 - d t1 t2. */
  lemma SquaresDiffer(z1: int, t1: int, z2: int, t2: int, d: int, n: int, e: int)
    requires e * e == 1
    ensures (z2 * z2) * (z1 * z1 + d * (t1 * t1) + (e * n) * (z1 * t1)) -
            d * ((t1 * t1) * (z2 * z2 + d * (t2 * t2) + n * (z2 * t2))) ==
            (e * (z1 * z2) - d * (t1 * t2)) * (e * (z1 * z2) + d * (t1 * t2) + n * (t1 * z2))
  {
    LeftTerm(z1, t1, z2, d, e * n);
    RightTerm(t1, z2, t2, d, n);
    Factored(z1 * z2, d * (t1 * t2), t1 * z2, n, e);
  }

  lemma LeftTerm(z1: int, t1: int, z2: int, d: int, m: int)
    ensures (z2 * z2) * (z1 * z1 + d * (t1 * t1) + m * (z1 * t1)) ==
            (z1 * z2) * (z1 * z2) + d * ((t1 * z2) * (t1 * z2)) + m * ((z1 * z2) * (t1 * z2))
  {
    SquareOfProduct(z1, z2);
    SquareOfProduct(t1, z2);
    assert (z2 * z2) * (m * (z1 * t1)) == m * ((z1 * z2) * (t1 * z2));
  }

  lemma RightTerm(t1: int, z2: int, t2: int, d: int, n: int)
    ensures d * ((t1 * t1) * (z2 * z2 + d * (t2 * t2) + n * (z2 * t2))) ==
            d * ((t1 * z2) * (t1 * z2)) + (d * (t1 * t2)) * (d * (t1 * t2)) + n * ((d * (t1 * t2)) * (t1 * z2))
  {
    SquareOfProduct(t1, z2);
    SquareOfProduct(t1, t2);
    SquareOfProduct(d, t1 * t2);
    CrossTerm(t1, z2, t2, d, n);
    Distributed(d, t1 * t1, z2 * z2, t2 * t2, n * (z2 * t2));
  }

  lemma SquareOfProduct(a: int, b: int)
    ensures (a * a) * (b * b) == (a * b) * (a * b)
  {
  }

  lemma CrossTerm(t1: int, z2: int, t2: int, d: int, n: int)
    ensures d * ((t1 * t1) * (n * (z2 * t2))) == n * ((d * (t1 * t2)) * (t1 * z2))
  {
    assert (t1 * t1) * (z2 * t2) == (t1 * t2) * (t1 * z2);
    var k := (t1 * t2) * (t1 * z2);
    assert (t1 * t1) * (n * (z2 * t2)) == n * k;
    assert d * (n * k) == n * (d * k);
    assert (d * (t1 * t2)) * (t1 * z2) == d * k;
  }

  lemma Distributed(d: int, T: int, Z: int, U: int, c: int)
    ensures d * (T * (Z + d * U + c)) == d * (T * Z) + (d * d) * (T * U) + d * (T * c)
  {
    assert T * (Z + d * U + c) == T * Z + d * (T * U) + T * c;
    assert d * (d * (T * U)) == (d * d) * (T * U);
  }

  lemma Factored(A: int, B: int, F: int, n: int, e: int)
    requires e * e == 1
    ensures A * A + (e * n) * (A * F) - B * B - n * (B * F) == (e * A - B) * (e * A + B + n * F)
  {
    assert (e * A) * (e * A) == (e * e) * (A * A) == A * A;
    assert (e * A) * (n * F) == (e * n) * (A * F) && B * (n * F) == n * (B * F);
    SumTimesDifference(e * A, B, n * F);
  }

  lemma SumTimesDifference(a: int, b: int, c: int)
    ensures (a - b) * (a + b + c) == a * a - b * b + a * c - b * c
  {
  }

  /** If d t1 t2 = e z1 z2 for a sign e, then t1 (i x2 + s y2) vanishes for both signs s: otherwise d would be a
      square. */
  lemma Vanishes(x1: int, y1: int, z1: int, t1: int, x2: int, y2: int, z2: int, t2: int, d: int, i: int, e: int, s: int)
    requires Hypotheses(d, i) && OnCurve(x1, y1, z1, t1, d) && OnCurve(x2, y2, z2, t2, d)
    requires e * e == 1 && s * s == 1 && Zero(e * (z1 * z2) - d * (t1 * t2))
    ensures Zero(t1 * (i * x2 + s * y2))
  {
    hide FieldElement.Congruent, OnCurve, PIsPrime, IsNonsquare;
    var n := 2 * (i * s);
    var p, q := i * x1 + (e * s) * y1, i * x2 + s * y2;
    var v1, v2 := z1 * z1 + d * (t1 * t1) + (e * n) * (z1 * t1), z2 * z2 + d * (t2 * t2) + n * (z2 * t2);
    SignProduct(e, s, i);
    SquareAtPoint(x1, y1, z1, t1, d, i, e * s);
    SquareAtPoint(x2, y2, z2, t2, d, i, s);
    Reflexive(z2 * z2);
    Reflexive(t1 * t1);
    Reflexive(d);
    CongruentMul(z2 * z2, z2 * z2, p * p, v1);
    CongruentMul(t1 * t1, t1 * t1, q * q, v2);
    CongruentMul(d, d, (t1 * t1) * (q * q), (t1 * t1) * v2);
    SquaresDiffer(z1, t1, z2, t2, d, n, e);
    MultipleOfZero(e * (z1 * z2) - d * (t1 * t2), e * (z1 * z2) + d * (t1 * t2) + n * (t1 * z2));
    Meeting((z2 * z2) * (p * p), (z2 * z2) * v1, d * ((t1 * t1) * (q * q)), d * ((t1 * t1) * v2));
    SquareOfProduct(z2, p);
    SquareOfProduct(t1, q);
    NonsquareRatio(z2 * p, t1 * q, d);
  }

  lemma SignProduct(e: int, s: int, i: int)
    requires e * e == 1 && s * s == 1
    ensures (e * s) * (e * s) == 1 && 2 * (i * (e * s)) == e * (2 * (i * s))
  {
    assert (e * s) * (e * s) == (e * e) * (s * s);
  }

  lemma MultipleOfZero(a: int, b: int)
    requires Zero(a)
    ensures Zero(a * b)
  {
    Reflexive(b);
    CongruentMul(a, 0, b, b);
  }

  lemma Meeting(l: int, l': int, r: int, r': int)
    requires Congruent(l, l') && Congruent(r, r') && Zero(l' - r')
    ensures Congruent(l, r)
  {
    var k := CongruentQuotient(l, l');
    var m := CongruentQuotient(r, r');
    var n := CongruentQuotient(l' - r', 0);
    CongruentByQuotient(l, r, k - m + n);
  }

  /** So it cannot be: both would make x2, and with it z2 t2, vanish. */
  lemma NeverMeets(x1: int, y1: int, z1: int, t1: int, x2: int, y2: int, z2: int, t2: int, d: int, i: int, e: int)
    requires Hypotheses(d, i) && OnCurve(x1, y1, z1, t1, d) && OnCurve(x2, y2, z2, t2, d)
    requires e * e == 1 && !Zero(z1) && !Zero(z2)
    ensures !Zero(e * (z1 * z2) - d * (t1 * t2))
  {
    hide FieldElement.Congruent, PIsPrime, IsNonsquare;
    if Zero(e * (z1 * z2) - d * (t1 * t2)) {
      hide OnCurve;
      TsAreNonzero(z1, t1, z2, t2, d, e);
      Vanishes(x1, y1, z1, t1, x2, y2, z2, t2, d, i, e, 1);
      Vanishes(x1, y1, z1, t1, x2, y2, z2, t2, d, i, e, -1);
      ZeroProduct(t1, i * x2 + 1 * y2);
      ZeroProduct(t1, i * x2 + -1 * y2);
      BothVanish(x2, y2, i);
      ZeroProduct(x2, y2);
      ZeroProduct(z2, t2);
      ProductsAgree(x2, y2, z2, t2, d);
    }
  }

  lemma ProductsAgree(x: int, y: int, z: int, t: int, d: int)
    requires OnCurve(x, y, z, t, d)
    ensures Zero(x * y) <==> Zero(z * t)
  {
    hide FieldElement.Congruent;
    ZeroIfCongruent(x * y, z * t);
  }

  lemma TsAreNonzero(z1: int, t1: int, z2: int, t2: int, d: int, e: int)
    requires PIsPrime() && e * e == 1 && !Zero(z1) && !Zero(z2) && Zero(e * (z1 * z2) - d * (t1 * t2))
    ensures !Zero(t1) && !Zero(t2)
  {
    hide FieldElement.Congruent, PIsPrime;
    ZeroProduct(z1, z2);
    SignIsNonzero(e);
    ZeroProduct(e, z1 * z2);
    Reflexive(d * (t1 * t2));
    CongruentAdd(e * (z1 * z2) - d * (t1 * t2), 0, d * (t1 * t2), d * (t1 * t2));
    ZeroIfCongruent(e * (z1 * z2), d * (t1 * t2));
    ZeroProduct(d, t1 * t2);
    ZeroProduct(t1, t2);
  }

  lemma SignIsNonzero(e: int)
    requires e * e == 1
    ensures !Zero(e)
  {
    hide FieldElement.Congruent;
    if e > 1 || e < -1 {
      SquareExceedsOne(e);
    }
    SmallIsNotZero(e);
  }

  lemma SquareExceedsOne(e: int)
    requires e > 1 || e < -1
    ensures e * e > 1
  {
  }

  lemma BothVanish(x: int, y: int, i: int)
    requires PIsPrime() && Congruent(i * i, -1) && Zero(i * x + 1 * y) && Zero(i * x + -1 * y)
    ensures Zero(x)
  {
    hide FieldElement.Congruent, PIsPrime;
    SmallIsNotZero(2);
    SmallIsNotZero(-1);
    CongruentAdd(i * x + 1 * y, 0, i * x + -1 * y, 0);
    assert (i * x + 1 * y) + (i * x + -1 * y) == 2 * (i * x);
    ZeroProduct(2, i * x);
    ZeroProduct(i, x);
    ZeroProduct(i, i);
    ZeroIfCongruent(i * i, -1);
  }

  lemma SmallIsNotZero(z: int)
    requires -P < z < P && z != 0
    ensures !Zero(z)
  {
    CongruentExactly(z, 0);
  }

  /** Completeness: at points of the curve no denominator of the sum vanishes. */
  lemma DenominatorsAreNonzero(x1: int, y1: int, z1: int, t1: int, x2: int, y2: int, z2: int, t2: int, d: int, i: int)
    requires Hypotheses(d, i) && OnCurve(x1, y1, z1, t1, d) && OnCurve(x2, y2, z2, t2, d) && !Zero(z1) && !Zero(z2)
    ensures !Zero(z1 * z2 + d * (t1 * t2)) && !Zero(z1 * z2 - d * (t1 * t2))
  {
    hide FieldElement.Congruent, OnCurve, Hypotheses;
    NeverMeets(x1, y1, z1, t1, x2, y2, z2, t2, d, i, 1);
    NeverMeets(x1, y1, z1, t1, x2, y2, z2, t2, d, i, -1);
    if Zero(z1 * z2 + d * (t1 * t2)) {
      CongruentNeg(z1 * z2 + d * (t1 * t2), 0);
    }
  }

  // ---------------------------------------------------------------------------
  // Sums of points
  // ---------------------------------------------------------------------------

  /** The denominators of the formulas, and with them Z of the sum, are nonzero. */
  lemma SumIsNonzero(k: int, rx: int, ry: int, rz: int, x1: int, y1: int, z1: int, t1: int,
                     x2: int, y2: int, z2: int, t2: int, d: int, d2: int, i: int)
    requires Hypotheses(d, i) && OnCurve(x1, y1, z1, t1, d) && OnCurve(x2, y2, z2, t2, d) && !Zero(z1) && !Zero(z2)
    requires Sum(k, rx, ry, rz, x1, y1, z1, t1, x2, y2, z2, t2, d2) && Congruent(d2, 2 * d)
    ensures !Zero(2 * (z1 * z2) + t2 * d2 * t1) && !Zero(2 * (z1 * z2) - t2 * d2 * t1) && !Zero(rz)
  {
    hide FieldElement.Congruent, OnCurve, PIsPrime, IsNonsquare;
    SmallIsNotZero(2);
    var w, c, m := z1 * z2, t2 * d2 * t1, d * (t1 * t2);
    DenominatorsAreNonzero(x1, y1, z1, t1, x2, y2, z2, t2, d, i);
    Reflexive(t2 * d2);
    TwiceD(t2 * d2, t2, t1, d, d2);
    Reflexive(2 * w);
    CongruentAdd(2 * w, 2 * w, c, 2 * m);
    ZeroProduct(2, w + m);
    ZeroProduct(2, w - m);
    ZeroIfCongruent(2 * w + c, 2 * (w + m));
    ZeroIfCongruent(2 * w - c, 2 * (w - m));
    ZeroProduct(2 * w + c, 2 * w - c);
    ZeroIfCongruent(k * rz, (2 * w + c) * (2 * w - c));
    ZeroProduct(k, rz);
  }

  lemma Cancel(w: int, a: int, b: int)
    requires PIsPrime() && !Zero(w) && Congruent(w * a, w * b)
    ensures Congruent(a, b)
  {
    hide FieldElement.Congruent, PIsPrime;
    Reflexive(w * b);
    Reflexive(b);
    CongruentAdd(w * a, w * b, w * b, w * b);
    assert w * a - w * b == w * (a - b);
    ZeroProduct(w, a - b);
    CongruentAdd(a - b, 0, b, b);
  }

  /** (a, b) is the affine point of (x : y : z). */
  ghost predicate At(x: int, y: int, z: int, a: int, b: int) {
    Congruent(x, a * z) && Congruent(y, b * z)
  }

  lemma AffineExists(x: int, y: int, z: int) returns (a: int, b: int)
    requires PIsPrime() && !Zero(z)
    ensures At(x, y, z, a, b)
  {
    hide FieldElement.Congruent, PIsPrime;
    var v := Inverse(z);
    a, b := x * v, y * v;
    Divided(x, v, z);
    Divided(y, v, z);
  }

  lemma Divided(x: int, v: int, z: int)
    requires Congruent(v * z, 1)
    ensures Congruent(x, (x * v) * z)
  {
    hide FieldElement.Congruent;
    Reflexive(x);
    CongruentMul(x, x, v * z, 1);
    MulAssociates(x, v, z);
    CongruentSym((x * v) * z, x);
  }

  /** T of a point is x y Z. */
  lemma ThirdCoordinate(x: int, y: int, z: int, t: int, d: int, a: int, b: int)
    requires PIsPrime() && OnCurve(x, y, z, t, d) && !Zero(z) && At(x, y, z, a, b)
    ensures Congruent(t, (a * b) * z)
  {
    hide FieldElement.Congruent, PIsPrime;
    CongruentMul(x, a * z, y, b * z);
    ScaledProduct(a, b, z);
    CongruentSym(x * y, z * t);
    CongruentTrans(z * t, x * y, z * ((a * b) * z));
    Cancel(z, t, (a * b) * z);
  }

  lemma ScaledProduct(a: int, b: int, z: int)
    ensures (a * z) * (b * z) == z * ((a * b) * z)
  {
  }

  lemma AffineIsUnique(x: int, y: int, z: int, a: int, b: int, a': int, b': int)
    requires PIsPrime() && !Zero(z) && At(x, y, z, a, b) && At(x, y, z, a', b')
    ensures Congruent(a, a') && Congruent(b, b')
  {
    hide FieldElement.Congruent, PIsPrime;
    QuotientIsUnique(x, z, a, a');
    QuotientIsUnique(y, z, b, b');
  }

  lemma QuotientIsUnique(x: int, z: int, a: int, a': int)
    requires PIsPrime() && !Zero(z) && Congruent(x, a * z) && Congruent(x, a' * z)
    ensures Congruent(a, a')
  {
    hide FieldElement.Congruent, PIsPrime;
    CongruentSym(x, a * z);
    CongruentTrans(a * z, x, a' * z);
    Cancel(z, a, a');
  }

  /** The affine point satisfies the equation of the curve. */
  lemma AffineIsOnCurve(x: int, y: int, z: int, t: int, d: int, a: int, b: int)
    requires PIsPrime() && OnCurve(x, y, z, t, d) && !Zero(z) && At(x, y, z, a, b)
    ensures OnCurve(a, b, 1, a * b, d)
  {
    hide FieldElement.Congruent, PIsPrime;
    var w, u, v := z * z, b * b - a * a, 1 + d * ((a * b) * (a * b));
    ThirdCoordinate(x, y, z, t, d, a, b);
    ScaledSquare(x, a, z);
    ScaledSquare(y, b, z);
    ScaledSquare(t, a * b, z);
    CongruentAdd(y * y, w * (b * b), x * x, w * (a * a));
    Reflexive(d);
    CongruentMul(d, d, t * t, w * ((a * b) * (a * b)));
    Reflexive(w);
    CongruentAdd(w, w, d * (t * t), d * (w * ((a * b) * (a * b))));
    Collected(w, a * a, b * b, d, (a * b) * (a * b));
    CongruentSym(y * y - x * x, w * u);
    CongruentTrans(w * u, y * y - x * x, w + d * (t * t));
    CongruentTrans(w * u, w + d * (t * t), w * v);
    ZeroProduct(z, z);
    Cancel(w, u, v);
    Reflexive(a * b);
  }

  lemma ScaledSquare(x: int, a: int, z: int)
    requires Congruent(x, a * z)
    ensures Congruent(x * x, (z * z) * (a * a))
  {
    hide FieldElement.Congruent;
    CongruentMul(x, a * z, x, a * z);
    SquareOfProduct(a, z);
  }

  lemma Collected(w: int, m: int, n: int, d: int, k: int)
    ensures w * n - w * m == w * (n - m) && w + d * (w * k) == w * (1 + d * k)
  {
    MulAssociates(d, w, k);
    MulAssociates(w, d, k);
  }

  /** The law of section 5.1.4 of RFC 8032, whose denominators do not vanish, is what the formulas compute:
      a3 = (a1 b2 + b1 a2) / (1 + d a1 b1 a2 b2) and b3 = (b1 b2 + a1 a2) / (1 - d a1 b1 a2 b2). */
  lemma AffineLaw(k: int, rx: int, ry: int, rz: int, x1: int, y1: int, z1: int, t1: int, x2: int, y2: int, z2: int,
                  t2: int, d: int, d2: int, i: int, a1: int, b1: int, a2: int, b2: int, a3: int, b3: int)
    requires Hypotheses(d, i) && OnCurve(x1, y1, z1, t1, d) && OnCurve(x2, y2, z2, t2, d) && !Zero(z1) && !Zero(z2)
    requires Sum(k, rx, ry, rz, x1, y1, z1, t1, x2, y2, z2, t2, d2) && Congruent(d2, 2 * d)
    requires At(x1, y1, z1, a1, b1) && At(x2, y2, z2, a2, b2) && At(rx, ry, rz, a3, b3)
    ensures AffineSum(a1, b1, a2, b2, a3, b3, d)
  {
    hide FieldElement.Congruent, OnCurve, PIsPrime, IsNonsquare, AffineSum, Quotients, At;
    var w, c, m := z1 * z2, t2 * d2 * t1, d * ((a1 * b1) * (a2 * b2));
    SumIsNonzero(k, rx, ry, rz, x1, y1, z1, t1, x2, y2, z2, t2, d, d2, i);
    ThirdCoordinate(x1, y1, z1, t1, d, a1, b1);
    ThirdCoordinate(x2, y2, z2, t2, d, a2, b2);
    Denominator(z1, t1, z2, t2, a1 * b1, a2 * b2, d, d2);
    Numerators(x1, y1, z1, x2, y2, z2, a1, b1, a2, b2);
    FromQuotients(k, rx, ry, rz, 2 * (x1 * y2 + y1 * x2), 2 * w + c, 2 * (y1 * y2 + x1 * x2), 2 * w - c, a3, b3);
    ZeroProduct(2 * w, 1 + m);
    ZeroProduct(2 * w, 1 - m);
    ZeroIfCongruent(2 * w + c, (2 * w) * (1 + m));
    ZeroIfCongruent(2 * w - c, (2 * w) * (1 - m));
    FactorCancels(2 * w, a3, 2 * w + c, 1 + m, 2 * (x1 * y2 + y1 * x2), a1 * b2 + b1 * a2);
    FactorCancels(2 * w, b3, 2 * w - c, 1 - m, 2 * (y1 * y2 + x1 * x2), b1 * b2 + a1 * a2);
    IsAffineSum(a1, b1, a2, b2, a3, b3, d);
  }

  ghost predicate AffineSum(a1: int, b1: int, a2: int, b2: int, a3: int, b3: int, d: int) {
    var m := d * ((a1 * b1) * (a2 * b2));
    && !Zero(1 + m) && Congruent(a3 * (1 + m), a1 * b2 + b1 * a2)
    && !Zero(1 - m) && Congruent(b3 * (1 - m), b1 * b2 + a1 * a2)
  }

  lemma IsAffineSum(a1: int, b1: int, a2: int, b2: int, a3: int, b3: int, d: int)
    ensures var m := d * ((a1 * b1) * (a2 * b2));
            !Zero(1 + m) && Congruent(a3 * (1 + m), a1 * b2 + b1 * a2) &&
            !Zero(1 - m) && Congruent(b3 * (1 - m), b1 * b2 + a1 * a2)
            ==> AffineSum(a1, b1, a2, b2, a3, b3, d)
  {
  }

  /** a g = e, where g is w g' and e is w e'. */
  lemma FactorCancels(w: int, a: int, g: int, g': int, e: int, e': int)
    requires PIsPrime() && !Zero(w) && Congruent(a * g, e) && Congruent(g, w * g') && Congruent(e, w * e')
    ensures Congruent(a * g', e')
  {
    hide FieldElement.Congruent, PIsPrime;
    Reflexive(a);
    CongruentMul(a, a, g, w * g');
    CongruentSym(a * g, a * (w * g'));
    CongruentTrans(a * (w * g'), a * g, e);
    CongruentTrans(a * (w * g'), e, w * e');
    assert a * (w * g') == w * (a * g');
    Cancel(w, a * g', e');
  }

  lemma Denominator(z1: int, t1: int, z2: int, t2: int, p1: int, p2: int, d: int, d2: int)
    requires Congruent(t1, p1 * z1) && Congruent(t2, p2 * z2) && Congruent(d2, 2 * d)
    ensures var w, c, m := z1 * z2, t2 * d2 * t1, d * (p1 * p2);
            Congruent(2 * w + c, (2 * w) * (1 + m)) && Congruent(2 * w - c, (2 * w) * (1 - m))
  {
    hide FieldElement.Congruent;
    var w, c, m := z1 * z2, t2 * d2 * t1, d * (p1 * p2);
    Reflexive(t2 * d2);
    TwiceD(t2 * d2, t2, t1, d, d2);
    CongruentMul(t1, p1 * z1, t2, p2 * z2);
    Reflexive(d);
    Reflexive(2);
    CongruentMul(d, d, t1 * t2, (p1 * z1) * (p2 * z2));
    CongruentMul(2, 2, d * (t1 * t2), d * ((p1 * z1) * (p2 * z2)));
    CongruentTrans(c, 2 * (d * (t1 * t2)), 2 * (d * ((p1 * z1) * (p2 * z2))));
    Gathered(p1, z1, p2, z2, d);
    Reflexive(2 * w);
    CongruentAdd(2 * w, 2 * w, c, (2 * w) * m);
    assert 2 * w + (2 * w) * m == (2 * w) * (1 + m) && 2 * w - (2 * w) * m == (2 * w) * (1 - m);
  }

  lemma Gathered(p1: int, z1: int, p2: int, z2: int, d: int)
    ensures 2 * (d * ((p1 * z1) * (p2 * z2))) == (2 * (z1 * z2)) * (d * (p1 * p2))
  {
    assert (p1 * z1) * (p2 * z2) == (z1 * z2) * (p1 * p2);
    MulAssociates(d, z1 * z2, p1 * p2);
    MulAssociates(z1 * z2, d, p1 * p2);
  }

  lemma Numerators(x1: int, y1: int, z1: int, x2: int, y2: int, z2: int, a1: int, b1: int, a2: int, b2: int)
    requires At(x1, y1, z1, a1, b1) && At(x2, y2, z2, a2, b2)
    ensures Congruent(2 * (x1 * y2 + y1 * x2), (2 * (z1 * z2)) * (a1 * b2 + b1 * a2))
    ensures Congruent(2 * (y1 * y2 + x1 * x2), (2 * (z1 * z2)) * (b1 * b2 + a1 * a2))
  {
    hide FieldElement.Congruent;
    Numerator(x1, a1, y2, b2, y1, b1, x2, a2, z1, z2);
    Numerator(y1, b1, y2, b2, x1, a1, x2, a2, z1, z2);
  }

  lemma Numerator(u: int, a: int, v: int, b: int, u': int, a': int, v': int, b': int, z1: int, z2: int)
    requires Congruent(u, a * z1) && Congruent(v, b * z2) && Congruent(u', a' * z1) && Congruent(v', b' * z2)
    ensures Congruent(2 * (u * v + u' * v'), (2 * (z1 * z2)) * (a * b + a' * b'))
  {
    hide FieldElement.Congruent;
    CongruentMul(u, a * z1, v, b * z2);
    CongruentMul(u', a' * z1, v', b' * z2);
    CongruentAdd(u * v, (a * z1) * (b * z2), u' * v', (a' * z1) * (b' * z2));
    CongruentTwice(u * v + u' * v', (a * z1) * (b * z2) + (a' * z1) * (b' * z2));
    CommonFactor(a, b, a', b', z1, z2);
  }

  lemma CommonFactor(a: int, b: int, a': int, b': int, z1: int, z2: int)
    ensures 2 * ((a * z1) * (b * z2) + (a' * z1) * (b' * z2)) == (2 * (z1 * z2)) * (a * b + a' * b')
  {
    Shuffle4(a, b, z1, z2);
    Shuffle4(a', b', z1, z2);
    assert (z2 * z1) * (a * b) + (z2 * z1) * (a' * b') == (z2 * z1) * (a * b + a' * b');
    MulAssociates(2, z2 * z1, a * b + a' * b');
  }

  lemma FromQuotients(k: int, rx: int, ry: int, rz: int, e: int, g: int, h: int, f: int, a: int, b: int)
    requires PIsPrime() && Quotients(k, rx, ry, rz, e, g, h, f) && !Zero(g) && !Zero(f) && At(rx, ry, rz, a, b)
    ensures Congruent(a * g, e) && Congruent(b * f, h)
  {
    hide FieldElement.Congruent, PIsPrime;
    FromQuotient(k, rx, rz, e, g, f, a);
    FromQuotient(k, ry, rz, h, f, g, b);
  }

  lemma FromQuotient(k: int, rx: int, rz: int, e: int, g: int, f: int, a: int)
    requires PIsPrime() && Congruent(k * rx, e * f) && Congruent(k * rz, g * f) && !Zero(f) && Congruent(rx, a * rz)
    ensures Congruent(a * g, e)
  {
    hide FieldElement.Congruent, PIsPrime;
    Reflexive(k);
    Reflexive(a);
    CongruentMul(k, k, rx, a * rz);
    CongruentMul(a, a, k * rz, g * f);
    assert k * (a * rz) == a * (k * rz);
    CongruentTrans(k * rx, a * (k * rz), a * (g * f));
    CongruentSym(k * rx, a * (g * f));
    CongruentTrans(a * (g * f), k * rx, e * f);
    assert a * (g * f) == f * (a * g);
    Cancel(f, a * g, e);
  }
}
