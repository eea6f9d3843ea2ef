/** The point formulas of src/crypto/crypto-ops.c stay on the curve -x^2 + y^2 = 1 + d x^2 y^2 of section 5.1 of RFC
    8032. */
module CurveEquation {
  import opened FieldElement
  import opened Congruences

  /** Extended coordinates of a point of the curve: X Y = Z T and Y^2 - X^2 = Z^2 + d T^2, modulo P. */
  ghost predicate OnCurve(x: int, y: int, z: int, t: int, d: int) {
    Congruent(x * y, z * t) && Congruent(y * y - x * x, z * z + d * (t * t))
  }

  // ---------------------------------------------------------------------------
  // Identities in the coordinates
  // ---------------------------------------------------------------------------

  /** With A = x1 y2 + y1 x2 and B = y1 y2 + x1 x2. */
  lemma SumIdentities(x1: int, y1: int, x2: int, y2: int)
    ensures var A, B := x1 * y2 + y1 * x2, y1 * y2 + x1 * x2;
            && B * B - A * A == (y1 * y1 - x1 * x1) * (y2 * y2 - x2 * x2)
            && B * B + A * A == (y1 * y1 + x1 * x1) * (y2 * y2 + x2 * x2) + 4 * ((x1 * y1) * (x2 * y2))
            && A * B == (x1 * y1) * (y2 * y2 + x2 * x2) + (x2 * y2) * (y1 * y1 + x1 * x1)
  {
  }

  lemma SquareOfSum(x: int, y: int)
    ensures (y * y + x * x) * (y * y + x * x) == (y * y - x * x) * (y * y - x * x) + 4 * ((x * y) * (x * y))
  {
  }

  lemma Quartic(a1: int, b1: int, a2: int, b2: int)
    ensures (a1 + b1) * (a2 + b2) * (a1 * a2 + b1 * b2) ==
            (a1 * a2 - b1 * b2) * (a1 * a2 - b1 * b2) + (a1 * b1) * ((a2 + b2) * (a2 + b2)) +
            (a2 * b2) * ((a1 + b1) * (a1 + b1))
  {
    var m, n, k, l := a1 * a2, a1 * b2, b1 * a2, b1 * b2;
    Regrouped(a1, b1, a2, b2);
    Regrouped(a2, b2, a1, b1);
    assert (a1 + b1) * (a2 + b2) == m + n + k + l;
    assert n * k == m * l;
    QuarticInProducts(m, n, k, l);
  }

  lemma Regrouped(a1: int, b1: int, a2: int, b2: int)
    ensures (a1 * b1) * ((a2 + b2) * (a2 + b2)) == (a1 * a2 + a1 * b2) * (b1 * a2 + b1 * b2)
  {
    assert a1 * a2 + a1 * b2 == a1 * (a2 + b2) && b1 * a2 + b1 * b2 == b1 * (a2 + b2);
    Shuffle4(a1, b1, a2 + b2, a2 + b2);
  }

  lemma QuarticInProducts(m: int, n: int, k: int, l: int)
    requires n * k == m * l
    ensures (m + n + k + l) * (m + l) == (m - l) * (m - l) + (m + n) * (k + l) + (m + k) * (n + l)
  {
  }

  // ---------------------------------------------------------------------------
  // The two sides of the equation of the sum
  // ---------------------------------------------------------------------------

  /** Y^2 - X^2 of the sum, in u = y^2 - x^2, p = x y and S = (x1^2 + y1^2) (x2^2 + y2^2). */
  ghost function Left(u1: int, u2: int, p1: int, p2: int, S: int, CC: int, EE: int, CE: int): int {
    (u1 * u2) * (CC + EE) + 2 * (CE * (S + 4 * (p1 * p2)))
  }

  /** Z^2 + d T^2 of the sum. */
  ghost function Right(u1: int, u2: int, p1: int, p2: int, S: int, ZZ: int, d: int): int {
    ZZ + d * ((p1 * p1) * (u2 * u2) + (p2 * p2) * (u1 * u1) + 8 * ((p1 * p1) * (p2 * p2)) + 2 * ((p1 * p2) * S))
  }

  lemma LeftSide(x1: int, y1: int, x2: int, y2: int, C: int, E: int)
    ensures var X, Y := (x1 * y2 + y1 * x2) * (C - E), (y1 * y2 + x1 * x2) * (C + E);
            Y * Y - X * X == Left(y1 * y1 - x1 * x1, y2 * y2 - x2 * x2, x1 * y1, x2 * y2,
                                  (y1 * y1 + x1 * x1) * (y2 * y2 + x2 * x2), C * C, E * E, C * E)
  {
    var A, B := x1 * y2 + y1 * x2, y1 * y2 + x1 * x2;
    SumIdentities(x1, y1, x2, y2);
    Products(A, B, C, E);
  }

  lemma Products(A: int, B: int, C: int, E: int)
    ensures (B * (C + E)) * (B * (C + E)) - (A * (C - E)) * (A * (C - E)) ==
            (B * B - A * A) * (C * C + E * E) + 2 * (C * E * (B * B + A * A))
  {
  }

  lemma RightSide(x1: int, y1: int, x2: int, y2: int, ZZ: int, d: int)
    ensures var T := (x1 * y2 + y1 * x2) * (y1 * y2 + x1 * x2);
            ZZ + d * (T * T) == Right(y1 * y1 - x1 * x1, y2 * y2 - x2 * x2, x1 * y1, x2 * y2,
                                      (y1 * y1 + x1 * x1) * (y2 * y2 + x2 * x2), ZZ, d)
  {
    SumIdentities(x1, y1, x2, y2);
    SquareOfSum(x1, y1);
    SquareOfSum(x2, y2);
    SquaredProduct(x1 * y1, x2 * y2, y1 * y1 + x1 * x1, y2 * y2 + x2 * x2, y1 * y1 - x1 * x1, y2 * y2 - x2 * x2);
  }

  lemma SquaredProduct(p1: int, p2: int, s1: int, s2: int, u1: int, u2: int)
    requires s1 * s1 == u1 * u1 + 4 * (p1 * p1) && s2 * s2 == u2 * u2 + 4 * (p2 * p2)
    ensures (p1 * s2 + p2 * s1) * (p1 * s2 + p2 * s1) ==
            (p1 * p1) * (u2 * u2) + (p2 * p2) * (u1 * u1) + 8 * ((p1 * p1) * (p2 * p2)) + 2 * ((p1 * p2) * (s1 * s2))
  {
    assert (p1 * s2 + p2 * s1) * (p1 * s2 + p2 * s1) ==
           (p1 * p1) * (s2 * s2) + (p2 * p2) * (s1 * s1) + 2 * ((p1 * p2) * (s1 * s2));
  }

  lemma Monomials(z1: int, t1: int, z2: int, t2: int, d: int)
    ensures var C, E := z1 * z2, d * (t1 * t2);
            && C * C == (z1 * z1) * (z2 * z2) && E * E == (d * (t1 * t1)) * (d * (t2 * t2))
            && C * E == d * ((z1 * t1) * (z2 * t2))
    ensures d * ((z1 * t1) * (z1 * t1)) == (z1 * z1) * (d * (t1 * t1))
  {
  }

  lemma Spread(d: int, m: int, n: int, k: int, l: int)
    ensures d * (m + n + 8 * k + 2 * l) == d * m + d * n + 8 * (d * k) + 2 * (d * l)
  {
  }

  lemma Cross(d: int, q1: int, q2: int, S: int)
    ensures 2 * (d * (q1 * q2) * (S + 4 * (q1 * q2))) == 2 * (d * ((q1 * q2) * S)) + 8 * (d * ((q1 * q1) * (q2 * q2)))
  {
  }

  /** For points of the curve the two sides are equal: a = z^2, b = d t^2, q = z t. */
  lemma SidesMeet(a1: int, b1: int, a2: int, b2: int, q1: int, q2: int, d: int, S: int)
    requires d * (q1 * q1) == a1 * b1 && d * (q2 * q2) == a2 * b2
    ensures Left(a1 + b1, a2 + b2, q1, q2, S, a1 * a2, b1 * b2, d * (q1 * q2)) ==
            Right(a1 + b1, a2 + b2, q1, q2, S, (a1 * a2 - b1 * b2) * (a1 * a2 - b1 * b2), d)
  {
    var v1, v2 := a1 + b1, a2 + b2;
    Quartic(a1, b1, a2, b2);
    Spread(d, (q1 * q1) * (v2 * v2), (q2 * q2) * (v1 * v1), (q1 * q1) * (q2 * q2), (q1 * q2) * S);
    Cross(d, q1, q2, S);
    Associate(d, q1 * q1, v2 * v2);
    Associate(d, q2 * q2, v1 * v1);
  }

  lemma Associate(a: int, b: int, c: int)
    ensures a * (b * c) == a * b * c
  {
  }

  // ---------------------------------------------------------------------------
  // Modulo P
  // ---------------------------------------------------------------------------

  lemma LeftModP(u1: int, v1: int, u2: int, v2: int, p1: int, q1: int, p2: int, q2: int, S: int, CC: int, EE: int,
                 CE: int)
    requires Congruent(u1, v1) && Congruent(u2, v2) && Congruent(p1, q1) && Congruent(p2, q2)
    ensures Congruent(Left(u1, u2, p1, p2, S, CC, EE, CE), Left(v1, v2, q1, q2, S, CC, EE, CE))
  {
    hide FieldElement.Congruent;
    Reflexive(CC + EE);
    Reflexive(S);
    Reflexive(4);
    Reflexive(CE);
    Reflexive(2);
    CongruentMul(u1, v1, u2, v2);
    CongruentMul(u1 * u2, v1 * v2, CC + EE, CC + EE);
    CongruentMul(p1, q1, p2, q2);
    CongruentMul(4, 4, p1 * p2, q1 * q2);
    CongruentAdd(S, S, 4 * (p1 * p2), 4 * (q1 * q2));
    CongruentMul(CE, CE, S + 4 * (p1 * p2), S + 4 * (q1 * q2));
    CongruentMul(2, 2, CE * (S + 4 * (p1 * p2)), CE * (S + 4 * (q1 * q2)));
    CongruentAdd((u1 * u2) * (CC + EE), (v1 * v2) * (CC + EE),
                 2 * (CE * (S + 4 * (p1 * p2))), 2 * (CE * (S + 4 * (q1 * q2))));
  }

  lemma RightModP(u1: int, v1: int, u2: int, v2: int, p1: int, q1: int, p2: int, q2: int, S: int, ZZ: int, d: int)
    requires Congruent(u1, v1) && Congruent(u2, v2) && Congruent(p1, q1) && Congruent(p2, q2)
    ensures Congruent(Right(u1, u2, p1, p2, S, ZZ, d), Right(v1, v2, q1, q2, S, ZZ, d))
  {
    hide FieldElement.Congruent;
    Reflexive(ZZ);
    Reflexive(d);
    Reflexive(8);
    Reflexive(2);
    Reflexive(S);
    CongruentMul(u1, v1, u1, v1);
    CongruentMul(u2, v2, u2, v2);
    CongruentMul(p1, q1, p1, q1);
    CongruentMul(p2, q2, p2, q2);
    CongruentMul(p1, q1, p2, q2);
    CongruentMul(p1 * p1, q1 * q1, u2 * u2, v2 * v2);
    CongruentMul(p2 * p2, q2 * q2, u1 * u1, v1 * v1);
    CongruentMul(p1 * p1, q1 * q1, p2 * p2, q2 * q2);
    CongruentMul(p1 * p2, q1 * q2, S, S);
    CongruentSum((p1 * p1) * (u2 * u2), (q1 * q1) * (v2 * v2), (p2 * p2) * (u1 * u1), (q2 * q2) * (v1 * v1),
                 (p1 * p1) * (p2 * p2), (q1 * q1) * (q2 * q2), (p1 * p2) * S, (q1 * q2) * S);
    var m := (p1 * p1) * (u2 * u2) + (p2 * p2) * (u1 * u1) + 8 * ((p1 * p1) * (p2 * p2)) + 2 * ((p1 * p2) * S);
    var n := (q1 * q1) * (v2 * v2) + (q2 * q2) * (v1 * v1) + 8 * ((q1 * q1) * (q2 * q2)) + 2 * ((q1 * q2) * S);
    CongruentMul(d, d, m, n);
    CongruentAdd(ZZ, ZZ, d * m, d * n);
  }

  lemma CongruentSum(a: int, a': int, b: int, b': int, c: int, c': int, e: int, e': int)
    requires Congruent(a, a') && Congruent(b, b') && Congruent(c, c') && Congruent(e, e')
    ensures Congruent(a + b + 8 * c + 2 * e, a' + b' + 8 * c' + 2 * e')
  {
    hide FieldElement.Congruent;
    Reflexive(8);
    Reflexive(2);
    CongruentMul(8, 8, c, c');
    CongruentMul(2, 2, e, e');
    CongruentAdd(a, a', b, b');
    CongruentAdd(a + b, a' + b', 8 * c, 8 * c');
    CongruentAdd(a + b + 8 * c, a' + b' + 8 * c', 2 * e, 2 * e');
  }

  /** The sum of two points of the curve is on the curve. */
  lemma SumIsOnCurve(x1: int, y1: int, z1: int, t1: int, x2: int, y2: int, z2: int, t2: int, d: int)
    requires OnCurve(x1, y1, z1, t1, d) && OnCurve(x2, y2, z2, t2, d)
    ensures var A, B, C, E := x1 * y2 + y1 * x2, y1 * y2 + x1 * x2, z1 * z2, d * (t1 * t2);
            OnCurve(A * (C - E), B * (C + E), (C + E) * (C - E), A * B, d)
  {
    hide FieldElement.Congruent, Left, Right;
    var A, B, C, E := x1 * y2 + y1 * x2, y1 * y2 + x1 * x2, z1 * z2, d * (t1 * t2);
    var u1, u2, p1, p2 := y1 * y1 - x1 * x1, y2 * y2 - x2 * x2, x1 * y1, x2 * y2;
    var v1, v2, q1, q2 := z1 * z1 + d * (t1 * t1), z2 * z2 + d * (t2 * t2), z1 * t1, z2 * t2;
    var S, ZZ := (y1 * y1 + x1 * x1) * (y2 * y2 + x2 * x2), ((C + E) * (C - E)) * ((C + E) * (C - E));
    LeftSide(x1, y1, x2, y2, C, E);
    RightSide(x1, y1, x2, y2, ZZ, d);
    LeftModP(u1, v1, u2, v2, p1, q1, p2, q2, S, C * C, E * E, C * E);
    RightModP(u1, v1, u2, v2, p1, q1, p2, q2, S, ZZ, d);
    Monomials(z1, t1, z2, t2, d);
    Monomials(z2, t2, z1, t1, d);
    Difference(C, E);
    SidesMeet(z1 * z1, d * (t1 * t1), z2 * z2, d * (t2 * t2), q1, q2, d, S);
    MeetModP(Left(u1, u2, p1, p2, S, C * C, E * E, C * E), Left(v1, v2, q1, q2, S, C * C, E * E, C * E),
             Right(u1, u2, p1, p2, S, ZZ, d), Right(v1, v2, q1, q2, S, ZZ, d));
    Shuffle4(A, B, C - E, C + E);
    Reflexive((A * (C - E)) * (B * (C + E)));
  }

  lemma Difference(C: int, E: int)
    ensures (C + E) * (C - E) == C * C - E * E
  {
  }

  lemma Shuffle4(a: int, b: int, f: int, g: int)
    ensures (a * f) * (b * g) == (g * f) * (a * b)
  {
  }

  lemma MeetModP(l: int, l': int, r: int, r': int)
    requires Congruent(l, l') && Congruent(r, r') && l' == r'
    ensures Congruent(l, r)
  {
    CongruentAdd(l, l', r, r');
    var k := CongruentQuotient(l, l');
    var m := CongruentQuotient(r, r');
    CongruentByQuotient(l, r, k - m);
  }

  // ---------------------------------------------------------------------------
  // Completed points
  // ---------------------------------------------------------------------------

  /** A completed point (X/Z, Y/T), whose extended coordinates are (X T, Y Z, Z T, X Y), on the curve. */
  ghost predicate Completed(X: int, Y: int, Z: int, T: int, d: int) {
    OnCurve(X * T, Y * Z, Z * T, X * Y, d)
  }

  lemma OnCurveModP(x: int, y: int, z: int, t: int, x': int, y': int, z': int, t': int, d: int)
    requires Congruent(x', x) && Congruent(y', y) && Congruent(z', z) && Congruent(t', t) && OnCurve(x, y, z, t, d)
    ensures OnCurve(x', y', z', t', d)
  {
    hide FieldElement.Congruent;
    CongruentMul(x', x, y', y);
    CongruentMul(z', z, t', t);
    Between(x' * y', x * y, z * t, z' * t');
    CongruentMul(x', x, x', x);
    CongruentMul(y', y, y', y);
    CongruentMul(z', z, z', z);
    CongruentMul(t', t, t', t);
    Reflexive(d);
    CongruentMul(d, d, t' * t', t * t);
    CongruentAdd(y' * y', y * y, x' * x', x * x);
    CongruentAdd(z' * z', z * z, d * (t' * t'), d * (t * t));
    Between(y' * y' - x' * x', y * y - x * x, z * z + d * (t * t), z' * z' + d * (t' * t'));
  }

  lemma Between(a': int, a: int, b: int, b': int)
    requires Congruent(a', a) && Congruent(a, b) && Congruent(b', b)
    ensures Congruent(a', b')
  {
    var k := CongruentQuotient(a', a);
    var m := CongruentQuotient(a, b);
    var n := CongruentQuotient(b', b);
    CongruentByQuotient(a', b', k + m - n);
  }

  lemma CompletedModP(X: int, Y: int, Z: int, T: int, X': int, Y': int, Z': int, T': int, d: int)
    requires Congruent(X', X) && Congruent(Y', Y) && Congruent(Z', Z) && Congruent(T', T) && Completed(X, Y, Z, T, d)
    ensures Completed(X', Y', Z', T', d)
  {
    hide FieldElement.Congruent, OnCurve;
    CongruentMul(X', X, T', T);
    CongruentMul(Y', Y, Z', Z);
    CongruentMul(Z', Z, T', T);
    CongruentMul(X', X, Y', Y);
    OnCurveModP(X * T, Y * Z, Z * T, X * Y, X' * T', Y' * Z', Z' * T', X' * Y', d);
  }

  lemma QuadrupledIsOnCurve(x: int, y: int, z: int, t: int, d: int)
    requires OnCurve(x, y, z, t, d)
    ensures OnCurve(4 * x, 4 * y, 4 * z, 4 * t, d)
  {
    hide FieldElement.Congruent;
    QuadrupledProducts(x, y, z, t);
    QuadrupledSquares(x, y, z, t, d);
  }

  lemma QuadrupledProducts(x: int, y: int, z: int, t: int)
    requires Congruent(x * y, z * t)
    ensures Congruent((4 * x) * (4 * y), (4 * z) * (4 * t))
  {
    hide FieldElement.Congruent;
    Reflexive(16);
    CongruentMul(16, 16, x * y, z * t);
    Quadrupled(x, y);
    Quadrupled(z, t);
  }

  lemma QuadrupledSquares(x: int, y: int, z: int, t: int, d: int)
    requires Congruent(y * y - x * x, z * z + d * (t * t))
    ensures Congruent((4 * y) * (4 * y) - (4 * x) * (4 * x), (4 * z) * (4 * z) + d * ((4 * t) * (4 * t)))
  {
    hide FieldElement.Congruent;
    Reflexive(16);
    CongruentMul(16, 16, y * y - x * x, z * z + d * (t * t));
    SixteenTimes(x, y, z, t, d);
  }

  lemma SixteenTimes(x: int, y: int, z: int, t: int, d: int)
    ensures (4 * y) * (4 * y) - (4 * x) * (4 * x) == 16 * (y * y - x * x)
    ensures (4 * z) * (4 * z) + d * ((4 * t) * (4 * t)) == 16 * (z * z + d * (t * t))
  {
    Quadrupled(x, x);
    Quadrupled(y, y);
    Quadrupled(z, z);
    Quadrupled(t, t);
    Associate(d, 16, t * t);
    Associate(16, d, t * t);
  }

  lemma Quadrupled(a: int, b: int)
    ensures (4 * a) * (4 * b) == 16 * (a * b)
  {
  }

  lemma Negated(x: int, y: int, z: int, t: int, d: int)
    requires OnCurve(x, y, z, t, d)
    ensures OnCurve(-x, y, z, -t, d)
  {
    hide FieldElement.Congruent;
    CongruentNeg(x * y, z * t);
    assert -(x * y) == -x * y && -(z * t) == z * -t;
    assert -x * -x == x * x && -t * -t == t * t;
  }

  /** What the addition formulas compute from (x, y, z): plus, minus, c and w stand for y2 + x2, y2 - x2, 2d t1 t2 and
      z2. */
  ghost predicate SumFormula(X: int, Y: int, Z: int, T: int, x: int, y: int, z: int, plus: int, minus: int, c: int,
                             w: int) {
    var a, b := (y + x) * plus, (y - x) * minus;
    && Congruent(X, a - b) && Congruent(Y, a + b)
    && Congruent(Z, 2 * (z * w) + c) && Congruent(T, 2 * (z * w) - c)
  }

  /** It is the sum of the two points, completed. */
  lemma SumIsCompleted(X: int, Y: int, Z: int, T: int, x1: int, y1: int, z1: int, t1: int,
                       x2: int, y2: int, z2: int, t2: int, plus: int, minus: int, c: int, d: int)
    requires OnCurve(x1, y1, z1, t1, d) && OnCurve(x2, y2, z2, t2, d)
    requires Congruent(plus, y2 + x2) && Congruent(minus, y2 - x2) && Congruent(c, 2 * (d * (t1 * t2)))
    requires SumFormula(X, Y, Z, T, x1, y1, z1, plus, minus, c, z2)
    ensures Completed(X, Y, Z, T, d)
  {
    hide FieldElement.Congruent, OnCurve;
    var A, B, C, E := x1 * y2 + y1 * x2, y1 * y2 + x1 * x2, z1 * z2, d * (t1 * t2);
    SumIsOnCurve(x1, y1, z1, t1, x2, y2, z2, t2, d);
    QuadrupledIsOnCurve(A * (C - E), B * (C + E), (C + E) * (C - E), A * B, d);
    Quadruples(A, B, C, E);
    assert Completed(2 * A, 2 * B, 2 * (C + E), 2 * (C - E), d);
    FactorsModP(x1, y1, x2, y2, plus, minus, X, Y);
    Reflexive(2 * C);
    CongruentAdd(2 * C, 2 * C, c, 2 * E);
    CongruentTrans(Z, 2 * C + c, 2 * C + 2 * E);
    CongruentTrans(T, 2 * C - c, 2 * C - 2 * E);
    CompletedModP(2 * A, 2 * B, 2 * (C + E), 2 * (C - E), X, Y, Z, T, d);
  }

  lemma AddedIsPoint(X: int, Y: int, Z: int, T: int, x1: int, y1: int, z1: int, t1: int,
                     x2: int, y2: int, z2: int, t2: int, t2d: int, d: int, d2: int)
    requires Congruent(t2d, t2 * d2) && Congruent(d2, 2 * d)
    requires SumFormula(X, Y, Z, T, x1, y1, z1, y2 + x2, y2 - x2, t2d * t1, z2)
    ensures OnCurve(x1, y1, z1, t1, d) && OnCurve(x2, y2, z2, t2, d) ==> Completed(X, Y, Z, T, d)
  {
    hide FieldElement.Congruent, OnCurve, Completed, SumFormula;
    if OnCurve(x1, y1, z1, t1, d) && OnCurve(x2, y2, z2, t2, d) {
      TwiceD(t2d, t2, t1, d, d2);
      Reflexive(y2 + x2);
      Reflexive(y2 - x2);
      SumIsCompleted(X, Y, Z, T, x1, y1, z1, t1, x2, y2, z2, t2, y2 + x2, y2 - x2, t2d * t1, d);
    }
  }

  lemma SubtractedIsPoint(X: int, Y: int, Z: int, T: int, x1: int, y1: int, z1: int, t1: int,
                          x2: int, y2: int, z2: int, t2: int, t2d: int, d: int, d2: int)
    requires Congruent(t2d, t2 * d2) && Congruent(d2, 2 * d)
    requires SumFormula(X, Y, Z, T, x1, y1, z1, y2 - x2, y2 + x2, -(t2d * t1), z2)
    ensures OnCurve(x1, y1, z1, t1, d) && OnCurve(x2, y2, z2, t2, d) ==> Completed(X, Y, Z, T, d)
  {
    hide FieldElement.Congruent, OnCurve, Completed, SumFormula;
    if OnCurve(x1, y1, z1, t1, d) && OnCurve(x2, y2, z2, t2, d) {
      TwiceD(t2d, t2, t1, d, d2);
      Negated(x2, y2, z2, t2, d);
      Reflexive(y2 + x2);
      Reflexive(y2 - x2);
      SumIsCompleted(X, Y, Z, T, x1, y1, z1, t1, -x2, y2, z2, -t2, y2 - x2, y2 + x2, -(t2d * t1), d);
    }
  }

  /** The same with an entry of a table, which stands for the affine point (x2, y2). */
  lemma EntryIsPoint(X: int, Y: int, Z: int, T: int, x1: int, y1: int, z1: int, t1: int,
                     x2: int, y2: int, plus: int, minus: int, xy2d: int, d: int, d2: int)
    requires Congruent(xy2d, (x2 * y2) * d2) && Congruent(d2, 2 * d)
    requires Congruent(plus, y2 + x2) && Congruent(minus, y2 - x2)
    requires SumFormula(X, Y, Z, T, x1, y1, z1, plus, minus, xy2d * t1, 1)
    requires OnCurve(x1, y1, z1, t1, d) && OnCurve(x2, y2, 1, x2 * y2, d)
    ensures Completed(X, Y, Z, T, d)
  {
    hide FieldElement.Congruent, OnCurve, Completed, SumFormula;
    TwiceD(xy2d, x2 * y2, t1, d, d2);
    SumIsCompleted(X, Y, Z, T, x1, y1, z1, t1, x2, y2, 1, x2 * y2, plus, minus, xy2d * t1, d);
  }

  lemma NegatedEntryIsPoint(X: int, Y: int, Z: int, T: int, x1: int, y1: int, z1: int, t1: int,
                            x2: int, y2: int, plus: int, minus: int, xy2d: int, d: int, d2: int)
    requires Congruent(xy2d, (x2 * y2) * d2) && Congruent(d2, 2 * d)
    requires Congruent(plus, y2 + x2) && Congruent(minus, y2 - x2)
    requires SumFormula(X, Y, Z, T, x1, y1, z1, minus, plus, -(xy2d * t1), 1)
    requires OnCurve(x1, y1, z1, t1, d) && OnCurve(x2, y2, 1, x2 * y2, d)
    ensures Completed(X, Y, Z, T, d)
  {
    hide FieldElement.Congruent, OnCurve, Completed, SumFormula;
    TwiceD(xy2d, x2 * y2, t1, d, d2);
    Negated(x2, y2, 1, x2 * y2, d);
    SumIsCompleted(X, Y, Z, T, x1, y1, z1, t1, -x2, y2, 1, -(x2 * y2), minus, plus, -(xy2d * t1), d);
  }

  /** t2d t1 is 2d t1 t2. */
  lemma TwiceD(t2d: int, t2: int, t1: int, d: int, d2: int)
    requires Congruent(t2d, t2 * d2) && Congruent(d2, 2 * d)
    ensures Congruent(t2d * t1, 2 * (d * (t1 * t2))) && Congruent(-(t2d * t1), 2 * (d * (t1 * -t2)))
  {
    hide FieldElement.Congruent;
    Reflexive(t2);
    Reflexive(t1);
    CongruentMul(t2, t2, d2, 2 * d);
    CongruentTrans(t2d, t2 * d2, t2 * (2 * d));
    CongruentMul(t2d, t2 * (2 * d), t1, t1);
    CongruentNeg(t2d * t1, t2 * (2 * d) * t1);
    Reordered(t1, t2, d);
  }

  lemma Reordered(t1: int, t2: int, d: int)
    ensures t2 * (2 * d) * t1 == 2 * (d * (t1 * t2)) && -(t2 * (2 * d) * t1) == 2 * (d * (t1 * -t2))
  {
  }

  /** The addition law of the curve: the affine sum of (x1/z1, y1/z1) and (x2/z2, y2/z2) is (e/g, h/f), where
      e = 2 (x1 y2 + y1 x2), h = 2 (y1 y2 + x1 x2), g = 2 z1 z2 + 2d t1 t2 and f = 2 z1 z2 - 2d t1 t2;
      (rx, ry, rz) scaled by k is that point. */
  ghost predicate Sum(k: int, rx: int, ry: int, rz: int, x1: int, y1: int, z1: int, t1: int,
                      x2: int, y2: int, z2: int, t2: int, d2: int) {
    var e, h, c := 2 * (x1 * y2 + y1 * x2), 2 * (y1 * y2 + x1 * x2), t2 * d2 * t1;
    Quotients(k, rx, ry, rz, e, 2 * (z1 * z2) + c, h, 2 * (z1 * z2) - c)
  }

  /** k (rx, ry, rz) is (e/g, h/f). */
  ghost predicate Quotients(k: int, rx: int, ry: int, rz: int, e: int, g: int, h: int, f: int) {
    Congruent(k * rx, e * f) && Congruent(k * ry, h * g) && Congruent(k * rz, g * f)
  }

  /** What the addition formulas leave, converted to (rx, ry, rz), is the sum. */
  lemma AddedIsSum(X: int, Y: int, Z: int, T: int, x1: int, y1: int, z1: int, t1: int, x2: int, y2: int, z2: int,
                   t2: int, plus: int, minus: int, t2d: int, d2: int, rx: int, ry: int, rz: int)
    requires Congruent(plus, y2 + x2) && Congruent(minus, y2 - x2) && Congruent(t2d, t2 * d2)
    requires SumFormula(X, Y, Z, T, x1, y1, z1, plus, minus, t2d * t1, z2)
    requires Congruent(rx, X * T) && Congruent(ry, Y * Z) && Congruent(rz, Z * T)
    ensures Sum(1, rx, ry, rz, x1, y1, z1, t1, x2, y2, z2, t2, d2)
  {
    hide FieldElement.Congruent;
    var w, c, c' := 2 * (z1 * z2), t2 * d2 * t1, t2d * t1;
    FactorsModP(x1, y1, x2, y2, plus, minus, X, Y);
    Reflexive(t1);
    Reflexive(w);
    CongruentMul(t2d, t2 * d2, t1, t1);
    CongruentAdd(w, w, c', c);
    CongruentTrans(Z, w + c', w + c);
    CongruentTrans(T, w - c', w - c);
    ConvertedQuotients(X, Y, Z, T, 2 * (x1 * y2 + y1 * x2), 2 * (y1 * y2 + x1 * x2), w + c, w - c, rx, ry, rz);
  }

  lemma ConvertedQuotients(X: int, Y: int, Z: int, T: int, e: int, h: int, g: int, f: int, rx: int, ry: int, rz: int)
    requires Congruent(X, e) && Congruent(Y, h) && Congruent(Z, g) && Congruent(T, f)
    requires Congruent(rx, X * T) && Congruent(ry, Y * Z) && Congruent(rz, Z * T)
    ensures Quotients(1, rx, ry, rz, e, g, h, f)
  {
    hide FieldElement.Congruent;
    CongruentMul(X, e, T, f);
    CongruentMul(Y, h, Z, g);
    CongruentMul(Z, g, T, f);
    CongruentTrans(rx, X * T, e * f);
    CongruentTrans(ry, Y * Z, h * g);
    CongruentTrans(rz, Z * T, g * f);
    assert 1 * rx == rx && 1 * ry == ry && 1 * rz == rz;
  }

  /** What the doubling formula leaves, four times over, is the sum of a point of the curve with itself. */
  lemma DoubledIsSum(X: int, Y: int, Z: int, T: int, x: int, y: int, z: int, t: int, d: int, d2: int, rx: int, ry: int,
                     rz: int)
    requires OnCurve(x, y, z, t, d) && Congruent(d2, 2 * d)
    requires Congruent(X, 2 * (x * y)) && Congruent(Y, y * y + x * x) && Congruent(Z, y * y - x * x)
    requires Congruent(T, 2 * (z * z) - (y * y - x * x))
    requires Congruent(rx, X * T) && Congruent(ry, Y * Z) && Congruent(rz, Z * T)
    ensures Sum(4, rx, ry, rz, x, y, z, t, x, y, z, t, d2)
  {
    hide FieldElement.Congruent;
    var c, w, u := t * d2 * t, 2 * (z * z), y * y - x * x;
    Reflexive(t * d2);
    TwiceD(t * d2, t, t, d, d2);
    TwiceTheDenominators(u, z * z, d * (t * t), c, Z, T);
    CongruentTwice(X, 2 * (x * y));
    CongruentTwice(Y, y * y + x * x);
    assert 2 * (x * y + y * x) == 2 * (2 * (x * y));
    FourTimes(X, T, rx);
    FourTimes(Y, Z, ry);
    FourTimes(Z, T, rz);
    ConvertedQuotients(2 * X, 2 * Y, 2 * Z, 2 * T, 2 * (x * y + y * x), 2 * (y * y + x * x), w + c, w - c, 4 * rx,
                       4 * ry, 4 * rz);
  }

  lemma CongruentTwice(a: int, b: int)
    requires Congruent(a, b)
    ensures Congruent(2 * a, 2 * b)
  {
    CongruentAdd(a, b, a, b);
  }

  lemma FourTimes(a: int, b: int, r: int)
    requires Congruent(r, a * b)
    ensures Congruent(4 * r, (2 * a) * (2 * b))
  {
    hide FieldElement.Congruent;
    Reflexive(4);
    CongruentMul(4, 4, r, a * b);
    assert (2 * a) * (2 * b) == 4 * (a * b);
  }

  lemma TwiceTheDenominators(u: int, zz: int, dtt: int, c: int, Z: int, T: int)
    requires Congruent(u, zz + dtt) && Congruent(c, 2 * dtt) && Congruent(Z, u) && Congruent(T, 2 * zz - u)
    ensures Congruent(2 * Z, 2 * zz + c) && Congruent(2 * T, 2 * zz - c)
  {
    var k := CongruentQuotient(u, zz + dtt);
    var l := CongruentQuotient(c, 2 * dtt);
    var m := CongruentQuotient(Z, u);
    var n := CongruentQuotient(T, 2 * zz - u);
    CongruentByQuotient(2 * Z, 2 * zz + c, 2 * m + 2 * k - l);
    CongruentByQuotient(2 * T, 2 * zz - c, 2 * n - 2 * k + l);
  }

  lemma Quadruples(A: int, B: int, C: int, E: int)
    ensures (2 * A) * (2 * (C - E)) == 4 * (A * (C - E)) && (2 * B) * (2 * (C + E)) == 4 * (B * (C + E))
    ensures (2 * (C + E)) * (2 * (C - E)) == 4 * ((C + E) * (C - E)) && (2 * A) * (2 * B) == 4 * (A * B)
  {
  }

  lemma FactorsModP(x1: int, y1: int, x2: int, y2: int, plus: int, minus: int, X: int, Y: int)
    requires Congruent(plus, y2 + x2) && Congruent(minus, y2 - x2)
    requires Congruent(X, (y1 + x1) * plus - (y1 - x1) * minus) && Congruent(Y, (y1 + x1) * plus + (y1 - x1) * minus)
    ensures Congruent(X, 2 * (x1 * y2 + y1 * x2)) && Congruent(Y, 2 * (y1 * y2 + x1 * x2))
  {
    hide FieldElement.Congruent;
    Reflexive(y1 + x1);
    Reflexive(y1 - x1);
    CongruentMul(y1 + x1, y1 + x1, plus, y2 + x2);
    CongruentMul(y1 - x1, y1 - x1, minus, y2 - x2);
    CongruentAdd((y1 + x1) * plus, (y1 + x1) * (y2 + x2), (y1 - x1) * minus, (y1 - x1) * (y2 - x2));
    Expanded(x1, y1, x2, y2);
    CongruentTrans(X, (y1 + x1) * plus - (y1 - x1) * minus, 2 * (x1 * y2 + y1 * x2));
    CongruentTrans(Y, (y1 + x1) * plus + (y1 - x1) * minus, 2 * (y1 * y2 + x1 * x2));
  }

  lemma Expanded(x1: int, y1: int, x2: int, y2: int)
    ensures (y1 + x1) * (y2 + x2) - (y1 - x1) * (y2 - x2) == 2 * (x1 * y2 + y1 * x2)
    ensures (y1 + x1) * (y2 + x2) + (y1 - x1) * (y2 - x2) == 2 * (y1 * y2 + x1 * x2)
  {
  }

  /** What the doubling formula leaves. */
  lemma DoubleIsCompleted(x: int, y: int, z: int, t: int, d: int)
    requires OnCurve(x, y, z, t, d)
    ensures Completed(2 * (x * y), y * y + x * x, y * y - x * x, 2 * (z * z) - (y * y - x * x), d)
  {
    hide FieldElement.Congruent;
    var u, s, p := y * y - x * x, y * y + x * x, x * y;
    var f := 2 * (z * z) - u;
    var a, b, q := z * z, d * (t * t), z * t;
    Shuffle4(2 * p, s, f, u);
    Reflexive((2 * p * f) * (s * u));
    SquareOfSum(x, y);
    DoubleSides(u, s, p, f, d);
    Monomials(z, t, z, t, d);
    DoubleMeets(a, b, q, d);
    DoubleModP(u, a + b, p, q, f, a - b, a, d);
    MeetModP(DoubleLeft(u, p, f), DoubleLeft(a + b, q, a - b), DoubleRight(u, p, f, d),
             DoubleRight(a + b, q, a - b, d));
  }

  ghost function DoubleLeft(u: int, p: int, f: int): int {
    (u * u + 4 * (p * p)) * (u * u) - 4 * ((p * p) * (f * f))
  }

  ghost function DoubleRight(u: int, p: int, f: int, d: int): int {
    (u * u) * (f * f) + 4 * (d * ((p * p) * (u * u + 4 * (p * p))))
  }

  lemma DoubleSides(u: int, s: int, p: int, f: int, d: int)
    requires s * s == u * u + 4 * (p * p)
    ensures (s * u) * (s * u) - (2 * p * f) * (2 * p * f) == DoubleLeft(u, p, f)
    ensures (u * f) * (u * f) + d * ((2 * p * s) * (2 * p * s)) == DoubleRight(u, p, f, d)
  {
    assert (s * u) * (s * u) == (s * s) * (u * u);
    assert (2 * p * f) * (2 * p * f) == 4 * ((p * p) * (f * f));
    assert (u * f) * (u * f) == (u * u) * (f * f);
    assert (2 * p * s) * (2 * p * s) == 4 * ((p * p) * (s * s));
    Associate(d, 4, (p * p) * (s * s));
  }

  lemma DoubleMeets(a: int, b: int, q: int, d: int)
    requires d * (q * q) == a * b
    ensures DoubleLeft(a + b, q, a - b) == DoubleRight(a + b, q, a - b, d)
  {
    var u, f, qq := a + b, a - b, q * q;
    assert u * u - f * f == 4 * (a * b);
    Associate(d, qq, u * u + 4 * qq);
    assert d * (qq * (u * u + 4 * qq)) == (a * b) * (u * u + 4 * qq);
    DoubleQuartic(u * u, f * f, a * b, qq);
  }

  lemma DoubleQuartic(U: int, F: int, m: int, qq: int)
    requires U - F == 4 * m
    ensures (U + 4 * qq) * U - 4 * (qq * F) == U * F + 4 * (m * (U + 4 * qq))
  {
    assert (U + 4 * qq) * U - 4 * (qq * F) == U * U + 4 * (qq * (U - F));
    assert U * F + 4 * (m * (U + 4 * qq)) == U * (F + 4 * m) + 16 * (m * qq);
    assert qq * (U - F) == qq * (4 * m);
  }

  lemma DoubleModP(u: int, v: int, p: int, q: int, f: int, g: int, a: int, d: int)
    requires Congruent(u, v) && Congruent(p, q) && f == 2 * a - u && g == 2 * a - v
    ensures Congruent(DoubleLeft(u, p, f), DoubleLeft(v, q, g)) &&
            Congruent(DoubleRight(u, p, f, d), DoubleRight(v, q, g, d))
  {
    hide FieldElement.Congruent;
    Reflexive(2 * a);
    CongruentAdd(2 * a, 2 * a, u, v);
    CongruentMul(u, v, u, v);
    CongruentMul(p, q, p, q);
    CongruentMul(f, g, f, g);
    Reflexive(4);
    Reflexive(d);
    CongruentMul(4, 4, p * p, q * q);
    CongruentAdd(u * u, v * v, 4 * (p * p), 4 * (q * q));
    var m, n := u * u + 4 * (p * p), v * v + 4 * (q * q);
    CongruentMul(m, n, u * u, v * v);
    CongruentMul(p * p, q * q, f * f, g * g);
    CongruentMul(4, 4, (p * p) * (f * f), (q * q) * (g * g));
    CongruentAdd(m * (u * u), n * (v * v), 4 * ((p * p) * (f * f)), 4 * ((q * q) * (g * g)));
    CongruentMul(u * u, v * v, f * f, g * g);
    CongruentMul(p * p, q * q, m, n);
    CongruentMul(d, d, (p * p) * m, (q * q) * n);
    CongruentMul(4, 4, d * ((p * p) * m), d * ((q * q) * n));
    CongruentAdd((u * u) * (f * f), (v * v) * (g * g), 4 * (d * ((p * p) * m)), 4 * (d * ((q * q) * n)));
  }
}
