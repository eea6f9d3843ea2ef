/** The point formulas of src/crypto/crypto-ops.c on limb vectors: the bounds of every intermediate
    field element, for runs of any length, and what the coordinates are modulo P.

    Bounds are in hundredths of 2^25, 2^24, ... (see FieldElement.Fe.Within).
 */
module PointArithmetic {
  import opened FieldElement
  import opened Congruences
  import opened CurveEquation
  import opened PrimeField
  import opened Completeness

  /** Projective: (X/Z, Y/Z). */
  datatype P2 = P2(X: Fe, Y: Fe, Z: Fe) {
    ghost predicate Tight() {
      X.Within(101) && Y.Within(101) && Z.Within(101)
    }
  }

  /** Extended: (X/Z, Y/Z) with T = XY/Z. */
  datatype P3 = P3(X: Fe, Y: Fe, Z: Fe, T: Fe) {
    ghost predicate Tight() {
      X.Within(101) && Y.Within(101) && Z.Within(101) && T.Within(101)
    }

    ghost predicate Extended() {
      Congruent(X.Value() * Y.Value(), Z.Value() * T.Value())
    }

    /** Both equations of extended coordinates. Four zeros satisfy them too. */
    ghost predicate Satisfies() {
      OnCurve(X.Value(), Y.Value(), Z.Value(), T.Value(), FE_D.Value())
    }

    ghost predicate IsPoint() {
      Satisfies() && !Zero(Z.Value())
    }

    /** The affine point is (a, b). */
    ghost predicate Affine(a: int, b: int) {
      At(X.Value(), Y.Value(), Z.Value(), a, b)
    }

    /** k times these coordinates are the sum, by the addition law, of p and (x : y : z : t). */
    ghost predicate IsSum(k: int, p: P3, x: int, y: int, z: int, t: int) {
      Sum(k, X.Value(), Y.Value(), Z.Value(), p.X.Value(), p.Y.Value(), p.Z.Value(), p.T.Value(), x, y, z, t,
          FE_D2.Value())
    }
  }

  /** Completed: (X/Z, Y/T). */
  datatype P1P1 = P1P1(X: Fe, Y: Fe, Z: Fe, T: Fe) {
    /** What every point formula leaves behind, up to 1.515*2^26, is still an input of fe_mul. */
    ghost predicate Loose() {
      X.Within(303) && Y.Within(303) && Z.Within(303) && T.Within(303)
    }

    ghost predicate Satisfies() {
      Completed(X.Value(), Y.Value(), Z.Value(), T.Value(), FE_D.Value())
    }
  }

  datatype Precomp = Precomp(yplusx: Fe, yminusx: Fe, xy2d: Fe) {
    ghost predicate Tight() {
      yplusx.Within(101) && yminusx.Within(101) && xy2d.Within(101)
    }

    /** The table entry of the affine point (x, y). */
    ghost predicate Holds(x: int, y: int) {
      && Congruent(yplusx.Value(), y + x) && Congruent(yminusx.Value(), y - x)
      && Congruent(xy2d.Value(), (x * y) * FE_D2.Value())
      && OnCurve(x, y, 1, x * y, FE_D.Value())
    }

    ghost predicate IsPoint() {
      exists x, y :: Holds(x, y)
    }
  }

  datatype Cached = Cached(YplusX: Fe, YminusX: Fe, Z: Fe, T2d: Fe) {
    ghost predicate Tight() {
      YplusX.Within(202) && YminusX.Within(202) && Z.Within(101) && T2d.Within(101)
    }

    ghost predicate Holds(p: P3) {
      && YplusX.Value() == p.Y.Value() + p.X.Value() && YminusX.Value() == p.Y.Value() - p.X.Value()
      && Z == p.Z && Congruent(T2d.Value(), p.T.Value() * FE_D2.Value())
    }
  }

  /** d and 2d, for the curve -x^2 + y^2 = 1 + d x^2 y^2. */
  const FE_D := Fe(-10913610, 13857413, -15372611, 6949391, 114729, -8787816, -6275908, -3247719, -18696448, -12055116)
  const FE_D2 := Fe(-21827239, -5839606, -30745221, 13898782, 229458, 15978800, -12551817, -6495438, 29715968, 9444199)

  /** A square root of -1. */
  const FE_SQRTM1 := Fe(-32595792, -7943725, 9377950, 3500415, 12389472, -272473, -25146209, -2005654, 326686, 11406482)

  /** The constants are the ones of section 5.1 of RFC 8032: d = -121665/121666, twice that, and a square root of -1. */
  lemma CurveConstants()
    ensures Congruent(121666 * FE_D.Value(), -121665)
    ensures Congruent(FE_D2.Value(), 2 * FE_D.Value())
    ensures Congruent(FE_SQRTM1.Value() * FE_SQRTM1.Value(), -1)
  {
    hide Fe.Value;
    ValueOf(FE_D);
    ValueOf(FE_D2);
    ValueOf(FE_SQRTM1);
    CongruentExactly(121666 * FE_D.Value(), -121665);
    CongruentExactly(FE_D2.Value(), 2 * FE_D.Value());
    CongruentExactly(FE_SQRTM1.Value() * FE_SQRTM1.Value(), -1);
  }

  /** What the completeness of the addition law rests on and is not proved here: P is prime and d is not a square
      modulo P. */
  ghost predicate FieldHypotheses() {
    PIsPrime() && IsNonsquare(FE_D.Value())
  }

  // ---------------------------------------------------------------------------
  // Conversions
  // ---------------------------------------------------------------------------

  method P1P1ToP2(p: P1P1) returns (r: P2)
    requires p.Loose()
    ensures r.Tight()
    ensures Congruent(r.X.Value(), p.X.Value() * p.T.Value())
    ensures Congruent(r.Y.Value(), p.Y.Value() * p.Z.Value())
    ensures Congruent(r.Z.Value(), p.Z.Value() * p.T.Value())
  {
    hide FieldElement.Fe.Value, FieldElement.Congruent;
    var x := FeMul(p.X, p.T);
    var y := FeMul(p.Y, p.Z);
    var z := FeMul(p.Z, p.T);
    r := P2(x, y, z);
  }

  /** Whatever the completed point, the extended one satisfies X Y = Z T; and it satisfies the equation of the curve
      if the completed one does. */
  method P1P1ToP3(p: P1P1) returns (r: P3)
    requires p.Loose()
    ensures r.Tight() && r.Extended() && (p.Satisfies() ==> r.Satisfies())
    ensures Converted(p, r)
  {
    hide FieldElement.Fe.Value, FieldElement.Congruent, CurveEquation.OnCurve;
    var x := FeMul(p.X, p.T);
    var y := FeMul(p.Y, p.Z);
    var z := FeMul(p.Z, p.T);
    var t := FeMul(p.X, p.Y);
    r := P3(x, y, z, t);
    if p.Satisfies() {
      OnCurveModP(p.X.Value() * p.T.Value(), p.Y.Value() * p.Z.Value(), p.Z.Value() * p.T.Value(),
                  p.X.Value() * p.Y.Value(), x.Value(), y.Value(), z.Value(), t.Value(), FE_D.Value());
    }
    SegreProduct(p.X.Value(), p.Y.Value(), p.Z.Value(), p.T.Value(), x.Value(), y.Value(), z.Value(), t.Value());
  }

  ghost predicate Converted(p: P1P1, r: P3) {
    && Congruent(r.X.Value(), p.X.Value() * p.T.Value())
    && Congruent(r.Y.Value(), p.Y.Value() * p.Z.Value())
    && Congruent(r.Z.Value(), p.Z.Value() * p.T.Value())
  }

  lemma SegreProduct(x: int, y: int, z: int, t: int, rx: int, ry: int, rz: int, rt: int)
    requires Congruent(rx, x * t) && Congruent(ry, y * z) && Congruent(rz, z * t) && Congruent(rt, x * y)
    ensures Congruent(rx * ry, rz * rt)
  {
    hide FieldElement.Congruent;
    CongruentMul(rx, x * t, ry, y * z);
    CongruentMul(rz, z * t, rt, x * y);
    Shuffle4(x, y, t, z);
    MeetModP(rx * ry, (x * t) * (y * z), rz * rt, (z * t) * (x * y));
  }

  function P3ToP2(p: P3): P2 {
    P2(p.X, p.Y, p.Z)
  }

  method P3ToCached(p: P3) returns (r: Cached)
    requires p.Tight()
    ensures r.Tight() && r.Holds(p)
  {
    hide FieldElement.Fe.Value, FieldElement.Congruent;
    var plus := FeAdd(p.Y, p.X, 101, 101);
    var minus := FeSub(p.Y, p.X, 101, 101);
    var t2d := FeMul(p.T, FE_D2);
    r := Cached(plus, minus, p.Z, t2d);
  }

  // ---------------------------------------------------------------------------
  // Point formulas
  // ---------------------------------------------------------------------------

  /** (Y + X) * plus, (Y - X) * minus and t2d * T. */
  method Factors(p: P3, plus: Fe, minus: Fe, t2d: Fe) returns (a: Fe, b: Fe, c: Fe)
    requires p.Tight() && plus.Within(202) && minus.Within(202) && t2d.Within(101)
    ensures a.Within(101) && b.Within(101) && c.Within(101)
    ensures Congruent(a.Value(), (p.Y.Value() + p.X.Value()) * plus.Value())
    ensures Congruent(b.Value(), (p.Y.Value() - p.X.Value()) * minus.Value())
    ensures Congruent(c.Value(), t2d.Value() * p.T.Value())
  {
    hide FieldElement.Fe.Value, FieldElement.Congruent;
    a := FeAdd(p.Y, p.X, 101, 101);
    b := FeSub(p.Y, p.X, 101, 101);
    a := FeMul(a, plus);
    b := FeMul(b, minus);
    c := FeMul(t2d, p.T);
  }

  /** t is z + z, limb by limb. */
  ghost predicate IsTwice(z: Fe, t: Fe) {
    t.AsLimbs() == z.AsLimbs().Plus(z.AsLimbs())
  }

  /** The operand that every addition formula hands to fe_add and fe_sub. It keeps the bound those are documented for if
      and only if z keeps half of it. */
  method Twice(z: Fe) returns (t: Fe)
    requires z.Within(101)
    ensures t.Within(202) && t.Value() == 2 * z.Value() && IsTwice(z, t)
    ensures t.Within(ADD_INPUT) <==> z.Within(55)
  {
    hide FieldElement.Fe.Value;
    t := FeAdd(z, z, 101, 101);
    TwiceWithin(z, t);
  }

  lemma TwiceWithin(z: Fe, t: Fe)
    requires IsTwice(z, t)
    ensures t.Within(ADD_INPUT) <==> z.Within(55)
  {
  }

  /** The limbs that fe_mul leaves are within c. */
  ghost predicate ProductWithin(f: Fe, g: Fe, c: nat) {
    forall h :: IsProduct(f, g, h) ==> h.Within(c)
  }

  /** When adding two points, z is the product of their Z: what the callers can tell beforehand. */
  lemma TwiceProductWithin(p: P3, q: Cached, zz: Fe, t: Fe)
    requires IsProduct(p.Z, q.Z, zz) && IsTwice(zz, t)
    ensures t.Within(ADD_INPUT) <==> ProductWithin(p.Z, q.Z, 55)
  {
    hide IsProduct;
    TwiceWithin(zz, t);
    forall h | IsProduct(p.Z, q.Z, h) ensures h == zz {
      ProductIsUnique(p.Z, q.Z, h, zz);
    }
  }

  /** (0 : 1 : 1 : 0), scaled by z. */
  function Neutral(z: int32): P3 {
    P3(Small(0), Small(z), Small(z), Small(0))
  }

  lemma NeutralIsPoint(z: int32)
    requires -0x200_0000 <= z <= 0x200_0000 && z != 0
    ensures Neutral(z).Tight() && Neutral(z).IsPoint()
  {
    hide FieldElement.Fe.Value, FieldElement.Congruent, CurveEquation.OnCurve, Zero;
    SmallValue(0);
    SmallValue(z);
    NeutralIsOnCurve(z as int, FE_D.Value());
    SmallIsNotZero(z as int);
  }

  lemma SmallValue(x: int32)
    ensures Small(x).Value() == x as int
  {
    hide FieldElement.Fe.Value;
    ValueOf(Small(x));
  }

  lemma NeutralIsOnCurve(z: int, d: int)
    ensures OnCurve(0, z, z, 0, d)
  {
    hide FieldElement.Congruent;
    Reflexive(0);
    Reflexive(z * z);
    assert 0 * z == 0 == z * 0 && z * z - 0 * 0 == z * z == z * z + d * (0 * 0);
  }

  /** A point whose table additions, and whose additions of (0 : 1 : 1 : 0), exceed the documented bound. */
  lemma OperandExceedsBound()
    ensures var p := Neutral(20_000_000);
            && p.Tight() && p.IsPoint() && IsProduct(p.Z, Small(1), p.Z)
            && forall t :: IsTwice(p.Z, t) ==> !t.Within(ADD_INPUT)
  {
    hide FieldElement.Fe.Value, FieldElement.Congruent, IsProduct, P3.IsPoint;
    SmallProduct(20_000_000, 1, 20_000_000);
    NeutralIsPoint(20_000_000);
  }

  /** |f| + |g| is within c, limb by limb. */
  ghost predicate TogetherWithin(f: Fe, g: Fe, c: nat) {
    && Together(f.x0, g.x0, c * 0x200_0000) && Together(f.x1, g.x1, c * 0x100_0000)
    && Together(f.x2, g.x2, c * 0x200_0000) && Together(f.x3, g.x3, c * 0x100_0000)
    && Together(f.x4, g.x4, c * 0x200_0000) && Together(f.x5, g.x5, c * 0x100_0000)
    && Together(f.x6, g.x6, c * 0x200_0000) && Together(f.x7, g.x7, c * 0x100_0000)
    && Together(f.x8, g.x8, c * 0x200_0000) && Together(f.x9, g.x9, c * 0x100_0000)
  }

  ghost predicate Together(x: int32, y: int32, b: nat) {
    100 * (Abs(x as int) + Abs(y as int)) <= b
  }

  function Abs(x: int): (a: nat) {
    if x < 0 then -x else x
  }

  /** The operands that doubling hands to fe_sub: both keep the documented bound if and only if the squares do
      together. */
  method SumAndDifference(yy: Fe, xx: Fe) returns (y: Fe, z: Fe)
    requires yy.Within(101) && xx.Within(101)
    ensures y.Within(202) && y.Value() == yy.Value() + xx.Value()
    ensures z.Within(202) && z.Value() == yy.Value() - xx.Value()
    ensures y.Within(ADD_INPUT) && z.Within(ADD_INPUT) <==> TogetherWithin(yy, xx, ADD_INPUT)
  {
    hide FieldElement.Fe.Value;
    y := FeAdd(yy, xx, 101, 101);
    z := FeSub(yy, xx, 101, 101);
    BothWithin(yy, xx, y, z);
  }

  lemma BothWithin(yy: Fe, xx: Fe, y: Fe, z: Fe)
    requires y.AsLimbs() == yy.AsLimbs().Plus(xx.AsLimbs()) && yy.AsLimbs() == z.AsLimbs().Plus(xx.AsLimbs())
    ensures y.Within(ADD_INPUT) && z.Within(ADD_INPUT) <==> TogetherWithin(yy, xx, ADD_INPUT)
  {
  }

  /** Tight coordinates X = Y whose squares do not. */
  lemma DoublingExceedsBound()
    ensures Small(5_000).Within(101) && IsProduct(Small(5_000), Small(5_000), Small(25_000_000))
    ensures !TogetherWithin(Small(25_000_000), Small(25_000_000), ADD_INPUT)
  {
    hide IsProduct;
    SmallProduct(5_000, 5_000, 25_000_000);
  }

  /** a - b, a + b, t0 + c and t0 - c. */
  method Combine(a: Fe, b: Fe, t0: Fe, c: Fe) returns (x: Fe, y: Fe, u: Fe, v: Fe)
    requires a.Within(101) && b.Within(101) && t0.Within(202) && c.Within(101)
    ensures x.Within(303) && y.Within(303) && u.Within(303) && v.Within(303)
    ensures x.Value() == a.Value() - b.Value() && y.Value() == a.Value() + b.Value()
    ensures u.Value() == t0.Value() + c.Value() && v.Value() == t0.Value() - c.Value()
  {
    x := FeSub(a, b, 101, 101);
    y := FeAdd(a, b, 101, 101);
    u := FeAdd(t0, c, 202, 101);
    v := FeSub(t0, c, 202, 101);
  }

  lemma SumsAreCongruent(a: int, a': int, b: int, b': int, z: int, z': int, c: int, c': int)
    requires Congruent(a, a') && Congruent(b, b') && Congruent(z, z') && Congruent(c, c')
    ensures Congruent(a - b, a' - b') && Congruent(a + b, a' + b')
    ensures Congruent(2 * z + c, 2 * z' + c') && Congruent(2 * z - c, 2 * z' - c')
  {
    CongruentAdd(a, a', b, b');
    CongruentAdd(z, z', z, z');
    CongruentAdd(2 * z, 2 * z', c, c');
  }

  method GeAdd(p: P3, q: Cached) returns (r: P1P1)
    requires p.Tight() && q.Tight()
    ensures r.Loose()
    ensures SumFormula(r.X.Value(), r.Y.Value(), r.Z.Value(), r.T.Value(), p.X.Value(), p.Y.Value(), p.Z.Value(),
                       q.YplusX.Value(), q.YminusX.Value(), q.T2d.Value() * p.T.Value(), q.Z.Value())
  {
    hide FieldElement.Fe.Value, FieldElement.Congruent;
    var a, b, c := Factors(p, q.YplusX, q.YminusX, q.T2d);
    var zz := FeMul(p.Z, q.Z);
    var t0 := Twice(zz);
    var x, y, z, t := Combine(a, b, t0, c);
    r := P1P1(x, y, z, t);
    SumsAreCongruent(a.Value(), (p.Y.Value() + p.X.Value()) * q.YplusX.Value(), b.Value(),
                     (p.Y.Value() - p.X.Value()) * q.YminusX.Value(), zz.Value(), p.Z.Value() * q.Z.Value(), c.Value(),
                     q.T2d.Value() * p.T.Value());
  }

  method GeSub(p: P3, q: Cached) returns (r: P1P1)
    requires p.Tight() && q.Tight()
    ensures r.Loose()
    ensures SumFormula(r.X.Value(), r.Y.Value(), r.Z.Value(), r.T.Value(), p.X.Value(), p.Y.Value(), p.Z.Value(),
                       q.YminusX.Value(), q.YplusX.Value(), -(q.T2d.Value() * p.T.Value()), q.Z.Value())
  {
    hide FieldElement.Fe.Value, FieldElement.Congruent;
    var a, b, c := Factors(p, q.YminusX, q.YplusX, q.T2d);
    var zz := FeMul(p.Z, q.Z);
    var t0 := Twice(zz);
    var x, y, t, z := Combine(a, b, t0, c);
    r := P1P1(x, y, z, t);
    SumsAreCongruent(a.Value(), (p.Y.Value() + p.X.Value()) * q.YminusX.Value(), b.Value(),
                     (p.Y.Value() - p.X.Value()) * q.YplusX.Value(), zz.Value(), p.Z.Value() * q.Z.Value(), c.Value(),
                     q.T2d.Value() * p.T.Value());
  }

  method GeMadd(p: P3, q: Precomp) returns (r: P1P1)
    requires p.Tight() && q.Tight()
    ensures r.Loose()
    ensures SumFormula(r.X.Value(), r.Y.Value(), r.Z.Value(), r.T.Value(), p.X.Value(), p.Y.Value(), p.Z.Value(),
                       q.yplusx.Value(), q.yminusx.Value(), q.xy2d.Value() * p.T.Value(), 1)
  {
    hide FieldElement.Fe.Value, FieldElement.Congruent;
    var a, b, c := Factors(p, q.yplusx, q.yminusx, q.xy2d);
    var t0 := Twice(p.Z);
    Reflexive(p.Z.Value());
    var x, y, z, t := Combine(a, b, t0, c);
    r := P1P1(x, y, z, t);
    SumsAreCongruent(a.Value(), (p.Y.Value() + p.X.Value()) * q.yplusx.Value(), b.Value(),
                     (p.Y.Value() - p.X.Value()) * q.yminusx.Value(), p.Z.Value(), p.Z.Value(), c.Value(),
                     q.xy2d.Value() * p.T.Value());
  }

  method GeMsub(p: P3, q: Precomp) returns (r: P1P1)
    requires p.Tight() && q.Tight()
    ensures r.Loose()
    ensures SumFormula(r.X.Value(), r.Y.Value(), r.Z.Value(), r.T.Value(), p.X.Value(), p.Y.Value(), p.Z.Value(),
                       q.yminusx.Value(), q.yplusx.Value(), -(q.xy2d.Value() * p.T.Value()), 1)
  {
    hide FieldElement.Fe.Value, FieldElement.Congruent;
    var a, b, c := Factors(p, q.yminusx, q.yplusx, q.xy2d);
    var t0 := Twice(p.Z);
    Reflexive(p.Z.Value());
    var x, y, t, z := Combine(a, b, t0, c);
    r := P1P1(x, y, z, t);
    SumsAreCongruent(a.Value(), (p.Y.Value() + p.X.Value()) * q.yminusx.Value(), b.Value(),
                     (p.Y.Value() - p.X.Value()) * q.yplusx.Value(), p.Z.Value(), p.Z.Value(), c.Value(),
                     q.xy2d.Value() * p.T.Value());
  }

  method GeP2Dbl(p: P2) returns (r: P1P1)
    requires p.Tight()
    ensures r.Loose()
    ensures Congruent(r.X.Value(), 2 * (p.X.Value() * p.Y.Value()))
    ensures Congruent(r.Y.Value(), p.Y.Value() * p.Y.Value() + p.X.Value() * p.X.Value())
    ensures Congruent(r.Z.Value(), p.Y.Value() * p.Y.Value() - p.X.Value() * p.X.Value())
    ensures Congruent(r.T.Value(),
                      2 * (p.Z.Value() * p.Z.Value()) - (p.Y.Value() * p.Y.Value() - p.X.Value() * p.X.Value()))
  {
    hide FieldElement.Fe.Value, FieldElement.Congruent;
    var xx, yy, zz2, sum2 := Squared(p);
    var y, z := SumAndDifference(yy, xx);
    var x := FeSub(sum2, y, 101, 202);
    var t := FeSub(zz2, z, 101, 202);
    r := P1P1(x, y, z, t);
    DoublingIsCongruent(p.X.Value(), p.Y.Value(), p.Z.Value(), xx.Value(), yy.Value(), zz2.Value(), sum2.Value());
  }

  method Squared(p: P2) returns (xx: Fe, yy: Fe, zz2: Fe, sum2: Fe)
    requires p.Tight()
    ensures xx.Within(101) && yy.Within(101) && zz2.Within(101) && sum2.Within(101)
    ensures Congruent(xx.Value(), p.X.Value() * p.X.Value())
    ensures Congruent(yy.Value(), p.Y.Value() * p.Y.Value())
    ensures Congruent(zz2.Value(), 2 * (p.Z.Value() * p.Z.Value()))
    ensures Congruent(sum2.Value(), (p.X.Value() + p.Y.Value()) * (p.X.Value() + p.Y.Value()))
  {
    hide FieldElement.Fe.Value, FieldElement.Congruent;
    xx := FeSq(p.X);
    yy := FeSq(p.Y);
    zz2 := FeSq2(p.Z);
    var sum := FeAdd(p.X, p.Y, 101, 101);
    sum2 := FeSq(sum);
  }

  lemma DoublingIsCongruent(x: int, y: int, z: int, xx: int, yy: int, zz2: int, sum2: int)
    requires Congruent(xx, x * x) && Congruent(yy, y * y) && Congruent(zz2, 2 * (z * z)) &&
             Congruent(sum2, (x + y) * (x + y))
    ensures Congruent(yy + xx, y * y + x * x) && Congruent(yy - xx, y * y - x * x)
    ensures Congruent(sum2 - (yy + xx), 2 * (x * y))
    ensures Congruent(zz2 - (yy - xx), 2 * (z * z) - (y * y - x * x))
  {
    CongruentAdd(yy, y * y, xx, x * x);
    CongruentAdd(sum2, (x + y) * (x + y), yy + xx, y * y + x * x);
    CongruentAdd(zz2, 2 * (z * z), yy - xx, y * y - x * x);
    assert (x + y) * (x + y) - (y * y + x * x) == 2 * (x * y);
  }

  // ---------------------------------------------------------------------------
  // Sums of two points, and runs
  // ---------------------------------------------------------------------------

  /** The sum of two points, given as k times r, is a point: no denominator vanishes. */
  lemma SumIsPoint(k: int, r: P3, p: P3, x: int, y: int, z: int, t: int)
    requires FieldHypotheses() && p.IsPoint() && OnCurve(x, y, z, t, FE_D.Value()) && !Zero(z)
    requires r.IsSum(k, p, x, y, z, t) && r.Satisfies()
    ensures r.IsPoint()
  {
    hide FieldElement.Fe.Value, FieldElement.Congruent, PIsPrime, IsNonsquare, Zero, OnCurve, CurveEquation.Sum;
    CurveConstants();
    SumIsNonzero(k, r.X.Value(), r.Y.Value(), r.Z.Value(), p.X.Value(), p.Y.Value(), p.Z.Value(), p.T.Value(),
                 x, y, z, t, FE_D.Value(), FE_D2.Value(), FE_SQRTM1.Value());
  }

  /** And it is the affine sum. */
  lemma SumIsAffineSum(k: int, r: P3, p: P3, x: int, y: int, z: int, t: int, a1: int, b1: int, a2: int, b2: int,
                       a3: int, b3: int)
    requires FieldHypotheses() && p.IsPoint() && OnCurve(x, y, z, t, FE_D.Value()) && !Zero(z)
    requires r.IsSum(k, p, x, y, z, t) && p.Affine(a1, b1) && At(x, y, z, a2, b2) && r.Affine(a3, b3)
    ensures AffineSum(a1, b1, a2, b2, a3, b3, FE_D.Value())
  {
    hide FieldElement.Fe.Value, FieldElement.Congruent, PIsPrime, IsNonsquare, Zero, OnCurve, CurveEquation.Sum, At,
         AffineSum;
    CurveConstants();
    AffineLaw(k, r.X.Value(), r.Y.Value(), r.Z.Value(), p.X.Value(), p.Y.Value(), p.Z.Value(), p.T.Value(), x, y, z, t,
              FE_D.Value(), FE_D2.Value(), FE_SQRTM1.Value(), a1, b1, a2, b2, a3, b3);
  }

  /** A point has an affine point, one only, and it is on the curve. */
  lemma PointIsAffine(p: P3) returns (a: int, b: int)
    requires FieldHypotheses() && p.IsPoint()
    ensures p.Affine(a, b) && OnCurve(a, b, 1, a * b, FE_D.Value())
    ensures forall a', b' :: p.Affine(a', b') ==> Congruent(a', a) && Congruent(b', b)
  {
    hide FieldElement.Fe.Value, FieldElement.Congruent, PIsPrime, IsNonsquare, Zero, OnCurve, At;
    a, b := AffineExists(p.X.Value(), p.Y.Value(), p.Z.Value());
    AffineIsOnCurve(p.X.Value(), p.Y.Value(), p.Z.Value(), p.T.Value(), FE_D.Value(), a, b);
    forall a', b' | p.Affine(a', b') ensures Congruent(a', a) && Congruent(b', b) {
      AffineIsUnique(p.X.Value(), p.Y.Value(), p.Z.Value(), a', b', a, b);
    }
  }

  method AddPoints(p: P3, q: P3) returns (r: P3)
    requires p.Tight() && q.Tight()
    ensures r.Tight() && r.Extended() && (p.Satisfies() && q.Satisfies() ==> r.Satisfies())
    ensures r.IsSum(1, p, q.X.Value(), q.Y.Value(), q.Z.Value(), q.T.Value())
    ensures FieldHypotheses() && p.IsPoint() && q.IsPoint() ==> r.IsPoint()
  {
    hide FieldElement.Fe.Value, FieldElement.Congruent, FieldElement.Fe.Within, CurveEquation.OnCurve,
         CurveEquation.Completed, CurveEquation.SumFormula, CurveEquation.Sum, P3.Extended, FieldHypotheses, Zero;
    var cached := P3ToCached(q);
    var t := GeAdd(p, cached);
    CurveConstants();
    AddedIsPoint(t.X.Value(), t.Y.Value(), t.Z.Value(), t.T.Value(), p.X.Value(), p.Y.Value(), p.Z.Value(), p.T.Value(),
                 q.X.Value(), q.Y.Value(), q.Z.Value(), q.T.Value(), cached.T2d.Value(), FE_D.Value(), FE_D2.Value());
    r := P1P1ToP3(t);
    Reflexive(q.Y.Value() + q.X.Value());
    Reflexive(q.Y.Value() - q.X.Value());
    AddedIsSum(t.X.Value(), t.Y.Value(), t.Z.Value(), t.T.Value(), p.X.Value(), p.Y.Value(), p.Z.Value(), p.T.Value(),
               q.X.Value(), q.Y.Value(), q.Z.Value(), q.T.Value(), cached.YplusX.Value(), cached.YminusX.Value(),
               cached.T2d.Value(), FE_D2.Value(), r.X.Value(), r.Y.Value(), r.Z.Value());
    if FieldHypotheses() && p.IsPoint() && q.IsPoint() {
      SumIsPoint(1, r, p, q.X.Value(), q.Y.Value(), q.Z.Value(), q.T.Value());
    }
  }

  /** Subtraction adds the negative (-X2, Y2, Z2, -T2). */
  method SubPoints(p: P3, q: P3) returns (r: P3)
    requires p.Tight() && q.Tight()
    ensures r.Tight() && r.Extended() && (p.Satisfies() && q.Satisfies() ==> r.Satisfies())
    ensures r.IsSum(1, p, -q.X.Value(), q.Y.Value(), q.Z.Value(), -q.T.Value())
    ensures FieldHypotheses() && p.IsPoint() && q.IsPoint() ==> r.IsPoint()
  {
    hide FieldElement.Fe.Value, FieldElement.Congruent, FieldElement.Fe.Within, CurveEquation.OnCurve,
         CurveEquation.Completed, CurveEquation.SumFormula, CurveEquation.Sum, P3.Extended, FieldHypotheses, Zero;
    var cached := P3ToCached(q);
    var t := GeSub(p, cached);
    CurveConstants();
    SubtractedIsPoint(t.X.Value(), t.Y.Value(), t.Z.Value(), t.T.Value(), p.X.Value(), p.Y.Value(), p.Z.Value(),
                      p.T.Value(), q.X.Value(), q.Y.Value(), q.Z.Value(), q.T.Value(), cached.T2d.Value(), FE_D.Value(),
                      FE_D2.Value());
    r := P1P1ToP3(t);
    Reflexive(q.Y.Value() + q.X.Value());
    Reflexive(q.Y.Value() - q.X.Value());
    NegatedFactor(cached.T2d.Value(), q.T.Value(), FE_D2.Value(), p.T.Value());
    AddedIsSum(t.X.Value(), t.Y.Value(), t.Z.Value(), t.T.Value(), p.X.Value(), p.Y.Value(), p.Z.Value(), p.T.Value(),
               -q.X.Value(), q.Y.Value(), q.Z.Value(), -q.T.Value(), cached.YminusX.Value(), cached.YplusX.Value(),
               -cached.T2d.Value(), FE_D2.Value(), r.X.Value(), r.Y.Value(), r.Z.Value());
    if FieldHypotheses() && p.IsPoint() && q.IsPoint() {
      Negated(q.X.Value(), q.Y.Value(), q.Z.Value(), q.T.Value(), FE_D.Value());
      SumIsPoint(1, r, p, -q.X.Value(), q.Y.Value(), q.Z.Value(), -q.T.Value());
    }
  }

  lemma NegatedFactor(t2d: int, t2: int, d2: int, t1: int)
    requires Congruent(t2d, t2 * d2)
    ensures Congruent(-t2d, -t2 * d2) && -t2d * t1 == -(t2d * t1)
  {
    hide FieldElement.Congruent;
    CongruentNeg(t2d, t2 * d2);
    NegProduct(t2, d2);
    NegProduct(t2d, t1);
  }

  /** Adding an entry of a table, which stands for an affine point. */
  method MaddPoint(p: P3, q: Precomp) returns (r: P3)
    requires p.Tight() && q.Tight()
    ensures r.Tight() && r.Extended() && (p.Satisfies() && q.IsPoint() ==> r.Satisfies())
    ensures forall x, y :: q.Holds(x, y) ==> r.IsSum(1, p, x, y, 1, x * y)
    ensures FieldHypotheses() && p.IsPoint() && q.IsPoint() ==> r.IsPoint()
  {
    hide FieldElement.Fe.Value, FieldElement.Congruent, FieldElement.Fe.Within, CurveEquation.OnCurve,
         CurveEquation.Completed, CurveEquation.SumFormula, CurveEquation.Sum, P3.Extended, FieldHypotheses, Zero;
    var t := GeMadd(p, q);
    if p.Satisfies() && q.IsPoint() {
      ghost var x, y :| q.Holds(x, y);
      CurveConstants();
      EntryIsPoint(t.X.Value(), t.Y.Value(), t.Z.Value(), t.T.Value(), p.X.Value(), p.Y.Value(), p.Z.Value(),
                   p.T.Value(), x, y, q.yplusx.Value(), q.yminusx.Value(), q.xy2d.Value(), FE_D.Value(), FE_D2.Value());
    }
    r := P1P1ToP3(t);
    forall x, y | q.Holds(x, y) ensures r.IsSum(1, p, x, y, 1, x * y) {
      AddedIsSum(t.X.Value(), t.Y.Value(), t.Z.Value(), t.T.Value(), p.X.Value(), p.Y.Value(), p.Z.Value(), p.T.Value(),
                 x, y, 1, x * y, q.yplusx.Value(), q.yminusx.Value(), q.xy2d.Value(), FE_D2.Value(),
                 r.X.Value(), r.Y.Value(), r.Z.Value());
    }
    if FieldHypotheses() && p.IsPoint() && q.IsPoint() {
      ghost var x, y :| q.Holds(x, y);
      SmallIsNotZero(1);
      SumIsPoint(1, r, p, x, y, 1, x * y);
    }
  }

  /** Subtracting one adds the negative (-x, y). */
  method MsubPoint(p: P3, q: Precomp) returns (r: P3)
    requires p.Tight() && q.Tight()
    ensures r.Tight() && r.Extended() && (p.Satisfies() && q.IsPoint() ==> r.Satisfies())
    ensures forall x, y :: q.Holds(x, y) ==> r.IsSum(1, p, -x, y, 1, -(x * y))
    ensures FieldHypotheses() && p.IsPoint() && q.IsPoint() ==> r.IsPoint()
  {
    hide FieldElement.Fe.Value, FieldElement.Congruent, FieldElement.Fe.Within, CurveEquation.OnCurve,
         CurveEquation.Completed, CurveEquation.SumFormula, CurveEquation.Sum, P3.Extended, FieldHypotheses, Zero;
    var t := GeMsub(p, q);
    if p.Satisfies() && q.IsPoint() {
      ghost var x, y :| q.Holds(x, y);
      CurveConstants();
      NegatedEntryIsPoint(t.X.Value(), t.Y.Value(), t.Z.Value(), t.T.Value(), p.X.Value(), p.Y.Value(), p.Z.Value(),
                          p.T.Value(), x, y, q.yplusx.Value(), q.yminusx.Value(), q.xy2d.Value(), FE_D.Value(),
                          FE_D2.Value());
    }
    r := P1P1ToP3(t);
    forall x, y | q.Holds(x, y) ensures r.IsSum(1, p, -x, y, 1, -(x * y)) {
      NegatedFactor(q.xy2d.Value(), x * y, FE_D2.Value(), p.T.Value());
      AddedIsSum(t.X.Value(), t.Y.Value(), t.Z.Value(), t.T.Value(), p.X.Value(), p.Y.Value(), p.Z.Value(), p.T.Value(),
                 -x, y, 1, -(x * y), q.yminusx.Value(), q.yplusx.Value(), -q.xy2d.Value(), FE_D2.Value(),
                 r.X.Value(), r.Y.Value(), r.Z.Value());
    }
    if FieldHypotheses() && p.IsPoint() && q.IsPoint() {
      ghost var x, y :| q.Holds(x, y);
      SmallIsNotZero(1);
      Negated(x, y, 1, x * y, FE_D.Value());
      SumIsPoint(1, r, p, -x, y, 1, -(x * y));
    }
  }

  /** Doubling leaves a quarter of what adding the point to itself would. */
  method DoublePoint(p: P3) returns (r: P3)
    requires p.Tight()
    ensures r.Tight() && r.Extended() && (p.Satisfies() ==> r.Satisfies())
    ensures p.Satisfies() ==> r.IsSum(4, p, p.X.Value(), p.Y.Value(), p.Z.Value(), p.T.Value())
    ensures FieldHypotheses() && p.IsPoint() ==> r.IsPoint()
  {
    hide FieldElement.Fe.Value, FieldElement.Congruent, FieldElement.Fe.Within, CurveEquation.OnCurve,
         CurveEquation.Completed, CurveEquation.Sum, P3.Extended, FieldHypotheses, Zero;
    var t := GeP2Dbl(P3ToP2(p));
    ghost var x, y, z := p.X.Value(), p.Y.Value(), p.Z.Value();
    if p.Satisfies() {
      DoubleIsCompleted(x, y, z, p.T.Value(), FE_D.Value());
      CompletedModP(2 * (x * y), y * y + x * x, y * y - x * x, 2 * (z * z) - (y * y - x * x),
                    t.X.Value(), t.Y.Value(), t.Z.Value(), t.T.Value(), FE_D.Value());
    }
    r := P1P1ToP3(t);
    if p.Satisfies() {
      CurveConstants();
      DoubledIsSum(t.X.Value(), t.Y.Value(), t.Z.Value(), t.T.Value(), x, y, z, p.T.Value(), FE_D.Value(),
                   FE_D2.Value(), r.X.Value(), r.Y.Value(), r.Z.Value());
    }
    if FieldHypotheses() && p.IsPoint() {
      SumIsPoint(4, r, p, x, y, z, p.T.Value());
    }
  }

  /** One step of a computation on points: operands are named by their place in the list of points so far. */
  datatype Op =
    | Add(i: nat, j: nat) | Sub(i: nat, j: nat) | Madd(i: nat, t: Precomp) | Msub(i: nat, t: Precomp) | Dbl(i: nat)
  {
    ghost predicate Valid(n: nat) {
      i < n && (Add? || Sub? ==> j < n) && (Madd? || Msub? ==> t.Tight())
    }

    ghost predicate TableIsPoint() {
      Madd? || Msub? ==> t.IsPoint()
    }
  }

  /** r is the sum, difference or double that op asks for. */
  ghost predicate Computes(points: seq<P3>, op: Op, r: P3)
    requires op.Valid(|points|)
  {
    var p := points[op.i];
    match op
    case Add(_, j) => var q := points[j]; r.IsSum(1, p, q.X.Value(), q.Y.Value(), q.Z.Value(), q.T.Value())
    case Sub(_, j) => var q := points[j]; r.IsSum(1, p, -q.X.Value(), q.Y.Value(), q.Z.Value(), -q.T.Value())
    case Madd(_, q) => forall x, y :: q.Holds(x, y) ==> r.IsSum(1, p, x, y, 1, x * y)
    case Msub(_, q) => forall x, y :: q.Holds(x, y) ==> r.IsSum(1, p, -x, y, 1, -(x * y))
    case Dbl(_) => p.Satisfies() ==> r.IsSum(4, p, p.X.Value(), p.Y.Value(), p.Z.Value(), p.T.Value())
  }

  method Apply(points: seq<P3>, op: Op) returns (r: P3)
    requires op.Valid(|points|) && forall p <- points :: p.Tight()
    ensures r.Tight() && r.Extended() && Computes(points, op, r)
    ensures AllSatisfy(points) && op.TableIsPoint() ==> r.Satisfies()
    ensures FieldHypotheses() && AllPoints(points) && op.TableIsPoint() ==> r.IsPoint()
  {
    hide P3.IsPoint, P3.Satisfies, P3.Extended, P3.Tight, P3.IsSum, Precomp.IsPoint, Precomp.Tight, Precomp.Holds,
         FieldHypotheses;
    match op
    case Add(i, j) =>
      r := AddPoints(points[i], points[j]);
    case Sub(i, j) =>
      r := SubPoints(points[i], points[j]);
    case Madd(i, q) =>
      r := MaddPoint(points[i], q);
    case Msub(i, q) =>
      r := MsubPoint(points[i], q);
    case Dbl(i) =>
      r := DoublePoint(points[i]);
  }

  /** No run of point operations, however long, leaves the bounds within which nothing overflows; each result is the
      one asked for; and a run that starts on the curve, with tables of points of the curve, stays on it. */
  method Run(start: seq<P3>, ops: seq<Op>) returns (points: seq<P3>)
    requires forall p <- start :: p.Tight()
    requires forall k :: 0 <= k < |ops| ==> ops[k].Valid(|start| + k)
    ensures |points| == |start| + |ops| && start <= points
    ensures forall p <- points :: p.Tight()
    ensures forall k :: |start| <= k < |points| ==> points[k].Extended()
    ensures forall k :: 0 <= k < |ops| ==> Computes(points[..|start| + k], ops[k], points[|start| + k])
    ensures AllSatisfy(start) && TablesArePoints(ops) ==> AllSatisfy(points)
    ensures FieldHypotheses() && AllPoints(start) && TablesArePoints(ops) ==> AllPoints(points)
  {
    hide P3.IsPoint, P3.Satisfies, P3.Extended, P3.Tight, Precomp.IsPoint, Precomp.Tight, Computes, FieldHypotheses;
    points := start;
    for k := 0 to |ops|
      invariant |points| == |start| + k && start <= points
      invariant forall p <- points :: p.Tight()
      invariant forall k :: |start| <= k < |points| ==> points[k].Extended()
      invariant forall m :: 0 <= m < k ==> Computes(points[..|start| + m], ops[m], points[|start| + m])
      invariant AllSatisfy(start) && TablesArePoints(ops) ==> AllSatisfy(points)
      invariant FieldHypotheses() && AllPoints(start) && TablesArePoints(ops) ==> AllPoints(points)
    {
      assert ops[k].Valid(|start| + k);
      var r := Apply(points, ops[k]);
      ghost var was := points;
      points := points + [r];
      forall m | 0 <= m < k ensures Computes(points[..|start| + m], ops[m], points[|start| + m]) {
        assert points[..|start| + m] == was[..|start| + m] && points[|start| + m] == was[|start| + m];
      }
      assert points[..|start| + k] == was;
    }
  }

  ghost predicate AllSatisfy(points: seq<P3>) {
    forall k :: 0 <= k < |points| ==> points[k].Satisfies()
  }

  ghost predicate AllPoints(points: seq<P3>) {
    forall k :: 0 <= k < |points| ==> points[k].IsPoint()
  }

  ghost predicate TablesArePoints(ops: seq<Op>) {
    forall k :: 0 <= k < |ops| ==> ops[k].TableIsPoint()
  }
}
