/** Arithmetic modulo 2^255 - 19 on ten signed limbs of alternately 26 and 25 bits
    (src/crypto/crypto-ops.c). A field element is read as
      x0 + 2^26 x1 + 2^51 x2 + 2^77 x3 + 2^102 x4 + 2^128 x5 + 2^153 x6 + 2^179 x7 + 2^204 x8 + 2^230 x9.

    The limbs and the intermediate sums have the widths of the original: every operation below
    on an int32 or an int64 is verified to stay in range. Each routine reads all of its
    operands before it writes its result, so results are returned as values and an
    overlap of the result with an operand is not observable.
 */
module FieldElement {
  import Words

  newtype int32 = x: int | -0x8000_0000 <= x < 0x8000_0000
  newtype int64 = x: int | -0x8000_0000_0000_0000 <= x < 0x8000_0000_0000_0000

  /** The field's prime. */
  const P: int := 0x7FFF_FFFF_FFFF_FFFF_FFFF_FFFF_FFFF_FFFF_FFFF_FFFF_FFFF_FFFF_FFFF_FFFF_FFFF_FFED

  /** Ten limbs without a width: what the int32 and the int64 vectors denote. */
  datatype Limbs = Limbs(x0: int, x1: int, x2: int, x3: int, x4: int, x5: int, x6: int, x7: int, x8: int, x9: int) {

    ghost function Value(): int {
      x0 + 0x400_0000 * x1 + 0x8_0000_0000_0000 * x2 + 0x2000_0000_0000_0000_0000 * x3 +
      0x40_0000_0000_0000_0000_0000_0000 * x4 +
      0x1_0000_0000_0000_0000_0000_0000_0000_0000 * x5 +
      0x200_0000_0000_0000_0000_0000_0000_0000_0000_0000 * x6 +
      0x8_0000_0000_0000_0000_0000_0000_0000_0000_0000_0000_0000 * x7 +
      0x1000_0000_0000_0000_0000_0000_0000_0000_0000_0000_0000_0000_0000 * x8 +
      0x40_0000_0000_0000_0000_0000_0000_0000_0000_0000_0000_0000_0000_0000_0000 * x9
    }

    ghost function Times(y: int): Limbs {
      Limbs(y * x0, y * x1, y * x2, y * x3, y * x4, y * x5, y * x6, y * x7, y * x8, y * x9)
    }

    ghost function Plus(y: Limbs): Limbs {
      Limbs(x0 + y.x0, x1 + y.x1, x2 + y.x2, x3 + y.x3, x4 + y.x4, x5 + y.x5, x6 + y.x6, x7 + y.x7, x8 + y.x8,
            x9 + y.x9)
    }

    /** Times 2^26: two odd places meet at twice an even one, and 2^255 comes back as 19. */
    ghost function Times26(): Limbs {
      Limbs(38 * x9, x0, 2 * x1, x2, 2 * x3, x4, 2 * x5, x6, 2 * x7, x8)
    }

    /** Times 2^51: a shift by two places, where 2^255 comes back as 19. */
    ghost function Times51(): Limbs {
      Limbs(19 * x8, 19 * x9, x0, x1, x2, x3, x4, x5, x6, x7)
    }

    // One line of the carry chain each: carry out of a limb into the next one.

    ghost function Carry0(): Limbs {
      this.(x0 := x0 - T26 * Carry(x0, T26), x1 := x1 + Carry(x0, T26))
    }

    ghost function Carry1(): Limbs {
      this.(x1 := x1 - T25 * Carry(x1, T25), x2 := x2 + Carry(x1, T25))
    }

    ghost function Carry2(): Limbs {
      this.(x2 := x2 - T26 * Carry(x2, T26), x3 := x3 + Carry(x2, T26))
    }

    ghost function Carry3(): Limbs {
      this.(x3 := x3 - T25 * Carry(x3, T25), x4 := x4 + Carry(x3, T25))
    }

    ghost function Carry4(): Limbs {
      this.(x4 := x4 - T26 * Carry(x4, T26), x5 := x5 + Carry(x4, T26))
    }

    ghost function Carry5(): Limbs {
      this.(x5 := x5 - T25 * Carry(x5, T25), x6 := x6 + Carry(x5, T25))
    }

    ghost function Carry6(): Limbs {
      this.(x6 := x6 - T26 * Carry(x6, T26), x7 := x7 + Carry(x6, T26))
    }

    ghost function Carry7(): Limbs {
      this.(x7 := x7 - T25 * Carry(x7, T25), x8 := x8 + Carry(x7, T25))
    }

    ghost function Carry8(): Limbs {
      this.(x8 := x8 - T26 * Carry(x8, T26), x9 := x9 + Carry(x8, T26))
    }

    /** The carry out of the top limb, 2^255, comes back as 19. */
    ghost function Carry9(): Limbs {
      this.(x9 := x9 - T25 * Carry(x9, T25), x0 := x0 + 19 * Carry(x9, T25))
    }
  }

  datatype Fe = Fe(x0: int32, x1: int32, x2: int32, x3: int32, x4: int32,
                   x5: int32, x6: int32, x7: int32, x8: int32, x9: int32) {

    ghost function AsLimbs(): Limbs {
      Limbs(x0 as int, x1 as int, x2 as int, x3 as int, x4 as int,
                  x5 as int, x6 as int, x7 as int, x8 as int, x9 as int)
    }

    ghost function Value(): int {
      MixedRadix([x0 as int, x1 as int, x2 as int, x3 as int, x4 as int,
                  x5 as int, x6 as int, x7 as int, x8 as int, x9 as int], 0x400_0000, 0x200_0000)
    }

    /** The magnitude bounds of the source, in hundredths: Within(101) is
        "bounded by 1.01*2^25, 1.01*2^24, 1.01*2^25, 1.01*2^24, etc.". */
    ghost predicate Within(c: nat) {
      && Bounded(x0, c * 0x200_0000) && Bounded(x1, c * 0x100_0000)
      && Bounded(x2, c * 0x200_0000) && Bounded(x3, c * 0x100_0000)
      && Bounded(x4, c * 0x200_0000) && Bounded(x5, c * 0x100_0000)
      && Bounded(x6, c * 0x200_0000) && Bounded(x7, c * 0x100_0000)
      && Bounded(x8, c * 0x200_0000) && Bounded(x9, c * 0x100_0000)
    }
  }

  /** Digits with radices r, q, r, q, ... */
  ghost function MixedRadix(s: seq<int>, r: int, q: int): int
    decreases |s|
  {
    if s == [] then 0 else s[0] + r * MixedRadix(s[1..], q, r)
  }

  lemma MixedRadixStep(x: int, s: seq<int>, r: int, q: int)
    ensures MixedRadix([x] + s, r, q) == x + r * MixedRadix(s, q, r)
  {
    assert ([x] + s)[1..] == s;
  }

  lemma LastTwo(x: int, y: int, r: int, q: int)
    ensures MixedRadix([x, y], r, q) == x + r * y
  {
    MixedRadixStep(y, [], q, r);
    MixedRadixStep(x, [y], r, q);
    assert [y] + [] == [y] && [x] + [y] == [x, y];
  }

  /** The value written out. */
  lemma ValueOf(h: Fe)
    ensures h.Value() == h.AsLimbs().Value()
  {
    RadixValue(h.x0 as int, h.x1 as int, h.x2 as int, h.x3 as int, h.x4 as int,
               h.x5 as int, h.x6 as int, h.x7 as int, h.x8 as int, h.x9 as int);
  }

  lemma RadixValue(x0: int, x1: int, x2: int, x3: int, x4: int, x5: int, x6: int, x7: int, x8: int, x9: int)
    ensures MixedRadix([x0, x1, x2, x3, x4, x5, x6, x7, x8, x9], 0x400_0000, 0x200_0000) ==
            Limbs(x0, x1, x2, x3, x4, x5, x6, x7, x8, x9).Value()
  {
    hide MixedRadix;
    var r, q := 0x400_0000, 0x200_0000;
    var s8 := [x8, x9];
    LastTwo(x8, x9, r, q);
    assert [x0, x1, x2, x3, x4, x5, x6, x7, x8, x9] ==
           [x0] + ([x1] + ([x2] + ([x3] + ([x4] + ([x5] + ([x6] + ([x7] + s8)))))));
    MixedRadixStep(x7, s8, q, r);
    MixedRadixStep(x6, [x7] + s8, r, q);
    MixedRadixStep(x5, [x6] + ([x7] + s8), q, r);
    MixedRadixStep(x4, [x5] + ([x6] + ([x7] + s8)), r, q);
    MixedRadixStep(x3, [x4] + ([x5] + ([x6] + ([x7] + s8))), q, r);
    MixedRadixStep(x2, [x3] + ([x4] + ([x5] + ([x6] + ([x7] + s8)))), r, q);
    MixedRadixStep(x1, [x2] + ([x3] + ([x4] + ([x5] + ([x6] + ([x7] + s8))))), q, r);
    MixedRadixStep(x0, [x1] + ([x2] + ([x3] + ([x4] + ([x5] + ([x6] + ([x7] + s8)))))), r, q);
  }

  ghost predicate Bounded(x: int32, hundredths: int) {
    -hundredths <= 100 * (x as int) <= hundredths
  }

  /** fe_mul and fe_sq take limbs up to 1.65*2^26, 1.65*2^25, ... and return limbs up to 1.01*2^25, 1.01*2^24, ... */
  const MUL_INPUT: nat := 330
  const MUL_OUTPUT: nat := 101

  /** Modulo P. */
  ghost predicate Congruent(a: int, b: int) {
    exists k :: Differ(a, b, k)
  }

  /** By k times P. The modulus is named only where a proof asks for it: see CongruentQuotient. */
  ghost predicate Differ(a: int, b: int, k: int) {
    forall m :: IsModulus(m) ==> a == b + m * k
  }

  ghost predicate IsModulus(m: int) {
    m == P
  }

  lemma CongruentByQuotient(a: int, b: int, k: int)
    requires a == b + P * k
    ensures Congruent(a, b)
  {
    assert Differ(a, b, k);
  }

  lemma CongruentQuotient(a: int, b: int) returns (k: int)
    requires Congruent(a, b)
    ensures a == b + P * k
  {
    k :| Differ(a, b, k);
    assert IsModulus(P);
  }

  lemma CongruentExactly(a: int, b: int)
    ensures Congruent(a, b) <==> (a - b) % P == 0
  {
    if Congruent(a, b) {
      var k := CongruentQuotient(a, b);
      assert (P * k) % P == 0;
    }
    if (a - b) % P == 0 {
      CongruentByQuotient(a, b, (a - b) / P);
    }
  }

  // ---------------------------------------------------------------------------
  // Multiplication: schoolbook convolution, then a carry chain
  // ---------------------------------------------------------------------------

  /** The ten coefficients of the product of f and g, by Horner's rule on pairs of limbs of f. */
  ghost function Convolution(f: Limbs, g: Limbs): Limbs {
    Pair(f.x0, f.x1, g).Plus(
      Pair(f.x2, f.x3, g).Plus(
        Pair(f.x4, f.x5, g).Plus(
          Pair(f.x6, f.x7, g).Plus(
            Pair(f.x8, f.x9, g).Times51()).Times51()).Times51()).Times51())
  }

  /** (x + 2^26 y) * g */
  ghost function Pair(x: int, y: int, g: Limbs): Limbs {
    g.Times(x).Plus(g.Times(y).Times26())
  }

  lemma PairIsProduct(x: int, y: int, g: Limbs) returns (k: int)
    ensures (x + 0x400_0000 * y) * g.Value() == Pair(x, y, g).Value() + P * k
  {
    k := 2 * (y * g.x9);
  }

  lemma HornerStep(h: Limbs, t: Limbs) returns (k: int)
    ensures h.Value() + 0x8_0000_0000_0000 * t.Value() == h.Plus(t.Times51()).Value() + P * k
  {
    k := t.x8 + 0x400_0000 * t.x9;
  }

  /** The convolution denotes the product of the two numbers modulo P. */
  lemma ConvolutionIsProduct(f: Limbs, g: Limbs) returns (k: int)
    ensures f.Value() * g.Value() == Convolution(f, g).Value() + P * k
  {
    var t4 := Pair(f.x8, f.x9, g);
    var t3 := Pair(f.x6, f.x7, g).Plus(t4.Times51());
    var t2 := Pair(f.x4, f.x5, g).Plus(t3.Times51());
    var t1 := Pair(f.x2, f.x3, g).Plus(t2.Times51());
    var p4 := PairIsProduct(f.x8, f.x9, g);
    var p3 := PairIsProduct(f.x6, f.x7, g);
    var p2 := PairIsProduct(f.x4, f.x5, g);
    var p1 := PairIsProduct(f.x2, f.x3, g);
    var p0 := PairIsProduct(f.x0, f.x1, g);
    var k3 := HornerStep(Pair(f.x6, f.x7, g), t4);
    var k2 := HornerStep(Pair(f.x4, f.x5, g), t3);
    var k1 := HornerStep(Pair(f.x2, f.x3, g), t2);
    var k0 := HornerStep(Pair(f.x0, f.x1, g), t1);
    k := k2 + p2 + 0x8_0000_0000_0000 * (k3 + p3 + 0x8_0000_0000_0000 * p4);
    k := k0 + p0 + 0x8_0000_0000_0000 * (k1 + p1 + 0x8_0000_0000_0000 * k);
    Distribute(f, g.Value());
  }

  lemma Distribute(f: Limbs, v: int)
    ensures f.Value() * v ==
      (f.x0 + 0x400_0000 * f.x1) * v + 0x8_0000_0000_0000 * (
        (f.x2 + 0x400_0000 * f.x3) * v + 0x8_0000_0000_0000 * (
          (f.x4 + 0x400_0000 * f.x5) * v + 0x8_0000_0000_0000 * (
            (f.x6 + 0x400_0000 * f.x7) * v + 0x8_0000_0000_0000 * ((f.x8 + 0x400_0000 * f.x9) * v))))
  {
  }

  // The coefficients row by row: each is a sum of ten products.

  ghost predicate Rows01(f: Limbs, g: Limbs, h0: int, h1: int) {
    && h0 == f.x0 * g.x0 + 38 * (f.x1 * g.x9) + 19 * (f.x2 * g.x8) + 38 * (f.x3 * g.x7) + 19 * (f.x4 * g.x6) +
             38 * (f.x5 * g.x5) + 19 * (f.x6 * g.x4) + 38 * (f.x7 * g.x3) + 19 * (f.x8 * g.x2) + 38 * (f.x9 * g.x1)
    && h1 == f.x0 * g.x1 + f.x1 * g.x0 + 19 * (f.x2 * g.x9) + 19 * (f.x3 * g.x8) + 19 * (f.x4 * g.x7) +
             19 * (f.x5 * g.x6) + 19 * (f.x6 * g.x5) + 19 * (f.x7 * g.x4) + 19 * (f.x8 * g.x3) + 19 * (f.x9 * g.x2)
  }

  ghost predicate Rows23(f: Limbs, g: Limbs, h2: int, h3: int) {
    && h2 == f.x0 * g.x2 + 2 * (f.x1 * g.x1) + f.x2 * g.x0 + 38 * (f.x3 * g.x9) + 19 * (f.x4 * g.x8) +
             38 * (f.x5 * g.x7) + 19 * (f.x6 * g.x6) + 38 * (f.x7 * g.x5) + 19 * (f.x8 * g.x4) + 38 * (f.x9 * g.x3)
    && h3 == f.x0 * g.x3 + f.x1 * g.x2 + f.x2 * g.x1 + f.x3 * g.x0 + 19 * (f.x4 * g.x9) +
             19 * (f.x5 * g.x8) + 19 * (f.x6 * g.x7) + 19 * (f.x7 * g.x6) + 19 * (f.x8 * g.x5) + 19 * (f.x9 * g.x4)
  }

  ghost predicate Rows45(f: Limbs, g: Limbs, h4: int, h5: int) {
    && h4 == f.x0 * g.x4 + 2 * (f.x1 * g.x3) + f.x2 * g.x2 + 2 * (f.x3 * g.x1) + f.x4 * g.x0 +
             38 * (f.x5 * g.x9) + 19 * (f.x6 * g.x8) + 38 * (f.x7 * g.x7) + 19 * (f.x8 * g.x6) + 38 * (f.x9 * g.x5)
    && h5 == f.x0 * g.x5 + f.x1 * g.x4 + f.x2 * g.x3 + f.x3 * g.x2 + f.x4 * g.x1 +
             f.x5 * g.x0 + 19 * (f.x6 * g.x9) + 19 * (f.x7 * g.x8) + 19 * (f.x8 * g.x7) + 19 * (f.x9 * g.x6)
  }

  ghost predicate Rows67(f: Limbs, g: Limbs, h6: int, h7: int) {
    && h6 == f.x0 * g.x6 + 2 * (f.x1 * g.x5) + f.x2 * g.x4 + 2 * (f.x3 * g.x3) + f.x4 * g.x2 +
             2 * (f.x5 * g.x1) + f.x6 * g.x0 + 38 * (f.x7 * g.x9) + 19 * (f.x8 * g.x8) + 38 * (f.x9 * g.x7)
    && h7 == f.x0 * g.x7 + f.x1 * g.x6 + f.x2 * g.x5 + f.x3 * g.x4 + f.x4 * g.x3 +
             f.x5 * g.x2 + f.x6 * g.x1 + f.x7 * g.x0 + 19 * (f.x8 * g.x9) + 19 * (f.x9 * g.x8)
  }

  ghost predicate Rows89(f: Limbs, g: Limbs, h8: int, h9: int) {
    && h8 == f.x0 * g.x8 + 2 * (f.x1 * g.x7) + f.x2 * g.x6 + 2 * (f.x3 * g.x5) + f.x4 * g.x4 +
             2 * (f.x5 * g.x3) + f.x6 * g.x2 + 2 * (f.x7 * g.x1) + f.x8 * g.x0 + 38 * (f.x9 * g.x9)
    && h9 == f.x0 * g.x9 + f.x1 * g.x8 + f.x2 * g.x7 + f.x3 * g.x6 + f.x4 * g.x5 +
             f.x5 * g.x4 + f.x6 * g.x3 + f.x7 * g.x2 + f.x8 * g.x1 + f.x9 * g.x0
  }

  lemma RowsAreConvolution(f: Limbs, g: Limbs, h: Limbs)
    requires Rows01(f, g, h.x0, h.x1) && Rows23(f, g, h.x2, h.x3) && Rows45(f, g, h.x4, h.x5)
    requires Rows67(f, g, h.x6, h.x7) && Rows89(f, g, h.x8, h.x9)
    ensures h == Convolution(f, g)
  {
  }

  /** The nearest carry out of a limb of width n (arithmetic shift right of the half-adjusted limb). */
  ghost function Carry(x: int, n: int): int
    requires n > 0
  {
    (x + n / 2) / n
  }

  const T25: int := 0x200_0000
  const T26: int := 0x400_0000

  /** What the chain of twelve carries makes of ten wide coefficients. */
  ghost function Reduced(h: Limbs): Limbs {
    h.Carry0().Carry4().Carry1().Carry5().Carry2().Carry6().Carry3().Carry7().Carry4().Carry8().Carry9().Carry0()
  }

  /** The carry chain changes the number by a multiple of P only, whatever the coefficients. */
  lemma ReducedIsCongruent(h: Limbs) returns (k: int)
    ensures h.Value() == Reduced(h).Value() + P * k
  {
    var t := h.Carry0().Carry4().Carry1().Carry5();
    var u := t.Carry2().Carry6().Carry3().Carry7();
    var v := u.Carry4().Carry8();
    assert h.Value() == t.Value() == u.Value() == v.Value();
    k := Carry(v.x9, T25);
    assert v.Value() == v.Carry9().Value() + P * k;
  }

  /** Ten 64-bit coefficients. */
  datatype Wide = Wide(x0: int64, x1: int64, x2: int64, x3: int64, x4: int64,
                       x5: int64, x6: int64, x7: int64, x8: int64, x9: int64) {

    ghost function AsLimbs(): Limbs {
      Limbs(x0 as int, x1 as int, x2 as int, x3 as int, x4 as int, x5 as int, x6 as int, x7 as int, x8 as int,
            x9 as int)
    }

    ghost function Value(): int {
      MixedRadix([x0 as int, x1 as int, x2 as int, x3 as int, x4 as int,
                  x5 as int, x6 as int, x7 as int, x8 as int, x9 as int], 0x400_0000, 0x200_0000)
    }

    ghost predicate Within(b: int) {
      && -b <= x0 as int <= b && -b <= x1 as int <= b && -b <= x2 as int <= b && -b <= x3 as int <= b
      && -b <= x4 as int <= b && -b <= x5 as int <= b && -b <= x6 as int <= b && -b <= x7 as int <= b
      && -b <= x8 as int <= b && -b <= x9 as int <= b
    }
  }

  /** The largest magnitude of a coefficient the chain can start from, 1.25*2^62, and what it can grow to. */
  const START: int := 0x5000_0000_0000_0000
  const GROWN: int := 0x6000_0000_0000_0000

  /** One line of the chain: carry out of a 26-bit limb into the next one. */
  method Carry26(x: int64, y: int64) returns (x': int64, y': int64)
    requires -GROWN <= x as int <= GROWN && -GROWN <= y as int <= GROWN
    ensures y' as int == y as int + Carry(x as int, T26)
    ensures x as int == x' as int + T26 * (y' as int - y as int)
    ensures -0x200_0000 <= x' < 0x200_0000
  {
    var carry := (x + 0x200_0000) / 0x400_0000;
    y' := y + carry;
    x' := x - carry * 0x400_0000;
  }

  /** The same for a 25-bit limb. */
  method Carry25(x: int64, y: int64) returns (x': int64, y': int64)
    requires -GROWN <= x as int <= GROWN && -GROWN <= y as int <= GROWN
    ensures y' as int == y as int + Carry(x as int, T25)
    ensures x as int == x' as int + T25 * (y' as int - y as int)
    ensures -0x100_0000 <= x' < 0x100_0000
  {
    var carry := (x + 0x100_0000) / 0x200_0000;
    y' := y + carry;
    x' := x - carry * 0x200_0000;
  }

  method CarryChain(x: Wide) returns (h: Fe)
    requires x.Within(START)
    ensures h.Within(MUL_OUTPUT)
    ensures h.AsLimbs() == Reduced(x.AsLimbs())
  {
    var w := CarryLow(x);
    w := CarryMiddle(w);
    h := CarryHigh(w);
  }

  /** The first two lines of the chain, twice. */
  method CarryLow(w: Wide) returns (r: Wide)
    requires w.Within(START)
    ensures r.AsLimbs() == w.AsLimbs().Carry0().Carry4().Carry1().Carry5()
    ensures r.Within(START + 0x40_0000_0000)
    ensures -0x200_0000 <= r.x0 <= 0x200_0000 && -0x100_0000 <= r.x1 <= 0x100_0000
    ensures -0x200_0000 <= r.x4 <= 0x200_0000 && -0x100_0000 <= r.x5 <= 0x100_0000
  {
    var Wide(h0, h1, h2, h3, h4, h5, h6, h7, h8, h9) := w;
    h0, h1 := Carry26(h0, h1);
    h4, h5 := Carry26(h4, h5);
    h1, h2 := Carry25(h1, h2);
    h5, h6 := Carry25(h5, h6);
    r := Wide(h0, h1, h2, h3, h4, h5, h6, h7, h8, h9);
  }

  /** The next two lines, twice. */
  method CarryMiddle(w: Wide) returns (r: Wide)
    requires w.Within(START + 0x40_0000_0000)
    requires -0x200_0000 <= w.x0 <= 0x200_0000 && -0x100_0000 <= w.x1 <= 0x100_0000
    requires -0x200_0000 <= w.x4 <= 0x200_0000 && -0x100_0000 <= w.x5 <= 0x100_0000
    ensures r.AsLimbs() == w.AsLimbs().Carry2().Carry6().Carry3().Carry7()
    ensures r.Within(START + 0x80_0000_0000)
    ensures -0x200_0000 <= r.x0 <= 0x200_0000 && -0x100_0000 <= r.x1 <= 0x100_0000
    ensures -0x200_0000 <= r.x2 <= 0x200_0000 && -0x100_0000 <= r.x3 <= 0x100_0000
    ensures -0x40_0000_0000 <= r.x4 <= 0x40_0000_0000 && -0x100_0000 <= r.x5 <= 0x100_0000
    ensures -0x200_0000 <= r.x6 <= 0x200_0000 && -0x100_0000 <= r.x7 <= 0x100_0000
  {
    var Wide(h0, h1, h2, h3, h4, h5, h6, h7, h8, h9) := w;
    h2, h3 := Carry26(h2, h3);
    h6, h7 := Carry26(h6, h7);
    h3, h4 := Carry25(h3, h4);
    h7, h8 := Carry25(h7, h8);
    r := Wide(h0, h1, h2, h3, h4, h5, h6, h7, h8, h9);
  }

  /** The last four carries; the one out of the top limb wraps around as 19. */
  method CarryHigh(w: Wide) returns (h: Fe)
    requires w.Within(START + 0x80_0000_0000)
    requires -0x200_0000 <= w.x0 <= 0x200_0000 && -0x100_0000 <= w.x1 <= 0x100_0000
    requires -0x200_0000 <= w.x2 <= 0x200_0000 && -0x100_0000 <= w.x3 <= 0x100_0000
    requires -0x40_0000_0000 <= w.x4 <= 0x40_0000_0000 && -0x100_0000 <= w.x5 <= 0x100_0000
    requires -0x200_0000 <= w.x6 <= 0x200_0000 && -0x100_0000 <= w.x7 <= 0x100_0000
    ensures h.AsLimbs() == w.AsLimbs().Carry4().Carry8().Carry9().Carry0()
    ensures h.Within(MUL_OUTPUT)
  {
    var Wide(h0, h1, h2, h3, h4, h5, h6, h7, h8, h9) := w;
    h4, h5 := Carry26(h4, h5);
    h8, h9 := Carry26(h8, h9);
    var carry9;
    h9, carry9 := Carry25(h9, 0);
    h0 := h0 + carry9 * 19;
    h0, h1 := Carry26(h0, h1);
    h := Fe(h0 as int32, h1 as int32, h2 as int32, h3 as int32, h4 as int32,
            h5 as int32, h6 as int32, h7 as int32, h8 as int32, h9 as int32);
  }

  /** The 64-bit product of two limbs, each multiplied by a constant in 32 bits first. */
  function Mul(a: int32, x: int32, b: int32, y: int32): (z: int64)
    requires -221_459_251 <= a as int * x as int <= 221_459_251
    requires -2_103_862_886 <= b as int * y as int <= 2_103_862_886
    ensures z as int == a as int * b as int * (x as int * y as int)
    ensures -PRODUCT <= z as int <= PRODUCT
  {
    var left := a * x;
    var right := b * y;
    ProductBound(left as int, right as int);
    left as int64 * right as int64
  }

  const PRODUCT: int := 221_459_251 * 2_103_862_886

  lemma ProductBound(x: int, y: int)
    requires -221_459_251 <= x <= 221_459_251 && -2_103_862_886 <= y <= 2_103_862_886
    ensures -PRODUCT <= x * y <= PRODUCT
  {
    var a := if x < 0 then -x else x;
    var b := if y < 0 then -y else y;
    NatProductBound(a, b);
    Signs(x, y);
  }

  lemma NatProductBound(a: nat, b: nat)
    requires a <= 221_459_251 && b <= 2_103_862_886
    ensures 0 <= a * b <= PRODUCT
  {
    Words.MulMonotone(b, a, 221_459_251);
    assert b * a == a * b;
  }

  lemma Signs(x: int, y: int)
    ensures -x * y == x * -y == -(x * y) && -x * -y == x * y
  {
  }

  method FeMul(f: Fe, g: Fe) returns (h: Fe)
    requires f.Within(MUL_INPUT) && g.Within(MUL_INPUT)
    ensures h.Within(MUL_OUTPUT)
    ensures Congruent(h.Value(), f.Value() * g.Value())
    ensures IsProduct(f, g, h)
  {
    var h0, h1 := Coefficients01(f, g);
    var h2, h3 := Coefficients23(f, g);
    var h4, h5 := Coefficients45(f, g);
    var h6, h7 := Coefficients67(f, g);
    var h8, h9 := Coefficients89(f, g);
    var c := Wide(h0, h1, h2, h3, h4, h5, h6, h7, h8, h9);
    RowsAreConvolution(f.AsLimbs(), g.AsLimbs(), c.AsLimbs());
    h := CarryChain(c);
    ProductReduced(f, g, h);
  }

  /** The bound of a sum of ten products. */
  const SUM: int := 10 * PRODUCT

  method Coefficients01(f: Fe, g: Fe) returns (h0: int64, h1: int64)
    requires f.Within(MUL_INPUT) && g.Within(MUL_INPUT)
    ensures Rows01(f.AsLimbs(), g.AsLimbs(), h0 as int, h1 as int)
    ensures -SUM <= h0 as int <= SUM && -SUM <= h1 as int <= SUM
  {
    var Fe(f0, f1, f2, f3, f4, f5, f6, f7, f8, f9) := f;
    var Fe(g0, g1, g2, g3, g4, g5, g6, g7, g8, g9) := g;
    h0 := Mul(1, f0, 1, g0) + Mul(2, f1, 19, g9) + Mul(1, f2, 19, g8) + Mul(2, f3, 19, g7) + Mul(1, f4, 19, g6) +
          Mul(2, f5, 19, g5) + Mul(1, f6, 19, g4) + Mul(2, f7, 19, g3) + Mul(1, f8, 19, g2) + Mul(2, f9, 19, g1);
    h1 := Mul(1, f0, 1, g1) + Mul(1, f1, 1, g0) + Mul(1, f2, 19, g9) + Mul(1, f3, 19, g8) + Mul(1, f4, 19, g7) +
          Mul(1, f5, 19, g6) + Mul(1, f6, 19, g5) + Mul(1, f7, 19, g4) + Mul(1, f8, 19, g3) + Mul(1, f9, 19, g2);
  }

  method Coefficients23(f: Fe, g: Fe) returns (h2: int64, h3: int64)
    requires f.Within(MUL_INPUT) && g.Within(MUL_INPUT)
    ensures Rows23(f.AsLimbs(), g.AsLimbs(), h2 as int, h3 as int)
    ensures -SUM <= h2 as int <= SUM && -SUM <= h3 as int <= SUM
  {
    var Fe(f0, f1, f2, f3, f4, f5, f6, f7, f8, f9) := f;
    var Fe(g0, g1, g2, g3, g4, g5, g6, g7, g8, g9) := g;
    h2 := Mul(1, f0, 1, g2) + Mul(2, f1, 1, g1) + Mul(1, f2, 1, g0) + Mul(2, f3, 19, g9) + Mul(1, f4, 19, g8) +
          Mul(2, f5, 19, g7) + Mul(1, f6, 19, g6) + Mul(2, f7, 19, g5) + Mul(1, f8, 19, g4) + Mul(2, f9, 19, g3);
    h3 := Mul(1, f0, 1, g3) + Mul(1, f1, 1, g2) + Mul(1, f2, 1, g1) + Mul(1, f3, 1, g0) + Mul(1, f4, 19, g9) +
          Mul(1, f5, 19, g8) + Mul(1, f6, 19, g7) + Mul(1, f7, 19, g6) + Mul(1, f8, 19, g5) + Mul(1, f9, 19, g4);
  }

  method Coefficients45(f: Fe, g: Fe) returns (h4: int64, h5: int64)
    requires f.Within(MUL_INPUT) && g.Within(MUL_INPUT)
    ensures Rows45(f.AsLimbs(), g.AsLimbs(), h4 as int, h5 as int)
    ensures -SUM <= h4 as int <= SUM && -SUM <= h5 as int <= SUM
  {
    var Fe(f0, f1, f2, f3, f4, f5, f6, f7, f8, f9) := f;
    var Fe(g0, g1, g2, g3, g4, g5, g6, g7, g8, g9) := g;
    h4 := Mul(1, f0, 1, g4) + Mul(2, f1, 1, g3) + Mul(1, f2, 1, g2) + Mul(2, f3, 1, g1) + Mul(1, f4, 1, g0) +
          Mul(2, f5, 19, g9) + Mul(1, f6, 19, g8) + Mul(2, f7, 19, g7) + Mul(1, f8, 19, g6) + Mul(2, f9, 19, g5);
    h5 := Mul(1, f0, 1, g5) + Mul(1, f1, 1, g4) + Mul(1, f2, 1, g3) + Mul(1, f3, 1, g2) + Mul(1, f4, 1, g1) +
          Mul(1, f5, 1, g0) + Mul(1, f6, 19, g9) + Mul(1, f7, 19, g8) + Mul(1, f8, 19, g7) + Mul(1, f9, 19, g6);
  }

  method Coefficients67(f: Fe, g: Fe) returns (h6: int64, h7: int64)
    requires f.Within(MUL_INPUT) && g.Within(MUL_INPUT)
    ensures Rows67(f.AsLimbs(), g.AsLimbs(), h6 as int, h7 as int)
    ensures -SUM <= h6 as int <= SUM && -SUM <= h7 as int <= SUM
  {
    var Fe(f0, f1, f2, f3, f4, f5, f6, f7, f8, f9) := f;
    var Fe(g0, g1, g2, g3, g4, g5, g6, g7, g8, g9) := g;
    h6 := Mul(1, f0, 1, g6) + Mul(2, f1, 1, g5) + Mul(1, f2, 1, g4) + Mul(2, f3, 1, g3) + Mul(1, f4, 1, g2) +
          Mul(2, f5, 1, g1) + Mul(1, f6, 1, g0) + Mul(2, f7, 19, g9) + Mul(1, f8, 19, g8) + Mul(2, f9, 19, g7);
    h7 := Mul(1, f0, 1, g7) + Mul(1, f1, 1, g6) + Mul(1, f2, 1, g5) + Mul(1, f3, 1, g4) + Mul(1, f4, 1, g3) +
          Mul(1, f5, 1, g2) + Mul(1, f6, 1, g1) + Mul(1, f7, 1, g0) + Mul(1, f8, 19, g9) + Mul(1, f9, 19, g8);
  }

  method Coefficients89(f: Fe, g: Fe) returns (h8: int64, h9: int64)
    requires f.Within(MUL_INPUT) && g.Within(MUL_INPUT)
    ensures Rows89(f.AsLimbs(), g.AsLimbs(), h8 as int, h9 as int)
    ensures -SUM <= h8 as int <= SUM && -SUM <= h9 as int <= SUM
  {
    var Fe(f0, f1, f2, f3, f4, f5, f6, f7, f8, f9) := f;
    var Fe(g0, g1, g2, g3, g4, g5, g6, g7, g8, g9) := g;
    h8 := Mul(1, f0, 1, g8) + Mul(2, f1, 1, g7) + Mul(1, f2, 1, g6) + Mul(2, f3, 1, g5) + Mul(1, f4, 1, g4) +
          Mul(2, f5, 1, g3) + Mul(1, f6, 1, g2) + Mul(2, f7, 1, g1) + Mul(1, f8, 1, g0) + Mul(2, f9, 19, g9);
    h9 := Mul(1, f0, 1, g9) + Mul(1, f1, 1, g8) + Mul(1, f2, 1, g7) + Mul(1, f3, 1, g6) + Mul(1, f4, 1, g5) +
          Mul(1, f5, 1, g4) + Mul(1, f6, 1, g3) + Mul(1, f7, 1, g2) + Mul(1, f8, 1, g1) + Mul(1, f9, 1, g0);
  }

  /** h is the one result of the carry chain on the convolution of f and g. */
  ghost predicate IsProduct(f: Fe, g: Fe, h: Fe) {
    forall c :: c == Convolution(f.AsLimbs(), g.AsLimbs()) ==> h.AsLimbs() == Reduced(c)
  }

  lemma ProductReduced(f: Fe, g: Fe, h: Fe)
    requires IsProduct(f, g, h)
    ensures Congruent(h.Value(), f.Value() * g.Value())
  {
    hide Fe.Value;
    ValueOf(f);
    ValueOf(g);
    ValueOf(h);
    var k := ConvolutionIsProduct(f.AsLimbs(), g.AsLimbs());
    var k' := ReducedIsCongruent(Convolution(f.AsLimbs(), g.AsLimbs()));
    CongruentByQuotient(h.Value(), f.Value() * g.Value(), -k - k');
  }

  /** The product's limbs are determined, so two routines that compute it agree limb by limb. */
  lemma ProductIsUnique(f: Fe, g: Fe, h: Fe, h': Fe)
    requires IsProduct(f, g, h) && IsProduct(f, g, h')
    ensures h == h'
  {
    assert h.AsLimbs() == Reduced(Convolution(f.AsLimbs(), g.AsLimbs())) == h'.AsLimbs();
  }

  /** One limb and nine zeros. */
  function Small(x: int32): Fe {
    Fe(x, 0, 0, 0, 0, 0, 0, 0, 0, 0)
  }

  ghost function SmallLimbs(x: int): Limbs {
    Limbs(x, 0, 0, 0, 0, 0, 0, 0, 0, 0)
  }

  /** A product that fits in the first limb stays there. */
  lemma SmallProduct(x: int32, y: int32, z: int32)
    requires x as int * y as int == z as int && -0x200_0000 <= z < 0x200_0000
    ensures IsProduct(Small(x), Small(y), Small(z))
  {
    SmallConvolution(x as int, y as int, z as int);
    SmallReduced(z as int);
    hide Convolution, Reduced;
  }

  lemma SmallConvolution(x: int, y: int, z: int)
    requires x * y == z
    ensures Convolution(SmallLimbs(x), SmallLimbs(y)) == SmallLimbs(z)
  {
    var g, none := SmallLimbs(y), SmallLimbs(0);
    assert g.Times(0) == none && none.Times26() == none && none.Times51() == none && none.Plus(none) == none;
    assert Pair(0, 0, g) == none;
    assert g.Times(x) == SmallLimbs(z);
    assert Pair(x, 0, g) == SmallLimbs(z);
    assert SmallLimbs(z).Plus(none) == SmallLimbs(z);
  }

  lemma SmallReduced(z: int)
    requires -0x200_0000 <= z < 0x200_0000
    ensures Reduced(SmallLimbs(z)) == SmallLimbs(z)
  {
    var h := SmallLimbs(z);
    assert Carry(z, T26) == 0 && Carry(0, T26) == 0 && Carry(0, T25) == 0;
    hide Carry;
    assert h.Carry0() == h && h.Carry1() == h && h.Carry2() == h && h.Carry3() == h && h.Carry4() == h;
    assert h.Carry5() == h && h.Carry6() == h && h.Carry7() == h && h.Carry8() == h && h.Carry9() == h;
  }

  // ---------------------------------------------------------------------------
  // Squaring: the symmetric products are computed once
  // ---------------------------------------------------------------------------

  /** fe_sq agrees with fe_mul(f, f): IsProduct determines every limb. */
  method FeSq(f: Fe) returns (h: Fe)
    requires f.Within(MUL_INPUT)
    ensures h.Within(MUL_OUTPUT)
    ensures Congruent(h.Value(), f.Value() * f.Value())
    ensures IsProduct(f, f, h)
  {
    var c := Squares(f);
    h := CarryChain(c);
    ProductReduced(f, f, h);
  }

  method FeSq2(f: Fe) returns (h: Fe)
    requires f.Within(MUL_INPUT)
    ensures h.Within(MUL_OUTPUT)
    ensures Congruent(h.Value(), 2 * (f.Value() * f.Value()))
  {
    hide Fe.Value;
    var c := Squares(f);
    var d := Wide(c.x0 + c.x0, c.x1 + c.x1, c.x2 + c.x2, c.x3 + c.x3, c.x4 + c.x4,
                  c.x5 + c.x5, c.x6 + c.x6, c.x7 + c.x7, c.x8 + c.x8, c.x9 + c.x9);
    h := CarryChain(d);
    ValueOf(f);
    ValueOf(h);
    assert d.AsLimbs().Value() == 2 * c.AsLimbs().Value();
    ghost var k := ConvolutionIsProduct(f.AsLimbs(), f.AsLimbs());
    ghost var k' := ReducedIsCongruent(d.AsLimbs());
    CongruentByQuotient(h.Value(), 2 * (f.Value() * f.Value()), -2 * k - k');
  }

  /** The ten coefficients of the square: at most six products each. */
  method Squares(f: Fe) returns (c: Wide)
    requires f.Within(MUL_INPUT)
    ensures c.Within(6 * PRODUCT)
    ensures c.AsLimbs() == Convolution(f.AsLimbs(), f.AsLimbs())
  {
    var h0, h1 := Squares01(f);
    var h2, h3 := Squares23(f);
    var h4, h5 := Squares45(f);
    var h6, h7 := Squares67(f);
    var h8, h9 := Squares89(f);
    c := Wide(h0, h1, h2, h3, h4, h5, h6, h7, h8, h9);
    RowsAreConvolution(f.AsLimbs(), f.AsLimbs(), c.AsLimbs());
  }

  method Squares01(f: Fe) returns (h0: int64, h1: int64)
    requires f.Within(MUL_INPUT)
    ensures Rows01(f.AsLimbs(), f.AsLimbs(), h0 as int, h1 as int)
    ensures -6 * PRODUCT <= h0 as int <= 6 * PRODUCT && -6 * PRODUCT <= h1 as int <= 6 * PRODUCT
  {
    var Fe(f0, f1, f2, f3, f4, f5, f6, f7, f8, f9) := f;
    h0 := Mul(1, f0, 1, f0) + Mul(2, f1, 38, f9) + Mul(2, f2, 19, f8) +
          Mul(2, f3, 38, f7) + Mul(2, f4, 19, f6) + Mul(1, f5, 38, f5);
    h1 := Mul(2, f0, 1, f1) + Mul(1, f2, 38, f9) + Mul(2, f3, 19, f8) +
          Mul(1, f4, 38, f7) + Mul(2, f5, 19, f6);
  }

  method Squares23(f: Fe) returns (h2: int64, h3: int64)
    requires f.Within(MUL_INPUT)
    ensures Rows23(f.AsLimbs(), f.AsLimbs(), h2 as int, h3 as int)
    ensures -6 * PRODUCT <= h2 as int <= 6 * PRODUCT && -6 * PRODUCT <= h3 as int <= 6 * PRODUCT
  {
    var Fe(f0, f1, f2, f3, f4, f5, f6, f7, f8, f9) := f;
    h2 := Mul(2, f0, 1, f2) + Mul(2, f1, 1, f1) + Mul(2, f3, 38, f9) +
          Mul(2, f4, 19, f8) + Mul(2, f5, 38, f7) + Mul(1, f6, 19, f6);
    h3 := Mul(2, f0, 1, f3) + Mul(2, f1, 1, f2) + Mul(1, f4, 38, f9) +
          Mul(2, f5, 19, f8) + Mul(1, f6, 38, f7);
  }

  method Squares45(f: Fe) returns (h4: int64, h5: int64)
    requires f.Within(MUL_INPUT)
    ensures Rows45(f.AsLimbs(), f.AsLimbs(), h4 as int, h5 as int)
    ensures -6 * PRODUCT <= h4 as int <= 6 * PRODUCT && -6 * PRODUCT <= h5 as int <= 6 * PRODUCT
  {
    var Fe(f0, f1, f2, f3, f4, f5, f6, f7, f8, f9) := f;
    h4 := Mul(2, f0, 1, f4) + Mul(2, f1, 2, f3) + Mul(1, f2, 1, f2) +
          Mul(2, f5, 38, f9) + Mul(2, f6, 19, f8) + Mul(1, f7, 38, f7);
    h5 := Mul(2, f0, 1, f5) + Mul(2, f1, 1, f4) + Mul(2, f2, 1, f3) +
          Mul(1, f6, 38, f9) + Mul(2, f7, 19, f8);
  }

  method Squares67(f: Fe) returns (h6: int64, h7: int64)
    requires f.Within(MUL_INPUT)
    ensures Rows67(f.AsLimbs(), f.AsLimbs(), h6 as int, h7 as int)
    ensures -6 * PRODUCT <= h6 as int <= 6 * PRODUCT && -6 * PRODUCT <= h7 as int <= 6 * PRODUCT
  {
    var Fe(f0, f1, f2, f3, f4, f5, f6, f7, f8, f9) := f;
    h6 := Mul(2, f0, 1, f6) + Mul(2, f1, 2, f5) + Mul(2, f2, 1, f4) +
          Mul(2, f3, 1, f3) + Mul(2, f7, 38, f9) + Mul(1, f8, 19, f8);
    h7 := Mul(2, f0, 1, f7) + Mul(2, f1, 1, f6) + Mul(2, f2, 1, f5) +
          Mul(2, f3, 1, f4) + Mul(1, f8, 38, f9);
  }

  method Squares89(f: Fe) returns (h8: int64, h9: int64)
    requires f.Within(MUL_INPUT)
    ensures Rows89(f.AsLimbs(), f.AsLimbs(), h8 as int, h9 as int)
    ensures -6 * PRODUCT <= h8 as int <= 6 * PRODUCT && -6 * PRODUCT <= h9 as int <= 6 * PRODUCT
  {
    var Fe(f0, f1, f2, f3, f4, f5, f6, f7, f8, f9) := f;
    h8 := Mul(2, f0, 1, f8) + Mul(2, f1, 2, f7) + Mul(2, f2, 1, f6) +
          Mul(2, f3, 2, f5) + Mul(1, f4, 1, f4) + Mul(1, f9, 38, f9);
    h9 := Mul(2, f0, 1, f9) + Mul(2, f1, 1, f8) + Mul(2, f2, 1, f7) +
          Mul(2, f3, 1, f6) + Mul(2, f4, 1, f5);
  }

  // ---------------------------------------------------------------------------
  // Addition, subtraction, negation
  // ---------------------------------------------------------------------------

  /** What fe_add and fe_sub are documented for: 1.1*2^25, 1.1*2^24, ... */
  const ADD_INPUT: nat := 110

  /** The source's own callers go up to 1.01*2^26. What matters is that the sums fit: any bounds a and b that
      add up to at most 1.65*2^26 will do. */
  method FeAdd(f: Fe, g: Fe, ghost a: nat, ghost b: nat) returns (h: Fe)
    requires f.Within(a) && g.Within(b) && a + b <= MUL_INPUT
    ensures h.Within(a + b)
    ensures h.AsLimbs() == f.AsLimbs().Plus(g.AsLimbs())
    ensures h.Value() == f.Value() + g.Value()
  {
    hide Fe.Value;
    h := Fe(f.x0 + g.x0, f.x1 + g.x1, f.x2 + g.x2, f.x3 + g.x3, f.x4 + g.x4,
            f.x5 + g.x5, f.x6 + g.x6, f.x7 + g.x7, f.x8 + g.x8, f.x9 + g.x9);
    ValueOf(f);
    ValueOf(g);
    ValueOf(h);
  }

  method FeSub(f: Fe, g: Fe, ghost a: nat, ghost b: nat) returns (h: Fe)
    requires f.Within(a) && g.Within(b) && a + b <= MUL_INPUT
    ensures h.Within(a + b)
    ensures f.AsLimbs() == h.AsLimbs().Plus(g.AsLimbs())
    ensures h.Value() == f.Value() - g.Value()
  {
    hide Fe.Value;
    h := Fe(f.x0 - g.x0, f.x1 - g.x1, f.x2 - g.x2, f.x3 - g.x3, f.x4 - g.x4,
            f.x5 - g.x5, f.x6 - g.x6, f.x7 - g.x7, f.x8 - g.x8, f.x9 - g.x9);
    ValueOf(f);
    ValueOf(g);
    ValueOf(h);
  }

  method FeNeg(f: Fe, ghost a: nat) returns (h: Fe)
    requires f.Within(a) && a <= MUL_INPUT
    ensures h.Within(a)
    ensures h.Value() == -f.Value()
  {
    hide Fe.Value;
    h := Fe(-f.x0, -f.x1, -f.x2, -f.x3, -f.x4, -f.x5, -f.x6, -f.x7, -f.x8, -f.x9);
    ValueOf(f);
    ValueOf(h);
  }
}
