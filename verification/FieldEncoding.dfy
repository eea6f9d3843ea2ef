/** The 32-byte form of a field element: fe_tobytes writes the canonical representative, and the
    loading half of ge_frombytes_vartime accepts exactly the canonical ones (src/crypto/crypto-ops.c). */
module FieldEncoding {
  import opened Wrappers
  import opened Words
  import opened FieldElement

  const TWO230: int := 0x40_0000_0000_0000_0000_0000_0000_0000_0000_0000_0000_0000_0000_0000_0000
  const TWO255: int := 0x8000_0000_0000_0000_0000_0000_0000_0000_0000_0000_0000_0000_0000_0000_0000_0000

  /** fe_tobytes and fe_add's result: 1.1*2^26, 1.1*2^25, ... */
  const TOBYTES_INPUT: nat := 220

  /** The result is the least non-negative residue, whatever the limbs. */
  method FeToBytes(s: array<uint8>, h: Fe)
    requires s.Length == 32 && h.Within(TOBYTES_INPUT)
    modifies s
    ensures LittleEndian(s[..]) == h.Value() % P
  {
    var q := Quotient(h);
    QuotientRange(h.Value(), q as int);
    var r := Subtract(h, q);
    var low := PackLow(r.x0, r.x1, r.x2, r.x3, r.x4);
    var high := PackHigh(r.x5, r.x6, r.x7, r.x8, r.x9);
    Halves(r);
    Halved(low, high);
    Store(s, low + high);
  }

  lemma QuotientRange(v: int, q: int)
    requires q == v / P
    ensures 0 <= v - P * q < P && v % P == v - P * q
  {
  }

  /** x >> 25 and the bits shifted out. */
  method Shift25(x: int32) returns (q: int32, r: int32)
    ensures x as int == 0x200_0000 * (q as int) + r as int && 0 <= r < 0x200_0000
  {
    q := x / 0x200_0000;
    r := x - q * 0x200_0000;
  }

  /** x >> 26 and the bits shifted out. */
  method Shift26(x: int32) returns (q: int32, r: int32)
    ensures x as int == 0x400_0000 * (q as int) + r as int && 0 <= r < 0x400_0000
  {
    q := x / 0x400_0000;
    r := x - q * 0x400_0000;
  }

  /** Carries through limbs 0 to 4, starting from q0: the carry out and the limbs left behind. */
  method CarryLowHalf(h: Fe, q0: int32) returns (q: int32, r0: int32, r1: int32, r2: int32, r3: int32, r4: int32)
    requires h.Within(TOBYTES_INPUT) && -64 <= q0 <= 64
    ensures 0 <= r0 < 0x400_0000 && 0 <= r1 < 0x200_0000 && 0 <= r2 < 0x400_0000 && 0 <= r3 < 0x200_0000 &&
            0 <= r4 < 0x400_0000
    ensures LowHalf(h) + q0 as int == TWO128 * (q as int) + Low(r0, r1, r2, r3, r4)
    ensures 0 <= Low(r0, r1, r2, r3, r4) < TWO128
    ensures -64 <= q <= 64
  {
    q, r0 := Shift26(h.x0 + q0);
    q, r1 := Shift25(h.x1 + q);
    q, r2 := Shift26(h.x2 + q);
    q, r3 := Shift25(h.x3 + q);
    q, r4 := Shift26(h.x4 + q);
  }

  /** Carries through limbs 5 to 9, starting from q0. */
  method CarryHighHalf(h: Fe, q0: int32) returns (q: int32, r5: int32, r6: int32, r7: int32, r8: int32, r9: int32)
    requires h.Within(TOBYTES_INPUT) && -64 <= q0 <= 64
    ensures 0 <= r5 < 0x200_0000 && 0 <= r6 < 0x400_0000 && 0 <= r7 < 0x200_0000 && 0 <= r8 < 0x400_0000 &&
            0 <= r9 < 0x200_0000
    ensures HighHalf(h) + q0 as int == TWO127 * (q as int) + High(r5, r6, r7, r8, r9)
    ensures 0 <= High(r5, r6, r7, r8, r9) < TWO127
  {
    q, r5 := Shift25(h.x5 + q0);
    q, r6 := Shift26(h.x6 + q);
    q, r7 := Shift25(h.x7 + q);
    q, r8 := Shift26(h.x8 + q);
    q, r9 := Shift25(h.x9 + q);
  }

  /** The nested floors compute floor(h / P). */
  method Quotient(h: Fe) returns (q: int32)
    requires h.Within(TOBYTES_INPUT)
    ensures q as int == h.Value() / P
    ensures -2 <= q <= 1
  {
    var r;
    q, r := Shift25(19 * h.x9 + 0x100_0000);
    ghost var q0 := q as int;
    var r0, r1, r2, r3, r4, r5, r6, r7, r8, r9;
    q, r0, r1, r2, r3, r4 := CarryLowHalf(h, q);
    q, r5, r6, r7, r8, r9 := CarryHighHalf(h, q);
    Halves(h);
    QuotientIsExact(h.Value(), h.x9 as int, q0, q as int);
  }

  const TWO127: int := 0x8000_0000_0000_0000_0000_0000_0000_0000
  const TWO128: int := 0x1_0000_0000_0000_0000_0000_0000_0000_0000

  ghost function Low(r0: int32, r1: int32, r2: int32, r3: int32, r4: int32): int {
    r0 as int + 0x400_0000 * (r1 as int) + 0x8_0000_0000_0000 * (r2 as int) +
    0x2000_0000_0000_0000_0000 * (r3 as int) + 0x40_0000_0000_0000_0000_0000_0000 * (r4 as int)
  }

  ghost function High(r5: int32, r6: int32, r7: int32, r8: int32, r9: int32): int {
    r5 as int + 0x200_0000 * (r6 as int) + 0x8_0000_0000_0000 * (r7 as int) +
    0x1000_0000_0000_0000_0000 * (r8 as int) + 0x40_0000_0000_0000_0000_0000_0000 * (r9 as int)
  }

  ghost function LowHalf(h: Fe): int {
    Low(h.x0, h.x1, h.x2, h.x3, h.x4)
  }

  ghost function HighHalf(h: Fe): int {
    High(h.x5, h.x6, h.x7, h.x8, h.x9)
  }

  lemma Halves(h: Fe)
    ensures h.Value() == LowHalf(h) + TWO128 * HighHalf(h)
  {
    hide Fe.Value;
    ValueOf(h);
  }

  /** The proof in the source's comment, on integers. There |h| <= P is used, which its own bounds do not
      give: the quotient can be -2. */
  lemma QuotientIsExact(v: int, h9: int, q0: int, q: int)
    requires -2 * TWO230 <= v - TWO230 * h9 <= 2 * TWO230
    requires -36_909_876 <= h9 <= 36_909_876
    requires 0 <= 19 * h9 + 0x100_0000 - 0x200_0000 * q0 < 0x200_0000
    requires 0 <= v + q0 - TWO255 * q < TWO255
    ensures q == v / P && -2 <= q <= 1
  {
  }

  /** The quotient is -2 exactly below -P, which the limb bounds do not rule out. */
  lemma QuotientBelowMinusOne(h: Fe)
    requires h.Within(TOBYTES_INPUT)
    ensures h.Value() / P == -2 <==> h.Value() < -P
    ensures h.Value() >= -P ==> -1 <= h.Value() / P <= 1
  {
    Halves(h);
    HalvesAreSmall(h);
    hide Fe.Value;
    QuotientOf(h.Value());
  }

  lemma HalvesAreSmall(h: Fe)
    requires h.Within(TOBYTES_INPUT)
    ensures -2 * TWO128 <= LowHalf(h) <= 2 * TWO128 && -2 * TWO127 < HighHalf(h) + 2 && HighHalf(h) + 2 < 2 * TWO127 - 2
  {
  }

  lemma QuotientOf(v: int)
    requires -2 * P <= v < 2 * P
    ensures -2 <= v / P <= 1 && (v / P == -2 <==> v < -P)
  {
  }

  lemma QuotientCanBeMinusTwo()
    ensures var h := Fe(0, 0, 0, 0, 0, 0, 0, 0, 0, -36_909_875);
            h.Within(TOBYTES_INPUT) && h.Value() < -P && h.Value() / P == -2
  {
    hide Fe.Value;
    var h := Fe(0, 0, 0, 0, 0, 0, 0, 0, 0, -36_909_875);
    ValueOf(h);
    QuotientOf(h.Value());
  }

  /** Ten limbs that fill their 26 and 25 bits: the number is read off without carries. */
  ghost predicate Full(r: Fe) {
    && 0 <= r.x0 < 0x400_0000 && 0 <= r.x1 < 0x200_0000 && 0 <= r.x2 < 0x400_0000 && 0 <= r.x3 < 0x200_0000
    && 0 <= r.x4 < 0x400_0000 && 0 <= r.x5 < 0x200_0000 && 0 <= r.x6 < 0x400_0000 && 0 <= r.x7 < 0x200_0000
    && 0 <= r.x8 < 0x400_0000 && 0 <= r.x9 < 0x200_0000
  }

  /** Adding 19 q and carrying leaves the residue: the last carry is q and cancels 2^255 q exactly. */
  method Subtract(h: Fe, q: int32) returns (r: Fe)
    requires h.Within(TOBYTES_INPUT)
    requires 0 <= h.Value() - P * (q as int) < P && -2 <= q <= 1
    ensures Full(r)
    ensures r.Value() == h.Value() - P * (q as int)
  {
    var c, r0, r1, r2, r3, r4 := CarryLowHalf(h, 19 * q);
    var carry9, r5, r6, r7, r8, r9 := CarryHighHalf(h, c);
    r := Fe(r0, r1, r2, r3, r4, r5, r6, r7, r8, r9);
    Halves(h);
    Halves(r);
    TopCancels(h.Value(), q as int, carry9 as int, r.Value());
  }

  lemma TopCancels(v: int, q: int, carry: int, r: int)
    requires q == v / P
    requires v + 19 * q == TWO255 * carry + r && 0 <= r < TWO255
    ensures carry == q && r == v % P
  {
    assert v == P * q + v % P;
  }

  // ---------------------------------------------------------------------------
  // Packing 26- and 25-bit limbs into bytes
  // ---------------------------------------------------------------------------

  /** Conversion to unsigned char. (The source shifts h4 by 6 in 32 bits, which drops bits above the 32nd;
      none of them reaches the byte.) */
  function Low8(x: int): uint8 {
    (x % 0x100) as uint8
  }

  /** A limb x in pieces, where a is 2^k: l is its k lowest bits, b and c the bytes x >> k and x >> (k + 8),
      and t is x >> (k + 16). */
  method Limb(x: int32, a: int32) returns (b: uint8, c: uint8, t: int, ghost l: int, ghost u: int)
    requires 0 <= x && 0 < a <= 0x80
    ensures x as int == l + a as int * u && 0 <= l < a as int
    ensures u == b as int + 0x100 * (c as int) + 0x1_0000 * t && 0 <= t
  {
    l, u := x as int % a as int, x as int / a as int;
    b := Low8(x as int / a as int);
    c := Low8(x as int / (0x100 * a as int));
    t := x as int / (0x1_0000 * a as int);
    LimbPieces(x as int, a as int);
  }

  lemma LimbPieces(x: nat, a: nat)
    requires a > 0
    ensures x == x % a + a * (x / a) && 0 <= x % a < a && 0 <= x / (0x1_0000 * a)
    ensures x / a == x / a % 0x100 + 0x100 * (x / (0x100 * a) % 0x100) + 0x1_0000 * (x / (0x1_0000 * a))
  {
    DivDiv(x, a, 0x100);
    DivDiv(x, a, 0x1_0000);
    TwoBytes(x / a);
  }

  lemma TwoBytes(u: nat)
    ensures u == u % 0x100 + 0x100 * (u / 0x100 % 0x100) + 0x1_0000 * (u / 0x1_0000)
  {
  }

  /** The lowest byte of t, and t >> 8. */
  method Byte(t: int) returns (b: uint8, q: int)
    ensures t == b as int + 0x100 * q
  {
    b, q := Low8(t), t / 0x100;
  }

  /** A byte that takes its lower j bits from one limb and its upper bits from the next: lo | hi << j,
      where a is 2^j and m is 2^i. */
  method Joined(lo: int, hi: int32, ghost l: int, ghost u: int, ghost j: nat, a: nat, ghost i: nat, ghost m: nat)
    returns (b: uint8)
    requires j + i == 8 && a == Pow2(j) && m == Pow2(i) && 0 <= lo < a && 0 <= hi
    requires hi as int == l + m * u && 0 <= l < m
    ensures b as int == lo + a * l
  {
    b := Low8(Or(lo, a * hi as int));
    DivModUnique(hi as int, m, u, l);
    JoinedByte(lo, hi as int, j);
  }

  method PackLow(h0: int32, h1: int32, h2: int32, h3: int32, h4: int32) returns (s: seq<uint8>)
    requires 0 <= h0 < 0x400_0000 && 0 <= h1 < 0x200_0000 && 0 <= h2 < 0x400_0000 && 0 <= h3 < 0x200_0000 &&
             0 <= h4 < 0x400_0000
    ensures |s| == 16 && LittleEndian(s) == Low(h0, h1, h2, h3, h4)
  {
    hide LittleEndian;
    var s0, s1, t0, l0, u0 := Limb(h0, 1);
    var s4, s5, t1, l1, u1 := Limb(h1, 0x40);
    var s7, s8, t2, l2, u2 := Limb(h2, 0x20);
    var s10, s11, t3, l3, u3 := Limb(h3, 0x8);
    var s13, s14, t4, l4, u4 := Limb(h4, 0x4);
    var s2, q2 := Byte(t0);
    var s3 := Joined(q2, h1, l1, u1, 2, 4, 6, 64);
    var s6 := Joined(t1, h2, l2, u2, 3, 8, 5, 32);
    var s9 := Joined(t2, h3, l3, u3, 5, 32, 3, 8);
    var s12 := Joined(t3, h4, l4, u4, 6, 64, 2, 4);
    var s15, q15 := Byte(t4);
    s := [s0, s1, s2, s3, s4, s5, s6, s7, s8, s9, s10, s11, s12, s13, s14, s15];
    Sixteen(s0, s1, s2, s3, s4, s5, s6, s7, s8, s9, s10, s11, s12, s13, s14, s15);
  }

  method PackHigh(h5: int32, h6: int32, h7: int32, h8: int32, h9: int32) returns (s: seq<uint8>)
    requires 0 <= h5 < 0x200_0000 && 0 <= h6 < 0x400_0000 && 0 <= h7 < 0x200_0000 && 0 <= h8 < 0x400_0000 &&
             0 <= h9 < 0x200_0000
    ensures |s| == 16 && LittleEndian(s) == High(h5, h6, h7, h8, h9)
  {
    hide LittleEndian;
    var s0, s1, t5, l5, u5 := Limb(h5, 1);
    var s4, s5, t6, l6, u6 := Limb(h6, 0x80);
    var s7, s8, t7, l7, u7 := Limb(h7, 0x20);
    var s10, s11, t8, l8, u8 := Limb(h8, 0x10);
    var s13, s14, t9, l9, u9 := Limb(h9, 0x4);
    var s2, q2 := Byte(t5);
    var s3 := Joined(q2, h6, l6, u6, 1, 2, 7, 128);
    var s6 := Joined(t6, h7, l7, u7, 3, 8, 5, 32);
    var s9 := Joined(t7, h8, l8, u8, 4, 16, 4, 16);
    var s12 := Joined(t8, h9, l9, u9, 6, 64, 2, 4);
    var s15, q15 := Byte(t9);
    s := [s0, s1, s2, s3, s4, s5, s6, s7, s8, s9, s10, s11, s12, s13, s14, s15];
    Sixteen(s0, s1, s2, s3, s4, s5, s6, s7, s8, s9, s10, s11, s12, s13, s14, s15);
  }

  /** A byte that takes its lower bits from one limb and its upper bits from the next. */
  lemma JoinedByte(lo: nat, hi: nat, j: nat)
    requires j <= 8 && lo < Pow2(j)
    ensures Low8(Or(lo, Pow2(j) * hi)) as int == lo + Pow2(j) * (hi % Pow2(8 - j))
  {
    Pow2Adds(j, 8 - j);
    assert Pow2(8) == 0x100;
    OrIsSum(lo, hi, j);
    ModOfSum(lo, hi, Pow2(j), Pow2(8 - j));
  }

  lemma Sixteen(b0: uint8, b1: uint8, b2: uint8, b3: uint8, b4: uint8, b5: uint8, b6: uint8, b7: uint8,
                b8: uint8, b9: uint8, b10: uint8, b11: uint8, b12: uint8, b13: uint8, b14: uint8, b15: uint8)
    ensures LittleEndian([b0, b1, b2, b3, b4, b5, b6, b7, b8, b9, b10, b11, b12, b13, b14, b15]) ==
            b0 as int + 0x100 * (b1 as int) + 0x1_0000 * (b2 as int) + 0x100_0000 * (b3 as int) +
            0x1_0000_0000 * (b4 as int + 0x100 * (b5 as int) + 0x1_0000 * (b6 as int) + 0x100_0000 * (b7 as int)) +
            0x1_0000_0000_0000_0000 * (b8 as int + 0x100 * (b9 as int) + 0x1_0000 * (b10 as int) +
                                       0x100_0000 * (b11 as int)) +
            0x1_0000_0000_0000_0000_0000_0000 * (b12 as int + 0x100 * (b13 as int) + 0x1_0000 * (b14 as int) +
                                                 0x100_0000 * (b15 as int))
  {
    var s := [b0, b1, b2, b3, b4, b5, b6, b7, b8, b9, b10, b11, b12, b13, b14, b15];
    Four(s);
    Four(s[4..]);
    Four(s[8..]);
    Four(s[12..]);
    assert s[12..][4..] == [];
  }

  lemma Four(s: seq<uint8>)
    requires |s| >= 4
    ensures LittleEndian(s) ==
            s[0] as int + 0x100 * (s[1] as int) + 0x1_0000 * (s[2] as int) + 0x100_0000 * (s[3] as int) +
                               0x1_0000_0000 * LittleEndian(s[4..])
  {
    assert s[1..][1..] == s[2..] && s[2..][1..] == s[3..] && s[3..][1..] == s[4..];
  }

  lemma Halved(s: seq<uint8>, t: seq<uint8>)
    requires |s| == 16
    ensures LittleEndian(s + t) == LittleEndian(s) + TWO128 * LittleEndian(t)
  {
    var u := s + t;
    Four(u); Four(u[4..]); Four(u[8..]); Four(u[12..]);
    Four(s); Four(s[4..]); Four(s[8..]); Four(s[12..]);
    assert u[12..][4..] == t && s[12..][4..] == [];
  }

  // ---------------------------------------------------------------------------
  // Loading: the first half of ge_frombytes_vartime
  // ---------------------------------------------------------------------------

  /** Three bytes with the least significant first. */
  function Load3(s: seq<uint8>, i: nat): (n: int64)
    requires i + 3 <= |s|
    ensures n as int == s[i] as int + 0x100 * (s[i + 1] as int) + 0x1_0000 * (s[i + 2] as int)
  {
    assert Pow2(8) == 0x100 && Pow2(16) == 0x1_0000;
    OrIsSum(s[i] as int, s[i + 1] as int, 8);
    OrIsSum(s[i] as int + 0x100 * s[i + 1] as int, s[i + 2] as int, 16);
    Or(Or(s[i] as int, 0x100 * s[i + 1] as int), 0x1_0000 * s[i + 2] as int) as int64
  }

  function Load4(s: seq<uint8>, i: nat): (n: int64)
    requires i + 4 <= |s|
    ensures n as int ==
            s[i] as int + 0x100 * (s[i + 1] as int) + 0x1_0000 * (s[i + 2] as int) + 0x100_0000 * (s[i + 3] as int)
  {
    Pow2Adds(8, 16);
    assert Pow2(8) == 0x100 && Pow2(16) == 0x1_0000;
    OrIsSum(Load3(s, i) as int, s[i + 3] as int, 24);
    Or(Load3(s, i) as int, 0x100_0000 * s[i + 3] as int) as int64
  }

  /** The encoding is accepted exactly if it is canonical, the sign bit apart. */
  method FeFromBytes(s: seq<uint8>) returns (ok: bool, h: Fe)
    requires |s| == 32
    ensures ok <==> LittleEndian(s) % TWO255 < P
    ensures ok ==> h.Within(MUL_OUTPUT) && Congruent(h.Value(), LittleEndian(s) % TWO255)
  {
    var l0, l1, l2, l3, l4, l5, l6, l7, l8, l9 := Load(s);
    ok, h := Canonical(l0, l1, l2, l3, l4, l5, l6, l7, l8, l9);
  }

  method Canonical(l0: int64, l1: int64, l2: int64, l3: int64, l4: int64, l5: int64, l6: int64, l7: int64, l8: int64,
                   l9: int64)
    returns (ok: bool, h: Fe)
    requires 0 <= l0 < 0x1_0000_0000 && 0 <= l1 < 0x100_0000 && 0 <= l2 < 0x100_0000 && 0 <= l3 < 0x100_0000 &&
             0 <= l4 < 0x100_0000
    requires 0 <= l5 < 0x1_0000_0000 && 0 <= l6 < 0x100_0000 && 0 <= l7 < 0x100_0000 && 0 <= l8 < 0x100_0000 &&
             0 <= l9 < 0x100_0000
    ensures var v := Shifted(l0 as int, l1 as int, l2 as int, l3 as int, l4 as int,
                             l5 as int, l6 as int, l7 as int, l8 as int, l9 as int).Value();
            (ok <==> v < P) && (ok ==> h.Within(MUL_OUTPUT) && Congruent(h.Value(), v))
  {
    hide Limbs.Value, Fe.Value, Fe.Within, Congruent, MixedRadix;
    var h0, h1, h2, h3, h4 := l0, l1 * 0x40, l2 * 0x20, l3 * 8, l4 * 4;
    var h5, h6, h7, h8, h9 := l5, l6 * 0x80, l7 * 0x20, l8 * 0x10, l9 % 0x80_0000 * 4;
    CanonicalTest(l0 as int, l1 as int, l2 as int, l3 as int, l4 as int, l5 as int, l6 as int, l7 as int, l8 as int,
                  l9 as int);
    h := Fe(0, 0, 0, 0, 0, 0, 0, 0, 0, 0);
    ok := !(h9 == 33554428 && h8 == 268435440 && h7 == 536870880 && h6 == 2147483520 &&
            h5 == 4294967295 && h4 == 67108860 && h3 == 134217720 && h2 == 536870880 &&
            h1 == 1073741760 && h0 >= 4294967277);
    if ok {
      h := Normalize(Wide(h0, h1, h2, h3, h4, h5, h6, h7, h8, h9));
      RadixValue(h0 as int, h1 as int, h2 as int, h3 as int, h4 as int, h5 as int, h6 as int, h7 as int, h8 as int,
                 h9 as int);
    }
  }

  method Load(s: seq<uint8>)
    returns (l0: int64, l1: int64, l2: int64, l3: int64, l4: int64, l5: int64, l6: int64, l7: int64, l8: int64,
             l9: int64)
    requires |s| == 32
    ensures 0 <= l0 < 0x1_0000_0000 && 0 <= l1 < 0x100_0000 && 0 <= l2 < 0x100_0000 && 0 <= l3 < 0x100_0000 &&
            0 <= l4 < 0x100_0000
    ensures 0 <= l5 < 0x1_0000_0000 && 0 <= l6 < 0x100_0000 && 0 <= l7 < 0x100_0000 && 0 <= l8 < 0x100_0000 &&
            0 <= l9 < 0x100_0000
    ensures Shifted(l0 as int, l1 as int, l2 as int, l3 as int, l4 as int,
                    l5 as int, l6 as int, l7 as int, l8 as int, l9 as int).Value() == LittleEndian(s) % TWO255
  {
    hide Limbs.Value, LittleEndian;
    l0, l1, l2, l3, l4 := Load4(s, 0), Load3(s, 4), Load3(s, 7), Load3(s, 10), Load3(s, 13);
    l5, l6, l7, l8, l9 := Load4(s, 16), Load3(s, 20), Load3(s, 23), Load3(s, 26), Load3(s, 29);
    LoadedValue(s);
  }

  /** The ten groups of bytes are the limbs, without the top bit. */
  lemma LoadedValue(s: seq<uint8>)
    requires |s| == 32
    ensures Shifted(Load4(s, 0) as int, Load3(s, 4) as int, Load3(s, 7) as int, Load3(s, 10) as int,
                    Load3(s, 13) as int, Load4(s, 16) as int, Load3(s, 20) as int, Load3(s, 23) as int,
                    Load3(s, 26) as int, Load3(s, 29) as int).Value()
            == LittleEndian(s) % TWO255
  {
    assert s == s[..16] + s[16..];
    Halved(s[..16], s[16..]);
    LoadedLow(s);
    LoadedHigh(s);
    DropsTopBit(LittleEndian(s), Load4(s, 0) as int, Load3(s, 4) as int, Load3(s, 7) as int, Load3(s, 10) as int,
                Load3(s, 13) as int, Load4(s, 16) as int, Load3(s, 20) as int, Load3(s, 23) as int, Load3(s, 26) as int,
                Load3(s, 29) as int);
  }

  ghost function Shifted(l0: int, l1: int, l2: int, l3: int, l4: int, l5: int, l6: int, l7: int, l8: int,
                         l9: int): Limbs {
    Limbs(l0, 0x40 * l1, 0x20 * l2, 8 * l3, 4 * l4, l5, 0x80 * l6, 0x20 * l7, 0x10 * l8, 4 * (l9 % 0x80_0000))
  }

  lemma DropsTopBit(v: int, l0: nat, l1: nat, l2: nat, l3: nat, l4: nat, l5: nat, l6: nat, l7: nat, l8: nat, l9: nat)
    requires l0 < 0x1_0000_0000 && l1 < 0x100_0000 && l2 < 0x100_0000 && l3 < 0x100_0000 && l4 < 0x100_0000
    requires l5 < 0x1_0000_0000 && l6 < 0x100_0000 && l7 < 0x100_0000 && l8 < 0x100_0000 && l9 < 0x100_0000
    requires v == l0 + 0x1_0000_0000 * l1 + 0x100_0000_0000_0000 * l2 + 0x1_0000_0000_0000_0000_0000 * l3 +
                  0x100_0000_0000_0000_0000_0000_0000 * l4 +
                  TWO128 * (l5 + 0x1_0000_0000 * l6 + 0x100_0000_0000_0000 * l7 + 0x1_0000_0000_0000_0000_0000 * l8 +
                            0x100_0000_0000_0000_0000_0000_0000 * l9)
    ensures Shifted(l0, l1, l2, l3, l4, l5, l6, l7, l8, l9).Value() == v % TWO255
  {
    var top, rest := l9 / 0x80_0000, l9 % 0x80_0000;
    var r := Shifted(l0, l1, l2, l3, l4, l5, l6, l7, l8, l9).Value();
    assert l9 == 0x80_0000 * top + rest;
    assert v == TWO255 * top + r;
    assert 0 <= r < TWO255;
    DivModUnique(v, TWO255, top, r);
  }

  /** The test for all ones above the lowest 32 bits and at least 2^32 - 19 in them finds exactly the
      numbers from P on. */
  lemma CanonicalTest(l0: nat, l1: nat, l2: nat, l3: nat, l4: nat, l5: nat, l6: nat, l7: nat, l8: nat, l9: nat)
    requires l0 < 0x1_0000_0000 && l1 < 0x100_0000 && l2 < 0x100_0000 && l3 < 0x100_0000 && l4 < 0x100_0000
    requires l5 < 0x1_0000_0000 && l6 < 0x100_0000 && l7 < 0x100_0000 && l8 < 0x100_0000 && l9 < 0x100_0000
    ensures Shifted(l0, l1, l2, l3, l4, l5, l6, l7, l8, l9).Value() >= P <==>
            4 * (l9 % 0x80_0000) == 33554428 && 0x10 * l8 == 268435440 && 0x20 * l7 == 536870880 &&
            0x80 * l6 == 2147483520 &&
            l5 == 4294967295 && 4 * l4 == 67108860 && 8 * l3 == 134217720 && 0x20 * l2 == 536870880 &&
            0x40 * l1 == 1073741760 && l0 >= 4294967277
  {
  }

  lemma LoadedLow(s: seq<uint8>)
    requires |s| == 32
    ensures LittleEndian(s[..16]) == Load4(s, 0) as int + 0x1_0000_0000 * (Load3(s, 4) as int) +
              0x100_0000_0000_0000 * (Load3(s, 7) as int) + 0x1_0000_0000_0000_0000_0000 * (Load3(s, 10) as int) +
              0x100_0000_0000_0000_0000_0000_0000 * (Load3(s, 13) as int)
  {
    var l := s[..16];
    Four(l); Four(l[4..]); Four(l[8..]); Four(l[12..]);
    assert l[12..][4..] == [];
  }

  lemma LoadedHigh(s: seq<uint8>)
    requires |s| == 32
    ensures LittleEndian(s[16..]) == Load4(s, 16) as int + 0x1_0000_0000 * (Load3(s, 20) as int) +
              0x100_0000_0000_0000 * (Load3(s, 23) as int) + 0x1_0000_0000_0000_0000_0000 * (Load3(s, 26) as int) +
              0x100_0000_0000_0000_0000_0000_0000 * (Load3(s, 29) as int)
  {
    var u := s[16..];
    Four(u); Four(u[4..]); Four(u[8..]); Four(u[12..]);
    assert u[12..][4..] == [];
  }

  method Normalize(w: Wide) returns (h: Fe)
    requires 0 <= w.x0 < 0x1_0000_0000 && 0 <= w.x1 < 0x4000_0000 && 0 <= w.x2 < 0x2000_0000 && 0 <= w.x3 < 0x800_0000
    requires 0 <= w.x4 < 0x400_0000 && 0 <= w.x5 < 0x1_0000_0000 && 0 <= w.x6 < 0x8000_0000 && 0 <= w.x7 < 0x2000_0000
    requires 0 <= w.x8 < 0x1000_0000 && 0 <= w.x9 < 0x200_0000
    ensures h.Within(MUL_OUTPUT) && Congruent(h.Value(), w.Value())
  {
    hide Fe.Value, MixedRadix;
    RadixValue(w.x0 as int, w.x1 as int, w.x2 as int, w.x3 as int, w.x4 as int,
               w.x5 as int, w.x6 as int, w.x7 as int, w.x8 as int, w.x9 as int);
    var Wide(h0, h1, h2, h3, h4, h5, h6, h7, h8, h9) := w;
    var carry9;
    h9, carry9 := Carry25(h9, 0);
    h0 := h0 + carry9 * 19;
    h1, h2 := Carry25(h1, h2);
    h3, h4 := Carry25(h3, h4);
    h5, h6 := Carry25(h5, h6);
    h7, h8 := Carry25(h7, h8);
    h0, h1 := Carry26(h0, h1);
    h2, h3 := Carry26(h2, h3);
    h4, h5 := Carry26(h4, h5);
    h6, h7 := Carry26(h6, h7);
    h8, h9 := Carry26(h8, h9);
    h := Fe(h0 as int32, h1 as int32, h2 as int32, h3 as int32, h4 as int32,
            h5 as int32, h6 as int32, h7 as int32, h8 as int32, h9 as int32);
    ValueOf(h);
    CongruentByQuotient(h.Value(), w.Value(), -(carry9 as int));
  }
}
