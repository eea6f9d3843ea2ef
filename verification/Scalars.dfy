/** Scalars modulo the group order l, as 32 bytes (src/crypto/crypto-ops.c). sc_check is the source's
    comparison; the long reductions are the results that their comments state. */
module Scalars {
  import opened Words
  import FE = FieldEncoding

  /** l = 2^252 + 27742317777372353535851937790883648493 */
  const L: nat := 0x1000_0000_0000_0000_0000_0000_0000_0000_14DE_F9DE_A2F7_9CD6_5812_631A_5CF5_D3ED

  // ---------------------------------------------------------------------------
  // sc_check
  // ---------------------------------------------------------------------------

  /** Arithmetic shift right of a 64-bit number by 63. */
  function Shift63(a: int): int {
    a / 0x8000_0000_0000_0000
  }

  function Signum(a: int): (s: int)
    requires -0x8000_0000_0000_0000 < a < 0x8000_0000_0000_0000
    ensures s == if a > 0 then 1 else if a < 0 then -1 else 0
  {
    Shift63(a) - Shift63(-a)
  }

  predicate Words32(s0: int, s1: int, s2: int, s3: int, s4: int, s5: int, s6: int, s7: int) {
    && 0 <= s0 < 0x1_0000_0000 && 0 <= s1 < 0x1_0000_0000 && 0 <= s2 < 0x1_0000_0000 && 0 <= s3 < 0x1_0000_0000
    && 0 <= s4 < 0x1_0000_0000 && 0 <= s5 < 0x1_0000_0000 && 0 <= s6 < 0x1_0000_0000 && 0 <= s7 < 0x1_0000_0000
  }

  function WeightedSum(s0: int, s1: int, s2: int, s3: int, s4: int, s5: int, s6: int, s7: int): int
    requires Words32(s0, s1, s2, s3, s4, s5, s6, s7)
  {
    Signum(1559614444 - s0) + Signum(1477600026 - s1) * 2 + Signum(2734136534 - s2) * 4 + Signum(350157278 - s3) * 8 +
    Signum(-s4) * 16 + Signum(-s5) * 32 + Signum(-s6) * 64 + Signum(268435456 - s7) * 128
  }

  /** Zero for a reduced scalar, -1 for any other: eight signs are compared at once, by weight. */
  method ScCheck(s: seq<uint8>) returns (r: int)
    requires |s| == 32
    ensures r == if LittleEndian(s) < L then 0 else -1
  {
    var s0, s1, s2, s3, s4, s5, s6, s7 := Words8(s);
    hide Signum, WeightedSum, Value8, LittleEndian;
    Weighted(s0, s1, s2, s3, s4, s5, s6, s7);
    r := WeightedSum(s0, s1, s2, s3, s4, s5, s6, s7) / 256;
  }

  method Words8(s: seq<uint8>) returns (s0: int, s1: int, s2: int, s3: int, s4: int, s5: int, s6: int, s7: int)
    requires |s| == 32
    ensures Words32(s0, s1, s2, s3, s4, s5, s6, s7)
    ensures LittleEndian(s) == Value8(s0, s1, s2, s3, s4, s5, s6, s7)
  {
    hide LittleEndian, FE.Load3, FE.Load4;
    s0, s1, s2, s3 := FE.Load4(s, 0) as int, FE.Load4(s, 4) as int, FE.Load4(s, 8) as int, FE.Load4(s, 12) as int;
    s4, s5, s6, s7 := FE.Load4(s, 16) as int, FE.Load4(s, 20) as int, FE.Load4(s, 24) as int, FE.Load4(s, 28) as int;
    Word(s, 0); Word(s, 4); Word(s, 8); Word(s, 12); Word(s, 16); Word(s, 20); Word(s, 24); Word(s, 28);
    assert s[0..] == s;
    NoBytes(s);
  }

  lemma NoBytes(s: seq<uint8>)
    requires |s| == 32
    ensures LittleEndian(s[32..]) == 0
  {
  }

  lemma Word(s: seq<uint8>, i: nat)
    requires i + 4 <= |s|
    ensures LittleEndian(s[i..]) == FE.Load4(s, i) as int + 0x1_0000_0000 * LittleEndian(s[i + 4..])
  {
    hide FE.Load4, FE.Load3;
    FE.Four(s[i..]);
    assert s[i..][4..] == s[i + 4..];
  }

  ghost function Value8(s0: int, s1: int, s2: int, s3: int, s4: int, s5: int, s6: int, s7: int): int {
    s0 + 0x1_0000_0000 * (s1 + 0x1_0000_0000 * (s2 + 0x1_0000_0000 * (s3 + 0x1_0000_0000 * (
      s4 + 0x1_0000_0000 * (s5 + 0x1_0000_0000 * (s6 + 0x1_0000_0000 * s7))))))
  }

  /** Signs weighted below p, of words worth less than q in all: their sum tells which of v and m is larger. */
  ghost predicate Weighed(d: int, v: int, m: int, p: int, q: int) {
    -p < d < p && 0 <= v < q && 0 <= m < q && (d >= 0 <==> v <= m)
  }

  /** A higher word outweighs all the lower ones. */
  lemma Outweighs(d: int, v: int, m: int, p: int, q: int, s: int, t: int)
    requires Weighed(d, v, m, p, q) && 0 <= s < 0x1_0000_0000 && 0 <= t < 0x1_0000_0000
    ensures Weighed(d + p * Signum(t - s), v + q * s, m + q * t, 2 * p, 0x1_0000_0000 * q)
  {
    hide Signum;
    OneMoreWord(v, q, s);
    OneMoreWord(m, q, t);
    Compare(v, m, q, s, t);
    var g := Signum(t - s);
    SignTimes(p, g);
  }

  lemma OneMoreWord(v: int, q: int, s: int)
    requires 0 <= v < q && 0 <= s < 0x1_0000_0000
    ensures 0 <= v + q * s < 0x1_0000_0000 * q
  {
    MulMonotone(q, 0, s);
    MulMonotone(q, s, 0xFFFF_FFFF);
  }

  lemma Compare(v: int, m: int, q: int, s: int, t: int)
    requires 0 <= v < q && 0 <= m < q
    ensures v + q * s <= m + q * t <==> s < t || (s == t && v <= m)
  {
    if s < t {
      MulMonotone(q, s, t - 1);
    } else if s > t {
      MulMonotone(q, t, s - 1);
    }
  }

  lemma SignTimes(p: int, g: int)
    requires -1 <= g <= 1
    ensures p * g == if g == 1 then p else if g == 0 then 0 else -p
  {
  }

  lemma Weighted(s0: int, s1: int, s2: int, s3: int, s4: int, s5: int, s6: int, s7: int)
    requires Words32(s0, s1, s2, s3, s4, s5, s6, s7)
    ensures var sum := WeightedSum(s0, s1, s2, s3, s4, s5, s6, s7);
            -256 < sum < 256 && (sum >= 0 <==> Value8(s0, s1, s2, s3, s4, s5, s6, s7) < L)
  {
    hide Signum, Weighed, Value4, Sum4;
    WeightedLow(s0, s1, s2, s3);
    WeightedHigh(Sum4(s0, s1, s2, s3), Value4(s0, s1, s2, s3), s4, s5, s6, s7);
    SumsAgree(s0, s1, s2, s3, s4, s5, s6, s7);
    Concludes(WeightedSum(s0, s1, s2, s3, s4, s5, s6, s7), Value8(s0, s1, s2, s3, s4, s5, s6, s7));
  }

  lemma WeightedHigh(d: int, v: int, s4: int, s5: int, s6: int, s7: int)
    requires Words32(0, 0, 0, 0, s4, s5, s6, s7)
    requires Weighed(d, v, L_LOW, 16, 0x1_0000_0000_0000_0000_0000_0000_0000_0000)
    ensures Weighed(d + 16 * Signum(-s4) + 32 * Signum(-s5) + 64 * Signum(-s6) + 128 * Signum(268435456 - s7),
                    v + 0x1_0000_0000_0000_0000_0000_0000_0000_0000 * Value4(s4, s5, s6, s7), L - 1,
                    256, 0x1_0000_0000_0000_0000_0000_0000_0000_0000_0000_0000_0000_0000_0000_0000_0000_0000)
  {
    hide Signum, Weighed;
    var q4 := 0x1_0000_0000_0000_0000_0000_0000_0000_0000;
    var q5, q6, q7 := 0x1_0000_0000 * q4, 0x1_0000_0000_0000_0000 * q4, 0x1_0000_0000_0000_0000_0000_0000 * q4;
    var d4, v4 := d + 16 * Signum(0 - s4), v + q4 * s4;
    var d5, v5 := d4 + 32 * Signum(0 - s5), v4 + q5 * s5;
    var d6, v6 := d5 + 64 * Signum(0 - s6), v5 + q6 * s6;
    Outweighs(d, v, L_LOW, 16, q4, s4, 0);
    Outweighs(d4, v4, L_LOW, 32, q5, s5, 0);
    Outweighs(d5, v5, L_LOW, 64, q6, s6, 0);
    Outweighs(d6, v6, L_LOW, 128, q7, s7, 268435456);
  }

  lemma SumsAgree(s0: int, s1: int, s2: int, s3: int, s4: int, s5: int, s6: int, s7: int)
    requires Words32(s0, s1, s2, s3, s4, s5, s6, s7)
    ensures WeightedSum(s0, s1, s2, s3, s4, s5, s6, s7) ==
            Sum4(s0, s1, s2, s3) + 16 * Signum(-s4) + 32 * Signum(-s5) + 64 * Signum(-s6) + 128 * Signum(268435456 - s7)
    ensures Value8(s0, s1, s2, s3, s4, s5, s6, s7) ==
            Value4(s0, s1, s2, s3) + 0x1_0000_0000_0000_0000_0000_0000_0000_0000 * Value4(s4, s5, s6, s7)
  {
    hide Signum;
  }

  const L_LOW: int := 0x14DE_F9DE_A2F7_9CD6_5812_631A_5CF5_D3EC

  ghost function Sum4(s0: int, s1: int, s2: int, s3: int): int
    requires 0 <= s0 < 0x1_0000_0000 && 0 <= s1 < 0x1_0000_0000 && 0 <= s2 < 0x1_0000_0000 && 0 <= s3 < 0x1_0000_0000
  {
    Signum(1559614444 - s0) + 2 * Signum(1477600026 - s1) + 4 * Signum(2734136534 - s2) + 8 * Signum(350157278 - s3)
  }

  ghost function Value4(s0: int, s1: int, s2: int, s3: int): int {
    s0 + 0x1_0000_0000 * s1 + 0x1_0000_0000_0000_0000 * s2 + 0x1_0000_0000_0000_0000_0000_0000 * s3
  }

  lemma WeightedLow(s0: int, s1: int, s2: int, s3: int)
    requires 0 <= s0 < 0x1_0000_0000 && 0 <= s1 < 0x1_0000_0000 && 0 <= s2 < 0x1_0000_0000 && 0 <= s3 < 0x1_0000_0000
    ensures Weighed(Sum4(s0, s1, s2, s3), Value4(s0, s1, s2, s3), L_LOW, 16,
                    0x1_0000_0000_0000_0000_0000_0000_0000_0000)
  {
    assert Weighed(0, 0, 0, 1, 1);
    hide Signum, Weighed;
    var d0 := Signum(1559614444 - s0);
    Outweighs(0, 0, 0, 1, 1, s0, 1559614444);
    Outweighs(d0, s0, 1559614444, 2, 0x1_0000_0000, s1, 1477600026);
    Outweighs(d0 + 2 * Signum(1477600026 - s1), s0 + 0x1_0000_0000 * s1, 1559614444 + 0x1_0000_0000 * 1477600026,
              4, 0x1_0000_0000_0000_0000, s2, 2734136534);
    Outweighs(d0 + 2 * Signum(1477600026 - s1) + 4 * Signum(2734136534 - s2),
              s0 + 0x1_0000_0000 * s1 + 0x1_0000_0000_0000_0000 * s2,
              1559614444 + 0x1_0000_0000 * 1477600026 + 0x1_0000_0000_0000_0000 * 2734136534,
              8, 0x1_0000_0000_0000_0000_0000_0000, s3, 350157278);
  }

  lemma Concludes(sum: int, v: int)
    requires Weighed(sum, v, L - 1, 256,
                     0x1_0000_0000_0000_0000_0000_0000_0000_0000_0000_0000_0000_0000_0000_0000_0000_0000)
    ensures -256 < sum < 256 && (sum >= 0 <==> v < L)
  {
  }

  // ---------------------------------------------------------------------------
  // Arithmetic modulo l
  // ---------------------------------------------------------------------------

  /** The 32 bytes of n mod l: what sc_reduce, sc_reduce32, sc_add, sc_sub and sc_mulsub store. */
  function Reduced(n: int): (s: seq<uint8>)
    ensures |s| == 32 && LittleEndian(s) == n % L && s[31] <= 127
  {
    ReducedBytes(n % L);
    var s := Bytes(n % L, 32);
    assert s[31] <= 127 by { ReducedTop(s); }
    s
  }

  lemma ReducedBytes(n: nat)
    requires n < L
    ensures LittleEndian(Bytes(n, 32)) == n
  {
    hide Pow2, LittleEndian, Bytes;
    Pow2OfWords();
    Pow2Adds(64, 64);
    Pow2Adds(128, 128);
    BytesValue(n, 32);
  }

  lemma ReducedTop(s: seq<uint8>)
    requires |s| == 32 && LittleEndian(s) < L
    ensures s[31] <= 127
  {
    hide LittleEndian, FE.Load4, FE.Load3;
    Word(s, 28); Word(s, 24); Word(s, 20); Word(s, 16); Word(s, 12); Word(s, 8); Word(s, 4); Word(s, 0);
    assert s[0..] == s;
  }

  function ScAdd(a: seq<uint8>, b: seq<uint8>): (s: seq<uint8>)
  {
    Reduced(LittleEndian(a) + LittleEndian(b))
  }

  function ScSub(a: seq<uint8>, b: seq<uint8>): (s: seq<uint8>)
  {
    Reduced(LittleEndian(a) - LittleEndian(b))
  }

  /** c - ab */
  function ScMulSub(a: seq<uint8>, b: seq<uint8>, c: seq<uint8>): (s: seq<uint8>)
  {
    Reduced(LittleEndian(c) - LittleEndian(a) * LittleEndian(b))
  }
}
