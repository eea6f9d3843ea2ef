/** Double-width multiplication and division on 64-bit words (src/common/int-util.h). Products, sums and shifts of
    64-bit words are taken modulo 2^64, as the machine does. */
module IntUtil {
  import opened Words

  const TWO32: int := 0x1_0000_0000

  type uint32 = x: int | 0 <= x < TWO32

  function HiDword(x: uint64): (r: int) { x / TWO32 }

  function LoDword(x: uint64): (r: int) { x % TWO32 }

  /** The two halves of the exact 128-bit product. */
  method Mul128(x: uint64, y: uint64) returns (lo: uint64, hi: uint64)
    ensures hi * TWO64 + lo == x * y
  {
    var a, b := HiDword(x), LoDword(x);
    var c, d := HiDword(y), LoDword(y);
    var ac, ad, bc, bd := MulDwords(a, c), MulDwords(a, d), MulDwords(b, c), MulDwords(b, d);
    lo, hi := AddPartials(ac, ad, bc, bd);
    HalvesProduct(a, b, c, d);
  }

  /** A product of dwords does not wrap. */
  function MulDwords(a: uint32, c: uint32): (r: uint64)
    ensures r == a * c <= MAX_PARTIAL
  {
    SquareBound(a, c, TWO32 - 1);
    Below64(a * c);
    a * c % TWO64
  }

  lemma SquareBound(a: nat, c: nat, n: nat)
    requires a <= n && c <= n
    ensures 0 <= a * c <= n * n
  {
    MulMonotone(a, c, n);
    MulMonotone(n, a, n);
  }

  lemma Below64(x: int)
    requires 0 <= x < TWO64
    ensures x % TWO64 == x
  {
  }

  const MAX_PARTIAL: int := 0xFFFF_FFFE_0000_0001

  lemma HalvesProduct(a: int, b: int, c: int, d: int)
    ensures (a * TWO32 + b) * (c * TWO32 + d) == a * c * TWO64 + (a * d + b * c) * TWO32 + b * d
  {
  }

  /** Adds the four partial products; the two carries are what the sums lose. */
  method AddPartials(ac: uint64, ad: uint64, bc: uint64, bd: uint64) returns (lo: uint64, hi: uint64)
    requires ac <= MAX_PARTIAL && ad <= MAX_PARTIAL && bc <= MAX_PARTIAL && bd <= MAX_PARTIAL
    ensures hi * TWO64 + lo == ac * TWO64 + (ad + bc) * TWO32 + bd
  {
    var adbc := Add64(ad, bc);
    var adbcCarry := if adbc < ad then 1 else 0;
    lo := Add64(bd, Shl32(adbc));
    var loCarry := if lo < bd then 1 else 0;
    hi := Add64(Add64(Add64(ac, adbc / TWO32), Shl32(adbcCarry)), loCarry);
  }

  function Add64(x: uint64, y: uint64): (r: uint64)
    ensures r == if x + y < TWO64 then x + y else x + y - TWO64
  {
    (x + y) % TWO64
  }

  function Shl32(x: uint64): (r: uint64)
    ensures r == x % TWO32 * TWO32 <= TWO64 - TWO32
  {
    DivModUnique(x * TWO32, TWO64, x / TWO32, x % TWO32 * TWO32);
    x * TWO32 % TWO64
  }

  /** Divides the dword below an earlier remainder; the new remainder replaces the earlier one. */
  method DivWithReminder(dividend: uint64, divisor: uint32, remainder: uint32) returns (q: uint64, rest: uint32)
    requires divisor > 0
    ensures q * divisor + rest == Or(dividend, remainder * TWO32) && rest < divisor
    ensures dividend < TWO32 ==> q * divisor + rest == remainder * TWO32 + dividend
    ensures dividend < TWO32 && remainder < divisor ==> q < TWO32
  {
    var all := OrWords(dividend, remainder * TWO32);
    hide Or;
    q, rest := Divide(all, divisor);
    OrDwords(dividend, remainder);
    if dividend < TWO32 && remainder < divisor && q >= TWO32 {
      MulMonotone(divisor, TWO32, q);
      assert false;
    }
  }

  method Divide(x: uint64, divisor: uint32) returns (q: uint64, rest: uint32)
    requires divisor > 0
    ensures q * divisor + rest == x && rest < divisor
  {
    var d: int := x / divisor;
    MulAtLeast(d, divisor);
    q, rest := d, x % divisor;
  }

  function OrWords(x: uint64, y: uint64): (r: uint64)
    ensures r == Or(x, y)
  {
    Pow2OfWords();
    OrIsBelow(x, y, 64);
    Or(x, y)
  }

  lemma OrDwords(lo: nat, hi: nat)
    ensures lo < TWO32 ==> Or(lo, hi * TWO32) == lo + hi * TWO32
  {
    hide Pow2, Or;
    Pow2OfWords();
    if lo < TWO32 {
      OrIsSum(lo, hi, 32);
    }
  }

  lemma {:induction false} OrIsBelow(x: nat, y: nat, n: nat)
    requires x < Pow2(n) && y < Pow2(n)
    ensures Or(x, y) < Pow2(n)
  {
    if n > 0 {
      OrIsBelow(x / 2, y / 2, n - 1);
    }
  }

  /** Long division by dwords: the exact quotient, in two words, and the exact remainder. */
  method Div128By32(hi: uint64, lo: uint64, divisor: uint32) returns (rest: uint32, qhi: uint64, qlo: uint64)
    requires divisor > 0
    ensures (qhi * TWO64 + qlo) * divisor + rest == hi * TWO64 + lo && rest < divisor
  {
    hide Or;
    var q3, r3 := DivWithReminder(HiDword(hi), divisor, 0);
    var q2, r2 := DivWithReminder(LoDword(hi), divisor, r3);
    var q1, r1 := DivWithReminder(HiDword(lo), divisor, r2);
    var q0, r0 := DivWithReminder(LoDword(lo), divisor, r1);
    qhi, qlo, rest := Pair(q3, q2), Pair(q1, q0), r0;
    assert qhi == q3 * TWO32 + q2 && qlo == q1 * TWO32 + q0;
    Horner(q3, q2, q1, q0, divisor);
  }

  function Pair(hi: uint32, lo: uint32): (r: uint64)
    ensures r == hi * TWO32 + lo
  {
    OrDwords(lo, hi);
    OrWords(lo, Shl32(hi))
  }

  lemma Horner(q3: int, q2: int, q1: int, q0: int, d: int)
    ensures ((q3 * TWO32 + q2) * TWO64 + (q1 * TWO32 + q0)) * d ==
            ((q3 * d * TWO32 + q2 * d) * TWO32 + q1 * d) * TWO32 + q0 * d
  {
  }
}
