/** Bytes, powers of two and the bitwise operators of C, on natural numbers. */
module Words {

  newtype uint8 = x: int | 0 <= x < 0x100

  type uint64 = x: int | 0 <= x < 0x1_0000_0000_0000_0000

  const TWO64: int := 0x1_0000_0000_0000_0000

  /** The value of bytes stored with the least significant one first. */
  function LittleEndian(s: seq<uint8>): (n: nat)
  {
    if s == [] then 0 else s[0] as int + 0x100 * LittleEndian(s[1..])
  }

  lemma LittleEndianStep(s: seq<uint8>, i: nat)
    requires i < |s|
    ensures LittleEndian(s[i..]) == s[i] as int + 0x100 * LittleEndian(s[i + 1..])
  {
    assert s[i..][1..] == s[i + 1..];
  }

  /** The k lowest bytes of n, least significant first. */
  function Bytes(n: nat, k: nat): (s: seq<uint8>)
    ensures |s| == k
  {
    if k == 0 then [] else [(n % 0x100) as uint8] + Bytes(n / 0x100, k - 1)
  }

  lemma {:induction false} BytesValue(n: nat, k: nat)
    requires n < Pow2(8 * k)
    ensures LittleEndian(Bytes(n, k)) == n
  {
    if k > 0 {
      Pow2Byte(8 * (k - 1));
      hide Pow2;
      BytesValue(n / 0x100, k - 1);
      assert Bytes(n, k)[1..] == Bytes(n / 0x100, k - 1);
    }
  }

  lemma {:induction false} LittleEndianAppends(s: seq<uint8>, t: seq<uint8>)
    ensures LittleEndian(s + t) == LittleEndian(s) + Pow2(8 * |s|) * LittleEndian(t)
  {
    if s == [] {
      assert s + t == t;
    } else {
      hide Pow2;
      var n := 8 * |s[1..]|;
      assert (s + t)[1..] == s[1..] + t;
      LittleEndianAppends(s[1..], t);
      Pow2Byte(n);
      MulAssociates(0x100, Pow2(n), LittleEndian(t));
    }
  }

  lemma {:induction false} LittleEndianIsBounded(s: seq<uint8>)
    ensures LittleEndian(s) < Pow2(8 * |s|)
  {
    if s != [] {
      hide Pow2;
      LittleEndianIsBounded(s[1..]);
      Pow2Byte(8 * |s[1..]|);
    } else {
      assert Pow2(0) == 1;
    }
  }

  lemma TopByte(s: seq<uint8>)
    requires |s| > 0 && s[|s| - 1] <= 127
    ensures LittleEndian(s) < Pow2(8 * |s| - 1)
    decreases |s|
  {
    if |s| == 1 {
      assert Pow2(7) == 128;
      assert LittleEndian(s[1..]) == 0;
    } else {
      hide Pow2;
      TopByte(s[1..]);
      Pow2Byte(8 * |s[1..]| - 1);
    }
  }

  /** Bit i of a number is bit i % 8 of its byte i / 8. */
  lemma {:induction false} BitOfBytes(s: seq<uint8>, i: nat)
    requires i < 8 * |s|
    ensures LittleEndian(s) / Pow2(i) % 2 == s[i / 8] as int / Pow2(i % 8) % 2
  {
    var l := LittleEndian(s[1..]);
    if i < 8 {
      Pow2Adds(i, 8 - i);
      assert Pow2(8) == 0x100;
      assert Pow2(8 - i) == 2 * Pow2(7 - i);
      hide Pow2, LittleEndian;
      BitOfSum(s[0] as int, l, Pow2(i), Pow2(7 - i));
    } else {
      BitOfBytes(s[1..], i - 8);
      Pow2Byte(i - 8);
      hide Pow2;
      DivModUnique(LittleEndian(s), 0x100, l, s[0] as int);
      DivDiv(LittleEndian(s), 0x100, Pow2(i - 8));
      assert i / 8 == (i - 8) / 8 + 1 && i % 8 == (i - 8) % 8;
      assert s[1..][(i - 8) / 8] == s[i / 8];
    }
  }

  lemma BitOfSum(x: nat, y: nat, p: nat, q: nat)
    requires p > 0 && p * (2 * q) == 0x100
    ensures (x + 0x100 * y) / p % 2 == x / p % 2
  {
    var z := x / p;
    assert 0x100 * y == p * (2 * (q * y));
    DivModUnique(x + 0x100 * y, p, z + 2 * (q * y), x % p);
    DivModUnique(z + 2 * (q * y), 2, z / 2 + q * y, z % 2);
  }

  lemma Pow2Byte(n: nat)
    ensures Pow2(n + 8) == 0x100 * Pow2(n)
  {
    Pow2Adds(8, n);
    assert Pow2(8) == 0x100;
  }

  function Pow2(n: nat): (p: nat)
    ensures p > 0
  {
    if n == 0 then 1 else 2 * Pow2(n - 1)
  }

  lemma {:induction false} Pow2Adds(m: nat, n: nat)
    ensures Pow2(m + n) == Pow2(m) * Pow2(n)
  {
    if m > 0 {
      Pow2Adds(m - 1, n);
    }
  }

  lemma Pow2OfWords()
    ensures Pow2(16) == 0x1_0000 && Pow2(32) == 0x1_0000_0000 && Pow2(64) == TWO64
  {
    hide Pow2;
    Pow2Of16();
    Pow2Adds(16, 16);
    Pow2Adds(32, 32);
  }

  lemma Pow2Of16()
    ensures Pow2(16) == 0x1_0000
  {
    assert Pow2(8) == 0x100;
    Pow2Adds(8, 8);
  }

  lemma {:induction false} Pow2Monotone(m: nat, n: nat)
    requires m <= n
    ensures Pow2(m) <= Pow2(n)
  {
    if m < n {
      Pow2Monotone(m, n - 1);
    }
  }

  /** x | y */
  function Or(x: nat, y: nat): (z: nat)
  {
    if x == 0 && y == 0 then 0
    else (if x % 2 == 1 || y % 2 == 1 then 1 else 0) + 2 * Or(x / 2, y / 2)
  }

  /** x & ~y */
  function AndNot(x: nat, y: nat): (z: nat)
  {
    if x == 0 then 0
    else (if x % 2 == 1 && y % 2 == 0 then 1 else 0) + 2 * AndNot(x / 2, y / 2)
  }

  /** Bits that do not meet: or is a sum. */
  lemma {:induction false} OrIsSum(x: nat, y: nat, k: nat)
    requires x < Pow2(k)
    ensures Or(x, Pow2(k) * y) == x + Pow2(k) * y
  {
    if k == 0 {
      OrZero(y);
    } else {
      assert Pow2(k) * y == 2 * (Pow2(k - 1) * y);
      OrIsSum(x / 2, y, k - 1);
    }
  }

  lemma {:induction false} OrZero(y: nat)
    ensures Or(0, y) == y
  {
    if y > 0 {
      OrZero(y / 2);
    }
  }

  // ---------------------------------------------------------------------------
  // Division
  // ---------------------------------------------------------------------------

  lemma DivModUnique(x: int, n: nat, q: int, r: int)
    requires x == n * q + r && 0 <= r < n
    ensures x / n == q && x % n == r
  {
    var d := x / n - q;
    assert x == n * (x / n) + x % n;
    assert n * d == r - x % n;
    if d > 0 {
      MulAtLeast(n, d);
    } else if d < 0 {
      MulAtLeast(n, -d);
    }
  }

  lemma MulAssociates(x: int, y: int, z: int)
    ensures (x * y) * z == x * (y * z)
  {
  }

  lemma MulAtLeast(n: nat, d: int)
    requires d >= 1
    ensures n * d >= n
  {
  }

  lemma MulMonotone(n: nat, x: int, y: int)
    requires x <= y
    ensures n * x <= n * y
  {
  }

  lemma DivDiv(x: int, a: nat, b: nat)
    requires a > 0 && b > 0
    ensures b * a > 0 && x / a / b == x / (b * a)
  {
    var y, s := x / a, x % a;
    var q, t := y / b, y % b;
    MulMonotone(a, t, b - 1);
    assert x == (b * a) * q + (a * t + s) by {
      assert x == a * y + s && y == b * q + t;
      assert a * (b * q) == (b * a) * q;
    }
    DivModUnique(x, b * a, q, a * t + s);
  }

  /** (lo + a * hi) mod (a * m) for lo below a. */
  lemma ModOfSum(lo: nat, hi: nat, a: nat, m: nat)
    requires lo < a && m > 0
    ensures a * m > 0 && (lo + a * hi) % (a * m) == lo + a * (hi % m)
  {
    var q, r := hi / m, hi % m;
    MulMonotone(a, r, m - 1);
    assert a * hi == (a * m) * q + a * r by {
      assert hi == m * q + r;
    }
    DivModUnique(lo + a * hi, a * m, q, lo + a * r);
  }
}
