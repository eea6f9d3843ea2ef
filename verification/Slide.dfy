/** The sliding-window recoding of a 256-bit scalar into signed odd digits (src/crypto/crypto-ops.c, slide). */
module Slide {
  import opened Words

  newtype int8 = x: int | -0x80 <= x < 0x80

  // ---------------------------------------------------------------------------
  // The recoding as arithmetic
  // ---------------------------------------------------------------------------

  /** The digit for the lowest place of v: zero if v is even, else the residue of v modulo 32 closest to zero. */
  function Digit(v: nat): (d: int)
    ensures d == 0 || (d % 2 == 1 && -15 <= d <= 15)
    ensures v % 2 == 0 <==> d == 0
    ensures (v - d) % 2 == 0 && (d != 0 ==> (v - d) % 32 == 0)
  {
    var m := v % 32;
    OddResidue(v, v / 32, m);
    if m % 2 == 0 then 0 else if m < 16 then m else m - 32
  }

  lemma OddResidue(v: nat, q: nat, m: nat)
    requires v == 32 * q + m && m < 32
    ensures v % 2 == m % 2 == (m - 32) % 2
    ensures (v - m) % 32 == 0 == (v - m) % 2
    ensures (v - (m - 32)) % 32 == 0 == (v - (m - 32)) % 2
  {
    DivModUnique(v, 2, 16 * q + m / 2, m % 2);
    DivModUnique(m - 32, 2, m / 2 - 16, m % 2);
    DivModUnique(v - m, 32, q, 0);
    DivModUnique(v - m, 2, 16 * q, 0);
    DivModUnique(v - (m - 32), 32, q + 1, 0);
    DivModUnique(v - (m - 32), 2, 16 * q + 16, 0);
  }

  /** What is left of a after n digits have been taken off. */
  function Rest(a: nat, n: nat): (v: nat)
  {
    if n == 0 then a else
      var v := Rest(a, n - 1);
      (v - Digit(v)) / 2
  }

  /** The n lowest digits of a. */
  ghost function Recoding(a: nat, n: nat): (ds: seq<int8>)
    ensures |ds| == n
  {
    seq(n, k requires 0 <= k < n => Digit(Rest(a, k)) as int8)
  }

  /** The value of digits with the least significant first, from place i on. */
  ghost function Tail(ds: seq<int8>, i: nat): int
    requires i <= |ds|
    decreases |ds| - i
  {
    if i == |ds| then 0 else ds[i] as int + 2 * Tail(ds, i + 1)
  }

  lemma RestStep(a: nat, n: nat)
    ensures Rest(a, n) == Digit(Rest(a, n)) + 2 * Rest(a, n + 1)
  {
  }

  /** Digits and rest account for all of a. */
  lemma {:induction false} RecodingValue(a: nat, n: nat, i: nat)
    requires i <= n
    ensures Rest(a, i) == Tail(Recoding(a, n), i) + Pow2(n - i) * Rest(a, n)
    decreases n - i
  {
    hide Digit, Rest;
    if i < n {
      RecodingValue(a, n, i + 1);
      RestStep(a, i);
      assert Recoding(a, n)[i] as int == Digit(Rest(a, i));
      MulAssociates(2, Pow2(n - (i + 1)), Rest(a, n));
    }
  }

  /** A nonzero digit is followed by at least four zeros. */
  lemma DigitsAreSpaced(a: nat, k: nat, j: nat)
    requires Digit(Rest(a, k)) != 0 && 1 <= j <= 4
    ensures Digit(Rest(a, k + j)) == 0
  {
    hide Digit, Rest;
    AfterOdd(a, k);
    RestHalves(a, k + 1, 8);
    RestHalves(a, k + 2, 4);
    RestHalves(a, k + 3, 2);
    RestHalves(a, k + 4, 1);
  }

  lemma AfterOdd(a: nat, k: nat)
    requires Digit(Rest(a, k)) != 0
    ensures Rest(a, k + 1) % (2 * 8) == 0
  {
    hide Digit, Rest;
    RestStep(a, k);
  }

  lemma RestHalves(a: nat, k: nat, m: nat)
    requires m > 0 && Rest(a, k) % (2 * m) == 0
    ensures Rest(a, k + 1) % m == 0 && Digit(Rest(a, k)) == 0
  {
    hide Digit, Rest;
    var q := Rest(a, k) / (2 * m);
    assert Rest(a, k) == 2 * (m * q);
    assert Rest(a, k) % 2 == 0 by { DivModUnique(Rest(a, k), 2, m * q, 0); }
    RestStep(a, k);
    DivModUnique(Rest(a, k + 1), m, q, 0);
  }

  /** A number below 2^n, or 2^n itself, stays so as places are taken off. */
  lemma {:induction false} RestShrinks(a: nat, n: nat, i: nat)
    requires a <= Pow2(n) && i <= n
    ensures Rest(a, i) <= Pow2(n - i)
  {
    if i > 0 {
      RestShrinks(a, n, i - 1);
      ShrinkStep(Rest(a, i - 1), n - i);
    }
  }

  lemma ShrinkStep(v: nat, m: nat)
    requires v <= Pow2(m + 1)
    ensures (v - Digit(v)) / 2 <= Pow2(m)
  {
    if v % 2 == 1 {
      if m >= 4 {
        Pow2Adds(m - 4, 5);
        assert Pow2(5) == 32;
      } else {
        Pow2Monotone(m + 1, 4);
        assert Pow2(4) == 16;
      }
    }
  }

  /** Below 2^(n-1), n digits suffice. */
  lemma RestVanishes(a: nat, n: nat)
    requires n > 0 && a < Pow2(n - 1)
    ensures Rest(a, n) == 0
  {
    RestShrinks(a, n - 1, n - 1);
    RestStep(a, n - 1);
  }

  // ---------------------------------------------------------------------------
  // Changing digits in place
  // ---------------------------------------------------------------------------

  ghost predicate Bits(r: seq<int8>, i: nat) {
    forall k :: i <= k < |r| ==> r[k] == 0 || r[k] == 1
  }

  lemma {:induction false} TailUpdate(r: seq<int8>, i: nat, k: nat, x: int8)
    requires i <= k < |r|
    ensures Tail(r[k := x], i) == Tail(r, i) + (x as int - r[k] as int) * Pow2(k - i)
    decreases k - i
  {
    if i == k {
      TailFrame(r, r[k := x], k + 1);
    } else {
      TailUpdate(r, i + 1, k, x);
      MulAssociates(x as int - r[k] as int, 2, Pow2(k - (i + 1)));
    }
  }

  lemma {:induction false} TailFrame(r: seq<int8>, r': seq<int8>, i: nat)
    requires i <= |r| == |r'| && r[i..] == r'[i..]
    ensures Tail(r, i) == Tail(r', i)
    decreases |r| - i
  {
    if i < |r| {
      assert r[i] == r[i..][0] == r'[i..][0] == r'[i];
      assert r[i + 1..] == r[i..][1..] == r'[i..][1..] == r'[i + 1..];
      TailFrame(r, r', i + 1);
    }
  }

  lemma {:induction false} BitsAreBounded(r: seq<int8>, i: nat)
    requires i <= |r| && Bits(r, i)
    ensures 0 <= Tail(r, i) < Pow2(|r| - i)
    decreases |r| - i
  {
    if i < |r| {
      BitsAreBounded(r, i + 1);
    }
  }

  /** Zeros from i up to k: the rest counts Pow2(k - i) fold. */
  lemma {:induction false} TailOverZeros(r: seq<int8>, i: nat, k: nat)
    requires i <= k <= |r| && forall j :: i <= j < k ==> r[j] == 0
    ensures Tail(r, i) == Pow2(k - i) * Tail(r, k)
    decreases k - i
  {
    if i < k {
      TailOverZeros(r, i + 1, k);
      MulAssociates(2, Pow2(k - (i + 1)), Tail(r, k));
    }
  }

  lemma {:induction false} TailOverOnes(r: seq<int8>, i: nat, k: nat)
    requires i <= k <= |r| && forall j :: i <= j < k ==> r[j] == 1
    ensures Tail(r, i) == Pow2(k - i) * (Tail(r, k) + 1) - 1
    decreases k - i
  {
    if i < k {
      TailOverOnes(r, i + 1, k);
      MulAssociates(2, Pow2(k - (i + 1)), Tail(r, k) + 1);
    }
  }

  ghost predicate AllOnes(r: seq<int8>, k: nat) {
    forall j :: k <= j < |r| ==> r[j] == 1
  }

  /** The bits from k on are all ones exactly when nothing can be added to them. */
  lemma {:induction false} AllOnesValue(r: seq<int8>, k: nat)
    requires k <= |r| && Bits(r, k)
    ensures AllOnes(r, k) <==> Tail(r, k) == Pow2(|r| - k) - 1
    decreases |r| - k
  {
    if k < |r| {
      AllOnesValue(r, k + 1);
      assert AllOnes(r, k) <==> r[k] == 1 && AllOnes(r, k + 1);
    }
  }

  /** The carry: one is added to the bits from place k on, unless they are all ones. Then the loop runs off the end, the
      bits become zeros, and the carry is dropped. */
  method AddCarry(r: array<int8>, k: nat)
    requires k < r.Length && Bits(r[..], k) && r[k] == 1
    modifies r
    ensures Bits(r[..], k) && r[k] == 0
    ensures r[..k] == old(r[..k])
    ensures Tail(r[..], k) == (Tail(old(r[..]), k) + 1) % Pow2(r.Length - k)
    ensures AllOnes(old(r[..]), k) <==> Tail(r[..], k) != Tail(old(r[..]), k) + 1
    ensures AllOnes(old(r[..]), k) ==> forall j :: k <= j < r.Length ==> r[j] == 0
  {
    ghost var before := r[..];
    var j := k;
    while j < r.Length
      invariant k <= j <= r.Length
      invariant r[..k] == before[..k] && r[j..] == before[j..]
      invariant forall n :: k <= n < j ==> r[n] == 0 && before[n] == 1
    {
      if r[j] == 0 {
        r[j] := 1;
        break;
      }
      r[j] := 0;
      j := j + 1;
    }
    CarryValue(before, r[..], k, j);
    AllOnesValue(before, k);
    CarryOut(Tail(before, k), Pow2(r.Length - k));
    BitsAreBounded(before, k);
  }

  lemma CarryOut(t: int, p: nat)
    requires p > 0
    ensures 0 <= t < p ==> ((t + 1) % p == t + 1 <==> t != p - 1)
  {
    if 0 <= t < p - 1 {
      DivModUnique(t + 1, p, 0, t + 1);
    }
  }

  lemma CarryValue(before: seq<int8>, after: seq<int8>, k: nat, j: nat)
    requires k <= j <= |before| == |after| && Bits(after, k)
    requires forall n :: k <= n < j ==> after[n] == 0 && before[n] == 1
    requires j < |before| ==> before[j] == 0 && after[j] == 1 && after[j + 1..] == before[j + 1..]
    ensures Tail(after, k) == (Tail(before, k) + 1) % Pow2(|before| - k)
  {
    hide Pow2;
    TailOverOnes(before, k, j);
    TailOverZeros(after, k, j);
    var n := Pow2(|before| - k);
    BitsAreBounded(after, k);
    if j < |before| {
      TailFrame(before, after, j + 1);
      assert Tail(after, j) == Tail(before, j) + 1;
      DivModUnique(Tail(before, k) + 1, n, 0, Tail(after, k));
    } else {
      DivModUnique(Tail(before, k) + 1, n, 1, 0);
    }
  }

  // ---------------------------------------------------------------------------
  // One window
  // ---------------------------------------------------------------------------

  lemma DigitIsUnique(v: nat, d: int)
    requires v % 2 == 1 && -15 <= d <= 15 && (v - d) % 32 == 0
    ensures d == Digit(v)
  {
    var k := (v - d) / 32;
    var k' := (v - Digit(v)) / 32;
    assert v == d + 32 * k == Digit(v) + 32 * k';
  }

  /** What the digits above place i amount to while place i is being collected into d: half of v - d, as far as
      the remaining places can hold it. */
  ghost predicate Holds(r: seq<int8>, i: nat, v: nat, d: int)
    requires i < |r|
  {
    (v - d) % 2 == 0 && Tail(r, i + 1) == ((v - d) / 2) % Pow2(|r| - (i + 1))
  }

  lemma TakeBit(r: seq<int8>, i: nat, b: nat, v: nat, d: int)
    requires 1 <= b && i + b < |r| && Bits(r, i + 1) && r[i + b] == 1 && Holds(r, i, v, d)
    ensures Bits(r[i + b := 0], i + 1)
    ensures Holds(r[i + b := 0], i, v, d + Pow2(b))
  {
    var r' := r[i + b := 0];
    assert Pow2(b) == 2 * Pow2(b - 1);
    hide Pow2, Tail;
    TailUpdate(r, i + 1, i + b, 0);
    BitsAreBounded(r, i + 1);
    BitsAreBounded(r', i + 1);
    HalfMinus(v, d, Pow2(b - 1), Pow2(|r| - (i + 1)), Tail(r, i + 1));
  }

  lemma HalfMinus(v: int, d: int, p: nat, m: nat, t: int)
    requires m > 0 && (v - d) % 2 == 0 && t == ((v - d) / 2) % m && p <= t
    ensures (v - (d + 2 * p)) % 2 == 0 && t - p == ((v - (d + 2 * p)) / 2) % m
  {
    var x := (v - d) / 2;
    assert v - (d + 2 * p) == 2 * (x - p);
    DivModUnique(x - p, m, x / m, t - p);
  }

  lemma HalfPlus(v: int, d: int, n: nat, t: int)
    requires n > 0 && (v - d) % 2 == 0 && 8 * t == ((v - d) / 2) % (8 * n)
    ensures (v - (d - 16)) % 2 == 0 && 8 * ((t + 1) % n) == ((v - (d - 16)) / 2) % (8 * n)
  {
    var x := (v - d) / 2;
    var y, q := x / (8 * n), (t + 1) / n;
    assert v - (d - 16) == 2 * (x + 8);
    assert x == 8 * n * y + 8 * t;
    assert t + 1 == n * q + (t + 1) % n;
    assert x + 8 == 8 * n * y + 8 * (t + 1);
    assert 8 * (t + 1) == 8 * n * q + 8 * ((t + 1) % n);
    assert 8 * n * y + 8 * n * q == 8 * n * (y + q);
    DivModUnique(x + 8, 8 * n, y + q, 8 * ((t + 1) % n));
  }

  lemma BorrowBit(r: seq<int8>, r': seq<int8>, i: nat, v: nat, d: int)
    requires i + 4 < |r| == |r'| && Holds(r, i, v, d)
    requires forall j :: i < j < i + 4 ==> r[j] == 0 && r'[j] == 0
    requires Tail(r', i + 4) == (Tail(r, i + 4) + 1) % Pow2(|r| - (i + 4))
    ensures Holds(r', i, v, d - 16)
  {
    assert Pow2(3) == 8;
    Pow2Adds(3, |r| - (i + 4));
    hide Pow2, Tail;
    TailOverZeros(r, i + 1, i + 4);
    TailOverZeros(r', i + 1, i + 4);
    HalfPlus(v, d, Pow2(|r| - (i + 4)), Tail(r, i + 4));
  }

  /** What holds of the places from i on after the b - 1 places that follow i have been looked at. */
  ghost predicate Collecting(r: seq<int8>, i: nat, b: nat, v: nat) {
    && |r| == 256 && i < 256 && 1 <= b <= 7 && i + b <= 256
    && Bits(r, i + 1)
    && -15 <= r[i] <= 15
    && (forall j :: i < j < i + b && j < i + 5 ==> r[j] == 0)
    && (b <= 4 ==> 0 < r[i] as int < Pow2(b))
    && Holds(r, i, v, r[i] as int)
  }

  /** Collects the bits that follow a nonzero place i into a digit there: the digit of the recoding. */
  method Window(r: array<int8>, i: nat, ghost v: nat)
    requires r.Length == 256 && i < 256 && Bits(r[..], i) && r[i] == 1
    requires v == Tail(r[..], i)
    modifies r
    ensures r[..i] == old(r[..i]) && Bits(r[..], i + 1)
    ensures r[i] as int == Digit(v) && Holds(r[..], i, v, Digit(v))
  {
    StartsCollecting(r[..], i, v);
    hide Pow2, Tail, Digit, Holds;
    var b := 1;
    var stop := false;
    while b <= 6 && i + b < 256
      invariant 1 <= b <= 7 && r[..i] == old(r[..i])
      invariant Collecting(r[..], i, b, v)
    {
      stop := Collect(r, i, b, v);
      if stop {
        break;
      }
      b := b + 1;
    }
    WindowDigit(r[..], i, v, b);
  }

  lemma StartsCollecting(r: seq<int8>, i: nat, v: nat)
    requires |r| == 256 && i < 256 && Bits(r, i) && r[i] == 1 && v == Tail(r, i)
    ensures Collecting(r, i, 1, v) && v < Pow2(256 - i) && v % 2 == 1
  {
    BitsAreBounded(r, i);
    BitsAreBounded(r, i + 1);
    assert Pow2(1) == 2;
    var t := Tail(r, i + 1);
    hide Pow2, Tail;
    OddHalf(v, t, Pow2(256 - (i + 1)));
  }

  lemma OddHalf(v: int, t: int, m: nat)
    requires v == 1 + 2 * t && 0 <= t < m
    ensures v % 2 == 1 && (v - 1) % 2 == 0 && t == ((v - 1) / 2) % m
  {
    DivModUnique(t, m, 0, t);
  }

  /** One turn of the inner loop, at place i + b. */
  method Collect(r: array<int8>, i: nat, b: nat, ghost v: nat) returns (stop: bool)
    requires r.Length == 256 && Collecting(r[..], i, b, v) && b <= 6 && i + b < 256
    modifies r
    ensures r[..i] == old(r[..i])
    ensures if stop then b >= 5 && r[..] == old(r[..]) else Collecting(r[..], i, b + 1, v)
  {
    stop := false;
    ghost var before := r[..];
    if r[i + b] != 0 {
      assert before[i + b] == 1;
      var t := r[i + b] as int * Pow2(b);
      WhichBranch(before, i, b, v);
      hide Pow2, Tail, Collecting;
      if r[i] as int + t <= 15 {
        Taken(before, i, b, v);
        r[i] := (r[i] as int + t) as int8;
        r[i + b] := 0;
        assert r[..] == before[i := (before[i] as int + t) as int8][i + b := 0];
      } else if r[i] as int - t >= -15 {
        r[i] := (r[i] as int - t) as int8;
        TailFrame(r[..], before, i + 4);
        assert Bits(r[..], i + 4) by { assert Bits(before, i + 1); }
        AddCarry(r, i + b);
        Borrowed(before, r[..], i, v);
      } else {
        stop := true;
      }
    } else {
      Skipped(before, i, b, v);
    }
  }

  /** A bit among the next three is added, the fourth is borrowed, and later ones end the window. */
  lemma WhichBranch(r: seq<int8>, i: nat, b: nat, v: nat)
    requires Collecting(r, i, b, v) && b <= 6
    ensures Pow2(b) <= 64 && Bits(r, i + 1) && -15 <= r[i] <= 15
    ensures r[i] as int + Pow2(b) <= 15 <==> b <= 3
    ensures b == 4 ==> 1 <= r[i] && Pow2(b) == 16
    ensures b >= 5 ==> r[i] as int - Pow2(b) < -15
  {
    Shifts(b);
  }

  lemma Taken(r: seq<int8>, i: nat, b: nat, v: nat)
    requires Collecting(r, i, b, v) && b <= 3 && i + b < 256 && r[i + b] == 1 && r[i] as int + Pow2(b) <= 15
    ensures Collecting(r[i := (r[i] as int + Pow2(b)) as int8][i + b := 0], i, b + 1, v)
  {
    var d := r[i] as int;
    Shifts(b);
    hide Pow2, Tail, Holds;
    var r' := r[i := (d + Pow2(b)) as int8][i + b := 0];
    TakeBit(r, i, b, v, d);
    HoldsFrame(r[i + b := 0], r', i, v, d + Pow2(b));
  }

  lemma Skipped(r: seq<int8>, i: nat, b: nat, v: nat)
    requires Collecting(r, i, b, v) && b <= 6 && i + b < 256 && r[i + b] == 0
    ensures Collecting(r, i, b + 1, v)
  {
    Shifts(b);
    hide Tail, Holds;
  }

  lemma Borrowed(r: seq<int8>, r': seq<int8>, i: nat, v: nat)
    requires Collecting(r, i, 4, v) && i + 4 < 256 && r[i + 4] == 1 && 1 <= r[i]
    requires |r'| == 256 && r'[i] as int == r[i] as int - 16 && (forall j :: i < j < i + 4 ==> r'[j] == r[j])
    requires Bits(r', i + 4) && r'[i + 4] == 0
    requires Tail(r', i + 4) == (Tail(r, i + 4) + 1) % Pow2(256 - (i + 4))
    ensures Collecting(r', i, 5, v)
  {
    assert Pow2(4) == 16;
    hide Tail, Holds, Pow2;
    BorrowBit(r, r', i, v, r[i] as int);
  }

  lemma HoldsFrame(r: seq<int8>, r': seq<int8>, i: nat, v: nat, d: int)
    requires i < |r| == |r'| && r[i + 1..] == r'[i + 1..] && Holds(r, i, v, d)
    ensures Holds(r', i, v, d)
  {
    TailFrame(r, r', i + 1);
  }

  lemma Shifts(b: nat)
    requires 1 <= b <= 6
    ensures Pow2(b) == [2, 4, 8, 16, 32, 64][b - 1] && Pow2(b + 1) == 2 * Pow2(b)
  {
    assert Pow2(1) == 2 && Pow2(2) == 4 && Pow2(3) == 8 && Pow2(4) == 16 && Pow2(5) == 32 && Pow2(6) == 64;
  }

  lemma WindowDigit(r: seq<int8>, i: nat, v: nat, b: nat)
    requires Collecting(r, i, b, v) && (5 <= b || i + b == 256)
    requires v < Pow2(256 - i) && v % 2 == 1
    ensures r[i] as int == Digit(v)
  {
    if 5 <= b {
      FullWindow(r, i, v, b);
    } else {
      LastWindow(r, i, v, b);
    }
    hide *;
    DigitIsUnique(v, r[i] as int);
  }

  lemma FullWindow(r: seq<int8>, i: nat, v: nat, b: nat)
    requires Collecting(r, i, b, v) && 5 <= b
    ensures (v - r[i] as int) % 32 == 0
  {
    assert Pow2(4) == 16;
    Pow2Adds(4, 251 - i);
    hide Pow2, Tail;
    TailOverZeros(r, i + 1, i + 5);
    Divisible(v - r[i] as int, Pow2(251 - i), Tail(r, i + 5));
  }

  lemma LastWindow(r: seq<int8>, i: nat, v: nat, b: nat)
    requires Collecting(r, i, b, v) && b <= 4 && i + b == 256 && v < Pow2(256 - i)
    ensures v == r[i] as int
  {
    assert Pow2(256 - i) == 2 * Pow2(255 - i);
    TailOverZeros(r, i + 1, 256);
    assert Tail(r, i + 1) == 0;
    hide Pow2, Tail;
    NoMultiple((v - r[i] as int) / 2, Pow2(255 - i));
  }

  lemma Divisible(e: int, n: nat, t: int)
    requires n > 0 && e % 2 == 0 && (e / 2) % (16 * n) == 16 * t
    ensures e % 32 == 0
  {
    var q := (e / 2) / (16 * n);
    assert e / 2 == 16 * n * q + 16 * t == 16 * (n * q + t);
    DivModUnique(e, 32, n * q + t, 0);
  }

  lemma NoMultiple(x: int, m: int)
    requires m > 0 && -m < x < m && x % m == 0
    ensures x == 0
  {
    if x > 0 {
      DivModUnique(x, m, 0, x);
    } else if x < 0 {
      DivModUnique(x, m, -1, x + m);
    }
  }

  // ---------------------------------------------------------------------------
  // The whole recoding
  // ---------------------------------------------------------------------------

  /** The digits written are the lowest 256 digits of the recoding, for every scalar. */
  method Slide(r: array<int8>, a: seq<uint8>)
    requires r.Length == 256 && |a| == 32
    modifies r
    ensures r[..] == Recoding(LittleEndian(a), 256)
  {
    LoadBits(r, a);
    ghost var v := LittleEndian(a);
    for i := 0 to 256
      invariant r[..i] == Recoding(v, i)
      invariant Bits(r[..], i) && Sliding(r[..], i, v)
    {
      hide Digit, Rest, Sliding;
      Place(r, i, v);
      assert r[..i + 1] == r[..i] + [r[i]] == Recoding(v, i + 1);
    }
    assert r[..] == r[..256];
  }

  /** One turn of the outer loop. */
  method Place(r: array<int8>, i: nat, ghost v: nat)
    requires r.Length == 256 && i < 256 && Bits(r[..], i) && Sliding(r[..], i, v)
    modifies r
    ensures r[..i] == old(r[..i]) && r[i] as int == Digit(Rest(v, i))
    ensures Bits(r[..], i + 1) && Sliding(r[..], i + 1, v)
  {
    hide Pow2, Tail, Digit, Rest;
    if r[i] != 0 {
      OddPlace(r[..], i, v);
      Window(r, i, Rest(v, i));
    } else {
      EvenPlace(r[..], i, v);
    }
    NextPlace(r[..], i, v);
  }

  /** The bits from place i on hold what is left of v, or nothing of it if a carry was dropped. */
  ghost predicate Sliding(r: seq<int8>, i: nat, v: nat) {
    && |r| == 256 && i <= 256
    && Rest(v, i) <= Pow2(256 - i)
    && Tail(r, i) == Rest(v, i) % Pow2(256 - i)
  }

  lemma OddPlace(r: seq<int8>, i: nat, v: nat)
    requires Sliding(r, i, v) && i < 256 && Bits(r, i) && r[i] == 1
    ensures Tail(r, i) == Rest(v, i)
  {
    BitsAreBounded(r, i + 1);
    assert Tail(r, i) == 1 + 2 * Tail(r, i + 1);
    hide Pow2, Tail, Rest;
    var m := Pow2(256 - i);
    if Rest(v, i) == m {
      DivModUnique(m, m, 1, 0);
      assert false;
    }
    DivModUnique(Rest(v, i), m, 0, Rest(v, i));
  }

  lemma EvenPlace(r: seq<int8>, i: nat, v: nat)
    requires Sliding(r, i, v) && i < 256 && r[i] == 0
    ensures Digit(Rest(v, i)) == 0 && Holds(r, i, Rest(v, i), 0)
  {
    assert Pow2(256 - i) == 2 * Pow2(255 - i);
    assert Tail(r, i) == 2 * Tail(r, i + 1);
    hide Pow2, Tail, Rest, Digit;
    BitsHalve(Rest(v, i), Pow2(255 - i), Tail(r, i + 1));
  }

  lemma BitsHalve(w: nat, m: nat, t: int)
    requires m > 0 && 2 * t == w % (2 * m)
    ensures w % 2 == 0 && t == (w / 2) % m
  {
    var q := w / (2 * m);
    assert w == 2 * (m * q + t);
    DivModUnique(w, 2, m * q + t, 0);
    DivModUnique(w / 2, m, q, t);
  }

  lemma NextPlace(r: seq<int8>, i: nat, v: nat)
    requires |r| == 256 && i < 256 && Rest(v, i) <= Pow2(256 - i)
    requires Holds(r, i, Rest(v, i), Digit(Rest(v, i)))
    ensures Sliding(r, i + 1, v)
  {
    RestStep(v, i);
    ShrinkStep(Rest(v, i), 255 - i);
  }

  /** The loop that unpacks the bits of a. */
  method LoadBits(r: array<int8>, a: seq<uint8>)
    requires r.Length == 256 && |a| == 32
    modifies r
    ensures Bits(r[..], 0) && Sliding(r[..], 0, LittleEndian(a))
  {
    for i := 0 to 256
      invariant forall k :: 0 <= k < i ==> r[k] as int == LittleEndian(a) / Pow2(k) % 2
    {
      hide LittleEndian;
      r[i] := (a[i / 8] as int / Pow2(i % 8) % 2) as int8;
      BitOfBytes(a, i);
    }
    LoadedBits(r[..], a);
  }

  lemma LoadedBits(r: seq<int8>, a: seq<uint8>)
    requires |r| == 256 && |a| == 32
    requires forall k :: 0 <= k < 256 ==> r[k] as int == LittleEndian(a) / Pow2(k) % 2
    ensures Bits(r, 0) && Sliding(r, 0, LittleEndian(a))
  {
    var v := LittleEndian(a);
    assert Pow2(0) == 1;
    hide Pow2, LittleEndian;
    LittleEndianIsBounded(a);
    BitsOfNumber(r, v, 0);
  }

  lemma {:induction false} BitsOfNumber(r: seq<int8>, v: nat, i: nat)
    requires i <= |r| && forall k :: i <= k < |r| ==> r[k] as int == v / Pow2(k) % 2
    ensures Tail(r, i) == v / Pow2(i) % Pow2(|r| - i)
    decreases |r| - i
  {
    if i < |r| {
      BitsOfNumber(r, v, i + 1);
      assert Pow2(i + 1) == 2 * Pow2(i) && Pow2(|r| - i) == 2 * Pow2(|r| - (i + 1));
      assert Tail(r, i) == r[i] as int + 2 * Tail(r, i + 1);
      hide Pow2, Tail;
      BitStep(v, Pow2(i), Pow2(|r| - (i + 1)), Tail(r, i + 1));
    }
  }

  lemma BitStep(v: nat, p: nat, m: nat, t: int)
    requires p > 0 && m > 0 && t == v / (2 * p) % m
    ensures v / p % 2 + 2 * t == v / p % (2 * m)
  {
    var w := v / p;
    DivDiv(v, p, 2);
    ModOfSum(w % 2, w / 2, 2, m);
    assert w == w % 2 + 2 * (w / 2);
  }

  /** A window opens at place i, and from place i + 4 on all bits of what is left are ones: the window borrows from
      place i + 4, and the carry for that runs off the end. */
  ghost predicate RunsOff(a: nat, n: nat, i: nat) {
    i + 5 <= n && Rest(a, i) % 2 == 1 && Rest(a, i) / 16 == Pow2(n - i - 4) - 1
  }

  /** In the array: the bits that AddCarry is given are all ones exactly if those of v / 16 are. */
  lemma CarryGuard(r: seq<int8>, i: nat, v: nat)
    requires Collecting(r, i, 4, v) && i + 5 <= 256 && v % 2 == 1 && v < Pow2(256 - i)
    ensures AllOnes(r, i + 4) <==> v / 16 == Pow2(256 - i - 4) - 1
  {
    assert Pow2(4) == 16 && Pow2(3) == 8;
    Pow2Adds(3, 256 - (i + 4));
    Pow2Adds(4, 256 - (i + 4));
    var d, t, p := r[i] as int, Tail(r, i + 4), Pow2(256 - (i + 4));
    assert Tail(r, i + 1) == ((v - d) / 2) % Pow2(256 - (i + 1));
    hide Pow2, Tail;
    TailOverZeros(r, i + 1, i + 4);
    AllOnesValue(r, i + 4);
    SixteenFold(v, d, t, p);
  }

  lemma SixteenFold(v: nat, d: int, t: int, p: nat)
    requires 0 < d < 16 && (v - d) % 2 == 0 && v < 16 * p && 8 * t == ((v - d) / 2) % (8 * p)
    ensures v / 16 == t
  {
    if v < d {
      DivModUnique((v - d) / 2, 8 * p, -1, (v - d) / 2 + 8 * p);
      assert false;
    }
    DivModUnique((v - d) / 2, 8 * p, 0, (v - d) / 2);
  }

  /** What n digits are worth (slide writes 256): the scalar, unless some carry runs off the end; then they fall short
      by 2^n. Below 2^(n-1) no carry does. */
  lemma RecodingIsExact(a: nat, n: nat)
    requires n > 0 && a < Pow2(n)
    ensures Tail(Recoding(a, n), 0) == a <==> !exists i :: RunsOff(a, n, i)
    ensures (exists i :: RunsOff(a, n, i)) ==> Tail(Recoding(a, n), 0) == a - Pow2(n)
    ensures a < Pow2(n - 1) ==> !exists i :: RunsOff(a, n, i)
  {
    assert Rest(a, 0) == a && Pow2(0) == 1;
    hide Pow2, Tail, Rest, Recoding, Digit, RunsOff;
    RecodingValue(a, n, 0);
    RestShrinks(a, n, n);
    if a < Pow2(n - 1) {
      RestVanishes(a, n);
    }
    ZeroOrOne(a, Tail(Recoding(a, n), 0), Pow2(n), Rest(a, n));
    if i :| RunsOff(a, n, i) {
      RunOffLeavesOne(a, n, i);
    }
    if Rest(a, n) == 1 {
      OneWasRunOff(a, n, n);
    }
  }

  lemma RunOffLeavesOne(a: nat, n: nat, i: nat)
    requires RunsOff(a, n, i)
    ensures Rest(a, n) == 1
  {
    var v, p := Rest(a, i), Pow2(n - i - 5);
    assert Pow2(n - i - 4) == 2 * p;
    hide Pow2, Rest, Digit;
    NegativeDigit(v, p);
    RestStep(a, i);
    Sixteen(n - i - 5);
    HalvesToOne(a, i + 1, n - i - 1);
  }

  lemma NegativeDigit(v: nat, p: nat)
    requires v % 2 == 1 && v / 16 == 2 * p - 1
    ensures v - Digit(v) == 32 * p
  {
    var d := v % 16 - 16;
    assert v - d == 32 * p;
    DivModUnique(v - d, 32, p, 0);
    DigitIsUnique(v, d);
  }

  lemma Sixteen(k: nat)
    ensures Pow2(k + 4) == 16 * Pow2(k)
  {
    assert Pow2(4) == 16;
    Pow2Adds(4, k);
  }

  lemma {:induction false} HalvesToOne(a: nat, k: nat, m: nat)
    requires Rest(a, k) == Pow2(m)
    ensures Rest(a, k + m) == 1
    decreases m
  {
    hide Rest, Digit;
    if m > 0 {
      EvenRest(a, k, Pow2(m - 1));
      HalvesToOne(a, k + 1, m - 1);
    }
  }

  /** A rest of 2^(n-i) after i places goes back to a carry that ran off. */
  lemma {:induction false} OneWasRunOff(a: nat, n: nat, i: nat)
    requires a < Pow2(n) && i <= n && Rest(a, i) == Pow2(n - i)
    ensures exists j :: RunsOff(a, n, j)
    decreases i
  {
    hide Pow2, Rest, Digit, RunsOff;
    RestStart(a);
    if i > 0 {
      var v := Rest(a, i - 1);
      EvenPower(n - i + 1);
      RestShrinks(a, n, i - 1);
      RestStep(a, i - 1);
      if v % 2 == 0 {
        OneWasRunOff(a, n, i - 1);
      } else {
        BorrowedDigit(v, n - i + 1);
        IsRunOff(a, n, i - 1);
      }
    }
  }

  lemma RestStart(a: nat)
    ensures Rest(a, 0) == a
  {
  }

  lemma IsRunOff(a: nat, n: nat, i: nat)
    requires i + 5 <= n && Rest(a, i) % 2 == 1 && Rest(a, i) / 16 == Pow2(n - i - 4) - 1
    ensures RunsOff(a, n, i)
  {
  }

  lemma BorrowedDigit(v: nat, m: nat)
    requires v % 2 == 1 && m >= 1 && v <= Pow2(m) && v - Digit(v) == Pow2(m)
    ensures m >= 5 && v / 16 == Pow2(m - 4) - 1
  {
    var d := Digit(v);
    SmallDigit(v);
    EvenPower(m);
    hide Digit;
    if m <= 4 {
      SmallPower(m);
    } else {
      Sixteen(m - 4);
      hide Pow2;
      DivModUnique(v, 16, Pow2(m - 4) - 1, 16 + d);
    }
  }

  lemma SmallDigit(v: nat)
    ensures v <= 16 && v % 2 == 1 ==> Digit(v) == v
  {
  }

  lemma SmallPower(m: nat)
    requires m <= 4
    ensures Pow2(m) <= 16
  {
    assert Pow2(4) == 16;
    Pow2Monotone(m, 4);
  }

  lemma EvenPower(m: nat)
    requires m >= 1
    ensures Pow2(m) == 2 * Pow2(m - 1) && Pow2(m) % 2 == 0
  {
    DivModUnique(Pow2(m), 2, Pow2(m - 1), 0);
  }

  lemma ZeroOrOne(a: int, t: int, p: nat, r: nat)
    requires a == t + p * r && r <= 1 && p > 0
    ensures r == 0 ==> t == a
    ensures r != 0 ==> t == a - p
  {
  }

  /** Zero or odd and small, and never two within five places. */
  lemma SlideShape(a: nat, k: nat)
    requires k < 256
    ensures var r := Recoding(a, 256);
            && (r[k] == 0 || (r[k] as int % 2 == 1 && -15 <= r[k] <= 15))
            && (r[k] != 0 ==> forall j :: k < j < k + 5 && j < 256 ==> r[j] == 0)
  {
    hide Digit, Rest;
    if Digit(Rest(a, k)) != 0 {
      forall j | k < j < k + 5 && j < 256
        ensures Digit(Rest(a, j)) == 0
      {
        DigitsAreSpaced(a, k, j - k);
      }
    }
  }

  /** For n = 256, the scalar 2^255 + 2^251 loses its carry. */
  lemma CarryIsDropped(n: nat)
    requires n >= 5
    ensures var a := Pow2(n - 1) + Pow2(n - 5); a < Pow2(n) && Tail(Recoding(a, n), 0) == a - Pow2(n)
  {
    hide Rest, Recoding, Tail, Digit;
    var a := Pow2(n - 1) + Pow2(n - 5);
    Pow2Monotone(n - 5, n - 2);
    assert a < Pow2(n) && Pow2(n - n) == 1;
    LeavesOne(a, n - 5);
    OneWasRunOff(a, n, n);
    RecodingIsExact(a, n);
  }

  lemma LeavesOne(a: nat, m: nat)
    requires a == Pow2(m + 4) + Pow2(m)
    ensures Rest(a, m + 5) == 1
  {
    assert Rest(a, 0) == a by { hide Pow2, Digit; }
    assert Digit(17) == -15 by { hide Pow2, Rest; }
    hide Pow2, Rest, Digit;
    TwoPowers(a, 0, m);
    RestStep(a, m);
    EvenRest(a, m + 1, 8);
    EvenRest(a, m + 2, 4);
    EvenRest(a, m + 3, 2);
    EvenRest(a, m + 4, 1);
  }

  lemma {:induction false} TwoPowers(a: nat, k: nat, m: nat)
    requires Rest(a, k) == Pow2(m + 4) + Pow2(m)
    ensures Rest(a, k + m) == 17
    decreases m
  {
    hide Rest, Digit;
    if m == 0 {
      assert Pow2(4) == 16;
    } else {
      assert Pow2(m + 4) == 2 * Pow2(m + 3);
      hide Pow2;
      EvenRest(a, k, Pow2(m + 3) + Pow2(m - 1));
      TwoPowers(a, k + 1, m - 1);
    }
  }

  lemma EvenRest(a: nat, k: nat, y: int)
    requires Rest(a, k) == 2 * y
    ensures Rest(a, k + 1) == y
  {
    hide Rest, Digit;
    RestStep(a, k);
    assert (2 * y) % 2 == 0;
  }
}
