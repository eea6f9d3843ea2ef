/** Numerals of a fixed width in any base, most significant digit first. */
module Numerals {
  import opened Words

  function Pow(base: nat, k: nat): (p: nat)
    ensures base > 0 ==> p > 0
  {
    if k == 0 then 1 else Pow(base, k - 1) * base
  }

  predicate Numeral(ds: seq<int>, base: nat) {
    forall i :: 0 <= i < |ds| ==> 0 <= ds[i] < base
  }

  function Number(ds: seq<int>, base: nat): (n: int)
  {
    if ds == [] then 0 else Number(ds[..|ds| - 1], base) * base + ds[|ds| - 1]
  }

  /** The k last digits of n. */
  function Digits(n: int, base: nat, k: nat): (ds: seq<int>)
    requires base > 0
    ensures |ds| == k
    decreases k
  {
    if k == 0 then [] else Digits(n / base, base, k - 1) + [n % base]
  }

  lemma {:induction false} DigitsAreNumeral(n: int, base: nat, k: nat)
    requires base > 0
    ensures Numeral(Digits(n, base, k), base)
    decreases k
  {
    if k > 0 {
      DigitsAreNumeral(n / base, base, k - 1);
    }
  }

  lemma {:induction false} NumberOfDigits(n: int, base: nat, k: nat)
    requires base > 0 && 0 <= n < Pow(base, k)
    ensures Number(Digits(n, base, k), base) == n
    decreases k
  {
    if k > 0 {
      QuotientIsBelow(n, base, Pow(base, k - 1));
      hide Pow;
      NumberOfDigits(n / base, base, k - 1);
      var ds := Digits(n, base, k);
      assert ds[..k - 1] == Digits(n / base, base, k - 1);
    }
  }

  lemma QuotientIsBelow(n: int, base: nat, p: nat)
    requires base > 0 && 0 <= n < p * base
    ensures 0 <= n / base < p && n == n / base * base + n % base
  {
    var q, r := n / base, n % base;
    assert n == q * base + r;
    if q >= p {
      MulMonotone(base, p, q);
    } else if q < 0 {
      MulMonotone(base, q, -1);
    }
  }

  lemma {:induction false} NumberIsBounded(ds: seq<int>, base: nat)
    requires Numeral(ds, base)
    ensures 0 <= Number(ds, base) < Pow(base, |ds|)
    decreases |ds|
  {
    if ds != [] {
      var k := |ds| - 1;
      NumberIsBounded(ds[..k], base);
      Extend(Number(ds[..k], base), ds[k], base, Pow(base, k));
    }
  }

  lemma Extend(q: int, r: int, base: nat, p: int)
    requires 0 <= q < p && 0 <= r < base
    ensures 0 <= q * base + r < p * base
  {
    MulMonotone(base, q, p - 1);
    MulMonotone(base, 0, q);
  }

  lemma {:induction false} DigitsOfNumber(ds: seq<int>, base: nat)
    requires base > 0 && Numeral(ds, base)
    ensures Digits(Number(ds, base), base, |ds|) == ds
    decreases |ds|
  {
    if ds != [] {
      var k := |ds| - 1;
      DigitsOfNumber(ds[..k], base);
      DigitsStep(Number(ds[..k], base), ds[k], base, k);
      assert ds == ds[..k] + [ds[k]];
    }
  }

  lemma DigitsStep(q: int, r: int, base: nat, k: nat)
    requires 0 <= r < base
    ensures Digits(q * base + r, base, k + 1) == Digits(q, base, k) + [r]
  {
    DivModUnique(q * base + r, base, q, r);
  }

  /** A digit put in front. */
  lemma {:induction false} NumberFront(d: int, ds: seq<int>, base: nat)
    ensures Number([d] + ds, base) == d * Pow(base, |ds|) + Number(ds, base)
  {
    if ds == [] {
      assert [d][..0] == [];
    } else {
      var k := |ds| - 1;
      assert ([d] + ds)[..k + 1] == [d] + ds[..k];
      NumberFront(d, ds[..k], base);
      MulAssociates(d, Pow(base, k), base);
    }
  }

  /** Dropping leading digits does not make a number larger. */
  lemma {:induction false} SuffixIsSmaller(ds: seq<int>, base: nat, i: nat)
    requires i <= |ds| && Numeral(ds, base)
    ensures 0 <= Number(ds[i..], base) <= Number(ds, base)
  {
    NumberIsBounded(ds[i..], base);
    if i > 0 {
      SuffixIsSmaller(ds, base, i - 1);
      NumberFront(ds[i - 1], ds[i..], base);
      assert ds[i - 1..] == [ds[i - 1]] + ds[i..];
      MulMonotone(Pow(base, |ds| - i), 0, ds[i - 1]);
    } else {
      assert ds[0..] == ds;
    }
  }

  lemma {:induction false} PowGrows(base: nat, j: nat, k: nat)
    requires base > 0 && j <= k
    ensures Pow(base, j) <= Pow(base, k)
    decreases k
  {
    if j < k {
      PowGrows(base, j, k - 1);
      MulAtLeast(Pow(base, k - 1), base);
    }
  }

  /** The sum of the digits by their places, the last worth one. */
  function Weighted(ds: seq<int>, base: nat): (n: int) {
    if ds == [] then 0 else ds[0] * Pow(base, |ds| - 1) + Weighted(ds[1..], base)
  }

  lemma {:induction false} NumberIsWeighted(ds: seq<int>, base: nat)
    ensures Number(ds, base) == Weighted(ds, base)
  {
    if ds != [] {
      NumberIsWeighted(ds[1..], base);
      NumberFront(ds[0], ds[1..], base);
      assert ds == [ds[0]] + ds[1..];
    }
  }
}
