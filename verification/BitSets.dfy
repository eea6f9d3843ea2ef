/** Natural numbers as sets of bits. */
module BitSets {
  import opened Words

  predicate Bit(n: nat, b: nat)
    decreases b
  {
    if b == 0 then n % 2 == 1 else Bit(n / 2, b - 1)
  }

  /** n >> i */
  function Shr(n: nat, i: nat): (r: nat)
    decreases i
  {
    if i == 0 then n else Shr(n / 2, i - 1)
  }

  lemma {:induction false} BitShr(n: nat, i: nat, b: nat)
    ensures Bit(Shr(n, i), b) <==> Bit(n, b + i)
    decreases i
  {
    if i > 0 {
      BitShr(n / 2, i - 1, b);
    }
  }

  lemma {:induction false} ShrShr(n: nat, i: nat, j: nat)
    ensures Shr(Shr(n, i), j) == Shr(n, i + j)
    decreases i
  {
    if i > 0 {
      ShrShr(n / 2, i - 1, j);
    }
  }

  lemma {:induction false} ShrIsBelow(n: nat, i: nat, k: nat)
    ensures Shr(n, i) < Pow2(k) <==> n < Pow2(i + k)
    decreases i
  {
    if i > 0 {
      ShrIsBelow(n / 2, i - 1, k);
    }
  }

  lemma {:induction false} BitOr(x: nat, y: nat, b: nat)
    ensures Bit(Or(x, y), b) <==> Bit(x, b) || Bit(y, b)
    decreases b
  {
    OrHalf(x, y);
    if b > 0 {
      BitOr(x / 2, y / 2, b - 1);
    }
  }

  lemma OrHalf(x: nat, y: nat)
    ensures Or(x, y) / 2 == Or(x / 2, y / 2)
    ensures Or(x, y) % 2 == 1 <==> x % 2 == 1 || y % 2 == 1
  {
  }

  lemma {:induction false} BitAndNot(x: nat, y: nat, b: nat)
    ensures Bit(AndNot(x, y), b) <==> Bit(x, b) && !Bit(y, b)
    decreases b
  {
    AndNotHalf(x, y);
    if b > 0 {
      BitAndNot(x / 2, y / 2, b - 1);
    }
  }

  lemma AndNotHalf(x: nat, y: nat)
    ensures AndNot(x, y) / 2 == AndNot(x / 2, y / 2)
    ensures AndNot(x, y) % 2 == 1 <==> x % 2 == 1 && y % 2 == 0
  {
  }

  /** A number none of whose bits is missing from another is at most the other. */
  lemma {:induction false} SubsetIsLess(c: nat, x: nat)
    requires forall b: nat :: Bit(c, b) ==> Bit(x, b)
    ensures c <= x
    decreases c
  {
    if c > 0 {
      assert Bit(c, 0) ==> Bit(x, 0);
      forall b: nat | Bit(c / 2, b)
        ensures Bit(x / 2, b)
      {
        assert Bit(c, b + 1);
      }
      SubsetIsLess(c / 2, x / 2);
    }
  }

  lemma SameBits(x: nat, y: nat)
    requires forall b: nat :: Bit(x, b) <==> Bit(y, b)
    ensures x == y
  {
    hide Bit;
    SubsetIsLess(x, y);
    SubsetIsLess(y, x);
  }

  /** The highest bit of n is k when Pow2(k) <= n < Pow2(k + 1). */
  lemma {:induction false} TopBit(n: nat, k: nat)
    requires Pow2(k) <= n < Pow2(k + 1)
    ensures Bit(n, k)
    decreases k
  {
    if k > 0 {
      TopBit(n / 2, k - 1);
    }
  }

  lemma {:induction false} BitIsLarge(n: nat, b: nat)
    requires Bit(n, b)
    ensures n >= Pow2(b)
    decreases b
  {
    if b > 0 {
      BitIsLarge(n / 2, b - 1);
    }
  }

  lemma {:induction false} BitsOfPower(k: nat, b: nat)
    ensures Bit(Pow2(k), b) <==> b == k
    decreases b
  {
    if b == 0 {
      EvenPower(k);
    } else if k > 0 {
      BitsOfPower(k - 1, b - 1);
    } else if Bit(1, b) {
      BitIsLarge(1, b);
    }
  }

  lemma EvenPower(k: nat)
    ensures Pow2(k) % 2 == 0 <==> k > 0
  {
  }

  function Log2(n: nat): (k: nat)
    requires n > 0
    ensures Pow2(k) <= n < Pow2(k + 1)
  {
    if n == 1 then 0 else 1 + Log2(n / 2)
  }

  lemma {:induction false} Log2IsUnique(n: nat, k: nat)
    requires Pow2(k) <= n < Pow2(k + 1)
    ensures Log2(n) == k
    decreases k
  {
    if k > 0 {
      Log2IsUnique(n / 2, k - 1);
    }
  }
}
