/** The residues modulo 8l, to which the group of the curve is isomorphic: the hypotheses that the protocols make about
    the curve can be met. */
module Residues {
  import opened Wrappers
  import opened Words
  import opened Groups
  import opened Scalars
  import opened Keys
  import SM = ScalarMult

  const ORDER: int := 8 * L

  newtype Residue = x: int | 0 <= x < ORDER

  function Mod(n: int): (r: Residue) {
    (n % ORDER) as Residue
  }

  function Add(x: Residue, y: Residue): (r: Residue) {
    Mod(x as int + y as int)
  }

  function Neg(x: Residue): (r: Residue) {
    Mod(ORDER - x as int)
  }

  function Additive(): (g: Group<Residue>) {
    Group(0, Add, Neg)
  }

  lemma ResiduesAdd(m: int, n: int)
    ensures Mod(Mod(m) as int + Mod(n) as int) == Mod(m + n) && Mod(Mod(m) as int + n) == Mod(m + n)
  {
    var p, q := m / ORDER, n / ORDER;
    var s := (m + n) / ORDER;
    DivModUnique(m % ORDER + n % ORDER, ORDER, s - p - q, (m + n) % ORDER);
    DivModUnique(m % ORDER + n, ORDER, s - p, (m + n) % ORDER);
  }

  lemma AddAssociates(x: Residue, y: Residue, z: Residue)
    ensures Add(Add(x, y), z) == Add(x, Add(y, z))
  {
    hide Mod;
    ResiduesAdd(x as int + y as int, z as int);
    ResiduesAdd(y as int + z as int, x as int);
  }

  lemma NegInverts(x: Residue)
    ensures Add(x, Neg(x)) == 0 && Add(x, 0) == x
  {
  }

  lemma AdditiveIsCommutative()
    ensures Additive().Commutative()
  {
    hide Add, Neg;
    var g := Additive();
    forall x: Residue, y: Residue
      ensures g.add(x, y) == g.add(y, x)
    {
      AddCommutes(x, y);
    }
    forall x: Residue, y: Residue, z: Residue
      ensures g.add(g.add(x, y), z) == g.add(x, g.add(y, z))
    {
      AddAssociates(x, y, z);
    }
    forall x: Residue
      ensures g.add(x, g.neg(x)) == g.zero && g.add(x, g.zero) == x
    {
      NegInverts(x);
    }
  }

  lemma AddCommutes(x: Residue, y: Residue)
    ensures Add(x, y) == Add(y, x)
  {
  }

  lemma {:induction false} TimesIsProduct(n: nat, x: Residue)
    ensures Additive().Times(n, x) == Mod(n * x as int)
  {
    hide Group.Times, Group.Commutative, Mod;
    AdditiveIsCommutative();
    ModOfZero(x as int);
    TimesZero(Additive(), x);
    if n > 0 {
      TimesIsProduct(n - 1, x);
      TimesSucc(Additive(), n - 1, x);
      ResiduesAdd((n - 1) * x as int, x as int);
      Next(n, x as int);
    }
  }

  lemma ModOfZero(x: int)
    ensures Mod(0 * x) == 0
  {
  }

  lemma Next(n: int, x: int)
    ensures (n - 1) * x + x == n * x
  {
  }

  lemma MultipleOfOrder(n: int)
    ensures Mod(ORDER * n) == 0
  {
    DivModUnique(ORDER * n, ORDER, n, 0);
  }

  // ---------------------------------------------------------------------------
  // The curve
  // ---------------------------------------------------------------------------

  const BASE: Residue := 8

  function Multiple(n: nat, x: Residue): (r: Residue) {
    Mod(n * x as int)
  }

  function Row(x: Residue): (s: seq<Residue>) {
    seq(8, j requires 0 <= j < 8 => Multiple(j + 1, x))
  }

  lemma RowIsMultiples(x: Residue)
    ensures SM.Multiples(Additive(), Row(x), x)
  {
    hide Mod, Group.Times;
    forall j | 0 <= j < 8
      ensures Row(x)[j] == Additive().Times(j + 1, x)
    {
      TimesIsProduct(j + 1, x);
    }
  }

  function Encode(x: Residue): (s: seq<uint8>) {
    Bytes(x as int, 32)
  }

  function Decode(s: seq<uint8>): (x: Option<Residue>) {
    if |s| == 32 && LittleEndian(s) < ORDER then Some(LittleEndian(s) as Residue) else None
  }

  /** Over any hash, and any map from hashes to residues. */
  ghost function ResidueCurve(hash: seq<uint8> -> seq<uint8>, fromHash: seq<uint8> -> Residue): (c: Curve<Residue>) {
    Curve(Additive(), BASE,
          seq(32, i requires 0 <= i < 32 => Row(Multiple(Pow2(8 * i), BASE))),
          seq(8, k requires 0 <= k < 8 => Multiple(2 * k + 1, BASE)),
          Encode, Decode, hash, fromHash)
  }

  lemma Codec(x: Residue, s: seq<uint8>)
    ensures |Encode(x)| == 32 && Decode(Encode(x)) == Some(x)
    ensures Decode(s).Some? ==> Encode(Decode(s).value) == s
  {
    hide Pow2, LittleEndian, Bytes;
    EncodedValue(x);
    if Decode(s).Some? {
      EncodedValue(Decode(s).value);
      SameValue(Encode(Decode(s).value), s);
    }
  }

  lemma EncodedValue(x: Residue)
    ensures |Encode(x)| == 32 && LittleEndian(Encode(x)) == x as int
  {
    hide Pow2, LittleEndian, Bytes;
    Pow2OfWords();
    Pow2Adds(64, 64);
    Pow2Adds(128, 128);
    BytesValue(x as int, 32);
  }

  lemma Tables(hash: seq<uint8> -> seq<uint8>, fromHash: seq<uint8> -> Residue)
    ensures var c := ResidueCurve(hash, fromHash);
            SM.BaseTable(c.group, c.baseTable, c.base) && SM.OddMultiples(c.group, c.baseOdd, c.base)
  {
    hide Pow2, Mod, Group.Times, Row, SM.Multiples;
    var c := ResidueCurve(hash, fromHash);
    forall k | 0 <= k < 8
      ensures c.baseOdd[k] == c.group.Times(2 * k + 1, c.base)
    {
      TimesIsProduct(2 * k + 1, BASE);
    }
    forall i | 0 <= i < 32
      ensures SM.Multiples(c.group, c.baseTable[i], c.group.Times(Pow2(8 * i), c.base))
    {
      TimesIsProduct(Pow2(8 * i), BASE);
      RowIsMultiples(Multiple(Pow2(8 * i), BASE));
    }
  }

  lemma ResidueCurveIsValid(hash: seq<uint8> -> seq<uint8>, fromHash: seq<uint8> -> Residue)
    requires forall s :: |hash(s)| == 32
    ensures ResidueCurve(hash, fromHash).Valid() && ResidueCurve(hash, fromHash).base != Additive().zero
  {
    hide Encode, Decode, Group.Times, Group.Commutative, SM.BaseTable, SM.OddMultiples, Mod;
    var c := ResidueCurve(hash, fromHash);
    AdditiveIsCommutative();
    Tables(hash, fromHash);
    Orders();
    forall x: Residue
      ensures |c.encode(x)| == 32 && c.decode(c.encode(x)) == Some(x)
    {
      Codec(x, []);
    }
    forall s
      ensures c.decode(s).Some? ==> c.encode(c.decode(s).value) == s
    {
      Codec(0, s);
    }
  }

  lemma Orders()
    ensures Additive().Times(L, BASE) == 0
    ensures forall x: Residue :: Additive().Times(8 * L, x) == 0
  {
    hide Mod, Group.Times;
    TimesIsProduct(L, BASE);
    MultipleOfOrder(1);
    forall x: Residue
      ensures Additive().Times(8 * L, x) == 0
    {
      TimesIsProduct(8 * L, x);
      MultipleOfOrder(x as int);
    }
  }
}
