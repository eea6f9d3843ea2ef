/** Keys, key derivation and signatures (src/crypto/crypto.cpp), over any group that is like the curve's. */
module Keys {
  import opened Wrappers
  import opened Words
  import opened Groups
  import opened Scalars
  import SM = ScalarMult
  import Varint

  /** The group of points with its base point and precomputed tables; points as bytes; the hash, and the map from hashes
      to points. */
  datatype Curve<!G(!new)> = Curve(
    group: Group<G>,
    base: G,
    baseTable: seq<seq<G>>,
    baseOdd: seq<G>,
    encode: G -> seq<uint8>,
    decode: seq<uint8> -> Option<G>,
    hash: seq<uint8> -> seq<uint8>,
    fromHash: seq<uint8> -> G)
  {
    /** The base point has order l and the group eight times that; the tables are those of the base point; and encoding
        is one to one. */
    ghost predicate Valid() {
      && group.Commutative()
      && group.Times(L, base) == group.zero
      && (forall x :: group.Times(8 * L, x) == group.zero)
      && SM.BaseTable(group, baseTable, base)
      && SM.OddMultiples(group, baseOdd, base)
      && (forall x :: |encode(x)| == 32 && decode(encode(x)) == Some(x))
      && (forall s :: decode(s).Some? ==> encode(decode(s).value) == s)
      && (forall s :: |hash(s)| == 32)
    }
  }

  /** A canonical scalar: what sc_check accepts. */
  predicate IsScalar(s: seq<uint8>) {
    |s| == 32 && LittleEndian(s) < L
  }

  lemma TopBitIsClear(s: seq<uint8>)
    requires IsScalar(s)
    ensures s[31] <= 127
  {
    hide LittleEndian;
    ReducedTop(s);
  }

  /** Equal scalars have equal bytes. */
  lemma {:induction false} SameValue(s: seq<uint8>, t: seq<uint8>)
    requires |s| == |t| && LittleEndian(s) == LittleEndian(t)
    ensures s == t
  {
    if s != [] {
      SameValue(s[1..], t[1..]);
      assert s == [s[0]] + s[1..] && t == [t[0]] + t[1..];
    }
  }

  // ---------------------------------------------------------------------------
  // Multiples modulo the order
  // ---------------------------------------------------------------------------

  lemma {:induction false} TimesOfZero<G(!new)>(g: Group<G>, n: int)
    requires g.Commutative()
    ensures g.Times(n, g.zero) == g.zero
    decreases n < 0, if n < 0 then -n else n
  {
    hide Group.Commutative, Group.Times;
    if n == 0 {
      TimesZero(g, g.zero);
    } else if n > 0 {
      TimesOfZero(g, n - 1);
      TimesSucc(g, n - 1, g.zero);
      Zero(g, g.zero);
    } else {
      TimesOfZero(g, -n);
      TimesNeg(g, -n, g.zero);
      NegZero(g);
    }
  }

  lemma TimesMod<G(!new)>(g: Group<G>, n: int, x: G)
    requires g.Commutative() && g.Times(L, x) == g.zero
    ensures g.Times(n % L, x) == g.Times(n, x)
  {
    hide Group.Commutative, Group.Times;
    TimesAdd(g, n / L * L, n % L, x);
    TimesTimes(g, n / L, L, x);
    TimesOfZero(g, n / L);
    Zero(g, g.Times(n % L, x));
  }

  /** A response r = k - c * sec makes c * (sec * x) + r * x come to k * x. */
  lemma ResponseCloses<G(!new)>(g: Group<G>, x: G, sec: int, k: int, c: int)
    requires g.Commutative() && g.Times(L, x) == g.zero
    ensures g.add(g.Times(c, g.Times(sec, x)), g.Times((k - c * sec) % L, x)) == g.Times(k, x)
  {
    hide Group.Commutative, Group.Times;
    TimesMod(g, k - c * sec, x);
    TimesTimes(g, c, sec, x);
    TimesAdd(g, c * sec, k - c * sec, x);
  }

  // ---------------------------------------------------------------------------
  // Keys
  // ---------------------------------------------------------------------------

  ghost function PublicKey<G(!new)>(c: Curve<G>, sec: seq<uint8>): (pub: seq<uint8>) {
    c.encode(c.group.Times(LittleEndian(sec), c.base))
  }

  method SecretKeyToPublicKey<G(!new)>(c: Curve<G>, sec: seq<uint8>) returns (ok: bool, pub: seq<uint8>)
    requires c.Valid() && |sec| == 32
    ensures ok <==> IsScalar(sec)
    ensures ok ==> pub == PublicKey(c, sec)
  {
    hide LittleEndian, Group.Times, Group.Commutative, SM.BaseTable;
    var check := ScCheck(sec);
    if check != 0 {
      return false, [];
    }
    TopBitIsClear(sec);
    var point := SM.GeScalarMultBase(c.group, sec, c.baseTable, c.base);
    return true, c.encode(point);
  }

  method GeMul8<G(!new)>(g: Group<G>, x: G) returns (r: G)
    requires g.Commutative()
    ensures r == g.Times(8, x)
  {
    hide Group.Commutative, Group.Times;
    TimesOne(g, x);
    TimesAdd(g, 1, 1, x);
    TimesAdd(g, 2, 2, x);
    TimesAdd(g, 4, 4, x);
    r := g.add(x, x);
    r := g.add(r, r);
    r := g.add(r, r);
  }

  /** Eight times the product of a secret key and a point. */
  ghost function Derivation<G(!new)>(c: Curve<G>, point: G, sec: seq<uint8>): (d: seq<uint8>) {
    c.encode(c.group.Times(8, c.group.Times(LittleEndian(sec), point)))
  }

  method GenerateKeyDerivation<G(!new)>(c: Curve<G>, key1: seq<uint8>, key2: seq<uint8>)
    returns (ok: bool, derivation: seq<uint8>)
    requires c.Valid() && IsScalar(key2)
    ensures ok <==> c.decode(key1).Some?
    ensures ok ==> derivation == Derivation(c, c.decode(key1).value, key2)
    ensures ok ==> c.decode(derivation) == Some(c.group.Times(8 * LittleEndian(key2), c.decode(key1).value))
  {
    hide LittleEndian, Group.Times, Group.Commutative, SM.BaseTable, SM.OddMultiples;
    if c.decode(key1).None? {
      return false, [];
    }
    TopBitIsClear(key2);
    var point2 := SM.GeScalarMult(c.group, key2, c.decode(key1).value);
    var point3 := GeMul8(c.group, point2);
    TimesTimes(c.group, 8, LittleEndian(key2), c.decode(key1).value);
    return true, c.encode(point3);
  }

  /** Both parties come to the same derivation: one from the other's public key and its own secret, and the reverse. */
  lemma DerivationIsShared<G(!new)>(c: Curve<G>, a: seq<uint8>, b: seq<uint8>)
    requires c.Valid()
    ensures c.decode(PublicKey(c, a)).Some? && c.decode(PublicKey(c, b)).Some?
    ensures Derivation(c, c.decode(PublicKey(c, b)).value, a) == Derivation(c, c.decode(PublicKey(c, a)).value, b)
  {
    hide LittleEndian, Group.Times, Group.Commutative, SM.BaseTable, SM.OddMultiples;
    TimesTimes(c.group, LittleEndian(a), LittleEndian(b), c.base);
    TimesTimes(c.group, LittleEndian(b), LittleEndian(a), c.base);
  }

  // ---------------------------------------------------------------------------
  // Derived keys
  // ---------------------------------------------------------------------------

  /** The scalar a hash is reduced to. */
  ghost function HashToScalar<G(!new)>(c: Curve<G>, data: seq<uint8>): (s: seq<uint8>)
    ensures IsScalar(s)
  {
    Reduced(LittleEndian(c.hash(data)))
  }

  ghost function DerivationScalar<G(!new)>(c: Curve<G>, derivation: seq<uint8>, index: uint64): (s: seq<uint8>) {
    HashToScalar(c, derivation + Varint.Encode(index))
  }

  /** The index is written into ten bytes. */
  method DerivationToScalar<G(!new)>(c: Curve<G>, derivation: seq<uint8>, index: uint64) returns (s: seq<uint8>)
    requires c.Valid()
    ensures s == DerivationScalar(c, derivation, index) && |Varint.Encode(index)| <= 10
    ensures IsScalar(s) && LittleEndian(s) == LittleEndian(c.hash(derivation + Varint.Encode(index))) % L
  {
    hide LittleEndian, Reduced, Pow2, Varint.Encode;
    var end := Varint.WriteVarint(index);
    Pow2OfWords();
    Pow2Monotone(64, 70);
    Varint.EncodedLength(index, 10);
    s := Reduced(LittleEndian(c.hash(derivation + end)));
  }

  ghost function DerivedPublicKey<G(!new)>(c: Curve<G>, d: seq<uint8>, index: uint64,
                                           base: seq<uint8>): (k: Option<seq<uint8>>) {
    if c.decode(base).None? then None
    else Some(c.encode(c.group.add(c.decode(base).value,
                                   c.group.Times(LittleEndian(DerivationScalar(c, d, index)), c.base))))
  }

  method DerivePublicKey<G(!new)>(c: Curve<G>, d: seq<uint8>, index: uint64, base: seq<uint8>)
    returns (ok: bool, derived: seq<uint8>)
    requires c.Valid()
    ensures (if ok then Some(derived) else None) == DerivedPublicKey(c, d, index, base)
    ensures ok <==> c.decode(base).Some?
    ensures ok ==> var h := LittleEndian(c.hash(d + Varint.Encode(index))) % L;
                   c.decode(derived) == Some(c.group.add(c.decode(base).value, c.group.Times(h, c.base)))
  {
    hide LittleEndian, Group.Times, Group.Commutative, DerivationScalar;
    if c.decode(base).None? {
      return false, [];
    }
    var scalar := DerivationToScalar(c, d, index);
    ScalarIsScalar(c, d, index);
    TopBitIsClear(scalar);
    var point2 := SM.GeScalarMultBase(c.group, scalar, c.baseTable, c.base);
    return true, c.encode(c.group.add(c.decode(base).value, point2));
  }

  lemma ScalarIsScalar<G(!new)>(c: Curve<G>, d: seq<uint8>, index: uint64)
    ensures IsScalar(DerivationScalar(c, d, index))
  {
    hide LittleEndian;
  }

  ghost function UnderivedPublicKey<G(!new)>(c: Curve<G>, d: seq<uint8>, index: uint64,
                                             key: seq<uint8>): (k: Option<seq<uint8>>) {
    if c.decode(key).None? then None
    else Some(c.encode(c.group.Sub(c.decode(key).value,
                                   c.group.Times(LittleEndian(DerivationScalar(c, d, index)), c.base))))
  }

  method UnderivePublicKey<G(!new)>(c: Curve<G>, d: seq<uint8>, index: uint64, key: seq<uint8>)
    returns (ok: bool, base: seq<uint8>)
    requires c.Valid()
    ensures (if ok then Some(base) else None) == UnderivedPublicKey(c, d, index, key)
    ensures ok <==> c.decode(key).Some?
    ensures ok ==> var h := LittleEndian(c.hash(d + Varint.Encode(index))) % L;
                   c.decode(base) == Some(c.group.Sub(c.decode(key).value, c.group.Times(h, c.base)))
  {
    hide LittleEndian, Group.Times, Group.Commutative, DerivationScalar;
    if c.decode(key).None? {
      return false, [];
    }
    var scalar := DerivationToScalar(c, d, index);
    ScalarIsScalar(c, d, index);
    TopBitIsClear(scalar);
    var point2 := SM.GeScalarMultBase(c.group, scalar, c.baseTable, c.base);
    return true, c.encode(c.group.Sub(c.decode(key).value, point2));
  }

  /** Underiving undoes deriving, and deriving undoes underiving, for every key that decodes. */
  lemma DeriveAndUnderive<G(!new)>(c: Curve<G>, d: seq<uint8>, index: uint64, key: seq<uint8>)
    requires c.Valid() && c.decode(key).Some?
    ensures DerivedPublicKey(c, d, index, key).Some? && UnderivedPublicKey(c, d, index, key).Some?
    ensures UnderivedPublicKey(c, d, index, DerivedPublicKey(c, d, index, key).value) == Some(key)
    ensures DerivedPublicKey(c, d, index, UnderivedPublicKey(c, d, index, key).value) == Some(key)
  {
    hide LittleEndian, Group.Times, Group.Commutative, DerivationScalar, SM.BaseTable, SM.OddMultiples;
    AddAndSub(c.group, c.decode(key).value, c.group.Times(LittleEndian(DerivationScalar(c, d, index)), c.base));
  }

  lemma AddAndSub<G(!new)>(g: Group<G>, x: G, y: G)
    requires g.Commutative()
    ensures g.Sub(g.add(x, y), y) == x == g.add(g.Sub(x, y), y)
  {
    hide Group.Commutative;
    Associates(g, x, y, g.neg(y));
    Associates(g, x, g.neg(y), y);
    Inverse(g, y);
    Zero(g, x);
  }

  ghost function DerivedSecretKey<G(!new)>(c: Curve<G>, d: seq<uint8>, index: uint64,
                                           base: seq<uint8>): (k: seq<uint8>) {
    ScAdd(base, DerivationScalar(c, d, index))
  }

  method DeriveSecretKey<G(!new)>(c: Curve<G>, d: seq<uint8>, index: uint64, base: seq<uint8>)
    returns (derived: seq<uint8>)
    requires c.Valid() && IsScalar(base)
    ensures derived == DerivedSecretKey(c, d, index, base) && IsScalar(derived)
    ensures LittleEndian(derived) == (LittleEndian(base) + LittleEndian(c.hash(d + Varint.Encode(index)))) % L
  {
    hide LittleEndian, DerivationScalar, Curve.Valid, Varint.Encode;
    var scalar := DerivationToScalar(c, d, index);
    derived := ScAdd(base, scalar);
    ModAdds(LittleEndian(c.hash(d + Varint.Encode(index))), LittleEndian(base));
  }

  /** The public key of the derived secret key is the key derived from the public key. */
  lemma DerivedKeysMatch<G(!new)>(c: Curve<G>, d: seq<uint8>, index: uint64, b: seq<uint8>)
    requires c.Valid()
    ensures DerivedPublicKey(c, d, index, PublicKey(c, b)) == Some(PublicKey(c, DerivedSecretKey(c, d, index, b)))
  {
    hide LittleEndian, Group.Times, Group.Commutative, DerivationScalar, SM.BaseTable, SM.OddMultiples;
    var m, n := LittleEndian(b), LittleEndian(DerivationScalar(c, d, index));
    TimesAdd(c.group, m, n, c.base);
    TimesMod(c.group, m + n, c.base);
  }

  lemma ModAdds(m: int, n: int)
    ensures (m % L + n) % L == (m + n) % L
  {
    DivModUnique(m % L + n, L, (m + n) / L - m / L, (m + n) % L);
  }

  // ---------------------------------------------------------------------------
  // What a hash depends on
  // ---------------------------------------------------------------------------

  /** The same curve with another hash, which differs from the given one at a single string. */
  ghost function Redirected<G(!new)>(c: Curve<G>, data: seq<uint8>, n: int): (c': Curve<G>)
    ensures c' == c.(hash := c'.hash)
  {
    c.(hash := x => if x == data then Reduced(n) else c.hash(x))
  }

  lemma RedirectedHash<G(!new)>(c: Curve<G>, data: seq<uint8>, n: int, other: seq<uint8>)
    ensures LittleEndian(HashToScalar(Redirected(c, data, n), data)) == n % L
    ensures other != data ==> Redirected(c, data, n).hash(other) == c.hash(other)
    ensures other != data ==> HashToScalar(Redirected(c, data, n), other) == HashToScalar(c, other)
  {
    hide LittleEndian, Reduced;
    var c' := Redirected(c, data, n);
    assert c'.hash(data) == Reduced(n);
    assert other != data ==> c'.hash(other) == c.hash(other);
    assert n % L % L == n % L;
  }

  lemma RedirectedIsValid<G(!new)>(c: Curve<G>, data: seq<uint8>, n: int)
    requires c.Valid()
    ensures Redirected(c, data, n).Valid()
  {
    hide LittleEndian, Reduced, Group.Times, Group.Commutative, SM.BaseTable, SM.OddMultiples;
    var c' := Redirected(c, data, n);
    forall s ensures |c'.hash(s)| == 32 {
      assert c'.hash(s) == if s == data then Reduced(n) else c.hash(s);
    }
  }

  lemma NextDiffers(n: int)
    ensures (n + 1) % L != n % L
  {
  }

  /** What is hashed to a scalar tells the derivation and the index. */
  lemma DerivationBytesAreUnique(d: seq<uint8>, i: uint64, d': seq<uint8>, i': uint64)
    requires |d| == |d'|
    ensures d + Varint.Encode(i) == d' + Varint.Encode(i') <==> d == d' && i == i'
  {
    hide Varint.Encode, Varint.Decode, Pow2;
    var s, s' := d + Varint.Encode(i), d' + Varint.Encode(i');
    if s == s' {
      assert d == s[..|d|] == s'[..|d|] == d';
      assert Varint.Encode(i) == s[|d|..] == s'[|d|..] == Varint.Encode(i');
      Pow2OfWords();
      Varint.RoundTrip(i, [], 64, true);
      Varint.RoundTrip(i', [], 64, true);
    }
  }

  /** Every derivation and every index has a scalar of its own: some hash, other than the given one at a single string,
      tells any two of them apart, and with them the keys derived. */
  lemma DerivedKeysDiffer<G(!new)>(c: Curve<G>, d: seq<uint8>, i: uint64, d': seq<uint8>, i': uint64,
                                   pub: seq<uint8>, sec: seq<uint8>) returns (c': Curve<G>)
    requires c.Valid() && c.base != c.group.zero
    requires |d| == |d'| && (d != d' || i != i') && c.decode(pub).Some?
    ensures c'.Valid() && c' == c.(hash := c'.hash)
    ensures DerivationScalar(c', d, i) == DerivationScalar(c, d, i) != DerivationScalar(c', d', i')
    ensures DerivedPublicKey(c', d, i, pub) != DerivedPublicKey(c', d', i', pub)
    ensures DerivedSecretKey(c', d, i, sec) != DerivedSecretKey(c', d', i', sec)
  {
    hide LittleEndian, Group.Times, Group.Commutative, SM.BaseTable, SM.OddMultiples, Varint.Encode, Reduced,
         HashToScalar, Redirected;
    var n := LittleEndian(DerivationScalar(c, d, i));
    var data := d' + Varint.Encode(i');
    c' := Redirected(c, data, n + 1);
    DerivationBytesAreUnique(d, i, d', i');
    RedirectedHash(c, data, n + 1, d + Varint.Encode(i));
    RedirectedIsValid(c, data, n + 1);
    ScalarIsScalar(c, d, i);
    NextDiffers(n);
    NextPoint(c', c.decode(pub).value, n);
    NextSum(LittleEndian(sec), n);
  }

  lemma NextPoint<G(!new)>(c: Curve<G>, x: G, n: int)
    requires c.Valid() && c.base != c.group.zero
    ensures var y, z := c.group.Times(n, c.base), c.group.Times((n + 1) % L, c.base);
            c.encode(c.group.add(x, y)) != c.encode(c.group.add(x, z))
  {
    hide Group.Times, Group.Commutative, SM.BaseTable, SM.OddMultiples;
    var g, y := c.group, c.group.Times(n, c.base);
    TimesMod(g, n + 1, c.base);
    TimesSucc(g, n, c.base);
    Associates(g, x, y, c.base);
    if g.add(g.add(x, y), c.base) == g.add(x, y) {
      OnlyZeroAdds(g, g.add(x, y), c.base);
    }
  }

  lemma OnlyZeroAdds<G(!new)>(g: Group<G>, x: G, y: G)
    requires g.Commutative() && g.add(x, y) == x
    ensures y == g.zero
  {
    hide Group.Commutative;
    Inverse(g, x);
    Associates(g, g.neg(x), x, y);
    Zero(g, y);
  }

  lemma NextSum(b: int, n: int)
    ensures (b + n) % L != (b + (n + 1) % L) % L
  {
    ModAdds(n + 1, b);
    NextDiffers(b + n);
  }

  // ---------------------------------------------------------------------------
  // Signatures
  // ---------------------------------------------------------------------------

  datatype Signature = Signature(c: seq<uint8>, r: seq<uint8>)

  /** The challenge for a commitment. */
  ghost function Challenge<G(!new)>(c: Curve<G>, prefix: seq<uint8>, pub: seq<uint8>, commitment: G): (s: seq<uint8>) {
    HashToScalar(c, SignedBytes(c, prefix, pub, commitment))
  }

  ghost function SignedBytes<G(!new)>(c: Curve<G>, prefix: seq<uint8>, pub: seq<uint8>,
                                      commitment: G): (s: seq<uint8>) {
    prefix + pub + c.encode(commitment)
  }

  /** c * pub + r * B */
  ghost function Commitment<G(!new)>(c: Curve<G>, pub: seq<uint8>, sig: Signature): (x: G)
    requires c.decode(pub).Some?
  {
    c.group.add(c.group.Times(LittleEndian(sig.c), c.decode(pub).value), c.group.Times(LittleEndian(sig.r), c.base))
  }

  /** Both scalars are canonical and c is the challenge for the commitment c * pub + r * B. */
  ghost predicate SignatureAccepted<G(!new)>(c: Curve<G>, prefix: seq<uint8>, pub: seq<uint8>, sig: Signature)
    requires c.decode(pub).Some?
  {
    && IsScalar(sig.c) && IsScalar(sig.r)
    && sig.c == Challenge(c, prefix, pub, Commitment(c, pub, sig))
  }

  /** The randomness is the scalar k. */
  method GenerateSignature<G(!new)>(c: Curve<G>, prefix: seq<uint8>, pub: seq<uint8>, sec: seq<uint8>, k: seq<uint8>)
    returns (sig: Signature)
    requires c.Valid() && IsScalar(sec) && pub == PublicKey(c, sec) && IsScalar(k)
    ensures c.decode(pub).Some? && SignatureAccepted(c, prefix, pub, sig)
  {
    hide LittleEndian, Group.Times, Group.Commutative, Reduced, SM.BaseTable, SM.OddMultiples;
    TopBitIsClear(k);
    var tmp3 := SM.GeScalarMultBase(c.group, k, c.baseTable, c.base);
    var challenge := Reduced(LittleEndian(c.hash(prefix + pub + c.encode(tmp3))));
    sig := Signature(challenge, ScMulSub(challenge, sec, k));
    ResponseCloses(c.group, c.base, LittleEndian(sec), LittleEndian(k), LittleEndian(challenge));
  }

  /** The public key must decode; the source aborts otherwise. What is hashed are the prefix, the key and the
      commitment: 96 bytes, the prefix being a hash. */
  method CheckSignature<G(!new)>(c: Curve<G>, prefix: seq<uint8>, pub: seq<uint8>, sig: Signature)
    returns (ok: bool, ghost bytes: seq<uint8>)
    requires c.Valid() && c.decode(pub).Some? && |sig.c| == 32 && |sig.r| == 32
    ensures ok <==> SignatureAccepted(c, prefix, pub, sig)
    ensures |pub| == 32 && |bytes| == |prefix| + 64 && bytes[..|prefix|] == prefix &&
            bytes[|prefix|..|prefix| + 32] == pub
    ensures c.decode(bytes[|prefix| + 32..]) ==
            Some(c.group.add(c.group.Times(LittleEndian(sig.c), c.decode(pub).value),
                             c.group.Times(LittleEndian(sig.r), c.base)))
    ensures ok <==>
            LittleEndian(sig.c) < L && LittleEndian(sig.r) < L && LittleEndian(sig.c) == LittleEndian(c.hash(bytes)) % L
  {
    hide LittleEndian, Group.Times, Group.Commutative, Reduced, SM.BaseTable, SM.OddMultiples, SM.Slid;
    bytes := SignedBytes(c, prefix, pub, Commitment(c, pub, sig));
    SignedBytesSplit(c, prefix, pub, Commitment(c, pub, sig));
    var checkC := ScCheck(sig.c);
    var checkR := ScCheck(sig.r);
    if checkC != 0 || checkR != 0 {
      return false, bytes;
    }
    TopBitIsClear(sig.c);
    TopBitIsClear(sig.r);
    var tmp2 := SM.DoubleScalarMult(c.group, sig.c, c.decode(pub).value, sig.r, c.baseOdd, c.base);
    var challenge := Reduced(LittleEndian(c.hash(prefix + pub + c.encode(tmp2))));
    DifferenceIsZero(challenge, sig.c);
    EqualValues(challenge, sig.c);
    var nonzero := ScIsNonzero(ScSub(challenge, sig.c));
    return nonzero == 0, bytes;
  }

  lemma SignedBytesSplit<G(!new)>(c: Curve<G>, prefix: seq<uint8>, pub: seq<uint8>, commitment: G)
    requires c.Valid() && c.decode(pub).Some?
    ensures var bytes, n := SignedBytes(c, prefix, pub, commitment), |prefix|;
            && |pub| == 32 && |bytes| == n + 64 && bytes[..n] == prefix && bytes[n..n + 32] == pub
            && bytes[n + 32..] == c.encode(commitment) && c.decode(bytes[n + 32..]) == Some(commitment)
  {
    hide Group.Times, Group.Commutative, SM.BaseTable, SM.OddMultiples;
    assert |c.encode(c.decode(pub).value)| == 32;
  }

  lemma EqualValues(s: seq<uint8>, t: seq<uint8>)
    requires |s| == |t|
    ensures s == t <==> LittleEndian(s) == LittleEndian(t)
  {
    hide LittleEndian;
    if LittleEndian(s) == LittleEndian(t) {
      SameValue(s, t);
    }
  }

  /** A signature is for one message: under some hash, other than the given one at a single string, a signature accepted
      for one prefix is still accepted for it and refused for another. */
  lemma OtherMessageIsRefused<G(!new)>(c: Curve<G>, prefix: seq<uint8>, prefix': seq<uint8>, pub: seq<uint8>,
                                       sig: Signature) returns (c': Curve<G>)
    requires c.Valid() && c.decode(pub).Some? && SignatureAccepted(c, prefix, pub, sig)
    requires |prefix| == |prefix'| && prefix != prefix'
    ensures c'.Valid() && c' == c.(hash := c'.hash)
    ensures SignatureAccepted(c', prefix, pub, sig) && !SignatureAccepted(c', prefix', pub, sig)
  {
    hide LittleEndian, Group.Times, Group.Commutative, SM.BaseTable, SM.OddMultiples, HashToScalar, Redirected;
    var point, n := Commitment(c, pub, sig), LittleEndian(sig.c);
    var data := SignedBytes(c, prefix', pub, point);
    c' := Redirected(c, data, n + 1);
    SignedBytesSplit(c, prefix, pub, point);
    SignedBytesSplit(c, prefix', pub, point);
    RedirectedHash(c, data, n + 1, SignedBytes(c, prefix, pub, point));
    RedirectedIsValid(c, data, n + 1);
    NextDiffers(n);
  }

  /** Challenges for different prefixes, keys or commitments are told apart by some hash. */
  lemma ChallengesDiffer<G(!new)>(c: Curve<G>, prefix: seq<uint8>, pub: seq<uint8>, point: G,
                                  prefix': seq<uint8>, pub': seq<uint8>, point': G) returns (c': Curve<G>)
    requires c.Valid() && |prefix| == |prefix'| && |pub| == |pub'|
    requires prefix != prefix' || pub != pub' || point != point'
    ensures c'.Valid() && c' == c.(hash := c'.hash)
    ensures Challenge(c', prefix, pub, point) != Challenge(c', prefix', pub', point')
  {
    hide LittleEndian, Group.Times, Group.Commutative, SM.BaseTable, SM.OddMultiples, HashToScalar, Redirected;
    var s, s' := SignedBytes(c, prefix, pub, point), SignedBytes(c, prefix', pub', point');
    var n := LittleEndian(HashToScalar(c, s));
    c' := Redirected(c, s', n + 1);
    SignedBytesAreUnique(c, prefix, pub, point, prefix', pub', point');
    RedirectedHash(c, s', n + 1, s);
    RedirectedIsValid(c, s', n + 1);
    ScalarOfHash(c, s);
    NextDiffers(n);
  }

  /** The bytes tell all three. */
  lemma SignedBytesAreUnique<G(!new)>(c: Curve<G>, prefix: seq<uint8>, pub: seq<uint8>, point: G,
                                      prefix': seq<uint8>, pub': seq<uint8>, point': G)
    requires c.Valid() && |prefix| == |prefix'| && |pub| == |pub'|
    ensures SignedBytes(c, prefix, pub, point) == SignedBytes(c, prefix', pub', point') <==>
            prefix == prefix' && pub == pub' && point == point'
  {
    hide Group.Times, Group.Commutative, SM.BaseTable, SM.OddMultiples;
    var s, s' := SignedBytes(c, prefix, pub, point), SignedBytes(c, prefix', pub', point');
    var m, n := |prefix|, |prefix| + |pub|;
    assert prefix == s[..m] && pub == s[m..n] && c.encode(point) == s[n..];
    assert prefix' == s'[..m] && pub' == s'[m..n] && c.encode(point') == s'[n..];
    assert c.decode(c.encode(point)) == Some(point) && c.decode(c.encode(point')) == Some(point');
  }

  lemma ScalarOfHash<G(!new)>(c: Curve<G>, data: seq<uint8>)
    ensures IsScalar(HashToScalar(c, data))
  {
    hide LittleEndian;
  }

  // ---------------------------------------------------------------------------
  // What two answers to one commitment give away
  // ---------------------------------------------------------------------------

  /** c p + r x = c' p + r' x comes to (c' - c) p = (r - r') x. */
  lemma TwoAnswers<G(!new)>(g: Group<G>, p: G, x: G, c: int, r: int, c': int, r': int)
    requires g.Commutative()
    requires g.add(g.Times(c, p), g.Times(r, x)) == g.add(g.Times(c', p), g.Times(r', x))
    ensures g.Times(c' - c, p) == g.Times(r - r', x)
  {
    hide Group.Commutative, Group.Times;
    TimesAdd(g, c', -c, p);
    TimesNeg(g, c, p);
    TimesAdd(g, r, -r', x);
    TimesNeg(g, r', x);
    Transpose(g, g.Times(c, p), g.Times(r, x), g.Times(c', p), g.Times(r', x));
  }

  lemma Transpose<G(!new)>(g: Group<G>, a: G, b: G, a': G, b': G)
    requires g.Commutative() && g.add(a, b) == g.add(a', b')
    ensures g.add(a', g.neg(a)) == g.add(b, g.neg(b'))
  {
    hide Group.Commutative;
    calc {
      g.add(a', g.neg(a));
      { AddAndSub(g, a', b'); }
      g.add(g.add(g.add(a', b'), g.neg(b')), g.neg(a));
      { Commutes(g, a, b); Associates(g, b, a, g.neg(b')); }
      g.add(g.add(b, g.add(a, g.neg(b'))), g.neg(a));
      { Commutes(g, a, g.neg(b')); Associates(g, b, g.neg(b'), a); }
      g.add(g.add(g.add(b, g.neg(b')), a), g.neg(a));
      { AddAndSub(g, g.add(b, g.neg(b')), a); }
      g.add(b, g.neg(b'));
    }
  }

  method ScIsNonzero(s: seq<uint8>) returns (r: int)
    requires |s| == 32
    ensures r == if LittleEndian(s) == 0 then 0 else 1
  {
    var all: nat := 0;
    for i := 0 to 32
      invariant all < 0x100 && (all == 0 <==> forall j :: 0 <= j < i ==> s[j] == 0)
    {
      OrIsZero(all, s[i] as int);
      all := Or(all, s[i] as int);
    }
    ZeroBytes(s);
    r := (all - 1) / 0x100 + 1;
  }

  lemma OrIsZero(x: nat, y: nat)
    requires x < 0x100 && y < 0x100
    ensures Or(x, y) < 0x100 && (Or(x, y) == 0 <==> x == 0 && y == 0)
  {
    assert Pow2(8) == 0x100;
    BelowPower(x, y, 8);
  }

  lemma {:induction false} BelowPower(x: nat, y: nat, n: nat)
    requires x < Pow2(n) && y < Pow2(n)
    ensures Or(x, y) < Pow2(n) && (Or(x, y) == 0 <==> x == 0 && y == 0)
    decreases n
  {
    if n > 0 {
      BelowPower(x / 2, y / 2, n - 1);
    }
  }

  lemma {:induction false} ZeroBytes(s: seq<uint8>)
    ensures LittleEndian(s) == 0 <==> forall j :: 0 <= j < |s| ==> s[j] == 0
  {
    if s != [] {
      ZeroBytes(s[1..]);
      assert forall j :: 0 < j < |s| ==> s[j] == s[1..][j - 1];
      assert forall j :: 0 <= j < |s| - 1 ==> s[1..][j] == s[j + 1];
    }
  }

  lemma DifferenceIsZero(s: seq<uint8>, t: seq<uint8>)
    requires IsScalar(s) && IsScalar(t)
    ensures LittleEndian(ScSub(s, t)) == 0 <==> s == t
  {
    hide LittleEndian, Reduced;
    if LittleEndian(ScSub(s, t)) == 0 {
      SameValue(s, t);
    }
  }
}
