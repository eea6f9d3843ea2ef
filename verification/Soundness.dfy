/** What an accepted signature proves (src/crypto/crypto.cpp): two answers to the same commitments give away the
    secret key, a ring signature's key image is the one of that key, and no signature is for two messages. */
module Soundness {
  import opened Wrappers
  import opened Words
  import opened Groups
  import opened Scalars
  import opened Keys
  import opened RingSignature
  import PF = PrimeField
  import SM = ScalarMult

  // ---------------------------------------------------------------------------
  // Reciprocals modulo l
  // ---------------------------------------------------------------------------

  /** A hypothesis about the order of the base point, not proved here. */
  ghost predicate LIsPrime() {
    forall k :: 1 < k < L ==> !PF.Divides(k, L)
  }

  lemma Reciprocal(d: int) returns (u: int, k: int)
    requires LIsPrime() && d % L != 0
    ensures u * d == 1 + L * k
  {
    var g, x, y := PF.Bezout(L, d % L);
    DivisorIsOne(g, d % L);
    u, k := y, y * (d / L) - x;
    Regroup(d, d / L, d % L, x, y);
  }

  lemma Regroup(d: int, q: int, r: int, x: int, y: int)
    requires d == L * q + r && 1 == L * x + r * y
    ensures y * d == 1 + L * (y * q - x)
  {
    assert y * d == L * (y * q) + r * y;
  }

  lemma DivisorIsOne(g: nat, r: int)
    requires LIsPrime() && 0 < r < L && g > 0 && PF.Divides(g, L) && PF.Divides(g, r)
    ensures g == 1
  {
    var k := r / g;
    assert r == g * k;
    if g > r {
      if k > 0 {
        MulAtLeast(g, k);
      }
      assert false;
    }
  }

  /** d x = e y leaves x as u e times y, and eight of both where the order of x is a multiple of l. */
  lemma Divided<G(!new)>(g: Group<G>, x: G, y: G, d: int, e: int, u: int, k: int)
    requires g.Commutative() && g.Times(8 * L, x) == g.zero && u * d == 1 + L * k
    requires g.Times(d, x) == g.Times(e, y)
    ensures g.Times(8, x) == g.Times(8, g.Times(u * e, y))
    ensures g.Times(L, x) == g.zero ==> x == g.Times(u * e, y)
  {
    hide Group.Commutative, Group.Times;
    TimesTimes(g, u, d, x);
    TimesTimes(g, u, e, y);
    var z := g.Times(u * e, y);
    assert g.Times(1 + L * k, x) == z;
    TimesTimes(g, 8, 1 + L * k, x);
    EightTimes(k);
    TimesAdd(g, 8, k * (8 * L), x);
    TimesTimes(g, k, 8 * L, x);
    TimesOfZero(g, k);
    Zero(g, g.Times(8, x));
    if g.Times(L, x) == g.zero {
      MulCommutes(L, k);
      TimesAdd(g, 1, k * L, x);
      TimesTimes(g, k, L, x);
      TimesOne(g, x);
      Zero(g, x);
    }
  }

  lemma EightTimes(k: int)
    ensures 8 * (1 + L * k) == 8 + k * (8 * L)
  {
  }

  lemma MulCommutes(a: int, b: int)
    ensures a * b == b * a
  {
  }

  /** Only multiples of l take the base point to zero. */
  lemma OrderOfBase<G(!new)>(c: Curve<G>, n: int)
    requires c.Valid() && LIsPrime() && c.base != c.group.zero && c.group.Times(n, c.base) == c.group.zero
    ensures n % L == 0
  {
    hide Group.Commutative, Group.Times, SM.BaseTable, SM.OddMultiples, LIsPrime;
    var g := c.group;
    if n % L != 0 {
      var u, k := Reciprocal(n);
      TimesTimes(g, u, n, c.base);
      TimesOfZero(g, u);
      MulCommutes(L, k);
      TimesAdd(g, 1, k * L, c.base);
      TimesTimes(g, k, L, c.base);
      TimesOfZero(g, k);
      TimesOne(g, c.base);
      Zero(g, c.base);
    }
  }

  lemma DifferentScalars(s: seq<uint8>, t: seq<uint8>)
    requires IsScalar(s) && IsScalar(t) && s != t
    ensures (LittleEndian(t) - LittleEndian(s)) % L != 0
  {
    hide LittleEndian;
    EqualValues(s, t);
    var m, n := LittleEndian(s), LittleEndian(t);
    if (n - m) % L == 0 {
      DivModUnique(n - m, L, if n > m then 0 else -1, if n > m then n - m else n - m + L);
    }
  }

  // ---------------------------------------------------------------------------
  // Signatures
  // ---------------------------------------------------------------------------

  /** Two signatures with one commitment and different challenges give away the secret key: x with P = x B, up to points
      of order eight. */
  lemma SignatureGivesKey<G(!new)>(c: Curve<G>, pub: seq<uint8>, sig: Signature, sig': Signature) returns (x: int)
    requires c.Valid() && LIsPrime() && c.decode(pub).Some?
    requires IsScalar(sig.c) && IsScalar(sig'.c) && sig.c != sig'.c &&
             Commitment(c, pub, sig) == Commitment(c, pub, sig')
    ensures var g, p := c.group, c.decode(pub).value;
            && g.Times(8, p) == g.Times(8, g.Times(x, c.base))
            && (g.Times(L, p) == g.zero ==> p == g.Times(x, c.base))
  {
    hide LittleEndian, Group.Commutative, Group.Times, SM.BaseTable, SM.OddMultiples, LIsPrime, IsScalar;
    var d, e := LittleEndian(sig'.c) - LittleEndian(sig.c), LittleEndian(sig.r) - LittleEndian(sig'.r);
    DifferentScalars(sig.c, sig'.c);
    var u, k := Reciprocal(d);
    x := u * e;
    TwoAnswers(c.group, c.decode(pub).value, c.base, LittleEndian(sig.c), LittleEndian(sig.r),
               LittleEndian(sig'.c), LittleEndian(sig'.r));
    Divided(c.group, c.decode(pub).value, c.base, d, e, u, k);
  }

  /** And the key is the one the public key belongs to. */
  lemma KeyIsTheSecret<G(!new)>(c: Curve<G>, sec: seq<uint8>, x: int)
    requires c.Valid() && LIsPrime() && c.base != c.group.zero
    requires c.group.Times(8, c.group.Times(LittleEndian(sec), c.base)) == c.group.Times(8, c.group.Times(x, c.base))
    ensures (x - LittleEndian(sec)) % L == 0
  {
    hide LittleEndian, Group.Commutative, Group.Times, SM.BaseTable, SM.OddMultiples, LIsPrime;
    var g := c.group;
    var m: int := LittleEndian(sec);
    TimesTimes(g, 8, m, c.base);
    TimesTimes(g, 8, x, c.base);
    TimesAdd(g, 8 * x, -(8 * m), c.base);
    TimesNeg(g, 8 * m, c.base);
    Inverse(g, g.Times(8 * m, c.base));
    OrderOfBase(c, 8 * x + -(8 * m));
    EightIsPrimeToL(x - m);
  }

  lemma EightIsPrimeToL(n: int)
    requires (8 * n) % L == 0
    ensures n % L == 0
  {
    var q := (8 * n) / L;
    assert 8 * n == L * q && L % 8 == 5;
    assert q % 8 == 0;
    DivModUnique(n, L, q / 8, 0);
  }

  // ---------------------------------------------------------------------------
  // Ring signatures
  // ---------------------------------------------------------------------------

  /** Two answers of one member to the same commitments: the image is to the point of the key what the key is to the
      base point. */
  lemma SameCommitments<G(!new)>(c: Curve<G>, image: G, pub: seq<uint8>, sig: Signature, sig': Signature)
    requires c.Valid() && c.decode(pub).Some? && Commitments(c, image, pub, sig) == Commitments(c, image, pub, sig')
    ensures var g, d := c.group, LittleEndian(sig'.c) - LittleEndian(sig.c);
            var e := LittleEndian(sig.r) - LittleEndian(sig'.r);
            && g.Times(d, c.decode(pub).value) == g.Times(e, c.base)
            && g.Times(d, image) == g.Times(e, KeyPoint(c, pub))
  {
    hide LittleEndian, Group.Commutative, Group.Times, SM.BaseTable, SM.OddMultiples, KeyPoint, Holds;
    var s, g, p, h := Commitments(c, image, pub, sig), c.group, c.decode(pub).value, KeyPoint(c, pub);
    CommitmentPoints(c, image, pub, sig);
    CommitmentPoints(c, image, pub, sig');
    var m, r, m', r' := LittleEndian(sig.c), LittleEndian(sig.r), LittleEndian(sig'.c), LittleEndian(sig'.r);
    TwoAnswers(g, p, c.base, m, r, m', r');
    Commutes(g, g.Times(r, h), g.Times(m, image));
    Commutes(g, g.Times(r', h), g.Times(m', image));
    TwoAnswers(g, image, h, m, r, m', r');
  }

  lemma CommitmentPoints<G(!new)>(c: Curve<G>, image: G, pub: seq<uint8>, sig: Signature)
    requires c.Valid() && c.decode(pub).Some?
    ensures var s, g := Commitments(c, image, pub, sig), c.group;
            && |s| == 64
            && c.decode(s[..32]) == Some(g.add(g.Times(LittleEndian(sig.c), c.decode(pub).value),
                                               g.Times(LittleEndian(sig.r), c.base)))
            && c.decode(s[32..]) == Some(g.add(g.Times(LittleEndian(sig.r), KeyPoint(c, pub)),
                                               g.Times(LittleEndian(sig.c), image)))
  {
    hide LittleEndian, Group.Commutative, Group.Times, SM.BaseTable, SM.OddMultiples, KeyPoint;
    var s, g := Commitments(c, image, pub, sig), c.group;
    assert s[..32] == c.encode(g.add(g.Times(LittleEndian(sig.c), c.decode(pub).value),
                                     g.Times(LittleEndian(sig.r), c.base)));
    assert s[32..] == c.encode(g.add(g.Times(LittleEndian(sig.r), KeyPoint(c, pub)),
                                     g.Times(LittleEndian(sig.c), image)));
  }

  /** One x is the secret key and makes the key image, up to points of order eight. */
  ghost predicate Opens<G(!new)>(c: Curve<G>, image: G, pub: seq<uint8>, x: int)
    requires c.decode(pub).Some?
  {
    var g, p, h := c.group, c.decode(pub).value, KeyPoint(c, pub);
    && g.Times(8, p) == g.Times(8, g.Times(x, c.base))
    && g.Times(8, image) == g.Times(8, g.Times(x, h))
    && (g.Times(L, p) == g.zero ==> p == g.Times(x, c.base))
    && (g.Times(L, image) == g.zero ==> image == g.Times(x, h))
  }

  lemma MemberGivesKey<G(!new)>(c: Curve<G>, image: G, pub: seq<uint8>, sig: Signature, sig': Signature)
    returns (x: int)
    requires c.Valid() && LIsPrime() && c.decode(pub).Some?
    requires IsScalar(sig.c) && IsScalar(sig'.c) && sig.c != sig'.c
    requires Commitments(c, image, pub, sig) == Commitments(c, image, pub, sig')
    ensures Opens(c, image, pub, x)
  {
    hide LittleEndian, Group.Commutative, Group.Times, SM.BaseTable, SM.OddMultiples, LIsPrime, IsScalar, KeyPoint,
         Commitments;
    var d, e := LittleEndian(sig'.c) - LittleEndian(sig.c), LittleEndian(sig.r) - LittleEndian(sig'.r);
    DifferentScalars(sig.c, sig'.c);
    var u, k := Reciprocal(d);
    x := u * e;
    SameCommitments(c, image, pub, sig, sig');
    Divided(c.group, c.decode(pub).value, c.base, d, e, u, k);
    Divided(c.group, image, KeyPoint(c, pub), d, e, u, k);
  }

  /** The image of a key whose secret is known: there is one that can be signed for. */
  lemma ImageIsBound<G(!new)>(c: Curve<G>, image: G, sec: seq<uint8>, x: int)
    requires c.Valid() && LIsPrime() && c.base != c.group.zero
    requires c.decode(PublicKey(c, sec)).Some? && Opens(c, image, PublicKey(c, sec), x)
    ensures var g, h := c.group, KeyPoint(c, PublicKey(c, sec));
            && g.Times(8, image) == g.Times(8, g.Times(LittleEndian(sec), h))
            && (g.Times(L, image) == g.zero ==> c.encode(image) == KeyImage(c, PublicKey(c, sec), sec))
  {
    hide LittleEndian, Group.Commutative, Group.Times, SM.BaseTable, SM.OddMultiples, LIsPrime, KeyPoint, PublicKey;
    var g, m, h := c.group, LittleEndian(sec), KeyPoint(c, PublicKey(c, sec));
    PublicKeyDecodes(c, sec);
    KeyIsTheSecret(c, sec, x);
    KeyPointOrder(c, PublicKey(c, sec));
    SameMultiple(g, h, x, m);
  }

  lemma SameMultiple<G(!new)>(g: Group<G>, h: G, x: int, m: int)
    requires g.Commutative() && g.Times(L, h) == g.zero && (x - m) % L == 0
    ensures g.Times(x, h) == g.Times(m, h)
  {
    hide Group.Commutative, Group.Times;
    TimesMod(g, x, h);
    TimesMod(g, m, h);
    var q := (x - m) / L;
    assert x == L * (q + m / L) + m % L;
    DivModUnique(x, L, q + m / L, m % L);
  }

  /** If the challenges of two rings with the same commitments do not sum to the same, some member gave two answers. */
  lemma {:induction false} SomeMemberAnswersTwice(s: seq<Signature>, t: seq<Signature>, n: nat) returns (i: nat)
    requires n <= |s| == |t| && SumBut(s, n, -1) != SumBut(t, n, -1)
    ensures i < n && s[i].c != t[i].c
    decreases n
  {
    hide LittleEndian;
    if s[n - 1].c != t[n - 1].c {
      i := n - 1;
    } else {
      i := SomeMemberAnswersTwice(s, t, n - 1);
    }
  }

  /** Special soundness: two accepted ring signatures with the same commitments, the hash having changed at the bytes
      hashed, give away the secret key of a member; and the image they share is the image of that key. */
  lemma RingGivesKey<G(!new)>(c: Curve<G>, c': Curve<G>, prefix: seq<uint8>, image: seq<uint8>, pubs: seq<seq<uint8>>,
                              s: seq<Signature>, t: seq<Signature>) returns (i: nat, x: int)
    requires c.Valid() && LIsPrime() && c' == c.(hash := c'.hash) && AllDecode(c, pubs) && |s| == |t| == |pubs|
    requires forall j :: 0 <= j < |pubs| ==> c'.hash(pubs[j]) == c.hash(pubs[j])
    requires RingAccepted(c, prefix, image, pubs, s) && RingAccepted(c', prefix, image, pubs, t)
    requires var point := c.decode(image).value;
             && Ring(c, point, pubs, s, |pubs|) == Ring(c, point, pubs, t, |pubs|)
             && HashToScalar(c, prefix + Ring(c, point, pubs, s, |pubs|)) !=
                HashToScalar(c', prefix + Ring(c, point, pubs, s, |pubs|))
    ensures i < |pubs| && s[i].c != t[i].c && Opens(c, c.decode(image).value, pubs[i], x)
  {
    hide LittleEndian, Curve.Valid, LIsPrime, Ring, SumBut, HashToScalar, Opens, Commitments, IsScalar;
    var point, bytes := c.decode(image).value, prefix + Ring(c, c.decode(image).value, pubs, s, |pubs|);
    SameRing(c, c', point, pubs, t, |pubs|);
    ScalarOfHash(c, bytes);
    ScalarOfHash(c', bytes);
    ScalarsDiffer(HashToScalar(c, bytes), HashToScalar(c', bytes));
    i := SomeMemberAnswersTwice(s, t, |pubs|);
    RingSlice(c, point, pubs, s, |pubs|, i);
    RingSlice(c, point, pubs, t, |pubs|, i);
    x := MemberGivesKey(c, point, pubs[i], s[i], t[i]);
  }

  lemma ScalarsDiffer(s: seq<uint8>, t: seq<uint8>)
    requires IsScalar(s) && IsScalar(t) && s != t
    ensures LittleEndian(s) != LittleEndian(t)
  {
    hide LittleEndian;
    EqualValues(s, t);
  }

  /** The ring depends on the hash only where it is taken of the keys. */
  lemma {:induction false} SameRing<G(!new)>(c: Curve<G>, c': Curve<G>, image: G, pubs: seq<seq<uint8>>,
                                             s: seq<Signature>, n: nat)
    requires c' == c.(hash := c'.hash) && AllDecode(c, pubs) && n <= |pubs| == |s|
    requires forall j :: 0 <= j < |pubs| ==> c'.hash(pubs[j]) == c.hash(pubs[j])
    ensures AllDecode(c', pubs) && Ring(c', image, pubs, s, n) == Ring(c, image, pubs, s, n)
    decreases n
  {
    hide LittleEndian, Group.Times;
    if n > 0 {
      SameRing(c, c', image, pubs, s, n - 1);
    }
  }

  /** A ring signature is for one message: under some hash, other than the given one at a single string, a signature
      accepted for one prefix is still accepted for it and refused for another. */
  lemma OtherMessageIsRefusedByRing<G(!new)>(
    c: Curve<G>, prefix: seq<uint8>, prefix': seq<uint8>, image: seq<uint8>, pubs: seq<seq<uint8>>,
    sigs: seq<Signature>)
    returns (c': Curve<G>)
    requires c.Valid() && AllDecode(c, pubs) && |pubs| == |sigs| && RingAccepted(c, prefix, image, pubs, sigs)
    requires |prefix| == |prefix'| && prefix != prefix'
    ensures c'.Valid() && c' == c.(hash := c'.hash) && AllDecode(c', pubs)
    ensures RingAccepted(c', prefix, image, pubs, sigs) && !RingAccepted(c', prefix', image, pubs, sigs)
  {
    hide LittleEndian, Curve.Valid, Ring, SumBut, HashToScalar, Redirected, AllScalars;
    var point, sum := c.decode(image).value, SumBut(sigs, |sigs|, -1);
    var ring := Ring(c, point, pubs, sigs, |pubs|);
    var data := prefix' + ring;
    c' := Redirected(c, data, sum + 1);
    RedirectedIsValid(c, data, sum + 1);
    RedirectedHash(c, data, sum + 1, prefix + ring);
    RingSlice(c, point, pubs, sigs, |pubs|, 0);
    assert prefix' == data[..|prefix|] && prefix == (prefix + ring)[..|prefix|];
    forall j | 0 <= j < |pubs| ensures c'.hash(pubs[j]) == c.hash(pubs[j]) {
      KeyLength(c, pubs[j]);
      RedirectedHash(c, data, sum + 1, pubs[j]);
    }
    SameRing(c, c', point, pubs, sigs, |pubs|);
    NextDiffers(sum);
  }

  lemma KeyLength<G(!new)>(c: Curve<G>, pub: seq<uint8>)
    requires c.Valid() && c.decode(pub).Some?
    ensures |pub| == 32
  {
    hide Group.Commutative, Group.Times, SM.BaseTable, SM.OddMultiples;
    assert |c.encode(c.decode(pub).value)| == 32;
  }

  /** The points two keys are hashed to are eight times any two points, for some hash and some map from hashes. */
  lemma KeyPointsAreFree<G(!new)>(c: Curve<G>, pub: seq<uint8>, pub': seq<uint8>, x: G, y: G) returns (c': Curve<G>)
    requires c.Valid() && pub != pub'
    ensures c'.Valid() && c' == c.(hash := c'.hash, fromHash := c'.fromHash)
    ensures KeyPoint(c', pub) == c.group.Times(8, x) && KeyPoint(c', pub') == c.group.Times(8, y)
  {
    hide LittleEndian, Group.Commutative, Group.Times, SM.BaseTable, SM.OddMultiples, Redirected, Reduced;
    var n := LittleEndian(c.hash(pub));
    var c1 := Redirected(c, pub', n + 1);
    RedirectedIsValid(c, pub', n + 1);
    RedirectedHash(c, pub', n + 1, pub);
    NextDiffers(n);
    OwnHash(c, pub', n + 1);
    var first := c1.hash(pub);
    c' := c1.(fromHash := z => if z == first then x else y);
    assert c'.hash(pub') != first;
  }

  lemma OwnHash<G(!new)>(c: Curve<G>, data: seq<uint8>, n: int)
    ensures LittleEndian(Redirected(c, data, n).hash(data)) == n % L
  {
    hide LittleEndian, Reduced;
    assert Redirected(c, data, n).hash(data) == Reduced(n);
  }
}
