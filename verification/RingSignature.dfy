/** Key images and ring signatures (src/crypto/crypto.cpp). */
module RingSignature {
  import opened Wrappers
  import opened Words
  import opened Groups
  import opened Scalars
  import opened Keys
  import SM = ScalarMult

  // ---------------------------------------------------------------------------
  // Key images
  // ---------------------------------------------------------------------------

  /** The point a public key is hashed to: eight times a point of the curve, so of order l. */
  ghost function KeyPoint<G(!new)>(c: Curve<G>, pub: seq<uint8>): (x: G) {
    c.group.Times(8, c.fromHash(c.hash(pub)))
  }

  lemma KeyPointOrder<G(!new)>(c: Curve<G>, pub: seq<uint8>)
    requires c.Valid()
    ensures c.group.Times(L, KeyPoint(c, pub)) == c.group.zero
  {
    hide Group.Times, Group.Commutative, SM.BaseTable, SM.OddMultiples;
    TimesTimes(c.group, L, 8, c.fromHash(c.hash(pub)));
    assert L * 8 == 8 * L;
  }

  method HashToEc<G(!new)>(c: Curve<G>, pub: seq<uint8>) returns (res: G)
    requires c.Valid()
    ensures res == KeyPoint(c, pub) == c.group.Times(8, c.fromHash(c.hash(pub)))
  {
    hide Group.Times, Group.Commutative, SM.BaseTable, SM.OddMultiples;
    res := GeMul8(c.group, c.fromHash(c.hash(pub)));
  }

  ghost function KeyImage<G(!new)>(c: Curve<G>, pub: seq<uint8>, sec: seq<uint8>): (image: seq<uint8>) {
    c.encode(c.group.Times(LittleEndian(sec), KeyPoint(c, pub)))
  }

  method GenerateKeyImage<G(!new)>(c: Curve<G>, pub: seq<uint8>, sec: seq<uint8>) returns (image: seq<uint8>)
    requires c.Valid() && IsScalar(sec)
    ensures image == KeyImage(c, pub, sec)
    ensures c.decode(image) == Some(c.group.Times(8 * LittleEndian(sec), c.fromHash(c.hash(pub))))
  {
    hide LittleEndian, Group.Times, Group.Commutative, SM.BaseTable, SM.OddMultiples, KeyPoint;
    TopBitIsClear(sec);
    var point := HashToEc(c, pub);
    var point2 := SM.GeScalarMult(c.group, sec, point);
    TimesTimes(c.group, LittleEndian(sec), 8, c.fromHash(c.hash(pub)));
    image := c.encode(point2);
  }

  // ---------------------------------------------------------------------------
  // What a ring signature has to satisfy
  // ---------------------------------------------------------------------------

  /** The two commitments of a member: c * P + r * B and r * H(P) + c * I. */
  ghost function Commitments<G(!new)>(c: Curve<G>, image: G, pub: seq<uint8>, sig: Signature): (s: seq<uint8>)
    requires c.decode(pub).Some?
  {
    c.encode(c.group.add(c.group.Times(LittleEndian(sig.c), c.decode(pub).value),
                         c.group.Times(LittleEndian(sig.r), c.base))) +
    c.encode(c.group.add(c.group.Times(LittleEndian(sig.r), KeyPoint(c, pub)),
                         c.group.Times(LittleEndian(sig.c), image)))
  }

  ghost predicate AllDecode<G(!new)>(c: Curve<G>, pubs: seq<seq<uint8>>) {
    forall i :: 0 <= i < |pubs| ==> c.decode(pubs[i]).Some?
  }

  ghost predicate AllScalars(sigs: seq<Signature>) {
    forall i :: 0 <= i < |sigs| ==> IsScalar(sigs[i].c) && IsScalar(sigs[i].r)
  }

  /** The commitments of the first n members. */
  ghost function Ring<G(!new)>(c: Curve<G>, image: G, pubs: seq<seq<uint8>>, sigs: seq<Signature>,
                               n: nat): (s: seq<uint8>)
    requires AllDecode(c, pubs) && n <= |pubs| == |sigs|
  {
    if n == 0 then []
    else Ring(c, image, pubs, sigs, n - 1) + Commitments(c, image, pubs[n - 1], sigs[n - 1])
  }

  /** The sum of the challenges of the first n members, one of them left out. */
  ghost function SumBut(sigs: seq<Signature>, n: nat, skip: int): (sum: int)
    requires n <= |sigs|
  {
    if n == 0 then 0 else SumBut(sigs, n - 1, skip) + if n - 1 == skip then 0 else LittleEndian(sigs[n - 1].c)
  }

  ghost predicate RingAccepted<G(!new)>(c: Curve<G>, prefix: seq<uint8>, image: seq<uint8>, pubs: seq<seq<uint8>>,
                                        sigs: seq<Signature>)
    requires AllDecode(c, pubs) && |sigs| == |pubs|
  {
    && c.decode(image).Some?
    && AllScalars(sigs)
    && LittleEndian(HashToScalar(c, prefix + Ring(c, c.decode(image).value, pubs, sigs, |pubs|))) ==
       ModL(SumBut(sigs, |sigs|, -1))
  }

  ghost function ModL(n: int): (r: int) {
    n % L
  }

  // ---------------------------------------------------------------------------
  // Checking
  // ---------------------------------------------------------------------------

  method MemberCommitments<G(!new)>(c: Curve<G>, image: G, imagePre: seq<G>, pub: seq<uint8>, sig: Signature)
    returns (ab: seq<uint8>)
    requires c.Valid() && c.decode(pub).Some? && IsScalar(sig.c) && IsScalar(sig.r)
    requires SM.OddMultiples(c.group, imagePre, image)
    ensures ab == Commitments(c, image, pub, sig)
  {
    hide LittleEndian, Group.Times, Group.Commutative, SM.BaseTable, SM.OddMultiples, SM.Slid, KeyPoint;
    TopBitIsClear(sig.c);
    TopBitIsClear(sig.r);
    var tmp2 := SM.DoubleScalarMult(c.group, sig.c, c.decode(pub).value, sig.r, c.baseOdd, c.base);
    ab := c.encode(tmp2);
    var tmp3 := HashToEc(c, pub);
    tmp2 := SM.DoubleScalarMult(c.group, sig.r, tmp3, sig.c, imagePre, image);
    ab := ab + c.encode(tmp2);
  }

  /** Member i of a list of pairs of points, 64 bytes each, after the prefix: c_i P_i + r_i B and r_i H(P_i) + c_i I. */
  ghost predicate Holds<G(!new)>(c: Curve<G>, bytes: seq<uint8>, at: nat, image: G, pub: G, key: G, sig: Signature) {
    && at + 64 <= |bytes|
    && c.decode(bytes[at..at + 32]) == Some(c.group.add(c.group.Times(LittleEndian(sig.c), pub),
                                                        c.group.Times(LittleEndian(sig.r), c.base)))
    && c.decode(bytes[at + 32..at + 64]) == Some(c.group.add(c.group.Times(LittleEndian(sig.r), key),
                                                             c.group.Times(LittleEndian(sig.c), image)))
  }

  /** What is hashed are the prefix and 64 bytes for every member. */
  method CheckRingSignature<G(!new)>(
    c: Curve<G>, prefix: seq<uint8>, image: seq<uint8>, pubs: seq<seq<uint8>>, sig: seq<Signature>)
    returns (ok: bool, ghost bytes: seq<uint8>)
    requires c.Valid() && AllDecode(c, pubs) && |sig| == |pubs|
    requires forall i :: 0 <= i < |sig| ==> |sig[i].c| == 32 && |sig[i].r| == 32
    ensures ok <==> RingAccepted(c, prefix, image, pubs, sig)
    ensures c.decode(image).Some? ==>
              && |bytes| == |prefix| + 64 * |pubs| && bytes[..|prefix|] == prefix
              && forall i :: 0 <= i < |pubs| ==>
                   Holds(c, bytes, |prefix| + 64 * i, c.decode(image).value, c.decode(pubs[i]).value,
                         c.group.Times(8, c.fromHash(c.hash(pubs[i]))), sig[i])
    ensures ok <==> && c.decode(image).Some?
                    && (forall i :: 0 <= i < |sig| ==> LittleEndian(sig[i].c) < L && LittleEndian(sig[i].r) < L)
                    && LittleEndian(c.hash(bytes)) % L == SumBut(sig, |sig|, -1) % L
  {
    hide LittleEndian, Group.Times, Group.Commutative, SM.BaseTable, SM.OddMultiples, Ring, SumBut, Reduced, ModL,
         Holds;
    bytes := [];
    if c.decode(image).None? {
      return false, bytes;
    }
    var imageUnp := c.decode(image).value;
    bytes := prefix + Ring(c, imageUnp, pubs, sig, |pubs|);
    RingBytes(c, prefix, imageUnp, pubs, sig);
    AcceptedExactly(c, prefix, image, pubs, sig);
    var imagePre := SM.DsmPrecomp(c.group, imageUnp);
    var canonical, buf, sum := CheckMembers(c, prefix, imageUnp, imagePre, pubs, sig);
    if !canonical {
      return false, bytes;
    }
    ModIsScalar(sum, SumBut(sig, |sig|, -1));
    var h := Reduced(LittleEndian(c.hash(buf)));
    DifferenceIsZero(h, sum);
    EqualValues(h, sum);
    var nonzero := ScIsNonzero(ScSub(h, sum));
    return nonzero == 0, bytes;
  }

  /** The loop over the members; it ends at a scalar that is not canonical. */
  method CheckMembers<G(!new)>(
    c: Curve<G>, prefix: seq<uint8>, image: G, imagePre: seq<G>, pubs: seq<seq<uint8>>, sig: seq<Signature>)
    returns (ok: bool, buf: seq<uint8>, sum: seq<uint8>)
    requires c.Valid() && AllDecode(c, pubs) && |sig| == |pubs| && SM.OddMultiples(c.group, imagePre, image)
    requires forall i :: 0 <= i < |sig| ==> |sig[i].c| == 32 && |sig[i].r| == 32
    ensures ok <==> AllScalars(sig)
    ensures ok ==> buf == prefix + Ring(c, image, pubs, sig, |pubs|)
    ensures ok ==> |sum| == 32 && LittleEndian(sum) == ModL(SumBut(sig, |sig|, -1))
  {
    hide LittleEndian, Group.Times, Group.Commutative, SM.BaseTable, SM.OddMultiples, Commitments, Reduced, ModL, ScAdd;
    buf, sum := prefix, Reduced(0);
    NoSum();
    for i := 0 to |pubs|
      invariant forall j :: 0 <= j < i ==> IsScalar(sig[j].c) && IsScalar(sig[j].r)
      invariant buf == prefix + Ring(c, image, pubs, sig, i)
      invariant |sum| == 32 && LittleEndian(sum) == ModL(SumBut(sig, i, -1))
    {
      var checkC := ScCheck(sig[i].c);
      var checkR := ScCheck(sig[i].r);
      if checkC != 0 || checkR != 0 {
        return false, buf, sum;
      }
      var ab := MemberCommitments(c, image, imagePre, pubs[i], sig[i]);
      buf := buf + ab;
      SumStep(sum, SumBut(sig, i, -1), sig[i].c);
      sum := ScAdd(sum, sig[i].c);
    }
    return true, buf, sum;
  }

  lemma AcceptedExactly<G(!new)>(c: Curve<G>, prefix: seq<uint8>, image: seq<uint8>, pubs: seq<seq<uint8>>,
                                 sigs: seq<Signature>)
    requires AllDecode(c, pubs) && |sigs| == |pubs| && c.decode(image).Some?
    requires forall i :: 0 <= i < |sigs| ==> |sigs[i].c| == 32 && |sigs[i].r| == 32
    ensures var bytes := prefix + Ring(c, c.decode(image).value, pubs, sigs, |pubs|);
            RingAccepted(c, prefix, image, pubs, sigs) <==>
            && (forall i :: 0 <= i < |sigs| ==> LittleEndian(sigs[i].c) < L && LittleEndian(sigs[i].r) < L)
            && LittleEndian(c.hash(bytes)) % L == SumBut(sigs, |sigs|, -1) % L
  {
    hide LittleEndian, Reduced, Ring, SumBut;
  }

  /** The ring is 64 bytes for each of the first n members, in order. */
  lemma {:induction false} RingSlice<G(!new)>(c: Curve<G>, image: G, pubs: seq<seq<uint8>>, sigs: seq<Signature>,
                                              n: nat, i: nat)
    requires c.Valid() && AllDecode(c, pubs) && n <= |pubs| == |sigs|
    ensures |Ring(c, image, pubs, sigs, n)| == 64 * n
    ensures i < n ==> Ring(c, image, pubs, sigs, n)[64 * i..64 * i + 64] == Commitments(c, image, pubs[i], sigs[i])
    decreases n
  {
    hide Commitments, Curve.Valid;
    if n > 0 {
      RingSlice(c, image, pubs, sigs, n - 1, i);
      CommitmentsLength(c, image, pubs[n - 1], sigs[n - 1]);
    }
  }

  lemma CommitmentsLength<G(!new)>(c: Curve<G>, image: G, pub: seq<uint8>, sig: Signature)
    requires c.Valid() && c.decode(pub).Some?
    ensures |Commitments(c, image, pub, sig)| == 64
  {
    hide LittleEndian, Group.Times, Group.Commutative, SM.BaseTable, SM.OddMultiples, KeyPoint;
  }

  lemma CommitmentsHold<G(!new)>(c: Curve<G>, bytes: seq<uint8>, at: nat, image: G, pub: seq<uint8>, sig: Signature)
    requires c.Valid() && c.decode(pub).Some? && at + 64 <= |bytes|
    requires bytes[at..at + 64] == Commitments(c, image, pub, sig)
    ensures Holds(c, bytes, at, image, c.decode(pub).value, c.group.Times(8, c.fromHash(c.hash(pub))), sig)
  {
    hide LittleEndian, Group.Times, Group.Commutative, SM.BaseTable, SM.OddMultiples;
    var s := bytes[at..at + 64];
    assert bytes[at..at + 32] == s[..32] && bytes[at + 32..at + 64] == s[32..];
  }

  lemma RingBytes<G(!new)>(c: Curve<G>, prefix: seq<uint8>, image: G, pubs: seq<seq<uint8>>, sigs: seq<Signature>)
    requires c.Valid() && AllDecode(c, pubs) && |pubs| == |sigs|
    ensures var bytes := prefix + Ring(c, image, pubs, sigs, |pubs|);
            && |bytes| == |prefix| + 64 * |pubs| && bytes[..|prefix|] == prefix
            && forall i :: 0 <= i < |pubs| ==>
                 Holds(c, bytes, |prefix| + 64 * i, image, c.decode(pubs[i]).value,
                       c.group.Times(8, c.fromHash(c.hash(pubs[i]))), sigs[i])
  {
    hide Commitments, Curve.Valid, Ring, Holds, Group.Times;
    var ring := Ring(c, image, pubs, sigs, |pubs|);
    var bytes := prefix + ring;
    RingSlice(c, image, pubs, sigs, |pubs|, 0);
    forall i | 0 <= i < |pubs|
      ensures Holds(c, bytes, |prefix| + 64 * i, image, c.decode(pubs[i]).value,
                    c.group.Times(8, c.fromHash(c.hash(pubs[i]))), sigs[i])
    {
      RingSlice(c, image, pubs, sigs, |pubs|, i);
      assert bytes[|prefix| + 64 * i..|prefix| + 64 * i + 64] == ring[64 * i..64 * i + 64];
      CommitmentsHold(c, bytes, |prefix| + 64 * i, image, pubs[i], sigs[i]);
    }
  }

  /** The challenge of every member but the one left out counts, and counts once. */
  lemma {:induction false} EveryChallengeCounts(s: seq<Signature>, i: nat, x: Signature, n: nat, skip: int)
    requires i < |s| && n <= |s|
    ensures SumBut(s[i := x], n, skip) - SumBut(s, n, skip) ==
            if i < n && i != skip then LittleEndian(x.c) - LittleEndian(s[i].c) else 0
    ensures (forall j :: 0 <= j < |s| ==> LittleEndian(s[j].c) == 0) ==> SumBut(s, n, skip) == 0
    decreases n
  {
    hide LittleEndian;
    if n > 0 {
      EveryChallengeCounts(s, i, x, n - 1, skip);
    }
  }

  /** A running sum modulo l. */
  lemma SumStep(sum: seq<uint8>, part: int, x: seq<uint8>)
    requires LittleEndian(sum) == ModL(part)
    ensures |ScAdd(sum, x)| == 32 && LittleEndian(ScAdd(sum, x)) == ModL(part + LittleEndian(x))
  {
    hide LittleEndian, Reduced;
    ModAdds(part, LittleEndian(x));
  }

  lemma ModIsScalar(s: seq<uint8>, n: int)
    requires |s| == 32 && LittleEndian(s) == ModL(n)
    ensures IsScalar(s)
  {
    hide LittleEndian;
  }

  lemma NoSum()
    ensures |Reduced(0)| == 32 && LittleEndian(Reduced(0)) == ModL(0)
  {
    hide LittleEndian;
  }

  // ---------------------------------------------------------------------------
  // Generating
  // ---------------------------------------------------------------------------

  /** The signer's own commitments, made from k, are the ones checked, once the challenge and the response are known. */
  lemma SignerCloses<G(!new)>(c: Curve<G>, pub: seq<uint8>, sec: seq<uint8>, k: seq<uint8>, sig: Signature)
    requires c.Valid() && c.decode(pub) == Some(c.group.Times(LittleEndian(sec), c.base))
    requires sig.r == ScMulSub(sig.c, sec, k)
    ensures Commitments(c, c.group.Times(LittleEndian(sec), KeyPoint(c, pub)), pub, sig) ==
            OwnCommitments(c, pub, k)
  {
    hide LittleEndian, Group.Times, Group.Commutative, SM.BaseTable, SM.OddMultiples, KeyPoint, Reduced;
    var x := KeyPoint(c, pub);
    KeyPointOrder(c, pub);
    ResponseCloses(c.group, c.base, LittleEndian(sec), LittleEndian(k), LittleEndian(sig.c));
    ResponseCloses(c.group, x, LittleEndian(sec), LittleEndian(k), LittleEndian(sig.c));
    Commutes(c.group, c.group.Times(LittleEndian(sig.r), x),
             c.group.Times(LittleEndian(sig.c), c.group.Times(LittleEndian(sec), x)));
  }

  /** The commitments of the first n members, those of the signer given. */
  ghost function RingWith<G(!new)>(
    c: Curve<G>, image: G, pubs: seq<seq<uint8>>, sigs: seq<Signature>, n: nat, signer: nat,
    own: seq<uint8>): (s: seq<uint8>)
    requires AllDecode(c, pubs) && n <= |pubs| == |sigs|
  {
    if n == 0 then []
    else RingWith(c, image, pubs, sigs, n - 1, signer, own) +
         if n - 1 == signer then own else Commitments(c, image, pubs[n - 1], sigs[n - 1])
  }

  /** Neither the signer's entry nor later ones matter. */
  lemma {:induction false} RingWithFrame<G(!new)>(
    c: Curve<G>, image: G, pubs: seq<seq<uint8>>, s: seq<Signature>, t: seq<Signature>, n: nat, signer: nat,
    own: seq<uint8>)
    requires AllDecode(c, pubs) && n <= |pubs| == |s| == |t|
    requires forall i :: 0 <= i < n && i != signer ==> s[i] == t[i]
    ensures RingWith(c, image, pubs, s, n, signer, own) == RingWith(c, image, pubs, t, n, signer, own)
    ensures SumBut(s, n, signer) == SumBut(t, n, signer)
  {
    hide Commitments, LittleEndian;
    if n > 0 {
      RingWithFrame(c, image, pubs, s, t, n - 1, signer, own);
    }
  }

  lemma {:induction false} RingWithOwn<G(!new)>(
    c: Curve<G>, image: G, pubs: seq<seq<uint8>>, s: seq<Signature>, n: nat, signer: nat, own: seq<uint8>)
    requires AllDecode(c, pubs) && n <= |pubs| == |s| && signer < |s|
    requires own == Commitments(c, image, pubs[signer], s[signer])
    ensures RingWith(c, image, pubs, s, n, signer, own) == Ring(c, image, pubs, s, n)
    ensures SumBut(s, n, -1) == SumBut(s, n, signer) + if signer < n then LittleEndian(s[signer].c) else 0
  {
    hide Commitments, LittleEndian;
    if n > 0 {
      RingWithOwn(c, image, pubs, s, n - 1, signer, own);
    }
  }

  /** One more member. */
  lemma RingWithStep<G(!new)>(
    c: Curve<G>, image: G, pubs: seq<seq<uint8>>, s: seq<Signature>, t: seq<Signature>, i: nat, signer: nat,
    own: seq<uint8>)
    requires AllDecode(c, pubs) && i < |pubs| == |s| == |t|
    requires forall j :: 0 <= j < i ==> s[j] == t[j]
    ensures RingWith(c, image, pubs, t, i + 1, signer, own) ==
            RingWith(c, image, pubs, s, i, signer, own) +
            if i == signer then own else Commitments(c, image, pubs[i], t[i])
    ensures SumBut(t, i + 1, signer) == SumBut(s, i, signer) + if i == signer then 0 else LittleEndian(t[i].c)
  {
    hide Commitments, LittleEndian, AllDecode;
    RingWithFrame(c, image, pubs, s, t, i, signer, own);
  }

  method SignerCommitments<G(!new)>(c: Curve<G>, pub: seq<uint8>, k: seq<uint8>) returns (ab: seq<uint8>)
    requires c.Valid() && IsScalar(k)
    ensures ab == OwnCommitments(c, pub, k)
  {
    hide LittleEndian, Group.Times, Group.Commutative, SM.BaseTable, SM.OddMultiples, KeyPoint;
    TopBitIsClear(k);
    var tmp3 := SM.GeScalarMultBase(c.group, k, c.baseTable, c.base);
    ab := c.encode(tmp3);
    tmp3 := HashToEc(c, pub);
    var tmp2 := SM.GeScalarMult(c.group, k, tmp3);
    ab := ab + c.encode(tmp2);
  }

  ghost function OwnCommitments<G(!new)>(c: Curve<G>, pub: seq<uint8>, k: seq<uint8>): (s: seq<uint8>) {
    c.encode(c.group.Times(LittleEndian(k), c.base)) + c.encode(c.group.Times(LittleEndian(k), KeyPoint(c, pub)))
  }

  /** The signer's entry, added last, makes the ring close. */
  lemma RingCloses<G(!new)>(
    c: Curve<G>, prefix: seq<uint8>, image: seq<uint8>, pubs: seq<seq<uint8>>, sec: seq<uint8>, signer: nat,
    s: seq<Signature>, k: seq<uint8>, h: seq<uint8>, sum: seq<uint8>)
    requires c.Valid() && AllDecode(c, pubs) && signer < |pubs| == |s|
    requires pubs[signer] == PublicKey(c, sec) && image == KeyImage(c, pubs[signer], sec)
    requires forall j :: 0 <= j < |s| && j != signer ==> IsScalar(s[j].c) && IsScalar(s[j].r)
    requires var own := OwnCommitments(c, pubs[signer], k);
             var point := c.group.Times(LittleEndian(sec), KeyPoint(c, pubs[signer]));
             h == HashToScalar(c, prefix + RingWith(c, point, pubs, s, |s|, signer, own))
    requires LittleEndian(sum) == ModL(SumBut(s, |s|, signer))
    ensures var challenge := ScSub(h, sum);
            RingAccepted(c, prefix, image, pubs, s[signer := Signature(challenge, ScMulSub(challenge, sec, k))])
  {
    hide LittleEndian, Group.Times, Commitments, Reduced, KeyPoint, Ring, RingWith, SumBut, Curve.Valid, OwnCommitments,
         HashToScalar, PublicKey, KeyImage, AllDecode, ScSub, ScMulSub, ModL, AllScalars;
    var challenge := ScSub(h, sum);
    var t := s[signer := Signature(challenge, ScMulSub(challenge, sec, k))];
    var point := c.group.Times(LittleEndian(sec), KeyPoint(c, pubs[signer]));
    HashIsScalar(c, prefix + RingWith(c, point, pubs, s, |s|, signer, OwnCommitments(c, pubs[signer], k)));
    SignerJoins(c, pubs, sec, signer, s, k, t);
    ImageDecodes(c, pubs[signer], sec);
    ResultsAreScalars(h, sum, sec, k);
    OneMoreScalar(s, signer, t[signer]);
    RingSum(h, sum, t, signer);
  }

  /** The ring with the signer's entry filled in is the ring made with the signer's own commitments. */
  lemma SignerJoins<G(!new)>(
    c: Curve<G>, pubs: seq<seq<uint8>>, sec: seq<uint8>, signer: nat, s: seq<Signature>, k: seq<uint8>,
    t: seq<Signature>)
    requires c.Valid() && AllDecode(c, pubs) && signer < |pubs| == |s| && pubs[signer] == PublicKey(c, sec)
    requires |t| == |s| && t == s[signer := t[signer]] && t[signer].r == ScMulSub(t[signer].c, sec, k)
    ensures var point := c.group.Times(LittleEndian(sec), KeyPoint(c, pubs[signer]));
            Ring(c, point, pubs, t, |t|) == RingWith(c, point, pubs, s, |s|, signer, OwnCommitments(c, pubs[signer], k))
    ensures SumBut(t, |t|, signer) == SumBut(s, |s|, signer)
    ensures SumBut(t, |t|, -1) == SumBut(t, |t|, signer) + LittleEndian(t[signer].c)
  {
    hide LittleEndian, Group.Times, Commitments, KeyPoint, Ring, RingWith, SumBut, Curve.Valid, OwnCommitments,
         PublicKey, AllDecode, ScMulSub;
    var point, own := c.group.Times(LittleEndian(sec), KeyPoint(c, pubs[signer])), OwnCommitments(c, pubs[signer], k);
    PublicKeyDecodes(c, sec);
    RingWithFrame(c, point, pubs, s, t, |pubs|, signer, own);
    SignerCloses(c, pubs[signer], sec, k, t[signer]);
    RingWithOwn(c, point, pubs, t, |pubs|, signer, own);
  }

  lemma OneMoreScalar(s: seq<Signature>, signer: nat, own: Signature)
    requires signer < |s| && IsScalar(own.c) && IsScalar(own.r)
    requires forall j :: 0 <= j < |s| && j != signer ==> IsScalar(s[j].c) && IsScalar(s[j].r)
    ensures AllScalars(s[signer := own])
  {
    hide IsScalar;
  }

  lemma ResultsAreScalars(h: seq<uint8>, sum: seq<uint8>, sec: seq<uint8>, k: seq<uint8>)
    ensures IsScalar(ScSub(h, sum)) && IsScalar(ScMulSub(ScSub(h, sum), sec, k))
  {
    hide LittleEndian;
  }

  lemma RingSum(h: seq<uint8>, sum: seq<uint8>, t: seq<Signature>, signer: nat)
    requires IsScalar(h) && signer < |t| && t[signer].c == ScSub(h, sum)
    requires LittleEndian(sum) == ModL(SumBut(t, |t|, signer))
    requires SumBut(t, |t|, -1) == SumBut(t, |t|, signer) + LittleEndian(t[signer].c)
    ensures LittleEndian(h) == ModL(SumBut(t, |t|, -1))
  {
    hide LittleEndian, SumBut, ScSub;
    SubValue(h, sum);
    SumCloses(LittleEndian(h), LittleEndian(sum), SumBut(t, |t|, signer), LittleEndian(t[signer].c));
  }

  lemma SubValue(h: seq<uint8>, sum: seq<uint8>)
    ensures LittleEndian(ScSub(h, sum)) == (LittleEndian(h) - LittleEndian(sum)) % L
  {
    hide LittleEndian, Reduced;
  }

  lemma SumCloses(h: int, sum: int, part: int, d: int)
    requires 0 <= h < L && sum == part % L && d == (h - sum) % L
    ensures (part + d) % L == h
  {
    var q, p := part / L, (h - sum) / L;
    assert part + d == L * (q - p) + h;
    DivModUnique(part + d, L, q - p, h);
  }

  lemma HashIsScalar<G(!new)>(c: Curve<G>, data: seq<uint8>)
    ensures IsScalar(HashToScalar(c, data))
  {
    hide LittleEndian;
  }

  lemma PublicKeyDecodes<G(!new)>(c: Curve<G>, sec: seq<uint8>)
    requires c.Valid()
    ensures c.decode(PublicKey(c, sec)) == Some(c.group.Times(LittleEndian(sec), c.base))
  {
    hide LittleEndian, Group.Times, Group.Commutative, SM.BaseTable, SM.OddMultiples;
  }

  lemma ImageDecodes<G(!new)>(c: Curve<G>, pub: seq<uint8>, sec: seq<uint8>)
    requires c.Valid()
    ensures c.decode(KeyImage(c, pub, sec)) == Some(c.group.Times(LittleEndian(sec), KeyPoint(c, pub)))
  {
    hide LittleEndian, Group.Times, Group.Commutative, SM.BaseTable, SM.OddMultiples, KeyPoint;
  }

  lemma EmptyRing<G(!new)>(c: Curve<G>, image: G, pubs: seq<seq<uint8>>, s: seq<Signature>, signer: nat,
                           own: seq<uint8>)
    requires AllDecode(c, pubs) && |pubs| == |s|
    ensures RingWith(c, image, pubs, s, 0, signer, own) == [] && SumBut(s, 0, signer) == 0
  {
  }

  /** The random scalars are parameters: k for the signer, and a challenge and a response for every other member. Every
      ring, every place in it: what is generated is accepted. */
  method GenerateRingSignature<G(!new)>(
    c: Curve<G>, prefix: seq<uint8>, image: seq<uint8>, pubs: seq<seq<uint8>>, sec: seq<uint8>, secIndex: nat,
    sig: array<Signature>, k: seq<uint8>, random: seq<Signature>)
    requires c.Valid() && AllDecode(c, pubs) && secIndex < |pubs| == sig.Length == |random|
    requires IsScalar(sec) && pubs[secIndex] == PublicKey(c, sec) && image == KeyImage(c, pubs[secIndex], sec)
    requires IsScalar(k) && AllScalars(random)
    modifies sig
    ensures RingAccepted(c, prefix, image, pubs, sig[..])
  {
    hide LittleEndian, Commitments, Reduced, KeyPoint, Ring, RingWith, SumBut, RingAccepted, OwnCommitments, KeyImage,
         SM.BaseTable, SM.OddMultiples, Group.Commutative, Group.Times, ModL, ScAdd;
    ImageDecodes(c, pubs[secIndex], sec);
    var imageUnp := c.decode(image).value;
    var imagePre := SM.DsmPrecomp(c.group, imageUnp);
    var sum, buf := Reduced(0), prefix;
    ghost var own := OwnCommitments(c, pubs[secIndex], k);
    EmptyRing(c, imageUnp, pubs, sig[..], secIndex, own);
    NoSum();
    for i := 0 to |pubs|
      invariant forall j :: 0 <= j < i && j != secIndex ==> IsScalar(sig[j].c) && IsScalar(sig[j].r)
      invariant buf == prefix + RingWith(c, imageUnp, pubs, sig[..], i, secIndex, own)
      invariant |sum| == 32 && LittleEndian(sum) == ModL(SumBut(sig[..], i, secIndex))
    {
      ghost var before := sig[..];
      var ab;
      if i == secIndex {
        ab := SignerCommitments(c, pubs[i], k);
      } else {
        sig[i] := random[i];
        ab := MemberCommitments(c, imageUnp, imagePre, pubs[i], sig[i]);
        SumStep(sum, SumBut(before, i, secIndex), sig[i].c);
        sum := ScAdd(sum, sig[i].c);
      }
      RingWithStep(c, imageUnp, pubs, before, sig[..], i, secIndex, own);
      buf := buf + ab;
    }
    var h := Reduced(LittleEndian(c.hash(buf)));
    var challenge := ScSub(h, sum);
    RingCloses(c, prefix, image, pubs, sec, secIndex, sig[..], k, h, sum);
    sig[secIndex] := Signature(challenge, ScMulSub(challenge, sec, k));
  }
}
