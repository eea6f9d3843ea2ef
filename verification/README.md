# Verified models of the lira (CryptoNote) core

This project models, in Dafny 4.11, the parts of the repository where most can go wrong between the code and what it is for,
and proves what the code promises. Hash functions are arbitrary functions, random numbers are parameters, and machine
integers have their widths written out wherever they matter.

* **Field and curve arithmetic** (`FieldElement`, `FieldEncoding`, `Congruences`, `PrimeField`, `CurveEquation`, `Completeness`,
  `PointArithmetic`). Ten-limb arithmetic modulo P = 2^255 - 19 with every intermediate value in an `int32` or `int64`; the exact
  quotient of `fe_tobytes`; point formulas that, in runs of any length, do not overflow, compute the addition law and keep the
  equations of the curve -x^2 + y^2 = 1 + d x^2 y^2. That no denominator ever vanishes, so that points go to points, is proved
  from two hypotheses about the field (`PointArithmetic.FieldHypotheses`): P is prime and d is not a square modulo P. That -1 is a
  square is checked on the constant of the code.
* **Scalars** (`Slide`, `Scalars`, `ScalarMult`, over any commutative group of `Groups`). The in-place width-5 recoding of
  `slide`, the signed radix-16 recodings, and the four scalar multiplications built on them.
* **Keys and ring signatures** (`Keys`, `RingSignature`, `Soundness`, `Residues`). Key derivation, signatures and ring signatures
  over any group with the orders of the curve's; `Residues` shows that these hypotheses can be met. What is generated is
  accepted. What is accepted is bound to its message, and two answers to one commitment give away the secret key and show that
  the key image is its image; this rests on l being prime (`Soundness.LIsPrime`). That a hash depends on its input is stated by
  changing an arbitrary hash function at one string.
* **Merkle trees** (`BitSets`, `Merkle`, `TreeHash`). Rounding, root, depth, branch and the root from a branch.
* **Concurrent queue** (`BlockingQueues`, `GroupCloses`). The critical sections as code, the interleavings as a state machine.
* **Codecs** (`Varint`, `IntUtil`, `Numerals`, `Base58`, `Address`, `AesTables`, `AesBlock`, `Aes`, `AesContext`). Variable-length
  integers, base 58 with its 64-bit overflow test, addresses, and AES with chaining and padding. The cipher, its S-box and its key
  schedule are those of FIPS 197, byte by byte.
* **Two stateful refinements** (`Shuffles`, `BlockIndices`). The sparse shuffle and the block index with its thinning history.

`Words` holds bytes, powers of two and the bitwise operators, `Wrappers` optional values and buffers.
`dafny verify dfyconfig.toml` checks everything.

## What the code does that its documentation does not say

* `fe_tobytes` states that the quotient is at most one in absolute value. The stated limb bounds also admit -2
  (`FieldEncoding.QuotientCanBeMinusTwo`), exactly for values below -P (`FieldEncoding.QuotientBelowMinusOne`). The result is the
  canonical representative all the same (`FieldEncoding.FeToBytes`).
* `fe_add` and `fe_sub` are documented for inputs up to 1.1 \* 2^25. `ge_madd` and `ge_msub` give them 2Z, which keeps that bound if
  and only if Z keeps half of it (`PointArithmetic.Twice`). `ge_add` and `ge_sub` give them twice the product of the two Z, which
  keeps it if and only if the product keeps half of it (`PointArithmetic.TwiceProductWithin`). When a table
  entry or (0 : 1 : 1 : 0) is added to the tight point (0 : 20000000 : 20000000 : 0) they do not
  (`PointArithmetic.OperandExceedsBound`). `ge_p2_dbl` gives them Y^2 + X^2 and Y^2 - X^2, which keep it
  if and only if the limbs of the two squares do together (`PointArithmetic.SumAndDifference`); for X = Y = 5000 they do not
  (`PointArithmetic.DoublingExceedsBound`). The results stay within 1.515 \* 2^26 all the same, which `fe_mul` accepts
  (`PointArithmetic.Combine`).
* `slide` loses the carry out of place 255 for some numbers of 2^255 or more, 2^255 + 2^251 among them. The sum of its digits
  is then short by 2^256. `Slide.RecodingIsExact` says exactly when: if at some odd place all bits from the fourth after it on are
  ones when the window there borrows. It never happens below 2^255.
* The rounding loop of `tree_hash` stops at the size of a word in bytes. It keeps every set bit of count - 1 whose eight higher
  neighbours are clear. The result is the power of two intended if and only if only the highest bit is such: for all counts
  from 3 to 513, not for 514. Otherwise the last hashes have no influence on the root (`TreeHash.OnlyCoveredHashesMatter`), and the
  root from the branch is another one (`TreeHash.RootsAgreeExactly`).
* `read_varint` returns the bytes read when the input ends inside a number. `decode_addr` therefore accepts a payload in which
  every byte announces another, which `encode_addr` produces for no tag. `Address.OpensExactly`: an accepted address is one that
  was encoded if and only if some byte of its payload is below 80 hex.
* The comment in `decode_block` says that `order` never overflows. It does in the last turn of a full block and nowhere else
  (`Base58.NextOrder`). The result is not used there.
* `oaes_decrypt` looks for the padding in front of its buffer when the header announces padding and no data follows the vector;
  the model stops there with `OutOfBoundsRead`. `Aes.OutOfBoundsExactly` and `AesContext.Context.Decrypt` give the exact condition,
  `Aes.HeaderAloneIsOutOfBounds` the texts. `oaes_encrypt` produces none of them.
* `getBlockIds` computes `startHeight + maxCount` modulo 2^64. If the sum wraps it returns no ids (`BlockIndices.StopIsFull`).
* `GroupClose::close` can decrement the counter below zero. Some run of n calls does so if and only if n is larger than the group
  and the group is not empty (`GroupCloses.BelowZeroExactly`); two calls do it for a group of one
  (`GroupCloses.CounterBelowZero`). It still closes the queue once, unless there are 2^64 further decrements
  (`GroupCloses.ClosesAtLastDecrement`).

## Model

| member | source | states |
|---|---|---|
| FieldElement.FeMul | src/crypto/crypto-ops.c:319-569 | for all limbs within 1.65\*2^26 and 1.65\*2^25: no int32 or int64 intermediate overflows, the result is within 1.01\*2^25 and 1.01\*2^24, and it is congruent to the product modulo 2^255-19 |
| FieldElement.ConvolutionIsProduct | src/crypto/crypto-ops.c:374-497 | the ten sums of limb products, with the factors 2 and 19, make the product of the two values modulo P |
| FieldElement.ReducedIsCongruent | src/crypto/crypto-ops.c:516-557 | the chain of twelve carries keeps the value modulo P |
| FieldElement.CarryChain | src/crypto/crypto-ops.c:508-557 | every carry of the chain stays in range, and the limbs end within the output bounds |
| FieldElement.FeSq | src/crypto/crypto-ops.c:633-762 | the 55 products of squaring give limb for limb what multiplication gives |
| FieldElement.ProductIsUnique | src/crypto/crypto-ops.c:616-632 | fe_sq(f) and fe_mul(f, f) are the same limbs |
| FieldElement.FeSq2 | src/crypto/crypto-ops.c:781-921 | twice the square, in range, with the output bounds of fe_mul |
| FieldElement.FeAdd | src/crypto/crypto-ops.c:82-137 | the exact sum; bounds add up, without overflow while they do |
| FieldElement.FeSub | src/crypto/crypto-ops.c:923-978 | the exact difference; bounds add up |
| FieldElement.FeNeg | src/crypto/crypto-ops.c:573-614 | the exact negative, within the same bound |
| FieldEncoding.FeToBytes | src/crypto/crypto-ops.c:980-1097 | 32 bytes whose little-endian value is h modulo 2^255-19, in [0, 2^255-20] |
| FieldEncoding.Quotient | src/crypto/crypto-ops.c:1030-1040 | the nested floors compute floor(h/P) exactly |
| FieldEncoding.QuotientIsExact | src/crypto/crypto-ops.c:980-1005 | why: the error of the first estimate is less than what a floor can lose |
| FieldEncoding.QuotientBelowMinusOne | src/crypto/crypto-ops.c:990-990 | within the limb bounds floor(h/P) is -2 if and only if h is below -P, and at most one in absolute value otherwise |
| FieldEncoding.QuotientCanBeMinusTwo | src/crypto/crypto-ops.c:982-990 | ten limbs within the bounds whose quotient is -2 |
| FieldEncoding.Subtract | src/crypto/crypto-ops.c:1042-1056 | adding 19q and dropping the last carry subtracts qP and leaves limbs of full width |
| FieldEncoding.FeFromBytes | src/crypto/crypto-ops.c:1220-1273 | accepts exactly the bytes whose value without the top bit is below P, and gives limbs congruent to it within the bounds of fe_mul's output |
| PointArithmetic.CurveConstants | src/crypto/crypto-ops-data.c:11-13 | the limbs of d satisfy 121666 d = -121665, those of d2 are 2d, and those of sqrtm1 square to -1, modulo P |
| CurveEquation.SumIsOnCurve | src/crypto/crypto-ops.c:1101-1114 | the sum, by the formulas, of two points of the curve satisfies both equations of extended coordinates modulo P |
| CurveEquation.SumIsCompleted | src/crypto/crypto-ops.c:1101-1114 | so does what the formulas leave from y+x, y-x and 2d t1 t2 known only modulo P |
| CurveEquation.DoubleIsCompleted | src/crypto/crypto-ops.c:1385-1396 | so does what the doubling formula leaves |
| CurveEquation.AddedIsSum | src/crypto/crypto-ops.c:1101-1114 | what the formulas leave, converted, is the sum by the addition law: (e/g, h/f) with e = 2(x1 y2 + y1 x2), h = 2(y1 y2 + x1 x2), g, f = 2 z1 z2 +- 2d t1 t2 |
| CurveEquation.DoubledIsSum | src/crypto/crypto-ops.c:1385-1396 | what the doubling formula leaves, four times over, is the sum of a point of the curve with itself |
| Completeness.DenominatorsAreNonzero | src/crypto/crypto-ops.c:1101-1114 | if P is prime, d not a square and -1 a square, z1 z2 + d t1 t2 and z1 z2 - d t1 t2 are nonzero for all points of the curve |
| Completeness.AffineLaw | src/crypto/crypto-ops.c:1101-1114 | then the affine point of the sum is that of the law of section 5.1.4 of RFC 8032, whose denominators 1 +- d x1 y1 x2 y2 are nonzero |
| Completeness.AffineIsOnCurve | src/crypto/crypto-ops.c:1101-1114 | the affine point of extended coordinates on the curve satisfies the equation of the curve |
| PointArithmetic.P1P1ToP3 | src/crypto/crypto-ops.c:1364-1369 | tight limbs, X Y = Z T, and the equation of the curve if the completed point satisfies it |
| PointArithmetic.P1P1ToP2 | src/crypto/crypto-ops.c:1352-1356 | tight limbs congruent to X T, Y Z and Z T |
| PointArithmetic.P3ToCached | src/crypto/crypto-ops.c:1425-1430 | exact Y+X and Y-X within 2.02, and 2d T modulo P |
| PointArithmetic.Twice | src/crypto/crypto-ops.c:1319-1319 | z + z exactly, an operand within the bound fe_add is documented for if and only if z is within half of it |
| PointArithmetic.TwiceProductWithin | src/crypto/crypto-ops.c:1108-1109 | when two points are added it is so if and only if the product of the two Z, as fe_mul leaves it, is within half the bound |
| PointArithmetic.OperandExceedsBound | src/crypto/crypto-ops.c:1312-1326 | a tight point of the curve for which the operand exceeds the documented bound |
| PointArithmetic.SumAndDifference | src/crypto/crypto-ops.c:1392-1395 | the sum and the difference of two squares exactly; both are within the documented bound if and only if the limbs of the squares are so together |
| PointArithmetic.DoublingExceedsBound | src/crypto/crypto-ops.c:1385-1396 | tight coordinates whose squares are not |
| PointArithmetic.Combine | src/crypto/crypto-ops.c:1108-1114 | the four sums that end every formula are exact and within 1.515\*2^26 |
| PointArithmetic.GeAdd | src/crypto/crypto-ops.c:1101-1114 | the four completed coordinates modulo P, within the input bound of fe_mul |
| PointArithmetic.GeSub | src/crypto/crypto-ops.c:1567-1580 | the same with the negative of the second point |
| PointArithmetic.GeMadd | src/crypto/crypto-ops.c:1312-1326 | the same with a table entry |
| PointArithmetic.GeMsub | src/crypto/crypto-ops.c:1332-1346 | the same with the negative of a table entry |
| PointArithmetic.GeP2Dbl | src/crypto/crypto-ops.c:1385-1396 | 2XY, Y^2+X^2, Y^2-X^2 and 2Z^2-(Y^2-X^2) modulo P, within the input bound of fe_mul |
| PointArithmetic.AddPoints | src/crypto/crypto-ops.c:1101-1114 | the result is the sum by the addition law, with tight limbs; the equations are kept, and under the field hypotheses points (Z nonzero) go to points |
| PointArithmetic.SubPoints | src/crypto/crypto-ops.c:1567-1580 | the same for the sum with (-X2, Y2, Z2, -T2) |
| PointArithmetic.MaddPoint | src/crypto/crypto-ops.c:1312-1326 | the same for the sum with the affine point that the table entry holds |
| PointArithmetic.MsubPoint | src/crypto/crypto-ops.c:1332-1346 | the same for the sum with its negative |
| PointArithmetic.DoublePoint | src/crypto/crypto-ops.c:1413-1417 | a quarter, coordinate by coordinate, of the sum of the point with itself; equations and points are kept likewise |
| PointArithmetic.SumIsPoint | src/crypto/crypto-ops.c:1101-1114 | under the field hypotheses Z of every sum of two points is nonzero |
| PointArithmetic.SumIsAffineSum | src/crypto/crypto-ops.c:1101-1114 | under the field hypotheses the affine point of every sum, difference and double of points is the affine sum |
| PointArithmetic.PointIsAffine | src/crypto/crypto-ops.c:1101-1114 | under the field hypotheses every point has one affine point modulo P, and it is on the curve |
| PointArithmetic.Run | src/crypto/crypto-ops.c:1101-1580 | every sequence of additions, subtractions, table additions and doublings, of any length, keeps all limbs tight, computes in each step the sum asked for, keeps the equations of the curve, and under the field hypotheses leads from points only to points |
| Slide.Slide | src/crypto/crypto-ops.c:1118-1148 | the loops in place compute the recoding by the nearest odd digit, for every 32 bytes, without leaving the array |
| Slide.RecodingValue | src/crypto/crypto-ops.c:1118-1148 | the digits from any place on sum to what is left of the number there |
| Slide.RecodingIsExact | src/crypto/crypto-ops.c:1118-1148 | the digits sum to a if and only if no carry runs off the end: at no odd place i are the bits of the rest, from i + 4 on, all ones; otherwise they sum to a - 2^n; below 2^(n-1) none does |
| Slide.SlideShape | src/crypto/crypto-ops.c:1118-1148 | every digit is zero or odd in [-15,15], and a nonzero digit is followed by four zeros |
| Slide.DigitsAreSpaced | src/crypto/crypto-ops.c:1127-1147 | after a nonzero digit the next four are zero |
| Slide.CarryIsDropped | src/crypto/crypto-ops.c:1134-1141 | 2^(n-1) + 2^(n-5) loses its carry |
| Slide.AddCarry | src/crypto/crypto-ops.c:1135-1141 | the inner loop adds one at a place and changes nothing else; if and only if all bits from there on are ones it drops the carry and leaves zeros |
| Slide.CarryGuard | src/crypto/crypto-ops.c:1134-1141 | the inner loop meets only ones exactly at the places where that condition holds of what is left of the number |
| ScalarMult.DsmPrecomp | src/crypto/crypto-ops.c:1150-1162 | the odd multiples s, 3s, ..., 15s in any commutative group |
| ScalarMult.DoubleScalarMult | src/crypto/crypto-ops.c:1171-1210 | a A + b B for a[31], b[31] <= 127; in general with the values of the two recodings |
| ScalarMult.SlidIsValue | src/crypto/crypto-ops.c:1978-2017 | for a[31] <= 127 the recoding has the value of a |
| ScalarMult.RecodeNibbles | src/crypto/crypto-ops.c:1527-1542 | 64 digits in [-8,8] whose radix-16 sum is a, for every a with a[31] <= 127 |
| ScalarMult.CarryNibbles | src/crypto/crypto-ops.c:1534-1542 | the carry loop keeps the sum and leaves digits in [-8,8] |
| ScalarMult.Select | src/crypto/crypto-ops.c:1490-1508 | the eight conditional moves and the negation select b times the point |
| ScalarMult.GeScalarMultBase | src/crypto/crypto-ops.c:1519-1559 | a B from the table of 256^i multiples, odd digits first and sixteenfold |
| ScalarMult.RadixByPairs | src/crypto/crypto-ops.c:1544-1558 | the radix-16 sum is the even digits plus sixteen times the odd ones, both in radix 256 |
| ScalarMult.RecodeBytes | src/crypto/crypto-ops.c:1925-1936 | 64 digits in [-8,8] whose radix-16 sum is a, carrying from byte to byte |
| ScalarMult.GeScalarMult | src/crypto/crypto-ops.c:1918-1976 | a A for every a with a[31] <= 127 in any commutative group |
| Scalars.ScCheck | src/crypto/crypto-ops.c:2877-2891 | 0 for a value below l and -1 for any other |
| Scalars.Weighted | src/crypto/crypto-ops.c:2890-2890 | the weighted sum of eight signs compares the whole number with l |
| Scalars.Reduced | src/crypto/crypto-ops.c:1596-1606 | 32 bytes of value n mod l, the top bit clear |
| Keys.ScIsNonzero | src/crypto/crypto-ops.c:2893-2898 | 0 exactly for the value zero |
| Keys.GeMul8 | src/crypto/crypto-ops.c:2019-2026 | eight times the point |
| Keys.SecretKeyToPublicKey | src/crypto/crypto.cpp:75-83 | refuses exactly the scalars not below l, and gives s B |
| Keys.GenerateKeyDerivation | src/crypto/crypto.cpp:85-98 | refuses exactly the keys that do not decode, and gives the point (8 s) P |
| Keys.DerivationIsShared | src/crypto/crypto.h:155-165 | both parties' derivations coincide, for all secret keys |
| Keys.DerivationToScalar | src/crypto/crypto.cpp:100-110 | the hash of the derivation followed by the index, modulo l; the index takes at most ten bytes |
| Keys.DerivePublicKey | src/crypto/crypto.cpp:112-130 | P + h B with h the hash of derivation and index modulo l, or failure exactly when the key does not decode |
| Keys.UnderivePublicKey | src/crypto/crypto.cpp:140-158 | P - h B with the same h, or failure exactly when the key does not decode |
| Keys.DeriveAndUnderive | src/crypto/crypto.h:167-173 | each undoes the other, for every key that decodes |
| Keys.DeriveSecretKey | src/crypto/crypto.cpp:132-138 | s + h mod l with the same h, a canonical scalar |
| Keys.DerivedKeysMatch | src/crypto/crypto.h:155-165 | the public key of the derived secret key is the key derived from the public key |
| Keys.DerivationBytesAreUnique | src/crypto/crypto.cpp:100-110 | what is hashed tells the derivation and the index: the bytes are equal if and only if both are |
| Keys.DerivedKeysDiffer | src/crypto/crypto.cpp:100-138 | for any two derivations or indices some hash, changed at one string, gives different scalars, public keys and secret keys |
| Keys.ResponseCloses | src/crypto/crypto.cpp:187-187 | a response k - c s mod l makes c (s x) + r x equal to k x for every x of order l |
| Keys.GenerateSignature | src/crypto/crypto.cpp:166-188 | what it returns is accepted, for every key pair, message hash and random scalar |
| Keys.CheckSignature | src/crypto/crypto.cpp:190-209 | accepts exactly canonical scalars whose c is, modulo l, the hash of prefix, key and the encoding of c P + r B, which follow one another in the bytes hashed |
| Keys.OtherMessageIsRefused | src/crypto/crypto.cpp:190-209 | for every accepted signature and every other prefix some hash, changed at one string, still accepts the one and refuses the other |
| Keys.ChallengesDiffer | src/crypto/crypto.cpp:160-164 | for any two different prefixes, keys or commitments some hash tells the challenges apart |
| Keys.SignedBytesAreUnique | src/crypto/crypto.cpp:160-164 | the bytes hashed tell prefix, key and commitment |
| Keys.TwoAnswers | src/crypto/crypto.cpp:204-204 | c p + r x = c' p + r' x gives (c' - c) p = (r - r') x, in any commutative group |
| Soundness.SignatureGivesKey | src/crypto/crypto.cpp:190-209 | two signatures with one commitment and different challenges give x with 8 P = 8 x B, and P = x B if P has order l |
| Soundness.KeyIsTheSecret | src/crypto/crypto.cpp:190-209 | and x is the secret key modulo l |
| RingSignature.KeyPointOrder | src/crypto/crypto.cpp:211-219 | the point a key is hashed to has order l |
| RingSignature.HashToEc | src/crypto/crypto.cpp:211-219 | eight times the point that the hash of the key is mapped to |
| RingSignature.GenerateKeyImage | src/crypto/crypto.cpp:221-228 | 8 s times the point that the hash of the public key is mapped to |
| RingSignature.GenerateRingSignature | src/crypto/crypto.cpp:244-304 | for every ring size, secret index, message hash and random scalars, the signature written is accepted |
| RingSignature.SignerCloses | src/crypto/crypto.cpp:280-303 | the signer's commitments made from k are those checked |
| RingSignature.RingCloses | src/crypto/crypto.cpp:301-303 | the entry written last makes the challenges sum to the hash modulo l |
| RingSignature.CheckRingSignature | src/crypto/crypto.cpp:306-344 | accepts exactly when the image decodes, all scalars are canonical and the hash is, modulo l, the sum of the challenges; hashed are the prefix and for every member 64 bytes, which decode to c P + r B and r H(P) + c I |
| RingSignature.CheckMembers | src/crypto/crypto.cpp:324-340 | the loop ends early exactly at a scalar that is not canonical, and gathers all commitments and the sum of the challenges modulo l |
| RingSignature.RingSlice | src/crypto/crypto.cpp:230-242 | the bytes of member i stand at 64 i |
| RingSignature.EveryChallengeCounts | src/crypto/crypto.cpp:339-339 | changing one challenge changes the sum by the difference, for every member |
| Soundness.SameCommitments | src/crypto/crypto.cpp:334-338 | two answers (c, r), (c', r') of a member to the same commitments give (c' - c) P = (r - r') B and (c' - c) I = (r - r') H(P) |
| Soundness.RingGivesKey | src/crypto/crypto.cpp:306-344 | special soundness: two accepted ring signatures with the same commitments, the hash changed, give a member and an x with 8 P = 8 x B and 8 I = 8 x H(P), without the 8 where the orders are l |
| Soundness.ImageIsBound | src/crypto/crypto.cpp:306-344 | if s is the secret key of that member then 8 I = 8 s H(P), and an image of order l is the key image generated for s |
| Soundness.OtherMessageIsRefusedByRing | src/crypto/crypto.cpp:306-344 | for every accepted ring signature and every other prefix some hash, changed at one string, still accepts the one and refuses the other |
| Soundness.KeyPointsAreFree | src/crypto/crypto.cpp:211-219 | the points two different keys are hashed to are eight times any two points, for some hash and map |
| Residues.ResidueCurveIsValid | src/crypto/crypto-ops-data.c:15-15 | the hypotheses about group, orders, base point, tables and encoding hold of the residues modulo 8l |
| TreeHash.RoundDown | src/crypto/tree-hash.c:20-25 | the loops compute the set bits whose eight higher neighbours are clear |
| TreeHash.RoundedShape | src/crypto/tree-hash.c:20-25 | for every count the highest bit is kept, the one below it cleared, and nothing added |
| TreeHash.RoundedIsPower | src/crypto/tree-hash.c:20-25 | the result is the power of two intended if and only if no lower bit is isolated |
| TreeHash.SmallCountsRoundWell | src/crypto/tree-hash.c:20-25 | so it is for all counts from 3 to 513 |
| TreeHash.Count514RoundsBadly | src/crypto/tree-hash.c:20-25 | and not for 514 |
| TreeHash.TreeHash | src/crypto/tree-hash.c:12-40 | for every count the level-by-level loop in place gives the root of the recursive tree over the rounded row |
| TreeHash.FoldRow | src/crypto/tree-hash.c:34-36 | no hash is overwritten before it is read: the row becomes the row of parents |
| TreeHash.HashedFringe | src/crypto/tree-hash.c:26-38 | which leading hashes that tree covers, for every count |
| TreeHash.HashedTreeIsMerkleTree | src/crypto/tree-hash.c:12-40 | the tree holds all hashes in order, the first 2cnt-count one level higher, if and only if the count rounds well |
| TreeHash.MerkleTreeFringe | src/crypto/tree-hash.c:55-84 | the tree of the branch holds all hashes in order, for every count |
| TreeHash.TreeDepth | src/crypto/tree-hash.c:42-53 | floor of log2, for every 64-bit count |
| TreeHash.HighestPower | src/crypto/tree-hash.c:61-66 | the largest power of two not above the count, no shift overflowing |
| TreeHash.TreeBranch | src/crypto/tree-hash.c:55-84 | the digests beside the path to the first hash, from the root down, for every count; the rest of the array is unchanged |
| TreeHash.TreeHashFromBranch | src/crypto/tree-hash.c:86-112 | with or without a path, the root rebuilt from leaf and siblings |
| Merkle.SiblingsRebuildRoot | src/crypto/tree-hash.c:86-112 | for every tree, every leaf and every hash the siblings rebuild the root |
| TreeHash.BranchRebuildsMerkleRoot | src/crypto/tree-hash.c:55-112 | the branch of the first hash rebuilds the root of the tree of all hashes, for every count |
| TreeHash.BranchRebuildsHashedRoot | src/crypto/tree-hash.c:12-112 | and the root of tree_hash, for counts 1 and 2, up to 513, and all that round well |
| TreeHash.OtherwiseHashesAreLeftOut | src/crypto/tree-hash.c:12-112 | for every other count the hashed tree lacks the last hashes, and the tree of the branch holds them |
| TreeHash.OnlyCoveredHashesMatter | src/crypto/tree-hash.c:12-40 | for every count the root depends only on the leading hashes that the tree covers, which are all if and only if the count is 1 or 2 or rounds well |
| TreeHash.RootsDiffer | src/crypto/tree-hash.c:12-112 | for every other count, and any two values a hash can have, there are a hash function and hashes for which the two roots differ |
| TreeHash.RootsAgreeExactly | src/crypto/tree-hash.c:12-112 | for hashes of any type with two values, the two roots agree for every hash function and all hashes if and only if the count is 1 or 2 or rounds well |
| TreeHash.LastTwoOf514 | src/crypto/tree-hash.c:12-40 | 514 hashes and any two others in the last two places have the same root, for every hash |
| BlockingQueues.StepKeepsInv | src/common/BlockingQueue.h:22-73 | no lost wake-up is kept by every step, barging and spurious wakes included |
| BlockingQueues.PushedKeepsInv | src/common/BlockingQueue.h:22-37 | an accepted push wakes as many poppers as it adds items |
| BlockingQueues.PoppedKeepsInv | src/common/BlockingQueue.h:39-60 | a pop makes up for the space it frees, and wakes everybody when it empties a closed queue |
| BlockingQueues.StepEffect | src/common/BlockingQueue.h:22-73 | what each return says about the items and the closed flag |
| BlockingQueues.RunKeeps | src/common/BlockingQueue.h:22-73 | in every run: the invariant, and items accepted = items handed out, in order, then the queue |
| BlockingQueues.ClosedForGood | src/common/BlockingQueue.h:62-73 | once closed nothing more is accepted, ever |
| BlockingQueues.RefusedPopIsLast | src/common/BlockingQueue.h:42-47 | pop returns false only when closed and every item that will ever be accepted has been handed out |
| BlockingQueues.WaitedCloseIsLast | src/common/BlockingQueue.h:62-73 | close(true) returns only on an empty closed queue |
| BlockingQueues.NobodyIsStuck | src/common/BlockingQueue.h:22-73 | if all threads in calls sleep, poppers do so at an empty and pushers at a full open queue, closers at a closed queue with items |
| BlockingQueues.PushIsAnswered | src/common/BlockingQueue.h:22-37 | a push is accepted by an open queue with room, refused by a closed one, and sleeps at a full open one; the first two end the call |
| BlockingQueues.PopIsAnswered | src/common/BlockingQueue.h:39-60 | a pop hands out the first item, closed or not; without one it is refused by a closed queue and sleeps at an open one |
| BlockingQueues.CloseIsAnswered | src/common/BlockingQueue.h:62-73 | a close sleeps if and only if it is to wait and there are items, and returns in the same step otherwise |
| BlockingQueues.SleepsForCause | src/common/BlockingQueue.h:22-73 | in every run a push sleeps only at a full open queue, a pop at an empty open one, a close only if it waits and there are items |
| BlockingQueues.CloseReturnsAtOnce | src/common/BlockingQueue.h:62-73 | in every run no thread is ever asleep or woken in close(false), which returns in its first step |
| BlockingQueues.BlockingQueue.PushSection | src/common/BlockingQueue.h:22-37 | the critical sections of push are exactly the push steps |
| BlockingQueues.BlockingQueue.PopSection | src/common/BlockingQueue.h:39-60 | the critical sections of pop are exactly the pop steps |
| BlockingQueues.BlockingQueue.CloseSection | src/common/BlockingQueue.h:62-73 | the first critical section of close is a close step |
| BlockingQueues.BlockingQueue.CloseAgainSection | src/common/BlockingQueue.h:68-72 | the later ones look again whether the queue is empty |
| GroupCloses.RunKeepsInv | src/common/BlockingQueue.h:99-107 | the counter is groupSize less the decrements modulo 2^64, for every interleaving of the two halves of close |
| GroupCloses.ClosesAtLastDecrement | src/common/BlockingQueue.h:99-107 | the queue is closed for the groupSize-th decrement and for each 2^64 after it, and for no other |
| GroupCloses.ClosesOnce | src/common/BlockingQueue.h:99-107 | with at most groupSize calls: at most once, and exactly when all of them have decremented |
| GroupCloses.CounterIsExact | src/common/BlockingQueue.h:103-106 | the counter is what is left of the group if and only if there were no more decrements than the group is large |
| GroupCloses.BelowZeroExactly | src/common/BlockingQueue.h:103-106 | for every group size and every n, some run of n calls takes the counter below zero if and only if 0 < group size < n |
| GroupCloses.AllReadFirst | src/common/BlockingQueue.h:103-106 | the run in which n calls read the counter before any decrements it ends at 2^64-1 |
| GroupCloses.CounterBelowZero | src/common/BlockingQueue.h:103-106 | a run of two calls on a group of one that goes below zero and ends at 2^64-1 |
| GroupCloses.GroupClose.Load | src/common/BlockingQueue.h:103-104 | the first half of close is a load step |
| GroupCloses.GroupClose.FetchSub | src/common/BlockingQueue.h:105-106 | the second half is a decrement step, and tells whether it was the last |
| Varint.WriteVarint | src/common/varint.h:15-23 | the one canonical encoding of the number |
| Varint.ReadVarint | src/common/varint.h:33-56 | the outcome of the recursive reading, errors included, and a value below 2^bits |
| Varint.RoundTrip | src/common/varint.h:15-56 | reading what was written gives it back, whatever follows, if it fits in bits, and -1 otherwise |
| Varint.Canonical | src/common/varint.h:33-56 | what is accepted and terminated is what is written for the value; what is accepted unterminated is all continuation bytes |
| Varint.AcceptsExactlyWritten | src/common/varint.h:33-56 | reading ends terminated if and only if the input starts with an encoding of a fitting value |
| Varint.TerminatedExactly | src/common/varint.h:33-56 | an accepted reading is terminated if and only if some byte of the input is below 80 hex |
| Varint.EncodedLength | src/common/varint.h:15-23 | a value below 2^(7k) takes at most k bytes |
| Varint.EncodedByte | src/common/varint.h:15-23 | byte k holds bits 7k to 7k + 6 of the number and, in its top bit, whether another follows |
| Varint.EncodedIsShortest | src/common/varint.h:15-23 | fewer bytes would not hold the number |
| IntUtil.Mul128 | src/common/int-util.h:47-71 | the exact 128-bit product, all 64-bit sums and shifts wrapping |
| IntUtil.DivWithReminder | src/common/int-util.h:73-77 | quotient and remainder of the dword below an earlier remainder |
| IntUtil.Div128By32 | src/common/int-util.h:80-95 | exact quotient in two words and exact remainder |
| Base58.ReverseAlphabet | src/common/base58.cpp:28-53 | the table gives for every character its place in the alphabet, or -1 |
| Base58.DecodedBlockSizes | src/common/base58.cpp:55-78 | the table inverts the block sizes, -1 elsewhere |
| Base58.SymbolOfLetter | src/common/base58.cpp:21-22 | the letters are distinct: looking up a letter gives its place |
| Base58.LettersExactly | src/common/base58.cpp:21-21 | a character is a letter of the alphabet if and only if it is an ASCII letter or digit other than 0, I, O and l |
| Base58.Capacity | src/common/base58.cpp:23-25 | every number of n bytes has as many base-58 digits as its block |
| Base58.SizesAreLeast | src/common/base58.cpp:23-25 | 256^n <= 58^m if and only if m is at least the size of the block of n bytes |
| Base58.Uint8beTo64 | src/common/base58.cpp:80-99 | the big-endian value of up to eight bytes |
| Base58.Uint64To8be | src/common/base58.cpp:101-107 | the last bytes of the big-endian form |
| Base58.EncodeBlock | src/common/base58.cpp:109-122 | the fixed-width base-58 numeral, written back from its end without leaving its block; nothing else changes |
| Base58.DecodeBlock | src/common/base58.cpp:124-155 | accepts exactly valid lengths and symbols with a value below 256^n, and gives the bytes |
| Base58.Accumulate | src/common/base58.cpp:140-143 | the test of carry and high word is exact: it fails if and only if the sum needs more than 64 bits |
| Base58.NextOrder | src/common/base58.cpp:146-146 | the order of the next digit fits in 64 bits except after the eleventh |
| Base58.BlockRoundTrip | src/common/base58.cpp:109-155 | an encoded block is accepted and decodes to its bytes |
| Base58.BlockInverse | src/common/base58.cpp:109-155 | an accepted block is the encoding of what it decodes to |
| Base58.BlockValue | src/common/base58.cpp:109-122 | a block of bytes in base 256 and its letters in base 58, most significant first, are the same number |
| Base58.EncodedByBlocks | src/common/base58.cpp:158-179 | whole blocks are encoded apart from what follows them |
| Base58.Encode | src/common/base58.cpp:158-179 | the blocks one after the other, for every byte string |
| Base58.Decode | src/common/base58.cpp:181-211 | accepts exactly texts of accepted blocks, and gives their bytes |
| Base58.Bijection | src/common/base58.cpp:158-211 | encode(d) = e if and only if e is accepted and decode(e) = d |
| Address.EncodeAddr | src/common/base58.cpp:213-221 | tag, data and the first four bytes of the hash of both, in base 58 |
| Address.DecodeAddr | src/common/base58.cpp:223-243 | accepts exactly texts of a payload with its checksum and a readable tag, and gives tag and data |
| Address.RoundTrip | src/common/base58.cpp:213-243 | for every 64-bit tag, data and hash, decoding gives both back |
| Address.SealedExactly | src/common/base58.cpp:223-243 | any bytes and four more open if and only if these are the first of the hash of all the bytes before and a tag can be read |
| Address.OpensExactly | src/common/base58.cpp:223-243 | an accepted address is the one encoded for its tag and data if and only if some byte of its payload is below 80 hex |
| Address.UnterminatedIsAccepted | src/common/base58.cpp:238-239 | the payload of the one byte 80 hex is accepted and is the address of no tag |
| AesTables.SubByteInverse | src/crypto/oaes_lib.c:75-113 | the inverse S-box undoes the S-box, for every byte |
| AesTables.InvSubByteInverse | src/crypto/oaes_lib.c:75-113 | and the S-box undoes the inverse S-box |
| AesTables.SubByteIsAffineReciprocal | src/crypto/oaes_lib.c:75-93 | section 5.1.1 of FIPS 197: every nonzero byte has a reciprocal in the field, the S-box is the affine map of it, and 0 goes to 63 hex |
| AesTables.MulTable2 | src/crypto/oaes_lib.c:115-133 | the table is multiplication by 2 in the field of FIPS 197 |
| AesTables.MulTable3 | src/crypto/oaes_lib.c:135-153 | the table is multiplication by 3 |
| AesTables.MulTable9 | src/crypto/oaes_lib.c:155-173 | the table is multiplication by 9 |
| AesTables.MulTableB | src/crypto/oaes_lib.c:175-193 | the table is multiplication by 11 |
| AesTables.MulTableD | src/crypto/oaes_lib.c:195-213 | the table is multiplication by 13 |
| AesTables.MulTableE | src/crypto/oaes_lib.c:215-233 | the table is multiplication by 14 |
| AesTables.TablesAreProducts | src/crypto/oaes_lib.c:115-233 | the six tables are products in the field |
| AesTables.MixColumnAt | src/crypto/oaes_lib.c:386-404 | section 5.1.3 of FIPS 197: each byte of a mixed column as a combination of the four |
| AesTables.MixColumnInverse | src/crypto/oaes_lib.c:386-423 | the inverse mixing undoes the mixing of every column |
| AesBlock.CipherInverse | src/crypto/oaes_lib.c:980-1211 | decrypting a block undoes encrypting it, under any expanded key of any number of rounds |
| AesBlock.ShiftRowsAt | src/crypto/oaes_lib.c:295-349 | row r is shifted by r columns, and back |
| AesBlock.StartByte | src/crypto/oaes_lib.c:980-1024 | section 5.1 of FIPS 197 byte by byte: the first round key is added |
| AesBlock.RoundByte | src/crypto/oaes_lib.c:1015-1060 | in every round but the last bytes are substituted, shifted and mixed, and the round key is added |
| AesBlock.LastByte | src/crypto/oaes_lib.c:1060-1092 | in the last they are not mixed |
| AesBlock.EncryptBlock | src/crypto/oaes_lib.c:980-1095 | the loops in place compute the cipher whose bytes StartByte, RoundByte and LastByte give |
| AesBlock.DecryptBlock | src/crypto/oaes_lib.c:1097-1211 | the loops in place compute the inverse cipher |
| Aes.AllInverse | src/crypto/oaes_lib.c:1256-1386 | decrypting all blocks undoes encrypting them, chained or not |
| Aes.ChainedBlock | src/crypto/oaes_lib.c:1256-1280 | section 6.2 of NIST SP 800-38A: block j is the cipher of block j of the message, xored when chained with block j - 1 of the cipher text or the vector |
| Aes.UnpadPadded | src/crypto/oaes_lib.c:1388-1406 | the padding is recognised and taken off exactly |
| Aes.UnpadExactly | src/crypto/oaes_lib.c:1388-1406 | what is taken off is one to fifteen bytes that count up from one, and anything else fails |
| Aes.PaddedAt | src/crypto/oaes_lib.c:1263-1265 | the padding counts up from one to the next whole block |
| Aes.HeaderIsRead | src/crypto/oaes_lib.c:1247-1250 | the header written is valid and gives back mode and padding flag |
| Aes.HeaderAcceptsExactly | src/crypto/oaes_lib.c:1317-1360 | a header is accepted if and only if its first nine bytes are those written for one of the modes and flags |
| Aes.Layout | src/crypto/oaes_lib.c:1245-1254 | where name, version, type, options, flag, vector and data stand |
| Aes.RoundTrip | src/crypto/oaes_lib.c:1213-1409 | for every message length, expanded key, vector and mode, decrypting gives the message back |
| Aes.OutOfBoundsExactly | src/crypto/oaes_lib.c:1388-1398 | the padding is looked for in front of the buffer if and only if it is announced and no data follows the vector |
| Aes.HeaderAloneIsOutOfBounds | src/crypto/oaes_lib.c:1388-1398 | a header that announces padding and a vector make such a text |
| AesContext.KeyExpand | src/crypto/oaes_lib.c:527-584 | for 16, 24 and 32 bytes the key schedule of section 5.2 of FIPS 197, of 11, 13 and 15 round keys |
| AesContext.ScheduleByte | src/crypto/oaes_lib.c:545-581 | the schedule byte by byte: turned, substituted and a power of x added, substituted, or as it is |
| AesContext.RconIsPower | src/crypto/oaes_lib.c:72-73 | the round constants are the powers of x in the field |
| AesContext.EncryptInPlace | src/crypto/oaes_lib.c:1256-1280 | the loop over a buffer that already holds the message encrypts it in place and leaves the vector after the last block |
| AesContext.ChainsOn | src/crypto/oaes_lib.c:1277-1278 | the vector left makes the next text chain on: both come to the same as one |
| AesContext.DecryptInPlace | src/crypto/oaes_lib.c:1367-1386 | the loop over a buffer that holds the cipher text decrypts it in place |
| AesContext.FindPad | src/crypto/oaes_lib.c:1391-1398 | finds exactly the padding that counts up to the last byte |
| AesContext.Context.SetOption | src/crypto/oaes_lib.c:916-978 | the mode and the vector that goes with it |
| AesContext.Context.KeyImportData | src/crypto/oaes_lib.c:797-847 | accepts exactly 16, 24 and 32 bytes |
| AesContext.Context.Encrypt | src/crypto/oaes_lib.c:1213-1283 | the size needed, each error, and on success the encrypted message; the rest of the buffer is unchanged |
| AesContext.Context.Decrypt | src/crypto/oaes_lib.c:1285-1409 | each error, and on success the message, the padding cleared; the rest of the buffer is unchanged; it reads in front of its buffer if and only if padding is announced and there is no data |
| Shuffles.Conserved | src/common/ShuffleGenerator.h:17-43 | for all picks, what is handed out and what is left is what there was |
| Shuffles.EachValueOnce | src/common/ShuffleGenerator.h:17-43 | n draws hand out each value below n exactly once, fewer draws none twice |
| Shuffles.PicksAreTold | src/common/ShuffleGenerator.h:17-43 | different picks hand out different values |
| Shuffles.EveryOrderIsReached | src/common/ShuffleGenerator.h:17-43 | every order of the values is handed out for some picks |
| Shuffles.SparseStep | src/common/ShuffleGenerator.h:28-40 | one entry of the map makes the step of the dense shuffle |
| Shuffles.SparseIsDense | src/common/ShuffleGenerator.h:17-43 | for every map, count and picks the sparse shuffle hands out what the dense one does |
| Shuffles.StaleEntries | src/common/ShuffleGenerator.h:17-43 | generators that differ only in entries at or above the count hand out the same values for all picks |
| Shuffles.ShuffleGenerator.Draw | src/common/ShuffleGenerator.h:17-43 | refines the dense shuffle pick by pick, with at most one entry per draw; None at the end |
| Shuffles.ShuffleGenerator.Reset | src/common/ShuffleGenerator.h:45-48 | as new |
| BlockIndices.HeightsDescend | src/cryptonote_core/BlockIndex.cpp:38-65 | the history is strictly descending and contains genesis exactly once, last |
| BlockIndices.HistoryIsShort | src/cryptonote_core/BlockIndex.cpp:38-65 | it has at most 12 + log2(size) ids |
| BlockIndices.StepsDouble | src/cryptonote_core/BlockIndex.cpp:38-65 | it starts at the last block, goes back by one ten times, and then by twice the step before |
| BlockIndices.FindsCommonBlock | src/cryptonote_core/BlockIndex.cpp:28-65 | the search succeeds, at a common height, no further from the end of the chain than twice the last common block |
| BlockIndices.BlockIndex.GetShortChainHistory | src/cryptonote_core/BlockIndex.cpp:38-65 | the loop appends exactly that history |
| BlockIndices.BlockIndex.FindSupplement | src/cryptonote_core/BlockIndex.cpp:28-36 | the height of the first id known, or nothing if none is |
| BlockIndices.FindCommonBlock | src/cryptonote_core/BlockIndex.cpp:28-65 | run on two indices, the history of one and the search in the other give a common height within twice the distance of the last common block |
| BlockIndices.BlockIndex.GetBlockIds | src/cryptonote_core/BlockIndex.cpp:16-25 | the ids up to where the wrapped bound stops |
| BlockIndices.StopIsFull | src/cryptonote_core/BlockIndex.cpp:20-20 | all ids asked for and available if and only if the bound does not wrap, none otherwise |
| BlockIndices.BlockIndex.GetBlockId | src/cryptonote_core/BlockIndex.cpp:10-14 | the only id of the list whose place is the height; the zero id exactly for a height out of range, unless it is in the list itself |
| BlockIndices.BlockIndex.GetTailId | src/cryptonote_core/BlockIndex.cpp:67-71 | the only id of the list with none after it; the zero id exactly for the empty list, unless it is in the list itself |
| BlockIndices.BlockIndex.Push | src/cryptonote_core/BlockIndex.h:27-30 | appends an id that is not there yet, and tells whether; the index stays exact |
| BlockIndices.BlockIndex.Pop | src/cryptonote_core/BlockIndex.h:22-24 | takes the last id off; the index stays exact |
| BlockIndices.BlockIndex.HasBlock | src/cryptonote_core/BlockIndex.h:32-34 | whether the id is in the list |
| BlockIndices.BlockIndex.GetBlockHeight | src/cryptonote_core/BlockIndex.h:36-43 | the only place of the id in the list, if it is there |
| BlockIndices.BlockIndex.Clear | src/cryptonote_core/BlockIndex.h:49-51 | empty |

## Left out

- Scalars.Reduced: stands for sc_reduce, sc_reduce32, sc_add, sc_sub and sc_mulsub, whose bodies are long straight lines of carries; they are taken as the results modulo l that their comments state.
- Group laws: the scalar multiplications and protocols take the points as a commutative group; that the curve's addition is associative is not proved, only that the formulas compute the addition law and lead from points to points.
- Facts about the field: that P is prime and that d is not a square modulo P are hypotheses (PointArithmetic.FieldHypotheses).
- The order of the base point: that l is prime is a hypothesis where keys are extracted (Soundness.LIsPrime).
- Decoding points: square roots, fe_invert and fe_divpowm1 are not modelled; Keys.Curve takes encoding and decoding of points as inverse to each other.
- Precomputed tables: the contents of ge_base and ge_Bi are taken to be the multiples their comments say.
- Hashes: Keccak, BLAKE, Groestl, JH, Skein and CryptoNight are arbitrary functions.
- Random numbers: scalars, initialisation vectors and shuffle picks are parameters; no distribution is claimed.
- Liveness of the queue: fairness of the scheduler is not modelled; NobodyIsStuck says that nobody sleeps without need.
- Address space: lengths of lists and buffers are below 2^64 where the code computes with them in size_t, and getShortChainHistory's offsets are not wrapped.
- Null pointers and failing allocations: not modelled, except for the null output buffers that ask for a size.
- Constant time: select and cmov are modelled by what they compute.
- Networking, wallet, RPC, serialization, difficulty and reward code, and the vendored miniupnpc: not modelled.
