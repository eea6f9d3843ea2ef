/** The Merkle tree of a list of hashes, its root and its branches (src/crypto/tree-hash.c), for any hash of two
    hashes. */
module TreeHash {
  import opened Wrappers
  import opened Words
  import opened BitSets
  import opened Merkle

  // ---------------------------------------------------------------------------
  // Rounding down to a power of two
  // ---------------------------------------------------------------------------

  /** A bit whose eight higher neighbours are clear. */
  predicate Isolated(x: nat, b: nat) {
    Bit(x, b) && !AnyBit(x, b + 1, b + 9)
  }

  predicate AnyBit(x: nat, lo: nat, hi: nat) {
    exists b :: lo <= b < hi && Bit(x, b)
  }

  lemma IsAnyBit(x: nat, b: nat, lo: nat, hi: nat)
    ensures Bit(x, b) && lo <= b < hi ==> AnyBit(x, lo, hi)
  {
  }

  lemma AnyBitHalf(x: nat, lo: nat, hi: nat)
    requires lo > 0 && hi > 0
    ensures AnyBit(x, lo, hi) <==> AnyBit(x / 2, lo - 1, hi - 1)
  {
    if b :| lo <= b < hi && Bit(x, b) {
      assert Bit(x / 2, b - 1);
    }
    if b :| lo - 1 <= b < hi - 1 && Bit(x / 2, b) {
      assert Bit(x, b + 1);
    }
  }

  /** The isolated bits of x. */
  function Rounded(x: nat): (r: nat)
  {
    if x == 0 then 0 else (if Isolated(x, 0) then 1 else 0) + 2 * Rounded(x / 2)
  }

  lemma {:induction false} RoundedBits(x: nat, b: nat)
    ensures Bit(Rounded(x), b) <==> Isolated(x, b)
    decreases b
  {
    if x == 0 {
      NoBits(b);
    } else if b > 0 {
      RoundedBits(x / 2, b - 1);
      AnyBitHalf(x, b + 1, b + 9);
    }
  }

  lemma {:induction false} NoBits(b: nat)
    ensures !Bit(0, b)
  {
    if b > 0 {
      NoBits(b - 1);
    }
  }

  /** The rounding loop, which stops at the size of a word in bytes where it should stop at its size in bits. */
  method RoundDown(x: nat) returns (cnt: nat)
    ensures cnt == Rounded(x)
  {
    cnt := x;
    var i := 1;
    while i < 8
      invariant i in {1, 2, 4, 8}
      invariant Smeared(x, i, cnt)
    {
      SmearStep(x, i, cnt);
      cnt := Or(cnt, Shr(cnt, i));
      i := i * 2;
    }
    LastStep(x, cnt);
    cnt := AndNot(cnt, Shr(cnt, 1));
  }

  /** Every bit of x spread over the i bits that end with it. */
  ghost predicate Smeared(x: nat, i: nat, cnt: nat) {
    forall b: nat :: Bit(cnt, b) <==> AnyBit(x, b, b + i)
  }

  lemma SmearStep(x: nat, i: nat, cnt: nat)
    requires Smeared(x, i, cnt)
    ensures Smeared(x, 2 * i, Or(cnt, Shr(cnt, i)))
  {
    hide Bit, Or, Shr;
    var next := Or(cnt, Shr(cnt, i));
    forall b: nat
      ensures Bit(next, b) <==> AnyBit(x, b, b + 2 * i)
    {
      BitOr(cnt, Shr(cnt, i), b);
      BitShr(cnt, i, b);
      assert Bit(cnt, b + i) <==> AnyBit(x, b + i, b + i + i);
    }
  }

  lemma LastStep(x: nat, cnt: nat)
    requires Smeared(x, 8, cnt)
    ensures AndNot(cnt, Shr(cnt, 1)) == Rounded(x)
  {
    hide Bit, AndNot, Shr, Rounded;
    var last := AndNot(cnt, Shr(cnt, 1));
    forall b: nat
      ensures Bit(last, b) <==> Bit(Rounded(x), b)
    {
      BitAndNot(cnt, Shr(cnt, 1), b);
      BitShr(cnt, 1, b);
      RoundedBits(x, b);
      assert AnyBit(x, b, b + 8) <==> Bit(x, b) || AnyBit(x, b + 1, b + 8);
    }
    SameBits(last, Rounded(x));
  }

  /** No set bit below the highest has its eight higher neighbours clear. */
  ghost predicate RoundsWell(x: nat) {
    forall b: nat :: Isolated(x, b) ==> x < Pow2(b + 1)
  }

  /** Whatever x, its highest bit is kept and the bit under it dropped, and nothing is added. */
  lemma RoundedShape(x: nat)
    requires x >= 2
    ensures var k := Log2(x);
            k >= 1 && Pow2(k) <= Rounded(x) <= x && Shr(Rounded(x), k - 1) == 2
  {
    hide Bit, Rounded, Shr;
    var k, r := Log2(x), Rounded(x);
    forall b: nat
      ensures Bit(r, b) ==> Bit(x, b)
      ensures b >= k - 1 ==> (Bit(r, b) <==> b == k)
    {
      RoundedBits(x, b);
      HighBits(x, b);
    }
    SubsetIsLess(r, x);
    forall b: nat
      ensures Bit(Shr(r, k - 1), b) <==> Bit(2, b)
    {
      BitShr(r, k - 1, b);
      assert Pow2(1) == 2;
      BitsOfPower(1, b);
    }
    SameBits(Shr(r, k - 1), 2);
    ShrIsBelow(r, k - 1, 1);
  }

  lemma HighBits(x: nat, b: nat)
    requires x >= 2
    ensures Log2(x) >= 1 && (b >= Log2(x) - 1 ==> (Isolated(x, b) <==> b == Log2(x)))
  {
    hide Bit;
    var k := Log2(x);
    TopBit(x, k);
    assert b + 1 == k ==> AnyBit(x, b + 1, b + 9);
    forall c: nat | c > k
      ensures !Bit(x, c)
    {
      Pow2Monotone(k + 1, c);
      if Bit(x, c) {
        BitIsLarge(x, c);
      }
    }
  }

  /** The result is a power of two if and only if no lower bit is isolated. */
  lemma RoundedIsPower(x: nat)
    requires x >= 2
    ensures Rounded(x) == Pow2(Log2(x)) <==> RoundsWell(x)
  {
    hide Bit, Rounded;
    var k := Log2(x);
    forall b: nat
      ensures Bit(Rounded(x), b) <==> Isolated(x, b)
      ensures Bit(Pow2(k), b) <==> b == k
      ensures x < Pow2(b + 1) <==> b >= k
    {
      RoundedBits(x, b);
      BitsOfPower(k, b);
      AboveTop(x, b);
    }
    HighBits(x, k);
    if RoundsWell(x) {
      forall b: nat
        ensures Bit(Rounded(x), b) <==> Bit(Pow2(k), b)
      {
        HighBits(x, b);
      }
      SameBits(Rounded(x), Pow2(k));
    }
  }

  lemma AboveTop(x: nat, b: nat)
    requires x > 0
    ensures x < Pow2(b + 1) <==> b >= Log2(x)
  {
    hide Pow2;
    if b >= Log2(x) {
      Pow2Monotone(Log2(x) + 1, b + 1);
    } else {
      Pow2Monotone(b + 1, Log2(x));
    }
  }

  /** Every number up to 512 rounds well, so every count up to 513. */
  lemma SmallCountsRoundWell(x: nat)
    requires 2 <= x <= 512
    ensures RoundsWell(x)
  {
    hide Bit;
    var k := Log2(x);
    assert Pow2(9) == 512;
    forall b: nat | Isolated(x, b)
      ensures x < Pow2(b + 1)
    {
      AboveTop(x, b);
      TopBit(x, k);
      AboveTop(x, 8);
      IsAnyBit(x, k, b + 1, b + 9);
      if x == 512 {
        BitsOfPower(9, b);
        AboveTop(x, 9);
      }
    }
  }

  /** 513 does not: its lowest bit is isolated too. */
  lemma Count514RoundsBadly()
    ensures Rounded(513) == 513 && !RoundsWell(513)
  {
    hide Bit;
    forall b: nat
      ensures Bit(513, b) <==> b in {0, 9}
    {
      BitsOf513(b);
    }
    forall b: nat
      ensures Bit(Rounded(513), b) <==> Bit(513, b)
    {
      RoundedBits(513, b);
      assert AnyBit(513, b + 1, b + 9) ==> b + 1 <= 9 < b + 9;
    }
    SameBits(Rounded(513), 513);
    RoundedBits(513, 0);
    assert Pow2(0 + 1) == 2;
  }

  lemma BitsOf513(b: nat)
    ensures Bit(513, b) <==> b in {0, 9}
  {
    assert Pow2(8) == 256;
    hide Bit;
    if b == 0 {
      NextBit(513, 0);
    } else {
      NextBit(513, b - 1);
      BitsOfPower(8, b - 1);
    }
  }

  lemma NextBit(x: nat, b: nat)
    ensures Bit(x, b + 1) <==> Bit(x / 2, b)
    ensures Bit(x, 0) <==> x % 2 == 1
  {
  }

  // ---------------------------------------------------------------------------
  // The tree
  // ---------------------------------------------------------------------------

  /** A row of cnt trees over all the hashes: as many single leaves as it takes, then pairs of leaves. */
  function Slots<T>(hashes: seq<T>, cnt: nat): (row: seq<Tree<T>>)
    requires cnt <= |hashes| <= 2 * cnt
    ensures |row| == cnt
  {
    var single := 2 * cnt - |hashes|;
    seq(cnt, j requires 0 <= j < cnt =>
      if j < single then Leaf(hashes[j]) else Node(Leaf(hashes[2 * j - single]), Leaf(hashes[2 * j - single + 1])))
  }

  /** The number of leaves under the first j trees of that row. */
  function Under(count: nat, cnt: nat, j: nat): (n: int) {
    if j <= 2 * cnt - count then j else 2 * j - (2 * cnt - count)
  }

  lemma {:induction false} SlotsFringe<T>(hashes: seq<T>, cnt: nat, j: nat)
    requires cnt <= |hashes| <= 2 * cnt && j <= cnt
    ensures 0 <= Under(|hashes|, cnt, j) <= |hashes|
    ensures Fringes(Slots(hashes, cnt)[..j]) == hashes[..Under(|hashes|, cnt, j)]
  {
    if j > 0 {
      var row := Slots(hashes, cnt);
      SlotsFringe(hashes, cnt, j - 1);
      assert row[..j] == row[..j - 1] + [row[j - 1]];
      FringesAppend(row[..j - 1], [row[j - 1]]);
      assert [row[j - 1]][1..] == [];
      assert Fringes([row[j - 1]]) == Fringe(row[j - 1]);
      SlotFringe(hashes, cnt, j - 1);
      var lo, hi := Under(|hashes|, cnt, j - 1), Under(|hashes|, cnt, j);
      assert hashes[..hi] == hashes[..lo] + hashes[lo..hi];
    }
  }

  lemma SlotFringe<T>(hashes: seq<T>, cnt: nat, j: nat)
    requires cnt <= |hashes| <= 2 * cnt && j < cnt
    ensures 0 <= Under(|hashes|, cnt, j) <= Under(|hashes|, cnt, j + 1) <= |hashes|
    ensures Fringe(Slots(hashes, cnt)[j]) == hashes[Under(|hashes|, cnt, j)..Under(|hashes|, cnt, j + 1)]
  {
    var single := 2 * cnt - |hashes|;
    if j >= single {
      assert Fringe(Slots(hashes, cnt)[j]) == [hashes[2 * j - single]] + [hashes[2 * j - single + 1]];
    }
  }

  /** The tree over all the hashes in order, of height Log2(count) or, towards the right, one more. */
  function MerkleTree<T>(hashes: seq<T>): (t: Tree<T>)
    requires |hashes| > 0
  {
    var k := Log2(|hashes|);
    Perfect(Slots(hashes, Pow2(k)), k)
  }

  lemma MerkleTreeFringe<T>(hashes: seq<T>)
    requires |hashes| > 0
    ensures Fringe(MerkleTree(hashes)) == hashes
  {
    var cnt := Pow2(Log2(|hashes|));
    PerfectFringe(Slots(hashes, cnt), Log2(|hashes|));
    SlotsFringe(hashes, cnt, cnt);
    assert hashes[..|hashes|] == hashes;
    assert Slots(hashes, cnt)[..cnt] == Slots(hashes, cnt);
  }

  /** The tree whose root tree_hash computes. */
  function HashedTree<T>(hashes: seq<T>): (t: Tree<T>)
    requires |hashes| > 0
  {
    if |hashes| == 1 then Leaf(hashes[0])
    else if |hashes| == 2 then Node(Leaf(hashes[0]), Leaf(hashes[1]))
    else
      RoundedShape(|hashes| - 1);
      Perfect(Slots(hashes, Rounded(|hashes| - 1)), Log2(|hashes| - 1))
  }

  /** What the hashed tree covers: a prefix of the hashes. */
  lemma HashedFringe<T>(hashes: seq<T>)
    requires |hashes| > 2
    ensures var cnt, top := Rounded(|hashes| - 1), Pow2(Log2(|hashes| - 1));
            0 <= Under(|hashes|, cnt, top) <= |hashes| &&
            Fringe(HashedTree(hashes)) == hashes[..Under(|hashes|, cnt, top)]
  {
    var cnt, k := Rounded(|hashes| - 1), Log2(|hashes| - 1);
    RoundedShape(|hashes| - 1);
    PerfectFringe(Slots(hashes, cnt), k);
    SlotsFringe(hashes, cnt, Pow2(k));
  }

  /** Every hash has its place in the hashed tree if and only if the count rounds well; otherwise the last hashes have
      none. */
  lemma HashedTreeIsMerkleTree<T>(hashes: seq<T>)
    requires |hashes| > 2
    ensures RoundsWell(|hashes| - 1) <==> HashedTree(hashes) == MerkleTree(hashes)
    ensures RoundsWell(|hashes| - 1) <==> Fringe(HashedTree(hashes)) == hashes
  {
    hide RoundsWell, Rounded, Log2, Perfect, Fringe, Slots;
    var x := |hashes| - 1;
    RoundedShape(x);
    RoundedIsPower(x);
    HashedFringe(hashes);
    MerkleTreeFringe(hashes);
    if RoundsWell(x) {
      GoodTree(hashes);
    }
  }

  lemma GoodTree<T>(hashes: seq<T>)
    requires |hashes| > 2 && Rounded(|hashes| - 1) == Pow2(Log2(|hashes| - 1))
    ensures HashedTree(hashes) == MerkleTree(hashes)
  {
    hide Rounded, Perfect, Slots, Pairs;
    var k := Log2(|hashes| - 1);
    RoundedShape(|hashes| - 1);
    if |hashes| < Pow2(k + 1) {
      Log2IsUnique(|hashes|, k);
    } else {
      Log2IsUnique(|hashes|, k + 1);
      PairsOfSlots(hashes, Pow2(k));
      PerfectOfPairs(Slots(hashes, Pow2(k + 1)), k);
    }
  }

  lemma PairsOfSlots<T>(hashes: seq<T>, cnt: nat)
    requires |hashes| == 2 * cnt
    ensures Pairs(Slots(hashes, 2 * cnt)) == Slots(hashes, cnt)
  {
  }

  lemma SmallTrees<T>(hashes: seq<T>)
    requires 1 <= |hashes| <= 2
    ensures HashedTree(hashes) == MerkleTree(hashes)
  {
    if |hashes| == 2 {
      assert Slots(hashes, 2) == [Leaf(hashes[0]), Leaf(hashes[1])];
    }
  }

  // ---------------------------------------------------------------------------
  // The loops
  // ---------------------------------------------------------------------------

  /** Folds a row of digests into the row of their parents, in place. */
  method FoldRow<T>(h: (T, T) -> T, ints: array<T>, ghost row: seq<Tree<T>>, cnt: nat)
    requires 2 * cnt <= |row| <= ints.Length && cnt == |row| / 2 && ints[..|row|] == Digests(h, row)
    modifies ints
    ensures ints[..cnt] == Digests(h, Pairs(row))
  {
    ghost var before := ints[..];
    assert before[..|row|] == ints[..|row|];
    var i := 0;
    for j := 0 to cnt
      invariant i == 2 * j
      invariant forall k :: 0 <= k < j ==> ints[k] == h(before[2 * k], before[2 * k + 1])
      invariant forall k :: j <= k < ints.Length ==> ints[k] == before[k]
    {
      ints[j] := h(ints[i], ints[i + 1]);
      i := i + 2;
    }
    FoldedRow(h, row, before, ints[..]);
  }

  lemma FoldedRow<T>(h: (T, T) -> T, row: seq<Tree<T>>, before: seq<T>, after: seq<T>)
    requires |row| <= |before| == |after| && before[..|row|] == Digests(h, row)
    requires forall k :: 0 <= k < |row| / 2 ==> after[k] == h(before[2 * k], before[2 * k + 1])
    ensures after[..|row| / 2] == Digests(h, Pairs(row))
  {
    forall j | 0 <= j < |row| / 2
      ensures after[j] == Digests(h, Pairs(row))[j]
    {
      DigestsOfPairs(h, row, j);
      assert before[2 * j] == before[..|row|][2 * j] && before[2 * j + 1] == before[..|row|][2 * j + 1];
    }
  }

  /** The digests of the bottom row, single leaves copied and pairs hashed. */
  method BottomRow<T>(h: (T, T) -> T, hashes: seq<T>, cnt: nat) returns (ints: array<T>)
    requires 0 < cnt <= |hashes| <= 2 * cnt
    ensures fresh(ints) && ints[..] == Digests(h, Slots(hashes, cnt))
  {
    var single := 2 * cnt - |hashes|;
    ints := new T[cnt](_ => hashes[0]);
    for k := 0 to single
      invariant forall j :: 0 <= j < k ==> ints[j] == hashes[j]
    {
      ints[k] := hashes[k];
    }
    var i := single;
    for j := single to cnt
      invariant i == 2 * j - single
      invariant forall k :: 0 <= k < j ==> ints[k] == Digest(h, Slots(hashes, cnt)[k])
    {
      ints[j] := h(hashes[i], hashes[i + 1]);
      i := i + 2;
    }
  }

  method TreeHash<T>(h: (T, T) -> T, hashes: seq<T>) returns (root: T)
    requires |hashes| > 0
    ensures root == Digest(h, HashedTree(hashes))
  {
    hide Digest, Perfect, Rounded, Slots, Log2, Shr, Pow2;
    if |hashes| == 1 {
      root := hashes[0];
      ShortDigests(h, hashes);
    } else if |hashes| == 2 {
      root := h(hashes[0], hashes[1]);
      ShortDigests(h, hashes);
    } else {
      var cnt := RoundDown(|hashes| - 1);
      RoundedShape(|hashes| - 1);
      RoundedIsAbove(|hashes| - 1);
      var ints := BottomRow(h, hashes, cnt);
      ghost var k, row := Log2(|hashes| - 1), Slots(hashes, cnt);
      while cnt > 2
        invariant |row| == cnt <= ints.Length && ints[..cnt] == Digests(h, row) && fresh(ints)
        invariant k >= 1 && Pow2(k) <= cnt && Shr(cnt, k - 1) == 2
        invariant Perfect(row, k) == HashedTree(hashes)
      {
        HalveCount(cnt, k);
        PerfectOfPairs(row, k - 1);
        cnt := cnt / 2;
        FoldRow(h, ints, row, cnt);
        row, k := Pairs(row), k - 1;
      }
      LastCount(cnt, k);
      assert ints[..cnt][0] == ints[0] && ints[..cnt][1] == ints[1];
      root := h(ints[0], ints[1]);
      LastPair(h, row);
    }
  }

  lemma RoundedIsAbove(x: nat)
    requires x >= 2
    ensures x < 2 * Rounded(x)
  {
    hide Rounded;
    RoundedShape(x);
  }

  lemma ShortDigests<T>(h: (T, T) -> T, hashes: seq<T>)
    requires 1 <= |hashes| <= 2
    ensures Digest(h, HashedTree(hashes)) == if |hashes| == 1 then hashes[0] else h(hashes[0], hashes[1])
  {
    if |hashes| == 2 {
      assert Digest(h, Leaf(hashes[0])) == hashes[0];
    }
  }

  lemma HalveCount(cnt: nat, k: nat)
    requires cnt > 2 && k >= 1 && Shr(cnt, k - 1) == 2 && Pow2(k) <= cnt
    ensures k >= 2 && Shr(cnt / 2, k - 2) == 2 && Pow2(k - 1) <= cnt / 2
  {
  }

  lemma LastCount(cnt: nat, k: nat)
    requires cnt <= 2 && k >= 1 && Shr(cnt, k - 1) == 2 && Pow2(k) <= cnt
    ensures cnt == 2 && k == 1
  {
  }

  lemma LastPair<T>(h: (T, T) -> T, row: seq<Tree<T>>)
    requires |row| == 2
    ensures Pow2(1) == 2 && Digest(h, Perfect(row, 1)) == h(Digests(h, row)[0], Digests(h, row)[1])
  {
    assert row[Pow2(0)..][0] == row[1];
  }

  // ---------------------------------------------------------------------------
  // Branches
  // ---------------------------------------------------------------------------

  /** The widths of the binary search for the highest bit of a 64-bit word. */
  ghost predicate Width(i: nat) {
    i in {0, 1, 2, 4, 8, 16, 32}
  }

  /** The bits that a search with widths i and below still covers. */
  ghost function Span(i: nat): (n: nat) {
    if i == 0 then 1 else 2 * i
  }

  method TreeDepth(count: uint64) returns (depth: nat)
    requires count > 0
    ensures depth == Log2(count)
  {
    hide Pow2, Shr, Log2, Width;
    var n: nat, i: nat := count, 32;
    depth := 0;
    StartOfSearch(count);
    while i > 0
      invariant Width(i) && 0 < n < Pow2(Span(i)) && n == Shr(count, depth)
    {
      SearchStep(count, depth, i);
      if Shr(n, i) > 0 {
        n := Shr(n, i);
        depth := depth + i;
      }
      i := i / 2;
    }
    DepthIsLog(count, depth);
  }

  lemma StartOfSearch(count: uint64)
    ensures Width(32) && count < Pow2(Span(32)) && count == Shr(count, 0)
  {
    hide Pow2;
    Pow2OfWords();
  }

  lemma SearchStep(count: nat, depth: nat, i: nat)
    requires i > 0 && Width(i) && 0 < Shr(count, depth) < Pow2(Span(i))
    ensures Width(i / 2)
    ensures var n := Shr(count, depth);
            if Shr(n, i) > 0 then Shr(n, i) == Shr(count, depth + i) < Pow2(Span(i / 2)) else n < Pow2(Span(i / 2))
  {
    hide Pow2, Shr;
    var n := Shr(count, depth);
    ShrIsBelow(n, i, i);
    ShrShr(count, depth, i);
    OnlyZeroIsBelowOne(n, i);
    assert Span(i) == i + i && Span(i / 2) == i;
  }

  lemma OnlyZeroIsBelowOne(n: nat, i: nat)
    ensures Shr(n, i) == 0 <==> n < Pow2(i)
  {
    hide Shr;
    ShrIsBelow(n, i, 0);
  }

  lemma DepthIsLog(n: nat, d: nat)
    requires 0 < Shr(n, d) < Pow2(1)
    ensures n > 0 && Log2(n) == d
  {
    hide Shr;
    ShrIsBelow(n, d, 1);
    ShrIsBelow(n, d, 0);
    Log2IsUnique(n, d);
  }

  /** The path that keeps left. */
  function Left(k: nat): (p: seq<bool>)
    ensures |p| == k
  {
    seq(k, _ => false)
  }

  lemma LeftStep(k: nat)
    requires k > 0
    ensures Left(k)[1..] == Left(k - 1) && !Left(k)[0]
  {
  }

  lemma {:induction false} LeftPath<T>(row: seq<Tree<T>>, k: nat)
    requires Pow2(k) <= |row| && row[0].Leaf?
    ensures IsPath(Perfect(row, k), Left(k)) && LeafAt(Perfect(row, k), Left(k)) == row[0].value
    decreases k
  {
    if k > 0 {
      LeftStep(k);
      LeftPath(row, k - 1);
    }
  }

  lemma FirstLeaf<T>(hashes: seq<T>)
    requires |hashes| > 0
    ensures IsPath(MerkleTree(hashes), Left(Log2(|hashes|))) &&
            LeafAt(MerkleTree(hashes), Left(Log2(|hashes|))) == hashes[0]
  {
    hide Perfect, LeafAt, IsPath, Log2, Left;
    LeftPath(Slots(hashes, Pow2(Log2(|hashes|))), Log2(|hashes|));
  }

  /** At height k above a row, the last sibling to the right of the left path is the second tree of the row. */
  lemma {:induction false} SiblingOfFirst<T>(h: (T, T) -> T, row: seq<Tree<T>>, k: nat, depth: nat)
    requires 1 <= k <= depth && Pow2(k) <= |row| && IsPath(Perfect(row, k), Left(depth))
    ensures Pow2(k) >= 2 && Siblings(h, Perfect(row, k), Left(depth))[k - 1] == Digest(h, row[1])
    decreases k
  {
    LeftStep(depth);
    if k == 1 {
      assert row[Pow2(0)..][0] == row[1];
    } else {
      SiblingOfFirst(h, row, k - 1, depth - 1);
    }
  }

  /** Writes the digests beside the path to the first hash; those of a row but the first are kept in ints. */
  method TreeBranch<T>(h: (T, T) -> T, hashes: seq<T>, branch: array<T>)
    requires 0 < |hashes| < TWO64 && branch.Length >= Log2(|hashes|)
    modifies branch
    ensures IsPath(MerkleTree(hashes), Left(Log2(|hashes|)))
    ensures branch[..Log2(|hashes|)] == Siblings(h, MerkleTree(hashes), Left(Log2(|hashes|)))
    ensures branch[Log2(|hashes|)..] == old(branch[Log2(|hashes|)..])
  {
    hide Log2, Perfect, Pow2, Siblings, IsPath, Left, Slots, Digests, Pairs;
    var cnt, depth := HighestPower(|hashes|);
    var ints := BottomRowButFirst(h, hashes, cnt);
    FirstLeaf(hashes);
    ghost var tree, k, row := MerkleTree(hashes), depth, Slots(hashes, cnt);
    ghost var sibs, untouched := Siblings(h, tree, Left(k)), branch[depth..];
    while depth > 0
      invariant 0 <= depth <= k && |row| == cnt == Pow2(depth) && tree == Perfect(row, depth)
      invariant cnt - 1 <= ints.Length && ints[..cnt - 1] == Digests(h, row)[1..] && fresh(ints)
      invariant branch[depth..k] == sibs[depth..]
      invariant branch[k..] == untouched
    {
      SiblingOfFirst(h, row, depth, k);
      HalvePower(depth);
      PerfectOfPairs(row, depth - 1);
      assert ints[..cnt - 1][0] == ints[0];
      ghost var after := branch[depth..k];
      cnt := cnt / 2;
      depth := depth - 1;
      branch[depth] := ints[0];
      assert branch[depth..k] == [ints[0]] + after;
      FoldRowButFirst(h, ints, row, cnt);
      row := Pairs(row);
    }
  }

  method HighestPower(count: uint64) returns (cnt: nat, depth: nat)
    requires count > 0
    ensures depth == Log2(count) && cnt == Pow2(depth) && count < 2 * cnt
  {
    hide Pow2, Log2;
    cnt, depth := 1, 0;
    var i: nat := 32;
    Pow2OfWords();
    OnePower();
    while i > 0
      invariant Width(i) && cnt == Pow2(depth) <= count < Pow2(depth + Span(i)) && depth + Span(i) <= 64
    {
      ShiftFits(depth, i);
      if cnt * Pow2(i) % TWO64 <= count {
        cnt := cnt * Pow2(i) % TWO64;
        depth := depth + i;
      }
      i := i / 2;
    }
    Log2IsUnique(count, depth);
    HalvePower(depth + 1);
  }

  lemma ShiftFits(depth: nat, i: nat)
    requires depth + i < 64
    ensures Pow2(depth) * Pow2(i) % TWO64 == Pow2(depth + i)
  {
    hide Pow2;
    Pow2OfWords();
    Pow2Adds(depth, i);
    Pow2Monotone(depth + i, 63);
    HalvePower(64);
  }

  lemma OnePower()
    ensures Pow2(0) == 1
  {
  }

  lemma HalvePower(d: nat)
    requires d > 0
    ensures Pow2(d) / 2 == Pow2(d - 1) && Pow2(d) % 2 == 0
  {
  }

  method BottomRowButFirst<T>(h: (T, T) -> T, hashes: seq<T>, cnt: nat) returns (ints: array<T>)
    requires 0 < cnt <= |hashes| < 2 * cnt
    ensures fresh(ints) && ints[..] == Digests(h, Slots(hashes, cnt))[1..]
  {
    var single := 2 * cnt - |hashes|;
    ints := new T[cnt - 1](_ => hashes[0]);
    for k := 0 to single - 1
      invariant forall j :: 0 <= j < k ==> ints[j] == hashes[j + 1]
    {
      ints[k] := hashes[k + 1];
    }
    var i := single;
    for j := single - 1 to cnt - 1
      invariant i == 2 * (j + 1) - single
      invariant forall k :: 0 <= k < j ==> ints[k] == Digest(h, Slots(hashes, cnt)[k + 1])
    {
      ints[j] := h(hashes[i], hashes[i + 1]);
      i := i + 2;
    }
  }

  method FoldRowButFirst<T>(h: (T, T) -> T, ints: array<T>, ghost row: seq<Tree<T>>, cnt: nat)
    requires 0 < |row| == 2 * cnt <= ints.Length + 1 && ints[..|row| - 1] == Digests(h, row)[1..]
    modifies ints
    ensures ints[..cnt - 1] == Digests(h, Pairs(row))[1..]
  {
    ghost var before := ints[..];
    assert before[..|row| - 1] == ints[..|row| - 1];
    var i := 1;
    for j := 0 to cnt - 1
      invariant i == 2 * j + 1
      invariant forall k :: 0 <= k < j ==> ints[k] == h(before[2 * k + 1], before[2 * k + 2])
      invariant forall k :: j <= k < ints.Length ==> ints[k] == before[k]
    {
      ints[j] := h(ints[i], ints[i + 1]);
      i := i + 2;
    }
    FoldedRowButFirst(h, row, before, ints[..]);
  }

  lemma FoldedRowButFirst<T>(h: (T, T) -> T, row: seq<Tree<T>>, before: seq<T>, after: seq<T>)
    requires 0 < |row| <= |before| + 1 && |before| == |after| && before[..|row| - 1] == Digests(h, row)[1..]
    requires |row| % 2 == 0
    requires forall k :: 0 <= k < |row| / 2 - 1 ==> after[k] == h(before[2 * k + 1], before[2 * k + 2])
    ensures after[..|row| / 2 - 1] == Digests(h, Pairs(row))[1..]
  {
    forall j | 0 <= j < |row| / 2 - 1
      ensures after[j] == Digests(h, Pairs(row))[1..][j]
    {
      DigestsOfPairs(h, row, j + 1);
      assert before[2 * j + 1] == before[..|row| - 1][2 * j + 1] && before[2 * j + 2] == before[..|row| - 1][2 * j + 2];
    }
  }

  /** The turns a path of packed bits makes; no path at all keeps left. */
  function Turns(path: Option<seq<uint8>>, depth: nat): (p: seq<bool>)
    requires path.Some? ==> depth <= 8 * |path.value|
    ensures |p| == depth
  {
    seq(depth, d requires 0 <= d < depth => path.Some? && Bit(path.value[d / 8] as int, d % 8))
  }

  /** Rebuilds the root from the leaf upwards in a buffer of two hashes. */
  method TreeHashFromBranch<T>(h: (T, T) -> T, branch: seq<T>, leaf: T, path: Option<seq<uint8>>) returns (root: T)
    requires path.Some? ==> |branch| <= 8 * |path.value|
    ensures root == Climb(h, branch, Turns(path, |branch|), leaf)
  {
    ghost var turns := Turns(path, |branch|);
    hide Turns, Bit;
    if |branch| == 0 {
      return leaf;
    }
    var buffer := new T[2](_ => leaf);
    var fromLeaf, depth := true, |branch|;
    while depth > 0
      invariant 0 <= depth <= |branch| && (fromLeaf <==> depth == |branch|) && fresh(buffer)
      invariant depth < |branch| ==> h(buffer[0], buffer[1]) == Climb(h, branch[depth..], turns[depth..], leaf)
    {
      depth := depth - 1;
      TurnAt(path, |branch|, depth);
      ClimbStep(h, branch, turns, leaf, depth);
      var right := path.Some? && Bit(path.value[depth / 8] as int, depth % 8);
      var leafPath, branchPath := if right then 1 else 0, if right then 0 else 1;
      if fromLeaf {
        buffer[leafPath] := leaf;
        fromLeaf := false;
      } else {
        buffer[leafPath] := h(buffer[0], buffer[1]);
      }
      buffer[branchPath] := branch[depth];
    }
    assert branch[0..] == branch && turns[0..] == turns;
    root := h(buffer[0], buffer[1]);
  }

  lemma TurnAt(path: Option<seq<uint8>>, n: nat, depth: nat)
    requires path.Some? ==> n <= 8 * |path.value|
    requires depth < n
    ensures Turns(path, n)[depth] <==> path.Some? && Bit(path.value[depth / 8] as int, depth % 8)
  {
  }

  lemma ClimbStep<T>(h: (T, T) -> T, branch: seq<T>, path: seq<bool>, leaf: T, d: nat)
    requires d < |branch| == |path|
    ensures var below := if d + 1 == |branch| then leaf else Climb(h, branch[d + 1..], path[d + 1..], leaf);
            Climb(h, branch[d..], path[d..], leaf) == if path[d] then h(branch[d], below) else h(below, branch[d])
  {
    assert branch[d..][1..] == branch[d + 1..] && path[d..][1..] == path[d + 1..];
  }

  lemma NoPathKeepsLeft(k: nat)
    ensures Turns(None, k) == Left(k)
  {
  }

  /** Whatever the hash: the branch of the first hash rebuilds the root of all the hashes, for every count. */
  lemma BranchRebuildsMerkleRoot<T>(h: (T, T) -> T, hashes: seq<T>)
    requires |hashes| > 0
    ensures var path := Turns(None, Log2(|hashes|));
            IsPath(MerkleTree(hashes), path) &&
            Climb(h, Siblings(h, MerkleTree(hashes), path), path, hashes[0]) == Digest(h, MerkleTree(hashes))
  {
    hide Climb, Siblings, MerkleTree, Digest, Log2, Left, Turns, LeafAt, IsPath;
    NoPathKeepsLeft(Log2(|hashes|));
    FirstLeaf(hashes);
    SiblingsRebuildRoot(h, MerkleTree(hashes), Left(Log2(|hashes|)));
  }

  /** That root is the one tree_hash computes for counts 1 and 2 and for every count that rounds well, among them all up
      to 513. */
  lemma BranchRebuildsHashedRoot<T>(h: (T, T) -> T, hashes: seq<T>)
    requires |hashes| > 0
    requires |hashes| > 2 ==> RoundsWell(|hashes| - 1) || |hashes| <= 513
    ensures var path := Turns(None, Log2(|hashes|));
            IsPath(MerkleTree(hashes), path) &&
            Climb(h, Siblings(h, MerkleTree(hashes), path), path, hashes[0]) == Digest(h, HashedTree(hashes))
  {
    hide Climb, Siblings, MerkleTree, HashedTree, Digest, Log2, Left, Turns, IsPath, RoundsWell;
    BranchRebuildsMerkleRoot(h, hashes);
    if |hashes| <= 2 {
      SmallTrees(hashes);
    } else {
      if |hashes| <= 513 {
        SmallCountsRoundWell(|hashes| - 1);
      }
      HashedTreeIsMerkleTree(hashes);
    }
  }

  /** How many of the hashes tree_hash looks at. */
  function Covered(count: nat): (n: nat)
    requires count > 0
    ensures n <= count
  {
    if count <= 2 then count
    else
      RoundedShape(count - 1);
      Under(count, Rounded(count - 1), Pow2(Log2(count - 1)))
  }

  /** The hashes after those have no influence: lists that agree up to there have the same tree, and the same root
      whatever the hash. All hashes are looked at if and only if the count is 1 or 2 or rounds well. */
  lemma OnlyCoveredHashesMatter<T>(h: (T, T) -> T, a: seq<T>, b: seq<T>)
    requires |a| == |b| > 0
    ensures Covered(|a|) == |a| <==> |a| <= 2 || RoundsWell(|a| - 1)
    ensures a[..Covered(|a|)] == b[..Covered(|a|)] ==> HashedTree(a) == HashedTree(b)
    ensures a[..Covered(|a|)] == b[..Covered(|a|)] ==> Digest(h, HashedTree(a)) == Digest(h, HashedTree(b))
  {
    hide Rounded, Log2, RoundsWell, Perfect, Fringe, Slots, Digest, Under, MerkleTree;
    if |a| <= 2 {
      assert a[..|a|] == a && b[..|a|] == b;
    } else {
      RoundedShape(|a| - 1);
      HashedFringe(a);
      HashedTreeIsMerkleTree(a);
      var cnt, k := Rounded(|a| - 1), Log2(|a| - 1);
      if a[..Covered(|a|)] == b[..Covered(|a|)] {
        SlotsAgree(a, b, cnt, Pow2(k));
        PerfectFrame(Slots(a, cnt), Slots(b, cnt), k);
      }
    }
  }

  lemma SlotsAgree<T>(a: seq<T>, b: seq<T>, cnt: nat, n: nat)
    requires cnt <= |a| == |b| <= 2 * cnt && n <= cnt
    requires 0 <= Under(|a|, cnt, n) <= |a| && a[..Under(|a|, cnt, n)] == b[..Under(|a|, cnt, n)]
    ensures Slots(a, cnt)[..n] == Slots(b, cnt)[..n]
  {
    var u := Under(|a|, cnt, n);
    assert forall i :: 0 <= i < u ==> a[i] == a[..u][i] == b[..u][i] == b[i];
  }

  /** For every other count the hashed tree leaves out the last hashes, which the tree of the branch does not. */
  lemma OtherwiseHashesAreLeftOut<T>(hashes: seq<T>)
    requires |hashes| > 2 && !RoundsWell(|hashes| - 1)
    ensures Fringe(HashedTree(hashes)) == hashes[..Covered(|hashes|)] < hashes && Fringe(MerkleTree(hashes)) == hashes
  {
    hide MerkleTree, HashedTree, Log2, Fringe, Rounded, RoundsWell;
    HashedTreeIsMerkleTree(hashes);
    HashedFringe(hashes);
    MerkleTreeFringe(hashes);
  }

  /** The last two of 514 hashes have no influence. */
  lemma LastTwoOf514<T>(h: (T, T) -> T, a: seq<T>, b: seq<T>)
    requires |a| == |b| == 514 && a[..512] == b[..512]
    ensures Digest(h, HashedTree(a)) == Digest(h, HashedTree(b)) && Fringe(HashedTree(a)) == a[..512]
  {
    hide HashedTree, Fringe, Rounded, Log2, RoundsWell, Digest;
    Count514RoundsBadly();
    HashedFringe(a);
    PowerAt513();
    OnlyCoveredHashesMatter(h, a, b);
  }

  /** The root rebuilt from the branch of the first hash is the root of tree_hash. */
  ghost predicate RootsAgree<T>(h: (T, T) -> T, hashes: seq<T>)
    requires |hashes| > 0
  {
    var path := Turns(None, Log2(|hashes|));
    IsPath(MerkleTree(hashes), path) &&
    Climb(h, Siblings(h, MerkleTree(hashes), path), path, hashes[0]) == Digest(h, HashedTree(hashes))
  }

  /** Whatever two values a hash can have, at every count that does not round well there are a hash function and
      hashes for which the two roots differ. */
  lemma RootsDiffer<T>(a: T, b: T, hashes: seq<T>)
    requires a != b && |hashes| > 2 && !RoundsWell(|hashes| - 1)
    requires hashes == seq(|hashes| - 1, _ => a) + [b]
    ensures !RootsAgree(Spreading(a, b), hashes)
  {
    hide MerkleTree, HashedTree, Log2, Fringe, Rounded, RoundsWell, Climb, Siblings, Digest, Turns, IsPath, Covered,
         Spreading;
    BranchRebuildsMerkleRoot(Spreading(a, b), hashes);
    OtherwiseHashesAreLeftOut(hashes);
    SpreadsToRoot(a, b, HashedTree(hashes));
    SpreadsToRoot(a, b, MerkleTree(hashes));
    assert hashes[|hashes| - 1] == b;
  }

  /** For hashes that can have two values, the two roots agree for every hash function and all hashes of a count if
      and only if the count is 1 or 2 or rounds well. */
  lemma RootsAgreeExactly<T>(a: T, b: T, count: nat)
    requires a != b && count > 0
    ensures count <= 2 || RoundsWell(count - 1) <==>
            forall h: (T, T) -> T, hashes: seq<T> :: |hashes| == count ==> RootsAgree(h, hashes)
  {
    hide RoundsWell, RootsAgree, Spreading;
    if count <= 2 || RoundsWell(count - 1) {
      forall h: (T, T) -> T, hashes: seq<T> | |hashes| == count ensures RootsAgree(h, hashes) {
        BranchRootsAgree(h, hashes);
      }
    } else {
      var hashes: seq<T> := seq(count - 1, _ => a) + [b];
      var h: (T, T) -> T := Spreading(a, b);
      RootsDiffer(a, b, hashes);
      assert !RootsAgree(h, hashes);
    }
  }

  lemma BranchRootsAgree<T>(h: (T, T) -> T, hashes: seq<T>)
    requires |hashes| > 0 && (|hashes| <= 2 || RoundsWell(|hashes| - 1))
    ensures RootsAgree(h, hashes)
  {
    hide Climb, Siblings, MerkleTree, HashedTree, Digest, Log2, Turns, IsPath, RoundsWell;
    BranchRebuildsHashedRoot(h, hashes);
  }

  lemma PowerAt513()
    ensures Pow2(Log2(513)) == 512
  {
    assert Pow2(9) == 512;
    Log2IsUnique(513, 9);
  }
}
