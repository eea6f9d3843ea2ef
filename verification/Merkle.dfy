/** Binary hash trees: their roots, their leaves, and the siblings along a path. */
module Merkle {
  import opened Words

  datatype Tree<T> = Leaf(value: T) | Node(left: Tree<T>, right: Tree<T>)

  function Digest<T>(h: (T, T) -> T, t: Tree<T>): (r: T)
  {
    match t
    case Leaf(x) => x
    case Node(l, r) => h(Digest(h, l), Digest(h, r))
  }

  function Fringe<T>(t: Tree<T>): (s: seq<T>)
    ensures |s| > 0
  {
    match t
    case Leaf(x) => [x]
    case Node(l, r) => Fringe(l) + Fringe(r)
  }

  // ---------------------------------------------------------------------------
  // Paths: false goes left, true goes right
  // ---------------------------------------------------------------------------

  predicate IsPath<T>(t: Tree<T>, path: seq<bool>)
    decreases path
  {
    if path == [] then t.Leaf?
    else t.Node? && IsPath(if path[0] then t.right else t.left, path[1..])
  }

  function LeafAt<T>(t: Tree<T>, path: seq<bool>): (x: T)
    requires IsPath(t, path)
    decreases path
  {
    if path == [] then t.value else LeafAt(if path[0] then t.right else t.left, path[1..])
  }

  /** The digests met beside a path, from the root down. */
  function Siblings<T>(h: (T, T) -> T, t: Tree<T>, path: seq<bool>): (s: seq<T>)
    requires IsPath(t, path)
    ensures |s| == |path|
    decreases path
  {
    if path == [] then []
    else if path[0] then [Digest(h, t.left)] + Siblings(h, t.right, path[1..])
    else [Digest(h, t.right)] + Siblings(h, t.left, path[1..])
  }

  /** The root rebuilt from a leaf and the digests beside its path. */
  function Climb<T>(h: (T, T) -> T, branch: seq<T>, path: seq<bool>, leaf: T): (r: T)
    requires |branch| == |path|
    decreases path
  {
    if path == [] then leaf
    else
      var below := Climb(h, branch[1..], path[1..], leaf);
      if path[0] then h(branch[0], below) else h(below, branch[0])
  }

  /** For every tree and every leaf of it, the leaf and its siblings rebuild the root. */
  lemma {:induction false} SiblingsRebuildRoot<T>(h: (T, T) -> T, t: Tree<T>, path: seq<bool>)
    requires IsPath(t, path)
    ensures Climb(h, Siblings(h, t, path), path, LeafAt(t, path)) == Digest(h, t)
    decreases path
  {
    if path != [] {
      var next := if path[0] then t.right else t.left;
      SiblingsRebuildRoot(h, next, path[1..]);
      assert Siblings(h, t, path)[1..] == Siblings(h, next, path[1..]);
    }
  }

  // ---------------------------------------------------------------------------
  // Perfect trees over a row of subtrees
  // ---------------------------------------------------------------------------

  /** The tree of height k over the first Pow2(k) trees of a row. */
  function Perfect<T>(row: seq<Tree<T>>, k: nat): (t: Tree<T>)
    requires Pow2(k) <= |row|
    decreases k
  {
    if k == 0 then row[0]
    else Node(Perfect(row, k - 1), Perfect(row[Pow2(k - 1)..], k - 1))
  }

  function Fringes<T>(row: seq<Tree<T>>): (s: seq<T>)
  {
    if row == [] then [] else Fringe(row[0]) + Fringes(row[1..])
  }

  lemma {:induction false} FringesAppend<T>(a: seq<Tree<T>>, b: seq<Tree<T>>)
    ensures Fringes(a + b) == Fringes(a) + Fringes(b)
  {
    if a == [] {
      assert a + b == b;
    } else {
      assert (a + b)[1..] == a[1..] + b;
      FringesAppend(a[1..], b);
    }
  }

  lemma {:induction false} PerfectFringe<T>(row: seq<Tree<T>>, k: nat)
    requires Pow2(k) <= |row|
    ensures Fringe(Perfect(row, k)) == Fringes(row[..Pow2(k)])
    decreases k
  {
    if k == 0 {
      assert row[..1][1..] == [];
    } else {
      var half := Pow2(k - 1);
      PerfectFringe(row, k - 1);
      PerfectFringe(row[half..], k - 1);
      assert row[..Pow2(k)] == row[..half] + row[half..][..half];
      FringesAppend(row[..half], row[half..][..half]);
    }
  }

  /** Only the first Pow2(k) trees matter. */
  lemma {:induction false} PerfectFrame<T>(row: seq<Tree<T>>, row': seq<Tree<T>>, k: nat)
    requires Pow2(k) <= |row| && Pow2(k) <= |row'| && row[..Pow2(k)] == row'[..Pow2(k)]
    ensures Perfect(row, k) == Perfect(row', k)
    decreases k
  {
    if k == 0 {
      assert row[0] == row[..1][0] == row'[..1][0] == row'[0];
    } else {
      var half := Pow2(k - 1);
      assert row[..half] == row[..Pow2(k)][..half] == row'[..Pow2(k)][..half] == row'[..half];
      assert row[half..][..half] == row[..Pow2(k)][half..] == row'[..Pow2(k)][half..] == row'[half..][..half];
      PerfectFrame(row, row', k - 1);
      PerfectFrame(row[half..], row'[half..], k - 1);
    }
  }

  /** A hash of two values that is b as soon as one of the two is. */
  ghost function Spreading<T>(a: T, b: T): (h: (T, T) -> T) {
    (x, y) => if x == b || y == b then b else a
  }

  /** It carries b from any leaf to the root. */
  lemma {:induction false} SpreadsToRoot<T>(a: T, b: T, t: Tree<T>)
    requires forall x <- Fringe(t) :: x == a || x == b
    ensures Digest(Spreading(a, b), t) == if b in Fringe(t) then b else a
  {
    match t
    case Leaf(x) =>
      assert Fringe(t) == [x] && x in Fringe(t);
    case Node(l, r) =>
      assert Fringe(t) == Fringe(l) + Fringe(r);
      assert forall x <- Fringe(l) :: x in Fringe(t);
      assert forall x <- Fringe(r) :: x in Fringe(t);
      SpreadsToRoot(a, b, l);
      SpreadsToRoot(a, b, r);
  }

  /** The row of parents. */
  function Pairs<T>(row: seq<Tree<T>>): (s: seq<Tree<T>>)
    ensures |s| == |row| / 2
  {
    seq(|row| / 2, j requires 0 <= j < |row| / 2 => Node(row[2 * j], row[2 * j + 1]))
  }

  lemma {:induction false} PerfectOfPairs<T>(row: seq<Tree<T>>, k: nat)
    requires Pow2(k + 1) <= |row|
    ensures Perfect(Pairs(row), k) == Perfect(row, k + 1)
    decreases k
  {
    if k > 0 {
      PerfectOfPairs(row, k - 1);
      PerfectOfPairs(row[Pow2(k)..], k - 1);
      assert Pairs(row)[Pow2(k - 1)..] == Pairs(row[Pow2(k)..]);
    }
  }

  // ---------------------------------------------------------------------------
  // The same on rows of digests
  // ---------------------------------------------------------------------------

  function Digests<T>(h: (T, T) -> T, row: seq<Tree<T>>): (s: seq<T>)
    ensures |s| == |row| && forall j :: 0 <= j < |row| ==> s[j] == Digest(h, row[j])
  {
    seq(|row|, j requires 0 <= j < |row| => Digest(h, row[j]))
  }

  lemma DigestsOfPairs<T>(h: (T, T) -> T, row: seq<Tree<T>>, j: nat)
    requires j < |row| / 2
    ensures Digests(h, Pairs(row))[j] == h(Digests(h, row)[2 * j], Digests(h, row)[2 * j + 1])
  {
  }
}
