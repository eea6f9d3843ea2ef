/** The list of block hashes of a chain with an index by hash, and the search for the last common block of two chains
    (src/cryptonote_core/BlockIndex.h, src/cryptonote_core/BlockIndex.cpp). */
module BlockIndices {
  import opened Wrappers
  import opened Words
  import opened BitSets

  // ---------------------------------------------------------------------------
  // The thinning history
  // ---------------------------------------------------------------------------

  /** The distance from the end of the chain of the j-th entry: 1, 2, ..., 11, then 9 + 4, 9 + 8, 9 + 16, ... */
  function Offset(j: nat): (d: nat)
    ensures d >= 1
  {
    if j <= 10 then j + 1 else 9 + Pow2(j - 9)
  }

  lemma OffsetsAscend(j: nat)
    ensures Offset(j) < Offset(j + 1) <= 2 * Offset(j) + 1
    ensures Offset(j + 1) <= if j < 10 then Offset(j) + 1 else 2 * Offset(j) - 9
  {
    assert Pow2(1) == 2;
    assert Pow2(2) == 4;
    if j > 10 {
      hide Pow2;
      Doubles(j - 9);
    }
  }

  lemma Doubles(k: nat)
    ensures Pow2(k + 1) == 2 * Pow2(k)
  {
  }

  lemma {:induction false} OffsetsOrdered(i: nat, j: nat)
    requires i < j
    ensures Offset(i) < Offset(j)
    decreases j
  {
    hide Offset;
    OffsetsAscend(j - 1);
    if i < j - 1 {
      OffsetsOrdered(i, j - 1);
    }
  }

  /** How many entries lie above the genesis block of a chain of n blocks. */
  function Entries(n: nat, j: nat): (k: nat)
    ensures k >= j && Offset(k) >= n && forall i :: j <= i < k ==> Offset(i) < n
    decreases n - Offset(j)
  {
    OffsetsAscend(j);
    if Offset(j) >= n then j else Entries(n, j + 1)
  }

  /** The heights in the history of a chain of n blocks, genesis last. */
  function Heights(n: nat): (hs: seq<nat>)
    requires n > 0
    ensures |hs| == Entries(n, 0) + 1
  {
    seq(Entries(n, 0), j requires 0 <= j < Entries(n, 0) => n - Offset(j)) + [0]
  }

  lemma HeightsDescend(n: nat, i: nat, j: nat)
    requires n > 0 && i < j < |Heights(n)|
    ensures n > Heights(n)[i] > Heights(n)[j]
    ensures Heights(n)[j] == 0 <==> j == |Heights(n)| - 1
  {
    hide Offset;
    if j < Entries(n, 0) {
      OffsetsOrdered(i, j);
    }
  }

  /** It starts at the last block and goes back one at a time for ten steps; from then on each step is twice the one
      before. */
  lemma StepsDouble(n: nat, j: nat)
    requires n > 0 && j + 2 < |Heights(n)|
    ensures Heights(n)[0] == n - 1
    ensures j < 10 ==> Heights(n)[j] - Heights(n)[j + 1] == 1
    ensures 0 < j && 10 <= j ==> Heights(n)[j] - Heights(n)[j + 1] == 2 * (Heights(n)[j - 1] - Heights(n)[j])
  {
    hide Offset, Entries;
    FirstOffset();
    assert Heights(n)[0] == n - Offset(0);
    assert Heights(n)[j] == n - Offset(j) && Heights(n)[j + 1] == n - Offset(j + 1);
    NextOffset(j);
    if j >= 10 {
      assert Heights(n)[j - 1] == n - Offset(j - 1);
      NextOffset(j - 1);
    }
  }

  /** The history has at most 12 + log2(n) entries. */
  lemma HistoryIsShort(n: nat)
    requires n > 0
    ensures |Heights(n)| <= 12 + Log2(n)
  {
    hide Log2;
    var k := Entries(n, 0);
    if k >= 12 {
      assert Offset(k - 1) < n;
      hide Pow2;
      if k - 10 > Log2(n) {
        Pow2Monotone(Log2(n) + 1, k - 10);
      }
    }
  }

  // ---------------------------------------------------------------------------
  // Finding the last common block
  // ---------------------------------------------------------------------------

  function History<H>(chain: seq<H>): (ids: seq<H>)
    ensures chain == [] ==> ids == []
    ensures chain != [] ==> |ids| == |Heights(|chain|)|
  {
    if chain == [] then []
    else
      var hs := Heights(|chain|);
      HeightsAreBelow(|chain|);
      seq(|hs|, j requires 0 <= j < |hs| => chain[hs[j]])
  }

  lemma HeightsAreBelow(n: nat)
    requires n > 0
    ensures forall j :: 0 <= j < |Heights(n)| ==> Heights(n)[j] < n
  {
  }

  /** The first of the ids that lies on the chain, if there is one. */
  ghost predicate FirstOn<H>(ids: seq<H>, chain: seq<H>, j: nat) {
    j < |ids| && ids[j] in chain && forall i :: 0 <= i < j ==> ids[i] !in chain
  }

  /** Two chains that agree exactly below a height, and share no other id. */
  ghost predicate ForkAt<H>(a: seq<H>, b: seq<H>, fork: nat) {
    && 0 < fork <= |a| && fork <= |b| && a[..fork] == b[..fork]
    && forall i, j :: 0 <= i < |a| && 0 <= j < |b| && a[i] == b[j] ==> i == j && i < fork
  }

  lemma OnlyBelowFork<H>(a: seq<H>, b: seq<H>, fork: nat, h: nat)
    requires ForkAt(a, b, fork) && h < |a|
    ensures a[h] in b <==> h < fork
    ensures h < fork ==> a[h] == b[h]
  {
    if h < fork {
      assert a[h] == a[..fork][h] == b[..fork][h] == b[h];
    }
  }

  /** The search in b through the history of a finds an entry, of a common height, no further from the end of a than
      twice the last common block. */
  lemma FindsCommonBlock<H>(a: seq<H>, b: seq<H>, fork: nat, j: nat)
    requires ForkAt(a, b, fork)
    ensures exists k :: FirstOn(History(a), b, k)
    ensures FirstOn(History(a), b, j) ==>
              var h := Heights(|a|)[j];
              && h < fork && History(a)[j] == a[h] == b[h]
              && (forall o :: 0 <= o < |b| && b[o] == History(a)[j] ==> o == h)
              && |a| - 1 - h <= 2 * (|a| - fork)
  {
    hide Entries, Offset;
    var ids, hs := History(a), Heights(|a|);
    HeightsAreBelow(|a|);
    forall k | 0 <= k < |ids|
      ensures ids[k] in b <==> hs[k] < fork
      ensures hs[k] < fork ==> ids[k] == a[hs[k]] == b[hs[k]]
    {
      OnlyBelowFork(a, b, fork, hs[k]);
    }
    FirstExists(ids, b, |ids| - 1);
    if FirstOn(ids, b, j) {
      NotFar(|a|, fork, j);
    }
  }

  lemma {:induction false} FirstExists<H>(ids: seq<H>, chain: seq<H>, k: nat)
    requires k < |ids| && ids[k] in chain
    ensures exists j :: FirstOn(ids, chain, j)
  {
    if i :| 0 <= i < k && ids[i] in chain {
      FirstExists(ids, chain, i);
    } else {
      assert FirstOn(ids, chain, k);
    }
  }

  lemma NotFar(n: nat, fork: nat, j: nat)
    requires 0 < fork <= n && j < |Heights(n)| && Heights(n)[j] < fork
    requires forall i :: 0 <= i < j ==> Heights(n)[i] >= fork
    ensures n - 1 - Heights(n)[j] <= 2 * (n - fork)
  {
    hide Offset;
    if j > 0 {
      assert Heights(n)[j - 1] == n - Offset(j - 1);
      OffsetsAscend(j - 1);
    } else {
      FirstOffset();
    }
  }

  lemma FirstOffset()
    ensures Offset(0) == 1
  {
  }

  // ---------------------------------------------------------------------------
  // The index
  // ---------------------------------------------------------------------------

  /** The container: the ids in order, and where each of them is. */
  class BlockIndex<H(==)> {
    var container: seq<H>
    var index: map<H, nat>
    const zero: H

    ghost predicate Valid()
      reads this
    {
      && (forall i :: 0 <= i < |container| ==> container[i] in index && index[container[i]] == i)
      && (forall h :: h in index ==> index[h] < |container| && container[index[h]] == h)
    }

    constructor (zero: H)
      ensures Valid() && container == [] && this.zero == zero
    {
      this.zero := zero;
      container, index := [], map[];
    }

    /** An id that is already there is not added again. */
    method Push(h: H) returns (inserted: bool)
      requires Valid()
      modifies this
      ensures Valid() && inserted == (h !in old(container))
      ensures container == if inserted then old(container) + [h] else old(container)
    {
      inserted := h !in index;
      if inserted {
        index := index[h := |container|];
        container := container + [h];
      }
    }

    method Pop()
      requires Valid() && container != []
      modifies this
      ensures Valid() && container == old(container[..|container| - 1])
    {
      index := index - {container[|container| - 1]};
      container := container[..|container| - 1];
    }

    method Clear()
      modifies this
      ensures Valid() && container == []
    {
      container, index := [], map[];
    }

    method HasBlock(h: H) returns (has: bool)
      requires Valid()
      ensures has <==> h in container
    {
      has := h in index;
    }

    method GetBlockHeight(h: H) returns (height: Option<nat>)
      requires Valid()
      ensures height.Some? <==> h in container
      ensures height.Some? ==> IsPlace(container, height.value, h)
    {
      height := if h in index then Some(index[h]) else None;
    }

    /** The one id whose height it is, so that getBlockHeight leads back. */
    method GetBlockId(height: uint64) returns (id: H)
      requires Valid()
      ensures height < |container| ==> IsPlace(container, height, id)
      ensures height >= |container| ==> id == zero
      ensures zero !in container ==> (id == zero <==> height >= |container|)
    {
      if height >= |container| {
        return zero;
      }
      return container[height];
    }

    /** The id that no id of the chain comes after. */
    method GetTailId() returns (id: H)
      requires Valid()
      ensures container != [] ==>
              IsPlace(container, |container| - 1, id) && container[..|container| - 1] + [id] == container
      ensures container == [] ==> id == zero
      ensures zero !in container ==> (id == zero <==> container == [])
    {
      if container == [] {
        return zero;
      }
      return container[|container| - 1];
    }

    /** The bound of the loop is computed modulo 2^64. */
    method GetBlockIds(startHeight: uint64, maxCount: uint64, items: seq<H>) returns (ok: bool, items': seq<H>)
      requires Valid() && |container| < TWO64
      ensures ok <==> startHeight < |container|
      ensures items' == if ok then items + container[startHeight..Stop(startHeight, maxCount, |container|)] else items
    {
      items' := items;
      if startHeight >= |container| {
        return false, items';
      }
      var i := startHeight;
      while i < (startHeight + maxCount) % TWO64 && i < |container|
        invariant startHeight <= i <= Stop(startHeight, maxCount, |container|)
        invariant items' == items + container[startHeight..i]
      {
        items' := items' + [container[i]];
        i := i + 1;
      }
      return true, items';
    }

    method FindSupplement(ids: seq<H>) returns (offset: Option<nat>)
      requires Valid()
      ensures offset.None? ==> forall j :: 0 <= j < |ids| ==> ids[j] !in container
      ensures offset.Some? ==>
                && offset.value < |container|
                && exists j: nat :: FirstOn(ids, container, j) && ids[j] == container[offset.value]
    {
      for j := 0 to |ids|
        invariant forall i :: 0 <= i < j ==> ids[i] !in container
      {
        offset := GetBlockHeight(ids[j]);
        if offset.Some? {
          assert FirstOn(ids, container, j);
          return;
        }
      }
      return None;
    }

    method GetShortChainHistory(ids: seq<H>) returns (ids': seq<H>)
      requires Valid()
      ensures ids' == ids + History(container)
    {
      hide Pow2, Offset, Heights, History;
      ids' := ids;
      var i: nat, multiplier, sz := 0, 1, |container|;
      if sz == 0 {
        return;
      }
      var backOffset, genesisIncluded := 1, false;
      StartOfHistory(container);
      while backOffset < sz
        invariant backOffset == Offset(i) && multiplier == (if i <= 10 then 1 else Pow2(i - 10)) && !genesisIncluded
        invariant i <= Entries(sz, 0) && ids' == ids + History(container)[..i]
        decreases Entries(sz, 0) - i
      {
        NextOffset(i);
        HistoryAt(container, i);
        ids' := ids' + [container[sz - backOffset]];
        if sz - backOffset == 0 {
          genesisIncluded := true;
        }
        if i < 10 {
          backOffset := backOffset + 1;
        } else {
          multiplier := multiplier * 2;
          backOffset := backOffset + multiplier;
        }
        i := i + 1;
      }
      EndOfHistory(container, i);
      if !genesisIncluded {
        ids' := ids' + [container[0]];
      }
    }
  }

  /** h is in the chain, at this place and no other. */
  ghost predicate IsPlace<H>(chain: seq<H>, place: nat, h: H) {
    place < |chain| && forall i :: 0 <= i < |chain| ==> (chain[i] == h <==> i == place)
  }

  /** The owner of chain b looks for the last common block with the owner of chain a, who sends a short history. */
  method FindCommonBlock<H(==)>(a: BlockIndex<H>, b: BlockIndex<H>, ghost fork: nat) returns (offset: Option<nat>)
    requires a.Valid() && b.Valid() && ForkAt(a.container, b.container, fork)
    ensures offset.Some? && offset.value < fork && a.container[offset.value] == b.container[offset.value]
    ensures |a.container| - 1 - offset.value <= 2 * (|a.container| - fork)
  {
    hide Heights, History, ForkAt;
    var ids := a.GetShortChainHistory([]);
    assert ids == History(a.container);
    offset := b.FindSupplement(ids);
    FindsCommonBlock(a.container, b.container, fork, 0);
    if offset.Some? {
      ghost var j: nat :| FirstOn(ids, b.container, j) && ids[j] == b.container[offset.value];
      FindsCommonBlock(a.container, b.container, fork, j);
    }
  }

  /** Where the loop of getBlockIds stops. */
  function Stop(start: uint64, count: uint64, n: nat): (e: int)
    requires start < n < TWO64
    ensures start <= e <= n
  {
    var bound := (start + count) % TWO64;
    if bound <= start then start else if bound < n then bound else n
  }

  /** The answer has as many ids as asked for and available if and only if the bound does not wrap. */
  lemma StopIsFull(start: uint64, count: uint64, n: nat)
    requires start < n < TWO64
    ensures Stop(start, count, n) == (if start + count < n then start + count else n) <==> start + count < TWO64
    ensures start + count >= TWO64 ==> Stop(start, count, n) == start
  {
  }

  lemma StartOfHistory<H>(chain: seq<H>)
    requires chain != []
    ensures Offset(0) == 1 && History(chain)[..0] == []
  {
  }

  lemma NextOffset(i: nat)
    ensures i < 10 ==> Offset(i + 1) == Offset(i) + 1
    ensures i >= 10 ==> Offset(i + 1) == Offset(i) + 2 * (if i <= 10 then 1 else Pow2(i - 10))
    ensures i >= 10 ==> Pow2(i + 1 - 10) == 2 * if i <= 10 then 1 else Pow2(i - 10)
  {
    assert Pow2(0) == 1 && Pow2(1) == 2 && Pow2(2) == 4;
    if i > 10 {
      hide Pow2;
      Doubles(i - 10);
      Doubles(i - 9);
    }
  }

  lemma HistoryAt<H>(chain: seq<H>, i: nat)
    requires chain != [] && i <= Entries(|chain|, 0) && Offset(i) < |chain|
    ensures i < Entries(|chain|, 0) && i + 1 <= |History(chain)|
    ensures History(chain)[..i + 1] == History(chain)[..i] + [chain[|chain| - Offset(i)]]
  {
    hide Offset, Entries, Heights;
    HeightAt(|chain|, i);
  }

  lemma HeightAt(n: nat, i: nat)
    requires n > 0 && i <= Entries(n, 0)
    ensures if i < Entries(n, 0) then Offset(i) < n && Heights(n)[i] == n - Offset(i)
            else Offset(i) >= n && Heights(n)[i] == 0
  {
    hide Offset, Entries;
  }

  lemma EndOfHistory<H>(chain: seq<H>, i: nat)
    requires chain != [] && i <= Entries(|chain|, 0) && Offset(i) >= |chain|
    ensures i == Entries(|chain|, 0) && i < |History(chain)| && History(chain) == History(chain)[..i] + [chain[0]]
  {
    hide Offset, Entries, Heights;
    HeightAt(|chain|, i);
  }
}
