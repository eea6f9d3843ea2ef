/** A shuffle of 0 .. n-1 handed out one value at a time (src/common/ShuffleGenerator.h). Only the places that differ
    from the unshuffled order are stored. The random picks are parameters. */
module Shuffles {
  import opened Wrappers

  // ---------------------------------------------------------------------------
  // The dense shuffle
  // ---------------------------------------------------------------------------

  /** What is left when place p is handed out and the last value takes its place. */
  function Without(s: seq<nat>, p: nat): (t: seq<nat>)
    requires p < |s|
    ensures |t| == |s| - 1
  {
    var last := |s| - 1;
    if p == last then s[..last] else s[..last][p := s[last]]
  }

  lemma WithoutKeeps(s: seq<nat>, p: nat)
    requires p < |s|
    ensures multiset(Without(s, p)) + multiset{s[p]} == multiset(s)
  {
    var last := |s| - 1;
    assert s == s[..last] + [s[last]];
    if p < last {
      var t := s[..last];
      assert t == t[..p] + [t[p]] + t[p + 1..];
      assert t[p := s[last]] == t[..p] + [s[last]] + t[p + 1..];
    }
  }

  /** Picks that stay in range as the values run out. */
  predicate InRange(picks: seq<nat>, n: nat) {
    |picks| <= n && forall k :: 0 <= k < |picks| ==> picks[k] < n - k
  }

  /** The values handed out for a sequence of picks, and the values left. */
  function HandedOut(s: seq<nat>, picks: seq<nat>): (out: seq<nat>)
    requires InRange(picks, |s|)
    ensures |out| == |picks|
    decreases |picks|
  {
    if picks == [] then []
    else
      var rest := picks[1..];
      assert InRange(rest, |s| - 1) by { assert forall k :: 0 <= k < |rest| ==> rest[k] == picks[k + 1]; }
      [s[picks[0]]] + HandedOut(Without(s, picks[0]), rest)
  }

  function Left(s: seq<nat>, picks: seq<nat>): (t: seq<nat>)
    requires InRange(picks, |s|)
    ensures |t| == |s| - |picks|
    decreases |picks|
  {
    if picks == [] then s
    else
      var rest := picks[1..];
      assert InRange(rest, |s| - 1) by { assert forall k :: 0 <= k < |rest| ==> rest[k] == picks[k + 1]; }
      Left(Without(s, picks[0]), rest)
  }

  /** Nothing is lost and nothing is made up: what is handed out and what is left is what there was. */
  lemma {:induction false} Conserved(s: seq<nat>, picks: seq<nat>)
    requires InRange(picks, |s|)
    ensures multiset(HandedOut(s, picks)) + multiset(Left(s, picks)) == multiset(s)
    decreases |picks|
  {
    if picks != [] {
      var rest := picks[1..];
      assert InRange(rest, |s| - 1) by { assert forall k :: 0 <= k < |rest| ==> rest[k] == picks[k + 1]; }
      WithoutKeeps(s, picks[0]);
      Conserved(Without(s, picks[0]), rest);
    }
  }

  function Upto(n: nat): (s: seq<nat>)
    ensures |s| == n
  {
    seq(n, i requires 0 <= i < n => i)
  }

  lemma {:induction false} UptoHasEachOnce(n: nat, v: nat)
    ensures multiset(Upto(n))[v] == if v < n then 1 else 0
  {
    if n > 0 {
      UptoHasEachOnce(n - 1, v);
      assert Upto(n) == Upto(n - 1) + [n - 1];
    }
  }

  /** n draws hand out every value below n exactly once; fewer draws, no value twice. */
  lemma EachValueOnce(n: nat, picks: seq<nat>, v: nat)
    requires InRange(picks, n)
    ensures multiset(HandedOut(Upto(n), picks))[v] <= if v < n then 1 else 0
    ensures |picks| == n ==> multiset(HandedOut(Upto(n), picks))[v] == if v < n then 1 else 0
  {
    Conserved(Upto(n), picks);
    UptoHasEachOnce(n, v);
    var out, left := multiset(HandedOut(Upto(n), picks)), multiset(Left(Upto(n), picks));
    assert (out + left)[v] == out[v] + left[v];
  }

  ghost predicate Distinct(s: seq<nat>) {
    forall i, j :: 0 <= i < j < |s| ==> s[i] != s[j]
  }

  lemma WithoutIsDistinct(s: seq<nat>, p: nat)
    requires p < |s| && Distinct(s)
    ensures Distinct(Without(s, p))
  {
  }

  /** Different picks hand out different values. */
  lemma {:induction false} PicksAreTold(s: seq<nat>, picks: seq<nat>, picks': seq<nat>)
    requires Distinct(s) && InRange(picks, |s|) && InRange(picks', |s|) && |picks| == |picks'|
    requires HandedOut(s, picks) == HandedOut(s, picks')
    ensures picks == picks'
    decreases |picks|
  {
    if picks != [] {
      var p, p', rest, rest' := picks[0], picks'[0], picks[1..], picks'[1..];
      assert InRange(rest, |s| - 1) by { assert forall k :: 0 <= k < |rest| ==> rest[k] == picks[k + 1]; }
      assert InRange(rest', |s| - 1) by { assert forall k :: 0 <= k < |rest'| ==> rest'[k] == picks'[k + 1]; }
      assert HandedOut(s, picks)[0] == s[p] && HandedOut(s, picks')[0] == s[p'];
      assert p == p';
      assert HandedOut(s, picks)[1..] == HandedOut(Without(s, p), rest);
      assert HandedOut(s, picks')[1..] == HandedOut(Without(s, p), rest');
      WithoutIsDistinct(s, p);
      PicksAreTold(Without(s, p), rest, rest');
      assert picks == [p] + rest && picks' == [p] + rest';
    }
  }

  /** Every order is handed out for some picks: with the lemma before, for exactly one sequence of them. */
  lemma {:induction false} EveryOrderIsReached(s: seq<nat>, out: seq<nat>) returns (picks: seq<nat>)
    requires multiset(out) == multiset(s)
    ensures |picks| == |s| && InRange(picks, |s|) && HandedOut(s, picks) == out
    decreases |s|
  {
    SameLength(s, out);
    if s == [] {
      picks := [];
    } else {
      assert out[0] in multiset(s);
      var p: nat :| p < |s| && s[p] == out[0];
      RestMatches(s, p, out);
      hide Without;
      var rest := EveryOrderIsReached(Without(s, p), out[1..]);
      picks := [p] + rest;
      assert picks[1..] == rest;
    }
  }

  lemma RestMatches(s: seq<nat>, p: nat, out: seq<nat>)
    requires p < |s| && out != [] && s[p] == out[0] && multiset(out) == multiset(s)
    ensures multiset(out[1..]) == multiset(Without(s, p))
  {
    hide Without;
    WithoutKeeps(s, p);
    var a, b, x := multiset(out[1..]), multiset(Without(s, p)), multiset{s[p]};
    assert out == [out[0]] + out[1..];
    assert a + x == b + x;
    assert a == a + x - x == b + x - x == b;
  }

  lemma SameLength(s: seq<nat>, t: seq<nat>)
    requires multiset(s) == multiset(t)
    ensures |s| == |t|
  {
    assert |s| == |multiset(s)| && |t| == |multiset(t)|;
  }

  // ---------------------------------------------------------------------------
  // The generator
  // ---------------------------------------------------------------------------

  /** The value at a place; one that is not stored is its own place. */
  function ValueAt(selected: map<nat, nat>, i: nat): (v: nat) {
    if i in selected then selected[i] else i
  }

  /** The map after a draw of place p out of `count`: the value of the last place is stored there. */
  function Stored(selected: map<nat, nat>, count: nat, p: nat): (selected': map<nat, nat>)
    requires p < count
    ensures forall i: nat :: i != p ==> ValueAt(selected', i) == ValueAt(selected, i)
  {
    selected[p := ValueAt(selected, count - 1)]
  }

  /** What a generator with this map and count hands out. */
  function Drawn(selected: map<nat, nat>, count: nat, picks: seq<nat>): (out: seq<nat>)
    requires InRange(picks, count)
    ensures |out| == |picks|
    decreases |picks|
  {
    if picks == [] then []
    else
      var rest := picks[1..];
      assert InRange(rest, count - 1) by { assert forall k :: 0 <= k < |rest| ==> rest[k] == picks[k + 1]; }
      [ValueAt(selected, picks[0])] + Drawn(Stored(selected, count, picks[0]), count - 1, rest)
  }

  /** The values of the first `count` places. */
  function Dense(selected: map<nat, nat>, count: nat): (s: seq<nat>)
    ensures |s| == count
  {
    seq(count, i requires 0 <= i < count => ValueAt(selected, i))
  }

  lemma FreshIsUpto(n: nat)
    ensures Dense(map[], n) == Upto(n)
  {
  }

  /** Storing one value at the picked place is the step of the dense shuffle. */
  lemma SparseStep(selected: map<nat, nat>, count: nat, p: nat)
    requires p < count
    ensures Dense(Stored(selected, count, p), count - 1) == Without(Dense(selected, count), p)
  {
  }

  /** The sparse shuffle hands out what the dense one does. */
  lemma {:induction false} SparseIsDense(selected: map<nat, nat>, count: nat, picks: seq<nat>)
    requires InRange(picks, count)
    ensures Drawn(selected, count, picks) == HandedOut(Dense(selected, count), picks)
    decreases |picks|
  {
    hide Dense, Without, Stored, ValueAt;
    if picks != [] {
      var rest := picks[1..];
      assert InRange(rest, count - 1) by { assert forall k :: 0 <= k < |rest| ==> rest[k] == picks[k + 1]; }
      SparseStep(selected, count, picks[0]);
      DenseAt(selected, count, picks[0]);
      SparseIsDense(Stored(selected, count, picks[0]), count - 1, rest);
    }
  }

  /** Entries at or above the count are stale: generators that differ only there hand out the same values for all
      picks. */
  lemma StaleEntries(a: map<nat, nat>, b: map<nat, nat>, count: nat, picks: seq<nat>)
    requires forall i :: 0 <= i < count ==> ValueAt(a, i) == ValueAt(b, i)
    requires InRange(picks, count)
    ensures Drawn(a, count, picks) == Drawn(b, count, picks)
  {
    assert Dense(a, count) == Dense(b, count);
    SparseIsDense(a, count, picks);
    SparseIsDense(b, count, picks);
  }

  class ShuffleGenerator {
    const n: nat
    var count: nat
    var selected: map<nat, nat>
    /** The draws since the start or the last reset. */
    ghost var picks: seq<nat>

    ghost predicate Valid()
      reads this
    {
      && InRange(picks, n) && count == n - |picks|
      && Dense(selected, count) == Left(Upto(n), picks)
      && |selected| <= |picks|
    }

    constructor (n: nat)
      ensures Valid() && this.n == n && picks == []
    {
      this.n := n;
      count, selected, picks := n, map[], [];
      new;
      FreshIsUpto(n);
    }

    /** The pick is what the distribution over 0 .. count-1 yields; None stands for the exception at the end. */
    method Draw(pick: nat) returns (r: Option<nat>)
      requires Valid() && (count > 0 ==> pick < count)
      modifies this
      ensures Valid()
      ensures old(count) == 0 ==> r == None && picks == old(picks)
      ensures old(count) > 0 ==>
                && picks == old(picks) + [pick] && r.Some?
                && HandedOut(Upto(n), picks) == HandedOut(Upto(n), old(picks)) + [r.value]
                && r.value == ValueAt(old(selected), pick) && selected == Stored(old(selected), old(count), pick)
    {
      hide Dense, HandedOut, Left, Upto, Without;
      if count == 0 {
        return None;
      }
      OneMore(Upto(n), picks, pick);
      SparseStep(selected, count, pick);
      DenseAt(selected, count, pick);
      count := count - 1;
      picks := picks + [pick];
      var value := pick;
      var rval := if count in selected then selected[count] else count;
      if value in selected {
        value := selected[value];
        selected := selected[pick := rval];
      } else {
        selected := selected[value := rval];
      }
      return Some(value);
    }

    method Reset()
      requires Valid()
      modifies this
      ensures Valid() && picks == [] && count == n && selected == map[]
    {
      count, selected, picks := n, map[], [];
      FreshIsUpto(n);
    }
  }

  lemma DenseAt(selected: map<nat, nat>, count: nat, p: nat)
    requires p < count
    ensures Dense(selected, count)[p] == ValueAt(selected, p)
  {
  }

  /** One more draw at the end of a run. */
  lemma {:induction false} OneMore(s: seq<nat>, picks: seq<nat>, p: nat)
    requires InRange(picks, |s|) && p < |s| - |picks|
    ensures InRange(picks + [p], |s|)
    ensures HandedOut(s, picks + [p]) == HandedOut(s, picks) + [Left(s, picks)[p]]
    ensures Left(s, picks + [p]) == Without(Left(s, picks), p)
    decreases |picks|
  {
    if picks != [] {
      var rest := picks[1..];
      assert InRange(rest, |s| - 1) by { assert forall k :: 0 <= k < |rest| ==> rest[k] == picks[k + 1]; }
      OneMore(Without(s, picks[0]), rest, p);
      assert (picks + [p])[1..] == rest + [p];
    } else {
      assert (picks + [p])[1..] == [];
    }
  }
}
