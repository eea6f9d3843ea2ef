/** Closing a queue when the last of a group is done (src/common/BlockingQueue.h). A call reads the atomic counter, then
    decrements it, and closes the queue if the decrement took it from one; other calls may come in between. */
module GroupCloses {
  import opened Words

  /** The counter, how many calls there were, how many of them have read a counter that was not zero and are yet to
      decrement it, how many have decremented, how many are about to close the queue, and how often it was closed. */
  datatype State = State(count: uint64, calls: nat, checked: nat, decrements: nat, due: nat, closes: nat)

  ghost predicate LoadStep(s: State, s': State) {
    s' == s.(calls := s.calls + 1, checked := if s.count == 0 then s.checked else s.checked + 1)
  }

  ghost predicate SubStep(s: State, s': State) {
    && s.checked > 0
    && s' == s.(count := (s.count - 1) % TWO64, checked := s.checked - 1, decrements := s.decrements + 1,
                due := if s.count == 1 then s.due + 1 else s.due)
  }

  ghost predicate CloseStep(s: State, s': State) {
    s.due > 0 && s' == s.(due := s.due - 1, closes := s.closes + 1)
  }

  ghost predicate Run(groupSize: uint64, states: seq<State>) {
    && states != []
    && states[0] == State(groupSize, 0, 0, 0, 0, 0)
    && forall i :: 0 <= i < |states| - 1 ==>
         LoadStep(states[i], states[i + 1]) || SubStep(states[i], states[i + 1]) || CloseStep(states[i], states[i + 1])
  }

  /** How many of the first n decrements take the counter from one. */
  ghost function Hits(groupSize: uint64, n: nat): (h: int) {
    if groupSize == 0 || n < groupSize then 0 else (n - groupSize) / TWO64 + 1
  }

  lemma HitStep(groupSize: uint64, n: nat)
    requires groupSize > 0
    ensures Hits(groupSize, n + 1) == Hits(groupSize, n) + if (groupSize - n) % TWO64 == 1 then 1 else 0
  {
    if n + 1 > groupSize {
      var q, r := (n - groupSize) / TWO64, (n - groupSize) % TWO64;
      assert n - groupSize == TWO64 * q + r;
      if r + 1 < TWO64 {
        DivModUnique(n + 1 - groupSize, TWO64, q, r + 1);
        DivModUnique(groupSize - n, TWO64, if r == 0 then -q else -q - 1, if r == 0 then 0 else TWO64 - r);
      } else {
        DivModUnique(n + 1 - groupSize, TWO64, q + 1, 0);
        DivModUnique(groupSize - n, TWO64, -q - 1, 1);
      }
    }
  }

  ghost predicate Inv(groupSize: uint64, s: State) {
    && s.count == (groupSize - s.decrements) % TWO64
    && s.decrements + s.checked <= s.calls
    && (groupSize == 0 ==> s.decrements == s.checked == 0)
    && s.due + s.closes == Hits(groupSize, s.decrements)
  }

  lemma {:induction false} RunKeepsInv(groupSize: uint64, states: seq<State>, i: nat)
    requires Run(groupSize, states) && i < |states|
    ensures Inv(groupSize, states[i])
  {
    hide Hits;
    if i > 0 {
      RunKeepsInv(groupSize, states, i - 1);
      var s := states[i - 1];
      if SubStep(s, states[i]) {
        HitStep(groupSize, s.decrements);
        Decrement(groupSize - s.decrements);
      }
    } else {
      NoHits(groupSize);
    }
  }

  lemma NoHits(groupSize: uint64)
    ensures Hits(groupSize, 0) == 0
  {
  }

  lemma Decrement(x: int)
    ensures (x % TWO64 - 1) % TWO64 == (x - 1) % TWO64
  {
  }

  /** In every run the queue is closed, or about to be, once for the decrement that is the groupSize-th and once for
      each 2^64 decrements after it. */
  lemma ClosesAtLastDecrement(groupSize: uint64, states: seq<State>, i: nat)
    requires Run(groupSize, states) && i < |states|
    ensures var s := states[i]; s.due + s.closes == Hits(groupSize, s.decrements)
    ensures var s := states[i];
            s.decrements < TWO64 ==> s.due + s.closes == if 0 < groupSize <= s.decrements then 1 else 0
  {
    RunKeepsInv(groupSize, states, i);
  }

  /** With at most groupSize calls: never more than once, and only when every one of them has decremented. */
  lemma ClosesOnce(groupSize: uint64, states: seq<State>, i: nat)
    requires Run(groupSize, states) && i < |states| && states[i].calls <= groupSize
    ensures var s := states[i];
            s.due + s.closes <= 1 &&
            (s.due + s.closes == 1 <==> 0 < groupSize == s.decrements == s.calls && s.checked == 0)
  {
    RunKeepsInv(groupSize, states, i);
  }

  /** The counter is what is left of the group until there are more decrements than the group is large. */
  lemma CounterIsExact(groupSize: uint64, states: seq<State>, i: nat)
    requires Run(groupSize, states) && i < |states|
    ensures var s := states[i]; s.count == groupSize - s.decrements <==> s.decrements <= groupSize
    ensures var s := states[i]; s.calls <= groupSize ==> s.decrements <= groupSize
  {
    RunKeepsInv(groupSize, states, i);
    var s := states[i];
    if s.decrements <= groupSize {
      DivModUnique(groupSize - s.decrements, TWO64, 0, groupSize - s.decrements);
    }
  }

  /** In some step the counter is decremented although it is zero. */
  ghost predicate GoesBelowZero(groupSize: uint64, states: seq<State>) {
    Run(groupSize, states) && exists i :: 0 <= i < |states| - 1 && FromZero(states[i], states[i + 1])
  }

  ghost predicate FromZero(s: State, s': State) {
    s.count == 0 && SubStep(s, s')
  }

  ghost predicate Overrun(groupSize: uint64, n: nat, states: seq<State>) {
    GoesBelowZero(groupSize, states) && states[|states| - 1].calls == n
  }

  /** n calls can take the counter below zero if and only if they are more than the group is large, which is not
      empty. */
  lemma BelowZeroExactly(groupSize: uint64, n: nat)
    ensures (exists states :: Overrun(groupSize, n, states)) <==> 0 < groupSize < n
  {
    if states: seq<State> :| Overrun(groupSize, n, states) {
      var i :| 0 <= i < |states| - 1 && FromZero(states[i], states[i + 1]);
      RunKeepsInv(groupSize, states, i);
      CallsGrow(groupSize, states, i, |states| - 1);
      if states[i].decrements < groupSize {
        DivModUnique(groupSize - states[i].decrements, TWO64, 0, groupSize - states[i].decrements);
      }
    }
    if 0 < groupSize < n {
      var states := AllReadFirst(groupSize, n);
      assert Overrun(groupSize, n, states);
    }
  }

  lemma {:induction false} CallsGrow(groupSize: uint64, states: seq<State>, i: nat, j: nat)
    requires Run(groupSize, states) && i <= j < |states|
    ensures states[i].calls <= states[j].calls
    decreases j
  {
    if i < j {
      CallsGrow(groupSize, states, i, j - 1);
      assert LoadStep(states[j - 1], states[j]) || SubStep(states[j - 1], states[j]) ||
             CloseStep(states[j - 1], states[j]);
    }
  }

  /** After k steps of a run in which n calls read the counter before the first of them decrements it. */
  ghost function Reading(groupSize: uint64, n: nat, k: nat): State
    requires k <= n + groupSize + 1
  {
    if k <= n then State(groupSize, k, k, 0, 0, 0)
    else
      var m := k - n;
      State((groupSize - m) % TWO64, n, if m <= n then n - m else 0, m, if m < groupSize then 0 else 1, 0)
  }

  lemma AllReadFirst(groupSize: uint64, n: nat) returns (states: seq<State>)
    requires 0 < groupSize < n
    ensures GoesBelowZero(groupSize, states)
    ensures states[|states| - 1] == State(TWO64 - 1, n, n - groupSize - 1, groupSize + 1, 1, 0)
  {
    var last := n + groupSize + 1;
    states := seq(last + 1, k requires 0 <= k <= last => Reading(groupSize, n, k));
    forall k | 0 <= k < last ensures LoadStep(states[k], states[k + 1]) || SubStep(states[k], states[k + 1]) {
      ReadingStep(groupSize, n, k);
    }
    ReadingStep(groupSize, n, last - 1);
    assert FromZero(states[last - 1], states[last - 1 + 1]);
  }

  lemma ReadingStep(groupSize: uint64, n: nat, k: nat)
    requires 0 < groupSize < n && k < n + groupSize + 1
    ensures var s, s' := Reading(groupSize, n, k), Reading(groupSize, n, k + 1);
            if k < n then LoadStep(s, s')
            else SubStep(s, s') && (k == n + groupSize ==> s.count == 0 && s'.count == TWO64 - 1)
  {
    if k >= n {
      Decrement(groupSize - (k - n));
      if k < n + groupSize {
        DivModUnique(groupSize - (k - n), TWO64, 0, groupSize - (k - n));
      } else {
        DivModUnique(-1, TWO64, -1, TWO64 - 1);
      }
    }
  }

  /** Two calls that both read the counter of a group of one before either decrements it. */
  lemma CounterBelowZero() returns (states: seq<State>)
    ensures GoesBelowZero(1, states) && states[|states| - 1] == State(TWO64 - 1, 2, 0, 2, 1, 0)
  {
    states := AllReadFirst(1, 2);
  }

  /** The counter and the two halves of close(), with the state they have led to. */
  class GroupClose {
    var count: uint64
    ghost var state: State

    ghost predicate Valid()
      reads this
    {
      state.count == count
    }

    constructor (groupSize: uint64)
      ensures Valid() && state == State(groupSize, 0, 0, 0, 0, 0)
    {
      count := groupSize;
      state := State(groupSize, 0, 0, 0, 0, 0);
    }

    /** Whether the call goes on to decrement. */
    method Load() returns (goOn: bool)
      requires Valid()
      modifies this
      ensures Valid() && LoadStep(old(state), state)
      ensures goOn <==> state.checked == old(state).checked + 1
    {
      goOn := count != 0;
      state := state.(calls := state.calls + 1, checked := if goOn then state.checked + 1 else state.checked);
    }

    /** Whether this decrement closes the queue. */
    method FetchSub() returns (last: bool)
      requires Valid() && state.checked > 0
      modifies this
      ensures Valid() && SubStep(old(state), state)
      ensures last <==> state.due == old(state).due + 1
    {
      last := count == 1;
      count := (count - 1) % TWO64;
      state := state.(count := count, checked := state.checked - 1, decrements := state.decrements + 1,
                      due := if last then state.due + 1 else state.due);
    }
  }
}
