/** A bounded queue shared by threads (src/common/BlockingQueue.h). What a thread does while it holds the mutex is one
    step; waiting on a condition variable ends a step and puts the thread to sleep. A thread that is woken, by a
    notification or for no reason, competes for the mutex with the others, new callers included. */
module BlockingQueues {

  /** The call a thread is in after it has slept. */
  datatype Call<T> = Push(value: T) | Pop | Close(wait: bool)

  /** What a step ends in: a return, or sleep; or, for a sleeping thread, waking. */
  datatype Event<T> =
    | Pushed(value: T)
    | PushRefused
    | Popped(value: T)
    | PopRefused
    | CloseReturned(waited: bool)
    | Slept(call: Call<T>)
    | Woke

  /** The fields of the queue, the threads asleep on either condition variable, and the calls of all threads that are
      asleep or woken. */
  datatype State<T> = State(
    maxSize: nat,
    queue: seq<T>,
    closed: bool,
    haveData: set<nat>,
    haveSpace: set<nat>,
    calls: map<nat, Call<T>>)
  {
    /** Thread t may run the call: it has just made it, or it was woken in it. */
    ghost predicate MayRun(t: nat, call: Call<T>) {
      t !in haveData && t !in haveSpace && (t in calls ==> calls[t] == call)
    }

    ghost function WokenPushers(): set<nat> {
      set t | t in calls && calls[t].Push? && t !in haveSpace
    }

    ghost function WokenPoppers(): set<nat> {
      set t | t in calls && calls[t].Pop? && t !in haveData
    }

    ghost predicate WellFormed() {
      && (forall t :: t in haveData ==> t in calls && calls[t].Pop?)
      && (forall t :: t in haveSpace ==> t in calls && !calls[t].Pop?)
      && (forall t :: t in calls && calls[t].Close? ==> calls[t].wait)
      && |queue| <= maxSize
    }

    /** No wake-up is lost: threads sleep only while others, already woken, are enough to use up the items or the space
        there is. */
    ghost predicate Inv() {
      && WellFormed()
      && (!closed ==>
            && NoCloser(calls)
            && (haveSpace != {} ==> |queue| + |WokenPushers()| >= maxSize)
            && (haveData != {} ==> |queue| <= |WokenPoppers()|))
      && (closed ==>
            && haveData == {}
            && (forall t :: t in haveSpace ==> calls[t].Close?)
            && (queue == [] ==> haveSpace == {}))
    }
  }

  ghost function Start<T>(maxSize: nat): (s: State<T>)
    ensures s.Inv()
  {
    State(maxSize, [], false, {}, {}, map[])
  }

  // ---------------------------------------------------------------------------
  // Steps
  // ---------------------------------------------------------------------------

  /** notify_one: some one sleeper, if there is any. */
  ghost predicate NotifiedOne(before: set<nat>, after: set<nat>) {
    if before == {} then after == {} else exists t :: t in before && after == before - {t}
  }

  ghost predicate PushStep<T>(s: State<T>, t: nat, v: T, e: Event<T>, s': State<T>) {
    && s.MayRun(t, Push(v))
    && if !s.closed && |s.queue| >= s.maxSize then
         e == Slept(Push(v)) && s' == s.(haveSpace := s.haveSpace + {t}, calls := s.calls[t := Push(v)])
       else if s.closed then
         e == PushRefused && s' == s.(calls := s.calls - {t})
       else
         && e == Pushed(v)
         && NotifiedOne(s.haveData, s'.haveData)
         && s' == s.(queue := s.queue + [v], haveData := s'.haveData, calls := s.calls - {t})
  }

  ghost predicate PopStep<T>(s: State<T>, t: nat, e: Event<T>, s': State<T>) {
    && s.MayRun(t, Pop)
    && if s.queue == [] then
         if s.closed then e == PopRefused && s' == s.(calls := s.calls - {t})
         else e == Slept(Pop) && s' == s.(haveData := s.haveData + {t}, calls := s.calls[t := Pop])
       else
         && e == Popped(s.queue[0])
         && (if s.closed && |s.queue| == 1 then s'.haveSpace == {} else NotifiedOne(s.haveSpace, s'.haveSpace))
         && s' == s.(queue := s.queue[1..], haveSpace := s'.haveSpace, calls := s.calls - {t})
  }

  ghost predicate CloseStep<T>(s: State<T>, t: nat, wait: bool, e: Event<T>, s': State<T>) {
    && t !in s.calls && s.MayRun(t, Close(wait))
    && if wait && s.queue != [] then
         && e == Slept(Close(wait))
         && s' == s.(closed := true, haveData := {}, haveSpace := {t}, calls := s.calls[t := Close(wait)])
       else
         e == CloseReturned(wait) && s' == s.(closed := true, haveData := {}, haveSpace := {})
  }

  /** A woken thread looks again whether the queue it closed is empty. */
  ghost predicate CloseAgainStep<T>(s: State<T>, t: nat, e: Event<T>, s': State<T>) {
    && t in s.calls && s.MayRun(t, Close(true))
    && if s.queue != [] then e == Slept(Close(true)) && s' == s.(haveSpace := s.haveSpace + {t})
       else e == CloseReturned(true) && s' == s.(calls := s.calls - {t})
  }

  ghost predicate SpuriousStep<T>(s: State<T>, t: nat, e: Event<T>, s': State<T>) {
    && e == Woke
    && (t in s.haveData || t in s.haveSpace)
    && s' == s.(haveData := s.haveData - {t}, haveSpace := s.haveSpace - {t})
  }

  ghost predicate Step<T(!new)>(s: State<T>, e: Event<T>, s': State<T>) {
    || (exists t, v :: PushStep(s, t, v, e, s'))
    || (exists t :: PopStep(s, t, e, s'))
    || (exists t, wait :: CloseStep(s, t, wait, e, s'))
    || (exists t :: CloseAgainStep(s, t, e, s'))
    || (exists t :: SpuriousStep(s, t, e, s'))
  }

  // ---------------------------------------------------------------------------
  // What every step keeps
  // ---------------------------------------------------------------------------

  /** The woken pushers once thread t has left its call and the pushers in c have been woken. */
  lemma PushersAfter<T>(s: State<T>, t: nat, c: set<nat>, s': State<T>)
    requires s'.calls == s.calls - {t} && c <= s.haveSpace && t !in c && s'.haveSpace == s.haveSpace - c
    requires forall x :: x in c ==> x in s.calls && s.calls[x].Push?
    ensures |s'.WokenPushers()| == |s.WokenPushers() - {t}| + |c|
  {
    assert s'.WokenPushers() == (s.WokenPushers() - {t}) + c;
  }

  lemma PoppersAfter<T>(s: State<T>, t: nat, c: set<nat>, s': State<T>)
    requires s'.calls == s.calls - {t} && c <= s.haveData && t !in c && s'.haveData == s.haveData - c
    requires forall x :: x in c ==> x in s.calls && s.calls[x].Pop?
    ensures |s'.WokenPoppers()| == |s.WokenPoppers() - {t}| + |c|
  {
    assert s'.WokenPoppers() == (s.WokenPoppers() - {t}) + c;
  }

  /** A thread that is in one call is not among those woken in another. */
  lemma OtherCall<T>(s: State<T>, t: nat, call: Call<T>)
    requires s.MayRun(t, call)
    ensures call.Push? ==> s.WokenPoppers() - {t} == s.WokenPoppers()
    ensures call.Pop? ==> s.WokenPushers() - {t} == s.WokenPushers()
  {
  }

  lemma SleeperIsNotWoken<T>(s: State<T>, t: nat, call: Call<T>, s': State<T>)
    requires s.MayRun(t, call) && s'.calls == s.calls[t := call]
    requires if call.Pop? then s' == s.(haveData := s.haveData + {t}, calls := s'.calls)
             else s' == s.(haveSpace := s.haveSpace + {t}, calls := s'.calls)
    ensures call.Push? ==> s'.WokenPoppers() == s.WokenPoppers()
    ensures call.Pop? ==> s'.WokenPushers() == s.WokenPushers()
  {
  }

  lemma AllButOne(a: set<nat>, t: nat)
    ensures |a - {t}| >= |a| - 1
  {
  }

  lemma StaysWellFormed<T>(s: State<T>, t: nat, s': State<T>)
    requires s.WellFormed() && t !in s.haveData && t !in s.haveSpace
    requires s'.haveData <= s.haveData && s'.haveSpace <= s.haveSpace && s'.calls == s.calls - {t}
    requires s'.maxSize == s.maxSize && (|s'.queue| <= s.maxSize || |s'.queue| <= |s.queue|)
    ensures s'.WellFormed()
  {
  }

  /** A push that is accepted. */
  lemma PushedKeepsInv<T>(s: State<T>, t: nat, v: T, s': State<T>)
    requires s.Inv() && PushStep(s, t, v, Pushed(v), s')
    ensures s'.Inv()
  {
    hide State.WokenPushers, State.WokenPoppers, State.WellFormed;
    StaysWellFormed(s, t, s');
    PushersAfter(s, t, {}, s');
    AllButOne(s.WokenPushers(), t);
    if s'.haveData != {} {
      OtherCall(s, t, Push(v));
      var c :| c in s.haveData && s'.haveData == s.haveData - {c};
      SleepingPopper(s, c);
      PoppersAfter(s, t, {c}, s');
    }
  }

  lemma SleepingPopper<T>(s: State<T>, c: nat)
    requires s.WellFormed() && c in s.haveData
    ensures c in s.calls && s.calls[c].Pop?
  {
  }

  /** No thread is in a call of close. */
  ghost predicate NoCloser<T>(calls: map<nat, Call<T>>) {
    forall t :: t in calls ==> !calls[t].Close?
  }

  lemma StaysWellFormedAsleep<T>(s: State<T>, t: nat, call: Call<T>, s': State<T>)
    requires s.WellFormed() && s.MayRun(t, call) && s'.calls == s.calls[t := call] && call != Close(false)
    requires if call.Pop? then s' == s.(haveData := s.haveData + {t}, calls := s'.calls)
             else s' == s.(haveSpace := s.haveSpace + {t}, calls := s'.calls)
    ensures s'.WellFormed()
    ensures NoCloser(s.calls) && !call.Close? ==> NoCloser(s'.calls)
  {
  }

  lemma PushSleeps<T>(s: State<T>, t: nat, v: T, s': State<T>)
    requires s.Inv() && !s.closed && PushStep(s, t, v, Slept(Push(v)), s')
    ensures s'.Inv()
  {
    hide State.WokenPushers, State.WokenPoppers, State.WellFormed, NoCloser;
    SleeperIsNotWoken(s, t, Push(v), s');
    StaysWellFormedAsleep(s, t, Push(v), s');
  }

  lemma PopSleeps<T>(s: State<T>, t: nat, s': State<T>)
    requires s.Inv() && !s.closed && PopStep(s, t, Slept(Pop), s')
    ensures s'.Inv()
  {
    hide State.WokenPushers, State.WokenPoppers, State.WellFormed, NoCloser;
    SleeperIsNotWoken(s, t, Pop, s');
    StaysWellFormedAsleep(s, t, Pop, s');
  }

  lemma PushKeepsInv<T>(s: State<T>, t: nat, v: T, e: Event<T>, s': State<T>)
    requires s.Inv() && PushStep(s, t, v, e, s')
    ensures s'.Inv()
  {
    hide State.WokenPushers, State.WokenPoppers;
    if e.Slept? {
      PushSleeps(s, t, v, s');
    } else if e != PushRefused {
      PushedKeepsInv(s, t, v, s');
    }
  }

  /** A pop that finds an item. */
  lemma PoppedKeepsInv<T>(s: State<T>, t: nat, s': State<T>)
    requires s.Inv() && s.queue != [] && PopStep(s, t, Popped(s.queue[0]), s')
    ensures s'.Inv()
  {
    hide State.WokenPushers, State.WokenPoppers, State.WellFormed;
    StaysWellFormed(s, t, s');
    if !s.closed {
      hide PopStep;
      PoppedFromOpen(s, t, s');
    }
  }

  lemma PoppedFromOpen<T>(s: State<T>, t: nat, s': State<T>)
    requires s.Inv() && !s.closed && s.queue != [] && PopStep(s, t, Popped(s.queue[0]), s')
    ensures s'.haveSpace != {} ==> |s'.queue| + |s'.WokenPushers()| >= s.maxSize
    ensures s'.haveData != {} ==> |s'.queue| <= |s'.WokenPoppers()|
  {
    hide State.WokenPushers, State.WokenPoppers, State.WellFormed;
    PoppersAfter(s, t, {}, s');
    AllButOne(s.WokenPoppers(), t);
    if s'.haveSpace != {} {
      OtherCall(s, t, Pop);
      var c :| c in s.haveSpace && s'.haveSpace == s.haveSpace - {c};
      SleepingPusher(s, c);
      PushersAfter(s, t, {c}, s');
    }
  }

  lemma SleepingPusher<T>(s: State<T>, c: nat)
    requires s.Inv() && !s.closed && c in s.haveSpace
    ensures c in s.calls && s.calls[c].Push?
  {
  }

  lemma PopKeepsInv<T>(s: State<T>, t: nat, e: Event<T>, s': State<T>)
    requires s.Inv() && PopStep(s, t, e, s')
    ensures s'.Inv()
  {
    hide State.WokenPushers, State.WokenPoppers;
    if e.Slept? {
      PopSleeps(s, t, s');
    } else if e != PopRefused {
      PoppedKeepsInv(s, t, s');
    }
  }

  lemma CloseKeepsInv<T>(s: State<T>, t: nat, wait: bool, e: Event<T>, s': State<T>)
    requires s.Inv() && (CloseStep(s, t, wait, e, s') || CloseAgainStep(s, t, e, s'))
    ensures s'.Inv()
  {
  }

  lemma SpuriousKeepsInv<T>(s: State<T>, t: nat, e: Event<T>, s': State<T>)
    requires s.Inv() && SpuriousStep(s, t, e, s')
    ensures s'.Inv()
  {
    if t in s.haveData {
      assert s'.WokenPoppers() == s.WokenPoppers() + {t};
      assert s'.WokenPushers() == s.WokenPushers();
    } else {
      assert s'.WokenPoppers() == s.WokenPoppers();
      if !s.closed {
        assert s'.WokenPushers() == s.WokenPushers() + {t};
      }
    }
  }

  lemma StepKeepsInv<T(!new)>(s: State<T>, e: Event<T>, s': State<T>)
    requires s.Inv() && Step(s, e, s')
    ensures s'.Inv() && s'.maxSize == s.maxSize
  {
    hide State.Inv;
    if t, v :| PushStep(s, t, v, e, s') {
      PushKeepsInv(s, t, v, e, s');
    } else if t :| PopStep(s, t, e, s') {
      PopKeepsInv(s, t, e, s');
    } else if t, wait :| CloseStep(s, t, wait, e, s') {
      CloseKeepsInv(s, t, wait, e, s');
    } else if t :| CloseAgainStep(s, t, e, s') {
      CloseKeepsInv(s, t, true, e, s');
    } else {
      var t :| SpuriousStep(s, t, e, s');
      SpuriousKeepsInv(s, t, e, s');
    }
  }

  // ---------------------------------------------------------------------------
  // Whole runs
  // ---------------------------------------------------------------------------

  /** A run from the constructor on: the states between the events. */
  ghost predicate Run<T(!new)>(maxSize: nat, states: seq<State<T>>, events: seq<Event<T>>) {
    && |states| == |events| + 1
    && states[0] == Start(maxSize)
    && forall i :: 0 <= i < |events| ==> Step(states[i], events[i], states[i + 1])
  }

  /** The items accepted, and the items handed out, in the order of the events. */
  function Accepted<T>(events: seq<Event<T>>): (s: seq<T>) {
    if events == [] then []
    else
      var before := Accepted(events[..|events| - 1]);
      match events[|events| - 1]
      case Pushed(v) => before + [v]
      case _ => before
  }

  function HandedOut<T>(events: seq<Event<T>>): (s: seq<T>) {
    if events == [] then []
    else
      var before := HandedOut(events[..|events| - 1]);
      match events[|events| - 1]
      case Popped(v) => before + [v]
      case _ => before
  }

  /** What a step does to the items, and that closing is for good. */
  lemma StepEffect<T(!new)>(s: State<T>, e: Event<T>, s': State<T>)
    requires s.Inv() && Step(s, e, s')
    ensures match e
            case Pushed(v) => s'.queue == s.queue + [v] && !s.closed && |s.queue| < s.maxSize
            case Popped(v) => s.queue == [v] + s'.queue
            case PushRefused => s.closed && s'.queue == s.queue
            case PopRefused => s.closed && s'.queue == s.queue == []
            case CloseReturned(waited) => s'.closed && s'.queue == s.queue && (waited ==> s'.queue == [])
            case _ => s'.queue == s.queue
    ensures s.closed ==> s'.closed
  {
    hide State.WokenPushers, State.WokenPoppers;
  }

  /** Every state of every run keeps the invariant, and the items accepted are those handed out, in order, followed by
      those in the queue. */
  lemma {:induction false} RunKeeps<T(!new)>(maxSize: nat, states: seq<State<T>>, events: seq<Event<T>>, i: nat)
    requires Run(maxSize, states, events) && i <= |events|
    ensures states[i].Inv() && states[i].maxSize == maxSize
    ensures Accepted(events[..i]) == HandedOut(events[..i]) + states[i].queue
  {
    hide State.Inv, Step;
    if i > 0 {
      RunKeeps(maxSize, states, events, i - 1);
      assert Step(states[i - 1], events[i - 1], states[i]);
      StepKeepsInv(states[i - 1], events[i - 1], states[i]);
      StepEffect(states[i - 1], events[i - 1], states[i]);
      assert events[..i][..i - 1] == events[..i - 1];
    }
  }

  /** Once closed, always closed, and nothing more is accepted. */
  lemma {:induction false} ClosedForGood<T(!new)>(
    maxSize: nat, states: seq<State<T>>, events: seq<Event<T>>, i: nat, j: nat)
    requires Run(maxSize, states, events) && i <= j <= |events| && states[i].closed
    ensures states[j].closed && Accepted(events[..j]) == Accepted(events[..i])
    decreases j
  {
    hide State.Inv, Step;
    if i < j {
      ClosedForGood(maxSize, states, events, i, j - 1);
      RunKeeps(maxSize, states, events, j - 1);
      assert Step(states[j - 1], events[j - 1], states[j]);
      StepEffect(states[j - 1], events[j - 1], states[j]);
      assert events[..j][..j - 1] == events[..j - 1];
    }
  }

  /** A pop is refused only when the queue is closed and every item that will ever be accepted has been handed out. */
  lemma RefusedPopIsLast<T(!new)>(maxSize: nat, states: seq<State<T>>, events: seq<Event<T>>, i: nat)
    requires Run(maxSize, states, events) && i < |events| && events[i] == PopRefused
    ensures states[i].closed && HandedOut(events[..i]) == Accepted(events[..i]) == Accepted(events)
  {
    hide State.Inv, Step;
    RunKeeps(maxSize, states, events, i);
    assert Step(states[i], events[i], states[i + 1]);
    StepEffect(states[i], events[i], states[i + 1]);
    ClosedForGood(maxSize, states, events, i, |events|);
    assert events[..|events|] == events;
  }

  /** close(true) returns only when the queue is closed and empty: every item ever accepted has been handed out. */
  lemma WaitedCloseIsLast<T(!new)>(maxSize: nat, states: seq<State<T>>, events: seq<Event<T>>, i: nat)
    requires Run(maxSize, states, events) && i < |events| && events[i] == CloseReturned(true)
    ensures states[i + 1].closed && HandedOut(events[..i + 1]) == Accepted(events[..i + 1]) == Accepted(events)
  {
    hide State.Inv, Step;
    RunKeeps(maxSize, states, events, i);
    RunKeeps(maxSize, states, events, i + 1);
    assert Step(states[i], events[i], states[i + 1]);
    StepEffect(states[i], events[i], states[i + 1]);
    ClosedForGood(maxSize, states, events, i + 1, |events|);
    assert events[..|events|] == events;
  }

  /** In a reachable state where every thread that is in a call sleeps, they all have to: poppers only at an open and
      empty queue, pushers only at an open and full one, closers only at a closed one with items left. */
  lemma NobodyIsStuck<T(!new)>(maxSize: nat, states: seq<State<T>>, events: seq<Event<T>>, i: nat)
    requires Run(maxSize, states, events) && i <= |events|
    requires forall t :: t in states[i].calls ==> t in states[i].haveData + states[i].haveSpace
    ensures var s := states[i];
            forall t :: t in s.calls ==>
              match s.calls[t]
              case Pop => !s.closed && s.queue == []
              case Push(_) => !s.closed && |s.queue| == maxSize
              case Close(wait) => wait && s.closed && s.queue != []
  {
    hide Step;
    RunKeeps(maxSize, states, events, i);
    var s := states[i];
    assert s.WokenPushers() == {} && s.WokenPoppers() == {};
  }

  // ---------------------------------------------------------------------------
  // What a caller is owed
  // ---------------------------------------------------------------------------

  /** The call of thread t ends with this step. */
  ghost predicate Ends<T>(t: nat, e: Event<T>, s': State<T>) {
    !e.Slept? && t !in s'.calls && t !in s'.haveData && t !in s'.haveSpace
  }

  /** A push is accepted by an open queue with room, refused by a closed one, and sleeps at an open one that is full. */
  lemma PushIsAnswered<T>(s: State<T>, t: nat, v: T, e: Event<T>, s': State<T>)
    requires s.Inv() && PushStep(s, t, v, e, s')
    ensures !s.closed && |s.queue| < s.maxSize ==> e == Pushed(v) && s'.queue == s.queue + [v] && Ends(t, e, s')
    ensures s.closed ==> e == PushRefused && s'.queue == s.queue && Ends(t, e, s')
    ensures !s.closed && |s.queue| == s.maxSize ==> e == Slept(Push(v)) && t in s'.haveSpace && s'.queue == s.queue
  {
  }

  /** A pop hands out the oldest item, open or closed; without one it is refused by a closed queue and sleeps at an open
      one. */
  lemma PopIsAnswered<T>(s: State<T>, t: nat, e: Event<T>, s': State<T>)
    requires s.Inv() && PopStep(s, t, e, s')
    ensures s.queue != [] ==> e == Popped(s.queue[0]) && s'.queue == s.queue[1..] && Ends(t, e, s')
    ensures s.queue == [] && s.closed ==> e == PopRefused && s'.queue == [] && Ends(t, e, s')
    ensures s.queue == [] && !s.closed ==> e == Slept(Pop) && t in s'.haveData && s'.queue == []
  {
  }

  /** A close closes; it sleeps only if it is asked to wait and there are items, and returns in the same step
      otherwise. */
  lemma CloseIsAnswered<T>(s: State<T>, t: nat, wait: bool, e: Event<T>, s': State<T>)
    requires s.Inv() && CloseStep(s, t, wait, e, s')
    ensures s'.closed && s'.queue == s.queue
    ensures !wait || s.queue == [] ==> e == CloseReturned(wait) && Ends(t, e, s')
    ensures wait && s.queue != [] ==> e == Slept(Close(true)) && t in s'.haveSpace
  {
  }

  /** In every run: a thread goes to sleep only where its call has to wait. */
  lemma SleepsForCause<T(!new)>(maxSize: nat, states: seq<State<T>>, events: seq<Event<T>>, i: nat)
    requires Run(maxSize, states, events) && i < |events| && events[i].Slept?
    ensures var s := states[i];
            match events[i].call
            case Push(_) => !s.closed && |s.queue| == maxSize
            case Pop => !s.closed && s.queue == []
            case Close(wait) => wait && states[i + 1].closed && s.queue != []
  {
    hide State.WokenPushers, State.WokenPoppers;
    RunKeeps(maxSize, states, events, i);
    assert Step(states[i], events[i], states[i + 1]);
  }

  /** In every run close(false) returns in the step it is called in: no thread is ever between two steps of it. */
  lemma CloseReturnsAtOnce<T(!new)>(maxSize: nat, states: seq<State<T>>, events: seq<Event<T>>, i: nat, t: nat)
    requires Run(maxSize, states, events) && i <= |events|
    ensures t in states[i].calls ==> states[i].calls[t] != Close(false)
    ensures i < |events| && CloseStep(states[i], t, false, events[i], states[i + 1]) ==>
              events[i] == CloseReturned(false) && Ends(t, events[i], states[i + 1])
  {
    hide Step;
    RunKeeps(maxSize, states, events, i);
    if i < |events| && CloseStep(states[i], t, false, events[i], states[i + 1]) {
      CloseIsAnswered(states[i], t, false, events[i], states[i + 1]);
    }
  }

  // ---------------------------------------------------------------------------
  // The code of the critical sections
  // ---------------------------------------------------------------------------

  /** The queue with its condition variables, each the set of the threads asleep on it, and the calls that have slept.
      Each method is one critical section: from taking the mutex to returning or to the next wait. */
  class BlockingQueue<T> {
    const maxSize: nat
    var queue: seq<T>
    var closed: bool
    var haveData: set<nat>
    var haveSpace: set<nat>
    var calls: map<nat, Call<T>>

    ghost function View(): State<T>
      reads this
    {
      State(maxSize, queue, closed, haveData, haveSpace, calls)
    }

    constructor (maxSize: nat := 1)
      ensures View() == Start(maxSize)
    {
      this.maxSize := maxSize;
      queue, closed, haveData, haveSpace, calls := [], false, {}, {}, map[];
    }

    method NotifyOne(sleepers: set<nat>) returns (rest: set<nat>)
      ensures NotifiedOne(sleepers, rest)
    {
      rest := sleepers;
      if sleepers != {} {
        var t :| t in sleepers;
        rest := sleepers - {t};
      }
    }

    method PushSection(t: nat, v: T) returns (e: Event<T>)
      requires View().MayRun(t, Push(v))
      modifies this
      ensures PushStep(old(View()), t, v, e, View())
    {
      if !closed && |queue| >= maxSize {
        haveSpace, calls := haveSpace + {t}, calls[t := Push(v)];
        return Slept(Push(v));
      }
      calls := calls - {t};
      if closed {
        return PushRefused;
      }
      queue := queue + [v];
      haveData := NotifyOne(haveData);
      return Pushed(v);
    }

    method PopSection(t: nat) returns (e: Event<T>)
      requires View().MayRun(t, Pop)
      modifies this
      ensures PopStep(old(View()), t, e, View())
    {
      if queue == [] {
        if closed {
          calls := calls - {t};
          return PopRefused;
        }
        haveData, calls := haveData + {t}, calls[t := Pop];
        return Slept(Pop);
      }
      var v := queue[0];
      queue := queue[1..];
      if closed && queue == [] {
        haveSpace := {};
      } else {
        haveSpace := NotifyOne(haveSpace);
      }
      calls := calls - {t};
      return Popped(v);
    }

    method CloseSection(t: nat, wait: bool) returns (e: Event<T>)
      requires t !in calls && View().MayRun(t, Close(wait))
      modifies this
      ensures CloseStep(old(View()), t, wait, e, View())
    {
      closed, haveData, haveSpace := true, {}, {};
      if wait && queue != [] {
        haveSpace, calls := {t}, calls[t := Close(wait)];
        return Slept(Close(wait));
      }
      return CloseReturned(wait);
    }

    method CloseAgainSection(t: nat) returns (e: Event<T>)
      requires t in calls && View().MayRun(t, Close(true))
      modifies this
      ensures CloseAgainStep(old(View()), t, e, View())
    {
      if queue != [] {
        haveSpace := haveSpace + {t};
        return Slept(Close(true));
      }
      calls := calls - {t};
      return CloseReturned(true);
    }
  }
}
