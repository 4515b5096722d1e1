/** Any number of threads that wait, signal and broadcast on one condition variable.
    Each section under the internal lock, each SetEvent and each end of a wait is one
    step, and the steps of different threads interleave in any way. */
module ConditionVariableProtocol {
  import opened ConditionVariableLists

  /** Where a thread that is inside a method of the condition variable stands. */
  datatype Place =
    | Blocked(e: nat)           // waiting for event e
    | Returning(e: nat, woken: bool)  // the wait on e ended, by its set event or not; e is not yet recycled
    | Setting(handles: seq<nat>)  // SetEvent is still owed to these events, in this order

  /** What happened to the events, in order. */
  datatype Mark =
    | Registered(t: nat, e: nat)  // t starts to wait on e
    | Popped(e: nat)              // e is selected by a Signal or Broadcast
    | Woken(t: nat, e: nat)       // t's wait on e ends because e is set
    | TimedOut(t: nat, e: nat)    // t's wait on e ends otherwise
    | Recycled(t: nat, e: nat)    // t gives e back

  /** A thread that is in none of the methods has no entry in `threads`. */
  datatype State = State(lists: Lists, signaled: set<nat>, threads: map<nat, Place>, history: seq<Mark>)

  datatype Step =
    | BeginWait(t: nat)
    | WakeBySet(t: nat)
    | WakeByTimeout(t: nat)
    | EndWait(t: nat)
    | Signal(t: nat)
    | Broadcast(t: nat)
    | SetOne(t: nat)

  const START := State(EMPTY, {}, map[], [])

  predicate Enabled(s: State, step: Step) {
    match step
    case BeginWait(t) => t !in s.threads
    case WakeBySet(t) => t in s.threads && s.threads[t].Blocked? && s.threads[t].e in s.signaled
    case WakeByTimeout(t) => t in s.threads && s.threads[t].Blocked?
    case EndWait(t) => t in s.threads && s.threads[t].Returning?
    case Signal(t) => t !in s.threads
    case Broadcast(t) => t !in s.threads
    case SetOne(t) => t in s.threads && s.threads[t].Setting? && s.threads[t].handles != []
  }

  /** When a step can be taken: a thread does one thing at a time, a wait ends when its event
      is set, or at any time by its timeout. */
  lemma EnabledSpelledOut(s: State, t: nat)
    ensures Enabled(s, BeginWait(t)) <==> t !in s.threads
    ensures Enabled(s, Signal(t)) <==> t !in s.threads
    ensures Enabled(s, Broadcast(t)) <==> t !in s.threads
    ensures Enabled(s, WakeBySet(t)) <==> exists e :: t in s.threads && s.threads[t] == Blocked(e) && e in s.signaled
    ensures Enabled(s, WakeByTimeout(t)) <==> exists e :: t in s.threads && s.threads[t] == Blocked(e)
    ensures Enabled(s, EndWait(t)) <==> exists e, woken :: t in s.threads && s.threads[t] == Returning(e, woken)
    ensures Enabled(s, SetOne(t)) <==> exists hs :: t in s.threads && s.threads[t] == Setting(hs) && hs != []
  {
  }

  /** The thread after it was left with these SetEvents to do. */
  function SetThreads(threads: map<nat, Place>, t: nat, handles: seq<nat>): map<nat, Place> {
    if handles == [] then threads - {t} else threads[t := Setting(handles)]
  }

  function Pops(handles: seq<nat>): seq<Mark> {
    seq(|handles|, k requires 0 <= k < |handles| => Popped(handles[k]))
  }

  function Apply(s: State, step: Step): State
    requires Enabled(s, step)
  {
    var t := step.t;
    match step
    case BeginWait(_) =>
      var e := EventForWaiting(s.lists);
      s.(lists := GetEvent(s.lists), threads := s.threads[t := Blocked(e)], history := s.history + [Registered(t, e)])
    case WakeBySet(_) =>
      var e := s.threads[t].e;
      s.(signaled := s.signaled - {e}, threads := s.threads[t := Returning(e, true)],
         history := s.history + [Woken(t, e)])
    case WakeByTimeout(_) =>
      var e := s.threads[t].e;
      s.(threads := s.threads[t := Returning(e, false)], history := s.history + [TimedOut(t, e)])
    case EndWait(_) =>
      var e := s.threads[t].e;
      s.(lists := Recycle(s.lists, e), threads := s.threads - {t}, history := s.history + [Recycled(t, e)])
    case Signal(_) =>
      if s.lists.waiting == [] then s else
        var e := SignalTarget(s.lists);
        s.(lists := PopForSignal(s.lists), threads := s.threads[t := Setting([e])], history := s.history + [Popped(e)])
    case Broadcast(_) =>
      var all := s.lists.waiting;
      s.(lists := PopForBroadcast(s.lists), threads := SetThreads(s.threads, t, all), history := s.history + Pops(all))
    case SetOne(_) =>
      var handles := s.threads[t].handles;
      s.(signaled := s.signaled + {handles[0]}, threads := SetThreads(s.threads, t, handles[1..]))
  }

  /** The steps can be taken one after the other from s. */
  predicate Runs(s: State, steps: seq<Step>)
    decreases |steps|
  {
    steps == [] || (Enabled(s, steps[0]) && Runs(Apply(s, steps[0]), steps[1..]))
  }

  function Run(s: State, steps: seq<Step>): State
    requires Runs(s, steps)
    decreases |steps|
  {
    if steps == [] then s else Run(Apply(s, steps[0]), steps[1..])
  }

  // ---------- What holds in every reachable state ----------

  predicate Holds(s: State, t: nat, e: nat) {
    t in s.threads && !s.threads[t].Setting? && s.threads[t].e == e
  }

  predicate Owes(s: State, t: nat, e: nat) {
    t in s.threads && s.threads[t].Setting? && e in s.threads[t].handles
  }

  ghost predicate Owed(s: State, e: nat) {
    exists t: nat :: Owes(s, t, e)
  }

  /** The threads between getting an event and recycling it. */
  ghost function Holders(s: State): set<nat> {
    set t | t in s.threads && !s.threads[t].Setting?
  }

  /** Every event that is not up for reuse is held by one thread, and by no other. */
  ghost predicate Exclusive(s: State) {
    && (forall t: nat, e: nat :: Holds(s, t, e) ==> 0 < e <= s.lists.allocations && e !in s.lists.recycling)
    && (forall t: nat, u: nat, e: nat :: Holds(s, t, e) && Holds(s, u, e) ==> t == u)
    && (forall e: nat :: 0 < e <= s.lists.allocations && e !in s.lists.recycling ==> exists t: nat :: Holds(s, t, e))
  }

  /** A waiting thread's event is listed, or about to be set, or set. */
  ghost predicate NoLostWakeup(s: State) {
    forall t :: t in s.threads && s.threads[t].Blocked? ==>
      Reachable(s, s.threads[t].e)
  }

  ghost predicate Inv(s: State) {
    Sound(s.lists) && Exclusive(s) && NoLostWakeup(s)
  }

  lemma StartInv()
    ensures Inv(START)
  {
  }

  lemma BeginWaitExclusive(s: State, t: nat)
    requires Sound(s.lists) && Exclusive(s) && Enabled(s, BeginWait(t))
    ensures Exclusive(Apply(s, BeginWait(t)))
  {
    var s', e := Apply(s, BeginWait(t)), EventForWaiting(s.lists);
    GetEventSound(s.lists);
    assert Holds(s', t, e);
    assert forall u: nat, f: nat :: Holds(s', u, f) <==> Holds(s, u, f) || (u == t && f == e);
    forall f: nat | 0 < f <= s'.lists.allocations && f !in s'.lists.recycling
      ensures exists u: nat :: Holds(s', u, f)
    {
      if f != e {
        assert f <= s.lists.allocations && f !in s.lists.recycling;
        var u: nat :| Holds(s, u, f);
        assert Holds(s', u, f);
      }
    }
  }

  lemma EndWaitExclusive(s: State, t: nat)
    requires Sound(s.lists) && Exclusive(s) && Enabled(s, EndWait(t))
    ensures Exclusive(Apply(s, EndWait(t)))
  {
    var s', e := Apply(s, EndWait(t)), s.threads[t].e;
    assert Holds(s, t, e);
    assert forall u: nat, f: nat :: Holds(s', u, f) <==> Holds(s, u, f) && u != t;
    forall f: nat | 0 < f <= s'.lists.allocations && f !in s'.lists.recycling
      ensures exists u: nat :: Holds(s', u, f)
    {
      assert s'.lists.recycling == s.lists.recycling + [e];
      var u: nat :| Holds(s, u, f);
      assert Holds(s', u, f);
    }
  }

  /** The other steps neither hand out events nor take them back. */
  lemma OthersExclusive(s: State, step: Step)
    requires Exclusive(s) && Enabled(s, step) && !step.BeginWait? && !step.EndWait?
    ensures Exclusive(Apply(s, step))
  {
    var s' := Apply(s, step);
    forall u: nat, f: nat
      ensures Holds(s', u, f) <==> Holds(s, u, f)
    {
    }
    forall f: nat | 0 < f <= s'.lists.allocations && f !in s'.lists.recycling
      ensures exists u: nat :: Holds(s', u, f)
    {
      var u: nat :| Holds(s, u, f);
      assert Holds(s', u, f);
    }
  }

  lemma ExclusiveStep(s: State, step: Step)
    requires Inv(s) && Enabled(s, step)
    ensures Sound(Apply(s, step).lists) && Exclusive(Apply(s, step))
  {
    match step
    case BeginWait(t) =>
      GetEventSound(s.lists);
      BeginWaitExclusive(s, t);
    case EndWait(t) =>
      assert Holds(s, t, s.threads[t].e);
      RecycleSound(s.lists, s.threads[t].e);
      EndWaitExclusive(s, t);
    case _ =>
      PopSound(s.lists);
      OthersExclusive(s, step);
  }

  /** Where the event of a blocked thread may be. */
  ghost predicate Reachable(s: State, e: nat) {
    e in s.lists.waiting || Owed(s, e) || e in s.signaled
  }

  /** No step of another thread makes the event of a blocked thread unreachable. */
  lemma ReachableStep(s: State, step: Step, t: nat)
    requires Inv(s) && Enabled(s, step) && t != step.t
    requires t in s.threads && s.threads[t].Blocked?
    ensures Reachable(Apply(s, step), s.threads[t].e)
  {
    var s', e := Apply(s, step), s.threads[t].e;
    assert Holds(s, t, e) && Reachable(s, e);
    if u: nat :| Owes(s, u, e) {
      assert Owes(s', u, e) || e in s'.signaled;
    } else {
      match step
      case Signal(u) => assert e in s.lists.waiting ==> e in s'.lists.waiting || Owes(s', u, e);
      case Broadcast(u) => assert e in s.lists.waiting ==> Owes(s', u, e);
      case WakeBySet(u) => assert Holds(s, u, s.threads[u].e);
      case EndWait(u) => assert Holds(s, u, s.threads[u].e);
      case _ =>
    }
  }

  lemma InvStep(s: State, step: Step)
    requires Inv(s) && Enabled(s, step)
    ensures Inv(Apply(s, step))
  {
    var s' := Apply(s, step);
    ExclusiveStep(s, step);
    forall t | t in s'.threads && s'.threads[t].Blocked?
      ensures Reachable(s', s'.threads[t].e)
    {
      if t != step.t {
        ReachableStep(s, step, t);
      }
    }
  }

  /** In every reachable state, with any number of threads and timeouts, each event
      that is in use belongs to one thread, and no wakeup is lost. */
  lemma {:induction false} EveryRunKeepsInv(s: State, steps: seq<Step>)
    requires Inv(s) && Runs(s, steps)
    ensures Inv(Run(s, steps))
    decreases |steps|
  {
    if steps != [] {
      InvStep(s, steps[0]);
      EveryRunKeepsInv(Apply(s, steps[0]), steps[1..]);
    }
  }

  /** The same in plain terms, from the start: a blocked thread's event is listed, or set, or
      some thread still has to set it; and no two threads between getting and recycling an
      event have the same one. */
  lemma NoWakeupIsLost(steps: seq<Step>, t: nat)
    requires Runs(START, steps) && t in Run(START, steps).threads
    ensures var s := Run(START, steps);
            s.threads[t].Blocked? ==>
              || s.threads[t].e in s.lists.waiting || s.threads[t].e in s.signaled
              || exists u :: u in s.threads && s.threads[u].Setting? && s.threads[t].e in s.threads[u].handles
    ensures var s := Run(START, steps);
            !s.threads[t].Setting? ==>
              && s.threads[t].e !in s.lists.recycling
              && forall u :: u in s.threads && u != t && !s.threads[u].Setting? ==> s.threads[u].e != s.threads[t].e
  {
    StartInv();
    EveryRunKeepsInv(START, steps);
    var s := Run(START, steps);
    assert !s.threads[t].Setting? ==> Holds(s, t, s.threads[t].e);
    if s.threads[t].Blocked? {
      assert Reachable(s, s.threads[t].e);
    }
    assert forall u :: u in s.threads && !s.threads[u].Setting? ==> Holds(s, u, s.threads[u].e);
  }

  // ---------- A broadcast or signal reaches the threads it selects ----------

  /** t is blocked on an event that is set, or that b still has to set. */
  ghost predicate Pending(s: State, t: nat, b: nat, e: nat) {
    t in s.threads && s.threads[t] == Blocked(e) && (e in s.signaled || Owes(s, b, e))
  }

  /** Broadcast selects every waiter, in the order in which they began to wait. */
  lemma BroadcastSelectsAll(s: State, b: nat, t: nat)
    requires Inv(s) && Enabled(s, Broadcast(b))
    requires t in s.threads && s.threads[t].Blocked? && s.threads[t].e in s.lists.waiting
    ensures Pending(Apply(s, Broadcast(b)), t, b, s.threads[t].e)
    ensures Apply(s, Broadcast(b)).threads[b] == Setting(s.lists.waiting)
    ensures Apply(s, Broadcast(b)).lists == s.lists.(waiting := [])
  {
  }

  /** Signal selects the most recent waiter. */
  lemma SignalSelectsNewest(s: State, b: nat) returns (t: nat)
    requires Inv(s) && Enabled(s, Signal(b)) && s.lists.waiting != []
    ensures Holds(s, t, s.lists.waiting[|s.lists.waiting| - 1])
    ensures Apply(s, Signal(b)).threads[b] == Setting([s.lists.waiting[|s.lists.waiting| - 1]])
    ensures s.threads[t].Blocked? ==> Pending(Apply(s, Signal(b)), t, b, s.threads[t].e)
  {
    var e := s.lists.waiting[|s.lists.waiting| - 1];
    t :| Holds(s, t, e);
  }

  lemma PendingStep(s: State, step: Step, t: nat, b: nat, e: nat)
    requires Inv(s) && Enabled(s, step) && step.t != t && Pending(s, t, b, e)
    ensures Pending(Apply(s, step), t, b, e)
  {
    assert Holds(s, t, e);
    if step.WakeBySet? {
      assert Holds(s, step.t, s.threads[step.t].e);
    }
  }

  /** Whatever the other threads do, once the signaling thread has finished the event of
      a selected thread is set, so that its wait can end. */
  lemma {:induction false} SelectedThreadsAreWoken(s: State, steps: seq<Step>, t: nat, b: nat, e: nat)
    requires Inv(s) && Pending(s, t, b, e) && Runs(s, steps)
    requires forall k :: 0 <= k < |steps| ==> steps[k].t != t
    ensures Pending(Run(s, steps), t, b, e)
    ensures b !in Run(s, steps).threads ==> Enabled(Run(s, steps), WakeBySet(t))
    decreases |steps|
  {
    if steps != [] {
      PendingStep(s, steps[0], t, b, e);
      InvStep(s, steps[0]);
      SelectedThreadsAreWoken(Apply(s, steps[0]), steps[1..], t, b, e);
    }
  }

  /** The events that thread b sets during a run, in order. */
  function SetBy(s: State, steps: seq<Step>, b: nat): seq<nat>
    requires Runs(s, steps)
    decreases |steps|
  {
    if steps == [] then []
    else
      (if steps[0] == SetOne(b) then [s.threads[b].handles[0]] else []) + SetBy(Apply(s, steps[0]), steps[1..], b)
  }

  /** What a thread still has to set. */
  function LeftToSet(s: State, b: nat): seq<nat> {
    if b in s.threads && s.threads[b].Setting? then s.threads[b].handles else []
  }

  lemma LeftToSetStep(s: State, step: Step, b: nat)
    requires Enabled(s, step) && (step.t == b ==> step.SetOne?)
    ensures LeftToSet(s, b) ==
            (if step == SetOne(b) then [s.threads[b].handles[0]] else []) + LeftToSet(Apply(s, step), b)
  {
    if step == SetOne(b) {
      var handles := s.threads[b].handles;
      assert handles == [handles[0]] + handles[1..];
    }
  }

  lemma {:induction false} SetsInOrder(s: State, steps: seq<Step>, b: nat)
    requires Runs(s, steps) && forall k :: 0 <= k < |steps| && steps[k].t == b ==> steps[k].SetOne?
    ensures SetBy(s, steps, b) + LeftToSet(Run(s, steps), b) == LeftToSet(s, b)
    decreases |steps|
  {
    hide LeftToSet;
    if steps != [] {
      LeftToSetStep(s, steps[0], b);
      SetsInOrder(Apply(s, steps[0]), steps[1..], b);
    } else {
      assert [] + LeftToSet(s, b) == LeftToSet(s, b);
    }
  }

  /** Whatever the other threads do meanwhile, the broadcasting thread sets the events that
      were waiting at the broadcast, oldest first; when it is done, it has set exactly these. */
  lemma BroadcastSetsAllInOrder(s: State, b: nat, steps: seq<Step>)
    requires Enabled(s, Broadcast(b)) && Runs(Apply(s, Broadcast(b)), steps)
    requires forall k :: 0 <= k < |steps| && steps[k].t == b ==> steps[k].SetOne?
    ensures var s' := Apply(s, Broadcast(b));
            && SetBy(s', steps, b) + LeftToSet(Run(s', steps), b) == s.lists.waiting
            && (b !in Run(s', steps).threads ==> SetBy(s', steps, b) == s.lists.waiting)
  {
    SetsInOrder(Apply(s, Broadcast(b)), steps, b);
  }

  // ---------- The counters ----------

  ghost predicate Balanced(s: State) {
    s.lists.allocations == |s.lists.recycling| + |Holders(s)|
  }

  lemma HoldersStep(s: State, step: Step)
    requires Enabled(s, step)
    ensures |Holders(Apply(s, step))| == |Holders(s)| + if step.BeginWait? then 1 else if step.EndWait? then -1 else 0
  {
    hide Recycle, GetEvent, EventForWaiting, PopForSignal, PopForBroadcast, SignalTarget, Pops;
    var t := step.t;
    assert Holders(Apply(s, step)) ==
           if step.BeginWait? then Holders(s) + {t} else if step.EndWait? then Holders(s) - {t} else Holders(s);
  }

  lemma BalancedStep(s: State, step: Step)
    requires Inv(s) && Balanced(s) && Enabled(s, step)
    ensures var s' := Apply(s, step);
            Balanced(s') && s'.lists.allocations == Max(s.lists.allocations, |Holders(s')|)
  {
    hide Exclusive, NoLostWakeup, Sound, Without, Holders, Pops, SetThreads;
    HoldersStep(s, step);
    GetEventSound(s.lists);
  }

  function Max(m: nat, n: nat): nat {
    if m < n then n else m
  }

  /** The largest number of simultaneous waiters during a run. */
  ghost function Peak(s: State, steps: seq<Step>): nat
    requires Runs(s, steps)
    decreases |steps|
  {
    if steps == [] then |Holders(s)| else Max(|Holders(s)|, Peak(Apply(s, steps[0]), steps[1..]))
  }

  lemma {:induction false} AllocationsFollowPeak(s: State, steps: seq<Step>)
    requires Inv(s) && Balanced(s) && Runs(s, steps)
    ensures Balanced(Run(s, steps))
    ensures Run(s, steps).lists.allocations == Max(s.lists.allocations, Peak(s, steps))
    decreases |steps|
  {
    if steps != [] {
      BalancedStep(s, steps[0]);
      InvStep(s, steps[0]);
      AllocationsFollowPeak(Apply(s, steps[0]), steps[1..]);
    }
  }

  /** They are the threads in Wait. */
  lemma HoldersWait(s: State, t: nat)
    ensures t in Holders(s) <==> t in s.threads && (s.threads[t].Blocked? || s.threads[t].Returning?)
  {
  }

  /** The peak is the largest number of threads that have an event after some part of the run. */
  lemma {:induction false} PeakIsReached(s: State, steps: seq<Step>) returns (n: nat)
    requires Runs(s, steps)
    ensures n <= |steps| && Runs(s, steps[..n])
    ensures Peak(s, steps) == |Holders(Run(s, steps[..n]))|
    decreases |steps|
  {
    hide Apply, Holders;
    assert steps[..0] == [];
    if steps == [] || |Holders(s)| >= Peak(Apply(s, steps[0]), steps[1..]) {
      n := 0;
    } else {
      var m := PeakIsReached(Apply(s, steps[0]), steps[1..]);
      n := m + 1;
      assert steps[..n][0] == steps[0] && steps[..n][1..] == steps[1..][..m];
    }
  }

  lemma {:induction false} PeakIsLargest(s: State, steps: seq<Step>, n: nat)
    requires Runs(s, steps) && n <= |steps|
    ensures Runs(s, steps[..n])
    ensures |Holders(Run(s, steps[..n]))| <= Peak(s, steps)
    decreases |steps|
  {
    hide Apply, Holders;
    if n == 0 {
      assert steps[..n] == [];
    } else {
      assert steps[..n][0] == steps[0] && steps[..n][1..] == steps[1..][..n - 1];
      PeakIsLargest(Apply(s, steps[0]), steps[1..], n - 1);
    }
  }

  /** The counters after any run: no more events exist than were needed at once. */
  lemma CountersAreExact(steps: seq<Step>)
    requires Runs(START, steps)
    ensures var s := Run(START, steps);
            && s.lists.allocations == s.lists.recyclingSize + |Holders(s)|
            && s.lists.recyclingSize == |s.lists.recycling|
            && s.lists.allocations == Peak(START, steps)
  {
    StartInv();
    EveryRunKeepsInv(START, steps);
    AllocationsFollowPeak(START, steps);
  }

  // ---------- Some runs ----------

  lemma NoStep(s: State)
    ensures Runs(s, []) && Run(s, []) == s
  {
  }

  lemma FirstStep(s: State, step: Step, rest: seq<Step>) returns (steps: seq<Step>)
    requires Enabled(s, step) && Runs(Apply(s, step), rest)
    ensures steps == [step] + rest && Runs(s, steps) && Run(s, steps) == Run(Apply(s, step), rest)
  {
    steps := [step] + rest;
    assert steps[1..] == rest;
  }

  /** Of two waiting threads a signal sets the event of the one that came last. */
  lemma SignalSetsTheLast()
    ensures var steps := [BeginWait(5), BeginWait(6), Signal(7), SetOne(7)];
            Runs(START, steps) && var s := Run(START, steps);
            && s.lists == Lists([1], [], 0, 2) && s.signaled == {2} && s.threads == map[5 := Blocked(1), 6 := Blocked(2)]
            && s.history == [Registered(5, 1), Registered(6, 2), Popped(2)]
  {
    hide Runs, Run;
    var s1 := Apply(START, BeginWait(5));
    var s2 := Apply(s1, BeginWait(6));
    var s3 := Apply(s2, Signal(7));
    var s4 := Apply(s3, SetOne(7));
    NoStep(s4);
    var r4 := FirstStep(s3, SetOne(7), []);
    var r3 := FirstStep(s2, Signal(7), r4);
    var r2 := FirstStep(s1, BeginWait(6), r3);
    var r1 := FirstStep(START, BeginWait(5), r2);
    assert r1 == [BeginWait(5), BeginWait(6), Signal(7), SetOne(7)];
  }

  /** A broadcast sets the event of the one that came first, and then the other. */
  lemma BroadcastSetsBoth()
    ensures var steps := [BeginWait(5), BeginWait(6), Broadcast(7), SetOne(7)];
            Runs(START, steps) && var s := Run(START, steps);
            && s.lists == Lists([], [], 0, 2) && s.signaled == {1}
            && s.threads == map[5 := Blocked(1), 6 := Blocked(2), 7 := Setting([2])]
            && s.history == [Registered(5, 1), Registered(6, 2), Popped(1), Popped(2)]
  {
    hide Runs, Run;
    var s1 := Apply(START, BeginWait(5));
    var s2 := Apply(s1, BeginWait(6));
    var s3 := Apply(s2, Broadcast(7));
    var s4 := Apply(s3, SetOne(7));
    NoStep(s4);
    var r4 := FirstStep(s3, SetOne(7), []);
    var r3 := FirstStep(s2, Broadcast(7), r4);
    var r2 := FirstStep(s1, BeginWait(6), r3);
    var r1 := FirstStep(START, BeginWait(5), r2);
    assert r1 == [BeginWait(5), BeginWait(6), Broadcast(7), SetOne(7)];
  }
}
