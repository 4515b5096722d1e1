/** When a condition variable wakes a thread that nothing woke on purpose: exactly after a
    wait that timed out gave its event back although the event had been selected. */
module ConditionVariableWakeups {
  import opened ConditionVariableLists
  import opened ConditionVariableProtocol

  // ---------- Spurious wakeups ----------

  /** A wakeup by an event that nothing selected since the thread registered. */
  ghost predicate SpuriousAt(history: seq<Mark>, k: nat) {
    && k < |history| && history[k].Woken?
    && exists r: nat :: r < k && history[r] == Registered(history[k].t, history[k].e) &&
                        forall p :: r < p < k ==> history[p] != Popped(history[k].e)
  }

  /** A wait that timed out finds its event off the waiting list when it recycles it. */
  predicate Harmful(s: State, step: Step)
    requires Enabled(s, step)
  {
    step.EndWait? && !s.threads[step.t].woken && s.threads[step.t].e !in s.lists.waiting
  }

  predicate NoHarm(s: State, steps: seq<Step>)
    requires Runs(s, steps)
    decreases |steps|
  {
    steps == [] || (!Harmful(s, steps[0]) && NoHarm(Apply(s, steps[0]), steps[1..]))
  }

  /** The same, spelled out. */
  lemma HarmSpelledOut(s: State, t: nat)
    requires Enabled(s, EndWait(t))
    ensures Harmful(s, EndWait(t)) <==>
            s.threads[t] == Returning(s.threads[t].e, false) && forall k :: 0 <= k < |s.lists.waiting| ==> s.lists.waiting[k] != s.threads[t].e
  {
  }

  lemma SpuriousSpelledOut(history: seq<Mark>, k: nat, t: nat, e: nat)
    requires k < |history| && history[k] == Woken(t, e)
    ensures SpuriousAt(history, k) <==>
            exists r :: 0 <= r < k && history[r] == Registered(t, e) && forall p :: r < p < k ==> history[p] != Popped(e)
  {
  }

  // ---------- The life of one event ----------

  /** Expired: its wait timed out while it was listed. Late: its wait timed out, and it was
      selected. Answered: it was selected, and ended its wait. */
  datatype Phase = Free | Listed(t: nat) | Chosen(t: nat) | Expired(t: nat) | Late(t: nat) | Answered(t: nat) | Wrong

  function NextPhase(phase: Phase, mark: Mark, e: nat): Phase {
    if mark.e != e then phase else
      match (phase, mark)
      case (Free, Registered(t, _)) => Listed(t)
      case (Listed(t), Popped(_)) => Chosen(t)
      case (Listed(t), TimedOut(u, _)) => if t == u then Expired(t) else Wrong
      case (Chosen(t), Woken(u, _)) => if t == u then Answered(t) else Wrong
      case (Chosen(t), TimedOut(u, _)) => if t == u then Late(t) else Wrong
      case (Expired(t), Popped(_)) => Late(t)
      case (Expired(t), Recycled(u, _)) => if t == u then Free else Wrong
      case (Answered(t), Recycled(u, _)) => if t == u then Free else Wrong
      case _ => Wrong
  }

  function Track(history: seq<Mark>, e: nat): Phase {
    if history == [] then Free else NextPhase(Track(history[..|history| - 1], e), history[|history| - 1], e)
  }

  predicate IsListed(phase: Phase) {
    phase.Listed? || phase.Expired?
  }

  predicate IsSelected(phase: Phase) {
    phase.Chosen? || phase.Late?
  }

  predicate IsAt(s: State, t: nat, place: Place) {
    t in s.threads && s.threads[t] == place
  }

  predicate OwesAt(s: State, t: nat, k: nat, e: nat) {
    t in s.threads && s.threads[t].Setting? && k < |s.threads[t].handles| && s.threads[t].handles[k] == e
  }

  ghost predicate IsDue(s: State, e: nat) {
    e in s.signaled || Owed(s, e)
  }

  /** The event is where its history says. */
  ghost predicate PhaseFits(s: State, e: nat) {
    match Track(s.history, e)
    case Free => forall t: nat :: !Holds(s, t, e)
    case Listed(t) => e in s.lists.waiting && IsAt(s, t, Blocked(e))
    case Chosen(t) => IsAt(s, t, Blocked(e))
    case Expired(t) => e in s.lists.waiting && IsAt(s, t, Returning(e, false))
    case Late(t) => IsAt(s, t, Returning(e, false)) && IsDue(s, e)
    case Answered(t) => IsAt(s, t, Returning(e, true))
    case Wrong => false
  }

  ghost predicate PhasesFit(s: State) {
    && (forall e <- s.lists.waiting :: IsListed(Track(s.history, e)))
    && (forall e <- s.signaled :: IsSelected(Track(s.history, e)))
    && (forall e: nat :: PhaseFits(s, e))
  }

  /** Every SetEvent that is owed is owed once, to an event that was selected and is not yet set. */
  ghost predicate DebtsFit(s: State) {
    && (forall t: nat, k: nat, e: nat :: OwesAt(s, t, k, e) ==> IsSelected(Track(s.history, e)) && e !in s.signaled)
    && (forall t: nat, k: nat, u: nat, l: nat, e: nat :: OwesAt(s, t, k, e) && OwesAt(s, u, l, e) ==> t == u && k == l)
  }

  ghost predicate Faithful(s: State) {
    PhasesFit(s) && DebtsFit(s)
  }

  lemma StartFaithful()
    ensures Faithful(START)
  {
  }

  lemma Debt(s: State, t: nat, k: nat, e: nat)
    requires DebtsFit(s) && OwesAt(s, t, k, e)
    ensures IsSelected(Track(s.history, e)) && e !in s.signaled
  {
    hide Track, IsSelected;
  }

  lemma OwesIsSelected(s: State, t: nat, e: nat)
    requires DebtsFit(s) && Owes(s, t, e)
    ensures IsSelected(Track(s.history, e)) && e !in s.signaled
  {
    hide Track, DebtsFit, IsSelected;
    var k :| 0 <= k < |s.threads[t].handles| && s.threads[t].handles[k] == e;
    assert OwesAt(s, t, k, e);
    Debt(s, t, k, e);
  }

  /** Only one thread holds an event. */
  lemma OneHolder(s: State, t: nat, u: nat, e: nat)
    requires Inv(s) && Holds(s, t, e) && Holds(s, u, e)
    ensures t == u
  {
    hide NoLostWakeup, Sound;
  }

  lemma PhaseMeans(s: State, e: nat)
    requires PhasesFit(s)
    ensures var phase := Track(s.history, e);
            && phase != Wrong && PhaseFits(s, e)
            && (!phase.Free? ==> Holds(s, phase.t, e))
            && (e in s.lists.waiting <==> IsListed(phase)) && (e in s.signaled ==> IsSelected(phase))
  {
    hide Track;
    assert PhaseFits(s, e);
  }

  /** The phase of an event in use names the thread that holds it, and how. */
  lemma PhaseOfHolder(s: State, t: nat, e: nat)
    requires Inv(s) && PhasesFit(s) && Holds(s, t, e)
    ensures var phase := Track(s.history, e);
            && !phase.Free? && phase != Wrong && phase.t == t
            && (s.threads[t].Blocked? <==> phase.Listed? || phase.Chosen?)
            && (s.threads[t].Returning? && s.threads[t].woken <==> phase.Answered?)
  {
    hide Track, PhasesFit, Inv;
    PhaseMeans(s, e);
    var phase := Track(s.history, e);
    if !phase.Free? {
      OneHolder(s, t, phase.t, e);
    }
  }

  lemma PhasesAllFit(s: State)
    requires forall e: nat :: PhaseFits(s, e) && (e in s.lists.waiting ==> IsListed(Track(s.history, e)))
    requires forall e: nat :: e in s.signaled ==> IsSelected(Track(s.history, e))
    ensures PhasesFit(s)
  {
    hide Track, PhaseFits, IsListed, IsSelected;
  }

  /** With the same or fewer debts, whose events are as before. */
  lemma DebtsShrink(s: State, s': State)
    requires DebtsFit(s)
    requires forall t: nat, k: nat, e: nat :: OwesAt(s', t, k, e) ==>
               OwesAt(s, t, k, e) && IsSelected(Track(s'.history, e)) && e !in s'.signaled
    ensures DebtsFit(s')
  {
    hide Track, IsSelected;
  }

  lemma TrackAppend(history: seq<Mark>, mark: Mark, e: nat)
    ensures Track(history + [mark], e) == NextPhase(Track(history, e), mark, e)
  {
    assert (history + [mark])[..|history|] == history;
  }

  lemma {:induction false} TrackPops(history: seq<Mark>, handles: seq<nat>, e: nat)
    requires Distinct(handles)
    ensures Track(history + Pops(handles), e) ==
            if e in handles then NextPhase(Track(history, e), Popped(e), e) else Track(history, e)
  {
    hide NextPhase;
    if handles == [] {
      assert history + Pops(handles) == history;
    } else {
      var n := |handles| - 1;
      var before := handles[..n];
      assert history + Pops(handles) == (history + Pops(before)) + [Popped(handles[n])];
      TrackPops(history, before, e);
      TrackAppend(history + Pops(before), Popped(handles[n]), e);
      OtherEvent(Track(history, e), Popped(handles[n]), e);
      OtherEvent(NextPhase(Track(history, e), Popped(e), e), Popped(handles[n]), e);
      assert handles == before + [handles[n]];
    }
  }

  lemma OtherEvent(phase: Phase, mark: Mark, e: nat)
    ensures mark.e != e ==> NextPhase(phase, mark, e) == phase
  {
  }

  /** A set event, or one that some thread still has to set. */
  lemma DueSpelledOut(s: State, e: nat)
    ensures IsDue(s, e) <==>
            e in s.signaled || exists t :: t in s.threads && s.threads[t].Setting? && e in s.threads[t].handles
  {
    if t :| t in s.threads && s.threads[t].Setting? && e in s.threads[t].handles {
      assert Owes(s, t, e);
    }
  }

  // ---------- The steps ----------

  /** A due event stays due until it wakes a thread. */
  lemma DueStays(s: State, step: Step, e: nat)
    requires Enabled(s, step) && IsDue(s, e)
    requires step.WakeBySet? ==> s.threads[step.t].e != e
    ensures IsDue(Apply(s, step), e)
  {
    var s' := Apply(s, step);
    if u: nat :| Owes(s, u, e) {
      assert Owes(s', u, e) || e in s'.signaled;
    }
  }

  /** The event a thread gets is not in use, and so neither listed, nor set, nor owed. */
  lemma NewEventIsFree(s: State)
    requires Inv(s) && PhasesFit(s)
    ensures Track(s.history, EventForWaiting(s.lists)) == Free
    ensures EventForWaiting(s.lists) !in s.lists.waiting && EventForWaiting(s.lists) !in s.signaled
    ensures GetEvent(s.lists).waiting == s.lists.waiting + [EventForWaiting(s.lists)]
  {
    hide Track, PhasesFit, NoLostWakeup, Sound;
    var e := EventForWaiting(s.lists);
    GetEventSound(s.lists);
    PhaseMeans(s, e);
    assert forall u: nat :: !Holds(s, u, e);
  }

  lemma BeginWaitFaithful(s: State, t: nat)
    requires Inv(s) && Faithful(s) && Enabled(s, BeginWait(t))
    ensures Faithful(Apply(s, BeginWait(t)))
  {
    hide Track, PhasesFit, DebtsFit, Inv, EventForWaiting, GetEvent, IsDue;
    var s', e := Apply(s, BeginWait(t)), EventForWaiting(s.lists);
    NewEventIsFree(s);
    forall f: nat
      ensures Track(s'.history, f) == if f == e then Listed(t) else Track(s.history, f)
      ensures PhaseFits(s', f) && (f in s'.lists.waiting ==> IsListed(Track(s'.history, f)))
      ensures f in s'.signaled ==> IsSelected(Track(s'.history, f))
    {
      TrackAppend(s.history, Registered(t, e), f);
      PhaseMeans(s, f);
      if IsDue(s, f) {
        DueStays(s, BeginWait(t), f);
      }
      assert forall u: nat :: Holds(s', u, f) ==> Holds(s, u, f) || (u == t && f == e);
    }
    PhasesAllFit(s');
    forall u: nat, k: nat, f: nat | OwesAt(s', u, k, f)
      ensures OwesAt(s, u, k, f) && IsSelected(Track(s'.history, f)) && f !in s'.signaled
    {
      Debt(s, u, k, f);
    }
    DebtsShrink(s, s');
  }

  lemma WakeFaithful(s: State, t: nat)
    requires Inv(s) && Faithful(s) && Enabled(s, WakeBySet(t))
    ensures Faithful(Apply(s, WakeBySet(t)))
  {
    hide Track, PhasesFit, DebtsFit, Inv, IsDue;
    var s', e := Apply(s, WakeBySet(t)), s.threads[t].e;
    PhaseMeans(s, e);
    PhaseOfHolder(s, t, e);
    forall f: nat
      ensures Track(s'.history, f) == if f == e then Answered(t) else Track(s.history, f)
      ensures PhaseFits(s', f) && (f in s'.lists.waiting ==> IsListed(Track(s'.history, f)))
      ensures f in s'.signaled ==> IsSelected(Track(s'.history, f))
    {
      TrackAppend(s.history, Woken(t, e), f);
      PhaseMeans(s, f);
      if f != e && IsDue(s, f) {
        DueStays(s, WakeBySet(t), f);
      }
      assert forall u: nat :: Holds(s', u, f) ==> Holds(s, u, f);
    }
    PhasesAllFit(s');
    forall u: nat, k: nat, f: nat | OwesAt(s', u, k, f)
      ensures OwesAt(s, u, k, f) && IsSelected(Track(s'.history, f)) && f !in s'.signaled
    {
      Debt(s, u, k, f);
    }
    DebtsShrink(s, s');
  }

  lemma TimeoutFaithful(s: State, t: nat)
    requires Inv(s) && Faithful(s) && Enabled(s, WakeByTimeout(t))
    ensures Faithful(Apply(s, WakeByTimeout(t)))
  {
    hide Track, PhasesFit, DebtsFit, Inv, IsDue;
    var s', e := Apply(s, WakeByTimeout(t)), s.threads[t].e;
    PhaseMeans(s, e);
    PhaseOfHolder(s, t, e);
    ReachableByInv(s, t);
    forall f: nat
      ensures Track(s'.history, f) ==
              if f == e then (if Track(s.history, e).Listed? then Expired(t) else Late(t)) else Track(s.history, f)
      ensures PhaseFits(s', f) && (f in s'.lists.waiting ==> IsListed(Track(s'.history, f)))
      ensures f in s'.signaled ==> IsSelected(Track(s'.history, f))
    {
      TrackAppend(s.history, TimedOut(t, e), f);
      PhaseMeans(s, f);
      if IsDue(s, f) {
        DueStays(s, WakeByTimeout(t), f);
      }
      assert forall u: nat :: Holds(s', u, f) ==> Holds(s, u, f);
    }
    PhasesAllFit(s');
    forall u: nat, k: nat, f: nat | OwesAt(s', u, k, f)
      ensures OwesAt(s, u, k, f) && IsSelected(Track(s'.history, f)) && f !in s'.signaled
    {
      Debt(s, u, k, f);
    }
    DebtsShrink(s, s');
  }

  lemma ReachableByInv(s: State, t: nat)
    requires Inv(s) && t in s.threads && s.threads[t].Blocked?
    ensures s.threads[t].e in s.lists.waiting || IsDue(s, s.threads[t].e)
  {
    assert Reachable(s, s.threads[t].e);
  }

  /** A harmful step leaves the event in the wrong phase; any other keeps all phases. */
  lemma EndWaitFaithful(s: State, t: nat)
    requires Inv(s) && Faithful(s) && Enabled(s, EndWait(t))
    ensures Harmful(s, EndWait(t)) ==> Track(Apply(s, EndWait(t)).history, s.threads[t].e) == Wrong
    ensures !Harmful(s, EndWait(t)) ==> Faithful(Apply(s, EndWait(t)))
  {
    hide Track, PhasesFit, DebtsFit, Inv, Without, IsDue;
    var s', e := Apply(s, EndWait(t)), s.threads[t].e;
    PhaseMeans(s, e);
    PhaseOfHolder(s, t, e);
    TrackAppend(s.history, Recycled(t, e), e);
    if !Harmful(s, EndWait(t)) {
      forall f: nat
        ensures Track(s'.history, f) == if f == e then Free else Track(s.history, f)
        ensures PhaseFits(s', f) && (f in s'.lists.waiting ==> IsListed(Track(s'.history, f)))
        ensures f in s'.signaled ==> IsSelected(Track(s'.history, f))
      {
        TrackAppend(s.history, Recycled(t, e), f);
        PhaseMeans(s, f);
        NotHeldAfter(s, t, f);
        if IsDue(s, f) {
          DueStays(s, EndWait(t), f);
        }
      }
      PhasesAllFit(s');
      forall u: nat, k: nat, f: nat | OwesAt(s', u, k, f)
        ensures OwesAt(s, u, k, f) && IsSelected(Track(s'.history, f)) && f !in s'.signaled
      {
        Debt(s, u, k, f);
      }
      DebtsShrink(s, s');
    }
  }

  lemma NotHeldAfter(s: State, t: nat, e: nat)
    requires Inv(s) && Enabled(s, EndWait(t))
    ensures e == s.threads[t].e ==> forall u: nat :: !Holds(Apply(s, EndWait(t)), u, e)
    ensures forall u: nat :: Holds(Apply(s, EndWait(t)), u, e) ==> Holds(s, u, e)
  {
    hide Inv, Recycle;
    assert forall u: nat :: Holds(Apply(s, EndWait(t)), u, e) ==> Holds(s, u, e) && u != t;
    forall u: nat | e == s.threads[t].e && Holds(s, u, e)
      ensures u == t
    {
      OneHolder(s, t, u, e);
    }
  }

  /** The state after a thread took the events from place n on off the waiting list,
      which it now has to set. */
  function Taken(s: State, t: nat, n: nat): State
    requires n <= |s.lists.waiting|
  {
    var handles := s.lists.waiting[n..];
    s.(lists := s.lists.(waiting := s.lists.waiting[..n]), threads := SetThreads(s.threads, t, handles),
       history := s.history + Pops(handles))
  }

  lemma TailDistinct(s: State, n: nat)
    requires Inv(s) && n <= |s.lists.waiting|
    ensures Distinct(s.lists.waiting[n..])
    ensures forall e :: e in s.lists.waiting <==> e in s.lists.waiting[..n] || e in s.lists.waiting[n..]
    ensures forall e :: !(e in s.lists.waiting[..n] && e in s.lists.waiting[n..])
  {
    assert s.lists.waiting == s.lists.waiting[..n] + s.lists.waiting[n..];
  }

  lemma TakenTrack(s: State, t: nat, n: nat, e: nat)
    requires Inv(s) && n <= |s.lists.waiting|
    ensures Track(Taken(s, t, n).history, e) ==
            if e in s.lists.waiting[n..] then NextPhase(Track(s.history, e), Popped(e), e) else Track(s.history, e)
  {
    hide Track, NextPhase, Pops, Inv;
    TailDistinct(s, n);
    TrackPops(s.history, s.lists.waiting[n..], e);
  }

  lemma TakenOwes(s: State, t: nat, n: nat, u: nat, k: nat, e: nat)
    requires n <= |s.lists.waiting| && t !in s.threads
    requires OwesAt(Taken(s, t, n), u, k, e)
    ensures if u == t then k < |s.lists.waiting[n..]| && s.lists.waiting[n..][k] == e else OwesAt(s, u, k, e)
  {
  }

  lemma TakenDue(s: State, t: nat, n: nat, e: nat)
    requires n <= |s.lists.waiting| && t !in s.threads
    ensures IsDue(s, e) || e in s.lists.waiting[n..] ==> IsDue(Taken(s, t, n), e)
  {
    hide Pops;
    if e in s.lists.waiting[n..] {
      assert Owes(Taken(s, t, n), t, e);
    } else if u: nat :| Owes(s, u, e) {
      assert Owes(Taken(s, t, n), u, e);
    }
  }

  lemma TakenPhase(s: State, t: nat, n: nat, e: nat)
    requires Inv(s) && PhasesFit(s) && n <= |s.lists.waiting| && t !in s.threads
    ensures var s' := Taken(s, t, n);
            && PhaseFits(s', e) && (e in s'.lists.waiting ==> IsListed(Track(s'.history, e)))
            && (e in s'.signaled ==> IsSelected(Track(s'.history, e)))
            && (e in s.lists.waiting[n..] ==> IsSelected(Track(s'.history, e)) && e !in s'.signaled)
            && (IsSelected(Track(s.history, e)) ==> IsSelected(Track(s'.history, e)))
  {
    hide Track, Pops, Inv, PhasesFit, IsDue;
    PhaseMeans(s, e);
    TailDistinct(s, n);
    TakenTrack(s, t, n, e);
    TakenDue(s, t, n, e);
    assert forall u: nat :: Holds(Taken(s, t, n), u, e) ==> Holds(s, u, e);
  }

  lemma TakenFaithful(s: State, t: nat, n: nat)
    requires Inv(s) && Faithful(s) && n <= |s.lists.waiting| && t !in s.threads
    ensures Faithful(Taken(s, t, n))
  {
    hide Track, Inv, PhasesFit, Taken, OwesAt, IsSelected, IsListed, PhaseFits;
    var s', rest := Taken(s, t, n), s.lists.waiting[n..];
    forall e: nat {
      TakenPhase(s, t, n, e);
    }
    PhasesAllFit(s');
    TailDistinct(s, n);
    forall u: nat, k: nat, f: nat | OwesAt(s', u, k, f)
      ensures IsSelected(Track(s'.history, f)) && f !in s'.signaled
    {
      TakenDebt(s, t, n, u, k, f);
    }
    forall u: nat, k: nat, v: nat, l: nat, f: nat | OwesAt(s', u, k, f) && OwesAt(s', v, l, f)
      ensures u == v && k == l
    {
      TakenOnce(s, t, n, u, k, v, l, f);
    }
  }

  lemma TakenDebt(s: State, t: nat, n: nat, u: nat, k: nat, e: nat)
    requires Inv(s) && Faithful(s) && n <= |s.lists.waiting| && t !in s.threads
    requires OwesAt(Taken(s, t, n), u, k, e)
    ensures IsSelected(Track(Taken(s, t, n).history, e)) && e !in Taken(s, t, n).signaled
  {
    hide Track, Pops, Inv, PhasesFit, DebtsFit, OwesAt, IsSelected, IsListed, PhaseFits;
    TakenOwes(s, t, n, u, k, e);
    TakenPhase(s, t, n, e);
    if u == t {
      assert e in s.lists.waiting[n..];
    } else {
      Debt(s, u, k, e);
    }
  }

  lemma TakenOnce(s: State, t: nat, n: nat, u: nat, k: nat, v: nat, l: nat, e: nat)
    requires Inv(s) && Faithful(s) && n <= |s.lists.waiting| && t !in s.threads
    requires OwesAt(Taken(s, t, n), u, k, e) && OwesAt(Taken(s, t, n), v, l, e)
    ensures u == v && k == l
  {
    hide Track, Inv, PhasesFit, Taken, OwesAt;
    var rest := s.lists.waiting[n..];
    PhaseMeans(s, e);
    TailDistinct(s, n);
    TakenOwes(s, t, n, u, k, e);
    TakenOwes(s, t, n, v, l, e);
    assert u == t ==> e == rest[k] && e in s.lists.waiting;
    assert v == t ==> e == rest[l] && e in s.lists.waiting;
  }

  lemma SetOneFaithful(s: State, t: nat)
    requires Inv(s) && Faithful(s) && Enabled(s, SetOne(t))
    ensures Faithful(Apply(s, SetOne(t)))
  {
    hide Track, Inv, PhasesFit, IsDue;
    var s', e := Apply(s, SetOne(t)), s.threads[t].handles[0];
    assert OwesAt(s, t, 0, e);
    Debt(s, t, 0, e);
    forall f: nat
      ensures PhaseFits(s', f) && (f in s'.lists.waiting ==> IsListed(Track(s'.history, f)))
      ensures f in s'.signaled ==> IsSelected(Track(s'.history, f))
    {
      PhaseMeans(s, f);
      if IsDue(s, f) {
        DueStays(s, SetOne(t), f);
      }
      assert forall u: nat :: Holds(s', u, f) ==> Holds(s, u, f);
    }
    PhasesAllFit(s');
    SetOneDebts(s, t);
  }

  lemma SetOneDebts(s: State, t: nat)
    requires DebtsFit(s) && Enabled(s, SetOne(t))
    ensures DebtsFit(Apply(s, SetOne(t)))
  {
    hide Track, IsSelected;
    var s', e := Apply(s, SetOne(t)), s.threads[t].handles[0];
    assert OwesAt(s, t, 0, e);
    assert forall u: nat, k: nat, f: nat :: OwesAt(s', u, k, f) ==> OwesAt(s, u, if u == t then k + 1 else k, f);
  }

  /** Every event stays in the cycle of registration, selection or timeout, and recycling,
      unless the step is harmful. */
  lemma FaithfulStep(s: State, step: Step)
    requires Inv(s) && Faithful(s) && Enabled(s, step)
    ensures !Harmful(s, step) ==> Faithful(Apply(s, step))
    ensures Harmful(s, step) ==> Track(Apply(s, step).history, s.threads[step.t].e) == Wrong
  {
    hide Track, Faithful, Inv, Taken;
    var n := |s.lists.waiting|;
    match step
    case BeginWait(t) => BeginWaitFaithful(s, t);
    case WakeBySet(t) => WakeFaithful(s, t);
    case WakeByTimeout(t) => TimeoutFaithful(s, t);
    case EndWait(t) => EndWaitFaithful(s, t);
    case SetOne(t) => SetOneFaithful(s, t);
    case Broadcast(t) =>
      TakenAll(s, t);
      TakenFaithful(s, t, 0);
    case Signal(t) =>
      if n > 0 {
        TakenOne(s, t);
        TakenFaithful(s, t, n - 1);
      }
  }

  lemma TakenAll(s: State, t: nat)
    requires Enabled(s, Broadcast(t))
    ensures Apply(s, Broadcast(t)) == Taken(s, t, 0)
  {
    assert s.lists.waiting[0..] == s.lists.waiting && s.lists.waiting[..0] == [];
  }

  lemma TakenOne(s: State, t: nat)
    requires Enabled(s, Signal(t)) && s.lists.waiting != []
    ensures Apply(s, Signal(t)) == Taken(s, t, |s.lists.waiting| - 1)
  {
    var n, e := |s.lists.waiting|, SignalTarget(s.lists);
    assert s.lists.waiting[n - 1..] == [e] && Pops([e]) == [Popped(e)];
  }

  // ---------- Runs ----------

  lemma {:induction false} WrongStays(h: seq<Mark>, more: seq<Mark>, e: nat)
    requires Track(h, e) == Wrong
    ensures Track(h + more, e) == Wrong
  {
    if more == [] {
      assert h + more == h;
    } else {
      var n := |more| - 1;
      WrongStays(h, more[..n], e);
      assert h + more == (h + more[..n]) + [more[n]];
      TrackAppend(h + more[..n], more[n], e);
    }
  }

  lemma {:induction false} HistoryGrows(s: State, steps: seq<Step>) returns (more: seq<Mark>)
    requires Runs(s, steps)
    ensures Run(s, steps).history == s.history + more
    decreases |steps|
  {
    if steps == [] {
      more := [];
    } else {
      var s' := Apply(s, steps[0]);
      var first := s'.history[|s.history|..];
      assert s'.history == s.history + first;
      var rest := HistoryGrows(s', steps[1..]);
      more := first + rest;
    }
  }

  /** A run keeps every event in its cycle exactly if none of its steps is harmful: each
      wakeup answers a selection of its thread's event made after it registered, whatever
      else times out. */
  lemma {:induction false} NoSpuriousWakeup(s: State, steps: seq<Step>)
    requires Inv(s) && Faithful(s) && Runs(s, steps)
    ensures Faithful(Run(s, steps)) <==> NoHarm(s, steps)
    decreases |steps|
  {
    hide Track, PhasesFit, DebtsFit, Inv, Apply;
    if steps != [] {
      FaithfulStep(s, steps[0]);
      if Harmful(s, steps[0]) {
        var s', e := Apply(s, steps[0]), s.threads[steps[0].t].e;
        var more := HistoryGrows(s', steps[1..]);
        WrongStays(s'.history, more, e);
        NotFaithful(Run(s, steps), e);
      } else {
        InvStep(s, steps[0]);
        NoSpuriousWakeup(Apply(s, steps[0]), steps[1..]);
      }
    }
  }

  lemma NotFaithful(s: State, e: nat)
    requires Track(s.history, e) == Wrong
    ensures !Faithful(s)
  {
    hide Track;
    assert !PhaseFits(s, e);
  }

  /** A listed event is neither set nor about to be. */
  lemma ListedIsQuiet(s: State, e: nat)
    requires Inv(s) && Faithful(s) && (e in s.lists.waiting || e in s.lists.recycling)
    ensures !IsDue(s, e)
  {
    hide Track, PhasesFit, DebtsFit, Inv, Owes;
    forall t: nat | Owes(s, t, e)
      ensures IsSelected(Track(s.history, e))
    {
      OwesIsSelected(s, t, e);
    }
    PhaseMeans(s, e);
    if e in s.lists.recycling {
      RecycledIsFree(s, e);
    }
  }

  lemma RecycledIsFree(s: State, e: nat)
    requires Inv(s) && PhasesFit(s) && e in s.lists.recycling
    ensures Track(s.history, e) == Free
  {
    hide Track, PhasesFit, NoLostWakeup, Sound;
    PhaseMeans(s, e);
    assert forall t: nat :: !Holds(s, t, e);
  }

  // ---------- The same, without the history ----------

  /** No event in either list is set or about to be, and none that does not exist. */
  ghost predicate Quiet(s: State) {
    && (forall e: nat :: e in s.lists.waiting || e in s.lists.recycling ==> !IsDue(s, e))
    && (forall e: nat :: IsDue(s, e) ==> 0 < e <= s.lists.allocations)
  }

  lemma StartIsQuiet()
    ensures Quiet(START)
  {
  }

  lemma QuietSpelledOut(s: State)
    ensures Quiet(s) <==>
            && (forall e: nat :: e in s.lists.waiting || e in s.lists.recycling ==> !IsDue(s, e))
            && (forall e: nat :: IsDue(s, e) ==> 0 < e <= s.lists.allocations)
  {
    hide IsDue;
  }

  /** An event gets due only by being popped, and then is in no list. */
  lemma DueComesFrom(s: State, step: Step, e: nat)
    requires Inv(s) && Enabled(s, step) && IsDue(Apply(s, step), e)
    ensures var l, l' := s.lists, Apply(s, step).lists;
            IsDue(s, e) || (e in l.waiting && e !in l'.waiting && e !in l'.recycling)
  {
    hide Exclusive, NoLostWakeup;
    var s', t := Apply(s, step), step.t;
    if step.Signal? && s.lists.waiting != [] {
      PopForSignalSound(s.lists);
    }
    if step.SetOne? {
      assert Owes(s, t, s.threads[t].handles[0]);
    }
    if u: nat :| Owes(s', u, e) {
      assert Owes(s, u, e) || (u == t && (step.Signal? || step.Broadcast?) && e in s.lists.waiting);
    }
  }

  lemma QuietLists(s: State, step: Step, e: nat)
    requires Inv(s) && Enabled(s, step)
    ensures var l, l' := s.lists, Apply(s, step).lists;
            && (e in l'.waiting || e in l'.recycling ==>
                  e in l.waiting || e in l.recycling || e == l.allocations + 1 || (step.EndWait? && e == s.threads[step.t].e))
            && (step.EndWait? ==> s.threads[step.t].e in l'.recycling)
            && l.allocations <= l'.allocations && (e in l.waiting ==> 0 < e <= l.allocations)
  {
    hide Exclusive, NoLostWakeup;
    if step.BeginWait? {
      GetEventSound(s.lists);
    }
  }

  /** A step makes a quiet state loud exactly if it recycles an event that is set or about
      to be. */
  lemma QuietStep(s: State, step: Step)
    requires Inv(s) && Quiet(s) && Enabled(s, step)
    ensures Quiet(Apply(s, step)) <==> !(step.EndWait? && IsDue(s, s.threads[step.t].e))
  {
    hide Inv, IsDue;
    var s' := Apply(s, step);
    forall e: nat
      ensures IsDue(s', e) ==> IsDue(s, e) || (e in s.lists.waiting && e !in s'.lists.waiting && e !in s'.lists.recycling)
    {
      if IsDue(s', e) {
        DueComesFrom(s, step, e);
      }
    }
    forall e: nat {
      QuietLists(s, step, e);
    }
    if step.EndWait? && IsDue(s, s.threads[step.t].e) {
      DueStays(s, step, s.threads[step.t].e);
    }
  }

  /** In a faithful state, what is recycled is set or about to be exactly if its wait timed
      out and it is off the waiting list. */
  lemma HarmfulIsDue(s: State, t: nat)
    requires Inv(s) && Faithful(s) && Enabled(s, EndWait(t))
    ensures Harmful(s, EndWait(t)) <==> IsDue(s, s.threads[t].e)
  {
    hide Track, PhasesFit, DebtsFit, Inv, Owes;
    var e := s.threads[t].e;
    forall u: nat | Owes(s, u, e)
      ensures IsSelected(Track(s.history, e))
    {
      OwesIsSelected(s, u, e);
    }
    PhaseMeans(s, e);
    PhaseOfHolder(s, t, e);
  }

  // ---------- Wakeups answer selections ----------

  /** Between a registration and the wakeup of the same thread by the same event, the
      event was selected once. */
  lemma WakeupsAnswerSelections(history: seq<Mark>, t: nat, e: nat) returns (r: nat, p: nat)
    requires Track(history + [Woken(t, e)], e) != Wrong
    ensures r < p < |history| && history[r] == Registered(t, e) && history[p] == Popped(e)
    ensures forall k :: r < k < |history| && history[k].e == e ==> k == p
  {
    TrackAppend(history, Woken(t, e), e);
    r, p := LastSelection(history, t, e);
  }

  lemma {:induction false} LastSelection(history: seq<Mark>, t: nat, e: nat) returns (r: nat, p: nat)
    requires Track(history, e) == Chosen(t)
    ensures r < p < |history| && history[r] == Registered(t, e) && history[p] == Popped(e)
    ensures forall k :: r < k < |history| && history[k].e == e ==> k == p
  {
    var n := |history| - 1;
    if history[n].e == e {
      p := n;
      r := LastRegistration(history[..n], t, e);
    } else {
      r, p := LastSelection(history[..n], t, e);
    }
  }

  lemma {:induction false} LastRegistration(history: seq<Mark>, t: nat, e: nat) returns (r: nat)
    requires Track(history, e) == Listed(t)
    ensures r < |history| && history[r] == Registered(t, e)
    ensures forall k :: r < k < |history| ==> history[k].e != e
  {
    var n := |history| - 1;
    if history[n].e == e {
      r := n;
    } else {
      r := LastRegistration(history[..n], t, e);
    }
  }

  /** As long as no event is in the wrong phase, no wakeup is spurious. */
  lemma NeverWrongNeverSpurious(history: seq<Mark>, k: nat)
    requires forall e: nat :: Track(history, e) != Wrong
    ensures !SpuriousAt(history, k)
  {
    hide Track;
    if k < |history| && history[k].Woken? {
      var t, e := history[k].t, history[k].e;
      var before := history[..k];
      assert history == (before + [Woken(t, e)]) + history[k + 1..];
      NeverWrongBefore(before + [Woken(t, e)], history[k + 1..], e);
      var r0, p0 := WakeupsAnswerSelections(before, t, e);
      assert history[r0] == before[r0] && history[p0] == before[p0];
      forall r | 0 <= r < k && history[r] == Registered(t, e)
        ensures r <= r0
      {
        assert before[r] == history[r];
      }
    }
  }

  lemma NeverWrongBefore(history: seq<Mark>, more: seq<Mark>, e: nat)
    requires Track(history + more, e) != Wrong
    ensures Track(history, e) != Wrong
  {
    hide Track;
    if Track(history, e) == Wrong {
      WrongStays(history, more, e);
    }
  }

  /** In every run from the start without a harmful step, with any number of threads and
      timeouts, no wakeup is spurious, and events in a list are neither set nor about to be. */
  lemma NoSpuriousWakeupFromStart(steps: seq<Step>)
    requires Runs(START, steps) && NoHarm(START, steps)
    ensures var s := Run(START, steps);
            && (forall k: nat :: !SpuriousAt(s.history, k))
            && (forall e: nat :: e in s.lists.waiting || e in s.lists.recycling ==> !IsDue(s, e))
  {
    hide Track, PhasesFit, DebtsFit, Inv, IsDue, Runs, Run, NoHarm;
    StartInv();
    StartFaithful();
    NoSpuriousWakeup(START, steps);
    EveryRunKeepsInv(START, steps);
    FaithfulIsQuiet(Run(START, steps));
  }

  lemma FaithfulIsQuiet(s: State)
    requires Inv(s) && Faithful(s)
    ensures forall k: nat :: !SpuriousAt(s.history, k)
    ensures forall e: nat :: e in s.lists.waiting || e in s.lists.recycling ==> !IsDue(s, e)
  {
    hide Track, PhasesFit, DebtsFit, Inv, IsDue, SpuriousAt;
    forall e: nat {
      PhaseMeans(s, e);
    }
    forall k: nat {
      NeverWrongNeverSpurious(s.history, k);
    }
    forall e: nat | e in s.lists.waiting || e in s.lists.recycling
      ensures !IsDue(s, e)
    {
      ListedIsQuiet(s, e);
    }
  }

  // ---------- The converse: a harmful step can be followed by a spurious wakeup ----------

  lemma RunNone(s: State)
    ensures Runs(s, []) && Run(s, []) == s && NoHarm(s, [])
  {
  }

  lemma RunFrom(s: State, step: Step, rest: seq<Step>) returns (steps: seq<Step>)
    requires Enabled(s, step) && !Harmful(s, step) && Runs(Apply(s, step), rest) && NoHarm(Apply(s, step), rest)
    ensures Runs(s, steps) && Run(s, steps) == Run(Apply(s, step), rest) && NoHarm(s, steps)
  {
    steps := [step] + rest;
    assert steps[1..] == rest;
  }

  /** Some number is not that of a thread inside the condition variable. */
  lemma {:induction false} NewThread(threads: set<nat>) returns (t: nat)
    ensures forall u <- threads :: u < t
  {
    if u :| u in threads {
      t := NewThread(threads - {u});
      assert forall v <- threads :: v == u || v in threads - {u};
      t := if u < t then t else u + 1;
    } else {
      t := 0;
    }
  }

  /** The run ends with the spurious wakeup of a thread. */
  ghost predicate EndsSpuriously(s: State, steps: seq<Step>)
    requires Runs(s, steps)
  {
    var history := Run(s, steps).history;
    |history| > |s.history| && SpuriousAt(history, |history| - 1)
  }

  lemma EndSpelledOut(s: State, steps: seq<Step>)
    requires Runs(s, steps)
    ensures var history := Run(s, steps).history;
            EndsSpuriously(s, steps) <==>
            |s.history| < |history| && history[|history| - 1].Woken? && SpuriousAt(history, |history| - 1)
  {
  }

  lemma WokenAtOnce(history: seq<Mark>, t: nat, e: nat)
    ensures SpuriousAt(history + [Registered(t, e)] + [Woken(t, e)], |history| + 1)
  {
    var h := history + [Registered(t, e)] + [Woken(t, e)];
    assert h[|history|] == Registered(t, e) && h[|history| + 1] == Woken(t, e);
  }

  /** Threads that start to wait get the recycled events one after the other, until one of
      them gets the event that is set. */
  lemma {:induction false} SetEventWakesUp(s: State, e: nat, i: nat) returns (steps: seq<Step>)
    requires Inv(s) && e in s.signaled && i < |s.lists.recycling| && s.lists.recycling[i] == e
    ensures Runs(s, steps) && NoHarm(s, steps) && EndsSpuriously(s, steps)
    decreases i
  {
    hide Inv, Runs, Run, NoHarm, SpuriousAt;
    var t := NewThread(s.threads.Keys);
    var step := BeginWait(t);
    var s1 := Apply(s, step);
    InvStep(s, step);
    RecycledFirst(s);
    if i == 0 {
      var s2 := Apply(s1, WakeBySet(t));
      RunNone(s2);
      var last := RunFrom(s1, WakeBySet(t), []);
      steps := RunFrom(s, step, last);
      WokenAtOnce(s.history, t, e);
    } else {
      var more := SetEventWakesUp(s1, e, i - 1);
      steps := RunFrom(s, step, more);
    }
  }

  lemma RecycledFirst(s: State)
    requires Inv(s) && s.lists.recycling != []
    ensures EventForWaiting(s.lists) == s.lists.recycling[0] && GetEvent(s.lists).recycling == s.lists.recycling[1..]
  {
  }

  /** A thread that owes a SetEvent gets to it. */
  lemma {:induction false} OwedEventWakesUp(s: State, b: nat, k: nat, e: nat) returns (steps: seq<Step>)
    requires Inv(s) && OwesAt(s, b, k, e) && e in s.lists.recycling
    ensures Runs(s, steps) && NoHarm(s, steps) && EndsSpuriously(s, steps)
    decreases k
  {
    hide Inv, Runs, Run, NoHarm, SpuriousAt;
    var step := SetOne(b);
    var s1 := Apply(s, step);
    InvStep(s, step);
    var more;
    if k == 0 {
      var i :| 0 <= i < |s.lists.recycling| && s.lists.recycling[i] == e;
      more := SetEventWakesUp(s1, e, i);
    } else {
      more := OwedEventWakesUp(s1, b, k - 1, e);
    }
    steps := RunFrom(s, step, more);
  }

  /** Whenever a recycled event is set or about to be, a thread may be woken by it spuriously. */
  lemma DueEventWakesUp(s: State, e: nat) returns (steps: seq<Step>)
    requires Inv(s) && e in s.lists.recycling && IsDue(s, e)
    ensures Runs(s, steps) && NoHarm(s, steps) && EndsSpuriously(s, steps)
  {
    hide Inv, Runs, Run, NoHarm, EndsSpuriously, Owes;
    if e in s.signaled {
      var i :| 0 <= i < |s.lists.recycling| && s.lists.recycling[i] == e;
      steps := SetEventWakesUp(s, e, i);
    } else {
      var b: nat :| Owes(s, b, e);
      var k := PlaceOfDebt(s, b, e);
      steps := OwedEventWakesUp(s, b, k, e);
    }
  }

  lemma PlaceOfDebt(s: State, b: nat, e: nat) returns (k: nat)
    requires Owes(s, b, e)
    ensures OwesAt(s, b, k, e)
  {
    k :| k < |s.threads[b].handles| && s.threads[b].handles[k] == e;
  }

  /** The exact condition: after a faithful run, a step makes a spurious wakeup possible, with
      no further harm, exactly if the step is harmful. */
  lemma SpuriousExactlyAfterHarm(s: State, step: Step)
    requires Inv(s) && Faithful(s) && Enabled(s, step)
    ensures Harmful(s, step) <==>
            var s' := Apply(s, step); exists steps :: Runs(s', steps) && NoHarm(s', steps) && EndsSpuriously(s', steps)
  {
    hide Track, Faithful, Inv, Runs, Run, NoHarm, SpuriousAt, Apply;
    var s' := Apply(s, step);
    FaithfulStep(s, step);
    InvStep(s, step);
    if Harmful(s, step) {
      HarmLeavesDue(s, step.t);
      var steps := DueEventWakesUp(s', s.threads[step.t].e);
    } else {
      forall steps | Runs(s', steps) && NoHarm(s', steps)
        ensures !EndsSpuriously(s', steps)
      {
        NoSpuriousWakeup(s', steps);
        EveryRunKeepsInv(s', steps);
        FaithfulIsQuiet(Run(s', steps));
      }
    }
  }

  lemma HarmLeavesDue(s: State, t: nat)
    requires Inv(s) && Faithful(s) && Enabled(s, EndWait(t)) && Harmful(s, EndWait(t))
    ensures var s', e := Apply(s, EndWait(t)), s.threads[t].e; e in s'.lists.recycling && IsDue(s', e)
  {
    hide Inv, Faithful, IsDue;
    HarmfulIsDue(s, t);
    DueStays(s, EndWait(t), s.threads[t].e);
  }

  /** Such a step occurs: a wait times out, its event is selected, and then recycled. */
  lemma TimeoutMakesSpuriousWakeup()
    ensures exists steps :: Runs(START, steps) && !NoHarm(START, steps) &&
              Run(START, steps).history ==
              [Registered(0, 1), TimedOut(0, 1), Popped(1), Recycled(0, 1), Registered(2, 1), Woken(2, 1)]
  {
    hide Runs, Run, NoHarm;
    var s1 := Apply(START, BeginWait(0));
    var s2 := Apply(s1, WakeByTimeout(0));
    var s3 := Apply(s2, Signal(1));
    var s4 := Apply(s3, EndWait(0));
    var s5 := Apply(s4, SetOne(1));
    var s6 := Apply(s5, BeginWait(2));
    var s7 := Apply(s6, WakeBySet(2));
    RunNone(s7);
    var r7 := RunFrom(s6, WakeBySet(2), []);
    var r6 := RunFrom(s5, BeginWait(2), r7);
    var r5 := RunFrom(s4, SetOne(1), r6);
    var r4 := HarmfulFrom(s3, EndWait(0), r5);
    var r3 := HarmBefore(s2, Signal(1), r4);
    var r2 := HarmBefore(s1, WakeByTimeout(0), r3);
    var r1 := HarmBefore(START, BeginWait(0), r2);
    assert Run(START, r1) == s7;
  }

  lemma HarmfulFrom(s: State, step: Step, rest: seq<Step>) returns (steps: seq<Step>)
    requires Enabled(s, step) && Harmful(s, step) && Runs(Apply(s, step), rest)
    ensures Runs(s, steps) && Run(s, steps) == Run(Apply(s, step), rest) && !NoHarm(s, steps)
  {
    steps := [step] + rest;
    assert steps[1..] == rest;
  }

  lemma HarmBefore(s: State, step: Step, rest: seq<Step>) returns (steps: seq<Step>)
    requires Enabled(s, step) && Runs(Apply(s, step), rest) && !NoHarm(Apply(s, step), rest)
    ensures Runs(s, steps) && Run(s, steps) == Run(Apply(s, step), rest) && !NoHarm(s, steps)
  {
    steps := [step] + rest;
    assert steps[1..] == rest;
  }
}
