/** The values behind the two event lists of a condition variable, and what each
    section under the internal lock does to them. Events are named by their handles:
    1, 2, 3, ... in the order of their creation; 0 is no event. */
module ConditionVariableLists {

  /** `allocations` and `recyclingSize` are counters that the code maintains separately
      from the lists. */
  datatype Lists = Lists(waiting: seq<nat>, recycling: seq<nat>, recyclingSize: int, allocations: nat)

  const EMPTY := Lists([], [], 0, 0)

  ghost predicate Distinct<T>(s: seq<T>) {
    forall i, j :: 0 <= i < j < |s| ==> s[i] != s[j]
  }

  /** No event is listed twice, and the counters are right. */
  ghost predicate Sound(l: Lists) {
    && Distinct(l.waiting) && Distinct(l.recycling)
    && (forall k :: 0 <= k < |l.waiting| ==> 0 < l.waiting[k] <= l.allocations && l.waiting[k] !in l.recycling)
    && (forall k :: 0 <= k < |l.recycling| ==> 0 < l.recycling[k] <= l.allocations)
    && l.recyclingSize == |l.recycling|
  }

  /** e exists and is in neither list. */
  ghost predicate Loose(l: Lists, e: nat) {
    0 < e <= l.allocations && e !in l.waiting && e !in l.recycling
  }

  /** The sequence without its elements equal to e. */
  function Without<T(==)>(s: seq<T>, e: T): (r: seq<T>)
    ensures forall x <- r :: x in s && x != e
    ensures forall x <- s :: x != e ==> x in r
    ensures e !in s ==> r == s
  {
    if s == [] then [] else (if s[0] == e then [] else [s[0]]) + Without(s[1..], e)
  }

  lemma DistinctTail<T>(s: seq<T>)
    requires Distinct(s) && s != []
    ensures Distinct(s[1..]) && s[0] !in s[1..]
  {
  }

  lemma SlicesOfTail<T>(s: seq<T>, k: nat)
    requires 0 < k < |s|
    ensures [s[0]] + (s[1..][..k - 1] + s[1..][k..]) == s[..k] + s[k + 1..]
  {
  }

  lemma {:induction false} WithoutAt<T>(s: seq<T>, k: nat)
    requires k < |s| && Distinct(s)
    ensures Without(s, s[k]) == s[..k] + s[k + 1..]
  {
    hide Distinct;
    DistinctTail(s);
    if k > 0 {
      assert s[k] in s[1..];
      WithoutAt(s[1..], k - 1);
      SlicesOfTail(s, k);
    }
  }

  /** The event a thread that starts to wait gets. */
  function EventForWaiting(l: Lists): nat {
    if l.recyclingSize == 0 || l.recycling == [] then l.allocations + 1 else l.recycling[0]
  }

  function GetEvent(l: Lists): Lists {
    if l.recyclingSize == 0 || l.recycling == [] then
      l.(waiting := l.waiting + [l.allocations + 1], allocations := l.allocations + 1)
    else
      l.(waiting := l.waiting + [l.recycling[0]], recycling := l.recycling[1..], recyclingSize := l.recyclingSize - 1)
  }

  function Recycle(l: Lists, e: nat): Lists {
    l.(waiting := Without(l.waiting, e), recycling := l.recycling + [e], recyclingSize := l.recyclingSize + 1)
  }

  /** The event that Signal selects: the most recent waiter. */
  function SignalTarget(l: Lists): nat {
    if l.waiting == [] then 0 else l.waiting[|l.waiting| - 1]
  }

  function PopForSignal(l: Lists): Lists {
    if l.waiting == [] then l else l.(waiting := l.waiting[..|l.waiting| - 1])
  }

  function PopForBroadcast(l: Lists): Lists {
    l.(waiting := [])
  }

  lemma SoundRange(l: Lists)
    requires Sound(l)
    ensures forall k :: 0 <= k < |l.waiting| ==> 0 < l.waiting[k] <= l.allocations
    ensures forall k :: 0 <= k < |l.recycling| ==> 0 < l.recycling[k] <= l.allocations
  {
  }

  // ---------- Every section keeps the lists sound ----------

  lemma PushWaitingSound(l: Lists, e: nat)
    requires Sound(l) && Loose(l, e)
    ensures Sound(l.(waiting := l.waiting + [e]))
  {
  }

  lemma PushRecyclingSound(l: Lists, e: nat)
    requires Sound(l) && Loose(l, e)
    ensures Sound(l.(recycling := l.recycling + [e], recyclingSize := l.recyclingSize + 1))
  {
  }

  lemma PopRecycledSound(l: Lists)
    requires Sound(l) && l.recycling != []
    ensures var l' := l.(recycling := l.recycling[1..], recyclingSize := l.recyclingSize - 1);
            Sound(l') && Loose(l', l.recycling[0])
  {
  }

  lemma PopRecycledLoose(l: Lists)
    requires l.recycling != []
    ensures var l' := l.(recycling := l.recycling[1..], recyclingSize := l.recyclingSize - 1);
            forall h: nat :: Loose(l', h) ==> 0 < h <= l.allocations && (Loose(l, h) || h == l.recycling[0])
  {
    assert l.recycling == [l.recycling[0]] + l.recycling[1..];
  }

  lemma SoundMembers(l: Lists)
    requires Sound(l)
    ensures Distinct(l.waiting) && Distinct(l.recycling) && l.recyclingSize == |l.recycling|
    ensures forall e <- l.waiting :: 0 < e <= l.allocations && e !in l.recycling
    ensures forall e <- l.recycling :: 0 < e <= l.allocations
  {
  }

  lemma SoundFromMembers(l: Lists)
    requires Distinct(l.waiting) && Distinct(l.recycling) && l.recyclingSize == |l.recycling|
    requires forall e <- l.waiting :: 0 < e <= l.allocations && e !in l.recycling
    requires forall e <- l.recycling :: 0 < e <= l.allocations
    ensures Sound(l)
  {
    hide Distinct;
    assert forall k :: 0 <= k < |l.waiting| ==> l.waiting[k] in l.waiting;
    assert forall k :: 0 <= k < |l.recycling| ==> l.recycling[k] in l.recycling;
  }

  lemma DropDistinct<T>(s: seq<T>, k: nat)
    requires k < |s| && Distinct(s)
    ensures Distinct(s[..k] + s[k + 1..])
  {
    var r := s[..k] + s[k + 1..];
    assert forall i :: 0 <= i < |r| ==> r[i] == s[if i < k then i else i + 1];
  }

  lemma WithoutSound(l: Lists, e: nat)
    requires Sound(l) && (e in l.waiting || Loose(l, e))
    ensures var l' := l.(waiting := Without(l.waiting, e)); Sound(l') && Loose(l', e)
  {
    hide Sound, Distinct, Without;
    SoundMembers(l);
    if k :| 0 <= k < |l.waiting| && l.waiting[k] == e {
      WithoutAt(l.waiting, k);
      DropDistinct(l.waiting, k);
    }
    SoundFromMembers(l.(waiting := Without(l.waiting, e)));
  }

  lemma WithoutLoose(l: Lists, e: nat)
    requires 0 < e <= l.allocations
    ensures var l' := l.(waiting := Without(l.waiting, e));
            forall h: nat :: Loose(l', h) ==> 0 < h <= l.allocations && (Loose(l, h) || h == e)
  {
  }

  lemma PopForSignalSound(l: Lists)
    requires Sound(l) && l.waiting != []
    ensures Sound(PopForSignal(l)) && Loose(PopForSignal(l), SignalTarget(l))
  {
  }

  lemma WithoutAtSound(l: Lists, k: nat)
    requires Sound(l) && k < |l.waiting|
    ensures Without(l.waiting, l.waiting[k]) == l.waiting[..k] + l.waiting[k + 1..]
  {
    WithoutAt(l.waiting, k);
  }

  lemma WithoutAnywhere(l: Lists, e: nat)
    requires Sound(l)
    ensures forall k :: 0 <= k < |l.waiting| && l.waiting[k] == e ==>
              Without(l.waiting, e) == l.waiting[..k] + l.waiting[k + 1..]
  {
    hide Without;
    forall k | 0 <= k < |l.waiting| && l.waiting[k] == e
      ensures Without(l.waiting, e) == l.waiting[..k] + l.waiting[k + 1..]
    {
      WithoutAt(l.waiting, k);
    }
  }

  /** The most recent waiter is last. */
  lemma SignalTakesLast(l: Lists)
    ensures if l.waiting == [] then SignalTarget(l) == 0 && PopForSignal(l) == l
            else l.waiting == PopForSignal(l).waiting + [SignalTarget(l)] && PopForSignal(l) == l.(waiting := PopForSignal(l).waiting)
  {
  }

  lemma AllocateSound(l: Lists)
    requires Sound(l)
    ensures var l' := l.(allocations := l.allocations + 1);
            && Sound(l') && Loose(l', l'.allocations)
            && forall h: nat :: Loose(l', h) ==> Loose(l, h) || h == l'.allocations
  {
  }

  lemma GetEventSound(l: Lists)
    requires Sound(l)
    ensures var l', e := GetEvent(l), EventForWaiting(l);
            && Sound(l') && 0 < e <= l'.allocations && e !in l.waiting && e !in l'.recycling
            && (if e in l.recycling then l.recycling == [e] + l'.recycling && l'.allocations == l.allocations
                else l'.recycling == l.recycling && l'.allocations == e == l.allocations + 1 && l.recycling == [])
  {
    if l.recycling != [] {
      PopRecycledSound(l);
      assert l.recycling == [l.recycling[0]] + l.recycling[1..];
    }
  }

  lemma RecycleSound(l: Lists, e: nat)
    requires Sound(l) && 0 < e <= l.allocations && e !in l.recycling
    ensures Sound(Recycle(l, e))
  {
    WithoutSound(l, e);
    PushRecyclingSound(l.(waiting := Without(l.waiting, e)), e);
  }

  lemma PopSound(l: Lists)
    requires Sound(l)
    ensures Sound(PopForSignal(l)) && Sound(PopForBroadcast(l))
  {
  }
}
