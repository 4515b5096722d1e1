/** The event lists of the Windows condition variable: a circular doubly linked list
    through the events themselves, and the sections that run under the internal lock. */
module ConditionVariableWin {
  import opened ConditionVariableLists

  /** r lists the events of one circular list, in order. */
  ghost predicate IsRing(r: seq<Event>)
    reads r
  {
    && 0 < |r|
    && (forall j, k :: 0 <= j < k < |r| ==> r[j] != r[k])
    && (forall k :: 0 <= k < |r| - 1 ==> r[k].next == r[k + 1])
    && (forall k :: 0 < k < |r| ==> r[k].prev == r[k - 1])
    && r[|r| - 1].next == r[0] && r[0].prev == r[|r| - 1]
  }

  /** A list container has handle 0; its ring starts with it. */
  ghost predicate IsList(r: seq<Event>)
    reads r
  {
    IsRing(r) && r[0].handle == 0 && forall k :: 0 < k < |r| ==> r[k].handle != 0
  }

  class Event {
    var handle: nat
    var next: Event
    var prev: Event

    constructor ()
      ensures IsRing([this]) && handle == 0
    {
      handle, next, prev := 0, this, this;
    }

    /** h is the handle of the kernel event that gets created. */
    method InitListElement(h: nat)
      requires handle == 0 && h != 0
      modifies this`handle
      ensures handle == h
    {
      handle := h;
    }

    method IsSingleton(ghost r: seq<Event>) returns (b: bool)
      requires IsRing(r) && this in r
      ensures b <==> |r| == 1
    {
      b := next == this;
      ghost var k :| 0 <= k < |r| && r[k] == this;
      assert k < |r| - 1 ==> next == r[k + 1] != r[k];
    }

    method IsEmpty(ghost r: seq<Event>) returns (b: bool)
      requires IsList(r) && r[0] == this
      ensures b <==> |r| == 1
    {
      b := IsSingleton(r);
    }

    method PushBack(other: Event, ghost r: seq<Event>)
      requires IsList(r) && r[0] == this && IsRing([other]) && other !in r && other.handle != 0
      modifies this`prev, other`next, other`prev, prev`next
      ensures IsList(r + [other])
    {
      other.prev := prev;
      other.next := this;
      prev.next := other;
      prev := other;
    }

    /** Takes this event out of the ring r it is in, at position k. */
    method Extract(ghost r: seq<Event>, ghost k: nat) returns (e: Event)
      requires IsRing(r) && k < |r| && r[k] == this && handle != 0
      modifies r`next, r`prev
      ensures e == this && IsRing([this])
      ensures |r| > 1 ==> IsRing(r[..k] + r[k + 1..])
      ensures |r| == 1 ==> unchanged(this)
    {
      var singleton := IsSingleton(r);
      if !singleton {
        assert prev == (if k == 0 then r[|r| - 1] else r[k - 1]);
        assert next == (if k == |r| - 1 then r[0] else r[k + 1]);
        next.prev := prev;
        prev.next := next;
        prev := this;
        next := this;
        ghost var s := r[..k] + r[k + 1..];
        assert forall j :: 0 <= j < |s| ==> s[j] == r[if j < k then j else j + 1];
        assert |s| == |r| - 1;
      }
      e := this;
    }

    method PopFront(ghost r: seq<Event>) returns (e: Event)
      requires IsList(r) && r[0] == this && |r| > 1
      modifies r`next, r`prev
      ensures e == r[1] && IsRing([e]) && IsList([this] + r[2..])
    {
      assert next == r[1] && r[1].prev == r[0];
      e := next.Extract(r, 1);
      assert r[..1] + r[2..] == [this] + r[2..];
    }

    method PopBack(ghost r: seq<Event>) returns (e: Event)
      requires IsList(r) && r[0] == this && |r| > 1
      modifies r`next, r`prev
      ensures e == r[|r| - 1] && IsRing([e]) && IsList(r[..|r| - 1])
    {
      e := prev.Extract(r, |r| - 1);
      assert r[..|r| - 1] + r[|r|..] == r[..|r| - 1];
    }
  }

  twostate lemma ListKept(r: seq<Event>)
    requires old(IsList(r))
    requires forall x <- r :: x.next == old(x.next) && x.prev == old(x.prev) && x.handle == old(x.handle)
    ensures IsList(r)
  {
  }

  twostate lemma SingleKept(e: Event)
    requires old(IsRing([e])) && e.next == old(e.next) && e.prev == old(e.prev)
    ensures IsRing([e])
  {
  }

  method CreateListElement(h: nat) returns (e: Event)
    requires h != 0
    ensures fresh(e) && e.handle == h && IsRing([e])
  {
    e := new Event();
    label Created:
    e.InitListElement(h);
    SingleKept@Created(e);
  }

  lemma ListNonEmpty(r: seq<Event>)
    requires IsList(r)
    ensures IsRing(r) && r[0].handle == 0
  {
  }

  lemma DropFromTail<T>(c: T, m: seq<T>, j: nat)
    requires j < |m|
    ensures var w := [c] + m; w[..j + 1] + w[j + 2..] == [c] + (m[..j] + m[j + 1..])
  {
  }

  lemma ListEnds(container: Event, items: seq<Event>)
    requires IsList([container] + items)
    ensures container.prev == if items == [] then container else items[|items| - 1]
    ensures forall i, j :: 0 <= i < j < |items| ==> items[i] != items[j]
    ensures container !in items && container.handle == 0 && forall e <- items :: e.handle != 0
  {
    var r := [container] + items;
    assert container.prev == r[|r| - 1];
    assert forall i :: 0 <= i < |items| ==> items[i] == r[i + 1];
  }

  class ConditionVariable {
    const waitingList: Event
    const recyclingList: Event
    var recyclingListSize: int
    var allocationCounter: nat
    ghost var waiting: seq<nat>     // the handles in waitingList
    ghost var recycling: seq<nat>   // the handles in recyclingList
    ghost var events: seq<Event>    // all events ever created: handle h is events[h - 1]

    ghost function Value(): Lists
      reads this
    {
      Lists(waiting, recycling, recyclingListSize, allocationCounter)
    }

    /** The events with the given handles. */
    ghost function Of(handles: seq<nat>): (r: seq<Event>)
      requires forall k :: 0 <= k < |handles| ==> 0 < handles[k] <= |events|
      reads this`events
      ensures |r| == |handles| && forall k :: 0 <= k < |r| ==> r[k] == events[handles[k] - 1]
    {
      var all := events;
      seq(|handles|, k requires 0 <= k < |handles| => all[handles[k] - 1])
    }

    ghost predicate Named()
      reads this`events, events`handle, waitingList`handle, recyclingList`handle
    {
      && waitingList != recyclingList && waitingList.handle == 0 && recyclingList.handle == 0
      && forall i :: 0 <= i < |events| ==> events[i].handle == i + 1
    }

    /** The containers and events are linked as l says: every event is in exactly one
        list or is on its own. */
    ghost predicate Linked(l: Lists)
      reads this`events, waitingList, recyclingList, events
    {
      && Sound(l) && |events| == l.allocations
      && IsList([waitingList] + Of(l.waiting)) && IsList([recyclingList] + Of(l.recycling))
      && forall h: nat :: Loose(l, h) ==> IsRing([events[h - 1]])
    }

    ghost predicate Valid()
      reads this, waitingList, recyclingList, events
    {
      Named() && Linked(Value())
    }

    constructor ()
      ensures Valid() && Value() == EMPTY
    {
      waitingList := new Event();
      recyclingList := new Event();
      recyclingListSize, allocationCounter := 0, 0;
      waiting, recycling, events := [], [], [];
      new;
      assert [waitingList] + Of([]) == [waitingList] && [recyclingList] + Of([]) == [recyclingList];
    }

    /** The two lists have nothing in common, with each other or with loose events. */
    lemma ListsApart(l: Lists)
      requires Named() && Sound(l) && |events| == l.allocations
      ensures var w, r := [waitingList] + Of(l.waiting), [recyclingList] + Of(l.recycling);
              && (forall x <- w :: x !in r && (x == waitingList || x in events))
              && (forall x <- r :: x !in w && (x == recyclingList || x in events))
              && (forall h: nat :: Loose(l, h) ==> events[h - 1] !in w && events[h - 1] !in r)
    {
      var w, r := [waitingList] + Of(l.waiting), [recyclingList] + Of(l.recycling);
      forall k | 0 <= k < |w|
        ensures w[k].handle == if k == 0 then 0 else l.waiting[k - 1]
      {
      }
      forall k | 0 <= k < |r|
        ensures r[k].handle == if k == 0 then 0 else l.recycling[k - 1]
      {
      }
    }

    lemma LinkedParts(l: Lists)
      requires Linked(l)
      ensures Sound(l) && |events| == l.allocations
      ensures IsList([waitingList] + Of(l.waiting)) && IsList([recyclingList] + Of(l.recycling))
      ensures forall h: nat :: Loose(l, h) ==> IsRing([events[h - 1]])
    {
      hide IsRing, IsList, Sound;
    }

    lemma LinkedAgain(l: Lists)
      requires Sound(l) && |events| == l.allocations
      requires IsList([waitingList] + Of(l.waiting)) && IsList([recyclingList] + Of(l.recycling))
      requires forall h: nat :: Loose(l, h) ==> IsRing([events[h - 1]])
      ensures Linked(l)
    {
      hide IsRing, IsList, Sound;
    }

    /** Pushes a loose event to the back of the waiting list. */
    method PushWaiting(e: Event, ghost l: Lists)
      requires Named() && Linked(l) && Loose(l, e.handle) && events[e.handle - 1] == e
      modifies waitingList`next, waitingList`prev, events`next, events`prev
      ensures Linked(l.(waiting := l.waiting + [e.handle]))
    {
      hide IsRing, IsList, Sound, Linked;
      LinkedParts(l);
      ghost var l' := l.(waiting := l.waiting + [e.handle]);
      PushWaitingSound(l, e.handle);
      SoundRange(l);
      SoundRange(l');
      ListEnds(waitingList, Of(l.waiting));
      ListsApart(l);
      ghost var w, r := [waitingList] + Of(l.waiting), [recyclingList] + Of(l.recycling);
      waitingList.PushBack(e, w);
      assert w + [e] == [waitingList] + Of(l'.waiting);
      ListKept(r);
      forall h: nat | Loose(l', h)
        ensures IsRing([events[h - 1]])
      {
        assert Loose(l, h) && h != e.handle;
        SingleKept(events[h - 1]);
      }
      LinkedAgain(l');
    }

    /** Pushes a loose event to the back of the recycling list. */
    method PushRecycling(e: Event, ghost l: Lists)
      requires Named() && Linked(l) && Loose(l, e.handle) && events[e.handle - 1] == e
      modifies recyclingList`next, recyclingList`prev, events`next, events`prev
      ensures Linked(l.(recycling := l.recycling + [e.handle], recyclingSize := l.recyclingSize + 1))
    {
      hide IsRing, IsList, Sound, Linked;
      LinkedParts(l);
      ghost var l' := l.(recycling := l.recycling + [e.handle], recyclingSize := l.recyclingSize + 1);
      PushRecyclingSound(l, e.handle);
      SoundRange(l);
      SoundRange(l');
      ListEnds(recyclingList, Of(l.recycling));
      ListsApart(l);
      ghost var w, r := [waitingList] + Of(l.waiting), [recyclingList] + Of(l.recycling);
      recyclingList.PushBack(e, r);
      assert r + [e] == [recyclingList] + Of(l'.recycling);
      ListKept(w);
      forall h: nat | Loose(l', h)
        ensures IsRing([events[h - 1]])
      {
        assert Loose(l, h) && h != e.handle;
        SingleKept(events[h - 1]);
      }
      LinkedAgain(l');
    }

    lemma NamedAt(h: nat)
      requires Named() && 0 < h <= |events|
      ensures events[h - 1].handle == h
    {
    }

    /** Takes the first event out of the recycling list. */
    method PopRecycled(ghost l: Lists) returns (e: Event)
      requires Named() && Linked(l) && l.recycling != []
      modifies recyclingList`next, recyclingList`prev, events`next, events`prev
      ensures e.handle == l.recycling[0] && e == events[e.handle - 1]
      ensures Linked(l.(recycling := l.recycling[1..], recyclingSize := l.recyclingSize - 1))
    {
      hide IsRing, IsList, Sound, Linked, Of, Loose, Distinct, Named;
      LinkedParts(l);
      ghost var l' := l.(recycling := l.recycling[1..], recyclingSize := l.recyclingSize - 1);
      PopRecycledSound(l);
      PopRecycledLoose(l);
      SoundRange(l);
      SoundRange(l');
      ListsApart(l);
      NamedAt(l.recycling[0]);
      ghost var w, r := [waitingList] + Of(l.waiting), [recyclingList] + Of(l.recycling);
      OfTail(l.recycling);
      e := recyclingList.PopFront(r);
      ListKept(w);
      forall h: nat | Loose(l', h)
        ensures IsRing([events[h - 1]])
      {
        if h != e.handle {
          SingleKept(events[h - 1]);
        }
      }
      LinkedAgain(l');
    }

    /** Takes the last event out of the waiting list. */
    method PopWaiter(ghost l: Lists) returns (e: Event)
      requires Named() && Linked(l) && l.waiting != []
      modifies waitingList`next, waitingList`prev, events`next, events`prev
      ensures e.handle == SignalTarget(l) && Linked(PopForSignal(l))
    {
      hide IsRing, IsList, Sound, Linked;
      LinkedParts(l);
      ghost var l', n := PopForSignal(l), |l.waiting|;
      PopForSignalSound(l);
      SoundRange(l);
      SoundRange(l');
      ListsApart(l);
      ghost var w, r := [waitingList] + Of(l.waiting), [recyclingList] + Of(l.recycling);
      assert w[..n] == [waitingList] + Of(l'.waiting);
      e := waitingList.PopBack(w);
      ListKept(r);
      forall h: nat | Loose(l', h)
        ensures IsRing([events[h - 1]])
      {
        if h != e.handle {
          assert Loose(l, h);
          SingleKept(events[h - 1]);
        }
      }
      LinkedAgain(l');
    }

    lemma OfTail(handles: seq<nat>)
      requires handles != [] && forall k :: 0 <= k < |handles| ==> 0 < handles[k] <= |events|
      ensures ([recyclingList] + Of(handles))[2..] == Of(handles[1..])
    {
      hide Of;
      var r, t := ([recyclingList] + Of(handles))[2..], Of(handles[1..]);
      assert |r| == |t|;
      forall k | 0 <= k < |r|
        ensures r[k] == t[k]
      {
        assert r[k] == Of(handles)[k + 1] && handles[1..][k] == handles[k + 1];
      }
    }

    lemma OfWithout(l: Lists, j: nat)
      requires Sound(l) && |events| == l.allocations && j < |l.waiting|
      requires Sound(l.(waiting := Without(l.waiting, l.waiting[j])))
      ensures var w := [waitingList] + Of(l.waiting);
              w[..j + 1] + w[j + 2..] == [waitingList] + Of(Without(l.waiting, l.waiting[j]))
    {
      hide Sound, Without, Of;
      WithoutAtSound(l, j);
      SoundRange(l);
      SoundRange(l.(waiting := Without(l.waiting, l.waiting[j])));
      OfDropped(l.waiting, j, Without(l.waiting, l.waiting[j]));
      DropFromTail(waitingList, Of(l.waiting), j);
    }

    lemma OfDropped(handles: seq<nat>, j: nat, rest: seq<nat>)
      requires j < |handles| && rest == handles[..j] + handles[j + 1..]
      requires forall k :: 0 <= k < |handles| ==> 0 < handles[k] <= |events|
      requires forall k :: 0 <= k < |rest| ==> 0 < rest[k] <= |events|
      ensures Of(rest) == Of(handles)[..j] + Of(handles)[j + 1..]
    {
      hide Of;
      var m := Of(handles);
      var r, t := Of(rest), m[..j] + m[j + 1..];
      assert |r| == |t|;
      forall k | 0 <= k < |r|
        ensures r[k] == t[k]
      {
        assert r[k] == events[rest[k] - 1];
        assert rest[k] == handles[if k < j then k else k + 1];
        assert t[k] == m[if k < j then k else k + 1];
      }
    }

    /** ring is the one that event h is in, at place k: the waiting list or its own. */
    ghost predicate IsRingOf(h: nat, l: Lists, ring: seq<Event>, k: nat)
      requires Sound(l) && |events| == l.allocations && 0 < h <= |events|
      reads this`events
    {
      var l' := l.(waiting := Without(l.waiting, h));
      && 0 < |ring| && k < |ring| && ring[k] == events[h - 1]
      && Sound(l')
      && (if |ring| > 1 then ring[..k] + ring[k + 1..] == [waitingList] + Of(l'.waiting) else l' == l)
      && (|ring| == 1 ==> forall x <- [waitingList] + Of(l.waiting) :: x !in ring)
      && (forall x <- [recyclingList] + Of(l.recycling) :: x !in ring)
      && (forall i: nat :: Loose(l, i) && i != h ==> events[i - 1] !in ring)
      && (forall x <- ring :: x == waitingList || x in events)
    }

    lemma ListedRing(j: nat, l: Lists)
      requires Named() && Linked(l) && j < |l.waiting|
      ensures var w := [waitingList] + Of(l.waiting); IsRingOf(l.waiting[j], l, w, j + 1) && IsRing(w)
    {
      hide IsRing, IsList, Sound;
      SoundRange(l);
      WithoutSound(l, l.waiting[j]);
      ListsApart(l);
      OfWithout(l, j);
      ListNonEmpty([waitingList] + Of(l.waiting));
    }

    lemma LooseRing(h: nat, l: Lists)
      requires Named() && Linked(l) && Loose(l, h)
      ensures IsRingOf(h, l, [events[h - 1]], 0)
    {
      hide IsRing, IsList;
      ListsApart(l);
    }

    lemma RingOf(e: Event, l: Lists) returns (ring: seq<Event>, k: nat)
      requires Named() && Linked(l) && (e.handle in l.waiting || Loose(l, e.handle))
      requires 0 < e.handle <= |events| && events[e.handle - 1] == e
      ensures IsRingOf(e.handle, l, ring, k) && IsRing(ring)
    {
      hide IsRing, IsList, IsRingOf, Sound;
      if e.handle in l.waiting {
        var j :| 0 <= j < |l.waiting| && l.waiting[j] == e.handle;
        ListedRing(j, l);
        SoundRange(l);
        ring, k := [waitingList] + Of(l.waiting), j + 1;
      } else {
        LooseRing(e.handle, l);
        assert Loose(l, e.handle);
        ring, k := [e], 0;
      }
    }

    /** Takes an event out of the waiting list, if it is still there. */
    method ExtractWaiter(e: Event, ghost l: Lists)
      requires Named() && Linked(l) && (e.handle in l.waiting || Loose(l, e.handle))
      requires 0 < e.handle <= |events| && events[e.handle - 1] == e
      modifies waitingList`next, waitingList`prev, events`next, events`prev
      ensures Linked(l.(waiting := Without(l.waiting, e.handle)))
    {
      hide IsRing, IsList, Sound, Without, Linked, Of, Loose, Distinct, IsRingOf, Named;
      ghost var h0 := e.handle;
      ghost var l' := l.(waiting := Without(l.waiting, h0));
      ghost var ring, k := RingOf(e, l);
      LinkedParts(l);
      RingMeans(h0, l, ring, k);
      SoundRange(l);
      SoundRange(l');
      var _ := e.Extract(ring, k);
      if |ring| > 1 {
        HandlesListed(l');
      } else {
        ListKept([waitingList] + Of(l.waiting));
      }
      ListKept([recyclingList] + Of(l.recycling));
      forall h: nat | Loose(l', h)
        ensures IsRing([events[h - 1]])
      {
        if h != h0 {
          SingleKept(events[h - 1]);
        }
      }
      LinkedAgain(l');
    }

    /** What extracting an event out of its ring relies on. */
    lemma RingMeans(h0: nat, l: Lists, ring: seq<Event>, k: nat)
      requires Linked(l) && 0 < h0 <= |events| && IsRingOf(h0, l, ring, k)
      ensures var l' := l.(waiting := Without(l.waiting, h0));
              && Sound(l') && k < |ring| && ring[k] == events[h0 - 1]
              && (if |ring| > 1 then ring[..k] + ring[k + 1..] == [waitingList] + Of(l'.waiting) else l' == l)
              && (|ring| == 1 ==> forall x <- [waitingList] + Of(l.waiting) :: x !in ring)
              && (forall x <- [recyclingList] + Of(l.recycling) :: x !in ring)
              && (forall i :: 0 <= i < |ring| ==> ring[i] == waitingList || ring[i] in events)
              && (forall h: nat :: Loose(l', h) ==>
                    0 < h <= |events| && (h != h0 ==> events[h - 1] !in ring && IsRing([events[h - 1]])))
    {
      hide IsRing, IsList, Sound, Without, Of, Distinct;
      WithoutLoose(l, h0);
      var l' := l.(waiting := Without(l.waiting, h0));
      forall h: nat | Loose(l', h)
        ensures 0 < h <= |events| && (h != h0 ==> events[h - 1] !in ring && IsRing([events[h - 1]]))
      {
        assert Loose(l, h) || h == h0;
      }
      assert forall i :: 0 <= i < |ring| ==> ring[i] in ring;
    }

    lemma HandlesListed(l: Lists)
      requires Named() && Sound(l) && |events| == l.allocations && IsRing([waitingList] + Of(l.waiting))
      ensures IsList([waitingList] + Of(l.waiting))
    {
    }

    lemma LinkedSound(l: Lists)
      requires Linked(l)
      ensures Sound(l) && |events| == l.allocations && IsList([waitingList] + Of(l.waiting))
    {
    }

    /** Creates a loose event. */
    method NewEvent() returns (e: Event)
      requires Valid()
      modifies this`allocationCounter, this`events
      ensures Valid() && fresh(e) && e.handle == allocationCounter == old(allocationCounter) + 1
      ensures events == old(events) + [e] && Loose(Value(), e.handle) && events[e.handle - 1] == e
    {
      hide IsRing, IsList, Sound, Linked;
      LinkedParts(Value());
      SoundRange(Value());
      ghost var w, r := [waitingList] + Of(waiting), [recyclingList] + Of(recycling);
      e := CreateListElement(allocationCounter + 1);
      events := events + [e];
      allocationCounter := allocationCounter + 1;
      AllocateSound(old(Value()));
      SoundRange(Value());
      assert [waitingList] + Of(waiting) == w && [recyclingList] + Of(recycling) == r;
      ListKept(w);
      ListKept(r);
      forall i | 0 <= i < |events|
        ensures events[i].handle == i + 1
      {
        assert i < |events| - 1 ==> events[i] == old(events)[i];
      }
      forall h: nat | Loose(Value(), h)
        ensures IsRing([events[h - 1]])
      {
        if h < allocationCounter {
          assert old(Loose(Value(), h));
          SingleKept(events[h - 1]);
        }
      }
      LinkedAgain(Value());
    }

    method GetEventForWaiting() returns (e: Event)
      requires Valid()
      modifies this, waitingList`next, waitingList`prev, recyclingList`next, recyclingList`prev, events`next, events`prev
      ensures Valid() && Value() == GetEvent(old(Value())) && e.handle == EventForWaiting(old(Value()))
      // the oldest recycled event, or else a new one, joins the waiting list at its end
      ensures waiting == old(waiting) + [e.handle]
      ensures if old(recycling) == [] then e.handle == allocationCounter == old(allocationCounter) + 1 && recycling == []
              else old(recycling) == [e.handle] + recycling && allocationCounter == old(allocationCounter)
      ensures 0 < e.handle <= |events| && events[e.handle - 1] == e
    {
      hide IsRing, IsList, Linked, Named;
      LinkedSound(Value());
      if recyclingListSize == 0 {
        e := NewEvent();
      } else {
        PopRecycledSound(Value());
        e := PopRecycled(Value());
        recycling := recycling[1..];
        recyclingListSize := recyclingListSize - 1;
      }
      PushWaiting(e, Value());
      waiting := waiting + [e.handle];
    }

    /** Called with the event of a wait that ended, signaled or not. */
    method RecycleEvent(e: Event)
      requires Valid() && (e.handle in waiting || Loose(Value(), e.handle))
      requires 0 < e.handle <= |events| && events[e.handle - 1] == e
      modifies this`waiting, this`recycling, this`recyclingListSize
      modifies waitingList`next, waitingList`prev, recyclingList`next, recyclingList`prev, events`next, events`prev
      ensures Valid() && Value() == Recycle(old(Value()), e.handle)
      // it leaves the waiting list, if it is there, and joins the recycling list at its end
      ensures recycling == old(recycling) + [e.handle] && recyclingListSize == old(recyclingListSize) + 1
      ensures e.handle !in waiting && (e.handle !in old(waiting) ==> waiting == old(waiting))
      ensures forall k :: 0 <= k < |old(waiting)| && old(waiting)[k] == e.handle ==>
                waiting == old(waiting)[..k] + old(waiting)[k + 1..]
    {
      hide IsRing, IsList, Linked, Named, Sound, Without;
      LinkedSound(Value());
      WithoutSound(Value(), e.handle);
      WithoutAnywhere(Value(), e.handle);
      ExtractWaiter(e, Value());
      waiting := Without(waiting, e.handle);
      PushRecycling(e, Value());
      recycling := recycling + [e.handle];
      recyclingListSize := recyclingListSize + 1;
    }

    /** waiting_list_.IsEmpty() */
    method NoneWaiting() returns (b: bool)
      requires Valid()
      ensures b <==> waiting == []
    {
      hide IsRing, IsList, Linked, Named;
      LinkedSound(Value());
      b := waitingList.IsEmpty([waitingList] + Of(waiting));
    }

    /** waiting_list_.PopBack()->handle() */
    method PopBackHandle() returns (handle: nat)
      requires Valid() && waiting != []
      modifies this`waiting, waitingList`next, waitingList`prev, events`next, events`prev
      ensures Valid() && Value() == PopForSignal(old(Value())) && handle == SignalTarget(old(Value()))
    {
      hide IsRing, IsList, Linked, Named;
      var e := PopWaiter(Value());
      waiting := waiting[..|waiting| - 1];
      handle := e.handle;
    }

    /** The locked section of Signal: takes the most recent waiter off the list. */
    method SignalSection() returns (handle: nat)
      requires Valid()
      modifies this`waiting, waitingList`next, waitingList`prev, events`next, events`prev
      ensures Valid() && Value() == PopForSignal(old(Value())) && handle == SignalTarget(old(Value()))
      ensures if old(waiting) == [] then handle == 0 && waiting == [] else old(waiting) == waiting + [handle]
    {
      hide Valid, PopForSignal, SignalTarget;
      SignalTakesLast(Value());
      var empty := NoneWaiting();
      if empty {
        return 0;
      }
      handle := PopBackHandle();
    }

    /** The locked section of Broadcast: drains the waiting list into a stack. */
    method BroadcastSection() returns (handles: seq<nat>)
      requires Valid()
      modifies this`waiting, waitingList`next, waitingList`prev, events`next, events`prev
      ensures Valid() && Value() == PopForBroadcast(old(Value())) && waiting == []
      ensures |handles| == |old(waiting)|
      ensures forall k :: 0 <= k < |handles| ==> handles[k] == old(waiting)[|handles| - 1 - k]
    {
      hide Valid;
      ghost var all := waiting;
      handles := [];
      var empty := NoneWaiting();
      if empty {
        return;
      }
      while !empty
        invariant Valid() && Value() == old(Value()).(waiting := waiting) && (empty <==> waiting == [])
        invariant |waiting| + |handles| == |all| && waiting == all[..|waiting|]
        invariant forall k :: 0 <= k < |handles| ==> handles[k] == all[|all| - 1 - k]
        decreases |waiting|
      {
        var handle := PopBackHandle();
        handles := handles + [handle];
        empty := NoneWaiting();
      }
    }

    /** Broadcast, with nothing happening in between: the events are set from the top of
        the stack. The result lists them in the order they are set, oldest waiter first. */
    method Broadcast() returns (order: seq<nat>)
      requires Valid()
      modifies this`waiting, waitingList`next, waitingList`prev, events`next, events`prev
      ensures Valid() && Value() == PopForBroadcast(old(Value())) && waiting == [] && order == old(waiting)
    {
      hide Valid;
      ghost var all := waiting;
      var handles := BroadcastSection();
      order := [];
      while handles != []
        invariant |handles| <= |all| && order == all[..|all| - |handles|]
        invariant forall k :: 0 <= k < |handles| ==> handles[k] == all[|all| - 1 - k]
        decreases |handles|
      {
        order := order + [handles[|handles| - 1]];
        handles := handles[..|handles| - 1];
      }
    }
  }
}
