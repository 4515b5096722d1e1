/** The parallel move of file descriptors: an injective multimap from sources to
    destinations is turned into a sequence of Duplicate, Move and Close calls. */
module FileDescriptorShuffle {
  import opened Prelude

  datatype InjectionArc = InjectionArc(source: int, dest: int, close: bool)

  /** What a delegate was asked to do, and did. */
  datatype Action =
    | Duplicated(result: int, fd: int)
    | Moved(src: int, dest: int)
    | Closed(fd: int)
  {
    predicate Mentions(x: int) {
      match this
      case Duplicated(result, fd) => x == result || x == fd
      case Moved(src, dest) => x == src || x == dest
      case Closed(fd) => x == fd
    }
  }

  const K_MAX_EXTRA_FDS: nat := 16

  // ---------- The delegate ----------

  /** Some non-negative number lies above every element of a finite set. */
  lemma {:induction false} AboveExists(s: set<int>) returns (n: nat)
    ensures forall x <- s :: x < n
  {
    if x :| x in s {
      n := AboveExists(s - {x});
      assert forall y <- s :: y == x || y in s - {x};
      n := if x < n then n else x + 1;
    } else {
      n := 0;
    }
  }

  /** The domain of the mapping: a table from descriptors to open objects. Any call
      may fail, and then changes nothing but `failed`; a reliable one fails only for a
      descriptor that is not open. */
  class InjectionDelegate {
    var table: map<int, int>
    const named: set<int>  // no fresh descriptor is one of these
    const reliable: bool   // no call refuses an open descriptor
    ghost var log: seq<Action>
    ghost var failed: bool

    constructor (table: map<int, int>, named: set<int>, reliable: bool)
      ensures this.table == table && this.named == named && this.reliable == reliable && log == [] && !failed
    {
      this.table, this.named, this.reliable, log, failed := table, named, reliable, [], false;
    }

    /** A fresh element is one that is not open, and not one of `named`. */
    method Duplicate(fd: int) returns (ok: bool, result: int)
      modifies this
      ensures ok ==> fd in old(table) && 0 <= result && result !in old(table) && result !in named
      ensures ok ==> table == old(table)[result := old(table)[fd]]
      ensures ok ==> log == old(log) + [Duplicated(result, fd)] && failed == old(failed)
      ensures !ok ==> failed && table == old(table) && log == old(log)
      ensures reliable && fd in old(table) ==> ok
    {
      var refused := *;
      if fd !in table || (refused && !reliable) {
        failed := true;
        return false, -1;
      }
      ghost var n := AboveExists(table.Keys + named);
      assert n !in table.Keys + named;
      result :| 0 <= result && result !in table && result !in named;
      table, log, ok := table[result := table[fd]], log + [Duplicated(result, fd)], true;
    }

    method Move(src: int, dest: int) returns (ok: bool)
      modifies this
      ensures ok ==> src in old(table) && table == old(table)[dest := old(table)[src]]
      ensures ok ==> log == old(log) + [Moved(src, dest)] && failed == old(failed)
      ensures !ok ==> failed && table == old(table) && log == old(log)
      ensures reliable && src in old(table) ==> ok
    {
      var refused := *;
      if src !in table || (refused && !reliable) {
        failed := true;
        return false;
      }
      table, log, ok := table[dest := table[src]], log + [Moved(src, dest)], true;
    }

    method Close(fd: int)
      modifies this
      ensures table == old(table) - {fd} && log == old(log) + [Closed(fd)] && failed == old(failed)
    {
      table, log := table - {fd}, log + [Closed(fd)];
    }
  }

  // ---------- What the arcs ask for ----------

  predicate IsIdentity(arc: InjectionArc) {
    arc.source == arc.dest
  }

  predicate Injective(arcs: seq<InjectionArc>) {
    forall j, k :: 0 <= j < k < |arcs| ==> arcs[j].dest != arcs[k].dest
  }

  /** Some arc from index `from` on reads fd. */
  predicate ReadFrom(arcs: seq<InjectionArc>, from: nat, fd: int) {
    exists k :: from <= k < |arcs| && arcs[k].source == fd
  }

  predicate IsDest(arcs: seq<InjectionArc>, fd: int) {
    exists k :: 0 <= k < |arcs| && arcs[k].dest == fd
  }

  predicate IsFlagged(arcs: seq<InjectionArc>, fd: int) {
    exists k :: 0 <= k < |arcs| && arcs[k].source == fd && arcs[k].close
  }

  /** An identity arc followed by another reader of the same descriptor, one of the
      two being close-flagged. */
  predicate Clobbers(arcs: seq<InjectionArc>, j: int, k: int)
    requires 0 <= j < k < |arcs|
  {
    IsIdentity(arcs[j]) && arcs[k].source == arcs[j].source && (arcs[j].close || arcs[k].close)
  }

  predicate IsClobbered(arcs: seq<InjectionArc>, fd: int) {
    exists j, k :: 0 <= j < k < |arcs| && Clobbers(arcs, j, k) && arcs[j].source == fd
  }

  predicate EndsClosed(arcs: seq<InjectionArc>, fd: int) {
    IsFlagged(arcs, fd) && (!IsDest(arcs, fd) || IsClobbered(arcs, fd))
  }

  /** Index of the arc whose dest is fd. */
  ghost function ArcTo(arcs: seq<InjectionArc>, fd: int): (k: nat)
    requires Injective(arcs) && IsDest(arcs, fd)
    ensures k < |arcs| && arcs[k].dest == fd
  {
    var k :| 0 <= k < |arcs| && arcs[k].dest == fd;
    k
  }

  /** What fd refers to after the whole mapping, starting from `table`. */
  ghost function FinalObject(arcs: seq<InjectionArc>, table: map<int, int>, fd: int): Option<int>
    requires Injective(arcs)
  {
    if EndsClosed(arcs, fd) then None
    else if IsDest(arcs, fd) then Lookup(table, arcs[ArcTo(arcs, fd)].source)
    else Lookup(table, fd)
  }

  /** Arc k overwrites a descriptor that a later arc still reads. */
  predicate Overwrites(arcs: seq<InjectionArc>, k: nat)
    requires k < |arcs|
  {
    !IsIdentity(arcs[k]) && ReadFrom(arcs, k + 1, arcs[k].dest)
  }

  /** The dests that the first n arcs overwrite although a later arc reads them. */
  ghost function Overwritten(arcs: seq<InjectionArc>, n: nat): set<int>
    requires n <= |arcs|
  {
    set k: nat | k < n && Overwrites(arcs, k) :: arcs[k].dest
  }

  /** How many duplicates find no room in the sixteen slots. */
  ghost function LeakCount(arcs: seq<InjectionArc>): nat {
    var n := |Overwritten(arcs, |arcs|)|;
    if n <= K_MAX_EXTRA_FDS then 0 else n - K_MAX_EXTRA_FDS
  }

  /** Once a descriptor has been closed nothing mentions it again; in particular it
      is closed at most once. */
  ghost predicate NoUseAfterClose(log: seq<Action>) {
    forall j, k :: 0 <= j < k < |log| && log[j].Closed? ==> !log[k].Mentions(log[j].fd)
  }

  /** What a mapping asks for, spelled out: what it closes, and what it overwrites too early. */
  lemma ClosingSpelledOut(arcs: seq<InjectionArc>, fd: int)
    ensures EndsClosed(arcs, fd) <==>
            && (exists k :: 0 <= k < |arcs| && arcs[k].source == fd && arcs[k].close)
            && ((forall k :: 0 <= k < |arcs| ==> arcs[k].dest != fd) ||
                exists j, k :: 0 <= j < k < |arcs| && arcs[j].dest == arcs[j].source == arcs[k].source == fd &&
                               (arcs[j].close || arcs[k].close))
  {
    assert IsFlagged(arcs, fd) <==> exists k :: 0 <= k < |arcs| && arcs[k].source == fd && arcs[k].close;
    assert IsDest(arcs, fd) <==> !forall k :: 0 <= k < |arcs| ==> arcs[k].dest != fd;
    if j, k :| 0 <= j < k < |arcs| && arcs[j].dest == arcs[j].source == arcs[k].source == fd && (arcs[j].close || arcs[k].close) {
      assert Clobbers(arcs, j, k);
    }
    if j, k :| 0 <= j < k < |arcs| && Clobbers(arcs, j, k) && arcs[j].source == fd {
      assert arcs[j].dest == arcs[j].source == arcs[k].source == fd && (arcs[j].close || arcs[k].close);
    }
  }

  lemma LeaksSpelledOut(arcs: seq<InjectionArc>)
    ensures var early := set k: nat | k < |arcs| && arcs[k].source != arcs[k].dest &&
                                      (exists j :: k < j < |arcs| && arcs[j].source == arcs[k].dest) :: arcs[k].dest;
            LeakCount(arcs) == if |early| <= 16 then 0 else |early| - 16
  {
    var early := set k: nat | k < |arcs| && arcs[k].source != arcs[k].dest &&
                              (exists j :: k < j < |arcs| && arcs[j].source == arcs[k].dest) :: arcs[k].dest;
    assert early == Overwritten(arcs, |arcs|);
  }

  lemma LogSpelledOut(log: seq<Action>, j: nat, k: nat, x: int)
    requires NoUseAfterClose(log) && j < k < |log| && log[j].Closed?
    ensures log[k] != Closed(log[j].fd)
    ensures log[k] != Moved(log[j].fd, x) && log[k] != Moved(x, log[j].fd)
    ensures log[k] != Duplicated(log[j].fd, x) && log[k] != Duplicated(x, log[j].fd)
  {
    assert !log[k].Mentions(log[j].fd);
  }

  // ---------- The scan of the later arcs ----------

  /** Some arc strictly between i and k touches the source of arc i. */
  predicate Met(arcs: seq<InjectionArc>, i: nat, k: nat)
    requires i < |arcs| && k <= |arcs|
  {
    exists j :: i < j < k && (arcs[j].dest == arcs[i].source || arcs[j].source == arcs[i].source)
  }

  /** Arc k after the scan made for arc i, which moved i's dest to `temp`. */
  function Scanned(arcs: seq<InjectionArc>, i: nat, temp: int, k: nat): InjectionArc
    requires i < |arcs| && k < |arcs|
  {
    var arc, s := arcs[k], arcs[i].source;
    if k < i then arc
    else if k == i then arc.(close := arc.close && !Met(arcs, i, |arcs|))
    else if !IsIdentity(arcs[i]) && arc.source == arcs[i].dest then InjectionArc(temp, arc.dest, false)
    else if arcs[i].close && !Met(arcs, i, k) && arc.dest != s && arc.source == s then arc.(close := true)
    else arc
  }

  method ScanLaterArcs(m: array<InjectionArc>, i: nat, delegate: InjectionDelegate)
    returns (ok: bool, temp: int)
    requires i < m.Length
    requires Overwrites(m[..], i) ==> m[i].source in delegate.named || m[i].source in delegate.table
    modifies m, delegate
    ensures ok ==> forall k: nat :: k < m.Length ==> m[k] == Scanned(old(m[..]), i, temp, k)
    ensures ok && temp == -1 ==> !Overwrites(old(m[..]), i)
    ensures ok && temp == -1 ==> delegate.table == old(delegate.table) && delegate.log == old(delegate.log)
    ensures ok && temp != -1 ==> Overwrites(old(m[..]), i)
    ensures ok && temp != -1 ==> var d := old(m[i].dest);
              && d in old(delegate.table) && 0 <= temp && temp !in old(delegate.table) && temp !in delegate.named
              && delegate.table == old(delegate.table)[temp := old(delegate.table)[d]]
              && delegate.log == old(delegate.log) + [Duplicated(temp, d)]
    ensures if ok then delegate.failed == old(delegate.failed) else delegate.failed
    ensures delegate.reliable && (Overwrites(old(m[..]), i) ==> old(m[i].dest) in old(delegate.table)) ==> ok
  {
    ghost var before := m[..];
    temp := -1;
    var isIdentity := m[i].source == m[i].dest;
    var j := i + 1;
    while j < m.Length
      invariant i < j <= m.Length
      invariant forall k: nat :: k < m.Length && k != i ==>
                                   m[k] == if k < j then Scanned(before, i, temp, k) else before[k]
      invariant m[i] == before[i].(close := before[i].close && !Met(before, i, j))
      invariant temp == -1 <==> isIdentity || forall k :: i < k < j ==> before[k].source != before[i].dest
      invariant temp == -1 ==> delegate.table == old(delegate.table) && delegate.log == old(delegate.log)
      invariant temp != -1 ==> var d := before[i].dest;
                  && d in old(delegate.table) && 0 <= temp && temp !in old(delegate.table) && temp !in delegate.named
                  && delegate.table == old(delegate.table)[temp := old(delegate.table)[d]]
                  && delegate.log == old(delegate.log) + [Duplicated(temp, d)]
      invariant delegate.failed == old(delegate.failed)
    {
      if !isIdentity && m[i].dest == m[j].source {
        if temp == -1 {
          ok, temp := delegate.Duplicate(m[i].dest);
          assert before[j].source == before[i].dest;
          if !ok {
            return;
          }
        }
        m[j] := m[j].(source := temp, close := false);
      }
      if m[i].close && m[i].source == m[j].dest {
        m[i] := m[i].(close := false);
      }
      if m[i].close && m[i].source == m[j].source {
        m[i] := m[i].(close := false);
        m[j] := m[j].(close := true);
      }
      j := j + 1;
    }
    ok := true;
  }

  // ---------- One round of the outer loop ----------

  /** The delegate calls for one arc. */
  datatype Call = Call(overwrites: bool, identity: bool, source: int, dest: int, close: bool)
  {
    /** They leave this table, t being the fresh descriptor, if there is one. */
    ghost predicate Makes(t: int, named: set<int>, table: map<int, int>, table': map<int, int>) {
      && (overwrites ==> dest in table && 0 <= t && t !in table && t !in named)
      && var duplicated := if overwrites then table[t := table[dest]] else table;
      && (!identity ==> source in duplicated)
      && var moved := if identity then duplicated else duplicated[dest := duplicated[source]];
      && table' == if !identity && close then moved - {source} else moved
    }

    /** What they read is open. */
    ghost predicate Possible(table: map<int, int>) {
      (overwrites ==> dest in table) && (!identity ==> source in table)
    }

    ghost function Actions(t: int): seq<Action> {
      (if overwrites then [Duplicated(t, dest)] else []) +
      (if identity then [] else [Moved(source, dest)]) +
      (if !identity && close then [Closed(source)] else [])
    }
  }

  ghost function CallFor(cur: seq<InjectionArc>, i: nat, cur': seq<InjectionArc>): Call
    requires i < |cur| == |cur'|
  {
    Call(Overwrites(cur, i), IsIdentity(cur[i]), cur[i].source, cur[i].dest, cur'[i].close)
  }

  /** What a round does to the arcs and the table. */
  ghost predicate IsRound(cur: seq<InjectionArc>, i: nat, t: int, cur': seq<InjectionArc>,
                          named: set<int>, table: map<int, int>, table': map<int, int>)
    requires i < |cur|
  {
    && |cur'| == |cur| && (forall k: nat :: k < |cur| ==> cur'[k] == Scanned(cur, i, t, k))
    && (t != -1 <==> Overwrites(cur, i)) && CallFor(cur, i, cur').Makes(t, named, table, table')
  }

  // ---------- The state after the first i arcs ----------

  /** No fresh descriptor is one that some arc names. */
  ghost predicate AllNamed(arcs: seq<InjectionArc>, named: set<int>) {
    forall k :: 0 <= k < |arcs| ==> arcs[k].source in named && arcs[k].dest in named
  }

  /** Once there are fresh descriptors, none is one that a remaining arc names, nor the dest of
      an identity arc, as long as those stay open that were at the start. */
  ghost predicate Covered(arcs: seq<InjectionArc>, named: set<int>, table: map<int, int>) {
    forall j, k :: 0 <= j < |arcs| && Overwrites(arcs, j) && 0 <= k < |arcs| && (j <= k || IsIdentity(arcs[k])) ==>
      && (arcs[k].source in named || arcs[k].source in table) && (arcs[k].dest in named || arcs[k].dest in table)
  }

  /** The fresh elements that the interface asks for are enough. */
  lemma AllNamedIsCovered(arcs: seq<InjectionArc>, named: set<int>, table: map<int, int>)
    requires AllNamed(arcs, named)
    ensures Covered(arcs, named, table)
  {
  }

  /** No arc from index `from` on names fd. */
  ghost predicate Unused(arcs: seq<InjectionArc>, from: nat, fd: int) {
    forall k :: from <= k < |arcs| ==> arcs[k].source != fd && arcs[k].dest != fd
  }

  ghost predicate MovedTo(arcs: seq<InjectionArc>, i: nat, fd: int)
    requires i <= |arcs|
  {
    exists k :: 0 <= k < i && !IsIdentity(arcs[k]) && arcs[k].dest == fd
  }

  ghost predicate ClosedBefore(arcs: seq<InjectionArc>, i: nat, fd: int) {
    EndsClosed(arcs, fd) && !ReadFrom(arcs, i, fd)
  }

  ghost function ObjectAfter(arcs: seq<InjectionArc>, i: nat, table: map<int, int>, fd: int): Option<int>
    requires Injective(arcs) && i <= |arcs|
  {
    if MovedTo(arcs, i, fd) then Lookup(table, arcs[ArcTo(arcs, fd)].source)
    else if ClosedBefore(arcs, i, fd) then None
    else Lookup(table, fd)
  }

  ghost predicate LogOk(arcs: seq<InjectionArc>, i: nat, log: seq<Action>) {
    && NoUseAfterClose(log)
    && forall fd :: Closed(fd) in log <==> ClosedBefore(arcs, i, fd)
  }

  /** No dest strictly between o and k is the descriptor that o reads. */
  ghost predicate Unmoved(arcs: seq<InjectionArc>, o: int, k: int) {
    0 <= o < |arcs| && forall q :: o < q < k && q < |arcs| ==> arcs[q].dest != arcs[o].source
  }

  ghost predicate FlagAt(arcs: seq<InjectionArc>, cur: seq<InjectionArc>, fd: int, k: int) {
    0 <= k < |arcs| == |cur| && arcs[k].source == fd && cur[k].close
  }

  /** The original arcs and table, and what they have become after the first i arcs.
      `temp` maps each descriptor that was overwritten too early to its duplicate. */
  datatype Progress = Progress(arcs: seq<InjectionArc>, named: set<int>, start: map<int, int>, i: nat,
                               cur: seq<InjectionArc>, temp: map<int, int>, table: map<int, int>)
  {
    /** The remaining arcs read the temporary of each descriptor overwritten so far. */
    ghost predicate ArcsOk() {
      && |cur| == |arcs|
      && (forall k :: 0 <= k < |arcs| ==> cur[k].dest == arcs[k].dest)
      && (forall k :: i <= k < |arcs| ==>
            cur[k].source == if arcs[k].source in temp then temp[arcs[k].source] else arcs[k].source)
    }

    /** A remaining flag comes from an original one that no dest in between cancelled. */
    ghost predicate FlagsSound()
      requires ArcsOk()
    {
      forall k :: i <= k < |arcs| && cur[k].close ==>
                    && arcs[k].source !in temp
                    && exists o :: 0 <= o <= k && arcs[o].source == arcs[k].source && arcs[o].close && Unmoved(arcs, o, k + 1)
    }

    /** A flag that no dest cancels survives as long as its descriptor is still read. */
    ghost predicate FlagsComplete() {
      forall o :: 0 <= o < |arcs| && arcs[o].close && arcs[o].source !in temp && Unmoved(arcs, o, |arcs|)
                  && ReadFrom(arcs, if i < o then o else i, arcs[o].source)
        ==> exists k :: i <= k && o <= k && FlagAt(arcs, cur, arcs[o].source, k)
    }

    /** What was moved was open at the start. */
    ghost predicate MovedOk()
      requires i <= |arcs|
    {
      forall k :: 0 <= k < i && !IsIdentity(arcs[k]) ==> arcs[k].source in start
    }

    ghost predicate TempsOk()
      requires Injective(arcs) && i <= |arcs|
    {
      && temp.Keys == Overwritten(arcs, i)
      && (forall d :: d in temp ==> d in start && temp[d] !in named)
      && (forall d :: d in temp ==> Unused(arcs, i, temp[d]) && FinalObject(arcs, start, temp[d]) == None)
      && (forall d :: d in temp ==> temp[d] in table && table[temp[d]] == start[d])
      && (forall d, e :: d in temp && e in temp && d != e ==> temp[d] != temp[e])
    }

    ghost predicate TableOk()
      requires Injective(arcs) && i <= |arcs|
    {
      forall fd :: fd !in temp.Values ==> Lookup(table, fd) == ObjectAfter(arcs, i, start, fd)
    }

    ghost predicate Ok() {
      && Injective(arcs) && Covered(arcs, named, start) && i <= |arcs|
      && ArcsOk() && FlagsSound() && FlagsComplete() && MovedOk() && TempsOk() && TableOk()
    }

    lemma MovedIsOpen(fd: int)
      requires Injective(arcs) && i <= |arcs| && MovedOk()
      ensures MovedTo(arcs, i, fd) ==> ObjectAfter(arcs, i, start, fd).Some?
    {
      if q :| 0 <= q < i && !IsIdentity(arcs[q]) && arcs[q].dest == fd {
        assert ArcTo(arcs, fd) == q;
      }
    }

    /** What a remaining arc names and a fresh descriptor might be, is open. */
    lemma StaysOpen(k: nat, fd: int)
      requires Ok() && i <= k < |arcs| && Overwrites(arcs, i)
      requires (fd == arcs[k].source || fd == arcs[k].dest) && fd !in named
      ensures fd in table
    {
      hide Progress.ArcsOk, Progress.FlagsSound, Progress.FlagsComplete, Overwritten, Unused, EndsClosed;
      if fd in temp.Values {
        var d := KeyOf(temp, fd);
      } else {
        MovedIsOpen(fd);
        RemainingIsNotClosed(arcs, i, k, fd);
      }
    }

    lemma CanProcess()
      requires Ok() && i < |arcs| == |cur|
      ensures Overwrites(cur, i) ==> cur[i].source in named || cur[i].source in table
      ensures MovesLive(arcs, start) ==> CallFor(cur, i, cur).Possible(table)
    {
      hide Progress.FlagsSound, Progress.FlagsComplete, Progress.TempsOk, Progress.TableOk, Overwrites, Covered;
      SameArc();
      At(i);
      OverwrittenIsLive(arcs, start, i);
    }

    /** The arc about to be processed is an identity, or overwrites a descriptor still
        in use, exactly when the original arc is or does. */
    lemma SameArc()
      requires Ok() && i < |arcs|
      ensures IsIdentity(cur[i]) <==> IsIdentity(arcs[i])
      ensures Overwrites(cur, i) <==> Overwrites(arcs, i)
      ensures arcs[i].dest !in temp
      ensures Lookup(table, cur[i].source) == Lookup(start, arcs[i].source)
      ensures Overwrites(arcs, i) ==> Lookup(table, arcs[i].dest) == Lookup(start, arcs[i].dest)
      ensures Overwrites(arcs, i) ==> cur[i].source in named || cur[i].source in table
    {
    }

    /** `next` has the arcs and temporaries that the scan for arc i leaves. */
    ghost predicate ScansTo(t: int, next: Progress) {
      && i < |arcs| == |cur| == |next.cur|
      && next.arcs == arcs && next.named == named && next.start == start && next.i == i + 1
      && (forall k: nat :: k < |cur| ==> next.cur[k] == Scanned(cur, i, t, k))
      && next.temp == (if Overwrites(arcs, i) then temp[arcs[i].dest := t] else temp)
    }

    lemma StepArcs(t: int, next: Progress)
      requires Ok() && ScansTo(t, next)
      ensures next.ArcsOk()
    {
      SameArc();
    }

    /** The flag of a later arc is its own, or the one that arc i hands over; and the
        arc has not been redirected to a temporary. */
    lemma FlagKind(t: int, next: Progress, k: nat)
      requires Ok() && ScansTo(t, next) && i < k < |arcs| && next.cur[k].close
      ensures arcs[k].source !in next.temp
      ensures cur[k].close || (cur[i].close && arcs[k].source == arcs[i].source)
      ensures cur[k].close || forall q :: i < q <= k ==> arcs[q].dest != arcs[i].source
    {
      hide Progress.Ok, ReadFrom, Met;
      SameArc();
      At(i);
      At(k);
      assert next.cur[k] == Scanned(cur, i, t, k);
      if !cur[k].close {
        assert !Met(cur, i, k) && cur[k].dest != cur[i].source;
        forall q | i < q <= k
          ensures arcs[q].dest != arcs[i].source
        {
          At(q);
          NotMet(i, k, q);
        }
      }
    }

    /** What is known of a remaining arc. */
    lemma At(k: nat)
      requires Ok() && i <= k < |arcs|
      ensures |cur| == |arcs| && cur[k].dest == arcs[k].dest
      ensures cur[k].source == if arcs[k].source in temp then temp[arcs[k].source] else arcs[k].source
      ensures arcs[k].source in temp ==> !cur[k].close && Unused(arcs, i, cur[k].source)
    {
    }

    lemma NotMet(i: nat, k: nat, q: nat)
      requires i < q <= k < |cur| && !Met(cur, i, k) && cur[k].dest != cur[i].source
      ensures cur[q].dest != cur[i].source
    {
    }

    lemma OriginalFlag(k: nat) returns (o: nat)
      requires Ok() && i <= k < |arcs| && cur[k].close
      ensures o <= k && arcs[o].source == arcs[k].source && arcs[o].close && Unmoved(arcs, o, k + 1)
    {
      o :| o <= k && arcs[o].source == arcs[k].source && arcs[o].close && Unmoved(arcs, o, k + 1);
    }

    lemma FlagOrigin(t: int, next: Progress, k: nat) returns (o: nat)
      requires Ok() && ScansTo(t, next) && i < k < |arcs| && next.cur[k].close
      ensures o <= k && arcs[o].source == arcs[k].source && arcs[o].close && Unmoved(arcs, o, k + 1)
    {
      FlagKind(t, next, k);
      o := OriginalFlag(if cur[k].close then k else i);
    }

    lemma StepFlagsSound(t: int, next: Progress)
      requires Ok() && ScansTo(t, next) && next.ArcsOk()
      ensures next.FlagsSound()
    {
      forall k: nat | i + 1 <= k < |arcs| && next.cur[k].close
        ensures arcs[k].source !in next.temp
        ensures exists o :: 0 <= o <= k && arcs[o].source == arcs[k].source && arcs[o].close && Unmoved(arcs, o, k + 1)
      {
        FlagKind(t, next, k);
        var _ := FlagOrigin(t, next, k);
      }
    }

    /** Arc i hands its flag to the next reader of its source. */
    lemma FlagPassesOn(t: int, next: Progress, r: nat)
      requires Ok() && ScansTo(t, next)
      requires cur[i].close && arcs[i].source !in temp && Unmoved(arcs, i, |arcs|)
      requires i < r < |arcs| && arcs[r].source == arcs[i].source
      requires forall q :: i < q < r ==> arcs[q].source != arcs[i].source
      ensures FlagAt(arcs, next.cur, arcs[i].source, r)
    {
      SameArc();
      var s := arcs[i].source;
      assert cur[r].source == s && cur[i].source == s;
      forall q | i < q < r
        ensures cur[q].dest != s && cur[q].source != s
      {
        assert arcs[q].source != s && arcs[q].dest != s;
      }
      assert !Met(cur, i, r);
      assert next.cur[r] == Scanned(cur, i, t, r);
    }

    /** A later flag stays, unless arc i overwrites its descriptor. */
    lemma FlagStays(t: int, next: Progress, k: nat)
      requires Ok() && ScansTo(t, next) && i < k < |arcs|
      requires cur[k].close && arcs[k].source !in next.temp
      ensures FlagAt(arcs, next.cur, arcs[k].source, k)
    {
      SameArc();
      assert next.cur[k] == Scanned(cur, i, t, k);
    }

    lemma StepFlagsComplete(t: int, next: Progress)
      requires Ok() && ScansTo(t, next)
      ensures next.FlagsComplete()
    {
      forall o | 0 <= o < |arcs| && arcs[o].close && arcs[o].source !in next.temp && Unmoved(arcs, o, |arcs|)
                 && ReadFrom(arcs, if i + 1 < o then o else i + 1, arcs[o].source)
        ensures exists k :: i + 1 <= k && o <= k && FlagAt(arcs, next.cur, arcs[o].source, k)
      {
        var s := arcs[o].source;
        assert s !in temp && ReadFrom(arcs, if i < o then o else i, s);
        var k :| i <= k && o <= k && FlagAt(arcs, cur, s, k);
        if k == i {
          assert Unmoved(arcs, i, |arcs|);
          var r := NextReader(arcs, i, s);
          FlagPassesOn(t, next, r);
        } else {
          FlagStays(t, next, k);
        }
      }
    }

    /** A flag left on arc i itself closes a descriptor that has to be closed. */
    lemma ClosesOnlyThen(t: int, next: Progress)
      requires Ok() && ScansTo(t, next) && !IsIdentity(arcs[i]) && next.cur[i].close
      ensures cur[i].source == arcs[i].source
      ensures ClosedBefore(arcs, i + 1, arcs[i].source)
    {
      hide Progress.Ok, Scanned, Overwrites, ReadFrom, Met, EndsClosed, ClosedBefore, Unmoved;
      At(i);
      FlagKept(t, next);
      var o := OriginalFlag(i);
      NoneLater();
      LastFlagCloses(o);
    }

    lemma FlagKept(t: int, next: Progress)
      requires ScansTo(t, next) && next.cur[i].close
      ensures cur[i].close && !Met(cur, i, |arcs|)
    {
      assert next.cur[i] == Scanned(cur, i, t, i);
    }

    /** No later arc touches what arc i reads. */
    ghost predicate NothingLater()
      requires i < |arcs|
    {
      forall q :: i < q < |arcs| ==> arcs[q].dest != arcs[i].source && arcs[q].source != arcs[i].source
    }

    lemma NoneLater()
      requires Ok() && i < |arcs| == |cur| && cur[i].close && !Met(cur, i, |arcs|)
      ensures NothingLater()
    {
      hide Progress.Ok;
      At(i);
      forall q | i < q < |arcs|
        ensures arcs[q].dest != arcs[i].source && arcs[q].source != arcs[i].source
      {
        At(q);
        assert cur[q].dest != cur[i].source && cur[q].source != cur[i].source;
      }
    }

    /** The flag of the last reader of a descriptor closes it for good. */
    lemma LastFlagCloses(o: nat)
      requires Ok() && i < |arcs| && NothingLater() && !IsIdentity(arcs[i]) && arcs[i].source !in temp
      requires o <= i && arcs[o].source == arcs[i].source && arcs[o].close && Unmoved(arcs, o, i + 1)
      ensures ClosedBefore(arcs, i + 1, arcs[i].source)
    {
      hide Progress.ArcsOk, Progress.FlagsSound, Progress.FlagsComplete, Progress.TableOk;
      var s := arcs[i].source;
      if IsDest(arcs, s) {
        var p := ArcTo(arcs, s);
        assert p <= o && p < i;
        assert arcs[p].dest !in Overwritten(arcs, i) && ReadFrom(arcs, p + 1, s);
        assert IsIdentity(arcs[p]);
        assert if p < o then Clobbers(arcs, p, o) else Clobbers(arcs, p, i);
      }
    }

    /** The last reader of a descriptor that has to be closed still carries a flag. */
    lemma ClosesThen(t: int, next: Progress)
      requires Ok() && ScansTo(t, next) && !IsIdentity(arcs[i])
      requires ClosedBefore(arcs, i + 1, arcs[i].source)
      ensures next.cur[i].close
    {
      var s := arcs[i].source;
      assert next.cur[i] == Scanned(cur, i, t, i);
      var o := CancelledByNone(arcs, s);
      assert o <= i && ReadFrom(arcs, i, s);
      var k :| i <= k && o <= k && FlagAt(arcs, cur, s, k);
      assert k == i;
      forall q | i < q < |arcs|
        ensures cur[q].dest != s && cur[q].source != s
      {
        assert arcs[q].dest != s && arcs[q].source != s;
      }
    }

    lemma ClosesNow(t: int, next: Progress)
      requires Ok() && ScansTo(t, next) && !IsIdentity(arcs[i])
      ensures next.cur[i].close <==> ClosedBefore(arcs, i + 1, arcs[i].source)
      ensures next.cur[i].close ==> cur[i].source == arcs[i].source
    {
      if next.cur[i].close {
        ClosesOnlyThen(t, next);
      } else if ClosedBefore(arcs, i + 1, arcs[i].source) {
        ClosesThen(t, next);
      }
    }

    /** `next` has the table that the delegate calls for arc i leave. */
    ghost predicate CallsTo(t: int, next: Progress)
      requires i < |arcs| == |cur| == |next.cur|
    {
      Call(Overwrites(arcs, i), IsIdentity(arcs[i]), cur[i].source, arcs[i].dest, next.cur[i].close).Makes(t, named, table, next.table)
    }

    /** The actions that go with `CallsTo`. */
    ghost function Actions(t: int, next: Progress): seq<Action>
      requires i < |arcs| == |cur| == |next.cur|
    {
      Call(Overwrites(arcs, i), IsIdentity(arcs[i]), cur[i].source, arcs[i].dest, next.cur[i].close).Actions(t)
    }

    /** A round of the loop does to the arcs and the table what it would do to the original arc. */
    lemma RoundIsStep(t: int, cur': seq<InjectionArc>, table': map<int, int>) returns (next: Progress)
      requires Ok() && i < |arcs| == |cur| && IsRound(cur, i, t, cur', named, table, table')
      ensures next.cur == cur' && next.table == table' && ScansTo(t, next) && CallsTo(t, next)
      ensures Actions(t, next) == CallFor(cur, i, cur').Actions(t)
      ensures t != -1 <==> Overwrites(arcs, i)
      ensures !IsIdentity(arcs[i]) ==> arcs[i].source in start
    {
      hide Progress.FlagsSound, Progress.FlagsComplete, Progress.TempsOk, Progress.TableOk, Scanned, Overwrites, Covered, Call.Makes,
           Call.Actions;
      SameArc();
      At(i);
      next := Progress(arcs, named, start, i + 1, cur', if Overwrites(arcs, i) then temp[arcs[i].dest := t] else temp, table');
      StepMoved(t, next);
    }

    /** A fresh descriptor plays no part any more, and the mapping wants nothing there. */
    lemma FreshIsUnused(t: int)
      requires Ok() && i < |arcs| && Overwrites(arcs, i) && t !in table && t !in named
      ensures t !in temp.Values && Unused(arcs, i, t) && FinalObject(arcs, start, t) == None
    {
      hide Progress.ArcsOk, Progress.FlagsSound, Progress.FlagsComplete, Overwritten, EndsClosed;
      if t in temp.Values {
        var _ := KeyOf(temp, t);
      }
      assert t !in temp.Values;
      forall k | i <= k < |arcs|
        ensures arcs[k].source != t && arcs[k].dest != t
      {
        if arcs[k].source == t || arcs[k].dest == t {
          StaysOpen(k, t);
        }
      }
      MovedIsOpen(t);
    }

    /** The delegate calls leave the temporaries alone, and add the new one. */
    lemma CallsKeepTemps(t: int, next: Progress, e: int)
      requires Ok() && ScansTo(t, next) && CallsTo(t, next) && e in next.temp
      ensures e in start && next.temp[e] in next.table && next.table[next.temp[e]] == start[e]
      ensures next.temp[e] !in named && Unused(arcs, i, next.temp[e]) && FinalObject(arcs, start, next.temp[e]) == None
    {
      hide Progress.FlagsSound, Progress.FlagsComplete, Progress.TableOk, Progress.ArcsOk, Scanned, ReadFrom, Overwritten,
           FinalObject, Covered, Progress.MovedOk;
      SameArc();
      At(i);
      if !IsIdentity(arcs[i]) {
        ClosesNow(t, next);
      }
      if Overwrites(arcs, i) {
        FreshIsUnused(t);
      }
    }

    lemma TempFacts()
      requires Ok()
      ensures Covered(arcs, named, start) && i <= |arcs| && temp.Keys == Overwritten(arcs, i)
      ensures forall d :: d in temp ==> temp[d] !in named
    {
      hide Progress.FlagsSound, Progress.FlagsComplete, Progress.TableOk, Overwritten;
    }

    lemma TempsDistinct(t: int, next: Progress, d: int, e: int)
      requires Ok() && ScansTo(t, next) && CallsTo(t, next)
      requires d in next.temp && e in next.temp && d != e
      ensures next.temp[d] != next.temp[e]
    {
      if Overwrites(arcs, i) {
        FreshIsUnused(t);
        assert forall x :: x in temp ==> temp[x] in temp.Values;
      }
    }

    lemma IsInjective()
      requires Ok()
      ensures Injective(arcs) && Covered(arcs, named, start) && i <= |arcs|
    {
    }

    lemma StepMoved(t: int, next: Progress)
      requires Ok() && ScansTo(t, next) && CallsTo(t, next)
      ensures next.MovedOk()
    {
      hide Progress.ArcsOk, Progress.FlagsSound, Progress.FlagsComplete, Progress.TempsOk, Progress.TableOk, Scanned, Overwritten,
           ReadFrom, Covered;
      SameArc();
      if Overwrites(arcs, i) {
        FreshIsUnused(t);
        At(i);
      }
    }

    lemma StepTempKeys(t: int, next: Progress)
      requires Ok() && ScansTo(t, next)
      ensures next.temp.Keys == Overwritten(arcs, i + 1)
    {
      hide Progress.ArcsOk, Progress.FlagsSound, Progress.FlagsComplete, Progress.TableOk, Scanned, Overwrites, Overwritten;
      OverwrittenNext(arcs, i);
    }

    lemma StepTemps(t: int, next: Progress)
      requires Ok() && ScansTo(t, next) && CallsTo(t, next)
      ensures next.TempsOk()
    {
      hide Progress.Ok, Progress.CallsTo, Scanned, Overwrites, Overwritten, FinalObject;
      IsInjective();
      forall e | e in next.temp
        ensures e in start && next.temp[e] in next.table && next.table[next.temp[e]] == start[e]
        ensures next.temp[e] !in named && Unused(arcs, i + 1, next.temp[e]) && FinalObject(arcs, start, next.temp[e]) == None
      {
        CallsKeepTemps(t, next, e);
      }
      forall d, e | d in next.temp && e in next.temp && d != e
        ensures next.temp[d] != next.temp[e]
      {
        TempsDistinct(t, next, d, e);
      }
      StepTempKeys(t, next);
    }

    lemma StepObject(t: int, next: Progress, fd: int)
      requires Ok() && ScansTo(t, next) && CallsTo(t, next) && fd !in next.temp.Values
      ensures Lookup(next.table, fd) == ObjectAfter(arcs, i + 1, start, fd)
    {
      hide Progress.ArcsOk, Progress.FlagsSound, Progress.FlagsComplete, Progress.TempsOk, Scanned, ObjectAfter, ClosedBefore,
           Overwrites, Covered;
      SameArc();
      NoTemporary(t, next, fd);
      if IsIdentity(arcs[i]) {
        ObjectKept(arcs, i, start, fd);
      } else {
        ClosesNow(t, next);
        if fd == arcs[i].dest {
          ObjectMoved(arcs, i, start);
          At(i);
          DestIsNotClosed(t, next);
        } else if fd == arcs[i].source {
          ObjectSource(arcs, i, start);
        } else {
          ObjectKept(arcs, i, start, fd);
          SourceIsTemporary(fd);
        }
      }
    }

    lemma NoTemporary(t: int, next: Progress, fd: int)
      requires Ok() && ScansTo(t, next) && fd !in next.temp.Values
      ensures fd !in temp.Values && (Overwrites(arcs, i) ==> fd != t)
    {
      hide Progress.ArcsOk, Progress.FlagsSound, Progress.FlagsComplete, Progress.TableOk, Scanned, Overwrites, Covered, FinalObject;
      SameArc();
      if Overwrites(arcs, i) {
        assert next.temp[arcs[i].dest] == t;
        assert forall e :: e in temp ==> e in next.temp && next.temp[e] == temp[e];
      }
    }

    lemma SourceIsTemporary(fd: int)
      requires Ok() && i < |arcs| == |cur| && fd !in temp.Values && fd != arcs[i].source
      ensures fd != cur[i].source
    {
      At(i);
    }

    lemma DestIsNotClosed(t: int, next: Progress)
      requires Ok() && ScansTo(t, next) && !IsIdentity(arcs[i])
      ensures next.cur[i].close ==> cur[i].source != arcs[i].dest
    {
      hide Progress.Ok, Progress.ScansTo, ClosedBefore;
      ClosesNow(t, next);
    }

    lemma StepTable(t: int, next: Progress)
      requires Ok() && ScansTo(t, next) && CallsTo(t, next)
      ensures next.TableOk()
    {
      forall fd | fd !in next.temp.Values
        ensures Lookup(next.table, fd) == ObjectAfter(arcs, i + 1, start, fd)
      {
        StepObject(t, next, fd);
      }
    }

    lemma StepMakes(t: int, next: Progress)
      requires ScansTo(t, next) && CallsTo(t, next)
      ensures next.arcs == arcs && next.named == named && next.start == start && next.i == i + 1
      ensures Overwrites(arcs, i) ==> t !in table && t !in named && next.temp == temp[arcs[i].dest := t]
      ensures !Overwrites(arcs, i) ==> next.temp == temp
    {
      hide Scanned, Overwrites;
    }

    /** Processing one arc keeps the invariant. */
    lemma Step(t: int, next: Progress)
      requires Ok() && ScansTo(t, next) && CallsTo(t, next)
      ensures next.Ok()
    {
      StepArcs(t, next);
      StepFlagsSound(t, next);
      StepFlagsComplete(t, next);
      StepMoved(t, next);
      StepTemps(t, next);
      StepTable(t, next);
    }

    /** Neither the dest of arc i, nor what it reads now, nor a descriptor that a later
        arc reads, nor a fresh one has been closed before. */
    lemma NotYetClosed(t: int, next: Progress)
      requires Ok() && AllNamed(arcs, named) && ScansTo(t, next) && CallsTo(t, next)
      ensures Overwrites(arcs, i) ==> !ClosedBefore(arcs, i, t)
      ensures !IsIdentity(arcs[i]) ==> !ClosedBefore(arcs, i, arcs[i].dest) && !ClosedBefore(arcs, i, cur[i].source)
    {
      if !IsIdentity(arcs[i]) {
        ObjectMoved(arcs, i, start);
        assert ReadFrom(arcs, i, arcs[i].source);
      }
    }

    /** No action for arc i mentions a descriptor that was closed before. */
    lemma StepLog(t: int, next: Progress, log: seq<Action>)
      requires Ok() && AllNamed(arcs, named) && ScansTo(t, next) && CallsTo(t, next) && LogOk(arcs, i, log)
      ensures LogOk(arcs, i + 1, log + Actions(t, next))
    {
      hide Progress.ArcsOk, Progress.FlagsSound, Progress.FlagsComplete, Progress.TempsOk, Progress.TableOk, Progress.CallsTo,
           Progress.Actions, Scanned, Overwrites, ClosedBefore, NoUseAfterClose, Action.Mentions;
      var more := Actions(t, next);
      NotYetClosed(t, next);
      forall fd, k | Closed(fd) in log && 0 <= k < |more|
        ensures !more[k].Mentions(fd)
      {
        ActionsMention(t, next, k, fd);
      }
      ActionsClose(t, next);
      LogExtend(log, more);
      if IsIdentity(arcs[i]) {
        forall fd {
          ObjectKept(arcs, i, start, fd);
        }
      } else {
        StepClosed(t, next);
      }
    }

    lemma ActionsMention(t: int, next: Progress, k: nat, fd: int)
      requires i < |arcs| == |cur| == |next.cur| && k < |Actions(t, next)|
      ensures Actions(t, next)[k].Mentions(fd) ==>
                (Overwrites(arcs, i) && fd == t) || (!IsIdentity(arcs[i]) && (fd == arcs[i].dest || fd == cur[i].source))
    {
      hide ReadFrom;
    }

    lemma ActionsClose(t: int, next: Progress)
      requires i < |arcs| == |cur| == |next.cur|
      ensures NoUseAfterClose(Actions(t, next))
      ensures forall fd :: Closed(fd) in Actions(t, next) <==>
                           !IsIdentity(arcs[i]) && next.cur[i].close && fd == cur[i].source
    {
      hide ReadFrom, Action.Mentions;
    }

    lemma StepClosed(t: int, next: Progress)
      requires Ok() && ScansTo(t, next) && !IsIdentity(arcs[i])
      ensures forall fd :: ClosedBefore(arcs, i + 1, fd) <==>
                           ClosedBefore(arcs, i, fd) || (next.cur[i].close && fd == cur[i].source)
    {
      ClosesNow(t, next);
      ObjectMoved(arcs, i, start);
      forall fd | fd != arcs[i].source && fd != arcs[i].dest {
        ObjectKept(arcs, i, start, fd);
      }
    }
  }

  lemma ScannedSelf(arcs: seq<InjectionArc>, i: nat, temp: int)
    requires i < |arcs|
    ensures Scanned(arcs, i, temp, i).source == arcs[i].source && Scanned(arcs, i, temp, i).dest == arcs[i].dest
  {
    hide Met;
  }

  /** A descriptor to be closed has a flag that no later dest cancels, and is never moved to. */
  lemma CancelledByNone(arcs: seq<InjectionArc>, s: int) returns (o: nat)
    requires Injective(arcs) && EndsClosed(arcs, s)
    ensures o < |arcs| && arcs[o].source == s && arcs[o].close && Unmoved(arcs, o, |arcs|)
    ensures !MovedTo(arcs, |arcs|, s)
  {
    if IsDest(arcs, s) {
      var j, k :| 0 <= j < k < |arcs| && Clobbers(arcs, j, k) && arcs[j].source == s;
      o := if arcs[j].close then j else k;
    } else {
      o :| 0 <= o < |arcs| && arcs[o].source == s && arcs[o].close;
    }
  }

  lemma RemainingIsNotClosed(arcs: seq<InjectionArc>, i: nat, k: nat, fd: int)
    requires Injective(arcs) && i <= k < |arcs| && (fd == arcs[k].source || fd == arcs[k].dest)
    ensures !ClosedBefore(arcs, i, fd)
  {
    if EndsClosed(arcs, fd) && fd == arcs[k].dest {
      assert IsDest(arcs, fd);
      var j, l :| 0 <= j < l < |arcs| && Clobbers(arcs, j, l) && arcs[j].source == fd;
      assert j == k;
    }
  }

  lemma ObjectMoved(arcs: seq<InjectionArc>, i: nat, table: map<int, int>)
    requires Injective(arcs) && i < |arcs| && !IsIdentity(arcs[i])
    ensures ObjectAfter(arcs, i + 1, table, arcs[i].dest) == Lookup(table, arcs[i].source)
    ensures !EndsClosed(arcs, arcs[i].dest)
  {
    assert ArcTo(arcs, arcs[i].dest) == i && MovedTo(arcs, i + 1, arcs[i].dest);
    if EndsClosed(arcs, arcs[i].dest) {
      var _ := CancelledByNone(arcs, arcs[i].dest);
    }
  }

  lemma ObjectSource(arcs: seq<InjectionArc>, i: nat, table: map<int, int>)
    requires Injective(arcs) && i < |arcs| && !IsIdentity(arcs[i])
    ensures ObjectAfter(arcs, i + 1, table, arcs[i].source) ==
            if ClosedBefore(arcs, i + 1, arcs[i].source) then None else ObjectAfter(arcs, i, table, arcs[i].source)
  {
    var s := arcs[i].source;
    assert MovedTo(arcs, i + 1, s) <==> MovedTo(arcs, i, s);
    assert !ClosedBefore(arcs, i, s);
    if ClosedBefore(arcs, i + 1, s) {
      var _ := CancelledByNone(arcs, s);
    }
  }

  lemma ObjectKept(arcs: seq<InjectionArc>, i: nat, table: map<int, int>, fd: int)
    requires Injective(arcs) && i < |arcs|
    requires IsIdentity(arcs[i]) || (fd != arcs[i].source && fd != arcs[i].dest)
    ensures ObjectAfter(arcs, i + 1, table, fd) == ObjectAfter(arcs, i, table, fd)
    ensures ClosedBefore(arcs, i + 1, fd) <==> ClosedBefore(arcs, i, fd)
  {
    assert MovedTo(arcs, i + 1, fd) <==> MovedTo(arcs, i, fd);
    if fd != arcs[i].source {
      assert ReadFrom(arcs, i, fd) <==> ReadFrom(arcs, i + 1, fd);
    } else {
      assert IsDest(arcs, fd);
    }
  }

  lemma OverwrittenNext(arcs: seq<InjectionArc>, i: nat)
    requires i < |arcs|
    ensures Overwritten(arcs, i + 1) == Overwritten(arcs, i) + (if Overwrites(arcs, i) then {arcs[i].dest} else {})
  {
  }

  lemma LogExtend(log: seq<Action>, more: seq<Action>)
    requires NoUseAfterClose(log) && NoUseAfterClose(more)
    requires forall fd, k :: Closed(fd) in log && 0 <= k < |more| ==> !more[k].Mentions(fd)
    ensures NoUseAfterClose(log + more)
    ensures forall fd :: Closed(fd) in log + more <==> Closed(fd) in log || Closed(fd) in more
  {
    assert forall j :: 0 <= j < |log| && log[j].Closed? ==> Closed(log[j].fd) in log;
  }

  lemma StateInit(p: Progress)
    requires Injective(p.arcs) && Covered(p.arcs, p.named, p.start)
    requires p.i == 0 && p.cur == p.arcs && p.table == p.start && p.temp == map[]
    ensures p.Ok() && LogOk(p.arcs, 0, [])
  {
    assert forall o :: 0 <= o < |p.arcs| && p.arcs[o].close ==>
                         FlagAt(p.arcs, p.cur, p.arcs[o].source, o) && Unmoved(p.arcs, o, o + 1);
  }

  lemma NextReader(arcs: seq<InjectionArc>, i: nat, s: int) returns (r: nat)
    requires ReadFrom(arcs, i + 1, s)
    ensures i < r < |arcs| && arcs[r].source == s
    ensures forall q :: i < q < r ==> arcs[q].source != s
  {
    r := i + 1;
    while arcs[r].source != s
      invariant i < r <= |arcs| && ReadFrom(arcs, r, s)
      invariant forall q :: i < q < r ==> arcs[q].source != s
      decreases |arcs| - r
    {
      r := r + 1;
    }
  }

  // ---------- The temporaries that are remembered ----------

  /** `kept` lists the temporaries that will be closed at the end, `leaked` holds those
      for which there was no room. */
  ghost predicate ExtrasOk(kept: seq<int>, leaked: set<int>, temp: map<int, int>) {
    && (forall x :: x in temp.Values <==> x in kept || x in leaked)
    && (forall x :: x in kept ==> x !in leaked)
    && (forall j, k :: 0 <= j < k < |kept| ==> kept[j] != kept[k])
    && |kept| == (if |temp| <= K_MAX_EXTRA_FDS then |temp| else K_MAX_EXTRA_FDS)
    && |leaked| == |temp| - |kept|
  }

  lemma ExtrasInit()
    ensures ExtrasOk([], {}, map[])
  {
  }

  lemma ValuesOfAdded(temp: map<int, int>, d: int, t: int)
    requires d !in temp
    ensures temp[d := t].Values == temp.Values + {t} && |temp[d := t]| == |temp| + 1
  {
    var next := temp[d := t];
    assert next.Keys == temp.Keys + {d} && next[d] == t;
    forall e | e in temp
      ensures temp[e] in next.Values
    {
      assert next[e] == temp[e];
    }
  }

  lemma ExtrasStep(kept: seq<int>, leaked: set<int>, temp: map<int, int>, d: int, t: int)
    requires ExtrasOk(kept, leaked, temp) && d !in temp && t !in temp.Values
    ensures |kept| < K_MAX_EXTRA_FDS ==> ExtrasOk(kept + [t], leaked, temp[d := t])
    ensures |kept| == K_MAX_EXTRA_FDS ==> ExtrasOk(kept, leaked + {t}, temp[d := t])
  {
    ValuesOfAdded(temp, d, t);
    assert t !in kept && t !in leaked;
    assert forall x :: x in kept + [t] <==> x in kept || x == t;
  }

  lemma FinalIsAfterAll(arcs: seq<InjectionArc>, table: map<int, int>, fd: int)
    requires Injective(arcs)
    ensures ObjectAfter(arcs, |arcs|, table, fd) == FinalObject(arcs, table, fd)
  {
    if EndsClosed(arcs, fd) {
      var _ := CancelledByNone(arcs, fd);
    } else if IsDest(arcs, fd) {
      assert IsIdentity(arcs[ArcTo(arcs, fd)]) || MovedTo(arcs, |arcs|, fd);
    }
  }

  // ---------- What the final table means ----------

  ghost predicate SourcesLive(arcs: seq<InjectionArc>, table: map<int, int>) {
    forall k :: 0 <= k < |arcs| ==> arcs[k].source in table
  }

  /** Every dest ends up with what its source referred to at the start. */
  ghost predicate Delivers(arcs: seq<InjectionArc>, table: map<int, int>)
    requires Injective(arcs)
  {
    forall k :: 0 <= k < |arcs| ==> FinalObject(arcs, table, arcs[k].dest) == Lookup(table, arcs[k].source)
  }

  /** No identity arc shares its source with a later arc with one of the two flagged. */
  ghost predicate NothingClobbers(arcs: seq<InjectionArc>) {
    forall j, k :: 0 <= j < k < |arcs| ==> !Clobbers(arcs, j, k)
  }

  /** When a mapping is delivered, spelled out. */
  lemma DeliverySpelledOut(arcs: seq<InjectionArc>, table: map<int, int>)
    requires Injective(arcs)
    ensures NothingClobbers(arcs) <==>
            forall j, k :: 0 <= j < k < |arcs| && arcs[j].dest == arcs[j].source == arcs[k].source ==>
              !arcs[j].close && !arcs[k].close
    ensures NothingClobbers(arcs) ==>
            forall k :: 0 <= k < |arcs| ==> FinalObject(arcs, table, arcs[k].dest) == Lookup(table, arcs[k].source)
    ensures SourcesLive(arcs, table) <==> forall k :: 0 <= k < |arcs| ==> arcs[k].source in table
  {
    if NothingClobbers(arcs) {
      DeliversIfNothingClobbers(arcs, table);
      forall j, k | 0 <= j < k < |arcs| && arcs[j].dest == arcs[j].source == arcs[k].source
        ensures !arcs[j].close && !arcs[k].close
      {
        assert !Clobbers(arcs, j, k);
      }
    }
  }

  lemma DeliversIfNothingClobbers(arcs: seq<InjectionArc>, table: map<int, int>)
    requires Injective(arcs) && NothingClobbers(arcs)
    ensures Delivers(arcs, table)
  {
    forall k | 0 <= k < |arcs|
      ensures FinalObject(arcs, table, arcs[k].dest) == Lookup(table, arcs[k].source)
    {
      assert IsDest(arcs, arcs[k].dest) && ArcTo(arcs, arcs[k].dest) == k;
    }
  }

  /** The mapping is delivered unless an identity arc shares its source with a later
      arc and one of the two is flagged. */
  lemma DeliversIffNothingClobbers(arcs: seq<InjectionArc>, table: map<int, int>)
    requires Injective(arcs) && SourcesLive(arcs, table)
    ensures Delivers(arcs, table) <==> NothingClobbers(arcs)
  {
    if j, k :| 0 <= j < k < |arcs| && Clobbers(arcs, j, k) {
      var fd := arcs[j].dest;
      assert IsFlagged(arcs, fd) && IsClobbered(arcs, fd);
      assert FinalObject(arcs, table, arcs[j].dest) == None;
    } else {
      DeliversIfNothingClobbers(arcs, table);
    }
  }

  /** The two-arc mapping that keeps descriptor 0 and copies it to 1, with a close flag
      on the first arc, loses descriptor 0. */
  lemma IdentityThenSharedSourceIsLost(table: map<int, int>)
    requires 0 in table
    ensures var arcs := [InjectionArc(0, 0, true), InjectionArc(0, 1, false)];
            Injective(arcs) && SourcesLive(arcs, table) && FinalObject(arcs, table, 0) == None != Lookup(table, 0)
  {
    var arcs := [InjectionArc(0, 0, true), InjectionArc(0, 1, false)];
    assert arcs[0].close && Clobbers(arcs, 0, 1);
  }

  /** The mapping that moves each of n descriptors to the next one, and the last to the first. */
  function Cycle(n: nat): (arcs: seq<InjectionArc>)
    ensures |arcs| == n
    ensures forall k :: 0 <= k < n ==> arcs[k] == InjectionArc(k, if k == n - 1 then 0 else k + 1, false)
  {
    seq(n, k requires 0 <= k < n => InjectionArc(k, if k == n - 1 then 0 else k + 1, false))
  }

  lemma {:induction false} CycleOverwrites(n: nat, k: nat)
    requires k < n
    ensures |Overwritten(Cycle(n), k)| == k && forall d :: d in Overwritten(Cycle(n), k) <==> 1 <= d <= k
  {
    hide Overwritten;
    if k == 0 {
      NothingOverwritten(Cycle(n));
    } else {
      CycleOverwrites(n, k - 1);
      assert Cycle(n)[k].source == Cycle(n)[k - 1].dest;
      OverwrittenNext(Cycle(n), k - 1);
    }
  }

  lemma NothingOverwritten(arcs: seq<InjectionArc>)
    ensures Overwritten(arcs, 0) == {}
  {
  }

  /** All but one dest of a cycle are overwritten while they are still to be read; so a
      cycle of eighteen descriptors leaks one, which is the shortest to do so. */
  lemma CycleLeaks(n: nat)
    ensures Injective(Cycle(n)) && LeakCount(Cycle(n)) == if n <= K_MAX_EXTRA_FDS + 1 then 0 else n - (K_MAX_EXTRA_FDS + 1)
    ensures LeakCount(Cycle(18)) == 1
  {
    CycleLeaksTo(n);
    CycleLeaksTo(18);
  }

  lemma CycleLeaksTo(n: nat)
    ensures LeakCount(Cycle(n)) == if n <= K_MAX_EXTRA_FDS + 1 then 0 else n - (K_MAX_EXTRA_FDS + 1)
  {
    hide Overwritten;
    if n == 0 {
      NothingOverwritten(Cycle(n));
    } else {
      CycleOverwrites(n, n - 1);
      OverwrittenNext(Cycle(n), n - 1);
      assert !Overwrites(Cycle(n), n - 1);
    }
  }

  /** Nothing but the dests changes, except that flagged sources disappear. */
  lemma OthersKept(arcs: seq<InjectionArc>, table: map<int, int>, fd: int)
    requires Injective(arcs) && !IsDest(arcs, fd)
    ensures FinalObject(arcs, table, fd) == if IsFlagged(arcs, fd) then None else Lookup(table, fd)
  {
  }

  /** What becomes of each dest, spelled out. */
  lemma DestSpelledOut(arcs: seq<InjectionArc>, table: map<int, int>, k: nat)
    requires k < |arcs| && forall i, j :: 0 <= i < j < |arcs| ==> arcs[i].dest != arcs[j].dest
    ensures FinalObject(arcs, table, arcs[k].dest) ==
            if exists l :: k < l < |arcs| && arcs[k].source == arcs[k].dest == arcs[l].source && (arcs[k].close || arcs[l].close) then None
            else if arcs[k].source in table then Some(table[arcs[k].source]) else None
  {
    var fd := arcs[k].dest;
    assert IsDest(arcs, fd) && ArcTo(arcs, fd) == k;
    DestsClosedOnlyIfClobbered(arcs, fd);
    if l :| k < l < |arcs| && arcs[k].source == arcs[k].dest == arcs[l].source && (arcs[k].close || arcs[l].close) {
      assert Clobbers(arcs, k, l);
    }
    if j, l :| 0 <= j < l < |arcs| && Clobbers(arcs, j, l) && arcs[j].source == fd {
      assert j == k;
    }
  }

  lemma OthersSpelledOut(arcs: seq<InjectionArc>, table: map<int, int>, fd: int)
    requires Injective(arcs) && forall k :: 0 <= k < |arcs| ==> arcs[k].dest != fd
    ensures FinalObject(arcs, table, fd) ==
            if exists k :: 0 <= k < |arcs| && arcs[k].source == fd && arcs[k].close then None
            else if fd in table then Some(table[fd]) else None
  {
  }

  /** A dest is closed only if it is clobbered. */
  lemma DestsClosedOnlyIfClobbered(arcs: seq<InjectionArc>, fd: int)
    requires Injective(arcs) && IsDest(arcs, fd)
    ensures EndsClosed(arcs, fd) <==> IsClobbered(arcs, fd)
  {
    if j, k :| 0 <= j < k < |arcs| && Clobbers(arcs, j, k) && arcs[j].source == fd {
      assert IsFlagged(arcs, fd) by {
        assert arcs[j].close || arcs[k].close;
      }
    }
  }

  lemma DestsDelivered(arcs: seq<InjectionArc>, named: set<int>, start: map<int, int>, leaked: set<int>,
                       table: map<int, int>)
    requires Injective(arcs) && Covered(arcs, named, start) && MovesLive(arcs, start) && Delivers(arcs, start)
    requires |leaked| == LeakCount(arcs)
    requires forall fd :: fd in leaked ==> fd !in named && FinalObject(arcs, start, fd) == None
    requires forall fd :: fd !in leaked ==> Lookup(table, fd) == FinalObject(arcs, start, fd)
    ensures forall k :: 0 <= k < |arcs| ==> Lookup(table, arcs[k].dest) == Lookup(start, arcs[k].source)
  {
    hide LeakCount;
    forall k | 0 <= k < |arcs|
      ensures Lookup(table, arcs[k].dest) == Lookup(start, arcs[k].source)
    {
      if arcs[k].dest in leaked {
        var _ := FirstLeak(arcs, leaked, arcs[k].dest);
      }
    }
  }

  lemma FirstLeak(arcs: seq<InjectionArc>, leaked: set<int>, fd: int) returns (j: nat)
    requires fd in leaked && |leaked| == LeakCount(arcs)
    ensures j < |arcs| && Overwrites(arcs, j)
  {
    assert {fd} <= leaked;
    if d :| d in Overwritten(arcs, |arcs|) {
      j :| j < |arcs| && Overwrites(arcs, j) && arcs[j].dest == d;
    }
  }

  // ---------- The algorithm ----------

  /** Every descriptor that has to be moved is open. */
  ghost predicate MovesLive(arcs: seq<InjectionArc>, table: map<int, int>) {
    forall k :: 0 <= k < |arcs| && !IsIdentity(arcs[k]) ==> arcs[k].source in table
  }

  lemma MovesSpelledOut(arcs: seq<InjectionArc>, named: set<int>, table: map<int, int>)
    ensures MovesLive(arcs, table) <==>
            forall k :: 0 <= k < |arcs| && arcs[k].source != arcs[k].dest ==> arcs[k].source in table
    ensures AllNamed(arcs, named) <==> forall k :: 0 <= k < |arcs| ==> arcs[k].source in named && arcs[k].dest in named
    ensures (forall k :: 0 <= k < |arcs| ==> arcs[k].source in table && arcs[k].dest in table) ==> Covered(arcs, named, table)
    ensures Injective(arcs) <==> forall j, k :: 0 <= j < k < |arcs| ==> arcs[j].dest != arcs[k].dest
  {
  }

  lemma AllMovesLive(arcs: seq<InjectionArc>, table: map<int, int>)
    requires forall k :: 0 <= k < |arcs| && !IsIdentity(arcs[k]) ==> arcs[k].source in table
    ensures MovesLive(arcs, table)
  {
  }

  lemma OverwrittenIsLive(arcs: seq<InjectionArc>, table: map<int, int>, i: nat)
    requires Injective(arcs) && i < |arcs|
    ensures MovesLive(arcs, table) && Overwrites(arcs, i) ==> arcs[i].dest in table
  {
  }

  /** The body of the outer loop, except for remembering the temporary. */
  method ProcessArc(m: array<InjectionArc>, i: nat, delegate: InjectionDelegate) returns (ok: bool, temp: int)
    requires i < m.Length && (Overwrites(m[..], i) ==> m[i].source in delegate.named || m[i].source in delegate.table)
    modifies m, delegate
    ensures if ok then delegate.failed == old(delegate.failed) else delegate.failed
    ensures ok ==> IsRound(old(m[..]), i, temp, m[..], delegate.named, old(delegate.table), delegate.table)
    ensures ok ==> delegate.log == old(delegate.log) + CallFor(old(m[..]), i, m[..]).Actions(temp)
    ensures delegate.reliable && CallFor(old(m[..]), i, old(m[..])).Possible(old(delegate.table)) ==> ok
  {
    hide Scanned, ReadFrom, Overwrites;
    ghost var before := m[..];
    var isIdentity := m[i].source == m[i].dest;
    ok, temp := ScanLaterArcs(m, i, delegate);
    if ok {
      ScannedSelf(before, i, temp);
      if !isIdentity {
        ok := delegate.Move(m[i].source, m[i].dest);
        if !ok {
          return;
        }
      }
      if !isIdentity && m[i].close {
        delegate.Close(m[i].source);
      }
    }
  }

  /** Once all arcs are processed and the kept temporaries are closed, the table holds
      the final objects. */
  lemma FinalTable(p: Progress, kept: seq<int>, leaked: set<int>, table: map<int, int>, fd: int)
    requires p.Ok() && p.i == |p.arcs| && ExtrasOk(kept, leaked, p.temp)
    requires table == p.table - set x | x in kept
    ensures fd !in leaked ==> Lookup(table, fd) == FinalObject(p.arcs, p.start, fd)
    ensures fd in leaked ==> fd in table && fd !in p.named && FinalObject(p.arcs, p.start, fd) == None
    ensures fd in leaked && AllNamed(p.arcs, p.named) ==> fd !in p.start
  {
    FinalIsAfterAll(p.arcs, p.start, fd);
    if fd in p.temp.Values {
      var d :| d in p.temp && p.temp[d] == fd;
      assert FinalObject(p.arcs, p.start, fd) == None;
    }
  }

  ghost function Closings(fds: seq<int>): seq<Action> {
    seq(|fds|, j requires 0 <= j < |fds| => Closed(fds[j]))
  }

  /** Closing the kept temporaries uses nothing that was closed before. */
  lemma FinalLog(arcs: seq<InjectionArc>, named: set<int>, kept: seq<int>, log: seq<Action>)
    requires AllNamed(arcs, named) && LogOk(arcs, |arcs|, log)
    requires forall j :: 0 <= j < |kept| ==> kept[j] !in named
    requires forall j, k :: 0 <= j < k < |kept| ==> kept[j] != kept[k]
    ensures NoUseAfterClose(log + Closings(kept))
    ensures forall fd :: fd in named ==> (Closed(fd) in log + Closings(kept) <==> EndsClosed(arcs, fd))
  {
    var more := Closings(kept);
    assert forall j :: 0 <= j < |more| ==> more[j] == Closed(kept[j]);
    LogExtend(log, more);
  }

  lemma KeptAreTemporaries(p: Progress, kept: seq<int>, leaked: set<int>)
    requires p.Ok() && p.i == |p.arcs| && ExtrasOk(kept, leaked, p.temp)
    ensures forall j :: 0 <= j < |kept| ==> kept[j] !in p.named
    ensures forall j, k :: 0 <= j < k < |kept| ==> kept[j] != kept[k]
    ensures |leaked| == LeakCount(p.arcs)
  {
    hide Progress.Ok, Overwritten, Covered;
    p.TempFacts();
    forall j | 0 <= j < |kept|
      ensures kept[j] !in p.named
    {
      assert kept[j] in kept && kept[j] in p.temp.Values;
      var _ := KeyOf(p.temp, kept[j]);
    }
    assert |p.temp| == |p.temp.Keys|;
  }

  method CloseExtras(extraFds: array<int>, nextExtraFd: nat, delegate: InjectionDelegate)
    requires nextExtraFd <= extraFds.Length
    modifies delegate
    ensures delegate.table == old(delegate.table) - (set x | x in extraFds[..nextExtraFd])
    ensures delegate.log == old(delegate.log) + Closings(extraFds[..nextExtraFd])
    ensures delegate.failed == old(delegate.failed)
  {
    var i := 0;
    while i < nextExtraFd
      invariant i <= nextExtraFd
      invariant delegate.table == old(delegate.table) - (set x | x in extraFds[..i])
      invariant delegate.log == old(delegate.log) + Closings(extraFds[..i])
      invariant delegate.failed == old(delegate.failed)
    {
      delegate.Close(extraFds[i]);
      i := i + 1;
      assert extraFds[..i] == extraFds[..i - 1] + [extraFds[i - 1]];
      assert Closings(extraFds[..i]) == Closings(extraFds[..i - 1]) + [Closed(extraFds[i - 1])];
    }
  }

  /** The outer loop. */
  method ProcessArcs(m: array<InjectionArc>, delegate: InjectionDelegate, extraFds: array<int>)
    returns (ok: bool, nextExtraFd: nat, ghost p: Progress, ghost leaked: set<int>, ghost trace: seq<Action>)
    requires Injective(m[..]) && Covered(m[..], delegate.named, delegate.table) && extraFds.Length == K_MAX_EXTRA_FDS
    modifies m, delegate, extraFds
    ensures if ok then delegate.failed == old(delegate.failed) else delegate.failed
    ensures ok ==> p.Ok() && p.i == |p.arcs| && p.table == delegate.table
    ensures ok ==> p.arcs == old(m[..]) && p.named == delegate.named && p.start == old(delegate.table)
    ensures ok ==> nextExtraFd <= K_MAX_EXTRA_FDS && ExtrasOk(extraFds[..nextExtraFd], leaked, p.temp)
    ensures ok ==> delegate.log == old(delegate.log) + trace
    ensures ok && AllNamed(p.arcs, p.named) ==> LogOk(p.arcs, p.i, trace)
    ensures ok ==> MovesLive(p.arcs, p.start)
    ensures delegate.reliable && MovesLive(old(m[..]), old(delegate.table)) ==> ok
  {
    hide *;
    nextExtraFd, leaked, trace := 0, {}, [];
    ExtrasInit();
    assert extraFds[..0] == [];
    p := Progress(m[..], delegate.named, delegate.table, 0, m[..], map[], delegate.table);
    StateInit(p);
    var i := 0;
    while i < m.Length
      invariant i <= m.Length && nextExtraFd <= K_MAX_EXTRA_FDS
      invariant p.Ok() && p.i == i && p.cur == m[..] && p.table == delegate.table
      invariant p.arcs == old(m[..]) && p.named == delegate.named && p.start == old(delegate.table)
      invariant ExtrasOk(extraFds[..nextExtraFd], leaked, p.temp)
      invariant delegate.log == old(delegate.log) + trace
      invariant AllNamed(p.arcs, p.named) ==> LogOk(p.arcs, i, trace)
      invariant delegate.failed == old(delegate.failed)
      invariant forall k :: 0 <= k < i && !IsIdentity(p.arcs[k]) ==> p.arcs[k].source in p.start
    {
      p.SameArc();
      p.CanProcess();
      var temp;
      ok, temp := ProcessArc(m, i, delegate);
      if !ok {
        return;
      }
      ghost var next := p.RoundIsStep(temp, m[..], delegate.table);
      p.StepMakes(temp, next);
      p.Step(temp, next);
      if AllNamed(p.arcs, p.named) {
        p.StepLog(temp, next, trace);
      }
      trace := trace + p.Actions(temp, next);
      if temp != -1 {
        p.FreshIsUnused(temp);
        ExtrasStep(extraFds[..nextExtraFd], leaked, p.temp, p.arcs[i].dest, temp);
        if nextExtraFd < K_MAX_EXTRA_FDS {
          label Before:
          extraFds[nextExtraFd] := temp;
          nextExtraFd := nextExtraFd + 1;
          assert extraFds[..nextExtraFd] == old@Before(extraFds[..nextExtraFd - 1]) + [temp];
        } else {
          leaked := leaked + {temp};
        }
      }
      p := next;
      i := i + 1;
    }
    ok := true;
    AllMovesLive(p.arcs, p.start);
  }

  /** With a delegate whose fresh descriptors are merely not open, like that of the process's
      descriptor table, what the arcs name from the first overwriting one on has to be open. */
  method PerformInjectiveMultimapDestructive(m: array<InjectionArc>, delegate: InjectionDelegate)
    returns (ok: bool, ghost leaked: set<int>, ghost trace: seq<Action>)
    requires Injective(m[..]) && Covered(m[..], delegate.named, delegate.table)
    modifies m, delegate
    // it fails exactly when a delegate call fails, and that is, unless the delegate refuses
    // an open descriptor, if something that has to be moved is not open
    ensures ok ==> MovesLive(old(m[..]), old(delegate.table))
    ensures delegate.reliable && MovesLive(old(m[..]), old(delegate.table)) ==> ok
    ensures if ok then delegate.failed == old(delegate.failed) else delegate.failed
    // apart from leaked temporaries, the table is the one asked for
    ensures ok ==> forall fd :: fd !in leaked ==>
              Lookup(delegate.table, fd) == FinalObject(old(m[..]), old(delegate.table), fd)
    // so every dest gets its object if nothing clobbers, and the rest changes only by closing
    ensures ok && NothingClobbers(old(m[..])) ==> forall k :: 0 <= k < m.Length ==>
              Lookup(delegate.table, old(m[k].dest)) == Lookup(old(delegate.table), old(m[k].source))
    ensures ok ==> forall fd :: fd !in leaked && !IsDest(old(m[..]), fd) ==>
              Lookup(delegate.table, fd) == if IsFlagged(old(m[..]), fd) then None else Lookup(old(delegate.table), fd)
    // exactly the temporaries beyond the first sixteen are leaked, where nothing was asked for
    ensures ok ==> forall fd :: fd in leaked ==>
              fd in delegate.table && fd !in delegate.named && FinalObject(old(m[..]), old(delegate.table), fd) == None
    ensures ok && AllNamed(old(m[..]), delegate.named) ==> forall fd :: fd in leaked ==> fd !in old(delegate.table)
    ensures ok ==> |leaked| == LeakCount(old(m[..]))
    // if no fresh descriptor is named, then a descriptor is closed at most once, only if it
    // has to be, and not used again
    ensures ok ==> delegate.log == old(delegate.log) + trace
    ensures ok && AllNamed(old(m[..]), delegate.named) ==> NoUseAfterClose(trace)
    ensures ok && AllNamed(old(m[..]), delegate.named) ==>
              forall fd :: fd in delegate.named ==> (Closed(fd) in trace <==> EndsClosed(old(m[..]), fd))
  {
    hide *;
    var extraFds := new int[K_MAX_EXTRA_FDS];
    var nextExtraFd;
    ghost var p;
    ok, nextExtraFd, p, leaked, trace := ProcessArcs(m, delegate, extraFds);
    if !ok {
      return;
    }
    ghost var kept := extraFds[..nextExtraFd];
    KeptAreTemporaries(p, kept, leaked);
    if AllNamed(p.arcs, p.named) {
      FinalLog(p.arcs, p.named, kept, trace);
    }
    CloseExtras(extraFds, nextExtraFd, delegate);
    trace := trace + Closings(kept);
    forall fd {
      FinalTable(p, kept, leaked, delegate.table, fd);
    }
    forall fd | !IsDest(p.arcs, fd) {
      OthersKept(p.arcs, p.start, fd);
    }
    if NothingClobbers(p.arcs) {
      p.IsInjective();
      DeliversIfNothingClobbers(p.arcs, p.start);
      DestsDelivered(p.arcs, p.named, p.start, leaked, delegate.table);
    }
  }

  // ---------- A fresh descriptor that a later arc names ----------

  /** The arcs 0 to 1, 2 to 3 and 1 to 2, when only 0, 1 and 2 are open and a fresh descriptor
      is the lowest that is not: the duplicate of 1 is 3, which is the dest of a later arc, and
      is closed in the end. */
  lemma FreshDestIsLost(a: int, b: int, c: int)
    ensures var arcs := [InjectionArc(0, 1, false), InjectionArc(2, 3, false), InjectionArc(1, 2, false)];
            var arcs1 := arcs[2 := InjectionArc(3, 2, false)];
            var arcs2 := arcs[2 := InjectionArc(4, 2, false)];
            var start := map[0 := a, 1 := b, 2 := c];
            var table1 := map[0 := a, 1 := a, 2 := c, 3 := b];
            var table2 := map[0 := a, 1 := a, 2 := c, 3 := c, 4 := b];
            var end := map[0 := a, 1 := a, 2 := b, 3 := c, 4 := b];
            && Injective(arcs) && Delivers(arcs, start) && FinalObject(arcs, start, 3) == Some(c)
            && IsRound(arcs, 0, 3, arcs1, {}, start, table1)
            && IsRound(arcs1, 1, 4, arcs2, {}, table1, table2)
            && IsRound(arcs2, 2, -1, arcs2, {}, table2, end)
            && Lookup(end - {3, 4}, 3) == None
  {
    var arcs := [InjectionArc(0, 1, false), InjectionArc(2, 3, false), InjectionArc(1, 2, false)];
    var arcs1 := arcs[2 := InjectionArc(3, 2, false)];
    var start := map[0 := a, 1 := b, 2 := c];
    DeliversIfNothingClobbers(arcs, start);
    assert arcs[1].dest == 3;
    assert arcs[2].source == arcs[0].dest && arcs1[2].source == arcs1[1].dest;
    assert Overwrites(arcs, 0) && Overwrites(arcs1, 1);
  }

  // ---------- A swap, and a copy of one half of it ----------

  /** The arcs 0 to 1, 1 to 0 and 0 to 2, of which the last closes nothing: 0 is a dest. */
  method SwapAndCopy(delegate: InjectionDelegate, a: int, b: int) returns (ok: bool)
    requires delegate.reliable && delegate.named == {0, 1, 2} && delegate.table == map[0 := a, 1 := b]
    modifies delegate
    ensures ok && delegate.table == map[0 := b, 1 := a, 2 := a]
  {
    hide Covered, FinalObject, NothingClobbers, MovesLive, LeakCount, EndsClosed;
    var m := new InjectionArc[3] [InjectionArc(0, 1, false), InjectionArc(1, 0, false), InjectionArc(0, 2, true)];
    assert m[..] == [InjectionArc(0, 1, false), InjectionArc(1, 0, false), InjectionArc(0, 2, true)];
    SwapAndCopyIs(m[..], delegate.table);
    AllNamedIsCovered(m[..], delegate.named, delegate.table);
    ghost var leaked, trace;
    ok, leaked, trace := PerformInjectiveMultimapDestructive(m, delegate);
    assert leaked == {};
    assert forall fd :: fd in delegate.table <==> fd in [0, 1, 2];
  }

  lemma SwapAndCopyIs(arcs: seq<InjectionArc>, table: map<int, int>)
    requires arcs == [InjectionArc(0, 1, false), InjectionArc(1, 0, false), InjectionArc(0, 2, true)]
    requires 0 in table && 1 in table && table.Keys == {0, 1}
    ensures Injective(arcs) && AllNamed(arcs, {0, 1, 2}) && MovesLive(arcs, table) && NothingClobbers(arcs) && LeakCount(arcs) == 0
    ensures forall fd :: IsDest(arcs, fd) <==> fd in [0, 1, 2]
  {
    assert arcs[0].dest == 1 && arcs[1].dest == 0 && arcs[2].dest == 2;
    assert Overwritten(arcs, 3) <= {0, 1, 2};
    SmallLeak(arcs);
  }

  lemma SmallLeak(arcs: seq<InjectionArc>)
    requires |arcs| <= 16
    ensures LeakCount(arcs) == 0
  {
    OverwrittenAtMost(arcs, |arcs|);
  }

  lemma {:induction false} OverwrittenAtMost(arcs: seq<InjectionArc>, n: nat)
    requires n <= |arcs|
    ensures |Overwritten(arcs, n)| <= n
  {
    hide Overwritten;
    if n == 0 {
      NothingOverwritten(arcs);
    } else {
      OverwrittenAtMost(arcs, n - 1);
      OverwrittenNext(arcs, n - 1);
    }
  }
}
