/** The ARM atomic operations: retry loops around a compare-exchange that stores at most
    when the cell holds the expected value, and may fail even then. Every access to the
    cell is one step, and the steps of different threads interleave in any way. */
module AtomicOps {

  const TWO_TO_THE_31: int := 0x8000_0000
  const TWO_TO_THE_32: int := 0x1_0000_0000

  type Int32 = x: int | -0x8000_0000 <= x < 0x8000_0000

  /** Two's complement wrap-around. */
  function Wrap(x: int): Int32 {
    (x + TWO_TO_THE_31) % TWO_TO_THE_32 - TWO_TO_THE_31
  }

  datatype Op =
    | CompareAndSwap(oldValue: Int32, newValue: Int32)
    | Exchange(newValue: Int32)
    | Increment(increment: Int32)

  // ---------- The promise: each operation is atomic ----------

  /** What an operation leaves in a cell that holds v. */
  function NewCell(op: Op, v: Int32): Int32 {
    match op
    case CompareAndSwap(oldValue, newValue) => if v == oldValue then newValue else v
    case Exchange(newValue) => newValue
    case Increment(increment) => Wrap(v + increment)
  }

  /** What an operation returns when the cell holds v. */
  function Result(op: Op, v: Int32): Int32 {
    match op
    case CompareAndSwap(_, _) => v
    case Exchange(_) => v
    case Increment(increment) => Wrap(v + increment)
  }

  // ---------- The loops ----------

  datatype Place =
    | Reading                 // about to read the cell
    | Trying(seen: Int32)     // about to compare-exchange, having read `seen`
    | Rereading               // CompareAndSwap after a failed compare-exchange
    | Finished(result: Int32)

  datatype Frame = Frame(op: Op, place: Place)

  datatype Event =
    | Called(t: nat, op: Op)
    | Took(t: nat, op: Op, result: Int32, stored: bool)  // the operation takes effect
    | Returned(t: nat, result: Int32)

  /** A thread that is in none of the operations has no entry in `threads`. */
  datatype State = State(cell: Int32, threads: map<nat, Frame>, history: seq<Event>)

  datatype Step =
    | Call(t: nat, op: Op)
    | Read(t: nat)
    | ExchangeSucceeds(t: nat)
    | ExchangeFails(t: nat)
    | ReadAgain(t: nat)
    | Return(t: nat)

  function Start(cell: Int32): State {
    State(cell, map[], [])
  }

  /** The value the compare-exchange asks for, and the one it stores. */
  function Expected(op: Op, seen: Int32): Int32 {
    if op.CompareAndSwap? then op.oldValue else seen
  }

  function Desired(op: Op, seen: Int32): Int32 {
    if op.Increment? then Wrap(seen + op.increment) else op.newValue
  }

  /** What the loop returns once its compare-exchange has stored. */
  function AfterExchange(op: Op, seen: Int32): Int32 {
    match op
    case CompareAndSwap(oldValue, _) => oldValue
    case Exchange(_) => seen
    case Increment(_) => Desired(op, seen)
  }

  predicate Enabled(s: State, step: Step) {
    match step
    case Call(t, _) => t !in s.threads
    case Read(t) => t in s.threads && s.threads[t].place.Reading?
    case ExchangeSucceeds(t) =>
      t in s.threads && s.threads[t].place.Trying? && s.cell == Expected(s.threads[t].op, s.threads[t].place.seen)
    case ExchangeFails(t) => t in s.threads && s.threads[t].place.Trying?
    case ReadAgain(t) => t in s.threads && s.threads[t].place.Rereading? && s.threads[t].op.CompareAndSwap?
    case Return(t) => t in s.threads && s.threads[t].place.Finished?
  }

  /** When a step can be taken: a compare-exchange stores only if the cell holds what is expected,
      and may fail at any time. */
  lemma EnabledSpelledOut(s: State, t: nat, op: Op)
    ensures Enabled(s, Call(t, op)) <==> t !in s.threads
    ensures t in s.threads && s.threads[t] == Frame(op, Reading) ==> Enabled(s, Read(t))
    ensures forall seen :: t in s.threads && s.threads[t] == Frame(op, Trying(seen)) ==>
              && Enabled(s, ExchangeFails(t))
              && (Enabled(s, ExchangeSucceeds(t)) <==> s.cell == if op.CompareAndSwap? then op.oldValue else seen)
    ensures t in s.threads && s.threads[t] == Frame(op, Rereading) && op.CompareAndSwap? ==> Enabled(s, ReadAgain(t))
    ensures forall result :: t in s.threads && s.threads[t] == Frame(op, Finished(result)) ==> Enabled(s, Return(t))
  {
  }

  function Apply(s: State, step: Step): State
    requires Enabled(s, step)
  {
    var t := step.t;
    match step
    case Call(_, op) =>
      s.(threads := s.threads[t := Frame(op, Reading)], history := s.history + [Called(t, op)])
    case Read(_) =>
      s.(threads := s.threads[t := s.threads[t].(place := Trying(s.cell))])
    case ExchangeSucceeds(_) =>
      var op, seen := s.threads[t].op, s.threads[t].place.seen;
      var result := AfterExchange(op, seen);
      State(Desired(op, seen), s.threads[t := Frame(op, Finished(result))], s.history + [Took(t, op, result, true)])
    case ExchangeFails(_) =>
      var op := s.threads[t].op;
      s.(threads := s.threads[t := Frame(op, if op.CompareAndSwap? then Rereading else Reading)])
    case ReadAgain(_) =>
      var op, prevValue := s.threads[t].op, s.cell;
      if prevValue == op.oldValue then
        s.(threads := s.threads[t := Frame(op, Trying(prevValue))])
      else
        s.(threads := s.threads[t := Frame(op, Finished(prevValue))],
           history := s.history + [Took(t, op, prevValue, false)])
    case Return(_) =>
      s.(threads := s.threads - {t}, history := s.history + [Returned(t, s.threads[t].place.result)])
  }

  predicate Runs(s: State, steps: seq<Step>)
    decreases |steps|
  {
    steps == [] || (Enabled(s, steps[0]) && Runs(Apply(s, steps[0]), steps[1..]))
  }

  function Run(s: State, steps: seq<Step>): State
    requires Runs(s, steps)
    decreases |steps|
  {
    if steps == [] then s else Run(Apply(s, steps[0]), steps[1..])
  }

  // ---------- The loops keep the promise ----------

  /** The operations that took effect, in order. */
  function Effects(history: seq<Event>): seq<Event>
    ensures forall e :: e in Effects(history) ==> e.Took?
  {
    if history == [] then []
    else
      var n := |history| - 1;
      Effects(history[..n]) + if history[n].Took? then [history[n]] else []
  }

  lemma EffectsOneMore(history: seq<Event>, e: Event)
    ensures Effects(history + [e]) == Effects(history) + if e.Took? then [e] else []
  {
    assert (history + [e])[..|history|] == history;
  }

  /** The cell after these operations, one after the other. */
  function After(v: Int32, effects: seq<Event>): Int32
    requires forall e :: e in effects ==> e.Took?
  {
    if effects == [] then v
    else
      var n := |effects| - 1;
      NewCell(effects[n].op, After(v, effects[..n]))
  }

  /** Each operation returns what it would return if the operations were performed one
      after the other, and CompareAndSwap stores exactly when it returns its old value. */
  ghost predicate Sequential(v: Int32, effects: seq<Event>)
    requires forall e :: e in effects ==> e.Took?
  {
    forall i :: 0 <= i < |effects| ==>
      && effects[i].result == Result(effects[i].op, After(v, effects[..i]))
      && (effects[i].stored <==> (effects[i].op.CompareAndSwap? ==> effects[i].result == effects[i].op.oldValue))
  }

  lemma SequentialOneMore(v: Int32, effects: seq<Event>, e: Event)
    requires (forall f :: f in effects ==> f.Took?) && e.Took? && Sequential(v, effects)
    requires e.result == Result(e.op, After(v, effects))
    requires e.stored <==> (e.op.CompareAndSwap? ==> e.result == e.op.oldValue)
    ensures Sequential(v, effects + [e]) && After(v, effects + [e]) == NewCell(e.op, After(v, effects))
  {
    var more := effects + [e];
    forall i | 0 <= i < |more|
      ensures more[..i] == if i < |effects| then effects[..i] else effects
    {
    }
  }

  /** What a thread's events say about it: a call takes effect once, and then returns
      that result. */
  datatype Progress = Idle | Pending(op: Op) | Done(op: Op, result: Int32) | Wrong

  function Advance(p: Progress, e: Event): Progress {
    match (p, e)
    case (Idle, Called(_, op)) => Pending(op)
    case (Pending(op), Took(_, op', result, _)) => if op == op' then Done(op, result) else Wrong
    case (Done(_, result), Returned(_, result')) => if result == result' then Idle else Wrong
    case _ => Wrong
  }

  function Track(history: seq<Event>, t: nat): Progress {
    if history == [] then Idle
    else
      var n := |history| - 1;
      var before := Track(history[..n], t);
      if history[n].t == t then Advance(before, history[n]) else before
  }

  lemma TrackOneMore(history: seq<Event>, e: Event, t: nat)
    ensures Track(history + [e], t) == if e.t == t then Advance(Track(history, t), e) else Track(history, t)
  {
    assert (history + [e])[..|history|] == history;
  }

  /** Where a thread stands. */
  function ProgressOf(s: State, t: nat): Progress {
    if t !in s.threads then Idle
    else if s.threads[t].place.Finished? then Done(s.threads[t].op, s.threads[t].place.result)
    else Pending(s.threads[t].op)
  }

  /** The cell and the results are those of the operations performed one after the other
      in the order of their effects, and each call takes effect once while it runs. */
  ghost predicate Atomic(v: Int32, s: State) {
    && Sequential(v, Effects(s.history)) && s.cell == After(v, Effects(s.history))
    && (forall t: nat :: Track(s.history, t) == ProgressOf(s, t))
    && (forall t :: t in s.threads && s.threads[t].place.Rereading? ==> s.threads[t].op.CompareAndSwap?)
  }

  lemma StepIsAtomic(v: Int32, s: State, step: Step)
    requires Atomic(v, s) && Enabled(s, step)
    ensures Atomic(v, Apply(s, step))
  {
    hide Effects, After, Sequential, Track;
    var s' := Apply(s, step);
    if s'.history != s.history {
      var e := s'.history[|s.history|];
      assert s'.history == s.history + [e];
      EffectsOneMore(s.history, e);
      if e.Took? {
        SequentialOneMore(v, Effects(s.history), e);
      } else {
        assert Effects(s.history) + [] == Effects(s.history);
      }
      forall t: nat
        ensures Track(s'.history, t) == ProgressOf(s', t)
      {
        TrackOneMore(s.history, e, t);
      }
    } else {
      assert forall t: nat :: ProgressOf(s', t) == ProgressOf(s, t);
    }
  }

  lemma {:induction false} RunIsAtomic(v: Int32, s: State, steps: seq<Step>)
    requires Atomic(v, s) && Runs(s, steps)
    ensures Atomic(v, Run(s, steps))
    decreases |steps|
  {
    if steps != [] {
      StepIsAtomic(v, s, steps[0]);
      RunIsAtomic(v, Apply(s, steps[0]), steps[1..]);
    }
  }

  /** Under any interleaving, and whatever compare-exchange fails, the three loops are
      atomic operations. */
  lemma EveryRunIsAtomic(v: Int32, steps: seq<Step>)
    requires Runs(Start(v), steps)
    ensures Atomic(v, Run(Start(v), steps))
  {
    RunIsAtomic(v, Start(v), steps);
  }

  /** Only a compare-exchange that stores changes the cell; all others at most read it. */
  lemma OnlyStoresChangeTheCell(v: Int32, s: State, step: Step)
    requires Atomic(v, s) && Enabled(s, step)
    ensures !step.ExchangeSucceeds? ==> Apply(s, step).cell == s.cell
    ensures step.ExchangeSucceeds? ==> Apply(s, step).cell == NewCell(s.threads[step.t].op, s.cell)
    ensures Apply(s, step).history != s.history && Apply(s, step).history[|s.history|].Took? ==>
              (Apply(s, step).history[|s.history|].stored <==> step.ExchangeSucceeds?)
  {
  }

  /** What a compare-exchange that is about to store finds and leaves in the cell. */
  lemma StoresItsValue(v: Int32, steps: seq<Step>, t: nat)
    requires Runs(Start(v), steps) && Enabled(Run(Start(v), steps), ExchangeSucceeds(t))
    ensures var s := Run(Start(v), steps); var cell := Apply(s, ExchangeSucceeds(t)).cell;
            match s.threads[t].op
            case CompareAndSwap(oldValue, newValue) => s.cell == oldValue && cell == newValue
            case Exchange(newValue) => cell == newValue
            case Increment(i) => (cell - (s.cell + i)) % TWO_TO_THE_32 == 0
  {
    EveryRunIsAtomic(v, steps);
  }

  /** What one effect finds in the cell and leaves there. */
  lemma EffectOnCell(v: Int32, effects: seq<Event>, i: nat)
    requires (forall e :: e in effects ==> e.Took?) && Sequential(v, effects) && i < |effects|
    ensures var e, before, after := effects[i], After(v, effects[..i]), After(v, effects[..i + 1]);
            && (e.op.CompareAndSwap? ==> e.result == before && (e.stored <==> before == e.op.oldValue) &&
                                         after == (if before == e.op.oldValue then e.op.newValue else before))
            && (e.op.Exchange? ==> e.result == before && e.stored && after == e.op.newValue)
            && (e.op.Increment? ==> e.result == after && e.stored && (after - (before + e.op.increment)) % TWO_TO_THE_32 == 0)
  {
    hide After;
    AfterOneMore(v, effects, i);
  }

  /** From the first value of the cell to its last, each effect of a run returns what it found,
      or made, and leaves what it should. */
  lemma EveryRunIsSequential(v: Int32, steps: seq<Step>, i: nat)
    requires Runs(Start(v), steps) && i < |Effects(Run(Start(v), steps).history)|
    ensures var s := Run(Start(v), steps); var effects := Effects(s.history);
            var e, before, after := effects[i], After(v, effects[..i]), After(v, effects[..i + 1]);
            && After(v, effects[..0]) == v && After(v, effects) == s.cell
            && (e.op.CompareAndSwap? ==> e.result == before && (e.stored <==> before == e.op.oldValue) &&
                                         after == (if before == e.op.oldValue then e.op.newValue else before))
            && (e.op.Exchange? ==> e.result == before && e.stored && after == e.op.newValue)
            && (e.op.Increment? ==> e.result == after && e.stored && (after - (before + e.op.increment)) % TWO_TO_THE_32 == 0)
  {
    hide Runs, Run, Effects, Track, Sequential, After;
    EveryRunIsAtomic(v, steps);
    var effects := Effects(Run(Start(v), steps).history);
    AfterNothing(v, effects);
    EffectOnCell(v, effects, i);
  }

  lemma AfterNothing(v: Int32, effects: seq<Event>)
    requires forall e :: e in effects ==> e.Took?
    ensures After(v, effects[..0]) == v
  {
  }

  lemma AfterOneMore(v: Int32, effects: seq<Event>, i: nat)
    requires (forall e :: e in effects ==> e.Took?) && i < |effects|
    ensures After(v, effects[..i + 1]) == NewCell(effects[i].op, After(v, effects[..i]))
  {
    hide NewCell;
    assert effects[..i + 1][..i] == effects[..i];
  }

  // ---------- Some runs ----------

  /** The steps lead from one state to another. */
  ghost predicate Leads(s: State, steps: seq<Step>, end: State) {
    Runs(s, steps) && Run(s, steps) == end
  }

  lemma LeadsMeans(s: State, steps: seq<Step>, end: State)
    requires Leads(s, steps, end)
    ensures Runs(s, steps) && Run(s, steps) == end
  {
  }

  lemma LeadsNowhere(s: State)
    ensures Leads(s, [], s)
  {
  }

  lemma LeadsOn(s: State, step: Step, next: State, rest: seq<Step>, end: State)
    requires Enabled(s, step) && Apply(s, step) == next && Leads(next, rest, end)
    ensures Leads(s, [step] + rest, end)
  {
    assert ([step] + rest)[1..] == rest;
  }

  /** The last step of a call, and the state before. */
  lemma LeadsToReturn(s: State, t: nat, op: Op, result: Int32, cell: Int32, events: seq<Event>)
    requires t !in s.threads
    ensures Leads(State(cell, s.threads[t := Frame(op, Finished(result))], s.history + events), [Return(t)],
                  State(cell, s.threads, s.history + (events + [Returned(t, result)])))
  {
    hide Leads;
    var end := State(cell, s.threads, s.history + (events + [Returned(t, result)]));
    LeadsNowhere(end);
    assert s.threads[t := Frame(op, Finished(result))] - {t} == s.threads;
    LeadsOn(State(cell, s.threads[t := Frame(op, Finished(result))], s.history + events), Return(t), end, [], end);
    assert [Return(t)] + [] == [Return(t)];
  }

  /** A state in which thread t has called op and stands there. */
  function Inside(s: State, t: nat, op: Op, place: Place): State {
    State(s.cell, s.threads[t := Frame(op, place)], s.history + [Called(t, op)])
  }

  lemma LeadsFromCall(s: State, t: nat, op: Op, rest: seq<Step>, end: State)
    requires t !in s.threads && Leads(Inside(s, t, op, Trying(s.cell)), rest, end)
    ensures Leads(s, [Call(t, op), Read(t)] + rest, end)
  {
    hide Leads;
    var s1, s2 := Inside(s, t, op, Reading), Inside(s, t, op, Trying(s.cell));
    assert s1.threads[t := Frame(op, Trying(s.cell))] == s2.threads;
    LeadsOn(s1, Read(t), s2, rest, end);
    LeadsOn(s, Call(t, op), s1, [Read(t)] + rest, end);
    assert [Call(t, op)] + ([Read(t)] + rest) == [Call(t, op), Read(t)] + rest;
  }

  /** A compare-exchange that stores, and the return. */
  lemma LeadsToStore(s: State, t: nat, op: Op, result: Int32, cell: Int32)
    requires t !in s.threads && Enabled(Inside(s, t, op, Trying(s.cell)), ExchangeSucceeds(t))
    requires cell == Desired(op, s.cell) && result == AfterExchange(op, s.cell)
    ensures Leads(Inside(s, t, op, Trying(s.cell)), [ExchangeSucceeds(t), Return(t)],
                  State(cell, s.threads, s.history + [Called(t, op), Took(t, op, result, true), Returned(t, result)]))
  {
    hide Leads;
    var s2 := Inside(s, t, op, Trying(s.cell));
    var events := [Called(t, op), Took(t, op, result, true)];
    var s3 := State(cell, s.threads[t := Frame(op, Finished(result))], s.history + events);
    assert s2.history + [Took(t, op, result, true)] == s3.history && s2.threads[t := Frame(op, Finished(result))] == s3.threads;
    LeadsToReturn(s, t, op, result, cell, events);
    assert events + [Returned(t, result)] == [Called(t, op), Took(t, op, result, true), Returned(t, result)];
    LeadsOn(s2, ExchangeSucceeds(t), s3, [Return(t)], State(cell, s.threads, s.history + (events + [Returned(t, result)])));
    assert [ExchangeSucceeds(t)] + [Return(t)] == [ExchangeSucceeds(t), Return(t)];
  }

  /** A compare-exchange fails without a reason, and the loop comes back to where it was. */
  lemma LeadsAround(s: State, t: nat, op: Op, rest: seq<Step>, end: State)
    requires t !in s.threads && (op.CompareAndSwap? ==> s.cell == op.oldValue)
    requires Leads(Inside(s, t, op, Trying(s.cell)), rest, end)
    ensures Leads(Inside(s, t, op, Trying(s.cell)),
                  [ExchangeFails(t), if op.CompareAndSwap? then ReadAgain(t) else Read(t)] + rest, end)
  {
    hide Leads;
    var again := if op.CompareAndSwap? then ReadAgain(t) else Read(t);
    var s2 := Inside(s, t, op, Trying(s.cell));
    var s3 := Inside(s, t, op, if op.CompareAndSwap? then Rereading else Reading);
    assert s2.threads[t := Frame(op, s3.threads[t].place)] == s3.threads;
    assert s3.threads[t := Frame(op, Trying(s.cell))] == s2.threads;
    LeadsOn(s3, again, s2, rest, end);
    LeadsOn(s2, ExchangeFails(t), s3, [again] + rest, end);
    assert [ExchangeFails(t)] + ([again] + rest) == [ExchangeFails(t), again] + rest;
  }

  /** Calls of CompareAndSwap without interference, with or without a failure. */
  lemma CompareAndSwapAlone(s: State, t: nat, oldValue: Int32, newValue: Int32)
    requires t !in s.threads
    ensures var op := CompareAndSwap(oldValue, newValue);
            if s.cell == oldValue then
              && Leads(s, [Call(t, op), Read(t)] + [ExchangeSucceeds(t), Return(t)],
                       State(newValue, s.threads, s.history + [Called(t, op), Took(t, op, oldValue, true), Returned(t, oldValue)]))
              && Leads(s, [Call(t, op), Read(t)] + ([ExchangeFails(t), ReadAgain(t)] + [ExchangeSucceeds(t), Return(t)]),
                       State(newValue, s.threads, s.history + [Called(t, op), Took(t, op, oldValue, true), Returned(t, oldValue)]))
            else
              Leads(s, [Call(t, op), Read(t)] + [ExchangeFails(t), ReadAgain(t), Return(t)],
                    State(s.cell, s.threads, s.history + [Called(t, op), Took(t, op, s.cell, false), Returned(t, s.cell)]))
  {
    hide Leads;
    var op := CompareAndSwap(oldValue, newValue);
    if s.cell == oldValue {
      var end := State(newValue, s.threads, s.history + [Called(t, op), Took(t, op, oldValue, true), Returned(t, oldValue)]);
      var rest := [ExchangeSucceeds(t), Return(t)];
      LeadsToStore(s, t, op, oldValue, newValue);
      LeadsAround(s, t, op, rest, end);
      LeadsFromCall(s, t, op, rest, end);
      LeadsFromCall(s, t, op, [ExchangeFails(t), ReadAgain(t)] + rest, end);
    } else {
      var events := [Called(t, op), Took(t, op, s.cell, false)];
      var end := State(s.cell, s.threads, s.history + (events + [Returned(t, s.cell)]));
      var s2, s3 := Inside(s, t, op, Trying(s.cell)), Inside(s, t, op, Rereading);
      var s4 := State(s.cell, s.threads[t := Frame(op, Finished(s.cell))], s.history + events);
      LeadsToReturn(s, t, op, s.cell, s.cell, events);
      assert s2.threads[t := Frame(op, Rereading)] == s3.threads && s3.threads[t := Frame(op, Finished(s.cell))] == s4.threads;
      assert s3.history + [Took(t, op, s.cell, false)] == s4.history;
      LeadsOn(s3, ReadAgain(t), s4, [Return(t)], end);
      LeadsOn(s2, ExchangeFails(t), s3, [ReadAgain(t)] + [Return(t)], end);
      assert [ExchangeFails(t)] + ([ReadAgain(t)] + [Return(t)]) == [ExchangeFails(t), ReadAgain(t), Return(t)];
      assert events + [Returned(t, s.cell)] == [Called(t, op), Took(t, op, s.cell, false), Returned(t, s.cell)];
      LeadsFromCall(s, t, op, [ExchangeFails(t), ReadAgain(t), Return(t)], end);
    }
  }

  /** Calls of Exchange without interference, with or without a failure. */
  lemma ExchangeAlone(s: State, t: nat, newValue: Int32)
    requires t !in s.threads
    ensures var op := Exchange(newValue);
            var end := State(newValue, s.threads, s.history + [Called(t, op), Took(t, op, s.cell, true), Returned(t, s.cell)]);
            && Leads(s, [Call(t, op), Read(t)] + [ExchangeSucceeds(t), Return(t)], end)
            && Leads(s, [Call(t, op), Read(t)] + ([ExchangeFails(t), Read(t)] + [ExchangeSucceeds(t), Return(t)]), end)
  {
    hide Leads;
    var op := Exchange(newValue);
    var end := State(newValue, s.threads, s.history + [Called(t, op), Took(t, op, s.cell, true), Returned(t, s.cell)]);
    var rest := [ExchangeSucceeds(t), Return(t)];
    LeadsToStore(s, t, op, s.cell, newValue);
    LeadsAround(s, t, op, rest, end);
    LeadsFromCall(s, t, op, rest, end);
    LeadsFromCall(s, t, op, [ExchangeFails(t), Read(t)] + rest, end);
  }

  /** CompareAndSwap(0, 1) turns 0 into 1 and leaves 7 alone, Exchange(9) turns 3 into 9,
      and Increment(2) turns the largest number into the smallest but one. */
  lemma SomeCalls()
    ensures var op, steps := CompareAndSwap(0, 1), [Call(5, CompareAndSwap(0, 1)), Read(5)] + [ExchangeSucceeds(5), Return(5)];
            Runs(Start(0), steps) && Run(Start(0), steps) == State(1, map[], [] + [Called(5, op), Took(5, op, 0, true), Returned(5, 0)])
    ensures var op, steps := CompareAndSwap(0, 1), [Call(5, CompareAndSwap(0, 1)), Read(5)] + [ExchangeFails(5), ReadAgain(5), Return(5)];
            Runs(Start(7), steps) && Run(Start(7), steps) == State(7, map[], [] + [Called(5, op), Took(5, op, 7, false), Returned(5, 7)])
    ensures var op, steps := Exchange(9), [Call(5, Exchange(9)), Read(5)] + [ExchangeSucceeds(5), Return(5)];
            Runs(Start(3), steps) && Run(Start(3), steps) == State(9, map[], [] + [Called(5, op), Took(5, op, 3, true), Returned(5, 3)])
    ensures var op, steps := Increment(2), [Call(5, Increment(2)), Read(5)] + [ExchangeSucceeds(5), Return(5)];
            Runs(Start(0x7fff_ffff), steps) && Run(Start(0x7fff_ffff), steps) ==
            State(-0x7fff_ffff, map[], [] + [Called(5, op), Took(5, op, -0x7fff_ffff, true), Returned(5, -0x7fff_ffff)])
  {
    hide Leads, Runs, Run;
    CompareAndSwapAlone(Start(0), 5, 0, 1);
    CompareAndSwapAlone(Start(7), 5, 0, 1);
    ExchangeAlone(Start(3), 5, 9);
    LeadsToStore(Start(0x7fff_ffff), 5, Increment(2), -0x7fff_ffff, -0x7fff_ffff);
    LeadsFromCall(Start(0x7fff_ffff), 5, Increment(2), [ExchangeSucceeds(5), Return(5)],
                  State(-0x7fff_ffff, map[],
                        [] + [Called(5, Increment(2)), Took(5, Increment(2), -0x7fff_ffff, true), Returned(5, -0x7fff_ffff)]));
    LeadsMeans(Start(0), [Call(5, CompareAndSwap(0, 1)), Read(5)] + [ExchangeSucceeds(5), Return(5)],
               State(1, map[], [] + [Called(5, CompareAndSwap(0, 1)), Took(5, CompareAndSwap(0, 1), 0, true), Returned(5, 0)]));
    LeadsMeans(Start(7), [Call(5, CompareAndSwap(0, 1)), Read(5)] + [ExchangeFails(5), ReadAgain(5), Return(5)],
               State(7, map[], [] + [Called(5, CompareAndSwap(0, 1)), Took(5, CompareAndSwap(0, 1), 7, false), Returned(5, 7)]));
    LeadsMeans(Start(3), [Call(5, Exchange(9)), Read(5)] + [ExchangeSucceeds(5), Return(5)],
               State(9, map[], [] + [Called(5, Exchange(9)), Took(5, Exchange(9), 3, true), Returned(5, 3)]));
    LeadsMeans(Start(0x7fff_ffff), [Call(5, Increment(2)), Read(5)] + [ExchangeSucceeds(5), Return(5)],
               State(-0x7fff_ffff, map[],
                     [] + [Called(5, Increment(2)), Took(5, Increment(2), -0x7fff_ffff, true), Returned(5, -0x7fff_ffff)]));
  }

  // ---------- Each loop ends when left alone ----------

  /** The next step of a thread whose compare-exchange fails only when it has to. */
  function Forward(s: State, t: nat): Step
    requires t in s.threads
  {
    match s.threads[t].place
    case Reading => Read(t)
    case Trying(seen) => if s.cell == Expected(s.threads[t].op, seen) then ExchangeSucceeds(t) else ExchangeFails(t)
    case Rereading => ReadAgain(t)
    case Finished(_) => Return(t)
  }

  /** How many of these steps the loop still takes if no other thread interferes. */
  function StepsLeft(s: State, t: nat): nat
    requires t in s.threads
  {
    var op := s.threads[t].op;
    match s.threads[t].place
    case Reading => if op.CompareAndSwap? && s.cell != op.oldValue then 3 else 2
    case Trying(seen) => if s.cell == Expected(op, seen) then 1 else if op.CompareAndSwap? then 2 else 3
    case Rereading => if op.CompareAndSwap? && s.cell == op.oldValue then 2 else 1
    case Finished(_) => 0
  }

  lemma {:induction false} FinishesAlone(v: Int32, s: State, t: nat) returns (steps: seq<Step>)
    requires Atomic(v, s) && t in s.threads
    ensures |steps| == StepsLeft(s, t) <= 3 && forall i :: 0 <= i < |steps| ==> steps[i].t == t
    ensures Runs(s, steps) && t in Run(s, steps).threads && Run(s, steps).threads[t].place.Finished?
    decreases StepsLeft(s, t)
  {
    hide Sequential, Effects, After, Track;
    if s.threads[t].place.Finished? {
      return [];
    }
    var step := Forward(s, t);
    assert Enabled(s, step);
    StepIsAtomic(v, s, step);
    var more := FinishesAlone(v, Apply(s, step), t);
    steps := [step] + more;
    assert steps[1..] == more;
  }

  // ---------- Increments ----------

  predicate OnlyIncrements(effects: seq<Event>) {
    forall e :: e in effects ==> e.Took? && e.op.Increment?
  }

  function Sum(effects: seq<Event>): int
    requires OnlyIncrements(effects)
  {
    if effects == [] then 0
    else
      var n := |effects| - 1;
      Sum(effects[..n]) + effects[n].op.increment
  }

  lemma WrapAgain(x: int, y: int)
    ensures Wrap(Wrap(x) + y) == Wrap(x + y)
  {
    var q := (x + TWO_TO_THE_31) / TWO_TO_THE_32;
    assert x + y == Wrap(x) + y + TWO_TO_THE_32 * q;
    WrapShift(Wrap(x) + y, q);
  }

  lemma {:induction false} WrapShift(x: int, q: int)
    ensures Wrap(x + TWO_TO_THE_32 * q) == Wrap(x)
    decreases if q < 0 then -q else q
  {
    if q > 0 {
      WrapShift(x, q - 1);
      WrapOne(x + TWO_TO_THE_32 * (q - 1));
    } else if q < 0 {
      WrapShift(x, q + 1);
      WrapOne(x + TWO_TO_THE_32 * q);
    }
  }

  lemma WrapOne(x: int)
    ensures Wrap(x + TWO_TO_THE_32) == Wrap(x)
  {
  }

  lemma {:induction false} AfterIncrements(v: Int32, effects: seq<Event>)
    requires OnlyIncrements(effects)
    ensures After(v, effects) == Wrap(v + Sum(effects))
  {
    if effects != [] {
      var n := |effects| - 1;
      AfterIncrements(v, effects[..n]);
      WrapAgain(v + Sum(effects[..n]), effects[n].op.increment);
    }
  }

  lemma SumUpTo(effects: seq<Event>, i: nat)
    requires OnlyIncrements(effects) && i < |effects|
    ensures Sum(effects[..i + 1]) == Sum(effects[..i]) + effects[i].op.increment
  {
    assert effects[..i + 1][..i] == effects[..i];
  }

  lemma IncrementReturnsSum(v: Int32, effects: seq<Event>, i: nat)
    requires OnlyIncrements(effects) && Sequential(v, effects) && i < |effects|
    ensures effects[i].result == Wrap(v + Sum(effects[..i + 1]))
  {
    hide Wrap, After, Sum;
    SumUpTo(effects, i);
    AfterIncrements(v, effects[..i]);
    WrapAgain(v + Sum(effects[..i]), effects[i].op.increment);
  }

  /** Increments sum exactly, modulo the width of the cell, and each returns the sum it
      made. */
  lemma IncrementsSum(v: Int32, steps: seq<Step>)
    requires Runs(Start(v), steps) && OnlyIncrements(Effects(Run(Start(v), steps).history))
    ensures var s := Run(Start(v), steps); var effects := Effects(s.history);
            && s.cell == Wrap(v + Sum(effects))
            && forall i :: 0 <= i < |effects| ==> effects[i].result == Wrap(v + Sum(effects[..i + 1]))
  {
    hide Wrap, Runs, Run, Effects, Sequential, Sum, After, Track;
    var effects := Effects(Run(Start(v), steps).history);
    EveryRunIsAtomic(v, steps);
    AfterIncrements(v, effects);
    forall i | 0 <= i < |effects|
      ensures effects[i].result == Wrap(v + Sum(effects[..i + 1]))
    {
      IncrementReturnsSum(v, effects, i);
    }
  }

  // ---------- Sequence numbers ----------

  /** The number GetNext makes of the result of its increment. */
  function NumberOf(result: Int32): Int32 {
    Wrap(result - 1)
  }

  predicate OnlyGetNext(effects: seq<Event>) {
    forall e :: e in effects ==> e.Took? && e.op == Increment(1)
  }

  lemma SomeAreGetNext()
    ensures OnlyGetNext([]) && OnlyGetNext([Took(5, Increment(1), 1, true), Took(6, Increment(1), 2, true)])
    ensures !OnlyGetNext([Took(5, Increment(2), 2, true)])
  {
    assert Took(5, Increment(2), 2, true) in [Took(5, Increment(2), 2, true)];
  }

  lemma {:induction false} SumOfOnes(effects: seq<Event>)
    requires OnlyGetNext(effects)
    ensures Sum(effects) == |effects|
  {
    if effects != [] {
      SumOfOnes(effects[..|effects| - 1]);
    }
  }

  /** The calls of GetNext on a fresh counter get 0, 1, 2 and so on, in the order in which
      they take effect, with no gap up to wrap-around. */
  lemma NumbersAreConsecutive(steps: seq<Step>)
    requires Runs(Start(0), steps) && OnlyGetNext(Effects(Run(Start(0), steps).history))
    ensures var effects := Effects(Run(Start(0), steps).history);
            forall i :: 0 <= i < |effects| ==> NumberOf(effects[i].result) == Wrap(i)
  {
    hide Wrap, Runs, Run, Effects, Sum;
    var effects := Effects(Run(Start(0), steps).history);
    IncrementsSum(0, steps);
    forall i | 0 <= i < |effects|
      ensures NumberOf(effects[i].result) == Wrap(i)
    {
      SumOfOnes(effects[..i + 1]);
      assert Wrap(effects[i].result - 1) == Wrap(Wrap(i + 1) + -1);
      WrapAgain(i + 1, -1);
    }
  }

  lemma WrapIsInjective(i: int, j: int)
    requires i < j < i + TWO_TO_THE_32
    ensures Wrap(i) != Wrap(j)
  {
  }

  /** They are distinct exactly as long as there are no more of them than the width of the
      counter allows. */
  lemma NumbersAreDistinct(steps: seq<Step>)
    requires Runs(Start(0), steps) && OnlyGetNext(Effects(Run(Start(0), steps).history))
    ensures var effects := Effects(Run(Start(0), steps).history);
            (forall i, j :: 0 <= i < j < |effects| ==> NumberOf(effects[i].result) != NumberOf(effects[j].result))
            <==> |effects| <= TWO_TO_THE_32
  {
    hide Wrap, Runs, Run, Effects, NumberOf;
    var effects := Effects(Run(Start(0), steps).history);
    NumbersAreConsecutive(steps);
    if |effects| <= TWO_TO_THE_32 {
      forall i, j | 0 <= i < j < |effects|
        ensures NumberOf(effects[i].result) != NumberOf(effects[j].result)
      {
        WrapIsInjective(i, j);
      }
    } else {
      WrapOne(0);
      var j := TWO_TO_THE_32;
      assert NumberOf(effects[0].result) == NumberOf(effects[j].result);
    }
  }

  // ---------- Reference counts ----------

  /** AtomicRefCountDecN reports whether references are left. */
  predicate ReferencesLeft(result: Int32) {
    result != 0
  }

  lemma LeftUnlessZero()
    ensures ReferencesLeft(2) && ReferencesLeft(-1) && !ReferencesLeft(0)
  {
  }

  /** References are taken and released, by any number of threads: never more are released
      than there are, the count fits its cell, and none is taken once all are gone. */
  ghost predicate CountsReferences(count: Int32, effects: seq<Event>) {
    && OnlyIncrements(effects)
    && (forall i :: 0 <= i <= |effects| ==> 0 <= count + Sum(effects[..i]) < TWO_TO_THE_31)
    && (forall i :: 0 <= i < |effects| ==> effects[i].op.increment != 0)
    && (forall i :: 0 <= i < |effects| && effects[i].op.increment > 0 ==> count + Sum(effects[..i]) > 0)
  }

  /** One reference, another that is taken and released, and the release of the first. */
  lemma SomeReferences()
    ensures CountsReferences(1, [Took(5, Increment(1), 2, true), Took(6, Increment(-1), 1, true), Took(5, Increment(-1), 0, true)])
  {
    var effects := [Took(5, Increment(1), 2, true), Took(6, Increment(-1), 1, true), Took(5, Increment(-1), 0, true)];
    assert OnlyIncrements(effects);
    assert effects[..0] == [];
    SumUpTo(effects, 0);
    SumUpTo(effects, 1);
    SumUpTo(effects, 2);
  }

  lemma WrapFits(x: int)
    requires -TWO_TO_THE_31 <= x < TWO_TO_THE_31
    ensures Wrap(x) == x
  {
  }

  /** Once the count is zero nothing takes effect any more. */
  lemma ZeroIsTheEnd(count: Int32, effects: seq<Event>, i: nat)
    requires CountsReferences(count, effects) && i <= |effects|
    ensures count + Sum(effects[..i]) == 0 ==> i == |effects|
  {
    hide Sum;
    if i < |effects| {
      SumUpTo(effects, i);
      assert 0 <= count + Sum(effects[..i + 1]);
    }
  }

  lemma ReportsNone(count: Int32, effects: seq<Event>, i: nat)
    requires CountsReferences(count, effects) && i < |effects|
    ensures Wrap(count + Sum(effects[..i + 1])) == 0 <==> i == |effects| - 1 && count + Sum(effects) == 0
  {
    hide Wrap, Sum;
    ZeroIsTheEnd(count, effects, i + 1);
    assert 0 <= count + Sum(effects[..i + 1]) < TWO_TO_THE_31;
    WrapFits(count + Sum(effects[..i + 1]));
    assert effects[..|effects|] == effects;
  }

  /** However takes and releases interleave, an operation reports that no reference is left
      exactly if it is the last one and they are all gone. */
  lemma OnlyTheLastReleaseSeesNone(count: Int32, steps: seq<Step>)
    requires Runs(Start(count), steps) && CountsReferences(count, Effects(Run(Start(count), steps).history))
    ensures var effects := Effects(Run(Start(count), steps).history);
            forall i :: 0 <= i < |effects| ==>
              (!ReferencesLeft(effects[i].result) <==> i == |effects| - 1 && count + Sum(effects) == 0)
  {
    hide Wrap, Runs, Run, Effects, Sum, CountsReferences, OnlyIncrements;
    var effects := Effects(Run(Start(count), steps).history);
    CountedAreIncrements(count, effects);
    IncrementsSum(count, steps);
    forall i | 0 <= i < |effects|
      ensures !ReferencesLeft(effects[i].result) <==> i == |effects| - 1 && count + Sum(effects) == 0
    {
      ReportsNone(count, effects, i);
    }
  }

  lemma CountedAreIncrements(count: Int32, effects: seq<Event>)
    requires CountsReferences(count, effects)
    ensures OnlyIncrements(effects)
  {
  }

  // ---------- Calls and effects ----------

  /** The operations a thread called, and the results it got. */
  function Calls(history: seq<Event>, t: nat): seq<Op> {
    if history == [] then []
    else
      var n := |history| - 1;
      Calls(history[..n], t) + if history[n].t == t && history[n].Called? then [history[n].op] else []
  }

  function Results(history: seq<Event>, t: nat): seq<Int32> {
    if history == [] then []
    else
      var n := |history| - 1;
      Results(history[..n], t) + if history[n].t == t && history[n].Returned? then [history[n].result] else []
  }

  function OpsTaken(history: seq<Event>, t: nat): seq<Op> {
    if history == [] then []
    else
      var n := |history| - 1;
      OpsTaken(history[..n], t) + if history[n].t == t && history[n].Took? then [history[n].op] else []
  }

  function ResultsTaken(history: seq<Event>, t: nat): seq<Int32> {
    if history == [] then []
    else
      var n := |history| - 1;
      ResultsTaken(history[..n], t) + if history[n].t == t && history[n].Took? then [history[n].result] else []
  }

  lemma CallsOneMore(history: seq<Event>, e: Event, t: nat)
    ensures Calls(history + [e], t) == Calls(history, t) + if e.t == t && e.Called? then [e.op] else []
    ensures OpsTaken(history + [e], t) == OpsTaken(history, t) + if e.t == t && e.Took? then [e.op] else []
    ensures Results(history + [e], t) == Results(history, t) + if e.t == t && e.Returned? then [e.result] else []
    ensures ResultsTaken(history + [e], t) == ResultsTaken(history, t) + if e.t == t && e.Took? then [e.result] else []
  {
    assert (history + [e])[..|history|] == history;
  }

  /** A thread's completed calls are the operations of it that took effect, in the same
      order and with the same results; at most the last one has not returned, or has not
      taken effect. */
  lemma {:induction false} CallsTookEffect(history: seq<Event>, t: nat)
    requires Track(history, t) != Wrong
    ensures Calls(history, t) == OpsTaken(history, t) + match Track(history, t) case Pending(op) => [op] case _ => []
    ensures ResultsTaken(history, t) == Results(history, t) + match Track(history, t) case Done(_, r) => [r] case _ => []
  {
    if history != [] {
      CallsTookEffect(history[..|history| - 1], t);
    }
  }

  /** Whenever no thread is inside, the calls of every thread took effect once each and
      returned what the effect was. */
  lemma CompletedCallsTookEffectOnce(v: Int32, steps: seq<Step>, t: nat)
    requires Runs(Start(v), steps) && t !in Run(Start(v), steps).threads
    ensures var history := Run(Start(v), steps).history;
            Calls(history, t) == OpsTaken(history, t) && Results(history, t) == ResultsTaken(history, t)
  {
    EveryRunIsAtomic(v, steps);
    CallsTookEffect(Run(Start(v), steps).history, t);
  }
}
