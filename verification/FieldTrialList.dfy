/** The registry of field trials, and the string that carries its state to another
    process. */
module FieldTrialLists {
  import opened Prelude
  import opened FieldTrials

  const SEPARATOR: char := '/'
  const TOTAL_PROBABILITY: nat := 100

  // ---------- The string ----------

  /** The name of a trial and of its group. */
  datatype Decision = Decision(name: string, group: string)

  predicate IsPlain(s: string) {
    s != "" && SEPARATOR !in s
  }

  predicate ArePlain(decisions: seq<Decision>) {
    forall d :: d in decisions ==> IsPlain(d.name) && IsPlain(d.group)
  }

  function Spell(d: Decision): string {
    d.name + [SEPARATOR] + d.group + [SEPARATOR]
  }

  function SpellAll(decisions: seq<Decision>): string {
    if decisions == [] then "" else Spell(decisions[0]) + SpellAll(decisions[1..])
  }

  lemma {:induction false} SpellOneMore(decisions: seq<Decision>, d: Decision)
    ensures SpellAll(decisions + [d]) == SpellAll(decisions) + Spell(d)
  {
    if decisions == [] {
      assert decisions + [d] == [d] && SpellAll([]) == "";
      assert [d][1..] == [];
    } else {
      assert (decisions + [d])[1..] == decisions[1..] + [d];
      SpellOneMore(decisions[1..], d);
    }
  }

  /** The first separator from a position on. */
  function FindSeparator(s: string, from: nat): (at: Option<nat>)
    requires from <= |s|
    ensures at.Some? ==> from <= at.value < |s| && s[at.value] == SEPARATOR && SEPARATOR !in s[from..at.value]
    ensures at.None? ==> SEPARATOR !in s[from..]
    decreases |s| - from
  {
    if from == |s| then None
    else if s[from] == SEPARATOR then Some(from)
    else
      var at := FindSeparator(s, from + 1);
      assert s[from..] == [s[from]] + s[from + 1..];
      assert at.Some? ==> s[from..at.value] == [s[from]] + s[from + 1..at.value];
      at
  }

  /** The decision spelled at a position, and where it ends. */
  function NextDecision(s: string, from: nat): (r: Option<(Decision, nat)>)
    requires from <= |s|
    ensures r.Some? ==> from < r.value.1 <= |s|
  {
    var nameEnd := FindSeparator(s, from);
    if nameEnd.None? || nameEnd.value == from then None
    else
      var groupEnd := FindSeparator(s, nameEnd.value + 1);
      if groupEnd.None? || groupEnd.value == nameEnd.value + 1 then None
      else Some((Decision(s[from..nameEnd.value], s[nameEnd.value + 1..groupEnd.value]), groupEnd.value + 1))
  }

  /** What is spelled is read back, and what is read was spelled. */
  lemma ReadsSpelled(s: string, from: nat, d: Decision, rest: string)
    requires from <= |s| && s[from..] == Spell(d) + rest && IsPlain(d.name) && IsPlain(d.group)
    ensures NextDecision(s, from) == Some((d, from + |Spell(d)|)) && s[from + |Spell(d)|..] == rest
  {
    hide FindSeparator, Spell, IsPlain;
    SpelledParts(s, from, d, rest);
    FoundAt(s, from, from + |d.name|);
    FoundAt(s, from + |d.name| + 1, from + |d.name| + 1 + |d.group|);
  }

  lemma SpelledParts(s: string, from: nat, d: Decision, rest: string)
    requires from <= |s| && s[from..] == Spell(d) + rest && IsPlain(d.name) && IsPlain(d.group)
    ensures var i := from + |d.name|; var j := i + 1 + |d.group|;
            && from < i && i + 1 < j < |s| && s[i] == SEPARATOR && s[j] == SEPARATOR
            && s[from..i] == d.name && s[i + 1..j] == d.group && s[j + 1..] == rest && j + 1 == from + |Spell(d)|
            && SEPARATOR !in s[from..i] && SEPARATOR !in s[i + 1..j]
  {
    hide Spell, IsPlain;
    var n, k := |d.name|, |d.name| + 1 + |d.group|;
    SpellParts(d, rest);
    SliceOfRest(s, from, 0, n);
    SliceOfRest(s, from, n + 1, k);
    SliceOfRest(s, from, k, k + 1);
    IsPlainMeans(d.name);
    IsPlainMeans(d.group);
  }

  lemma IsPlainMeans(s: string)
    requires IsPlain(s)
    ensures |s| > 0 && SEPARATOR !in s
  {
  }

  lemma SpellParts(d: Decision, rest: string)
    ensures var t, n, k := Spell(d) + rest, |d.name|, |d.name| + 1 + |d.group|;
            && |Spell(d)| == k + 1 && t[0..n] == d.name && t[n] == SEPARATOR && t[n + 1..k] == d.group
            && t[k] == SEPARATOR && t[k + 1..] == rest
  {
  }

  lemma FoundAt(s: string, from: nat, i: nat)
    requires from <= i < |s| && s[i] == SEPARATOR && SEPARATOR !in s[from..i]
    ensures FindSeparator(s, from) == Some(i)
  {
    var at := FindSeparator(s, from);
    assert s[i] in s[from..] by {
      assert s[from..][i - from] == s[i];
    }
    assert forall k :: from <= k < i ==> s[k] == s[from..i][k - from];
    assert forall k :: from <= k < at.value ==> s[k] == s[from..at.value][k - from];
  }

  lemma ReadWasSpelled(s: string, from: nat)
    requires from <= |s| && NextDecision(s, from).Some?
    ensures var (d, next) := NextDecision(s, from).value;
            IsPlain(d.name) && IsPlain(d.group) && s[from..] == Spell(d) + s[next..]
  {
  }

  // ---------- What a string adds to the state ----------

  /** The name of the chosen group of every trial, empty where none is chosen. */
  type States = map<string, string>

  /** Reads decisions up to the first that is malformed, or disagrees with a known one. */
  function Augment(states: States, s: string, from: nat): (bool, States)
    requires from <= |s|
    decreases |s| - from
  {
    if from == |s| then (true, states)
    else
      var r := NextDecision(s, from);
      if r.None? then (false, states)
      else
        var (d, next) := r.value;
        if d.name !in states then Augment(states[d.name := d.group], s, next)
        else if states[d.name] != d.group then (false, states)
        else Augment(states, s, next)
  }

  predicate Agrees(states: States, d: Decision) {
    d.name in states ==> states[d.name] == d.group
  }

  /** No two of these decisions disagree, nor does one with a known state. */
  predicate Consistent(states: States, decisions: seq<Decision>) {
    && (forall d :: d in decisions ==> Agrees(states, d))
    && (forall d, e :: d in decisions && e in decisions && d.name == e.name ==> d == e)
  }

  function Taken(states: States, d: Decision): States {
    if d.name in states then states else states[d.name := d.group]
  }

  /** The states that a sequence of decisions adds. */
  function Added(states: States, decisions: seq<Decision>): States
    decreases |decisions|
  {
    if decisions == [] then states else Added(Taken(states, decisions[0]), decisions[1..])
  }

  lemma AugmentStep(states: States, s: string, from: nat)
    requires from <= |s|
    ensures from == |s| ==> Augment(states, s, from) == (true, states)
    ensures from < |s| && NextDecision(s, from).None? ==> Augment(states, s, from) == (false, states)
    ensures from < |s| && NextDecision(s, from).Some? ==>
              var (d, next) := NextDecision(s, from).value;
              && next <= |s| && Augment(states, s, from) ==
                 if Agrees(states, d) then Augment(Taken(states, d), s, next) else (false, states)
  {
  }

  /** Plain decisions are taken up exactly if they are consistent. */
  lemma {:induction false} AugmentSpelled(states: States, s: string, from: nat, decisions: seq<Decision>)
    requires from <= |s| && s[from..] == SpellAll(decisions) && ArePlain(decisions)
    ensures Augment(states, s, from).0 <==> Consistent(states, decisions)
    ensures Consistent(states, decisions) ==> Augment(states, s, from).1 == Added(states, decisions)
    decreases |decisions|
  {
    hide Augment, NextDecision, Spell, Consistent, Taken, Agrees;
    AugmentStep(states, s, from);
    if decisions == [] {
      ConsistentNone(states);
    } else {
      var d, more := decisions[0], decisions[1..];
      assert decisions == [d] + more;
      ReadsSpelled(s, from, d, SpellAll(more));
      var next := from + |Spell(d)|;
      var states' := Taken(states, d);
      AugmentSpelled(states', s, next, more);
      ConsistentStep(states, d, more);
    }
  }

  lemma ConsistentNone(states: States)
    ensures Consistent(states, [])
  {
  }

  lemma ConsistentStep(states: States, d: Decision, more: seq<Decision>)
    ensures var states' := Taken(states, d);
            Consistent(states, [d] + more) <==> Agrees(states, d) && Consistent(states', more)
  {
    var states' := Taken(states, d);
    assert forall e :: e in [d] + more <==> e == d || e in more;
    if Agrees(states, d) && Consistent(states', more) {
      forall e | e in more
        ensures Agrees(states, e) && (e.name == d.name ==> e == d)
      {
        assert Agrees(states', e);
      }
    }
    if Consistent(states, [d] + more) {
      assert d in [d] + more;
      forall e | e in more
        ensures Agrees(states', e)
      {
        assert e in [d] + more;
      }
    }
  }

  /** What is accepted is a sequence of plain decisions, spelled out. */
  lemma {:induction false} AcceptedIsSpelled(states: States, s: string, from: nat) returns (decisions: seq<Decision>)
    requires from <= |s| && Augment(states, s, from).0
    ensures s[from..] == SpellAll(decisions) && ArePlain(decisions)
    decreases |s| - from
  {
    if from == |s| {
      decisions := [];
    } else {
      ReadWasSpelled(s, from);
      var (d, next) := NextDecision(s, from).value;
      var states' := Taken(states, d);
      var more := AcceptedIsSpelled(states', s, next);
      decisions := [d] + more;
      assert decisions[1..] == more;
    }
  }

  ghost predicate IsSpellingOf(s: string, decisions: seq<Decision>) {
    ArePlain(decisions) && s == SpellAll(decisions)
  }

  /** A string is accepted exactly if it spells plain decisions that are consistent. */
  lemma AcceptedExactly(states: States, s: string)
    ensures Augment(states, s, 0).0 <==> exists decisions :: IsSpellingOf(s, decisions) && Consistent(states, decisions)
  {
    assert s[0..] == s;
    if Augment(states, s, 0).0 {
      var decisions := AcceptedIsSpelled(states, s, 0);
      AugmentSpelled(states, s, 0, decisions);
      assert IsSpellingOf(s, decisions);
    }
    forall decisions | IsSpellingOf(s, decisions) && Consistent(states, decisions)
      ensures Augment(states, s, 0).0
    {
      AugmentSpelled(states, s, 0, decisions);
    }
  }

  // ---------- The round trip ----------

  /** The trials that have a winner. */
  function Decided(states: States): States {
    map name | name in states && states[name] != "" :: states[name]
  }

  function DecisionOf(states: States, name: string): seq<Decision>
    requires name in states
  {
    if states[name] == "" then [] else [Decision(name, states[name])]
  }

  function DecisionsOf(states: States, order: seq<string>): seq<Decision>
    requires forall name :: name in order ==> name in states
  {
    if order == [] then []
    else
      var n := |order| - 1;
      DecisionsOf(states, order[..n]) + DecisionOf(states, order[n])
  }

  lemma {:induction false} DecisionsOfIs(states: States, order: seq<string>)
    requires forall name :: name in order ==> name in states
    ensures forall d :: d in DecisionsOf(states, order) <==> d.name in order && states[d.name] == d.group != ""
  {
    if order != [] {
      var n := |order| - 1;
      DecisionsOfIs(states, order[..n]);
      assert order == order[..n] + [order[n]];
    }
  }

  lemma {:induction false} AddedIs(states: States, decisions: seq<Decision>)
    requires Consistent(states, decisions)
    ensures forall name :: name in Added(states, decisions) <==>
                             name in states || exists d :: d in decisions && d.name == name
    ensures forall name :: name in states ==> Added(states, decisions)[name] == states[name]
    ensures forall d :: d in decisions ==> d.name in Added(states, decisions) && Added(states, decisions)[d.name] == d.group
    decreases |decisions|
  {
    if decisions != [] {
      var d, more := decisions[0], decisions[1..];
      assert decisions == [d] + more;
      ConsistentStep(states, d, more);
      AddedIs(Taken(states, d), more);
    }
  }

  /** The order lists each name once. */
  ghost predicate Enumerates(order: seq<string>, names: set<string>) {
    && (forall name :: name in order <==> name in names)
    && (forall j, k :: 0 <= j < k < |order| ==> order[j] != order[k])
  }

  /** The string spells each decided trial once, in some order. */
  ghost predicate IsStateString(s: string, states: States) {
    exists order :: Enumerates(order, states.Keys) && s == SpellAll(DecisionsOf(states, order))
  }

  predicate PlainWhereDecided(states: States) {
    forall name :: name in states && states[name] != "" ==> IsPlain(name) && IsPlain(states[name])
  }

  /** The spelled decisions of one process, in any order of its trials, are accepted by
      every other process that does not disagree; afterwards it knows these and what it
      knew before. */
  lemma RoundTrip(states: States, order: seq<string>, others: States)
    requires PlainWhereDecided(states) && forall name :: name in order <==> name in states
    requires forall name :: name in states && states[name] != "" && name in others ==> others[name] == states[name]
    ensures Augment(others, SpellAll(DecisionsOf(states, order)), 0) == (true, others + Decided(states))
  {
    hide Augment, SpellAll, DecisionsOf, Added, IsPlain;
    var decisions := DecisionsOf(states, order);
    var s := SpellAll(decisions);
    DecisionsOfIs(states, order);
    assert s[0..] == s;
    AugmentSpelled(others, s, 0, decisions);
    AddedIs(others, decisions);
    forall name | name in states && states[name] != ""
      ensures name in Added(others, decisions) && Added(others, decisions)[name] == states[name]
    {
      assert Decision(name, states[name]) in decisions;
    }
    assert Added(others, decisions) == others + Decided(states);
  }

  /** An empty registry is rebuilt, and the original one does not change. */
  lemma RebuiltAndUnchanged(states: States, order: seq<string>)
    requires PlainWhereDecided(states) && forall name :: name in order <==> name in states
    ensures Augment(map[], SpellAll(DecisionsOf(states, order)), 0) == (true, Decided(states))
    ensures Augment(states, SpellAll(DecisionsOf(states, order)), 0) == (true, states)
  {
    hide Augment, SpellAll, DecisionsOf, IsPlain;
    RoundTrip(states, order, map[]);
    RoundTrip(states, order, states);
    assert map[] + Decided(states) == Decided(states);
    assert states + Decided(states) == states;
  }

  /** An empty registry is rebuilt exactly if every decided trial has a plain name and a
      plain group. */
  lemma RebuiltExactly(states: States, order: seq<string>)
    requires forall name :: name in order <==> name in states
    ensures Augment(map[], SpellAll(DecisionsOf(states, order)), 0) == (true, Decided(states)) <==> PlainWhereDecided(states)
  {
    hide Augment, SpellAll, DecisionsOf, IsPlain;
    var s := SpellAll(DecisionsOf(states, order));
    if PlainWhereDecided(states) {
      RebuiltAndUnchanged(states, order);
    } else if Augment(map[], s, 0) == (true, Decided(states)) {
      var decisions := AcceptedIsSpelled(map[], s, 0);
      AugmentSpelled(map[], s, 0, decisions);
      AddedIs(map[], decisions);
      forall name | name in states && states[name] != ""
        ensures IsPlain(name) && IsPlain(states[name])
      {
        assert name in Decided(states);
        var d :| d in decisions && d.name == name;
      }
    }
  }

  /** The name a/b/c is not plain: what was decided for it is taken for two other trials. */
  lemma SeparatorsInName(a: string, b: string, c: string, d: string)
    requires IsPlain(a) && IsPlain(b) && IsPlain(c) && IsPlain(d) && a != c
    ensures var name := a + [SEPARATOR] + b + [SEPARATOR] + c;
            Augment(map[], SpellAll(DecisionsOf(map[name := d], [name])), 0) == (true, map[a := b, c := d])
  {
    hide Augment, SpellAll, Spell, DecisionsOf;
    var name := a + [SEPARATOR] + b + [SEPARATOR] + c;
    var s := SpellAll(DecisionsOf(map[name := d], [name]));
    var first, second := Decision(a, b), Decision(c, d);
    DecisionsOfOne(map[name := d], name);
    SpelledOne(Decision(name, d));
    SpelledOne(first);
    SpellOneMore([first], second);
    SpelledTwice(a, b, c, d);
    assert [first] + [second] == [first, second] && s[0..] == s;
    AugmentSpelled(map[], s, 0, [first, second]);
    TakenTwice(first, second);
  }

  lemma DecisionsOfOne(states: States, name: string)
    requires name in states && states[name] != ""
    ensures DecisionsOf(states, [name]) == [Decision(name, states[name])]
  {
    assert [name][..0] == [] && [] + [Decision(name, states[name])] == [Decision(name, states[name])];
  }

  lemma SpelledOne(d: Decision)
    ensures SpellAll([d]) == Spell(d)
  {
    assert [d][1..] == [] && SpellAll([]) == "";
  }

  lemma SpelledTwice(a: string, b: string, c: string, d: string)
    ensures Spell(Decision(a + [SEPARATOR] + b + [SEPARATOR] + c, d)) == Spell(Decision(a, b)) + Spell(Decision(c, d))
  {
  }

  lemma TakenTwice(first: Decision, second: Decision)
    requires first.name != second.name
    ensures Consistent(map[], [first, second])
    ensures Added(map[], [first, second]) == map[first.name := first.group, second.name := second.group]
  {
    var none: States := map[];
    var one := Taken(none, first);
    assert [first, second][1..] == [second] && [second][1..] == [];
    assert Added(one, [second]) == Added(Taken(one, second), []) == Taken(one, second);
    assert Added(none, [first, second]) == Added(one, [second]);
  }

  // ---------- The registry ----------

  class FieldTrialList {
    var registered: map<string, FieldTrial>

    ghost predicate Valid()
      reads this, registered.Values
    {
      forall name :: name in registered ==> registered[name].name == name && registered[name].Valid()
    }

    ghost function Contents(): States
      reads this, registered.Values
    {
      map name | name in registered :: registered[name].groupName
    }

    constructor ()
      ensures Valid() && registered == map[] && Contents() == map[]
    {
      registered := map[];
    }

    method Register(trial: FieldTrial)
      requires Valid() && trial.Valid() && trial.name !in registered
      modifies this
      ensures Valid() && registered == old(registered)[trial.name := trial]
    {
      registered := registered[trial.name := trial];
    }

    method Find(name: string) returns (trial: Option<FieldTrial>)
      ensures trial == Lookup(registered, name)
    {
      trial := if name in registered then Some(registered[name]) else None;
    }

    method StatesToString() returns (output: string)
      requires Valid()
      ensures IsStateString(output, Contents())
    {
      hide FieldTrial.Valid, SpellAll, DecisionsOf;
      output := "";
      ghost var order: seq<string> := [];
      NothingSpelled(Contents());
      var rest := registered.Keys;
      while rest != {}
        invariant rest <= registered.Keys && Enumerates(order, registered.Keys - rest)
        invariant output == SpellAll(DecisionsOf(Contents(), order))
        decreases rest
      {
        var name :| name in rest;
        rest := rest - {name};
        ghost var before := DecisionsOf(Contents(), order);
        DecisionsOfOneMore(Contents(), order, name);
        order := order + [name];
        var groupName := registered[name].groupName;
        if groupName != "" {
          SpellOneMore(before, Decision(name, groupName));
          output := output + name;
          output := output + [SEPARATOR];
          output := output + groupName;
          output := output + [SEPARATOR];
        } else {
          assert before + [] == before;
        }
      }
      assert Enumerates(order, Contents().Keys);
    }

    /** Adds the trials of a string, up to the first that is malformed or disagrees. The
        trials that are there already stay as they are. */
    method StringAugmentsState(priorState: string) returns (ok: bool)
      requires Valid()
      modifies this
      ensures Valid() && (ok, Contents()) == Augment(old(Contents()), priorState, 0)
      ensures forall name :: name in old(registered) ==> name in registered && registered[name] == old(registered[name])
      // each of the others is new, has its name, and its only group is chosen
      ensures forall name :: name in registered && name !in old(registered) ==>
                fresh(registered[name]) && registered[name].name == name && registered[name].group == 0
    {
      hide Augment, NextDecision, FindSeparator, FieldTrial.Valid;
      if priorState == "" {
        AugmentStep(Contents(), priorState, 0);
        return true;
      }
      var nextItem: nat := 0;
      ghost var found := Augment(Contents(), priorState, 0);
      while nextItem < |priorState|
        invariant nextItem <= |priorState| && Valid() && found == Augment(Contents(), priorState, nextItem)
        invariant forall name :: name in old(registered) ==> name in registered && registered[name] == old(registered[name])
        invariant forall name :: name in registered && name !in old(registered) ==>
                    fresh(registered[name]) && registered[name].name == name && registered[name].group == 0
        decreases |priorState| - nextItem
      {
        ghost var from := nextItem;
        AugmentStep(Contents(), priorState, from);
        NextDecisionIs(priorState, from);
        var nameEnd := FindSeparator(priorState, nextItem);
        if nameEnd.None? || nextItem == nameEnd.value {
          return false;
        }
        var groupNameEnd := FindSeparator(priorState, nameEnd.value + 1);
        if groupNameEnd.None? || nameEnd.value + 1 == groupNameEnd.value {
          return false;
        }
        var name := priorState[nextItem..nameEnd.value];
        var groupName := priorState[nameEnd.value + 1..groupNameEnd.value];
        nextItem := groupNameEnd.value + 1;
        var fieldTrial := Find(name);
        if fieldTrial.Some? {
          if fieldTrial.value.groupName != groupName {
            return false;
          }
        } else {
          AddDecided(name, groupName);
        }
      }
      AugmentStep(Contents(), priorState, nextItem);
      ok := true;
    }

    /** A new trial whose only group is certain to be chosen. */
    method AddDecided(name: string, groupName: string)
      requires Valid() && name !in registered && groupName != ""
      modifies this
      ensures Valid() && name in registered && fresh(registered[name])
      ensures registered == old(registered)[name := registered[name]]
      ensures Contents() == old(Contents())[name := groupName]
      ensures registered[name].name == name && registered[name].group == 0
    {
      hide FieldTrial.Valid, CanAppend;
      var random: nat :| random < TOTAL_PROBABILITY;
      var fieldTrial := new FieldTrial(name, TOTAL_PROBABILITY, random);
      Register(fieldTrial);
      NothingAppended(TOTAL_PROBABILITY);
      var _ := fieldTrial.AppendGroup(groupName, TOTAL_PROBABILITY);
      OnlyGroup(fieldTrial, groupName);
    }
  }

  lemma NothingSpelled(states: States)
    ensures SpellAll(DecisionsOf(states, [])) == ""
  {
  }

  lemma DecisionsOfOneMore(states: States, order: seq<string>, name: string)
    requires (forall n :: n in order ==> n in states) && name in states
    ensures DecisionsOf(states, order + [name]) == DecisionsOf(states, order) + DecisionOf(states, name)
  {
    assert (order + [name])[..|order|] == order;
  }

  lemma OnlyGroup(trial: FieldTrial, groupName: string)
    requires trial.Valid() && trial.names == [groupName] && groupName != "" && trial.group != NOT_PARTICIPATING
    ensures trial.groupName == groupName && trial.group == 0
  {
  }

  lemma NothingAppended(divisor: nat)
    ensures CanAppend([], divisor, divisor)
  {
  }

  lemma NextDecisionIs(s: string, from: nat)
    requires from <= |s|
    ensures var nameEnd := FindSeparator(s, from);
            && (nameEnd.None? || nameEnd.value == from ==> NextDecision(s, from) == None)
            && (nameEnd.Some? && nameEnd.value != from ==>
              var groupEnd := FindSeparator(s, nameEnd.value + 1);
              && (groupEnd.None? || groupEnd.value == nameEnd.value + 1 ==> NextDecision(s, from) == None)
              && (groupEnd.Some? && groupEnd.value != nameEnd.value + 1 ==>
                    var d := Decision(s[from..nameEnd.value], s[nameEnd.value + 1..groupEnd.value]);
                    NextDecision(s, from) == Some((d, groupEnd.value + 1))))
  {
  }

  /** A second process that is given the string of the first has its decided trials, with
      the same groups, and no others. */
  method CarryOver(parent: FieldTrialList) returns (child: FieldTrialList, ok: bool)
    requires parent.Valid() && PlainWhereDecided(parent.Contents())
    ensures ok && fresh(child) && child.Valid() && child.Contents() == Decided(parent.Contents())
  {
    hide FieldTrial.Valid, Augment, SpellAll, DecisionsOf, PlainWhereDecided, Decided;
    var state := parent.StatesToString();
    ghost var order :| Enumerates(order, parent.Contents().Keys) && state == SpellAll(DecisionsOf(parent.Contents(), order));
    child := new FieldTrialList();
    RebuiltAndUnchanged(parent.Contents(), order);
    ok := child.StringAugmentsState(state);
  }
}
