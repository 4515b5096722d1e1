/** The examples in the unit tests of the field trials, worked out. */
module FieldTrialExamples {
  import opened Prelude
  import opened FieldTrials
  import opened FieldTrialLists

  // ---------- Choosing a group ----------

  /** Groups of three, of no and of all remaining tenths, for a random value of 7 and of 1. */
  method ChooseGroups() returns (late: FieldTrial, early: FieldTrial)
    ensures late.group == 2 && late.groupName == "_2"
    ensures early.group == 0 && early.groupName == "first"
  {
    hide Legal, Accumulated, Chosen, GroupName, Digits;
    late := new FieldTrial("trial", 10, 7);
    var n := AppendThree(late);
    early := new FieldTrial("trial", 10, 1);
    n := AppendThree(early);
    ThreeGroups();
    TwoIsSpelled();
  }

  method AppendThree(trial: FieldTrial) returns (number: nat)
    requires trial.Valid() && trial.probabilities == [] && trial.names == [] && trial.divisor == 10
    modifies trial
    ensures trial.Valid() && trial.probabilities == [3, 0, -2] && trial.names == ["first", "none", ""] && number == 2
  {
    hide Legal, Accumulated, Chosen, GroupName;
    SomeCanBeAppended();
    var _ := trial.AppendGroup("first", 3);
    var _ := trial.AppendGroup("none", 0);
    number := trial.AppendGroup("", -2);
  }

  lemma SomeCanBeAppended()
    ensures CanAppend([], 10, 3) && CanAppend([] + [3], 10, 0) && CanAppend([] + [3] + [0], 10, -2)
  {
    assert ([] + [3])[..0] == [];
  }

  lemma ThreeGroups()
    ensures Chosen([3, 0, -2], 10, 7) == 2 && Chosen([3, 0, -2], 10, 1) == 0
    ensures Chosen([3, 0], 10, 7) == -1 && Accumulated([3, 0], 10) == 3
  {
    assert [3, 0, -2][..2] == [3, 0] && [3, 0][..1] == [3] && [3][..0] == [];
  }

  lemma TwoIsSpelled()
    ensures GroupName(["first", "none", ""], 2) == "_2" && GroupName(["first", "none", ""], 0) == "first"
    ensures GroupName(["first", "none", ""], -1) == ""
  {
    assert Digits(2) == "2" && "_" + "2" == "_2";
  }

  lemma SomeNumbers()
    ensures Digits(0) == "0" && Digits(9) == "9" && Digits(10) == "10" && Digits(207) == "207"
  {
    assert Digits(1) == "1" && Digits(2) == "2" && Digits(20) == "20";
  }

  // ---------- Saving and restoring ----------

  /** A string of names and groups is refused if a slash, a name or a group is missing. */
  lemma MalformedIsRefused(states: States, name: string, group: string)
    requires name != "" && group != "" && '/' !in name && '/' !in group
    ensures !Augment(states, name, 0).0 && !Augment(states, name + "/", 0).0
    ensures !Augment(states, name + "/" + group, 0).0 && !Augment(states, "/" + group + "/", 0).0
    ensures !Augment(states, name + "//", 0).0
  {
    hide FindSeparator;
    Unseparated(name, 0);
    FoundIn(name + "/", name, "");
    Unseparated(name + "/", |name| + 1);
    FoundIn(name + "/" + group, name, group);
    Unseparated(name + "/" + group, |name| + 1);
    FoundIn("/" + group + "/", "", group + "/");
    FoundIn(name + "//", name, "/");
    FoundAt(name + "//", |name| + 1, |name| + 1);
  }

  lemma Unseparated(s: string, from: nat)
    requires from <= |s| && '/' !in s[from..]
    ensures FindSeparator(s, from) == None
  {
    assert forall k :: from <= k < |s| ==> s[from..][k - from] == s[k];
  }

  lemma FoundIn(s: string, name: string, rest: string)
    requires s == name + "/" + rest && '/' !in name
    ensures FindSeparator(s, 0) == Some(|name|)
  {
    assert s[0..|name|] == name;
    FoundAt(s, 0, |name|);
  }

  /** Two trials are restored from names and groups with slashes after them. */
  lemma TwoAreRestored(name1: string, group1: string, name2: string, group2: string)
    requires name1 != "" && group1 != "" && '/' !in name1 && '/' !in group1
    requires name2 != "" && group2 != "" && '/' !in name2 && '/' !in group2 && name1 != name2
    ensures Augment(map[], name1 + "/" + group1 + "/" + name2 + "/" + group2 + "/", 0) ==
            (true, map[name1 := group1, name2 := group2])
  {
    hide Augment, Spell, SpellAll;
    var first, second := Decision(name1, group1), Decision(name2, group2);
    var s := name1 + "/" + group1 + "/" + name2 + "/" + group2 + "/";
    SpelledWithSlashes(first);
    SpelledWithSlashes(second);
    SpelledOne(first);
    SpellOneMore([first], second);
    assert [first] + [second] == [first, second] && s[0..] == s == Spell(first) + Spell(second);
    AugmentSpelled(map[], s, 0, [first, second]);
    TakenTwice(first, second);
  }

  lemma SpelledWithSlashes(d: Decision)
    ensures Spell(d) == d.name + "/" + d.group + "/"
  {
  }

  /** A trial that is known is compared. */
  lemma OneIsCompared(states: States, name: string, group: string)
    requires name in states && name != "" && group != "" && '/' !in name && '/' !in group
    ensures Augment(states, name + "/" + group + "/", 0) == (states[name] == group, states)
  {
    hide FindSeparator;
    var s := name + "/" + group + "/";
    FoundIn(s, name, group + "/");
    assert s[|name| + 1..|name| + 1 + |group|] == group && s[..|name|] == name;
    FoundAt(s, |name| + 1, |name| + 1 + |group|);
  }

  lemma WinnersSpelled()
    ensures "Some name" + "/" + "Winner" + "/" + "xxx" + "/" + "yyyy" + "/" == "Some name/Winner/xxx/yyyy/"
    ensures "Some name" + "/" + "Winner" + "/" == "Some name/Winner/"
    ensures "Some name" + "/" + "Loser" + "/" == "Some name/Loser/"
    ensures "Some name" != "xxx" && "Winner" != "Loser"
    ensures '/' !in "Some name" && '/' !in "Winner" && '/' !in "Loser" && '/' !in "xxx" && '/' !in "yyyy"
  {
  }

  /** The string of the unit test. */
  method RestoreWinner() returns (list: FieldTrialList, ok: bool, again: bool, loser: bool)
    ensures ok && again && !loser
    ensures list.Valid() && list.Contents() == map["Some name" := "Winner", "xxx" := "yyyy"]
  {
    hide Augment, FieldTrial.Valid;
    WinnersSpelled();
    TwoAreRestored("Some name", "Winner", "xxx", "yyyy");
    list := new FieldTrialList();
    ok := list.StringAugmentsState("Some name/Winner/xxx/yyyy/");
    OneIsCompared(list.Contents(), "Some name", "Winner");
    again := list.StringAugmentsState("Some name/Winner/");
    OneIsCompared(list.Contents(), "Some name", "Loser");
    loser := list.StringAugmentsState("Some name/Loser/");
  }

  /** An undecided trial is not in the string, a decided one is. */
  method SaveWinner() returns (before: string, after: string)
    ensures before == "" && after == "Some name/Winner/"
  {
    hide FieldTrial.Valid, DecisionsOf, SpellAll, Enumerates;
    WinnersSpelled();
    var trial := new FieldTrial("Some name", 10, 4);
    var list := new FieldTrialList();
    list.Register(trial);
    before := list.StatesToString();
    OneIsSaved(before, list.Contents(), "Some name");
    NothingAppended(10);
    var _ := trial.AppendGroup("Winner", 10);
    OnlyGroup(trial, "Winner");
    after := list.StatesToString();
    OneIsSaved(after, list.Contents(), "Some name");
  }

  lemma OneIsSaved(s: string, states: States, name: string)
    requires IsStateString(s, states) && states.Keys == {name}
    ensures s == if states[name] == "" then "" else name + "/" + states[name] + "/"
  {
    hide SpellAll, DecisionsOf;
    var order :| Enumerates(order, states.Keys) && s == SpellAll(DecisionsOf(states, order));
    OnlyOrder(order, name);
    DecisionsOfOneMore(states, [], name);
    NoDecisions(states);
    assert [] + [name] == [name];
    if states[name] != "" {
      SpelledOne(Decision(name, states[name]));
      SpelledWithSlashes(Decision(name, states[name]));
      assert [] + [Decision(name, states[name])] == [Decision(name, states[name])];
    } else {
      NothingSpelled(states);
    }
  }

  lemma OnlyOrder(order: seq<string>, name: string)
    requires Enumerates(order, {name})
    ensures order == [name]
  {
    var second := if |order| > 1 then order[1] else name;
    assert |order| > 1 ==> order[0] != second;
    assert name in order && second in order;
    forall k | 0 <= k < |order|
      ensures order[k] == name
    {
      assert order[k] in order;
    }
  }

  lemma NoDecisions(states: States)
    ensures DecisionsOf(states, []) == []
  {
  }
}
