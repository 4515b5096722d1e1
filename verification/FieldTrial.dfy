/** Choosing the group of a field trial by a random number. */
module FieldTrials {

  const NOT_PARTICIPATING: int := -1
  const ALL_REMAINING_PROBABILITY: int := -2

  // ---------- The partition of the random values ----------

  /** The end of the interval of the last of these groups. */
  function Accumulated(probabilities: seq<int>, divisor: nat): int {
    if probabilities == [] then 0
    else
      var n := |probabilities| - 1;
      if probabilities[n] == ALL_REMAINING_PROBABILITY then divisor
      else Accumulated(probabilities[..n], divisor) + probabilities[n]
  }

  /** A group that can be appended to these. */
  predicate CanAppend(probabilities: seq<int>, divisor: nat, probability: int) {
    || probability == ALL_REMAINING_PROBABILITY
    || (0 <= probability && Accumulated(probabilities, divisor) + probability <= divisor)
  }

  lemma AppendingSpelledOut(probabilities: seq<int>, divisor: nat, probability: int)
    ensures CanAppend(probabilities, divisor, -2) && !CanAppend(probabilities, divisor, -1)
    ensures probability >= 0 ==>
            (CanAppend(probabilities, divisor, probability) <==> Accumulated(probabilities, divisor) + probability <= divisor)
  {
  }

  predicate Legal(probabilities: seq<int>, divisor: nat) {
    forall k :: 0 <= k < |probabilities| ==> CanAppend(probabilities[..k], divisor, probabilities[k])
  }

  /** The group that crosses the random line. */
  function Chosen(probabilities: seq<int>, divisor: nat, random: nat): int {
    if probabilities == [] then NOT_PARTICIPATING
    else
      var n := |probabilities| - 1;
      var before := Chosen(probabilities[..n], divisor, random);
      if before == NOT_PARTICIPATING && Accumulated(probabilities, divisor) > random then n else before
  }

  lemma LegalPrefix(probabilities: seq<int>, divisor: nat, k: nat)
    requires Legal(probabilities, divisor) && k <= |probabilities|
    ensures Legal(probabilities[..k], divisor)
    ensures k < |probabilities| ==> CanAppend(probabilities[..k], divisor, probabilities[k])
  {
    forall j | 0 <= j < k
      ensures CanAppend(probabilities[..k][..j], divisor, probabilities[..k][j])
    {
      assert probabilities[..k][..j] == probabilities[..j];
    }
  }

  lemma {:induction false} AccumulatedIncreases(probabilities: seq<int>, divisor: nat, k: nat)
    requires Legal(probabilities, divisor) && k <= |probabilities|
    ensures 0 <= Accumulated(probabilities[..k], divisor) <= Accumulated(probabilities, divisor) <= divisor
    decreases |probabilities|
  {
    if probabilities != [] {
      var n := |probabilities| - 1;
      LegalPrefix(probabilities, divisor, n);
      AccumulatedIncreases(probabilities[..n], divisor, if k <= n then k else n);
      assert CanAppend(probabilities[..n], divisor, probabilities[n]);
      assert if k <= n then probabilities[..n][..k] == probabilities[..k] else probabilities[..k] == probabilities;
    }
  }

  /** The groups divide the random values into intervals, and a group is chosen exactly by
      those in its own. */
  lemma {:induction false} ChosenIsInterval(probabilities: seq<int>, divisor: nat, random: nat, k: nat)
    requires Legal(probabilities, divisor) && k < |probabilities|
    ensures Chosen(probabilities, divisor, random) == k <==>
            Accumulated(probabilities[..k], divisor) <= random < Accumulated(probabilities[..k + 1], divisor)
    decreases |probabilities|
  {
    var n := |probabilities| - 1;
    LegalPrefix(probabilities, divisor, n);
    NoneChosen(probabilities[..n], divisor, random);
    if k < n {
      ChosenIsInterval(probabilities[..n], divisor, random, k);
      assert probabilities[..n][..k] == probabilities[..k] && probabilities[..n][..k + 1] == probabilities[..k + 1];
      AccumulatedIncreases(probabilities[..n], divisor, k + 1);
    } else {
      assert probabilities[..k + 1] == probabilities;
      ChosenIsGroup(probabilities[..n], divisor, random);
    }
  }

  lemma {:induction false} ChosenIsGroup(probabilities: seq<int>, divisor: nat, random: nat)
    ensures NOT_PARTICIPATING <= Chosen(probabilities, divisor, random) < |probabilities|
  {
    if probabilities != [] {
      ChosenIsGroup(probabilities[..|probabilities| - 1], divisor, random);
    }
  }

  /** No group is chosen by the random values that are left over. */
  lemma {:induction false} NoneChosen(probabilities: seq<int>, divisor: nat, random: nat)
    requires Legal(probabilities, divisor)
    ensures Chosen(probabilities, divisor, random) == NOT_PARTICIPATING <==> Accumulated(probabilities, divisor) <= random
  {
    if probabilities != [] {
      var n := |probabilities| - 1;
      LegalPrefix(probabilities, divisor, n);
      NoneChosen(probabilities[..n], divisor, random);
      AccumulatedIncreases(probabilities, divisor, n);
    }
  }

  /** Once a group is chosen, later ones change nothing. */
  lemma {:induction false} ChosenForGood(probabilities: seq<int>, divisor: nat, random: nat, k: nat)
    requires k <= |probabilities| && Chosen(probabilities[..k], divisor, random) != NOT_PARTICIPATING
    ensures Chosen(probabilities, divisor, random) == Chosen(probabilities[..k], divisor, random)
    decreases |probabilities|
  {
    if k < |probabilities| {
      var n := |probabilities| - 1;
      assert probabilities[..n][..k] == probabilities[..k];
      ChosenForGood(probabilities[..n], divisor, random, k);
    } else {
      assert probabilities[..k] == probabilities;
    }
  }

  ghost function Interval(lo: nat, hi: nat): (values: set<nat>)
    requires lo <= hi
    ensures (forall r: nat :: r in values <==> lo <= r < hi) && |values| == hi - lo
  {
    if lo == hi then {} else Interval(lo, hi - 1) + {hi - 1}
  }

  ghost function ValuesChoosing(probabilities: seq<int>, divisor: nat, k: nat): set<nat> {
    set r: nat | r < divisor && Chosen(probabilities, divisor, r) == k
  }

  /** Of the divisor many random values, a group is chosen by exactly as many as its
      probability says; the group of all remaining probability by all that are left. */
  lemma ChosenByItsShare(probabilities: seq<int>, divisor: nat, k: nat)
    requires Legal(probabilities, divisor) && k < |probabilities|
    ensures |ValuesChoosing(probabilities, divisor, k)| ==
            if probabilities[k] == ALL_REMAINING_PROBABILITY then divisor - Accumulated(probabilities[..k], divisor)
            else probabilities[k]
  {
    var lo, hi := Accumulated(probabilities[..k], divisor), Accumulated(probabilities[..k + 1], divisor);
    AccumulatedIncreases(probabilities, divisor, k + 1);
    LegalPrefix(probabilities, divisor, k + 1);
    AccumulatedIncreases(probabilities[..k + 1], divisor, k);
    assert probabilities[..k + 1][..k] == probabilities[..k];
    forall r: nat
      ensures Chosen(probabilities, divisor, r) == k <==> lo <= r < hi
    {
      ChosenIsInterval(probabilities, divisor, r, k);
    }
    assert ValuesChoosing(probabilities, divisor, k) == Interval(lo, hi);
  }

  // ---------- Group names ----------

  function Digits(n: nat): (s: string)
    ensures s != [] && forall c :: c in s ==> '0' <= c <= '9'
  {
    (if n < 10 then [] else Digits(n / 10)) + [('0' as int + n % 10) as char]
  }

  /** What decimal digits stand for. */
  function DigitsValue(s: string): int {
    if s == "" then 0 else 10 * DigitsValue(s[..|s| - 1]) + (s[|s| - 1] as int - '0' as int)
  }

  lemma {:induction false} DigitsSpell(n: nat)
    ensures DigitsValue(Digits(n)) == n && (Digits(n)[0] == '0' ==> n == 0)
  {
    var s := Digits(n);
    if n >= 10 {
      DigitsSpell(n / 10);
      assert s[..|s| - 1] == Digits(n / 10);
    } else {
      assert s[..|s| - 1] == "";
    }
  }

  /** A group that was given no name is called by its number. */
  function GroupName(names: seq<string>, group: int): (s: string)
    requires NOT_PARTICIPATING <= group < |names|
    ensures s == "" <==> group == NOT_PARTICIPATING
  {
    if group == NOT_PARTICIPATING then ""
    else if names[group] == "" then "_" + Digits(group)
    else names[group]
  }

  // ---------- The trial ----------

  class FieldTrial {
    const name: string
    const divisor: nat
    const random: nat
    var accumulatedGroupProbability: int
    var nextGroupNumber: nat
    var group: int
    var groupName: string
    ghost var probabilities: seq<int>  // of the groups appended so far
    ghost var names: seq<string>       // given to them

    ghost predicate Valid()
      reads this
    {
      && Legal(probabilities, divisor) && |names| == |probabilities| == nextGroupNumber
      && accumulatedGroupProbability == Accumulated(probabilities, divisor)
      && group == Chosen(probabilities, divisor, random)
      && NOT_PARTICIPATING <= group < nextGroupNumber && groupName == GroupName(names, group)
    }

    /** The random value is one below the total probability, if there is any. */
    constructor (name: string, totalProbability: nat, random: nat)
      requires random < totalProbability || random == totalProbability == 0
      ensures Valid() && probabilities == [] && this.name == name && divisor == totalProbability && this.random == random
      ensures group == NOT_PARTICIPATING && groupName == ""
    {
      this.name, divisor, this.random := name, totalProbability, random;
      accumulatedGroupProbability, nextGroupNumber, group, groupName := 0, 0, NOT_PARTICIPATING, "";
      probabilities, names := [], [];
    }

    method AppendGroup(name: string, groupProbability: int) returns (number: nat)
      requires Valid() && CanAppend(probabilities, divisor, groupProbability)
      modifies this
      ensures Valid() && probabilities == old(probabilities) + [groupProbability] && names == old(names) + [name]
      ensures number == old(|probabilities|)
      ensures old(group) != NOT_PARTICIPATING ==> group == old(group) && groupName == old(groupName)
      ensures random < divisor && groupProbability in {divisor, ALL_REMAINING_PROBABILITY} ==> group != NOT_PARTICIPATING
    {
      hide Legal, Digits, Chosen, Accumulated, GroupName;
      AppendIsLegal(probabilities, divisor, groupProbability);
      AppendMoves(probabilities, groupProbability, divisor, random);
      AppendNames(names, name, group);
      probabilities, names := probabilities + [groupProbability], names + [name];
      if groupProbability == ALL_REMAINING_PROBABILITY {
        accumulatedGroupProbability := divisor;
      } else {
        accumulatedGroupProbability := accumulatedGroupProbability + groupProbability;
      }
      if group == NOT_PARTICIPATING && accumulatedGroupProbability > random {
        group := nextGroupNumber;
        if name == "" {
          groupName := groupName + "_" + Digits(group);
        } else {
          groupName := name;
        }
      }
      number := nextGroupNumber;
      nextGroupNumber := nextGroupNumber + 1;
    }
  }

  lemma AppendMoves(before: seq<int>, probability: int, divisor: nat, random: nat)
    requires Legal(before, divisor)
    ensures var after := before + [probability]; var sum := Accumulated(after, divisor);
            && Accumulated(before, divisor) <= divisor
            && sum == (if probability == ALL_REMAINING_PROBABILITY then divisor else Accumulated(before, divisor) + probability)
            && Chosen(after, divisor, random) ==
               if Chosen(before, divisor, random) == NOT_PARTICIPATING && sum > random then |before|
               else Chosen(before, divisor, random)
    ensures Accumulated(before, divisor) >= 0
  {
    hide Legal;
    AccumulatedIncreases(before, divisor, |before|);
    assert (before + [probability])[..|before|] == before && before[..|before|] == before;
  }

  lemma AppendNames(names: seq<string>, name: string, group: int)
    requires NOT_PARTICIPATING <= group < |names|
    ensures GroupName(names + [name], group) == GroupName(names, group)
    ensures GroupName(names + [name], |names|) == if name == "" then "_" + Digits(|names|) else name
    ensures group == NOT_PARTICIPATING ==> GroupName(names, group) == ""
  {
    hide Digits;
  }

  lemma AppendIsLegal(probabilities: seq<int>, divisor: nat, probability: int)
    requires Legal(probabilities, divisor) && CanAppend(probabilities, divisor, probability)
    ensures Legal(probabilities + [probability], divisor)
  {
    var more := probabilities + [probability];
    forall k | 0 <= k < |more|
      ensures CanAppend(more[..k], divisor, more[k])
    {
      assert more[..k] == if k < |probabilities| then probabilities[..k] else probabilities;
    }
  }
}
