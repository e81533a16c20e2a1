/**
 * The settings screen: a local copy of the store's policy that the user edits
 * (switching categories on and off, stepping the fuzzing radius by 100 m
 * between 100 m and 1 km) and then saves back into the store, or resets to the
 * defaults.
 */
module SettingsScreen {
  import opened Wrappers
  import opened Strings
  import opened Store

  /** The text categories the screen offers a switch for. */
  const AvailableTextRules: seq<string> := ["EMAIL", "PHONE", "ADDRESS", "NAME", "ID", "CARD", "GPS"]
  /** The image categories the screen offers a switch for. */
  const AvailableImageRules: seq<string> := ["FACE", "PLATE", "DOCUMENT", "SIGNATURE", "QR_CODE"]

  const MinRadius: int := 100
  const MaxRadius: int := 1000
  const RadiusStep: int := 100

  /** `rules.filter(r => r !== rule)`: every occurrence of `rule` removed. */
  function Without(rules: seq<string>, rule: string): (r: seq<string>)
    ensures rule !in r
    ensures forall x | x != rule :: multiset(r)[x] == multiset(rules)[x]
    ensures |r| <= |rules|
    decreases |rules|
  {
    if rules == [] then []
    else
      var rest := Without(rules[1..], rule);
      assert rules == [rules[0]] + rules[1..];
      if rules[0] == rule then rest else [rules[0]] + rest
  }

  /** Filtering distributes over concatenation, so the kept rules stay in their order. */
  lemma {:induction false} WithoutConcat(a: seq<string>, b: seq<string>, rule: string)
    ensures Without(a + b, rule) == Without(a, rule) + Without(b, rule)
    decreases |a|
  {
    if a != [] {
      assert (a + b)[1..] == a[1..] + b;
      WithoutConcat(a[1..], b, rule);
    } else {
      assert a + b == b;
    }
  }

  /** A list without `rule` is left as it is. */
  lemma {:induction false} WithoutAbsent(rules: seq<string>, rule: string)
    requires rule !in rules
    ensures Without(rules, rule) == rules
    decreases |rules|
  {
    if rules != [] {
      WithoutAbsent(rules[1..], rule);
    }
  }

  /** A switch: an enabled rule is removed, a disabled one is appended. */
  function Toggle(rules: seq<string>, rule: string): (r: seq<string>)
    ensures rule in r <==> rule !in rules
    ensures forall x | x != rule :: multiset(r)[x] == multiset(rules)[x]
  {
    if rule in rules then Without(rules, rule) else rules + [rule]
  }

  /** Toggling keeps a list free of duplicates. */
  lemma ToggleKeepsDistinct(rules: seq<string>, rule: string)
    requires NoDuplicates(rules)
    ensures NoDuplicates(Toggle(rules, rule))
  {
    var r := Toggle(rules, rule);
    forall x ensures multiset(r)[x] <= 1 {
      AtMostOnce(rules, x);
      if rule !in rules {
        assert multiset(r) == multiset(rules) + multiset{rule};
      }
    }
    DistinctByCount(r);
  }

  lemma DistinctByCount(xs: seq<string>)
    requires forall x :: multiset(xs)[x] <= 1
    ensures NoDuplicates(xs)
  {
    forall i, j | 0 <= i < j < |xs| ensures xs[i] != xs[j] {
      assert xs == xs[..i] + [xs[i]] + xs[i + 1..j] + [xs[j]] + xs[j + 1..];
      var m := multiset(xs);
      assert m == multiset(xs[..i]) + multiset{xs[i]} + multiset(xs[i + 1..j]) + multiset{xs[j]}
                  + multiset(xs[j + 1..]);
      assert m[xs[i]] >= multiset{xs[i]}[xs[i]] + multiset{xs[j]}[xs[i]];
    }
  }

  lemma {:induction false} AtMostOnce(xs: seq<string>, x: string)
    requires NoDuplicates(xs)
    ensures multiset(xs)[x] <= 1
    decreases |xs|
  {
    if xs != [] {
      assert xs == [xs[0]] + xs[1..];
      AtMostOnce(xs[1..], x);
      if xs[0] == x {
        assert x !in xs[1..];
      }
    }
  }

  /** Switching a rule on and off again gives back the list; switching an enabled rule
      off and on again moves it to the end. */
  lemma ToggleTwice(rules: seq<string>, rule: string)
    ensures rule !in rules ==> Toggle(Toggle(rules, rule), rule) == rules
    ensures rule in rules ==> Toggle(Toggle(rules, rule), rule) == Without(rules, rule) + [rule]
  {
    if rule !in rules {
      WithoutConcat(rules, [rule], rule);
      WithoutAbsent(rules, rule);
    }
  }

  /** The "-" button: 100 m less, but never below 100 m. */
  function RadiusDown(radius: int): (r: int)
    ensures r >= MinRadius
    ensures radius - RadiusStep <= r <= if radius > MinRadius then radius else MinRadius
  {
    if radius - RadiusStep > MinRadius then radius - RadiusStep else MinRadius
  }

  /** The "+" button: 100 m more, but never above 1 km. */
  function RadiusUp(radius: int): (r: int)
    ensures r <= MaxRadius
    ensures (if radius < MaxRadius then radius else MaxRadius) <= r <= radius + RadiusStep
  {
    if radius + RadiusStep < MaxRadius then radius + RadiusStep else MaxRadius
  }

  /** Both buttons keep a radius inside [100 m, 1 km], and away from the ends they undo each other. */
  lemma RadiusButtons(radius: int)
    ensures MinRadius <= radius <= MaxRadius ==>
      MinRadius <= RadiusDown(radius) <= MaxRadius && MinRadius <= RadiusUp(radius) <= MaxRadius
    ensures MinRadius + RadiusStep <= radius <= MaxRadius ==> RadiusUp(RadiusDown(radius)) == radius
    ensures MinRadius <= radius <= MaxRadius - RadiusStep ==> RadiusDown(RadiusUp(radius)) == radius
  {
  }

  /** Every category on by default has a switch; GPS has one but is off by default. */
  lemma DefaultsOffered()
    ensures forall r | r in DefaultTextRules :: r in AvailableTextRules
    ensures forall r | r in DefaultImageRules :: r in AvailableImageRules
    ensures "GPS" in AvailableTextRules && "GPS" !in DefaultTextRules
  {
  }

  /** The screen's local copy of the policy, edited until saved. */
  class Settings {
    const store: AppStore
    var localTextRules: seq<string>
    var localImageRules: seq<string>
    var localRadius: int

    /** The local radius is one the slider can show. */
    predicate RadiusInRange()
      reads this
    {
      MinRadius <= localRadius <= MaxRadius
    }

    /** The screen opens on the store's current policy. */
    constructor (store: AppStore)
      ensures this.store == store
      ensures localTextRules == store.textRules && localImageRules == store.imageRules
      ensures localRadius == store.locationFuzzRadius
    {
      this.store := store;
      localTextRules := store.textRules;
      localImageRules := store.imageRules;
      localRadius := store.locationFuzzRadius;
    }

    method HandleTextRuleToggle(rule: string)
      modifies this
      ensures localTextRules == Toggle(old(localTextRules), rule)
      ensures localImageRules == old(localImageRules) && localRadius == old(localRadius)
    {
      localTextRules := Toggle(localTextRules, rule);
    }

    method HandleImageRuleToggle(rule: string)
      modifies this
      ensures localImageRules == Toggle(old(localImageRules), rule)
      ensures localTextRules == old(localTextRules) && localRadius == old(localRadius)
    {
      localImageRules := Toggle(localImageRules, rule);
    }

    method DecreaseRadius()
      modifies this
      ensures localRadius == RadiusDown(old(localRadius))
      ensures old(RadiusInRange()) ==> RadiusInRange()
      ensures localTextRules == old(localTextRules) && localImageRules == old(localImageRules)
    {
      RadiusButtons(localRadius);
      localRadius := RadiusDown(localRadius);
    }

    method IncreaseRadius()
      modifies this
      ensures localRadius == RadiusUp(old(localRadius))
      ensures old(RadiusInRange()) ==> RadiusInRange()
      ensures localTextRules == old(localTextRules) && localImageRules == old(localImageRules)
    {
      RadiusButtons(localRadius);
      localRadius := RadiusUp(localRadius);
    }

    /** "Reset" in the confirmation dialog puts the defaults back into the local copy
        only; "Cancel" changes nothing. The store keeps its policy until a save. */
    method HandleReset(confirmed: bool)
      modifies this
      ensures confirmed ==> localTextRules == DefaultTextRules && localImageRules == DefaultImageRules
                            && localRadius == DefaultFuzzRadius
      ensures !confirmed ==> localTextRules == old(localTextRules) && localImageRules == old(localImageRules)
                             && localRadius == old(localRadius)
    {
      if confirmed {
        localTextRules := DefaultTextRules;
        localImageRules := DefaultImageRules;
        localRadius := DefaultFuzzRadius;
      }
    }

    /** Saving writes the local policy into the store and clears its error. */
    method HandleSave()
      modifies store
      ensures store.textRules == localTextRules && store.imageRules == localImageRules
      ensures store.locationFuzzRadius == localRadius
      ensures store.error.None? && store.isLoading == old(store.isLoading)
    {
      store.SetTextRules(localTextRules);
      store.SetImageRules(localImageRules);
      store.SetLocationFuzzRadius(localRadius);
      store.SetError(None);
    }
  }
}
