/** Ordered substring classification: a list of rules, each a set of
    alternative patterns and an outcome, where the first rule any of whose
    patterns occurs in the text decides. Both the Git error translator and the
    generative-API error handler are chains of this shape. */
module Rules {
  import opened Outcomes
  import opened Strings

  datatype Rule<T> = Rule(patterns: seq<string>, outcome: T)

  /** Some pattern of `patterns` occurs in `text`. */
  predicate MentionsAny(text: string, patterns: seq<string>)
  {
    |patterns| > 0 && (Contains(text, patterns[0]) || MentionsAny(text, patterns[1..]))
  }

  /** The outcome of the first rule that fires on `text`, if any. */
  function FirstMatch<T>(text: string, rules: seq<Rule<T>>): (r: Option<T>)
    ensures r.None? <==> forall i :: 0 <= i < |rules| ==> !MentionsAny(text, rules[i].patterns)
    ensures r.Some? ==>
              exists i :: 0 <= i < |rules|
                          && MentionsAny(text, rules[i].patterns)
                          && r.value == rules[i].outcome
                          && forall j :: 0 <= j < i ==> !MentionsAny(text, rules[j].patterns)
  {
    if |rules| == 0 then None
    else if MentionsAny(text, rules[0].patterns) then Some(rules[0].outcome)
    else
      var r := FirstMatch(text, rules[1..]);
      assert forall i :: 1 <= i < |rules| ==> rules[1..][i - 1] == rules[i];
      r
  }

  /** Walking a rule table one rule at a time: rule `i` decides if it fires,
      and otherwise the rest of the table does. */
  lemma FirstMatchStep<T>(text: string, rules: seq<Rule<T>>, i: nat)
    requires i < |rules|
    ensures FirstMatch(text, rules[i..])
            == if MentionsAny(text, rules[i].patterns) then Some(rules[i].outcome)
               else FirstMatch(text, rules[i + 1..])
  {
    assert rules[i..][1..] == rules[i + 1..];
  }

  /** A table of six rules, unrolled into its chain of tests. */
  lemma SixRules<T>(text: string, rules: seq<Rule<T>>)
    requires |rules| == 6
    ensures FirstMatch(text, rules)
            == if MentionsAny(text, rules[0].patterns) then Some(rules[0].outcome)
               else if MentionsAny(text, rules[1].patterns) then Some(rules[1].outcome)
               else if MentionsAny(text, rules[2].patterns) then Some(rules[2].outcome)
               else if MentionsAny(text, rules[3].patterns) then Some(rules[3].outcome)
               else if MentionsAny(text, rules[4].patterns) then Some(rules[4].outcome)
               else if MentionsAny(text, rules[5].patterns) then Some(rules[5].outcome)
               else None
  {
    assert rules[0..] == rules;
    FirstMatchStep(text, rules, 0);
    FirstMatchStep(text, rules, 1);
    FirstMatchStep(text, rules, 2);
    FirstMatchStep(text, rules, 3);
    FirstMatchStep(text, rules, 4);
    FirstMatchStep(text, rules, 5);
    assert rules[6..] == [];
  }

  /** A one-pattern rule fires exactly when its pattern occurs. */
  lemma MentionsOne(text: string, a: string)
    ensures MentionsAny(text, [a]) <==> Contains(text, a)
  {
    assert [a][1..] == [];
  }

  /** A two-pattern rule fires exactly when either pattern occurs. */
  lemma MentionsTwo(text: string, a: string, b: string)
    ensures MentionsAny(text, [a, b]) <==> Contains(text, a) || Contains(text, b)
  {
    assert [a, b][1..] == [b];
    MentionsOne(text, b);
  }
}
