/** Which annotations of an object are copied to the objects made for it. */
module Annotations {

  predicate HasPrefix(s: string, prefix: string) { prefix <= s }

  predicate Excludes(rule: string) { HasPrefix(rule, "-") }

  function TrimMinus(rule: string): string {
    if Excludes(rule) then rule[1..] else rule
  }

  predicate MatchesRule(rule: string, key: string, includeAll: bool) {
    if Excludes(rule) then HasPrefix(key, TrimMinus(rule)) else includeAll || HasPrefix(key, rule)
  }

  /** Some rule matches the key, and the last one that does is not an exclusion. */
  ghost predicate LastMatchIncludes(rules: seq<string>, key: string, includeAll: bool) {
    exists i | 0 <= i < |rules| && MatchesRule(rules[i], key, includeAll) && !Excludes(rules[i]) ::
      forall j | i < j < |rules| :: !MatchesRule(rules[j], key, includeAll)
  }

  ghost function Chosen(annotations: map<string, string>, rules: seq<string>, includeAll: bool): map<string, string> {
    map key | key in annotations && LastMatchIncludes(rules, key, includeAll) :: annotations[key]
  }

  ghost function Copied(annotations: map<string, string>, rules: seq<string>): map<string, string> {
    Chosen(annotations, rules, "*" in rules)
  }

  /** One more rule overrides those before it exactly on the keys that it matches. */
  lemma NextRule(rules: seq<string>, rule: string, key: string, includeAll: bool)
    ensures LastMatchIncludes(rules + [rule], key, includeAll) <==>
            if MatchesRule(rule, key, includeAll) then !Excludes(rule) else LastMatchIncludes(rules, key, includeAll)
  {
    hide MatchesRule, Excludes;
    var all := rules + [rule];
    assert all[|rules|] == rule;
    assert forall i | 0 <= i < |rules| :: all[i] == rules[i];
    if MatchesRule(rule, key, includeAll) {
      if LastMatchIncludes(all, key, includeAll) {
        var i :| 0 <= i < |all| && MatchesRule(all[i], key, includeAll) && !Excludes(all[i]) &&
          forall j | i < j < |all| :: !MatchesRule(all[j], key, includeAll);
        assert i == |rules|;
      }
    } else if LastMatchIncludes(rules, key, includeAll) {
      var i :| 0 <= i < |rules| && MatchesRule(rules[i], key, includeAll) && !Excludes(rules[i]) &&
        forall j | i < j < |rules| :: !MatchesRule(rules[j], key, includeAll);
      assert MatchesRule(all[i], key, includeAll) && !Excludes(all[i]);
      assert forall j | i < j < |all| :: !MatchesRule(all[j], key, includeAll);
    }
  }

  /** The keys of the map are visited in an arbitrary order for each rule. */
  method BuildAnnotationsToCopy(annotations: map<string, string>, rules: seq<string>)
    returns (filtered: map<string, string>)
    ensures filtered == Copied(annotations, rules)
  {
    hide MatchesRule, LastMatchIncludes;
    filtered := map[];
    var includeAll := false;
    for i := 0 to |rules|
      invariant includeAll <==> "*" in rules[..i]
    {
      if rules[i] == "*" {
        includeAll := true;
      }
    }
    assert rules[..|rules|] == rules;
    NoRules(annotations, includeAll);
    for i := 0 to |rules|
      invariant filtered == Chosen(annotations, rules[..i], includeAll)
    {
      filtered := ApplyRule(annotations, rules[..i], rules[i], includeAll, filtered);
      assert rules[..i + 1] == rules[..i] + [rules[i]];
    }
  }

  lemma NoRules(annotations: map<string, string>, includeAll: bool)
    ensures Chosen(annotations, [], includeAll) == map[]
  {
    assert Chosen(annotations, [], includeAll).Keys == {};
  }

  /** The inner loop, for one rule. */
  method ApplyRule(annotations: map<string, string>, ghost before: seq<string>, rule: string, includeAll: bool,
                   start: map<string, string>) returns (filtered: map<string, string>)
    requires start == Chosen(annotations, before, includeAll)
    ensures filtered == Chosen(annotations, before + [rule], includeAll)
  {
    hide LastMatchIncludes;
    filtered := start;
    var prefix := TrimMinus(rule);
    var todo := annotations.Keys;
    while todo != {}
      invariant todo <= annotations.Keys
      invariant filtered == map key | key in annotations &&
                            LastMatchIncludes(if key in todo then before else before + [rule], key, includeAll) ::
                            annotations[key]
    {
      var k :| k in todo;
      NextRule(before, rule, k, includeAll);
      if Excludes(rule) {
        if HasPrefix(k, prefix) {
          filtered := filtered - {k};
        }
      } else if includeAll || HasPrefix(k, rule) {
        filtered := filtered[k := annotations[k]];
      }
      todo := todo - {k};
    }
  }

  // ----- What the last rule of a list does

  lemma RuleMeans(p: string, key: string, includeAll: bool)
    ensures Excludes("-" + p) && (MatchesRule("-" + p, key, includeAll) <==> p <= key)
    ensures !("-" <= p) ==> !Excludes(p) && (MatchesRule(p, key, includeAll) <==> includeAll || p <= key)
  {
    assert ("-" + p)[1..] == p;
  }

  /** `-p` takes away every key that begins with p. */
  lemma ExcludeLast(annotations: map<string, string>, rules: seq<string>, p: string)
    ensures Copied(annotations, rules + ["-" + p]) ==
            map key | key in Copied(annotations, rules) && !(p <= key) :: annotations[key]
  {
    hide MatchesRule, Excludes, LastMatchIncludes;
    assert "-" + p != "*" by { assert ("-" + p)[0] == '-'; }
    forall key
      ensures LastMatchIncludes(rules + ["-" + p], key, "*" in rules) <==>
              !(p <= key) && LastMatchIncludes(rules, key, "*" in rules)
    {
      NextRule(rules, "-" + p, key, "*" in rules);
      RuleMeans(p, key, "*" in rules);
    }
  }

  /** `p` adds every key that begins with p, and every key at all if `*` is among the rules. */
  lemma IncludeLast(annotations: map<string, string>, rules: seq<string>, p: string)
    requires !("-" <= p) && p != "*"
    ensures Copied(annotations, rules + [p]) ==
            map key | key in annotations && ("*" in rules || p <= key || key in Copied(annotations, rules)) :: annotations[key]
  {
    hide MatchesRule, Excludes, LastMatchIncludes;
    forall key
      ensures LastMatchIncludes(rules + [p], key, "*" in rules) <==>
              "*" in rules || p <= key || LastMatchIncludes(rules, key, "*" in rules)
    {
      NextRule(rules, p, key, "*" in rules);
      RuleMeans(p, key, "*" in rules);
    }
  }

  /** `*` adds everything. */
  lemma StarLast(annotations: map<string, string>, rules: seq<string>)
    ensures Copied(annotations, rules + ["*"]) == annotations
  {
    hide MatchesRule, Excludes, LastMatchIncludes;
    assert !("-" <= "*") by { assert "*"[0] != "-"[0]; }
    forall key
      ensures LastMatchIncludes(rules + ["*"], key, true)
    {
      NextRule(rules, "*", key, true);
      RuleMeans("*", key, true);
    }
    assert "*" in rules + ["*"];
  }
}
