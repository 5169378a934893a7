/** The earlier rule compiler (src/lib/dnr-utils.ts): the same skip rules as
    the current one, but no grouping (every header row becomes one APPEND)
    and the opposite priority convention, so later profiles win. */
module LegacyDnrUtils {
  import opened Types
  import opened Dnr
  import opened ProfileSelection

  /** `headers.map(...)`: one APPEND per row, name and value verbatim. */
  function AppendOps(headers: seq<Header>): (ops: seq<ModifyHeaderInfo>)
  {
    seq(|headers|, i requires 0 <= i < |headers| => ModifyHeaderInfo(headers[i].name, Append, headers[i].value))
  }

  /** The operations are the header rows, one for one and in order: same
      count, each name and value copied, every operation an APPEND. */
  lemma AppendOpsCopyHeaders(headers: seq<Header>)
    ensures |AppendOps(headers)| == |headers|
    ensures forall i :: 0 <= i < |headers| ==>
      && AppendOps(headers)[i].header == headers[i].name
      && AppendOps(headers)[i].value == headers[i].value
      && AppendOps(headers)[i].operation == Append
  {
  }

  /** The rule built from `profiles[index]` with rule id `id`. */
  function RuleFor(profiles: seq<Profile>, index: nat, id: int): Rule
    requires index < |profiles|
  {
    var p := profiles[index];
    Rule(id, index + 1,
      RuleAction(ModifyHeaders, AppendOps(p.headers)),
      RuleCondition(p.urlRegex, ALL_RESOURCE_TYPES))
  }

  /** The rule list for `profiles`: the `j`-th rule comes from the `j`-th
      profile that yields a rule and has id `j + 1`. */
  function Rules(profiles: seq<Profile>): seq<Rule>
  {
    var idx := RetainedIndices(profiles);
    seq(|idx|, j requires 0 <= j < |idx| => RuleFor(profiles, idx[j], j + 1))
  }

  /** The rule list read at one position. */
  lemma RuleAt(profiles: seq<Profile>, j: nat)
    requires j < |RetainedIndices(profiles)|
    ensures |Rules(profiles)| == |RetainedIndices(profiles)|
    ensures RetainedIndices(profiles)[j] < |profiles|
    ensures Rules(profiles)[j] == RuleFor(profiles, RetainedIndices(profiles)[j], j + 1)
  {
  }

  /** A list holding, at each position `j`, the rule of the `j`-th retained
      profile with id `j + 1` is the rule list. */
  lemma RulesFromRetained(profiles: seq<Profile>, rules: seq<Rule>)
    requires |rules| == |RetainedBelow(profiles, |profiles|)|
    requires forall j :: 0 <= j < |rules| ==>
      rules[j] == RuleFor(profiles, RetainedBelow(profiles, |profiles|)[j], j + 1)
    ensures rules == Rules(profiles)
  {
    forall j | 0 <= j < |rules| ensures rules[j] == Rules(profiles)[j] {
      RuleAt(profiles, j);
    }
  }

  /** Compiles the profile list: skipped profiles consume no rule id, and a
      rule's priority is its profile's position plus one. */
  method GenerateRulesFromProfiles(profiles: seq<Profile>) returns (rules: seq<Rule>)
    ensures rules == Rules(profiles)
  {
    rules := [];
    var ruleId := 1;
    for index := 0 to |profiles|
      invariant |rules| == |RetainedBelow(profiles, index)|
      invariant ruleId == |rules| + 1
      invariant forall j :: 0 <= j < |rules| ==>
        rules[j] == RuleFor(profiles, RetainedBelow(profiles, index)[j], j + 1)
    {
      var profile := profiles[index];
      RetainedBelowStep(profiles, index);
      if !profile.enabled { continue; }
      if profile.urlRegex == "" { continue; }
      if |profile.headers| == 0 { continue; }

      var requestHeaders := AppendOps(profile.headers);
      var rule := Rule(ruleId, index + 1,
        RuleAction(ModifyHeaders, requestHeaders),
        RuleCondition(profile.urlRegex, ALL_RESOURCE_TYPES));
      ruleId := ruleId + 1;
      rules := rules + [rule];
    }
    RulesFromRetained(profiles, rules);
  }

  // ---------------------------------------------------------------------
  // Properties of the rule list

  /** No profiles, no rules. */
  lemma NoProfilesNoRules()
    ensures Rules([]) == []
  {
  }

  /** The profile at position `i` yields a rule, the one with priority
      `i + 1`, exactly when it passes the skip rules; there are at most as
      many rules as profiles. */
  lemma RuleIffProfileEmits(profiles: seq<Profile>)
    ensures |Rules(profiles)| <= |profiles|
    ensures forall i :: 0 <= i < |profiles| ==>
      (Emits(profiles[i]) <==> exists j :: 0 <= j < |Rules(profiles)| && Rules(profiles)[j].priority == i + 1)
  {
    var idx := RetainedIndices(profiles);
    RetainedIndicesSpec(profiles);
    PrioritiesFavourLaterProfiles(profiles);
    forall i | 0 <= i < |profiles|
      ensures Emits(profiles[i]) <==> exists j :: 0 <= j < |Rules(profiles)| && Rules(profiles)[j].priority == i + 1
    {
      if Emits(profiles[i]) {
        var j :| 0 <= j < |idx| && idx[j] == i;
        assert Rules(profiles)[j].priority == i + 1;
      }
    }
  }

  /** Rule ids are 1, 2, ..., k in output order. */
  lemma RuleIdsAreContiguous(profiles: seq<Profile>)
    ensures forall j :: 0 <= j < |Rules(profiles)| ==> Rules(profiles)[j].id == j + 1
  {
  }

  /** Each rule's priority is its profile's position plus one: it lies in
      1..|profiles|, and later rules have strictly higher priorities. */
  lemma PrioritiesFavourLaterProfiles(profiles: seq<Profile>)
    ensures forall j :: 0 <= j < |Rules(profiles)| ==>
      Rules(profiles)[j].priority == RetainedIndices(profiles)[j] + 1
      && 1 <= Rules(profiles)[j].priority <= |profiles|
    ensures forall a, b :: 0 <= a < b < |Rules(profiles)| ==>
      Rules(profiles)[a].priority < Rules(profiles)[b].priority
  {
    var idx := RetainedIndices(profiles);
    RetainedBelowSpec(profiles, |profiles|);
    assert StrictlyIncreasing(idx);
  }

  /** A rule matches its profile's pattern verbatim on every resource type,
      modifies headers, and carries one APPEND per header row of the profile. */
  lemma RuleCopiesProfile(profiles: seq<Profile>)
    ensures forall j :: 0 <= j < |Rules(profiles)| ==>
      var p := profiles[RetainedIndices(profiles)[j]];
      && Rules(profiles)[j].condition.regexFilter == p.urlRegex
      && Rules(profiles)[j].condition.resourceTypes == ALL_RESOURCE_TYPES
      && Rules(profiles)[j].action.actionType == ModifyHeaders
      && Rules(profiles)[j].action.requestHeaders == AppendOps(p.headers)
      && |Rules(profiles)[j].action.requestHeaders| == |p.headers| > 0
  {
    var idx := RetainedIndices(profiles);
    RetainedBelowSpec(profiles, |profiles|);
    forall j | 0 <= j < |Rules(profiles)|
      ensures var p := profiles[idx[j]];
        && Rules(profiles)[j].condition.regexFilter == p.urlRegex
        && Rules(profiles)[j].condition.resourceTypes == ALL_RESOURCE_TYPES
        && Rules(profiles)[j].action.actionType == ModifyHeaders
        && Rules(profiles)[j].action.requestHeaders == AppendOps(p.headers)
        && |Rules(profiles)[j].action.requestHeaders| == |p.headers| > 0
    {
      RuleAt(profiles, j);
      assert idx[j] in idx;
    }
  }

  // ---------------------------------------------------------------------
  // Worked examples

  /** A disabled profile and a profile without header rows yield nothing. */
  lemma SkippedProfilesExample()
    ensures Rules([Profile("1", "Test", ".*", [Header("h1", "X-Test", "1")], false)]) == []
    ensures Rules([Profile("1", "Test", ".*", [], true)]) == []
  {
  }

  /** One enabled profile with one header: one rule, id 1, priority 1, the
      pattern verbatim and a single APPEND. */
  lemma SingleProfileExample()
    ensures var p := Profile("1", "Test", "example.com", [Header("h1", "X-Test", "123")], true);
      Rules([p]) == [Rule(1, 1,
        RuleAction(ModifyHeaders, [ModifyHeaderInfo("X-Test", Append, "123")]),
        RuleCondition("example.com", ALL_RESOURCE_TYPES))]
  {
    var p := Profile("1", "Test", "example.com", [Header("h1", "X-Test", "123")], true);
    assert RetainedIndices([p]) == [0];
    RuleAt([p], 0);
    assert AppendOps(p.headers) == [ModifyHeaderInfo("X-Test", Append, "123")];
  }

  /** Two enabled profiles: the second listed gets the higher priority. */
  lemma TwoProfilesExample()
    ensures var ps := [
        Profile("1", "First", ".*", [Header("h1", "A", "1")], true),
        Profile("2", "Second", ".*", [Header("h2", "B", "2")], true)];
      && |Rules(ps)| == 2
      && Rules(ps)[0].priority == 1 && Rules(ps)[0].action.requestHeaders[0].header == "A"
      && Rules(ps)[1].priority == 2 && Rules(ps)[1].action.requestHeaders[0].header == "B"
  {
    var ps := [
      Profile("1", "First", ".*", [Header("h1", "A", "1")], true),
      Profile("2", "Second", ".*", [Header("h2", "B", "2")], true)];
    assert RetainedBelow(ps, 1) == [0];
    assert RetainedIndices(ps) == [0, 1];
    RuleAt(ps, 0);
    RuleAt(ps, 1);
  }
}
