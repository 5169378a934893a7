/** The current rule compiler (utils/dnr-utils.ts): every profile that is
    enabled, has a URL pattern and has header rows becomes one
    modify-headers rule; ids count the emitted rules from 1 and earlier
    profiles get higher priorities. */
module DnrUtils {
  import opened Types
  import opened Dnr
  import opened Text
  import opened ProfileSelection
  import opened HeaderGroups

  /** The rule built from `profiles[index]` with rule id `id`. */
  function RuleFor(profiles: seq<Profile>, index: nat, id: int): Rule
    requires index < |profiles|
  {
    var p := profiles[index];
    Rule(id, |profiles| - index,
      RuleAction(ModifyHeaders, RequestHeaders(p.headers)),
      RuleCondition(p.urlRegex, ALL_RESOURCE_TYPES))
  }

  /** The rule list for `profiles`: the `j`-th rule comes from the `j`-th
      profile that yields a rule and has id `j + 1`. */
  function Rules(profiles: seq<Profile>): seq<Rule>
  {
    var idx := RetainedIndices(profiles);
    seq(|idx|, j requires 0 <= j < |idx| => RuleFor(profiles, idx[j], j + 1))
  }

  /** The rule list read at one position. */
  lemma RuleAt(profiles: seq<Profile>, j: nat)
    requires j < |RetainedIndices(profiles)|
    ensures |Rules(profiles)| == |RetainedIndices(profiles)|
    ensures RetainedIndices(profiles)[j] < |profiles|
    ensures Rules(profiles)[j] == RuleFor(profiles, RetainedIndices(profiles)[j], j + 1)
  {
  }

  /** Groups header rows in a map keyed by lower-cased name; `order` holds
      the map's insertion order, which is the order its groups are visited. */
  method GroupHeaders(headers: seq<Header>) returns (order: seq<string>, headerGroups: map<string, seq<string>>)
    ensures order == GroupKeys(headers)
    ensures forall k :: k in headerGroups <==> k in order
    ensures forall k :: k in headerGroups ==> headerGroups[k] == GroupValues(headers, k)
  {
    order := [];
    headerGroups := map[];
    var i := 0;
    while i < |headers|
      invariant 0 <= i <= |headers|
      invariant order == GroupKeys(headers[..i])
      invariant forall k :: k in headerGroups <==> k in order
      invariant forall k :: k in headerGroups ==> headerGroups[k] == GroupValues(headers[..i], k)
    {
      var h := headers[i];
      var lowerName := ToLower(h.name);
      assert headers[..i + 1] == headers[..i] + [h];
      if lowerName !in headerGroups {
        GroupKeysAreTheDistinctNames(headers[..i]);
        GroupValuesStartAtFirstOccurrence(headers[..i], lowerName);
        headerGroups := headerGroups[lowerName := []];
        order := order + [lowerName];
      }
      headerGroups := headerGroups[lowerName := headerGroups[lowerName] + [h.value]];
      i := i + 1;
    }
    assert headers[..|headers|] == headers;
  }

  /** Pushes one operation per value under `name`: SET for the first value,
      APPEND for every later one. */
  method PushNativeOps(requestHeaders: seq<ModifyHeaderInfo>, name: string, values: seq<string>)
    returns (pushed: seq<ModifyHeaderInfo>)
    ensures pushed == requestHeaders + NativeOps(name, values)
  {
    pushed := requestHeaders;
    var v := 0;
    while v < |values|
      invariant 0 <= v <= |values|
      invariant pushed == requestHeaders + NativeOps(name, values[..v])
    {
      var op := ModifyHeaderInfo(name, if v == 0 then Set else Append, values[v]);
      NativeOpsPrefix(name, values, v);
      pushed := pushed + [op];
      v := v + 1;
    }
    assert values[..v] == values;
  }

  /** Pushes the operations of the group `lowerName`, whose collected values
      are `values`, under the casing of the group's first row. */
  method PushGroupOps(requestHeaders: seq<ModifyHeaderInfo>, headers: seq<Header>, lowerName: string, values: seq<string>)
    returns (pushed: seq<ModifyHeaderInfo>)
    requires values == GroupValues(headers, lowerName)
    ensures pushed == requestHeaders + GroupOps(headers, lowerName)
  {
    var originalName := OriginalName(headers, lowerName);
    if lowerName in NATIVE_APPENDABLE {
      pushed := PushNativeOps(requestHeaders, originalName, values);
    } else {
      var separator := Separator(lowerName);
      pushed := requestHeaders + [ModifyHeaderInfo(originalName, Set, Join(values, separator))];
    }
  }

  /** Builds a profile's header operations: the rows are grouped, then each
      group's operations are pushed in the order the groups were created. */
  method BuildRequestHeaders(headers: seq<Header>) returns (requestHeaders: seq<ModifyHeaderInfo>)
    ensures requestHeaders == RequestHeaders(headers)
  {
    var order, headerGroups := GroupHeaders(headers);
    requestHeaders := [];
    var g := 0;
    while g < |order|
      invariant 0 <= g <= |order|
      invariant requestHeaders == OpsOf(headers, order[..g])
    {
      var lowerName := order[g];
      requestHeaders := PushGroupOps(requestHeaders, headers, lowerName, headerGroups[lowerName]);
      assert order[..g + 1][..g] == order[..g];
      g := g + 1;
    }
    assert order[..g] == order;
  }

  /** Builds the rule for `profiles[index]` with id `ruleId`. */
  method BuildRule(profiles: seq<Profile>, index: nat, ruleId: int) returns (rule: Rule)
    requires index < |profiles|
    ensures rule == RuleFor(profiles, index, ruleId)
  {
    var profile := profiles[index];
    var requestHeaders := BuildRequestHeaders(profile.headers);
    rule := Rule(ruleId, |profiles| - index,
      RuleAction(ModifyHeaders, requestHeaders),
      RuleCondition(profile.urlRegex, ALL_RESOURCE_TYPES));
  }

  /** A list holding, at each position `j`, the rule of the `j`-th retained
      profile with id `j + 1` is the rule list. */
  lemma RulesFromRetained(profiles: seq<Profile>, rules: seq<Rule>)
    requires |rules| == |RetainedBelow(profiles, |profiles|)|
    requires forall j :: 0 <= j < |rules| ==>
      rules[j] == RuleFor(profiles, RetainedBelow(profiles, |profiles|)[j], j + 1)
    ensures rules == Rules(profiles)
  {
    forall j | 0 <= j < |rules| ensures rules[j] == Rules(profiles)[j] {
      RuleAt(profiles, j);
    }
  }

  /** Compiles the profile list: skipped profiles consume no rule id, and a
      rule's priority is the list length minus its profile's position. */
  method GenerateRulesFromProfiles(profiles: seq<Profile>) returns (rules: seq<Rule>)
    ensures rules == Rules(profiles)
  {
    rules := [];
    var ruleId := 1;
    for index := 0 to |profiles|
      invariant |rules| == |RetainedBelow(profiles, index)|
      invariant ruleId == |rules| + 1
      invariant forall j :: 0 <= j < |rules| ==>
        rules[j] == RuleFor(profiles, RetainedBelow(profiles, index)[j], j + 1)
    {
      var profile := profiles[index];
      RetainedBelowStep(profiles, index);
      if !profile.enabled { continue; }
      if profile.urlRegex == "" { continue; }
      if |profile.headers| == 0 { continue; }

      var rule := BuildRule(profiles, index, ruleId);
      ruleId := ruleId + 1;
      rules := rules + [rule];
    }
    RulesFromRetained(profiles, rules);
  }

  // ---------------------------------------------------------------------
  // Properties of the rule list

  /** No profiles, no rules. */
  lemma NoProfilesNoRules()
    ensures Rules([]) == []
  {
  }

  /** The profile at position `i` yields a rule, the one with priority
      `|profiles| - i`, exactly when it passes the skip rules; there are at
      most as many rules as profiles. */
  lemma RuleIffProfileEmits(profiles: seq<Profile>)
    ensures |Rules(profiles)| <= |profiles|
    ensures forall i :: 0 <= i < |profiles| ==>
      (Emits(profiles[i]) <==> exists j :: 0 <= j < |Rules(profiles)| && Rules(profiles)[j].priority == |profiles| - i)
  {
    var idx := RetainedIndices(profiles);
    RetainedIndicesSpec(profiles);
    PrioritiesFavourEarlierProfiles(profiles);
    forall i | 0 <= i < |profiles|
      ensures Emits(profiles[i]) <==>
        exists j :: 0 <= j < |Rules(profiles)| && Rules(profiles)[j].priority == |profiles| - i
    {
      if Emits(profiles[i]) {
        var j :| 0 <= j < |idx| && idx[j] == i;
        assert Rules(profiles)[j].priority == |profiles| - i;
      }
    }
  }

  /** Rule ids are 1, 2, ..., k in output order. */
  lemma RuleIdsAreContiguous(profiles: seq<Profile>)
    ensures forall j :: 0 <= j < |Rules(profiles)| ==> Rules(profiles)[j].id == j + 1
  {
  }

  /** Each rule's priority is the list length minus its profile's position:
      it lies in 1..|profiles|, and earlier rules have strictly higher
      priorities, so no two rules share one. */
  lemma PrioritiesFavourEarlierProfiles(profiles: seq<Profile>)
    ensures forall j :: 0 <= j < |Rules(profiles)| ==>
      Rules(profiles)[j].priority == |profiles| - RetainedIndices(profiles)[j]
      && 1 <= Rules(profiles)[j].priority <= |profiles|
    ensures forall a, b :: 0 <= a < b < |Rules(profiles)| ==>
      Rules(profiles)[a].priority > Rules(profiles)[b].priority
  {
    var idx := RetainedIndices(profiles);
    RetainedBelowSpec(profiles, |profiles|);
    assert StrictlyIncreasing(idx);
  }

  /** A rule matches its profile's pattern verbatim on every resource type,
      modifies headers, and carries a non-empty list of operations built
      from the profile's header rows. */
  lemma RuleCopiesProfile(profiles: seq<Profile>)
    ensures forall j :: 0 <= j < |Rules(profiles)| ==>
      var p := profiles[RetainedIndices(profiles)[j]];
      && Rules(profiles)[j].condition.regexFilter == p.urlRegex
      && Rules(profiles)[j].condition.resourceTypes == ALL_RESOURCE_TYPES
      && Rules(profiles)[j].action.actionType == ModifyHeaders
      && Rules(profiles)[j].action.requestHeaders == RequestHeaders(p.headers)
      && |Rules(profiles)[j].action.requestHeaders| > 0
  {
    var idx := RetainedIndices(profiles);
    RetainedBelowSpec(profiles, |profiles|);
    forall j | 0 <= j < |Rules(profiles)|
      ensures var p := profiles[idx[j]];
        && Rules(profiles)[j].condition.regexFilter == p.urlRegex
        && Rules(profiles)[j].condition.resourceTypes == ALL_RESOURCE_TYPES
        && Rules(profiles)[j].action.actionType == ModifyHeaders
        && Rules(profiles)[j].action.requestHeaders == RequestHeaders(p.headers)
        && |Rules(profiles)[j].action.requestHeaders| > 0
    {
      RuleAt(profiles, j);
      assert idx[j] in idx;
      RequestHeadersBounds(profiles[idx[j]].headers);
    }
  }

  // ---------------------------------------------------------------------
  // Worked examples

  /** A single row yields a single SET of its value under its own name. */
  lemma SingleRowOps(h: Header)
    ensures RequestHeaders([h]) == [ModifyHeaderInfo(h.name, Set, h.value)]
  {
    GroupKeysSnoc([], h);
    GroupValuesSnoc([], h, LowerName(h));
    assert [] + [h] == [h];
    var k := LowerName(h);
    assert GroupKeys([h]) == [k];
    assert [k][..0] == [];
    assert OpsOf([h], [k]) == OpsOf([h], []) + GroupOps([h], k);
    assert RequestHeaders([h]) == GroupOps([h], k);
    assert Occurs([h], k);
    OriginalNameIsFirstCasing([h], k);
    SingleValueGroupIsSet([h], k);
  }

  /** One enabled profile with one custom header: one rule, id 1, priority 1,
      the pattern verbatim and a single SET. */
  lemma SingleProfileExample()
    ensures var p := Profile("1", "Test", "example.com", [Header("h1", "X-Test", "123")], true);
      Rules([p]) == [Rule(1, 1,
        RuleAction(ModifyHeaders, [ModifyHeaderInfo("X-Test", Set, "123")]),
        RuleCondition("example.com", ALL_RESOURCE_TYPES))]
  {
    var h := Header("h1", "X-Test", "123");
    var p := Profile("1", "Test", "example.com", [h], true);
    assert RetainedIndices([p]) == [0];
    RuleAt([p], 0);
    SingleRowOps(h);
  }

  /** Two enabled profiles: the first listed gets the higher priority. */
  lemma TwoProfilesExample()
    ensures var ps := [
        Profile("1", "First", ".*", [Header("h1", "A", "1")], true),
        Profile("2", "Second", ".*", [Header("h2", "B", "2")], true)];
      && |Rules(ps)| == 2
      && Rules(ps)[0].priority == 2 && Rules(ps)[0].action.requestHeaders[0].header == "A"
      && Rules(ps)[1].priority == 1 && Rules(ps)[1].action.requestHeaders[0].header == "B"
  {
    var ps := [
      Profile("1", "First", ".*", [Header("h1", "A", "1")], true),
      Profile("2", "Second", ".*", [Header("h2", "B", "2")], true)];
    assert RetainedBelow(ps, 1) == [0];
    assert RetainedIndices(ps) == [0, 1];
    RuleAt(ps, 0);
    RuleAt(ps, 1);
    SingleRowOps(Header("h1", "A", "1"));
    SingleRowOps(Header("h2", "B", "2"));
  }

  /** The groups of four rows, the first two under one name and the last
      two under another. */
  lemma TwoPairsGroups(h0: Header, h1: Header, h2: Header, h3: Header, a: string, b: string)
    requires LowerName(h0) == a && LowerName(h1) == a && LowerName(h2) == b && LowerName(h3) == b && a != b
    ensures GroupKeys([h0, h1, h2, h3]) == [a, b]
    ensures FirstIndexOf([h0, h1, h2, h3], a) == 0 && FirstIndexOf([h0, h1, h2, h3], b) == 2
  {
    assert GroupKeys([h0]) == [a] by {
      GroupKeysSnoc([], h0);
      assert [] + [h0] == [h0];
    }
    assert GroupKeys([h0, h1]) == [a] by {
      GroupKeysSnoc([h0], h1);
      assert [h0] + [h1] == [h0, h1];
    }
    assert GroupKeys([h0, h1, h2]) == [a, b] by {
      GroupKeysSnoc([h0, h1], h2);
      assert [h0, h1] + [h2] == [h0, h1, h2];
    }
    GroupKeysSnoc([h0, h1, h2], h3);
    assert [h0, h1, h2] + [h3] == [h0, h1, h2, h3];
  }

  /** The values of one of those two groups. */
  lemma TwoPairsValues(h0: Header, h1: Header, h2: Header, h3: Header, k: string)
    requires LowerName(h0) == LowerName(h1) && LowerName(h2) == LowerName(h3)
    requires LowerName(h0) != LowerName(h2)
    ensures GroupValues([h0, h1, h2, h3], k) ==
      if k == LowerName(h0) then [h0.value, h1.value]
      else if k == LowerName(h2) then [h2.value, h3.value]
      else []
  {
    var v0 := GroupValues([h0], k);
    var v1 := GroupValues([h0, h1], k);
    var v2 := GroupValues([h0, h1, h2], k);
    assert v0 == (if LowerName(h0) == k then [h0.value] else []) by {
      GroupValuesSnoc([], h0, k);
      assert [] + [h0] == [h0];
    }
    assert v1 == v0 + (if LowerName(h1) == k then [h1.value] else []) by {
      GroupValuesSnoc([h0], h1, k);
      assert [h0] + [h1] == [h0, h1];
    }
    assert v2 == v1 + (if LowerName(h2) == k then [h2.value] else []) by {
      GroupValuesSnoc([h0, h1], h2, k);
      assert [h0, h1] + [h2] == [h0, h1, h2];
    }
    assert GroupValues([h0, h1, h2, h3], k) == v2 + (if LowerName(h3) == k then [h3.value] else []) by {
      GroupValuesSnoc([h0, h1, h2], h3, k);
      assert [h0, h1, h2] + [h3] == [h0, h1, h2, h3];
    }
  }

  /** Two User-Agent rows followed by two X-Custom rows. */
  const DUPLICATE_ROWS: seq<Header> := [
    Header("h1", "User-Agent", "ua1"), Header("h2", "User-Agent", "ua2"),
    Header("h3", "X-Custom", "c1"), Header("h4", "X-Custom", "c2")]

  /** Their lower-cased names and groups. */
  lemma DuplicateRowsGroups()
    ensures LowerName(DUPLICATE_ROWS[0]) == LowerName(DUPLICATE_ROWS[1]) == "user-agent"
    ensures LowerName(DUPLICATE_ROWS[2]) == LowerName(DUPLICATE_ROWS[3]) == "x-custom"
    ensures GroupKeys(DUPLICATE_ROWS) == ["user-agent", "x-custom"]
  {
    var rows := DUPLICATE_ROWS;
    assert ToLower("User-Agent") == "user-agent";
    assert ToLower("X-Custom") == "x-custom";
    assert rows == [rows[0], rows[1], rows[2], rows[3]];
    TwoPairsGroups(rows[0], rows[1], rows[2], rows[3], "user-agent", "x-custom");
  }

  /** The User-Agent group: SET then APPEND, in row order. */
  lemma DuplicateRowsUserAgentOps()
    ensures GroupOps(DUPLICATE_ROWS, "user-agent") ==
      [ModifyHeaderInfo("User-Agent", Set, "ua1"), ModifyHeaderInfo("User-Agent", Append, "ua2")]
  {
    var rows := DUPLICATE_ROWS;
    DuplicateRowsGroups();
    assert rows == [rows[0], rows[1], rows[2], rows[3]];
    TwoPairsGroups(rows[0], rows[1], rows[2], rows[3], "user-agent", "x-custom");
    TwoPairsValues(rows[0], rows[1], rows[2], rows[3], "user-agent");
  }

  /** The X-Custom group: one SET of "c1, c2". */
  lemma DuplicateRowsCustomOps()
    ensures GroupOps(DUPLICATE_ROWS, "x-custom") == [ModifyHeaderInfo("X-Custom", Set, "c1, c2")]
  {
    var rows := DUPLICATE_ROWS;
    DuplicateRowsGroups();
    assert rows == [rows[0], rows[1], rows[2], rows[3]];
    TwoPairsGroups(rows[0], rows[1], rows[2], rows[3], "user-agent", "x-custom");
    TwoPairsValues(rows[0], rows[1], rows[2], rows[3], "x-custom");
    assert "x-custom" !in NATIVE_APPENDABLE;
    assert Join(["c1", "c2"], ", ") == "c1, c2";
  }

  /** Duplicated User-Agent rows use SET then APPEND; duplicated custom rows
      are merged into one SET joined by ", ". */
  lemma DuplicateHeadersExample()
    ensures RequestHeaders(DUPLICATE_ROWS) ==
      [ModifyHeaderInfo("User-Agent", Set, "ua1"),
       ModifyHeaderInfo("User-Agent", Append, "ua2"),
       ModifyHeaderInfo("X-Custom", Set, "c1, c2")]
  {
    var ks := ["user-agent", "x-custom"];
    DuplicateRowsGroups();
    DuplicateRowsUserAgentOps();
    DuplicateRowsCustomOps();
    assert ks[..1][..0] == [] && ks[..1] == ["user-agent"];
    assert OpsOf(DUPLICATE_ROWS, ks[..1]) == GroupOps(DUPLICATE_ROWS, "user-agent");
    assert RequestHeaders(DUPLICATE_ROWS) ==
      OpsOf(DUPLICATE_ROWS, ks[..1]) + GroupOps(DUPLICATE_ROWS, "x-custom");
  }

  /** Two Cookie rows are not merged with "; ": "cookie" is natively
      appendable, so they become SET then APPEND. */
  lemma DuplicateCookieExample()
    ensures RequestHeaders([Header("h1", "Cookie", "a=1"), Header("h2", "Cookie", "b=2")]) ==
      [ModifyHeaderInfo("Cookie", Set, "a=1"), ModifyHeaderInfo("Cookie", Append, "b=2")]
  {
    var hs := [Header("h1", "Cookie", "a=1"), Header("h2", "Cookie", "b=2")];
    assert ToLower("Cookie") == "cookie";
    assert hs[..1] == [hs[0]];
    assert GroupKeys(hs) == ["cookie"];
    assert GroupValues(hs, "cookie") == ["a=1", "b=2"];
    assert FirstIndexOf(hs, "cookie") == 0;
  }
}
