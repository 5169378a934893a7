/** The two compiler versions side by side: they select the same profiles
    and number the rules alike, but their priority conventions are mirror
    images of each other and their header operations never coincide. */
module CompilerVersions {
  import opened Types
  import opened Dnr
  import opened ProfileSelection
  import HeaderGroups
  import Current = DnrUtils
  import Legacy = LegacyDnrUtils

  /** Both versions emit a rule for the same profiles, with the same id and
      pattern; priorities add up to |profiles| + 1, so whichever of two rules
      one version ranks higher, the other ranks lower. */
  lemma SameRulesOppositePriorities(profiles: seq<Profile>)
    ensures |Current.Rules(profiles)| == |Legacy.Rules(profiles)|
    ensures forall j :: 0 <= j < |Current.Rules(profiles)| ==>
      && Current.Rules(profiles)[j].id == Legacy.Rules(profiles)[j].id
      && Current.Rules(profiles)[j].condition == Legacy.Rules(profiles)[j].condition
      && Current.Rules(profiles)[j].priority + Legacy.Rules(profiles)[j].priority == |profiles| + 1
    ensures forall a, b :: 0 <= a < |Current.Rules(profiles)| && 0 <= b < |Current.Rules(profiles)| ==>
      (Current.Rules(profiles)[a].priority > Current.Rules(profiles)[b].priority <==>
       Legacy.Rules(profiles)[a].priority < Legacy.Rules(profiles)[b].priority)
  {
    var idx := RetainedIndices(profiles);
    forall j | 0 <= j < |idx|
      ensures Current.Rules(profiles)[j].priority == |profiles| - idx[j]
      ensures Legacy.Rules(profiles)[j].priority == idx[j] + 1
    {
      Current.RuleAt(profiles, j);
      Legacy.RuleAt(profiles, j);
    }
  }

  /** Every rule the current version emits starts with a SET, while the
      earlier version's rule for the same profile starts with an APPEND, so
      the two never produce the same rule list when any profile yields a rule. */
  lemma OperationsNeverCoincide(profiles: seq<Profile>)
    ensures forall j :: 0 <= j < |Current.Rules(profiles)| ==>
      && j < |Legacy.Rules(profiles)|
      && |Current.Rules(profiles)[j].action.requestHeaders| > 0
      && |Legacy.Rules(profiles)[j].action.requestHeaders| > 0
      && Current.Rules(profiles)[j].action.requestHeaders[0].operation == Set
      && Legacy.Rules(profiles)[j].action.requestHeaders[0].operation == Append
    ensures |Current.Rules(profiles)| > 0 ==> Current.Rules(profiles) != Legacy.Rules(profiles)
  {
    var idx := RetainedIndices(profiles);
    RetainedBelowSpec(profiles, |profiles|);
    forall j | 0 <= j < |Current.Rules(profiles)|
      ensures && j < |Legacy.Rules(profiles)|
        && |Current.Rules(profiles)[j].action.requestHeaders| > 0
        && |Legacy.Rules(profiles)[j].action.requestHeaders| > 0
        && Current.Rules(profiles)[j].action.requestHeaders[0].operation == Set
        && Legacy.Rules(profiles)[j].action.requestHeaders[0].operation == Append
    {
      Current.RuleAt(profiles, j);
      Legacy.RuleAt(profiles, j);
      assert idx[j] in idx;
      HeaderGroups.FirstOperationIsSet(profiles[idx[j]].headers);
    }
    if |Current.Rules(profiles)| > 0 {
      assert Current.Rules(profiles)[0] != Legacy.Rules(profiles)[0];
    }
  }
}
