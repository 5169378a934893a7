/** Which profiles a compiler turns into rules. Both compiler versions apply
    the same three skip rules, in the same order, before building a rule. */
module ProfileSelection {
  import opened Types

  /** A profile yields a rule exactly when it is enabled, its URL pattern is
      non-empty and it has at least one header row. Header rows with an empty
      name or value are not filtered out here. */
  predicate Emits(p: Profile)
  {
    p.enabled && p.urlRegex != "" && |p.headers| != 0
  }

  predicate StrictlyIncreasing(s: seq<nat>)
  {
    forall a, b :: 0 <= a < b < |s| ==> s[a] < s[b]
  }

  /** Positions among `profiles[..n]` of the profiles that yield a rule, in
      list order: position `j` of the result is the source of the `j`-th rule. */
  function RetainedBelow(profiles: seq<Profile>, n: nat): (r: seq<nat>)
    requires n <= |profiles|
    ensures |r| <= n
    ensures forall j :: 0 <= j < |r| ==> r[j] < n
    decreases n
  {
    if n == 0 then []
    else RetainedBelow(profiles, n - 1) + (if Emits(profiles[n - 1]) then [n - 1] else [])
  }

  /** The retained positions are listed in increasing order, and a position
      is listed exactly when its profile yields a rule. */
  lemma {:induction false} RetainedBelowSpec(profiles: seq<Profile>, n: nat)
    requires n <= |profiles|
    ensures StrictlyIncreasing(RetainedBelow(profiles, n))
    ensures forall i :: 0 <= i < n ==> (i in RetainedBelow(profiles, n) <==> Emits(profiles[i]))
    decreases n
  {
    if n > 0 {
      RetainedBelowSpec(profiles, n - 1);
    }
  }

  /** One more profile adds its own position when it yields a rule. */
  lemma RetainedBelowStep(profiles: seq<Profile>, n: nat)
    requires n < |profiles|
    ensures RetainedBelow(profiles, n + 1) ==
      RetainedBelow(profiles, n) + (if Emits(profiles[n]) then [n] else [])
  {
  }

  /** Positions of all the profiles that yield a rule. */
  function RetainedIndices(profiles: seq<Profile>): (r: seq<nat>)
    ensures |r| <= |profiles|
    ensures forall j :: 0 <= j < |r| ==> r[j] < |profiles|
  {
    RetainedBelow(profiles, |profiles|)
  }

  /** Over the whole list: the retained positions are increasing, and a
      position is retained exactly when its profile yields a rule. */
  lemma RetainedIndicesSpec(profiles: seq<Profile>)
    ensures StrictlyIncreasing(RetainedIndices(profiles))
    ensures forall i :: 0 <= i < |profiles| ==>
      (Emits(profiles[i]) <==> exists j :: 0 <= j < |RetainedIndices(profiles)| && RetainedIndices(profiles)[j] == i)
  {
    var idx := RetainedIndices(profiles);
    RetainedBelowSpec(profiles, |profiles|);
    forall i | 0 <= i < |profiles|
      ensures Emits(profiles[i]) <==> exists j :: 0 <= j < |idx| && idx[j] == i
    {
      if i in idx {
        var j :| 0 <= j < |idx| && idx[j] == i;
      }
    }
  }
}
