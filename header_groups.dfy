/** How the current compiler turns one profile's header rows into the header
    operations of its rule: rows are grouped by lower-cased name (groups in
    order of first occurrence, values in row order), and each group becomes
    either one operation per value (names the browser can append natively) or
    a single SET of the values joined with a separator.

    The functions here are the specification; the method that builds the
    list step by step is `DnrUtils.BuildRequestHeaders`. */
module HeaderGroups {
  import opened Types
  import opened Dnr
  import opened Text

  /** Lower-cased header names for which the browser supports APPEND. */
  const NATIVE_APPENDABLE: set<string> := {
    "accept", "accept-encoding", "accept-language", "access-control-request-headers",
    "cache-control", "connection", "content-language", "cookie", "forwarded",
    "if-match", "if-none-match", "keep-alive", "range", "te", "trailer",
    "transfer-encoding", "upgrade", "user-agent", "via", "want-digest",
    "x-forwarded-for"
  }

  /** The key a header row is grouped under. */
  function LowerName(h: Header): string
  {
    ToLower(h.name)
  }

  /** Some row of `hs` has the lower-cased name `lower`. */
  predicate Occurs(hs: seq<Header>, lower: string)
  {
    exists i :: 0 <= i < |hs| && LowerName(hs[i]) == lower
  }

  /** Position of the first row whose lower-cased name is `lower`, or |hs|
      when there is none: the search `Array.prototype.find` performs. */
  function FirstIndexOf(hs: seq<Header>, lower: string): (r: nat)
    ensures r <= |hs|
    ensures r < |hs| ==> LowerName(hs[r]) == lower
    ensures forall j :: 0 <= j < r ==> LowerName(hs[j]) != lower
  {
    if |hs| == 0 then 0
    else if LowerName(hs[0]) == lower then 0
    else 1 + FirstIndexOf(hs[1..], lower)
  }

  /** The name a group is emitted under: the name of the first row found,
      falling back to the lower-cased key when that name is empty. */
  function OriginalName(hs: seq<Header>, lower: string): string
  {
    var i := FirstIndexOf(hs, lower);
    if i < |hs| && hs[i].name != "" then hs[i].name else lower
  }

  /** The keys of the grouping map in insertion order: each new lower-cased
      name is added when its first row is reached. */
  function GroupKeys(hs: seq<Header>): seq<string>
    decreases |hs|
  {
    if |hs| == 0 then []
    else
      var ks := GroupKeys(hs[..|hs| - 1]);
      var k := LowerName(hs[|hs| - 1]);
      if k in ks then ks else ks + [k]
  }

  /** The values collected under `lower`, in row order. */
  function GroupValues(hs: seq<Header>, lower: string): seq<string>
    decreases |hs|
  {
    if |hs| == 0 then []
    else
      GroupValues(hs[..|hs| - 1], lower)
      + (if LowerName(hs[|hs| - 1]) == lower then [hs[|hs| - 1].value] else [])
  }

  /** Separator for a manually merged group. */
  function Separator(lower: string): string
  {
    if lower == "cookie" then "; " else ", "
  }

  /** One operation per value: SET for the first, APPEND for the rest. */
  function NativeOps(name: string, values: seq<string>): seq<ModifyHeaderInfo>
  {
    seq(|values|, i requires 0 <= i < |values| =>
      ModifyHeaderInfo(name, if i == 0 then Set else Append, values[i]))
  }

  /** Pushing the operation for value `v` extends the operations of the
      first `v` values. */
  lemma NativeOpsPrefix(name: string, values: seq<string>, v: nat)
    requires v < |values|
    ensures NativeOps(name, values[..v + 1]) ==
      NativeOps(name, values[..v]) + [ModifyHeaderInfo(name, if v == 0 then Set else Append, values[v])]
  {
    var longer := NativeOps(name, values[..v + 1]);
    var shorter := NativeOps(name, values[..v]) + [ModifyHeaderInfo(name, if v == 0 then Set else Append, values[v])];
    assert |longer| == |shorter|;
    forall i | 0 <= i < |longer| ensures longer[i] == shorter[i] {
    }
  }

  /** The operations one group contributes. */
  function GroupOps(hs: seq<Header>, lower: string): seq<ModifyHeaderInfo>
  {
    var name := OriginalName(hs, lower);
    var values := GroupValues(hs, lower);
    if lower in NATIVE_APPENDABLE then NativeOps(name, values)
    else [ModifyHeaderInfo(name, Set, Join(values, Separator(lower)))]
  }

  /** The operations of the groups `ks`, one group after the other. */
  function OpsOf(hs: seq<Header>, ks: seq<string>): seq<ModifyHeaderInfo>
    decreases |ks|
  {
    if |ks| == 0 then []
    else OpsOf(hs, ks[..|ks| - 1]) + GroupOps(hs, ks[|ks| - 1])
  }

  /** The header operations of the rule built from rows `hs`. */
  function RequestHeaders(hs: seq<Header>): seq<ModifyHeaderInfo>
  {
    OpsOf(hs, GroupKeys(hs))
  }

  predicate NoDuplicates(ks: seq<string>)
  {
    forall a, b :: 0 <= a < b < |ks| ==> ks[a] != ks[b]
  }

  /** Total number of values held by the groups `ks`. */
  function ValuesCount(hs: seq<Header>, ks: seq<string>): nat
    decreases |ks|
  {
    if |ks| == 0 then 0
    else ValuesCount(hs, ks[..|ks| - 1]) + |GroupValues(hs, ks[|ks| - 1])|
  }

  // ---------------------------------------------------------------------
  // The search

  /** The search finds a row exactly when some row has that name. */
  lemma OccursIffFound(hs: seq<Header>, lower: string)
    ensures Occurs(hs, lower) <==> FirstIndexOf(hs, lower) < |hs|
  {
    if Occurs(hs, lower) {
      var i :| 0 <= i < |hs| && LowerName(hs[i]) == lower;
      assert FirstIndexOf(hs, lower) <= i;
    }
  }

  /** Appending a row leaves an earlier first occurrence where it was. */
  lemma FirstIndexOfSnoc(hs: seq<Header>, h: Header, lower: string)
    ensures FirstIndexOf(hs + [h], lower) ==
      if FirstIndexOf(hs, lower) < |hs| then FirstIndexOf(hs, lower)
      else if LowerName(h) == lower then |hs|
      else |hs| + 1
  {
    var r, r' := FirstIndexOf(hs, lower), FirstIndexOf(hs + [h], lower);
    if r < |hs| {
      assert (hs + [h])[r] == hs[r];
      assert r' <= r;
    } else {
      assert forall j :: 0 <= j < |hs| ==> (hs + [h])[j] == hs[j];
      if LowerName(h) == lower { assert (hs + [h])[|hs|] == h; }
    }
  }

  /** The emitted name is the exact casing of the first row with that
      lower-cased name, including when that name is empty. */
  lemma OriginalNameIsFirstCasing(hs: seq<Header>, lower: string)
    requires Occurs(hs, lower)
    ensures FirstIndexOf(hs, lower) < |hs|
    ensures OriginalName(hs, lower) == hs[FirstIndexOf(hs, lower)].name
    ensures ToLower(OriginalName(hs, lower)) == lower
  {
    OccursIffFound(hs, lower);
  }

  // ---------------------------------------------------------------------
  // Grouping

  /** Occurrence in a longer list: in the prefix or in the appended row. */
  lemma OccursSnoc(hs: seq<Header>, h: Header, lower: string)
    ensures Occurs(hs + [h], lower) <==> Occurs(hs, lower) || LowerName(h) == lower
  {
    if Occurs(hs, lower) {
      var i :| 0 <= i < |hs| && LowerName(hs[i]) == lower;
      assert (hs + [h])[i] == hs[i];
    }
    if Occurs(hs + [h], lower) {
      var i :| 0 <= i < |hs| + 1 && LowerName((hs + [h])[i]) == lower;
      if i < |hs| { assert (hs + [h])[i] == hs[i]; }
    }
    if LowerName(h) == lower {
      assert (hs + [h])[|hs|] == h;
    }
  }

  /** A new row opens a new group only when its name is new. */
  lemma GroupKeysSnoc(hs: seq<Header>, h: Header)
    ensures GroupKeys(hs + [h]) ==
      if LowerName(h) in GroupKeys(hs) then GroupKeys(hs) else GroupKeys(hs) + [LowerName(h)]
  {
    assert (hs + [h])[..|hs|] == hs;
  }

  /** A new row adds its value at the end of its own group only. */
  lemma GroupValuesSnoc(hs: seq<Header>, h: Header, lower: string)
    ensures GroupValues(hs + [h], lower) ==
      GroupValues(hs, lower) + (if LowerName(h) == lower then [h.value] else [])
  {
    assert (hs + [h])[..|hs|] == hs;
  }

  /** The group keys are the distinct lower-cased names of the rows, each once. */
  lemma {:induction false} GroupKeysAreTheDistinctNames(hs: seq<Header>)
    ensures NoDuplicates(GroupKeys(hs))
    ensures forall k :: k in GroupKeys(hs) <==> Occurs(hs, k)
    decreases |hs|
  {
    if |hs| > 0 {
      var init, h := hs[..|hs| - 1], hs[|hs| - 1];
      assert hs == init + [h];
      GroupKeysAreTheDistinctNames(init);
      forall k ensures Occurs(hs, k) <==> Occurs(init, k) || LowerName(h) == k {
        OccursSnoc(init, h, k);
      }
    }
  }

  /** Groups come in the order of the first occurrence of their names. */
  lemma {:induction false} GroupKeysInFirstOccurrenceOrder(hs: seq<Header>)
    ensures forall a, b :: 0 <= a < b < |GroupKeys(hs)| ==>
      FirstIndexOf(hs, GroupKeys(hs)[a]) < FirstIndexOf(hs, GroupKeys(hs)[b])
    decreases |hs|
  {
    if |hs| > 0 {
      var init, h := hs[..|hs| - 1], hs[|hs| - 1];
      assert hs == init + [h];
      GroupKeysInFirstOccurrenceOrder(init);
      GroupKeysAreTheDistinctNames(init);
      var ks := GroupKeys(init);
      forall k | k in ks ensures FirstIndexOf(hs, k) == FirstIndexOf(init, k) < |init| {
        OccursIffFound(init, k);
        FirstIndexOfSnoc(init, h, k);
      }
      if LowerName(h) !in ks {
        OccursIffFound(init, LowerName(h));
        FirstIndexOfSnoc(init, h, LowerName(h));
        assert GroupKeys(hs) == ks + [LowerName(h)];
      }
    }
  }

  /** A group is empty exactly when no row has its name; otherwise its first
      value is the value of the name's first row. */
  lemma {:induction false} GroupValuesStartAtFirstOccurrence(hs: seq<Header>, lower: string)
    ensures GroupValues(hs, lower) == [] <==> !Occurs(hs, lower)
    ensures Occurs(hs, lower) ==>
      FirstIndexOf(hs, lower) < |hs| && GroupValues(hs, lower)[0] == hs[FirstIndexOf(hs, lower)].value
    decreases |hs|
  {
    if |hs| > 0 {
      var init, h := hs[..|hs| - 1], hs[|hs| - 1];
      assert hs == init + [h];
      GroupValuesStartAtFirstOccurrence(init, lower);
      OccursSnoc(init, h, lower);
      OccursIffFound(init, lower);
      FirstIndexOfSnoc(init, h, lower);
    }
  }

  /** Adding a row adds one value to its own group and none elsewhere. */
  lemma {:induction false} ValuesCountSnoc(init: seq<Header>, h: Header, ks: seq<string>)
    requires NoDuplicates(ks)
    ensures ValuesCount(init + [h], ks) == ValuesCount(init, ks) + (if LowerName(h) in ks then 1 else 0)
    decreases |ks|
  {
    if |ks| > 0 {
      var pre, k := ks[..|ks| - 1], ks[|ks| - 1];
      assert ks == pre + [k];
      ValuesCountSnoc(init, h, pre);
      assert (init + [h])[..|init|] == init;
    }
  }

  /** Grouping loses and duplicates no row: the groups hold |hs| values in all. */
  lemma {:induction false} GroupsPartitionHeaders(hs: seq<Header>)
    ensures ValuesCount(hs, GroupKeys(hs)) == |hs|
    decreases |hs|
  {
    if |hs| > 0 {
      var init, h := hs[..|hs| - 1], hs[|hs| - 1];
      assert hs == init + [h];
      var ks := GroupKeys(init);
      GroupsPartitionHeaders(init);
      GroupKeysAreTheDistinctNames(init);
      ValuesCountSnoc(init, h, ks);
      if LowerName(h) !in ks {
        var k := LowerName(h);
        assert (ks + [k])[..|ks|] == ks;
        GroupValuesStartAtFirstOccurrence(init, k);
        assert GroupValues(hs, k) == GroupValues(init, k) + [h.value];
      }
    }
  }

  // ---------------------------------------------------------------------
  // Operations per group

  /** A natively appendable group yields one operation per value, in order,
      under the first row's casing: SET first, APPEND for every later one. */
  lemma NativeGroupOps(hs: seq<Header>, lower: string)
    requires Occurs(hs, lower) && lower in NATIVE_APPENDABLE
    ensures FirstIndexOf(hs, lower) < |hs|
    ensures |GroupOps(hs, lower)| == |GroupValues(hs, lower)| > 0
    ensures GroupOps(hs, lower)[0].operation == Set
    ensures forall i :: 0 < i < |GroupOps(hs, lower)| ==> GroupOps(hs, lower)[i].operation == Append
    ensures forall i :: 0 <= i < |GroupOps(hs, lower)| ==>
      GroupOps(hs, lower)[i].value == GroupValues(hs, lower)[i]
      && GroupOps(hs, lower)[i].header == hs[FirstIndexOf(hs, lower)].name
  {
    OriginalNameIsFirstCasing(hs, lower);
    GroupValuesStartAtFirstOccurrence(hs, lower);
  }

  /** Any other group yields exactly one SET of its values joined by ", ".
      "cookie" is natively appendable, so the "; " separator is never used. */
  lemma MergedGroupOps(hs: seq<Header>, lower: string)
    requires Occurs(hs, lower) && lower !in NATIVE_APPENDABLE
    ensures FirstIndexOf(hs, lower) < |hs|
    ensures GroupOps(hs, lower) ==
      [ModifyHeaderInfo(hs[FirstIndexOf(hs, lower)].name, Set, Join(GroupValues(hs, lower), ", "))]
  {
    OriginalNameIsFirstCasing(hs, lower);
  }

  /** A name used by a single row is always SET to that row's value,
      whether or not the browser could append it. */
  lemma SingleValueGroupIsSet(hs: seq<Header>, lower: string)
    requires |GroupValues(hs, lower)| == 1
    ensures GroupOps(hs, lower) == [ModifyHeaderInfo(OriginalName(hs, lower), Set, GroupValues(hs, lower)[0])]
  {
  }

  /** Each group contributes at least one and at most as many operations as it has values. */
  lemma {:induction false} OpsOfBounds(hs: seq<Header>, ks: seq<string>)
    requires forall k :: k in ks ==> Occurs(hs, k)
    ensures |ks| <= |OpsOf(hs, ks)| <= ValuesCount(hs, ks)
    decreases |ks|
  {
    if |ks| > 0 {
      var pre, k := ks[..|ks| - 1], ks[|ks| - 1];
      assert forall x :: x in pre ==> x in ks;
      OpsOfBounds(hs, pre);
      GroupValuesStartAtFirstOccurrence(hs, k);
    }
  }

  /** The first operation of the groups `ks` is the first group's SET. */
  lemma {:induction false} OpsOfStartWithSet(hs: seq<Header>, ks: seq<string>)
    requires |ks| > 0
    requires forall k :: k in ks ==> Occurs(hs, k)
    ensures |OpsOf(hs, ks)| > 0 && OpsOf(hs, ks)[0].operation == Set
    decreases |ks|
  {
    var pre, k := ks[..|ks| - 1], ks[|ks| - 1];
    GroupValuesStartAtFirstOccurrence(hs, k);
    if |pre| > 0 {
      assert forall x :: x in pre ==> x in ks;
      OpsOfStartWithSet(hs, pre);
    }
  }

  /** A profile with rows starts its operations with a SET, so a header is
      always overwritten before anything is appended to it. */
  lemma FirstOperationIsSet(hs: seq<Header>)
    requires |hs| > 0
    ensures |RequestHeaders(hs)| > 0 && RequestHeaders(hs)[0].operation == Set
  {
    GroupKeysAreTheDistinctNames(hs);
    assert Occurs(hs, LowerName(hs[0]));
    OpsOfStartWithSet(hs, GroupKeys(hs));
  }

  /** A profile's operations number at least one per distinct name and at
      most one per row, so a profile with rows always gets a non-empty list. */
  lemma RequestHeadersBounds(hs: seq<Header>)
    ensures |GroupKeys(hs)| <= |RequestHeaders(hs)| <= |hs|
    ensures |hs| > 0 ==> |RequestHeaders(hs)| > 0
  {
    GroupKeysAreTheDistinctNames(hs);
    GroupsPartitionHeaders(hs);
    OpsOfBounds(hs, GroupKeys(hs));
    if |hs| > 0 {
      assert Occurs(hs, LowerName(hs[0]));
    }
  }

  /** The operations of the groups `ks` name exactly those groups. */
  lemma {:induction false} OpsOfNames(hs: seq<Header>, ks: seq<string>)
    requires forall k :: k in ks ==> Occurs(hs, k)
    ensures forall op :: op in OpsOf(hs, ks) ==> ToLower(op.header) in ks
    ensures forall k :: k in ks ==> exists op :: op in OpsOf(hs, ks) && ToLower(op.header) == k
    decreases |ks|
  {
    if |ks| > 0 {
      var pre, k := ks[..|ks| - 1], ks[|ks| - 1];
      assert ks == pre + [k];
      OpsOfNames(hs, pre);
      OriginalNameIsFirstCasing(hs, k);
      GroupValuesStartAtFirstOccurrence(hs, k);
      var ops := GroupOps(hs, k);
      assert |ops| > 0 && ops[0] in OpsOf(hs, ks);
      forall op | op in ops ensures ToLower(op.header) == k {
      }
    }
  }

  /** Nothing is invented or lost by name: every operation's header
      lower-cases to some row's name, and every row's name has an operation. */
  lemma RequestHeadersNames(hs: seq<Header>)
    ensures forall op :: op in RequestHeaders(hs) ==> Occurs(hs, ToLower(op.header))
    ensures forall i :: 0 <= i < |hs| ==>
      exists op :: op in RequestHeaders(hs) && ToLower(op.header) == LowerName(hs[i])
  {
    GroupKeysAreTheDistinctNames(hs);
    OpsOfNames(hs, GroupKeys(hs));
    forall i | 0 <= i < |hs| ensures LowerName(hs[i]) in GroupKeys(hs) {
      assert Occurs(hs, LowerName(hs[i]));
    }
  }
}
