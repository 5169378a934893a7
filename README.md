# PrivacyHeader rule compiler, modelled in Dafny

PrivacyHeader is a browser extension. A user keeps an ordered list of
*profiles*: each one is a URL regular expression plus header rows (name and
value) to inject into matching requests. The extension compiles that list
into `declarativeNetRequest` rules for the browser. This project models the
compiler, `generateRulesFromProfiles`, and proves what it does.

The repository has two versions of the compiler, and they disagree. Each is
modelled in its own module.

- **Current compiler** (`utils/dnr-utils.ts`, module `DnrUtils`). It skips
  a profile that is disabled, has an empty URL pattern or has no header rows.
  It then groups the remaining profile's rows by lower-cased name. Groups
  come in order of first occurrence, and each is emitted under the casing of
  its first row. A natively appendable name (a fixed list of 21) gets SET
  for its first value and APPEND for each later one. Any other name gets a
  single SET with its values joined by `", "`. Rule ids run 1, 2, … over
  the rules emitted. The priority is `profiles.length − index`, so earlier
  profiles win. The pattern is copied verbatim, and the rule always lists
  the same 13 resource types.
- **Earlier compiler** (`src/lib/dnr-utils.ts`, module `LegacyDnrUtils`).
  It uses the same skip rules. There is no grouping: every row becomes one
  APPEND with its name and value verbatim. The priority is `index + 1`, so
  later profiles win.

The modules:

| file | module | contents |
|---|---|---|
| `types.dfy` | `Types` | `Header`, `Profile`, `ProfileState` records |
| `dnr.dfy` | `Dnr` | header operations, action type, the 13 resource types, the rule record |
| `text.dfy` | `Text` | ASCII lower-casing, `Array.prototype.join` |
| `profile_selection.dfy` | `ProfileSelection` | the skip rules and the positions of the profiles that yield rules |
| `header_groups.dfy` | `HeaderGroups` | specification of the current compiler's grouping and per-group operations |
| `dnr_utils.dfy` | `DnrUtils` | the current compiler (step-by-step methods proved against the specification) and its properties |
| `legacy_dnr_utils.dfy` | `LegacyDnrUtils` | the earlier compiler and its properties |
| `compiler_versions.dfy` | `CompilerVersions` | the two versions compared |

The current compiler works by mutation: a rule list, a `ruleId` counter and
a `Map` of groups are filled in place. It is therefore modelled as methods
with loops: `GroupHeaders`, `PushNativeOps`, `PushGroupOps`,
`BuildRequestHeaders`, `BuildRule` and `GenerateRulesFromProfiles`. Each
method's `ensures` ties its result to a specification function:
`GroupKeys` and `GroupValues` (`GroupHeaders`), `NativeOps`
(`PushNativeOps`), `GroupOps` (`PushGroupOps`), `RequestHeaders`
(`BuildRequestHeaders`), `RuleFor` (`BuildRule`) and `Rules`
(`GenerateRulesFromProfiles`). The lemmas prove the promised properties
about those functions.

The specification functions, the source they model, and the lemmas that
state what they mean:

| function | source | specified by |
|---|---|---|
| `ProfileSelection.Emits` | utils/dnr-utils.ts:12-17, src/lib/dnr-utils.ts:15-27 | `ProfileSelection.RetainedBelowSpec`, `ProfileSelection.RetainedIndicesSpec` |
| `HeaderGroups.OriginalName` | utils/dnr-utils.ts:43 | `HeaderGroups.OriginalNameIsFirstCasing` |
| `HeaderGroups.GroupKeys` | utils/dnr-utils.ts:30-35 | `GroupKeysSnoc`, `GroupKeysAreTheDistinctNames`, `GroupKeysInFirstOccurrenceOrder` |
| `HeaderGroups.GroupValues` | utils/dnr-utils.ts:36 | `GroupValuesSnoc`, `GroupValuesStartAtFirstOccurrence`, `GroupsPartitionHeaders` |
| `HeaderGroups.Separator` | utils/dnr-utils.ts:61 | `HeaderGroups.MergedGroupOps` (the `"; "` case is never reached) |
| `HeaderGroups.NativeOps` | utils/dnr-utils.ts:47-55 | `NativeOpsPrefix`, `NativeGroupOps` |
| `HeaderGroups.GroupOps` | utils/dnr-utils.ts:45-67 | `NativeGroupOps`, `MergedGroupOps`, `SingleValueGroupIsSet` |
| `HeaderGroups.RequestHeaders` | utils/dnr-utils.ts:39-68 | `RequestHeadersBounds`, `RequestHeadersNames`, `FirstOperationIsSet` |
| `DnrUtils.RuleFor` | utils/dnr-utils.ts:70-97 | `DnrUtils.PrioritiesFavourEarlierProfiles`, `DnrUtils.RuleCopiesProfile` |
| `DnrUtils.Rules` | utils/dnr-utils.ts:6-102 | `DnrUtils.RuleIffProfileEmits`, `RuleIdsAreContiguous`, `PrioritiesFavourEarlierProfiles`, `RuleCopiesProfile` |
| `LegacyDnrUtils.AppendOps` | src/lib/dnr-utils.ts:29-33 | `LegacyDnrUtils.AppendOpsCopyHeaders` |
| `LegacyDnrUtils.RuleFor` | src/lib/dnr-utils.ts:35-60 | `LegacyDnrUtils.PrioritiesFavourLaterProfiles`, `LegacyDnrUtils.RuleCopiesProfile` |
| `LegacyDnrUtils.Rules` | src/lib/dnr-utils.ts:4-65 | `LegacyDnrUtils.RuleIffProfileEmits`, `RuleIdsAreContiguous`, `PrioritiesFavourLaterProfiles`, `RuleCopiesProfile` |

The JavaScript `Map` keeps insertion order. It is modelled as a sequence of
keys in insertion order (`order`) plus a Dafny `map` from key to values. In
the earlier compiler, the outer loop is imperative, but each rule's
operations come from a pure `headers.map(...)`. That version is a method
whose loop calls the function `AppendOps`.

Three behaviours of the code are easy to misread:

- **Priority.** The current code uses `profiles.length − index`, with the
  length of the whole input list. It does not use the number of retained
  profiles.
- **Cookie rows.** `cookie` is on the native-append list. Duplicated
  `Cookie` rows therefore become SET then APPEND. They are not merged with
  `"; "`: the `"; "` separator branch cannot be reached
  (`HeaderGroups.MergedGroupOps`, `DnrUtils.DuplicateCookieExample`).
- **Empty rows.** The compiler does not drop header rows whose name or
  value is empty. It only checks that the header list is non-empty.

## Model

| member | source | states |
|---|---|---|
| `Dnr.AllResourceTypesListedOnce` | utils/dnr-utils.ts:81-95 | the fixed resource-type list has 13 entries, contains every resource type and repeats none |
| `Text.LowerChar` | utils/dnr-utils.ts:32 | an upper-case ASCII letter maps to its lower-case letter (offset 32); every other character is kept; the result is never upper-case |
| `Text.ToLower` | utils/dnr-utils.ts:32 | lower-casing keeps the length of the name |
| `Text.ToLowerIdempotent` | utils/dnr-utils.ts:43 | lower-casing twice gives the same string as lower-casing once |
| `Text.Join` | utils/dnr-utils.ts:65 | joining no values gives ""; otherwise the length is the sum of the parts plus one separator between each pair, and the result starts with the first part |
| `Text.JoinSnoc` | utils/dnr-utils.ts:65 | joining one more value appends the separator and that value, so values keep their order |
| `ProfileSelection.RetainedBelow` | utils/dnr-utils.ts:10-17 | among the first n profiles, at most n positions are retained, each below n |
| `ProfileSelection.RetainedBelowSpec` | utils/dnr-utils.ts:10-17 | retained positions are strictly increasing; a position is retained exactly when the profile is enabled, has a non-empty pattern and has header rows |
| `ProfileSelection.RetainedIndicesSpec` | utils/dnr-utils.ts:10-17 | over the whole list, retained positions are strictly increasing, and a profile's position is retained exactly when it is enabled, has a non-empty pattern and has header rows |
| `ProfileSelection.RetainedIndices` | src/lib/dnr-utils.ts:13-27 | at most one retained position per profile, each a valid index |
| `HeaderGroups.FirstIndexOf` | utils/dnr-utils.ts:43 | `find` returns the first row with the given lower-cased name: it matches, no earlier row matches, and it returns the length when none matches |
| `HeaderGroups.OccursIffFound` | utils/dnr-utils.ts:43 | the search finds a row exactly when some row has that lower-cased name |
| `HeaderGroups.FirstIndexOfSnoc` | utils/dnr-utils.ts:43 | adding a row at the end leaves an existing first occurrence unchanged |
| `HeaderGroups.OriginalNameIsFirstCasing` | utils/dnr-utils.ts:43 | a group is emitted under the exact name of its first row (when that name is empty, the fallback to the key gives the same empty name), which lower-cases to the key |
| `HeaderGroups.OccursSnoc` | utils/dnr-utils.ts:31-37 | a name occurs in a longer row list exactly when it occurs in the prefix or is the new row's name |
| `HeaderGroups.GroupKeysSnoc` | utils/dnr-utils.ts:33-35 | a row opens a new group, at the end, exactly when its lower-cased name has no group yet |
| `HeaderGroups.GroupValuesSnoc` | utils/dnr-utils.ts:36 | a row's value is appended to its own group and to no other |
| `HeaderGroups.GroupKeysAreTheDistinctNames` | utils/dnr-utils.ts:30-37 | the group keys have no duplicates, and a key is present exactly when some row has that lower-cased name |
| `HeaderGroups.GroupKeysInFirstOccurrenceOrder` | utils/dnr-utils.ts:30-41 | groups are visited in the order in which their names first occur |
| `HeaderGroups.GroupValuesStartAtFirstOccurrence` | utils/dnr-utils.ts:30-37 | a group is empty exactly when no row has its name; otherwise its first value is the first such row's value |
| `HeaderGroups.ValuesCountSnoc` | utils/dnr-utils.ts:31-37 | a new row adds exactly one value across the groups when its name is a key, and none otherwise |
| `HeaderGroups.GroupsPartitionHeaders` | utils/dnr-utils.ts:30-37 | the groups hold exactly as many values as there are rows, so grouping neither loses nor duplicates a row |
| `HeaderGroups.NativeOpsPrefix` | utils/dnr-utils.ts:47-55 | the operation pushed for value v extends the operations of the earlier values: SET at index 0, APPEND after |
| `HeaderGroups.NativeGroupOps` | utils/dnr-utils.ts:45-55 | an allow-listed group gives one operation per value, in order, under the first row's casing: SET first, APPEND for every later value |
| `HeaderGroups.MergedGroupOps` | utils/dnr-utils.ts:56-67 | any other group gives exactly one SET under the first row's casing, with the values joined by ", " (never "; ") |
| `HeaderGroups.SingleValueGroupIsSet` | utils/dnr-utils.ts:45-67 | a name used by one row is SET to that row's value, whichever branch is taken |
| `HeaderGroups.OpsOfStartWithSet` | utils/dnr-utils.ts:41-68 | when the groups are non-empty, the first operation pushed is a SET |
| `HeaderGroups.FirstOperationIsSet` | utils/dnr-utils.ts:39-68 | a profile with rows starts its operation list with a SET |
| `HeaderGroups.OpsOfBounds` | utils/dnr-utils.ts:41-68 | each group contributes at least one operation and at most one per value |
| `HeaderGroups.RequestHeadersBounds` | utils/dnr-utils.ts:39-68 | a profile gets at least one operation per distinct name and at most one per row, so a profile with rows gets a non-empty list |
| `HeaderGroups.OpsOfNames` | utils/dnr-utils.ts:41-68 | the operations of a list of groups name exactly those groups |
| `HeaderGroups.RequestHeadersNames` | utils/dnr-utils.ts:39-68 | every operation's header lower-cases to some row's name, and every row's name has an operation |
| `DnrUtils.GroupHeaders` | utils/dnr-utils.ts:30-37 | the loop fills the map: its keys, in insertion order, are the group keys, and each key holds its group's values |
| `DnrUtils.PushNativeOps` | utils/dnr-utils.ts:47-55 | the loop appends exactly the per-value operations of an allow-listed group |
| `DnrUtils.PushGroupOps` | utils/dnr-utils.ts:42-67 | one group's step appends exactly that group's operations |
| `DnrUtils.BuildRequestHeaders` | utils/dnr-utils.ts:39-68 | the nested loops build exactly the specified operation list for the profile's rows |
| `DnrUtils.BuildRule` | utils/dnr-utils.ts:70-97 | the rule literal has the given id, priority `profiles.length − index`, the profile's operations, its pattern and all resource types |
| `DnrUtils.GenerateRulesFromProfiles` | utils/dnr-utils.ts:6-102 | the compiler loop returns exactly the specified rule list |
| `DnrUtils.NoProfilesNoRules` | utils/dnr-utils.ts:7-10 | no profiles give no rules |
| `DnrUtils.RuleIffProfileEmits` | utils/dnr-utils.ts:10-17 | the profile at position i yields a rule (the one with priority `profiles.length − i`) exactly when it is enabled, has a non-empty pattern and has header rows; there are at most `profiles.length` rules |
| `DnrUtils.RuleIdsAreContiguous` | utils/dnr-utils.ts:71 | rule ids are 1..k in output order; skipped profiles use up no id |
| `DnrUtils.PrioritiesFavourEarlierProfiles` | utils/dnr-utils.ts:73 | a rule's priority is `profiles.length − index`, lies in 1..n, and strictly decreases along the output, so no two rules share one |
| `DnrUtils.RuleCopiesProfile` | utils/dnr-utils.ts:74-95 | a rule has the profile's pattern verbatim, all 13 resource types, action type MODIFY_HEADERS, and a non-empty list of the profile's operations |
| `DnrUtils.SingleRowOps` | utils/dnr-utils.ts:45-67 | a single row becomes a single SET of its value under its own name |
| `DnrUtils.SingleProfileExample` | src/utils/dnr-utils.test.ts:69-88 | one enabled profile with header X-Test: one rule, id 1, priority 1, pattern "example.com", and one SET of "123" |
| `DnrUtils.TwoProfilesExample` | src/utils/dnr-utils.test.ts:90-116 | two profiles: priorities 2 then 1, with headers A then B |
| `DnrUtils.TwoPairsGroups` | utils/dnr-utils.ts:30-37 | two rows under one name, then two under another, form two groups with first occurrences at rows 0 and 2 |
| `DnrUtils.TwoPairsValues` | utils/dnr-utils.ts:30-37 | those two groups hold their own two values each, in row order |
| `DnrUtils.DuplicateRowsGroups` | src/utils/dnr-utils.test.ts:118-132 | two User-Agent and two X-Custom rows form the groups "user-agent" and "x-custom" |
| `DnrUtils.DuplicateRowsUserAgentOps` | src/utils/dnr-utils.test.ts:135-137 | the User-Agent group gives SET "ua1" then APPEND "ua2" |
| `DnrUtils.DuplicateRowsCustomOps` | src/utils/dnr-utils.test.ts:138 | the X-Custom group gives one SET of "c1, c2" |
| `DnrUtils.DuplicateHeadersExample` | src/utils/dnr-utils.test.ts:118-139 | the whole operation list for those four rows is SET ua1, APPEND ua2, SET "c1, c2" |
| `DnrUtils.DuplicateCookieExample` | utils/dnr-utils.ts:56-61 | two Cookie rows give SET then APPEND, not a "; " merge |
| `LegacyDnrUtils.AppendOpsCopyHeaders` | src/lib/dnr-utils.ts:29-33 | the operation list has one entry per header row, in order, with name and value copied and every operation APPEND |
| `LegacyDnrUtils.GenerateRulesFromProfiles` | src/lib/dnr-utils.ts:4-65 | the compiler loop returns exactly the specified rule list |
| `LegacyDnrUtils.NoProfilesNoRules` | src/lib/dnr-utils.ts:5-13 | no profiles give no rules |
| `LegacyDnrUtils.RuleIffProfileEmits` | src/lib/dnr-utils.ts:15-27 | the profile at position i yields a rule (the one with priority i + 1) exactly when it is enabled, has a non-empty pattern and has header rows; there are at most `profiles.length` rules |
| `LegacyDnrUtils.RuleIdsAreContiguous` | src/lib/dnr-utils.ts:36 | rule ids are 1..k in output order |
| `LegacyDnrUtils.PrioritiesFavourLaterProfiles` | src/lib/dnr-utils.ts:37 | a rule's priority is `index + 1`, lies in 1..n, and strictly increases along the output, so a later profile beats an earlier one |
| `LegacyDnrUtils.RuleCopiesProfile` | src/lib/dnr-utils.ts:29-58 | a rule has the profile's pattern verbatim, all 13 resource types, action type MODIFY_HEADERS, and one APPEND per row (as many operations as rows, at least one) |
| `LegacyDnrUtils.SkippedProfilesExample` | src/lib/dnr-utils.test.ts:41-67 | a disabled profile, and a profile without rows, give no rules |
| `LegacyDnrUtils.SingleProfileExample` | src/lib/dnr-utils.test.ts:69-88 | one enabled profile with header X-Test: one rule, id 1, priority 1, pattern "example.com", and one APPEND of "123" |
| `LegacyDnrUtils.TwoProfilesExample` | src/lib/dnr-utils.test.ts:90-116 | two profiles: priorities 1 then 2, with headers A then B |
| `CompilerVersions.SameRulesOppositePriorities` | src/lib/dnr-utils.ts:8-37 | both versions emit rules for the same profiles with the same ids and conditions; their priorities sum to `profiles.length + 1`, so they rank every pair of rules in opposite orders |
| `CompilerVersions.OperationsNeverCoincide` | src/lib/dnr-utils.ts:29-33 | for the same profile, the current version's first operation is SET and the earlier version's is APPEND, so the two rule lists differ whenever any rule is emitted |

## Left out

- The background scripts (`entrypoints/background.ts`, `src/background.ts`,
  `src/entrypoints/background.ts`) are not part of this model. They watch
  storage and call `getDynamicRules` and `updateDynamicRules`; that is I/O
  against the browser.
- The editor and list UI (`ProfileEditor.tsx`, `ProfileList.tsx`,
  `App.tsx`, `popup.tsx`) are not part of this model. That includes the
  editor's removal of empty header rows before saving. The compiler itself
  keeps such rows, and so does the model.
- The docs site, build configuration and the placeholder end-to-end test
  are not part of this model.
- Regular-expression semantics: `urlRegex` is an opaque string that is
  copied into `regexFilter`. Matching is the browser's job.
- `Text.ToLower`: `String.prototype.toLowerCase` is modelled for ASCII
  only. Other characters are kept as they are, so names that differ only in
  non-ASCII case are not grouped together.
- The browser enums are limited to the values these compilers use:
  SET/APPEND, MODIFY_HEADERS and the 13 listed resource types. Rule fields
  the compilers never set are not modelled.
- Rule ids and priorities are unbounded integers. The browser's
  limits on rule counts and id ranges are outside the compiler.
- Determinism and the absence of errors are not stated separately. Every
  operation here is a total function, or a method proved equal to one.
