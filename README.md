# Feature Policy DevTools extension — verified model

The extension adds a "Feature Policy" panel to Chrome DevTools. The panel
reads which features the inspected page allows. It lets the user switch a
feature off (an *override*). It then rewrites the page's `Feature-Policy`
response header so that the next load of the page obeys the overrides.
Two parts of the extension rewrite headers:

- the panel page (`panel.js`) registers its own `onHeadersReceived`
  listener;
- the background page (`background.js`) keeps a registry of DevTools
  connections per tab and registers a second listener.

This project models, in Dafny:

- **The policy store** of the panel (`FeaturePolicyMananger` and the
  module-level variables behind its accessors), as the class
  `Panel.FeaturePolicyManager`. It covers sorting the page's policies by
  name, merging overrides into the list shown, toggling an override, and
  restoring the originals.
- **The panel's header listener.** It keeps every header not named exactly
  `Feature-Policy`. It folds the values of those headers, followed by one
  directive per override, into a single `Feature-Policy` header placed
  last.
- **The background header listener.** It matches header names against
  `Feature-Policy` without regard to case, anywhere in the name. It splits
  each value into `;`-separated directives and keeps, per policy name, the
  last allow list it saw. Overrides win over the page. It emits one
  `Feature-Policy` header per policy name, in the order the names were
  first set.
- **The connection registry** of the background page: `init` messages,
  `setPolicyManager`, and disconnects.

JavaScript objects and `Map`s iterate in insertion order. Both are modelled
as sequences of key/value pairs with distinct keys (`OrderedMap`). The
JavaScript string built-ins the code relies on are written out in
`JsStrings`: `join`, `split` with a one-character separator, `trim`, the
case-insensitive regular-expression test, and the default string `sort`.

Where the code departs from what its names and comments suggest, the model
follows the code:

- a toggle deletes an existing override or inserts `{allowList: ["'none'"],
  customized: true}`; it never flips an `allowed` flag;
- the background listener emits headers in Map insertion order, not sorted;
- the panel matches the header name exactly (case-sensitive); the
  background matches by case-insensitive substring;
- the background keeps only the first two space-separated tokens of a
  directive, so a second origin is dropped
  (`Background.ParseDirectiveTruncates`);
- an empty or whitespace-only directive, such as the one after the trailing
  `;` of `geolocation 'self';`, is stored in the background's Map as the
  empty name with `[undefined]`, and is emitted as a `Feature-Policy`
  header whose value is a single space
  (`Background.TrailingSemicolonEmitsBlankHeader`).

## Model

| member | source | states |
|---|---|---|
| `JsStrings.Join` | background.js:68 | definition of `join`; `JsStrings.JoinSplit` and `JsStrings.SplitJoin` state that it and `split` invert each other |
| `JsStrings.Split` | background.js:54 | `split` returns at least one piece and no piece contains the separator |
| `JsStrings.JoinSplit` | background.js:54 | joining the pieces of `split` with the separator gives back the string |
| `JsStrings.SplitJoin` | background.js:54 | `split` undoes `join` when no piece holds the separator |
| `JsStrings.SplitWithoutSeparator` | background.js:54 | a string without the separator splits to itself |
| `JsStrings.SplitAtSeparator` | background.js:54 | `a + sep + b` splits into `a` followed by the pieces of `b` |
| `JsStrings.SplitTrailingSeparator` | background.js:54 | a separator at the end of the string adds one empty piece after the others |
| `JsStrings.TrimStart` | background.js:54 | the result is a suffix that does not start with whitespace, and every character dropped is whitespace |
| `JsStrings.TrimEnd` | background.js:54 | the result is a prefix that does not end with whitespace, and every character dropped is whitespace |
| `JsStrings.Trim` | background.js:54 | `trim` returns the contiguous middle of the string with no whitespace at either end, and everything it drops before or after that middle is whitespace |
| `JsStrings.ContainsIgnoringCase` | background.js:50-51 | definition of the case-insensitive test; `JsStrings.ContainsIgnoringCaseAt` states what it means |
| `JsStrings.ContainsIgnoringCaseAt` | background.js:50-51 | the case-insensitive test succeeds exactly when the pattern matches the string at some index, each character equal up to ASCII case |
| `JsStrings.HasInfixAt` | background.js:50-51 | the substring scan succeeds exactly when the pattern occurs at some index |
| `JsStrings.LexLessIrreflexive` | panel.js:50 | no string sorts before itself |
| `JsStrings.LexLessTransitive` | panel.js:50 | the string order is transitive |
| `JsStrings.LexLessTotal` | panel.js:50 | any two different strings are ordered one way or the other |
| `JsStrings.LexLessAsymmetric` | panel.js:50 | two strings are never each before the other |
| `JsStrings.InsertSorted` | panel.js:50 | inserting into a sorted list keeps it sorted and adds exactly that element |
| `JsStrings.SortStrings` | panel.js:50 | `sort` returns a sorted permutation of its input |
| `JsStrings.DistinctMultiplicity` | panel.js:50 | a list has no duplicates exactly when every element occurs at most once in its multiset |
| `JsStrings.SortDistinctIsStrict` | panel.js:50 | sorting distinct keys gives distinct keys in strictly ascending order |
| `OrderedMap.Get` | panel.js:162 | a lookup fails exactly when the key is absent; when it succeeds the pair is in the map |
| `OrderedMap.GetAt` | background.js:30 | in a map with distinct keys, a lookup finds the entry at any index |
| `OrderedMap.IndexOf` | panel.js:198 | the position of a present key: the entry there has that key and no earlier one does |
| `OrderedMap.Put` | panel.js:51 | setting a new key appends it; setting a present key overwrites its entry in place |
| `OrderedMap.PutGet` | background.js:55 | after a set, the key holds the new value and every other key keeps its value |
| `OrderedMap.PutKeys` | background.js:55 | a set keeps the key order and appends only a new key |
| `OrderedMap.DeleteIsRemoveKey` | panel.js:198 | `delete` yields exactly the entries whose key differs from the deleted one, in their order |
| `OrderedMap.DeleteGet` | panel.js:198 | after a delete the key is absent and every other key keeps its value |
| `OrderedMap.DeleteAfterPut` | panel.js:195-209 | adding an absent key and deleting it again restores the map |
| `OrderedMap.PutAllSnoc` | background.js:54-56 | writing one more entry is one more set |
| `OrderedMap.PutAllGet` | background.js:54-65 | after a run of sets, each key holds the last value written for it, or its earlier value |
| `OrderedMap.PutAllKeys` | background.js:54-65 | a run of sets keeps the earlier keys first, and its key set is the earlier keys plus the keys written |
| `OrderedMap.PutAllKeysGrow` | background.js:54-56 | a key keeps the position of its first set; later sets only append |
| `OrderedMap.PutAllAppend` | background.js:54-65 | writing `a` and then `b` is writing `a + b` |
| `OrderedMap.PutAllDistinct` | background.js:67-68 | writing entries with distinct keys into an empty map rebuilds exactly those entries |
| `OrderedMap.LastForAppend` | background.js:62-65 | the last write for a key in `a + b` is in `b` whenever `b` writes that key |
| `OrderedMap.LastForDistinct` | background.js:63-65 | without repeated keys, the last write for a key is its only one |
| `Panel.SortedKeysOf` | panel.js:50 | the sorted keys are distinct, strictly ascending, and exactly the object's keys |
| `Panel.SortedByKeyCorrect` | panel.js:48-54 | `sortObjectByKey` keeps every key's value and the size, and orders the keys strictly ascending |
| `Panel.SortObjectByKey` | panel.js:48-54 | the loop builds exactly the sorted object |
| `Panel.Effective` | panel.js:159-167 | the effective list has exactly the original keys in their order |
| `Panel.MergePrecedence` | panel.js:159-167 | a page feature shows its override if one exists and its original record otherwise; overrides for features the page lacks are dropped |
| `Panel.EffectiveWithoutOverrides` | panel.js:154-157 | with no overrides the effective list is the original list |
| `Panel.Toggled` | panel.js:195-209 | definition of the toggled overrides; `Panel.ToggleEffect` and `Panel.ToggleTwice` state its effect |
| `Panel.ToggleEffect` | panel.js:195-209 | a toggle removes an existing override, adds the `'none'` override otherwise, and leaves every other feature alone |
| `Panel.ToggleTwice` | panel.js:195-209 | toggling twice restores every feature's override; without an earlier override the object is restored exactly, with one the key moves last |
| `Panel.FeaturePolicyManager.constructor` | panel.js:27-29 | the store starts with an empty list and two empty objects |
| `Panel.FeaturePolicyManager.SetAllFeaturePoliciesSupportedByBrowser` | panel.js:134-136 | the setter stores the list and nothing else |
| `Panel.FeaturePolicyManager.SetOriginalPoliciesSetByPage` | panel.js:142-144 | the setter stores the originals and nothing else |
| `Panel.FeaturePolicyManager.SetCustomizedPolicies` | panel.js:150-152 | the setter stores the overrides and nothing else |
| `Panel.FeaturePolicyManager.RestoreOriginalPoliciesSetByPage` | panel.js:154-157 | all overrides are dropped, so the effective list becomes the original list |
| `Panel.FeaturePolicyManager.BuildCustomizedPolicyList` | panel.js:159-167 | the loop returns the effective list and changes nothing |
| `Panel.FeaturePolicyManager.OnFeaturePoliciesEvaluated` | panel.js:177-192 | on an exception nothing changes; otherwise the sorted result becomes the originals only if none were recorded yet |
| `Panel.FeaturePolicyManager.TogglePolicyOnPage` | panel.js:195-209 | the overrides become the toggled overrides |
| `Panel.OtherHeadersAppend` | panel.js:271-277 | filtering and collecting distribute over concatenation |
| `Panel.OtherHeadersClean` | panel.js:271-277 | the headers kept hold no exactly-named policy header, and filtering them again changes nothing |
| `Panel.OtherHeadersAll` | panel.js:271-277 | with no exactly-named policy header, every header is kept |
| `Panel.PanelRewrite` | panel.js:266-295 | definition of the panel's rewritten headers; `Panel.PanelRewriteShape`, `Panel.PanelRewriteNothingToAdd` and `Panel.PanelIgnoresLowerCaseName` state its properties |
| `Panel.PanelRewriteShape` | panel.js:266-295 | the other headers keep their order; at most one policy header is added, last, holding the page values then the override directives joined by "; ", and only when something was collected |
| `Panel.PanelRewriteNothingToAdd` | panel.js:283-295 | without policy headers and overrides the headers come back unchanged |
| `Panel.PanelIgnoresLowerCaseName` | panel.js:272 | a header named `feature-policy` in lower case is passed through, not merged |
| `Panel.OnHeadersReceived` | panel.js:260-296 | no change outside the inspected tab's top frame; otherwise exactly the rewritten list |
| `Background.IsPolicyHeaderName` | background.js:50-51 | definition of the header-name test; `JsStrings.ContainsIgnoringCaseAt` states what it means and `Background.EmittedNameIsPolicyName` that `Feature-Policy` passes it |
| `Background.ParseDirective` | background.js:54 | neither the policy name nor the value of a directive contains a space; which tokens it yields is stated by the `Background.ParseDirective…` lemmas below |
| `Background.FinalPolicies` | background.js:49-65 | definition of the listener's Map after the page's directives and the overrides; `Background.OverridesWin`, `Background.FinalPolicyNames` and `Background.PageNamesFirst` state its contents and order |
| `Background.BackgroundRewrite` | background.js:44-76 | definition of the rewritten headers; `Background.RewriteKeepsOtherHeaders`, `Background.NothingToRewrite` and `Background.RewriteIsStable` state its properties |
| `Background.EmittedNameIsPolicyName` | background.js:10 | `Feature-Policy` itself matches the case-insensitive test |
| `Background.OtherHeadersAppend` | background.js:49-60 | the headers copied through distribute over concatenation |
| `Background.FlatMapAppend` | background.js:49-60 | the concatenation over a list distributes over concatenation |
| `Background.PageDirectivesAppend` | background.js:49-60 | the directives of two header lists are those of the first, then the second |
| `Background.PageDirectivesStep` | background.js:49-60 | one more header adds its own directives at the end |
| `Background.OtherHeadersClean` | background.js:49-60 | copying the copied headers again changes nothing |
| `Background.OtherHeadersHaveNoDirectives` | background.js:49-60 | the copied headers contribute no directive |
| `Background.EmitIsAllPolicy` | background.js:67-69 | every emitted header matches the policy-name test, so none would be copied through again |
| `Background.RewriteKeepsOtherHeaders` | background.js:36-77 | the non-policy headers come first, unchanged and in order; every header after them is a `Feature-Policy` header |
| `Background.OverridesWin` | background.js:62-65 | an overridden name gets the override's allow list; any other name gets the allow list of the page's last directive for it |
| `Background.FinalPolicyNames` | background.js:54-68 | one header per name: the names emitted are exactly the page's names plus the overridden names |
| `Background.PageNamesFirst` | background.js:62-68 | the page's names keep their first-seen positions ahead of names only an override brings |
| `Background.LaterDirectiveKeepsPosition` | background.js:54-56 | a later directive for a name replaces its allow list but not its position |
| `Background.NothingToRewrite` | background.js:49-76 | with no policy header and no override the headers come back unchanged |
| `Background.ParseDirectiveOneToken` | background.js:54 | a lone name yields an undefined value |
| `Background.ParseDirectiveTrailingSpace` | background.js:54 | `name ` (trailing space) reads back as a lone name |
| `Background.ParseDirectiveTwoTokens` | background.js:54 | a name and one origin give that name and origin |
| `Background.ParseDirectiveTruncates` | background.js:54 | only the first two tokens survive; two spaces give an empty value |
| `Background.ParseDirectiveBlank` | background.js:54 | an item parses to the empty name exactly when it is whitespace only, and the empty name always comes with `undefined` |
| `Background.PageBlankIsUndefined` | background.js:49-56 | every Map write for the empty name is `[undefined]` |
| `Background.LastForBlank` | background.js:54-55 | when the page writes the empty name, its last value is `[undefined]` |
| `Background.TrailingSemicolon` | background.js:54-55 | a value ending in `;` carries one more directive than without it: the empty name with `[undefined]` |
| `Background.BlankPolicyHeader` | background.js:67-68 | the empty name with `[undefined]` is emitted as a `Feature-Policy` header whose value is one space |
| `Background.TrailingSemicolonEmitsBlankHeader` | background.js:44-76 | a policy header whose value ends in `;` makes the listener emit a `Feature-Policy` header with value `" "`, unless the empty name is overridden |
| `Background.ReparsePolicyHeader` | background.js:54-68 | an emitted header with a plain name and allow list, or the empty name with `[undefined]` (emitted as `" "`), parses back to the same name and rendering |
| `Background.ReparseEmitted` | background.js:54-68 | with plain names and allow lists (or the empty name with `[undefined]`), re-reading the emitted headers gives back the Map's names and renderings |
| `Background.ReparseEmittedIsEmitted` | background.js:54-68 | with plain names and allow lists (or the empty name with `[undefined]`), re-reading the emitted headers yields distinct names that emit the same headers |
| `Background.RewriteDirectives` | background.js:49-68 | the rewritten headers carry only the directives of the emitted headers |
| `Background.RewriteIsStable` | background.js:36-77 | with plain names and allow lists, or the empty name with `[undefined]` left by a trailing `;`, rewriting the rewritten headers again (no overrides) changes nothing; an allow list of several origins is excluded because re-reading keeps only the first |
| `Background.FirstWithPort` | background.js:98-99 | the index of the first entry with the port, or the length when there is none |
| `Background.WithoutFirstPort` | background.js:98-104 | a disconnect removes the first entry with that port and keeps the rest in order; with no such entry nothing changes |
| `Background.DisconnectAfterInit` | background.js:84-104 | registering a new tab and then disconnecting its port restores the registry |
| `Background.ConnectionRegistry.constructor` | background.js:12 | the registry starts empty |
| `Background.ConnectionRegistry.OnMessage` | background.js:81-91 | `init` registers the port for its tab with a null manager, replacing an earlier entry in place; other messages change nothing |
| `Background.ConnectionRegistry.SetPolicyManager` | background.js:29-34 | only a registered tab's manager changes |
| `Background.ConnectionRegistry.OnDisconnect` | background.js:95-105 | the registry becomes the registry without the first entry for the port |
| `Background.ConnectionRegistry.OnHeadersReceived` | background.js:36-77 | no change outside the top frame or for an unregistered tab; a TypeError when the tab's manager is null; otherwise exactly the rewritten headers |
| `Background.SetHeaderDirectives` | background.js:54-56 | one header value's directives are set in the Map, in order |
| `Background.SetDirectives` | background.js:54-56 | each `[policyName, val]` pair is set as `[val]`, in order |
| `Background.SetOverrides` | background.js:63-65 | each override's allow list is set in the Map, in order |
| `Background.AppendPolicyHeaders` | background.js:67-69 | one `Feature-Policy` header per Map entry is appended, in Map order |

## Left out

- The lit-html user interface (`UI`, `updateDOMLists`, error display), `reloadPage`, `getBackgroundPage` and panel creation are DOM or DevTools I/O.
- `getFeaturePolicyAllowListOnPage` and `getAllFeaturePolicies` query the browser's `document.policy`. Their results enter the model as parameters: the `result` of `OnFeaturePoliciesEvaluated` and the list given to the setter.
- `getFeaturePolicies` injects code into the page through `inspectedWindow.eval`. Only its callback is modelled (`OnFeaturePoliciesEvaluated`), with the exception flag as `None`.
- Listener registration, `onNavigated`, `onCompleted` and `getCurrentTab` are event wiring or logging. The asynchronous ordering of events is not modelled.
- `Panel.FeaturePolicyManager`: the getter's `console.warn` and the `|| []` / `|| {}` fallbacks are not modelled. The fields always hold a list or an object, so the fallbacks never apply.
- Object keys that look like array indices (`"0"`, `"12"`) come first in a JavaScript object's key order, and keys inherited from `Object.prototype` (such as `constructor`) read as present. Feature names are neither, and the model treats every key as an ordinary insertion-ordered string key.
- `JsStrings.LexLess` compares Unicode scalar values. JavaScript compares UTF-16 code units, which orders characters above U+FFFF differently.
- `Background.ConnectionRegistry.OnDisconnect` does not model the write of `null` into the entry just before it is deleted, because the entry is gone afterwards. Removing the message listener from the port is not modelled either.
- `setPolicyManager` is never called in `background.js` or `panel.js`, so a registered tab keeps a null manager. `Background.ConnectionRegistry.OnHeadersReceived` then throws (`ThrewTypeError`), and the model shows this.
- A header's `binaryValue` is not modelled; every header carries a string value.
- The object copies in the source (`Object.assign` of a header, `JSON.parse(JSON.stringify(...))` of the originals) are value copies in the model.
