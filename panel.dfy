/**
 * The DevTools panel (panel.js): the store of the page's original feature
 * policies and of the user's overrides, the effective list shown to the
 * user, and the panel's own `onHeadersReceived` listener, which folds every
 * exactly-named `Feature-Policy` header and every override into a single
 * header placed last.
 */
module Panel {
  import opened Types
  import opened JsStrings
  import opened OrderedMap

  /** A JS object mapping feature names to policy records, in insertion order. */
  type PolicyObject = Ordered<string, PolicyRecord>

  /**
   * The record `togglePolicyOnPage` stores for a feature without an
   * override: the feature is denied everywhere and marked customized. It has
   * no `allowed` property.
   */
  const NoneOverride: PolicyRecord := PolicyRecord(None, ["'none'"], true)

  // ---------------------------------------------------------------------
  // sortObjectByKey
  // ---------------------------------------------------------------------

  /** The entries of `obj` for the keys `ks`, in the order of `ks`. */
  function Pick<V>(obj: Ordered<string, V>, ks: seq<string>): seq<(string, V)>
    requires forall i :: 0 <= i < |ks| ==> ks[i] in Keys(obj)
  {
    seq(|ks|, i requires 0 <= i < |ks| => (ks[i], Get(obj, ks[i]).value))
  }

  /** Picking one more key appends its entry. */
  lemma PickStep<V>(obj: Ordered<string, V>, ks: seq<string>, i: int)
    requires forall j :: 0 <= j < |ks| ==> ks[j] in Keys(obj)
    requires 0 <= i < |ks|
    ensures Keys(Pick(obj, ks[..i])) == ks[..i]
    ensures Pick(obj, ks[..i + 1]) == Pick(obj, ks[..i]) + [(ks[i], Get(obj, ks[i]).value)]
  {
  }

  /** Every key of `obj` occurs in the sorted key list, and only those. */
  lemma SortedKeysOf<V>(obj: Ordered<string, V>)
    ensures IsDistinct(Keys(obj))
    ensures var ks := SortStrings(Keys(obj));
      IsDistinct(ks) && |ks| == |obj|
      && (forall i :: 0 <= i < |ks| ==> ks[i] in Keys(obj))
      && (forall k :: k in Keys(obj) ==> k in ks)
      && (forall i, j :: 0 <= i < j < |ks| ==> LexLess(ks[i], ks[j]))
  {
    var keys := Keys(obj);
    var ks := SortStrings(keys);
    SortDistinctIsStrict(keys);
    assert |ks| == |multiset(ks)| == |multiset(keys)| == |keys|;
    forall i | 0 <= i < |ks|
      ensures ks[i] in keys
    {
      assert ks[i] in multiset(ks);
    }
    forall k | k in keys
      ensures k in ks
    {
      assert k in multiset(keys);
    }
  }

  /** What `sortObjectByKey(obj)` returns: the same entries, keys in ascending order. */
  function SortedByKey<V>(obj: Ordered<string, V>): Ordered<string, V>
  {
    SortedKeysOf(obj);
    var ks := SortStrings(Keys(obj));
    var r := Pick(obj, ks);
    assert Keys(r) == ks;
    r
  }

  /**
   * sortObjectByKey keeps exactly the key/value pairs of its argument and
   * lists the keys in strictly ascending order.
   */
  lemma {:induction false} SortedByKeyCorrect<V>(obj: Ordered<string, V>, k: string)
    ensures |SortedByKey(obj)| == |obj|
    ensures forall i, j :: 0 <= i < j < |obj| ==> LexLess(SortedByKey(obj)[i].0, SortedByKey(obj)[j].0)
    ensures Get(SortedByKey(obj), k) == Get(obj, k)
  {
    SortedKeysOf(obj);
    var r := SortedByKey(obj);
    if k in Keys(obj) {
      var ks := SortStrings(Keys(obj));
      var i :| 0 <= i < |ks| && ks[i] == k;
      GetAt(r, i);
    } else {
      assert forall i :: 0 <= i < |r| ==> Keys(r)[i] != k;
    }
  }

  /** `sortObjectByKey`: copies the entries into a fresh object in key order. */
  method SortObjectByKey<V>(obj: Ordered<string, V>) returns (sortedByName: Ordered<string, V>)
    ensures sortedByName == SortedByKey(obj)
  {
    SortedKeysOf(obj);
    var keys := SortStrings(Keys(obj));
    sortedByName := [];
    var i := 0;
    while i < |keys|
      invariant 0 <= i <= |keys|
      invariant sortedByName == Pick(obj, keys[..i])
    {
      var key := keys[i];
      PickStep(obj, keys, i);
      assert key !in keys[..i];
      sortedByName := Put(sortedByName, key, Get(obj, key).value);
      i := i + 1;
    }
    assert keys[..i] == keys;
  }

  // ---------------------------------------------------------------------
  // buildCustomizedPolicyList
  // ---------------------------------------------------------------------

  /** The record shown for one original entry: the override if there is one. */
  function Chosen(entry: (string, PolicyRecord), customized: PolicyObject): PolicyRecord
  {
    match Get(customized, entry.0)
    case Some(o) => o
    case None => entry.1
  }

  /** The effective policy list: the original keys, each with its override where one exists. */
  function Effective(originals: PolicyObject, customized: PolicyObject): (r: PolicyObject)
    ensures Keys(r) == Keys(originals)
  {
    var r := seq(|originals|, i requires 0 <= i < |originals| => (originals[i].0, Chosen(originals[i], customized)));
    assert Keys(r) == Keys(originals);
    r
  }

  /**
   * Merge precedence: a feature of the page shows its override if one
   * exists and its original record otherwise; an override for a feature
   * the page does not list is dropped.
   */
  lemma MergePrecedence(originals: PolicyObject, customized: PolicyObject, k: string)
    ensures Get(Effective(originals, customized), k) ==
      if k in Keys(originals) && Get(customized, k).Some? then Get(customized, k) else Get(originals, k)
  {
    var r := Effective(originals, customized);
    if k in Keys(originals) {
      var i := IndexOf(originals, k);
      GetAt(r, i);
      GetAt(originals, i);
    } else {
      assert k !in Keys(r);
    }
  }

  /** With no overrides the effective list is the original list itself. */
  lemma EffectiveWithoutOverrides(originals: PolicyObject)
    ensures Effective(originals, []) == originals
  {
  }

  // ---------------------------------------------------------------------
  // togglePolicyOnPage
  // ---------------------------------------------------------------------

  /** The override object after toggling `name`. */
  function Toggled(customized: PolicyObject, name: string): PolicyObject
  {
    if Get(customized, name).Some? then Delete(customized, name) else Put(customized, name, NoneOverride)
  }

  /**
   * A toggle deletes an existing override, inserts NoneOverride where there
   * was none, and changes no other feature.
   */
  lemma ToggleEffect(customized: PolicyObject, name: string, k: string)
    ensures Get(Toggled(customized, name), k) ==
      if k != name then Get(customized, k)
      else if Get(customized, name).Some? then None
      else Some(NoneOverride)
  {
    if Get(customized, name).Some? {
      DeleteGet(customized, name, k);
    } else {
      PutGet(customized, name, NoneOverride, k);
    }
  }

  /**
   * Toggling twice gives every feature back the override it had, as long
   * as an existing override is the one a toggle creates. Without an
   * earlier override the object is restored exactly; with one, the key
   * moves to the end of the insertion order.
   */
  lemma ToggleTwice(customized: PolicyObject, name: string)
    requires Get(customized, name).None? || Get(customized, name) == Some(NoneOverride)
    ensures forall k :: Get(Toggled(Toggled(customized, name), name), k) == Get(customized, k)
    ensures Get(customized, name).None? ==> Toggled(Toggled(customized, name), name) == customized
    ensures Get(customized, name).Some? ==>
      Keys(Toggled(Toggled(customized, name), name)) == Keys(Delete(customized, name)) + [name]
  {
    var once := Toggled(customized, name);
    forall k
      ensures Get(Toggled(once, name), k) == Get(customized, k)
    {
      ToggleEffect(customized, name, k);
      ToggleEffect(once, name, k);
      ToggleEffect(customized, name, name);
    }
    if Get(customized, name).None? {
      DeleteAfterPut(customized, name, NoneOverride);
    } else {
      DeleteGet(customized, name, name);
      PutKeys(once, name, NoneOverride);
    }
  }

  // ---------------------------------------------------------------------
  // The store: FeaturePolicyMananger over the module-level variables
  // ---------------------------------------------------------------------

  /**
   * The panel's policy store. Its three fields are the module-level
   * variables `_allFeaturePolicies`, `_originalPoliciesUsedOnPage` and
   * `_customizedPolicies`; the getters read them directly (their `|| {}`
   * fallbacks never apply, since the fields always hold an object).
   */
  class FeaturePolicyManager {
    var allFeaturePolicies: seq<string>
    var originalPolicies: PolicyObject
    var customizedPolicies: PolicyObject

    /** The state the module starts in: empty list, empty objects. */
    constructor ()
      ensures allFeaturePolicies == [] && originalPolicies == [] && customizedPolicies == []
    {
      allFeaturePolicies := [];
      originalPolicies := [];
      customizedPolicies := [];
    }

    /** Setter `allFeaturePoliciesSupportedByBrowser`. */
    method SetAllFeaturePoliciesSupportedByBrowser(features: seq<string>)
      modifies this`allFeaturePolicies
      ensures allFeaturePolicies == features
    {
      allFeaturePolicies := features;
    }

    /** Setter `originalPoliciesSetByPage`. */
    method SetOriginalPoliciesSetByPage(policies: PolicyObject)
      modifies this`originalPolicies
      ensures originalPolicies == policies
    {
      originalPolicies := policies;
    }

    /** Setter `customizedPolicies`. */
    method SetCustomizedPolicies(policies: PolicyObject)
      modifies this`customizedPolicies
      ensures customizedPolicies == policies
    {
      customizedPolicies := policies;
    }

    /**
     * `restoreOriginalPoliciesSetByPage`: drops every override; the
     * originals stay, so the effective list becomes the original list.
     */
    method RestoreOriginalPoliciesSetByPage()
      modifies this`customizedPolicies
      ensures customizedPolicies == []
      ensures Effective(originalPolicies, customizedPolicies) == originalPolicies
    {
      SetCustomizedPolicies([]);
      EffectiveWithoutOverrides(originalPolicies);
    }

    /**
     * `buildCustomizedPolicyList`: a copy of the originals in which every
     * entry with an override is replaced by it; nothing is modified.
     */
    method BuildCustomizedPolicyList() returns (list: PolicyObject)
      ensures list == Effective(originalPolicies, customizedPolicies)
    {
      list := originalPolicies;
      var i := 0;
      while i < |list|
        invariant 0 <= i <= |list| == |originalPolicies|
        invariant forall j :: 0 <= j < i ==> list[j] == (originalPolicies[j].0, Chosen(originalPolicies[j], customizedPolicies))
        invariant forall j :: i <= j < |list| ==> list[j] == originalPolicies[j]
        decreases |originalPolicies| - i
      {
        var feature := list[i].0;
        var custom := Get(customizedPolicies, feature);
        IndexOfAt(list, i);
        if custom.Some? {
          list := Put(list, feature, custom.value);
        }
        i := i + 1;
      }
    }

    /**
     * The callback of the page evaluation in `getFeaturePolicies`:
     * `result` is None when the evaluation raised. The sorted result
     * becomes the original set only while that set is still empty.
     */
    method OnFeaturePoliciesEvaluated(result: Option<PolicyObject>)
      modifies this`originalPolicies
      ensures result.None? || old(originalPolicies) != [] ==> originalPolicies == old(originalPolicies)
      ensures result.Some? && old(originalPolicies) == [] ==> originalPolicies == SortedByKey(result.value)
    {
      if result.None? {
        return;
      }
      var sorted := SortObjectByKey(result.value);
      if |Keys(originalPolicies)| == 0 {
        SetOriginalPoliciesSetByPage(sorted);
      }
    }

    /** `togglePolicyOnPage`: delete the override if there is one, else add NoneOverride. */
    method TogglePolicyOnPage(policyName: string)
      modifies this`customizedPolicies
      ensures customizedPolicies == Toggled(old(customizedPolicies), policyName)
    {
      var feature := Get(customizedPolicies, policyName);
      if feature.Some? {
        customizedPolicies := Delete(customizedPolicies, policyName);
      } else {
        customizedPolicies := Put(customizedPolicies, policyName, NoneOverride);
      }
    }
  }

  // ---------------------------------------------------------------------
  // The panel's onHeadersReceived listener
  // ---------------------------------------------------------------------

  /** The panel recognises only a header named exactly `Feature-Policy`. */
  predicate IsPolicyHeader(h: Header)
  {
    h.name == FP_HEADER
  }

  /** The headers the listener keeps as they are, in order. */
  function OtherHeaders(hs: seq<Header>): seq<Header>
  {
    if hs == [] then []
    else
      var kept := OtherHeaders(hs[..|hs| - 1]);
      if IsPolicyHeader(hs[|hs| - 1]) then kept else kept + [hs[|hs| - 1]]
  }

  /** The raw values of the `Feature-Policy` headers, in order. */
  function PolicyValues(hs: seq<Header>): seq<string>
  {
    if hs == [] then []
    else
      var vals := PolicyValues(hs[..|hs| - 1]);
      if IsPolicyHeader(hs[|hs| - 1]) then vals + [hs[|hs| - 1].value] else vals
  }

  /** One directive `name allowList...` per override, in insertion order. */
  function OverrideDirectives(customized: PolicyObject): seq<string>
  {
    seq(|customized|, i requires 0 <= i < |customized| => customized[i].0 + " " + Join(customized[i].1.allowList, " "))
  }

  /** Everything the listener collects for the single policy header. */
  function Collected(hs: seq<Header>, customized: PolicyObject): seq<string>
  {
    PolicyValues(hs) + OverrideDirectives(customized)
  }

  /** The headers the listener returns for the inspected tab's top frame. */
  function PanelRewrite(hs: seq<Header>, customized: PolicyObject): seq<Header>
  {
    var collected := Collected(hs, customized);
    OtherHeaders(hs) + if |collected| > 0 then [Header(FP_HEADER, Join(collected, "; "))] else []
  }

  lemma {:induction false} OtherHeadersAppend(a: seq<Header>, b: seq<Header>)
    ensures OtherHeaders(a + b) == OtherHeaders(a) + OtherHeaders(b)
    ensures PolicyValues(a + b) == PolicyValues(a) + PolicyValues(b)
    decreases |b|
  {
    if b == [] {
      assert a + b == a;
    } else {
      var ab := a + b;
      assert ab[..|ab| - 1] == a + b[..|b| - 1];
      OtherHeadersAppend(a, b[..|b| - 1]);
    }
  }

  /** The kept headers hold no policy header, and keeping them again changes nothing. */
  lemma {:induction false} OtherHeadersClean(hs: seq<Header>)
    ensures OtherHeaders(OtherHeaders(hs)) == OtherHeaders(hs)
    ensures PolicyValues(OtherHeaders(hs)) == []
    decreases |hs|
  {
    if hs != [] {
      var init := hs[..|hs| - 1];
      OtherHeadersClean(init);
      if !IsPolicyHeader(hs[|hs| - 1]) {
        OtherHeadersAppend(OtherHeaders(init), [hs[|hs| - 1]]);
        assert [hs[|hs| - 1]][..0] == [];
      }
    }
  }

  /** With no policy header among them, the kept headers are all the headers. */
  lemma {:induction false} OtherHeadersAll(hs: seq<Header>)
    requires PolicyValues(hs) == []
    ensures OtherHeaders(hs) == hs
    decreases |hs|
  {
    if hs != [] {
      var init := hs[..|hs| - 1];
      OtherHeadersAll(init);
      assert init + [hs[|hs| - 1]] == hs;
    }
  }

  /**
   * The rewritten list keeps the other headers in their order and holds
   * at most one `Feature-Policy` header: present exactly when a page value
   * or an override was collected, placed last, its value the page values
   * followed by the override directives, joined with "; ".
   */
  lemma PanelRewriteShape(hs: seq<Header>, customized: PolicyObject)
    ensures OtherHeaders(PanelRewrite(hs, customized)) == OtherHeaders(hs)
    ensures PolicyValues(PanelRewrite(hs, customized)) ==
      if |Collected(hs, customized)| > 0 then [Join(Collected(hs, customized), "; ")] else []
    ensures |Collected(hs, customized)| > 0 ==>
      PanelRewrite(hs, customized)[|PanelRewrite(hs, customized)| - 1] == Header(FP_HEADER, Join(Collected(hs, customized), "; "))
  {
    var collected := Collected(hs, customized);
    var tail := if |collected| > 0 then [Header(FP_HEADER, Join(collected, "; "))] else [];
    OtherHeadersAppend(OtherHeaders(hs), tail);
    OtherHeadersClean(hs);
    if tail != [] {
      assert tail[..0] == [];
    }
  }

  /** A response without policy headers, with no overrides, comes back unchanged. */
  lemma PanelRewriteNothingToAdd(hs: seq<Header>)
    requires PolicyValues(hs) == []
    ensures PanelRewrite(hs, []) == hs
  {
    OtherHeadersAll(hs);
  }

  /**
   * The match is case-sensitive: a lower-case `feature-policy` header is
   * passed through and not merged.
   */
  lemma PanelIgnoresLowerCaseName(customized: PolicyObject)
    ensures var h := Header("feature-policy", "usb *");
      PanelRewrite([h], customized) ==
        [h] + if |customized| > 0 then [Header(FP_HEADER, Join(OverrideDirectives(customized), "; "))] else []
  {
    var h := Header("feature-policy", "usb *");
    assert "feature-policy"[0] != FP_HEADER[0];
    assert !IsPolicyHeader(h);
    assert [h][..0] == [];
    assert OtherHeaders([h]) == [h];
    assert PolicyValues([h]) == [];
    assert Collected([h], customized) == OverrideDirectives(customized);
  }

  /**
   * The panel's `onHeadersReceived` listener: no change outside the top
   * frame of the inspected tab, the rewritten list otherwise.
   */
  method OnHeadersReceived(manager: FeaturePolicyManager, inspectedTabId: int, frameId: int, tabId: int, responseHeaders: seq<Header>)
    returns (r: HookResult)
    ensures frameId != 0 || tabId != inspectedTabId ==> r == NoChange
    ensures frameId == 0 && tabId == inspectedTabId ==> r == Rewritten(PanelRewrite(responseHeaders, manager.customizedPolicies))
  {
    if frameId != 0 || inspectedTabId != tabId {
      return NoChange;
    }
    var kept: seq<Header> := [];
    var collected: seq<string> := [];
    var i := 0;
    while i < |responseHeaders|
      invariant 0 <= i <= |responseHeaders|
      invariant kept == OtherHeaders(responseHeaders[..i])
      invariant collected == PolicyValues(responseHeaders[..i])
    {
      var header := responseHeaders[i];
      assert responseHeaders[..i + 1][..i] == responseHeaders[..i];
      if header.name == FP_HEADER {
        collected := collected + [header.value];
      } else {
        kept := kept + [header];
      }
      i := i + 1;
    }
    assert responseHeaders[..i] == responseHeaders;
    var overrides := manager.customizedPolicies;
    var j := 0;
    while j < |overrides|
      invariant 0 <= j <= |overrides|
      invariant collected == PolicyValues(responseHeaders) + OverrideDirectives(overrides)[..j]
    {
      var (key, val) := overrides[j];
      collected := collected + [key + " " + Join(val.allowList, " ")];
      assert OverrideDirectives(overrides)[..j + 1] == OverrideDirectives(overrides)[..j] + [key + " " + Join(val.allowList, " ")];
      j := j + 1;
    }
    assert OverrideDirectives(overrides)[..j] == OverrideDirectives(overrides);
    if |collected| > 0 {
      kept := kept + [Header(FP_HEADER, Join(collected, "; "))];
    }
    return Rewritten(kept);
  }
}
