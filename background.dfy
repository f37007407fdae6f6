/**
 * The background page (background.js): the registry of DevTools
 * connections per tab, and its `onHeadersReceived` listener, which splits
 * every header whose name contains "feature-policy" (in any case) into
 * directives, lets the overrides of the tab's policy manager win, and
 * emits one `Feature-Policy` header per policy name after all other
 * headers.
 */
module Background {
  import opened Types
  import opened JsStrings
  import opened OrderedMap
  import Panel

  // ---------------------------------------------------------------------
  // Parsing the page's policy headers
  // ---------------------------------------------------------------------

  /** `RegExp(FP_HEADER, 'i').test(name)`: the name contains "feature-policy" in any case. */
  predicate IsPolicyHeaderName(name: string)
  {
    ContainsIgnoringCase(name, FP_HEADER)
  }

  /**
   * A JS array of allow-list entries as stored in the listener's Map: an
   * entry read from a page directive with a single token is `undefined`.
   */
  type AllowList = seq<Option<string>>

  /** The listener's `featurePolicyHeaders` Map: policy name to allow list, in first-set order. */
  type PolicyHeaders = Ordered<string, AllowList>

  /**
   * One `;`-separated item: trimmed, split on single spaces, and only the
   * first two tokens kept, as `[policyName, val]`; `val` is `undefined`
   * when there is no second token.
   */
  function ParseDirective(item: string): (d: (string, Option<string>))
    ensures ' ' !in d.0 && (d.1.Some? ==> ' ' !in d.1.value)
  {
    var tokens := Split(Trim(item), ' ');
    (tokens[0], if |tokens| > 1 then Some(tokens[1]) else None)
  }

  /** `items.map(item => item.trim()).map(item => item.split(' '))`, read as `[policyName, val]` pairs. */
  function DirectivePairs(items: seq<string>): seq<(string, Option<string>)>
  {
    seq(|items|, i requires 0 <= i < |items| => ParseDirective(items[i]))
  }

  /** The Map writes of the pairs: `set(policyName, [val])` for each. */
  function DirectiveEntries(pairs: seq<(string, Option<string>)>): seq<(string, AllowList)>
  {
    seq(|pairs|, i requires 0 <= i < |pairs| => (pairs[i].0, [pairs[i].1]))
  }

  /** The Map writes for one policy header value. */
  function HeaderDirectives(value: string): seq<(string, AllowList)>
  {
    DirectiveEntries(DirectivePairs(Split(value, ';')))
  }

  /** The Map writes one header contributes: its directives if its name matches, none otherwise. */
  function HeaderEntries(h: Header): seq<(string, AllowList)>
  {
    if IsPolicyHeaderName(h.name) then HeaderDirectives(h.value) else []
  }

  /** The concatenation of `f(x)` over `xs`, in order. */
  function FlatMap<T, U>(f: T -> seq<U>, xs: seq<T>): seq<U>
  {
    if xs == [] then [] else FlatMap(f, xs[..|xs| - 1]) + f(xs[|xs| - 1])
  }

  /** The Map writes of all policy headers, in header order then item order. */
  function PageDirectives(hs: seq<Header>): seq<(string, AllowList)>
  {
    FlatMap(HeaderEntries, hs)
  }

  /** The headers copied through, in order. */
  function OtherHeaders(hs: seq<Header>): seq<Header>
  {
    if hs == [] then []
    else
      var kept := OtherHeaders(hs[..|hs| - 1]);
      if IsPolicyHeaderName(hs[|hs| - 1].name) then kept else kept + [hs[|hs| - 1]]
  }

  /** An override's allow list as a JS array (it holds no `undefined`). */
  function Lift(allowList: seq<string>): AllowList
  {
    seq(|allowList|, i requires 0 <= i < |allowList| => Some(allowList[i]))
  }

  /** The Map writes of the overrides: `set(policyName, val.allowList)` for each. */
  function OverrideEntries(customized: Panel.PolicyObject): (es: Ordered<string, AllowList>)
    ensures Keys(es) == Keys(customized)
  {
    var es := seq(|customized|, i requires 0 <= i < |customized| => (customized[i].0, Lift(customized[i].1.allowList)));
    assert Keys(es) == Keys(customized);
    es
  }

  /** The Map after the page's directives and then the overrides were written. */
  function FinalPolicies(hs: seq<Header>, customized: Panel.PolicyObject): PolicyHeaders
  {
    PutAll([], PageDirectives(hs) + OverrideEntries(customized))
  }

  /** `allowList.join(' ')`: `undefined` entries join as the empty string. */
  function JoinAllowList(allowList: AllowList): string
  {
    Join(seq(|allowList|, i requires 0 <= i < |allowList| => if allowList[i].Some? then allowList[i].value else ""), " ")
  }

  /** The header emitted for one policy: `name allowList...`. */
  function PolicyHeader(name: string, allowList: AllowList): Header
  {
    Header(FP_HEADER, name + " " + JoinAllowList(allowList))
  }

  /** One header per Map entry, in the Map's order. */
  function Emit(fp: seq<(string, AllowList)>): seq<Header>
  {
    seq(|fp|, i requires 0 <= i < |fp| => PolicyHeader(fp[i].0, fp[i].1))
  }

  /** The headers the listener returns for a registered tab's top frame. */
  function BackgroundRewrite(hs: seq<Header>, customized: Panel.PolicyObject): seq<Header>
  {
    OtherHeaders(hs) + Emit(FinalPolicies(hs, customized))
  }

  // ---------------------------------------------------------------------
  // What the rewriting guarantees
  // ---------------------------------------------------------------------

  /** The name the listener emits is itself recognised as a policy header name. */
  lemma EmittedNameIsPolicyName()
    ensures IsPolicyHeaderName(FP_HEADER)
  {
    var p := LowerAscii(FP_HEADER);
    assert p[..|p|] == p;
  }

  /** Filtering distributes over concatenation. */
  lemma {:induction false} OtherHeadersAppend(a: seq<Header>, b: seq<Header>)
    ensures OtherHeaders(a + b) == OtherHeaders(a) + OtherHeaders(b)
    decreases |b|
  {
    if b == [] {
      assert a + b == a;
    } else {
      var ab := a + b;
      assert ab[..|ab| - 1] == a + b[..|b| - 1];
      OtherHeadersAppend(a, b[..|b| - 1]);
    }
  }

  lemma {:induction false} FlatMapAppend<T, U>(f: T -> seq<U>, a: seq<T>, b: seq<T>)
    ensures FlatMap(f, a + b) == FlatMap(f, a) + FlatMap(f, b)
    decreases |b|
  {
    if b == [] {
      assert a + b == a;
    } else {
      var ab := a + b;
      assert ab[..|ab| - 1] == a + b[..|b| - 1];
      FlatMapAppend(f, a, b[..|b| - 1]);
    }
  }

  /** The directives of two header lists are those of the first, then those of the second. */
  lemma PageDirectivesAppend(a: seq<Header>, b: seq<Header>)
    ensures PageDirectives(a + b) == PageDirectives(a) + PageDirectives(b)
  {
    FlatMapAppend(HeaderEntries, a, b);
  }

  /** One more header adds its own directives at the end. */
  lemma PageDirectivesStep(hs: seq<Header>, i: int)
    requires 0 <= i < |hs|
    ensures PageDirectives(hs[..i + 1]) == PageDirectives(hs[..i]) + HeaderEntries(hs[i])
  {
    assert hs[..i + 1][..i] == hs[..i];
  }

  /** Copying the copied headers again changes nothing. */
  lemma {:induction false} OtherHeadersClean(hs: seq<Header>)
    ensures OtherHeaders(OtherHeaders(hs)) == OtherHeaders(hs)
    decreases |hs|
  {
    if hs != [] {
      var init := hs[..|hs| - 1];
      var h := hs[|hs| - 1];
      OtherHeadersClean(init);
      if !IsPolicyHeaderName(h.name) {
        OtherHeadersAppend(OtherHeaders(init), [h]);
        assert [h][..0] == [];
      }
    }
  }

  /** The copied headers hold no policy header, hence no directive. */
  lemma {:induction false} OtherHeadersHaveNoDirectives(hs: seq<Header>)
    ensures PageDirectives(OtherHeaders(hs)) == []
    decreases |hs|
  {
    if hs != [] {
      var init := hs[..|hs| - 1];
      var h := hs[|hs| - 1];
      OtherHeadersHaveNoDirectives(init);
      if !IsPolicyHeaderName(h.name) {
        PageDirectivesAppend(OtherHeaders(init), [h]);
        assert [h][..0] == [];
        assert PageDirectives([h]) == HeaderEntries(h) == [];
      }
    }
  }

  /** Every emitted header is a policy header; none is copied through again. */
  lemma {:induction false} EmitIsAllPolicy(fp: seq<(string, AllowList)>)
    ensures OtherHeaders(Emit(fp)) == []
    ensures forall i :: 0 <= i < |fp| ==> IsPolicyHeaderName(Emit(fp)[i].name)
    decreases |fp|
  {
    EmittedNameIsPolicyName();
    if fp != [] {
      var init := fp[..|fp| - 1];
      EmitIsAllPolicy(init);
      assert Emit(fp)[..|fp| - 1] == Emit(init);
    }
  }

  /**
   * Pass-through and order: the headers whose name does not contain
   * "feature-policy" come first, unchanged and in their original order;
   * every header after them is a `Feature-Policy` header.
   */
  lemma RewriteKeepsOtherHeaders(hs: seq<Header>, customized: Panel.PolicyObject)
    ensures OtherHeaders(BackgroundRewrite(hs, customized)) == OtherHeaders(hs)
    ensures BackgroundRewrite(hs, customized)[..|OtherHeaders(hs)|] == OtherHeaders(hs)
    ensures forall i :: |OtherHeaders(hs)| <= i < |BackgroundRewrite(hs, customized)| ==>
      BackgroundRewrite(hs, customized)[i].name == FP_HEADER
  {
    var fp := FinalPolicies(hs, customized);
    var kept, emitted := OtherHeaders(hs), Emit(fp);
    assert BackgroundRewrite(hs, customized) == kept + emitted;
    OtherHeadersAppend(kept, emitted);
    OtherHeadersClean(hs);
    EmitIsAllPolicy(fp);
    assert (kept + emitted)[..|kept|] == kept;
    assert forall i :: |kept| <= i < |kept + emitted| ==> (kept + emitted)[i] == emitted[i - |kept|];
  }

  /**
   * Precedence: an override's allow list replaces whatever the page
   * declared for that name, also for names the page did not declare; any
   * other name keeps the allow list of the page's last directive for it.
   */
  lemma OverridesWin(hs: seq<Header>, customized: Panel.PolicyObject, k: string)
    ensures Get(FinalPolicies(hs, customized), k) ==
      if k in Keys(customized) then Some(Lift(Get(customized, k).value.allowList))
      else LastFor(PageDirectives(hs), k)
  {
    var oe := OverrideEntries(customized);
    PutAllGet([], PageDirectives(hs) + oe, k);
    LastForAppend(PageDirectives(hs), oe, k);
    LastForDistinct(oe, k);
    if k in Keys(customized) {
      var i := IndexOf(customized, k);
      GetAt(customized, i);
      GetAt(oe, i);
    }
  }

  /**
   * One header per policy name: the emitted headers follow the Map, whose
   * names are distinct and are exactly the names the page declared plus the
   * names overridden.
   */
  lemma FinalPolicyNames(hs: seq<Header>, customized: Panel.PolicyObject)
    ensures forall k :: k in Keys(FinalPolicies(hs, customized)) <==>
      k in Keys(PageDirectives(hs)) || k in Keys(customized)
  {
    var pd := PageDirectives(hs);
    var oe := OverrideEntries(customized);
    PutAllKeys([], pd + oe);
    assert Keys(pd + oe) == Keys(pd) + Keys(oe);
  }

  /**
   * The page's names keep the positions of their first directive, ahead of
   * the names only an override brings.
   */
  lemma PageNamesFirst(hs: seq<Header>, customized: Panel.PolicyObject)
    ensures Keys(PutAll([], PageDirectives(hs))) <= Keys(FinalPolicies(hs, customized))
  {
    var pd := PageDirectives(hs);
    var oe := OverrideEntries(customized);
    PutAllAppend([], pd, oe);
    PutAllKeys(PutAll([], pd), oe);
  }

  /**
   * A later directive for a name replaces the allow list of an earlier one
   * but not its position: writing more directives never moves a name
   * already in the Map.
   */
  lemma LaterDirectiveKeepsPosition(hs: seq<Header>, j: int)
    requires 0 <= j <= |PageDirectives(hs)|
    ensures Keys(PutAll([], PageDirectives(hs)[..j])) <= Keys(PutAll([], PageDirectives(hs)))
    ensures forall k :: Get(PutAll([], PageDirectives(hs)), k) == LastFor(PageDirectives(hs), k)
  {
    PutAllKeysGrow([], PageDirectives(hs), j);
    forall k
      ensures Get(PutAll([], PageDirectives(hs)), k) == LastFor(PageDirectives(hs), k)
    {
      PutAllGet([], PageDirectives(hs), k);
    }
  }

  /** No policy header on the page and no override: the headers come back unchanged. */
  lemma {:induction false} NothingToRewrite(hs: seq<Header>)
    requires forall i :: 0 <= i < |hs| ==> !IsPolicyHeaderName(hs[i].name)
    ensures BackgroundRewrite(hs, []) == hs
    decreases |hs|
  {
    if hs != [] {
      var init := hs[..|hs| - 1];
      NothingToRewrite(init);
      assert init + [hs[|hs| - 1]] == hs;
      assert PageDirectives(hs) == PageDirectives(init);
    }
  }

  // ---------------------------------------------------------------------
  // How one directive parses
  // ---------------------------------------------------------------------

  /** No whitespace and no `;`. */
  predicate IsPlainToken(s: string)
  {
    forall i :: 0 <= i < |s| ==> !IsJsWhitespace(s[i]) && s[i] != ';'
  }

  /** A lone name yields `undefined` as its value. */
  lemma ParseDirectiveOneToken(name: string)
    requires name != [] && IsPlainToken(name)
    ensures ParseDirective(name) == (name, None)
  {
    TrimUnchanged(name);
    assert ' ' !in name;
    SplitWithoutSeparator(name, ' ');
  }

  /** A name followed by a space (how a directive with an `undefined` value is emitted) reads back as a lone name. */
  lemma ParseDirectiveTrailingSpace(name: string)
    requires name != [] && IsPlainToken(name)
    ensures ParseDirective(name + " ") == (name, None)
  {
    var v := name + [' '];
    assert v[0] == name[0] && !IsJsWhitespace(v[0]);
    assert TrimStart(v) == v;
    assert v[|v| - 1] == ' ' && v[..|v| - 1] == name;
    assert TrimEnd(v) == TrimEnd(name);
    TrimUnchanged(name);
    assert Trim(v) == name;
    ParseDirectiveOneToken(name);
  }

  /** A name and one origin give the name and that origin. */
  lemma ParseDirectiveTwoTokens(name: string, val: string)
    requires name != [] && IsPlainToken(name)
    requires val != [] && IsPlainToken(val)
    ensures ParseDirective(name + " " + val) == (name, Some(val))
  {
    var v := name + " " + val;
    assert v == name + [' '] + val;
    TrimUnchanged(v);
    assert ' ' !in name && ' ' !in val;
    SplitAtSeparator(name, ' ', val);
    SplitWithoutSeparator(val, ' ');
  }

  /**
   * Only the first two tokens survive: whatever follows the second space
   * (a second origin, say) is dropped. With `val` empty this is the
   * double-space case, `"a  *"`, which yields `a` with the empty string.
   */
  lemma ParseDirectiveTruncates(name: string, val: string, rest: string)
    requires name != [] && IsPlainToken(name) && IsPlainToken(val)
    requires rest != [] && !IsJsWhitespace(rest[|rest| - 1])
    ensures ParseDirective(name + " " + val + " " + rest) == (name, Some(val))
  {
    var tail := val + [' '] + rest;
    var v := name + [' '] + tail;
    assert v == name + " " + val + " " + rest;
    TrimUnchanged(v);
    assert ' ' !in name && ' ' !in val;
    SplitAtSeparator(name, ' ', tail);
    SplitAtSeparator(val, ' ', rest);
  }

  /**
   * The empty item: an item parses to the empty name exactly when it is
   * whitespace only (the empty string after a trailing `;`, say), and the
   * empty name always comes with `undefined`.
   */
  lemma ParseDirectiveBlank(item: string)
    ensures ParseDirective(item).0 == "" <==> forall i :: 0 <= i < |item| ==> IsJsWhitespace(item[i])
    ensures ParseDirective(item).0 == "" ==> ParseDirective(item).1 == None
  {
    var t := Trim(item);
    var a := |item| - |TrimStart(item)|;
    if t == [] {
      assert Split(t, ' ') == [""];
    } else {
      assert t[0] == item[a] && t[0] != ' ';
      assert Split(t, ' ')[0] == [t[0]] + Split(t[1..], ' ')[0];
    }
  }

  /** Every directive for the empty name holds `[undefined]`. */
  predicate BlankIsUndefined(es: seq<(string, AllowList)>)
  {
    forall i :: 0 <= i < |es| && es[i].0 == "" ==> es[i].1 == [None]
  }

  lemma {:induction false} PageBlankIsUndefined(hs: seq<Header>)
    ensures BlankIsUndefined(PageDirectives(hs))
    decreases |hs|
  {
    if hs != [] {
      var n := |hs| - 1;
      PageBlankIsUndefined(hs[..n]);
      PageDirectivesStep(hs, n);
      assert hs[..n + 1] == hs;
      var he := HeaderEntries(hs[n]);
      forall i | 0 <= i < |he| && he[i].0 == ""
        ensures he[i].1 == [None]
      {
        var items := Split(hs[n].value, ';');
        ParseDirectiveBlank(items[i]);
      }
    }
  }

  lemma {:induction false} LastForBlank(es: seq<(string, AllowList)>)
    requires BlankIsUndefined(es) && "" in Keys(es)
    ensures LastFor(es, "") == Some([None])
    decreases |es|
  {
    var n := |es| - 1;
    if es[n].0 != "" {
      var init := es[..n];
      assert Keys(es) == Keys(init) + [es[n].0];
      LastForBlank(init);
    }
  }

  /** A value ending in `;` carries one more directive: the empty name with `undefined`. */
  lemma TrailingSemicolon(value: string)
    ensures HeaderDirectives(value + ";") == HeaderDirectives(value) + [("", [None])]
  {
    SplitTrailingSeparator(value, ';');
    ParseDirectiveBlank("");
  }

  /** The empty name with `undefined` is emitted as a `Feature-Policy` header whose value is one space. */
  lemma BlankPolicyHeader()
    ensures PolicyHeader("", [None]) == Header(FP_HEADER, " ")
  {
    assert JoinAllowList([None]) == Join([""], " ") == "";
  }

  /**
   * A policy header whose value ends in `;` (as in `geolocation 'self';`)
   * makes the listener emit a `Feature-Policy` header whose value is a
   * single space, unless the empty name is overridden.
   */
  lemma TrailingSemicolonEmitsBlankHeader(hs: seq<Header>, customized: Panel.PolicyObject, i: int)
    requires 0 <= i < |hs| && IsPolicyHeaderName(hs[i].name)
    requires |hs[i].value| > 0 && hs[i].value[|hs[i].value| - 1] == ';'
    requires "" !in Keys(customized)
    ensures Header(FP_HEADER, " ") in BackgroundRewrite(hs, customized)
  {
    var v := hs[i].value;
    TrailingSemicolon(v[..|v| - 1]);
    assert v == v[..|v| - 1] + ";";
    var he := HeaderEntries(hs[i]);
    assert he[|he| - 1] == ("", [None]);
    PageDirectivesStep(hs, i);
    PageDirectivesAppend(hs[..i + 1], hs[i + 1..]);
    assert hs[..i + 1] + hs[i + 1..] == hs;
    var pd := PageDirectives(hs);
    var at := |PageDirectives(hs[..i])| + |he| - 1;
    assert pd[at] == ("", [None]);
    assert Keys(pd)[at] == "";
    PageBlankIsUndefined(hs);
    LastForBlank(pd);
    OverridesWin(hs, customized, "");
    var fp := FinalPolicies(hs, customized);
    assert ("", [None]) in fp;
    var j :| 0 <= j < |fp| && fp[j] == ("", [None]);
    BlankPolicyHeader();
    var out := BackgroundRewrite(hs, customized);
    assert out[|OtherHeaders(hs)| + j] == Emit(fp)[j];
  }

  // ---------------------------------------------------------------------
  // Round trip: the rewritten headers rewrite to themselves
  // ---------------------------------------------------------------------

  /**
   * A Map entry whose header parses back to itself: a non-empty plain name
   * and an allow list that joins to one plain token (or to nothing).
   */
  predicate IsPlainEntry(e: (string, AllowList))
  {
    e.0 != "" && IsPlainToken(e.0) && IsPlainToken(JoinAllowList(e.1))
  }

  /**
   * A Map entry whose header parses back to itself: a plain entry, or the
   * empty name with `[undefined]` that a trailing `;` leaves behind.
   */
  predicate IsStableEntry(e: (string, AllowList))
  {
    IsPlainEntry(e) || e == ("", [None])
  }

  /** The header emitted for a stable entry parses back to the same name and rendering. */
  lemma ReparsePolicyHeader(e: (string, AllowList))
    requires IsStableEntry(e)
    ensures var ds := HeaderDirectives(PolicyHeader(e.0, e.1).value);
      |ds| == 1 && ds[0].0 == e.0 && JoinAllowList(ds[0].1) == JoinAllowList(e.1)
  {
    if !IsPlainEntry(e) {
      BlankPolicyHeader();
      SplitWithoutSeparator(" ", ';');
      ParseDirectiveBlank(" ");
      return;
    }
    var name, text := e.0, JoinAllowList(e.1);
    var v := name + " " + text;
    assert ';' !in v by {
      assert forall i :: 0 <= i < |v| ==> v[i] == if i < |name| then name[i] else if i == |name| then ' ' else text[i - |name| - 1];
    }
    SplitWithoutSeparator(v, ';');
    var ds := HeaderDirectives(v);
    assert ds == DirectiveEntries([ParseDirective(v)]);
    if text == [] {
      assert v == name + " ";
      ParseDirectiveTrailingSpace(name);
      assert ds[0] == (name, [None]);
      assert JoinAllowList([None]) == "";
    } else {
      ParseDirectiveTwoTokens(name, text);
      assert ds[0] == (name, [Some(text)]);
      assert JoinAllowList([Some(text)]) == text;
    }
  }

  /** Re-reading the emitted headers gives back the Map's names and renderings. */
  lemma {:induction false} ReparseEmitted(fp: PolicyHeaders)
    requires forall i :: 0 <= i < |fp| ==> IsStableEntry(fp[i])
    ensures |PageDirectives(Emit(fp))| == |fp|
    ensures forall i :: 0 <= i < |fp| ==>
      PageDirectives(Emit(fp))[i].0 == fp[i].0 && JoinAllowList(PageDirectives(Emit(fp))[i].1) == JoinAllowList(fp[i].1)
    decreases |fp|
  {
    EmittedNameIsPolicyName();
    if fp != [] {
      var init := fp[..|fp| - 1];
      var last := fp[|fp| - 1];
      ReparseEmitted(init);
      assert Emit(fp)[..|fp| - 1] == Emit(init);
      ReparsePolicyHeader(last);
    }
  }

  /** Re-reading stable emitted headers yields distinct names whose headers are the same headers. */
  lemma ReparseEmittedIsEmitted(fp: PolicyHeaders)
    requires forall i :: 0 <= i < |fp| ==> IsStableEntry(fp[i])
    ensures DistinctKeys(PageDirectives(Emit(fp)))
    ensures Emit(PageDirectives(Emit(fp))) == Emit(fp)
  {
    ReparseEmitted(fp);
    var g := PageDirectives(Emit(fp));
    assert forall i :: 0 <= i < |g| ==> g[i].0 == fp[i].0;
  }

  /** The directives in the rewritten headers are those of the emitted headers alone. */
  lemma RewriteDirectives(hs: seq<Header>, customized: Panel.PolicyObject)
    ensures OtherHeaders(BackgroundRewrite(hs, customized)) == OtherHeaders(hs)
    ensures PageDirectives(BackgroundRewrite(hs, customized)) == PageDirectives(Emit(FinalPolicies(hs, customized)))
  {
    var fp := FinalPolicies(hs, customized);
    RewriteKeepsOtherHeaders(hs, customized);
    PageDirectivesAppend(OtherHeaders(hs), Emit(fp));
    OtherHeadersHaveNoDirectives(hs);
  }

  /**
   * Header round trip: when every policy in the rewritten headers has a
   * plain name and at most one plain origin, or is the empty name of a
   * trailing `;`, running the listener again, with no overrides, returns
   * the same headers.
   */
  lemma RewriteIsStable(hs: seq<Header>, customized: Panel.PolicyObject)
    requires forall i :: 0 <= i < |FinalPolicies(hs, customized)| ==> IsStableEntry(FinalPolicies(hs, customized)[i])
    ensures BackgroundRewrite(BackgroundRewrite(hs, customized), []) == BackgroundRewrite(hs, customized)
  {
    var fp := FinalPolicies(hs, customized);
    var out := BackgroundRewrite(hs, customized);
    RewriteDirectives(hs, customized);
    ReparseEmittedIsEmitted(fp);
    var g: PolicyHeaders := PageDirectives(Emit(fp));
    PutAllDistinct(g);
    assert OverrideEntries([]) == [];
    assert PageDirectives(out) + OverrideEntries([]) == g;
    assert FinalPolicies(out, []) == g;
  }

  // ---------------------------------------------------------------------
  // The connection registry and the listener
  // ---------------------------------------------------------------------

  /** A runtime port; ports are compared by identity. */
  class Port {
    constructor ()
    {
    }
  }

  /** A registry entry: the tab's port and its policy manager, null until one is set. */
  datatype Connection = Connection(port: Port, policyManager: Panel.FeaturePolicyManager?)

  /** A message sent by the DevTools page over its port. */
  datatype Message = Message(name: string, tabId: int)

  /** The position of the first entry registered with `port`, or the length if none. */
  function FirstWithPort(m: seq<(int, Connection)>, port: Port): (i: nat)
    ensures i <= |m|
    ensures forall j :: 0 <= j < i ==> m[j].1.port != port
    ensures i < |m| ==> m[i].1.port == port
  {
    if m == [] then 0
    else if m[0].1.port == port then 0
    else 1 + FirstWithPort(m[1..], port)
  }

  /** The registry after a disconnect of `port`: its first entry removed, all else kept. */
  function WithoutFirstPort(m: Ordered<int, Connection>, port: Port): (r: Ordered<int, Connection>)
    ensures (forall i :: 0 <= i < |m| ==> m[i].1.port != port) ==> r == m
    ensures forall i :: 0 <= i < |m| && m[i].1.port == port && (forall j :: 0 <= j < i ==> m[j].1.port != port) ==>
      r == m[..i] + m[i + 1..]
  {
    var i := FirstWithPort(m, port);
    if i == |m| then m
    else
      IndexOfAt(m, i);
      Delete(m, m[i].0)
  }

  /**
   * A DevTools page that registers a new tab with a port used by no other
   * entry, then disconnects, leaves the registry as it found it.
   */
  lemma DisconnectAfterInit(m: Ordered<int, Connection>, tabId: int, port: Port)
    requires tabId !in Keys(m)
    requires forall i :: 0 <= i < |m| ==> m[i].1.port != port
    ensures WithoutFirstPort(Put(m, tabId, Connection(port, null)), port) == m
  {
    var p := Put(m, tabId, Connection(port, null));
    assert p == m + [(tabId, Connection(port, null))];
    assert FirstWithPort(p, port) == |m|;
    DeleteAfterPut(m, tabId, Connection(port, null));
  }

  /** The `connections` Map of the background page. */
  class ConnectionRegistry {
    var connections: Ordered<int, Connection>

    constructor ()
      ensures connections == []
    {
      connections := [];
    }

    /**
     * The port's message listener: an `init` message registers the port
     * for its tab with a null policy manager, replacing an earlier entry
     * in place; every other message is ignored.
     */
    method OnMessage(message: Message, port: Port)
      modifies this
      ensures message.name != "init" ==> connections == old(connections)
      ensures message.name == "init" ==> connections == Put(old(connections), message.tabId, Connection(port, null))
      ensures message.name == "init" ==> Get(connections, message.tabId) == Some(Connection(port, null))
      ensures forall k :: k != message.tabId ==> Get(connections, k) == Get(old(connections), k)
    {
      if message.name == "init" {
        connections := Put(connections, message.tabId, Connection(port, null));
        forall k
          ensures Get(connections, k) == Get(old(connections), k) || k == message.tabId
        {
          PutGet(old(connections), message.tabId, Connection(port, null), k);
        }
        PutGet(old(connections), message.tabId, Connection(port, null), message.tabId);
      }
    }

    /** `setPolicyManager`: only a registered tab's entry changes, and only its manager. */
    method SetPolicyManager(tabId: int, policyManager: Panel.FeaturePolicyManager?)
      modifies this
      ensures tabId !in Keys(old(connections)) ==> connections == old(connections)
      ensures tabId in Keys(old(connections)) ==>
        connections == Put(old(connections), tabId, Get(old(connections), tabId).value.(policyManager := policyManager))
    {
      var connection := Get(connections, tabId);
      if connection.Some? {
        connections := Put(connections, tabId, connection.value.(policyManager := policyManager));
      }
    }

    /** The port's disconnect listener: the first entry with that port is deleted. */
    method OnDisconnect(port: Port)
      modifies this
      ensures connections == WithoutFirstPort(old(connections), port)
    {
      var i := 0;
      while i < |connections|
        invariant 0 <= i <= |connections|
        invariant connections == old(connections)
        invariant forall j :: 0 <= j < i ==> connections[j].1.port != port
      {
        var (tabId, val) := connections[i];
        if val.port == port {
          connections := Delete(connections, tabId);
          return;
        }
        i := i + 1;
      }
    }

    /**
     * The background `onHeadersReceived` listener. It leaves the response
     * alone outside the top frame or for an unregistered tab, throws when
     * the tab's policy manager is still null, and otherwise returns the
     * rewritten headers.
     */
    method OnHeadersReceived(frameId: int, tabId: int, responseHeaders: seq<Header>) returns (r: HookResult)
      ensures frameId != 0 || tabId !in Keys(connections) ==> r == NoChange
      ensures frameId == 0 && tabId in Keys(connections) && Get(connections, tabId).value.policyManager == null ==>
        r == ThrewTypeError
      ensures frameId == 0 && tabId in Keys(connections) && Get(connections, tabId).value.policyManager != null ==>
        r == Rewritten(BackgroundRewrite(responseHeaders, Get(connections, tabId).value.policyManager.customizedPolicies))
    {
      if frameId != 0 || Get(connections, tabId).None? {
        return NoChange;
      }
      var policyManager := Get(connections, tabId).value.policyManager;
      var kept: seq<Header> := [];
      var featurePolicyHeaders: PolicyHeaders := [];
      var i := 0;
      while i < |responseHeaders|
        invariant 0 <= i <= |responseHeaders|
        invariant kept == OtherHeaders(responseHeaders[..i])
        invariant featurePolicyHeaders == PutAll([], PageDirectives(responseHeaders[..i]))
      {
        var header := responseHeaders[i];
        assert responseHeaders[..i + 1][..i] == responseHeaders[..i];
        PageDirectivesStep(responseHeaders, i);
        PutAllAppend([], PageDirectives(responseHeaders[..i]), HeaderEntries(header));
        if IsPolicyHeaderName(header.name) {
          featurePolicyHeaders := SetHeaderDirectives(featurePolicyHeaders, header.value);
        } else {
          kept := kept + [header];
        }
        i := i + 1;
      }
      assert responseHeaders[..i] == responseHeaders;
      if policyManager == null {
        return ThrewTypeError;
      }
      PutAllAppend([], PageDirectives(responseHeaders), OverrideEntries(policyManager.customizedPolicies));
      featurePolicyHeaders := SetOverrides(featurePolicyHeaders, policyManager.customizedPolicies);
      kept := AppendPolicyHeaders(kept, featurePolicyHeaders);
      return Rewritten(kept);
    }
  }

  /** Splits one policy header value into directives and sets each in the Map, in order. */
  method SetHeaderDirectives(featurePolicyHeaders: PolicyHeaders, value: string) returns (r: PolicyHeaders)
    ensures r == PutAll(featurePolicyHeaders, HeaderDirectives(value))
  {
    var pairs := DirectivePairs(Split(value, ';'));
    r := SetDirectives(featurePolicyHeaders, pairs);
  }

  /** The `forEach(([policyName, val]) => ...)`: `set(policyName, [val])` for each pair, in order. */
  method SetDirectives(featurePolicyHeaders: PolicyHeaders, pairs: seq<(string, Option<string>)>) returns (r: PolicyHeaders)
    ensures r == PutAll(featurePolicyHeaders, DirectiveEntries(pairs))
  {
    r := featurePolicyHeaders;
    var j := 0;
    while j < |pairs|
      invariant 0 <= j <= |pairs|
      invariant r == PutAll(featurePolicyHeaders, DirectiveEntries(pairs)[..j])
    {
      var (policyName, val) := pairs[j];
      assert DirectiveEntries(pairs)[..j + 1] == DirectiveEntries(pairs)[..j] + [(policyName, [val])];
      PutAllSnoc(featurePolicyHeaders, DirectiveEntries(pairs)[..j], (policyName, [val]));
      r := Put(r, policyName, [val]);
      j := j + 1;
    }
    assert DirectiveEntries(pairs)[..j] == DirectiveEntries(pairs);
  }

  /** Sets every override's allow list in the Map, in the overrides' order. */
  method SetOverrides(featurePolicyHeaders: PolicyHeaders, customized: Panel.PolicyObject) returns (r: PolicyHeaders)
    ensures r == PutAll(featurePolicyHeaders, OverrideEntries(customized))
  {
    r := featurePolicyHeaders;
    var k := 0;
    while k < |customized|
      invariant 0 <= k <= |customized|
      invariant r == PutAll(featurePolicyHeaders, OverrideEntries(customized)[..k])
    {
      var (policyName, val) := customized[k];
      assert OverrideEntries(customized)[..k + 1] == OverrideEntries(customized)[..k] + [(policyName, Lift(val.allowList))];
      PutAllSnoc(featurePolicyHeaders, OverrideEntries(customized)[..k], (policyName, Lift(val.allowList)));
      r := Put(r, policyName, Lift(val.allowList));
      k := k + 1;
    }
    assert OverrideEntries(customized)[..k] == OverrideEntries(customized);
  }

  /** Pushes one `Feature-Policy` header per Map entry after the headers kept. */
  method AppendPolicyHeaders(kept: seq<Header>, featurePolicyHeaders: PolicyHeaders) returns (r: seq<Header>)
    ensures r == kept + Emit(featurePolicyHeaders)
  {
    r := kept;
    var n := 0;
    while n < |featurePolicyHeaders|
      invariant 0 <= n <= |featurePolicyHeaders|
      invariant r == kept + Emit(featurePolicyHeaders)[..n]
    {
      var (policyName, allowList) := featurePolicyHeaders[n];
      assert Emit(featurePolicyHeaders)[..n + 1] == Emit(featurePolicyHeaders)[..n] + [PolicyHeader(policyName, allowList)];
      r := r + [PolicyHeader(policyName, allowList)];
      n := n + 1;
    }
    assert Emit(featurePolicyHeaders)[..n] == Emit(featurePolicyHeaders);
  }
}
