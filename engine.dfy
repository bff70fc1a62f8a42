/**
 * The rule engine shared by the navigation handler and the content script:
 * which rules apply to a hostname, how the applicable rules rewrite the query
 * and the path, and when the rewritten URL is navigated to.
 */
module Engine {
  import opened Wrappers
  import opened JsText
  import SP = SearchParams
  import FormUrlEncoded
  import opened Rules
  import opened Urls
  import Seqs

  /** `!result.enabled` is false only for a stored `true`; an absent flag is off. */
  predicate IsOn(stored: Option<bool>) {
    stored == Some(true)
  }

  /** The hostname is the rule's domain or one of its subdomains. */
  predicate DomainMatches(hostname: string, domain: string) {
    hostname == domain || EndsWith(hostname, "." + domain)
  }

  /** Domain matching, restated: equal, or some labels followed by "." and the domain. */
  lemma DomainMatchesIff(hostname: string, domain: string)
    ensures DomainMatches(hostname, domain)
            <==> hostname == domain || exists k :: 0 <= k < |hostname| && hostname == hostname[..k] + "." + domain
  {
    if EndsWith(hostname, "." + domain) {
      var k := |hostname| - |domain| - 1;
      assert hostname == hostname[..k] + "." + domain;
    }
    if exists k :: 0 <= k < |hostname| && hostname == hostname[..k] + "." + domain {
      var k :| 0 <= k < |hostname| && hostname == hostname[..k] + "." + domain;
      assert hostname[|hostname| - |"." + domain|..] == "." + domain;
    }
  }

  /** A subdomain matches its parent domain; a name that merely ends in it does not. */
  lemma SubdomainExamples()
    ensures DomainMatches("sub.example.com", "example.com")
    ensures !DomainMatches("notexample.com", "example.com")
  {
    assert "sub.example.com"[3..] == ".example.com";
    assert "notexample.com"[2..][0] == 't';
  }

  /** The `filter` over the stored rules: the enabled rules whose domain matches, in order. */
  function MatchingRules(rules: seq<Rule>, hostname: string): (r: seq<Rule>)
    ensures forall rule :: rule in r <==> rule in rules && rule.enabled && DomainMatches(hostname, rule.domain)
    ensures |r| <= |rules|
  {
    if rules == [] then []
    else
      var keep := rules[0].enabled && DomainMatches(hostname, rules[0].domain);
      var rest := MatchingRules(rules[1..], hostname);
      assert forall rule :: rule in rules <==> rule == rules[0] || rule in rules[1..];
      (if keep then [rules[0]] else []) + rest
  }

  /** Matching keeps the stored order: it distributes over concatenation. */
  lemma {:induction false} MatchingRulesAppend(a: seq<Rule>, b: seq<Rule>, hostname: string)
    ensures MatchingRules(a + b, hostname) == MatchingRules(a, hostname) + MatchingRules(b, hostname)
  {
    if a == [] {
      assert a + b == b;
    } else {
      assert (a + b)[0] == a[0] && (a + b)[1..] == a[1..] + b;
      MatchingRulesAppend(a[1..], b, hostname);
    }
  }

  /**
   * The variables the rule loop updates: the `searchParams` list, the URL's
   * path and the two flags.
   */
  datatype Progress = Progress(params: seq<SP.Pair>, path: string, modified: bool, paramsModified: bool)

  /** The state before the first rule: the parsed query and the original path. */
  function Start(url: Url): Progress {
    Progress(SP.FromSearch(url.search), url.pathname, false, false)
  }

  /** The path is `fromPath` itself or continues it after a `/`. */
  predicate PathMatches(path: string, fromPath: string) {
    path == fromPath || StartsWith(path, fromPath + "/")
  }

  /** A remove rule fires when the parameter is present and its value is unset or equals the first value. */
  predicate RemoveFires(params: seq<SP.Pair>, rule: Rule) {
    var name := ToJsString(rule.parameter);
    SP.Has(params, name) && (!Truthy(rule.value) || SP.Get(params, name) == rule.value)
  }

  /**
   * An add rule fires when the parameter is absent or its first value is not
   * the rule's: `get` answers a string or null, never `undefined`, so a rule
   * without a value always fires.
   */
  predicate AddFires(params: seq<SP.Pair>, rule: Rule) {
    var name := ToJsString(rule.parameter);
    !SP.Has(params, name) || SP.Get(params, name) != rule.value
  }

  /** A redirect rule fires when both paths are set and the path matches `fromPath`. */
  predicate RedirectFires(path: string, rule: Rule) {
    Truthy(rule.fromPath) && Truthy(rule.toPath) && PathMatches(path, rule.fromPath.value)
  }

  /** The path with its `fromPath` prefix replaced by `toPath`. */
  function Redirected(path: string, rule: Rule): string
    requires RedirectFires(path, rule)
  {
    rule.toPath.value + path[|rule.fromPath.value|..]
  }

  /** One iteration of the rule loop. */
  function ApplyRule(p: Progress, rule: Rule): Progress {
    match rule.action
    case Remove =>
      if RemoveFires(p.params, rule) then
        p.(params := SP.Delete(p.params, ToJsString(rule.parameter)), modified := true, paramsModified := true)
      else p
    case Add =>
      if AddFires(p.params, rule) then
        p.(params := SP.Set(p.params, ToJsString(rule.parameter), ToJsString(rule.value)),
           modified := true, paramsModified := true)
      else p
    case Redirect =>
      if RedirectFires(p.path, rule) then p.(path := Redirected(p.path, rule), modified := true) else p
    case Unknown(_) => p
  }

  /** The rules applied in list order, each to the result of the ones before it. */
  function ApplyRules(p: Progress, rules: seq<Rule>): Progress
    decreases |rules|
  {
    if rules == [] then p else ApplyRule(ApplyRules(p, rules[..|rules| - 1]), rules[|rules| - 1])
  }

  /** Applying a list is applying its first part, then its second part to the result. */
  lemma {:induction false} ApplyRulesAppend(p: Progress, a: seq<Rule>, b: seq<Rule>)
    ensures ApplyRules(p, a + b) == ApplyRules(ApplyRules(p, a), b)
    decreases |b|
  {
    if b == [] {
      assert a + b == a;
    } else {
      assert (a + b)[..|a + b| - 1] == a + b[..|b| - 1];
      ApplyRulesAppend(p, a, b[..|b| - 1]);
    }
  }

  /** `remove`: present and matching means every pair of that name goes; otherwise nothing changes. */
  lemma RemoveSemantics(p: Progress, rule: Rule)
    requires rule.action == Remove
    ensures var name, r := ToJsString(rule.parameter), ApplyRule(p, rule);
            && (r.params != p.params
                <==> SP.Has(p.params, name) && (!Truthy(rule.value) || SP.Get(p.params, name) == rule.value))
            && (r.params != p.params ==> !SP.Has(r.params, name) && r.modified && r.paramsModified
                                         && forall q :: q in r.params <==> q in p.params && q.0 != name)
            && (r.params == p.params ==> r == p)
  {
  }

  /** `add`: afterwards the parameter's first value is the rule's and no other pair moved. */
  lemma AddSemantics(p: Progress, rule: Rule)
    requires rule.action == Add
    ensures var name, r := ToJsString(rule.parameter), ApplyRule(p, rule);
            && SP.Get(r.params, name) == Some(ToJsString(rule.value))
            && SP.Delete(r.params, name) == SP.Delete(p.params, name)
            && (rule.value.Some? && SP.Get(p.params, name) == rule.value ==> r == p)
            && (rule.value.None? || SP.Get(p.params, name) != rule.value ==> r.modified && r.paramsModified)
            && r.path == p.path
  {
    var name, value := ToJsString(rule.parameter), ToJsString(rule.value);
    if AddFires(p.params, rule) {
      assert ApplyRule(p, rule).params == SP.Set(p.params, name, value);
    } else {
      assert SP.Has(p.params, name) && SP.Get(p.params, name) == rule.value;
    }
  }

  /** Applying the same `add` rule a second time changes nothing. */
  lemma AddIdempotent(p: Progress, rule: Rule)
    requires rule.action == Add
    ensures ApplyRule(ApplyRule(p, rule), rule) == ApplyRule(p, rule)
  {
    var name, value := ToJsString(rule.parameter), ToJsString(rule.value);
    var r := ApplyRule(p, rule);
    if AddFires(p.params, rule) {
      assert r.params == SP.Set(p.params, name, value) && r.modified && r.paramsModified;
      if AddFires(r.params, rule) {
        SP.SetIdempotent(p.params, name, value);
      }
    }
  }

  /** `redirect`: fires exactly on a segment-boundary match and keeps the rest of the path. */
  lemma RedirectSemantics(p: Progress, rule: Rule)
    requires rule.action == Redirect
    ensures var r := ApplyRule(p, rule);
            && r.params == p.params && r.paramsModified == p.paramsModified
            && (RedirectFires(p.path, rule) ==>
                  r.modified && r.path == rule.toPath.value + p.path[|rule.fromPath.value|..])
            && (!RedirectFires(p.path, rule) ==> r == p)
  {
  }

  /** Matching at a segment boundary: `fromPath` is a prefix that ends the path or is followed by `/`. */
  lemma PathMatchesIff(path: string, fromPath: string)
    ensures PathMatches(path, fromPath)
            <==> StartsWith(path, fromPath) && (|path| == |fromPath| || path[|fromPath|] == '/')
  {
    if StartsWith(path, fromPath) && |path| > |fromPath| && path[|fromPath|] == '/' {
      assert path[..|fromPath| + 1] == fromPath + "/";
    }
    if StartsWith(path, fromPath + "/") {
      assert path[..|fromPath|] == path[..|fromPath| + 1][..|fromPath|];
    }
  }

  /** The redirect worked examples: a longer segment such as `/u/05` is not a match. */
  lemma RedirectExamples(p: Progress, id: int, domain: string)
    ensures var rule := Rule(id, domain, Redirect, true, None, None, Some("/u/0"), Some("/u/2"));
            && ApplyRule(p.(path := "/u/0/settings"), rule).path == "/u/2/settings"
            && ApplyRule(p.(path := "/u/0"), rule).path == "/u/2"
            && ApplyRule(p.(path := "/u/05"), rule) == p.(path := "/u/05")
  {
    assert "/u/0/settings"[..5] == "/u/0/";
    assert "/u/0/settings"[4..] == "/settings";
    assert "/u/05"[..5] != "/u/0/" by { assert "/u/05"[4] == '5'; }
  }

  /** Each rule sees the path the earlier ones left: two redirects chain. */
  lemma ChainedRedirects(p: Progress, first: Rule, second: Rule)
    requires first.action == Redirect && first.fromPath == Some("/a") && first.toPath == Some("/b")
    requires second.action == Redirect && second.fromPath == Some("/b") && second.toPath == Some("/c")
    ensures ApplyRules(p.(path := "/a/x"), [first, second]).path == "/c/x"
  {
    var p0 := p.(path := "/a/x");
    assert [first, second][..1] == [first] && [first][..0] == [];
    assert "/a/x"[..3] == "/a/" && "/a/x"[2..] == "/x";
    assert RedirectFires("/a/x", first);
    assert ApplyRules(p0, [first][..0]) == p0;
    var p1 := ApplyRules(p0, [first]);
    assert p1 == ApplyRule(p0, first);
    assert p1.path == "/b/x";
    assert "/b/x"[..3] == "/b/" && "/b/x"[2..] == "/x";
    assert RedirectFires("/b/x", second);
    assert ApplyRules(p0, [first, second]) == ApplyRule(p1, second);
  }

  /**
   * What the flags record: `modified` is set by any rule that fired,
   * `paramsModified` by a remove or add that fired, and nothing changes
   * without its flag.
   */
  lemma {:induction false} FlagsRecordChanges(p: Progress, rules: seq<Rule>)
    requires !p.modified && !p.paramsModified
    ensures var r := ApplyRules(p, rules);
            && (r.paramsModified ==> r.modified)
            && (!r.modified ==> r == p)
            && (!r.paramsModified ==> r.params == p.params)
    decreases |rules|
  {
    if rules != [] {
      FlagsRecordChanges(p, rules[..|rules| - 1]);
    }
  }

  /** A remove or add rule that fires on the state it is given. */
  predicate QueryRuleFires(p: Progress, rule: Rule) {
    || (rule.action == Remove && RemoveFires(p.params, rule))
    || (rule.action == Add && AddFires(p.params, rule))
  }

  /** Some remove or add rule fires on the state the rules before it left. */
  predicate QueryRuleFired(p: Progress, rules: seq<Rule>) {
    exists i :: 0 <= i < |rules| && QueryRuleFires(ApplyRules(p, rules[..i]), rules[i])
  }

  /** One rule sets `paramsModified` exactly when it is a remove or add that fires. */
  lemma ApplyRuleParamsFlag(p: Progress, rule: Rule)
    ensures ApplyRule(p, rule).paramsModified == (p.paramsModified || QueryRuleFires(p, rule))
  {
  }

  /** A query rule fired along a list iff it fired along all but the last rule, or the last one fired. */
  lemma QueryRuleFiredSnoc(p: Progress, rules: seq<Rule>)
    requires rules != []
    ensures var n := |rules| - 1;
            QueryRuleFired(p, rules)
            <==> QueryRuleFired(p, rules[..n]) || QueryRuleFires(ApplyRules(p, rules[..n]), rules[n])
  {
    Seqs.PrefixExistsSnoc(rules, (pre, rule) => QueryRuleFires(ApplyRules(p, pre), rule));
  }

  /** After the loop `paramsModified` is set exactly when some remove or add rule fired. */
  lemma {:induction false} ParamsFlagRecordsQueryRules(p: Progress, rules: seq<Rule>)
    requires !p.paramsModified
    ensures ApplyRules(p, rules).paramsModified <==> QueryRuleFired(p, rules)
    decreases |rules|
  {
    if rules != [] {
      var n := |rules| - 1;
      ParamsFlagRecordsQueryRules(p, rules[..n]);
      ApplyRuleParamsFlag(ApplyRules(p, rules[..n]), rules[n]);
      QueryRuleFiredSnoc(p, rules);
    }
  }

  /** Rules without a query action leave the query list and its flag alone. */
  lemma {:induction false} RedirectsKeepQuery(p: Progress, rules: seq<Rule>)
    requires forall rule :: rule in rules ==> rule.action != Remove && rule.action != Add
    ensures ApplyRules(p, rules).params == p.params
    ensures ApplyRules(p, rules).paramsModified == p.paramsModified
    decreases |rules|
  {
    if rules != [] {
      assert rules[|rules| - 1] in rules;
      RedirectsKeepQuery(p, rules[..|rules| - 1]);
    }
  }

  /** The new `search`: "" for an empty list, else "?" and the serialization. */
  function SearchOf(params: seq<SP.Pair>): (s: string)
    ensures s == "" <==> params == []
  {
    var serialized := SP.ToString(params);
    if serialized == "" then "" else "?" + serialized
  }

  /** The URL after the loop: the new path, and a rebuilt search only if a query rule fired. */
  function Rebuilt(url: Url, p: Progress): Url {
    url.(pathname := p.path, search := if p.paramsModified then SearchOf(p.params) else url.search)
  }

  /**
   * The whole engine: the URL to navigate to, if any. Nothing happens when the
   * flag is off, when no rule matches, when no rule fired, or when the new
   * href equals the old one (the loop guard).
   */
  function Rewrite(enabled: Option<bool>, stored: Option<seq<Rule>>, url: Url): (r: Option<Url>)
    ensures !IsOn(enabled) ==> r == None
    ensures MatchingRules(RulesOrEmpty(stored), url.hostname) == [] ==> r == None
    ensures r.Some? ==> Href(r.value) != Href(url)
    ensures r.Some? ==> r.value == url.(pathname := r.value.pathname, search := r.value.search)
  {
    if !IsOn(enabled) then None
    else
      var matching := MatchingRules(RulesOrEmpty(stored), url.hostname);
      if matching == [] then None
      else
        var p := ApplyRules(Start(url), matching);
        if !p.modified then None
        else
          var u := Rebuilt(url, p);
          if Href(u) != Href(url) then Some(u) else None
  }

  /** The href the engine navigates to, if any. */
  function Target(enabled: Option<bool>, stored: Option<seq<Rule>>, url: Url): (r: Option<string>)
    ensures r.Some? ==> r.value != Href(url)
  {
    match Rewrite(enabled, stored, url)
    case Some(u) => Some(Href(u))
    case None => None
  }

  /** A rule list without query actions never touches the search string. */
  lemma RedirectsKeepSearch(enabled: Option<bool>, stored: Option<seq<Rule>>, url: Url)
    requires forall rule :: rule in RulesOrEmpty(stored) ==> rule.action != Remove && rule.action != Add
    ensures Rewrite(enabled, stored, url).Some? ==> Rewrite(enabled, stored, url).value.search == url.search
  {
    var matching := MatchingRules(RulesOrEmpty(stored), url.hostname);
    RedirectsKeepQuery(Start(url), matching);
  }

  /**
   * The search string navigated to: rebuilt from the final list when some
   * remove or add rule fired along the matching rules, and otherwise the
   * original one, whatever redirects come before or after.
   */
  lemma SearchAfterRewrite(enabled: Option<bool>, stored: Option<seq<Rule>>, url: Url)
    ensures var m := MatchingRules(RulesOrEmpty(stored), url.hostname);
            var r := Rewrite(enabled, stored, url);
            r.Some? ==>
              r.value.search
              == if QueryRuleFired(Start(url), m) then SearchOf(ApplyRules(Start(url), m).params) else url.search
  {
    var m := MatchingRules(RulesOrEmpty(stored), url.hostname);
    ParamsFlagRecordsQueryRules(Start(url), m);
    if Rewrite(enabled, stored, url).Some? {
      assert Rewrite(enabled, stored, url).value == Rebuilt(url, ApplyRules(Start(url), m));
    }
  }

  /** A redirect onto its own path fires but produces no navigation. */
  lemma SelfRedirectDoesNotNavigate(rule: Rule, url: Url)
    requires rule.action == Redirect && rule.fromPath == rule.toPath
    ensures Rewrite(Some(true), Some([rule]), url) == None
  {
    var matching := MatchingRules([rule], url.hostname);
    assert matching == [] || matching == [rule];
    if matching == [rule] {
      var p := Start(url);
      assert ApplyRules(p, [rule]) == ApplyRule(p, rule) by { assert [rule][..0] == []; }
      if RedirectFires(p.path, rule) {
        var from := rule.fromPath.value;
        assert p.path == from + p.path[|from|..];
      }
    }
  }

  lemma SingleRule(p: Progress, rule: Rule)
    ensures ApplyRules(p, [rule]) == ApplyRule(p, rule)
  {
    assert [rule][..0] == [];
  }

  /** Parsing the search the engine writes gives back the list it serialized. */
  lemma SearchOfRoundTrip(params: seq<SP.Pair>)
    ensures SP.FromSearch(SearchOf(params)) == params
  {
    var serialized := SP.ToString(params);
    FormUrlEncoded.ParseSerialize(params);
    if serialized != "" {
      assert ("?" + serialized)[1..] == serialized;
    }
  }

  /**
   * After the navigation an `add` rule caused, the same rule finds its value in
   * place and produces no further navigation.
   */
  lemma AddRuleSettles(rule: Rule, url: Url)
    requires rule.action == Add
    ensures var r := Rewrite(Some(true), Some([rule]), url);
            r.Some? ==> Rewrite(Some(true), Some([rule]), r.value) == None
  {
    var r := Rewrite(Some(true), Some([rule]), url);
    if r.Some? {
      var next := r.value;
      var name, value := ToJsString(rule.parameter), ToJsString(rule.value);
      assert MatchingRules([rule], url.hostname) == [rule];
      SingleRule(Start(url), rule);
      var p := ApplyRule(Start(url), rule);
      assert p.modified && p.paramsModified && p.path == url.pathname;
      assert next == url.(search := SearchOf(p.params));
      SearchOfRoundTrip(p.params);
      AddSemantics(Start(url), rule);
      AddIdempotent(Start(url), rule);
      var start := Start(next);
      assert start == Progress(p.params, url.pathname, false, false);
      SingleRule(start, rule);
      var p2 := ApplyRule(start, rule);
      assert p2.params == p.params;
      if p2.modified {
        assert Rebuilt(next, p2) == next;
      }
    }
  }

  /**
   * After the navigation a `remove` rule caused, the parameter is gone and the
   * same rule produces no further navigation.
   */
  lemma RemoveRuleSettles(rule: Rule, url: Url)
    requires rule.action == Remove
    ensures var r := Rewrite(Some(true), Some([rule]), url);
            r.Some? ==> Rewrite(Some(true), Some([rule]), r.value) == None
  {
    var r := Rewrite(Some(true), Some([rule]), url);
    if r.Some? {
      var next := r.value;
      assert MatchingRules([rule], url.hostname) == [rule];
      SingleRule(Start(url), rule);
      var p := ApplyRule(Start(url), rule);
      assert p.modified && p.paramsModified;
      RemoveSemantics(Start(url), rule);
      assert !SP.Has(p.params, ToJsString(rule.parameter));
      SearchOfRoundTrip(p.params);
      var start := Start(next);
      assert start.params == p.params;
      SingleRule(start, rule);
      assert ApplyRule(start, rule) == start;
    }
  }

  /**
   * The guard only stops a navigation to the same href: a redirect whose
   * target extends its own source fires again on every result.
   */
  lemma ExtendingRedirectKeepsFiring(rule: Rule, url: Url)
    requires rule.enabled && DomainMatches(url.hostname, rule.domain)
    requires rule.action == Redirect && rule.fromPath == Some("/a") && rule.toPath == Some("/a/b")
    requires PathMatches(url.pathname, "/a")
    ensures Rewrite(Some(true), Some([rule]), url).Some?
    ensures PathMatches(Rewrite(Some(true), Some([rule]), url).value.pathname, "/a")
  {
    var path := "/a/b" + url.pathname[2..];
    var p := Start(url).(path := path, modified := true);
    assert MatchingRules([rule], url.hostname) == [rule];
    SingleRule(Start(url), rule);
    RedirectSemantics(Start(url), rule);
    RewriteWhenMatched([rule], url, p);
    assert Rebuilt(url, p) == url.(pathname := path, search := url.search);
    ExtendedPath(url, path);
  }

  lemma ExtendedPath(url: Url, path: string)
    requires PathMatches(url.pathname, "/a") && path == "/a/b" + url.pathname[2..]
    ensures Href(url.(pathname := path, search := url.search)) != Href(url)
    ensures PathMatches(path, "/a")
  {
    HrefOfNewPathAndSearch(url, path, url.search);
    assert |path + url.search| == |url.pathname + url.search| + 2;
    assert path[..3] == "/a/";
  }

  /** `Rewrite` once the flag is on and some rule matched. */
  lemma RewriteWhenMatched(stored: seq<Rule>, url: Url, p: Progress)
    requires MatchingRules(stored, url.hostname) != []
    requires ApplyRules(Start(url), MatchingRules(stored, url.hostname)) == p
    ensures Rewrite(Some(true), Some(stored), url)
            == if p.modified && Href(Rebuilt(url, p)) != Href(url) then Some(Rebuilt(url, p)) else None
  {
  }

  /** Each installed rule matches its own host only. */
  lemma DefaultRulesMatching(now: int)
    ensures MatchingRules(DefaultRules(now), "marmalade-ai.com") == [DefaultRules(now)[0]]
    ensures MatchingRules(DefaultRules(now), "gemini.google.com") == [DefaultRules(now)[1]]
  {
    assert "gemini.google.com" != "marmalade-ai.com" by { assert "gemini.google.com"[0] != "marmalade-ai.com"[0]; }
    assert "gemini.google.com" != ".marmalade-ai.com" by { assert "gemini.google.com"[0] != ".marmalade-ai.com"[0]; }
    assert !EndsWith("marmalade-ai.com", ".gemini.google.com");
    var rules := DefaultRules(now);
    assert rules[1..][1..] == [];
  }

  lemma RedirectVectorSteps(url: Url)
    requires url == Url("https:", "gemini.google.com", "", "/u/0/settings", "", "")
    ensures Start(url) == Progress([], "/u/0/settings", false, false)
    ensures Rebuilt(url, Progress([], "/u/2/settings", true, false)) == url.(pathname := "/u/2/settings")
    ensures Href(url.(pathname := "/u/2/settings")) != Href(url)
    ensures Start(url.(pathname := "/u/2/settings")) == Progress([], "/u/2/settings", false, false)
  {
    HrefOfNewPathAndSearch(url, "/u/2/settings", "");
    assert ("/u/2/settings" + "")[3] != ("/u/0/settings" + "")[3];
  }

  lemma DefaultRedirectSteps(now: int)
    ensures ApplyRule(Progress([], "/u/0/settings", false, false), DefaultRules(now)[1])
            == Progress([], "/u/2/settings", true, false)
    ensures ApplyRule(Progress([], "/u/2/settings", false, false), DefaultRules(now)[1])
            == Progress([], "/u/2/settings", false, false)
  {
    var rule := DefaultRules(now)[1];
    var start, again := Progress([], "/u/0/settings", false, false), Progress([], "/u/2/settings", false, false);
    RedirectExamples(start, now + 1, "gemini.google.com");
    RedirectSemantics(start, rule);
    RedirectSemantics(again, rule);
    assert !PathMatches("/u/2/settings", "/u/0") by {
      assert "/u/2/settings"[..5][3] == '2' && ("/u/0" + "/")[3] == '0';
    }
  }

  /** The installed redirect rule moves `/u/0/settings` to `/u/2/settings` and then settles. */
  lemma DefaultRedirectVector(now: int)
    ensures var url := Url("https:", "gemini.google.com", "", "/u/0/settings", "", "");
            var next := url.(pathname := "/u/2/settings");
            && Rewrite(Some(true), Some(DefaultRules(now)), url) == Some(next)
            && Rewrite(Some(true), Some(DefaultRules(now)), next) == None
  {
    var rules := DefaultRules(now);
    var url := Url("https:", "gemini.google.com", "", "/u/0/settings", "", "");
    var next := url.(pathname := "/u/2/settings");
    DefaultRulesMatching(now);
    RedirectVectorSteps(url);
    DefaultRedirectSteps(now);
    var start := Progress([], "/u/0/settings", false, false);
    SingleRule(start, rules[1]);
    RewriteWhenMatched(rules, url, Progress([], "/u/2/settings", true, false));
    var again := Progress([], "/u/2/settings", false, false);
    SingleRule(again, rules[1]);
    RewriteWhenMatched(rules, next, again);
  }

  lemma RemoveVectorSteps(url: Url, before: seq<SP.Pair>, after: seq<SP.Pair>)
    requires before == [("debug_mode", "true"), ("x", "1")] && after == [("x", "1")]
    requires url == Url("https:", "marmalade-ai.com", "", "/", SearchOf(before), "")
    ensures Start(url) == Progress(before, "/", false, false)
    ensures Rebuilt(url, Progress(after, "/", true, true)) == url.(search := SearchOf(after))
    ensures Href(url.(search := SearchOf(after))) != Href(url)
  {
    SearchOfRoundTrip(before);
    SearchOfRoundTrip(after);
    HrefOfNewPathAndSearch(url, "/", SearchOf(after));
    assert SearchOf(after) != SearchOf(before);
    assert "/" + SearchOf(after) != "/" + SearchOf(before) by {
      assert ("/" + SearchOf(after))[1..] == SearchOf(after);
      assert ("/" + SearchOf(before))[1..] == SearchOf(before);
    }
  }

  lemma DefaultRemoveSteps(now: int)
    ensures ApplyRule(Progress([("debug_mode", "true"), ("x", "1")], "/", false, false), DefaultRules(now)[0])
            == Progress([("x", "1")], "/", true, true)
    ensures ApplyRule(Progress([("debug_mode", "false")], "/", false, false), DefaultRules(now)[0])
            == Progress([("debug_mode", "false")], "/", false, false)
  {
    var before, after := [("debug_mode", "true"), ("x", "1")], [("x", "1")];
    assert SP.Get(before, "debug_mode") == Some("true");
    assert SP.Delete(before, "debug_mode") == after;
    assert SP.Get([("debug_mode", "false")], "debug_mode") == Some("false");
  }

  /** The installed remove rule on the query `debug_mode=true&x=1` navigates to the query `x=1`. */
  lemma DefaultRemoveVector(now: int)
    ensures var url := Url("https:", "marmalade-ai.com", "", "/", SearchOf([("debug_mode", "true"), ("x", "1")]), "");
            Rewrite(Some(true), Some(DefaultRules(now)), url) == Some(url.(search := SearchOf([("x", "1")])))
  {
    var rules := DefaultRules(now);
    DefaultRulesMatching(now);
    var before, after := [("debug_mode", "true"), ("x", "1")], [("x", "1")];
    var url := Url("https:", "marmalade-ai.com", "", "/", SearchOf(before), "");
    RemoveVectorSteps(url, before, after);
    DefaultRemoveSteps(now);
    SingleRule(Start(url), rules[0]);
    RewriteWhenMatched(rules, url, Progress(after, "/", true, true));
  }

  /** The installed remove rule leaves `debug_mode=false` alone: its value does not match. */
  lemma DefaultRemoveValueMismatch(now: int)
    ensures var url := Url("https:", "marmalade-ai.com", "", "/", SearchOf([("debug_mode", "false")]), "");
            Rewrite(Some(true), Some(DefaultRules(now)), url) == None
  {
    var rules := DefaultRules(now);
    DefaultRulesMatching(now);
    var query := [("debug_mode", "false")];
    var url := Url("https:", "marmalade-ai.com", "", "/", SearchOf(query), "");
    SearchOfRoundTrip(query);
    assert Start(url) == Progress(query, "/", false, false);
    DefaultRemoveSteps(now);
    SingleRule(Start(url), rules[0]);
    RewriteWhenMatched(rules, url, Start(url));
  }

  /**
   * The rule loop as the handlers run it: the parsed query, the path and the
   * two flags, updated rule by rule.
   */
  method ApplyMatchingRules(url: Url, matching: seq<Rule>)
    returns (params: seq<SP.Pair>, path: string, modified: bool, paramsModified: bool)
    ensures Progress(params, path, modified, paramsModified) == ApplyRules(Start(url), matching)
  {
    modified, paramsModified := false, false;
    params := SP.FromSearch(url.search);
    path := url.pathname;
    for i := 0 to |matching|
      invariant Progress(params, path, modified, paramsModified) == ApplyRules(Start(url), matching[..i])
    {
      var rule := matching[i];
      var name := ToJsString(rule.parameter);
      if rule.action == Remove {
        if SP.Has(params, name) {
          if !Truthy(rule.value) || SP.Get(params, name) == rule.value {
            params := SP.Delete(params, name);
            modified, paramsModified := true, true;
          }
        }
      } else if rule.action == Add {
        if !SP.Has(params, name) || SP.Get(params, name) != rule.value {
          params := SP.Set(params, name, ToJsString(rule.value));
          modified, paramsModified := true, true;
        }
      } else if rule.action == Redirect {
        if Truthy(rule.fromPath) && Truthy(rule.toPath) {
          var fromPath := rule.fromPath.value;
          if path == fromPath || StartsWith(path, fromPath + "/") {
            var remainingPath := path[|fromPath|..];
            path := rule.toPath.value + remainingPath;
            modified := true;
          }
        }
      }
      assert matching[..i + 1][..i] == matching[..i];
    }
    assert matching[..|matching|] == matching;
  }
}
