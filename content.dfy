/** The content script, run at document start on every page. */
module Content {
  import opened Wrappers
  import opened Rules
  import opened Urls
  import opened Engine
  import SP = SearchParams

  /**
   * `checkAndModifyURL` once storage has answered: the href handed to
   * `location.replace`, or `None` when the page stays. `currentUrl` is
   * `new URL(window.location.href)`, and `window.location.href` is its href.
   * Its contract names the same engine function as the background handler's.
   */
  method CheckAndModifyUrl(storedEnabled: Option<bool>, storedRules: Option<seq<Rule>>, currentUrl: Url)
    returns (replacement: Option<string>)
    ensures !IsOn(storedEnabled) ==> replacement == None
    ensures MatchingRules(RulesOrEmpty(storedRules), currentUrl.hostname) == [] ==> replacement == None
    ensures replacement.Some? ==> replacement.value != Href(currentUrl)
    ensures replacement == Target(storedEnabled, storedRules, currentUrl)
  {
    replacement := None;
    if !IsOn(storedEnabled) {
      return;
    }
    var rules := RulesOrEmpty(storedRules);
    var matchingRules := MatchingRules(rules, currentUrl.hostname);
    if |matchingRules| == 0 {
      return;
    }
    var params, path, modified, paramsModified := ApplyMatchingRules(currentUrl, matchingRules);
    if modified {
      var newUrl := currentUrl.(pathname := path);
      if paramsModified {
        var newSearch := SP.ToString(params);
        newUrl := newUrl.(search := if newSearch != "" then "?" + newSearch else "");
      }
      if Href(newUrl) != Href(currentUrl) {
        replacement := Some(Href(newUrl));
      }
    }
  }
}
