/** The navigation listener of the background worker. */
module Background {
  import opened Wrappers
  import opened Rules
  import opened Urls
  import opened Engine
  import SP = SearchParams

  /**
   * The `webNavigation.onCommitted` handler once storage has answered: the
   * href handed to `tabs.update`, or `None` when no update is issued. `url` is
   * `new URL(details.url)`, and `details.url` is its href.
   */
  method OnCommitted(frameId: int, storedEnabled: Option<bool>, storedRules: Option<seq<Rule>>, url: Url)
    returns (update: Option<string>)
    ensures frameId != 0 || !IsOn(storedEnabled) ==> update == None
    ensures MatchingRules(RulesOrEmpty(storedRules), url.hostname) == [] ==> update == None
    ensures update.Some? ==> update.value != Href(url)
    ensures frameId == 0 ==> update == Target(storedEnabled, storedRules, url)
  {
    update := None;
    if frameId != 0 {
      return;
    }
    if !IsOn(storedEnabled) {
      return;
    }
    var rules := RulesOrEmpty(storedRules);
    var matchingRules := MatchingRules(rules, url.hostname);
    if |matchingRules| == 0 {
      return;
    }
    var params, path, modified, paramsModified := ApplyMatchingRules(url, matchingRules);
    if modified {
      var newUrl := url.(pathname := path);
      if paramsModified {
        var newSearch := SP.ToString(params);
        newUrl := newUrl.(search := if newSearch != "" then "?" + newSearch else "");
      }
      if Href(newUrl) != Href(url) {
        update := Some(Href(newUrl));
      }
    }
  }
}
