/** The rule records the extension stores under the key `rules`. */
module Rules {
  import opened Wrappers

  /**
   * The `action` string of a rule. "remove", "add" and "redirect" are the
   * three named actions; `Unknown` holds any other string, so its `name` is
   * never one of those three.
   */
  datatype Action = Remove | Add | Redirect | Unknown(name: string)

  /**
   * A stored rule. `parameter`/`value` belong to `remove` and `add`,
   * `fromPath`/`toPath` to `redirect`; a missing property is `None`.
   */
  datatype Rule = Rule(id: int, domain: string, action: Action, enabled: bool,
                       parameter: Option<string>, value: Option<string>,
                       fromPath: Option<string>, toPath: Option<string>)

  /** `result.rules || []`. */
  function RulesOrEmpty(stored: Option<seq<Rule>>): seq<Rule> {
    match stored
    case Some(rules) => rules
    case None => []
  }

  /** A rule carries exactly the properties its action uses. */
  predicate FieldsFitAction(rule: Rule) {
    if rule.action == Redirect then
      rule.fromPath.Some? && rule.toPath.Some? && rule.parameter.None? && rule.value.None?
    else
      rule.parameter.Some? && rule.value.Some? && rule.fromPath.None? && rule.toPath.None?
  }

  /**
   * The two rules written on installation when none are stored; `now` is the
   * clock reading used for their ids.
   */
  function DefaultRules(now: int): (r: seq<Rule>)
    ensures |r| == 2 && r[0].id != r[1].id
    ensures forall i :: 0 <= i < |r| ==> r[i].enabled && FieldsFitAction(r[i])
  {
    [ Rule(now, "marmalade-ai.com", Remove, true, Some("debug_mode"), Some("true"), None, None),
      Rule(now + 1, "gemini.google.com", Redirect, true, None, None, Some("/u/0"), Some("/u/2")) ]
  }
}
