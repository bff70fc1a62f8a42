/** The popup: the global switch and the rule list editor. */
module Popup {
  import opened Wrappers
  import opened JsText
  import opened Rules
  import Engine

  /** The switch's position when the popup opens: on unless `false` is stored. */
  predicate ShownEnabled(stored: Option<bool>) {
    stored != Some(false)
  }

  /**
   * The popup and the rule engine read a missing `enabled` differently: the
   * popup shows the switch on while the engine stays off. A stored boolean
   * reads the same in both.
   */
  lemma EnabledDefaultsDisagree()
    ensures ShownEnabled(None) && !Engine.IsOn(None)
    ensures forall b: bool :: ShownEnabled(Some(b)) == Engine.IsOn(Some(b))
  {
  }

  /** The rule form's inputs as submitted, untrimmed. */
  datatype RuleForm = RuleForm(domain: string, action: Action, parameter: string,
                               value: string, fromPath: string, toPath: string)

  /** `ruleData`: the domain, the action and the two fields that action uses. */
  datatype RuleData = RuleData(domain: string, action: Action,
                               parameter: Option<string>, value: Option<string>,
                               fromPath: Option<string>, toPath: Option<string>)

  function ReadForm(form: RuleForm): RuleData {
    if form.action == Redirect then
      RuleData(Trim(form.domain), form.action, None, None, Some(Trim(form.fromPath)), Some(Trim(form.toPath)))
    else
      RuleData(Trim(form.domain), form.action, Some(Trim(form.parameter)), Some(Trim(form.value)), None, None)
  }

  /**
   * The saved data carries the form's action, and each text field it carries
   * is the form's field of that name with its white space cut off.
   */
  lemma ReadFormShape(form: RuleForm)
    ensures var d := ReadForm(form);
      && d.action == form.action && d.domain == Trim(form.domain)
      && (d.parameter.Some? ==> d.parameter.value == Trim(form.parameter))
      && (d.value.Some? ==> d.value.value == Trim(form.value))
      && (d.fromPath.Some? ==> d.fromPath.value == Trim(form.fromPath))
      && (d.toPath.Some? ==> d.toPath.value == Trim(form.toPath))
  {
  }

  /** `rules.find((r) => r.id === id)`, as the index of the rule found. */
  function FindRule(rules: seq<Rule>, id: int): (r: Option<nat>)
    ensures r.Some? ==> r.value < |rules| && rules[r.value].id == id
    ensures r.Some? ==> forall j :: 0 <= j < r.value ==> rules[j].id != id
    ensures r.None? ==> forall j :: 0 <= j < |rules| ==> rules[j].id != id
  {
    if rules == [] then None
    else if rules[0].id == id then Some(0)
    else match FindRule(rules[1..], id)
      case None => None
      case Some(k) => Some(k + 1)
  }

  /** Two lists with the same ids in the same order find the same index. */
  lemma FindRuleSameIds(a: seq<Rule>, b: seq<Rule>, id: int)
    requires |a| == |b| && forall j :: 0 <= j < |a| ==> a[j].id == b[j].id
    ensures FindRule(a, id) == FindRule(b, id)
  {
  }

  /** The stored list after `toggleRule(id)`. */
  function Toggled(rules: seq<Rule>, id: int): seq<Rule> {
    match FindRule(rules, id)
    case None => rules
    case Some(i) => rules[i := rules[i].(enabled := !rules[i].enabled)]
  }

  /**
   * Toggling flips the `enabled` flag of the first rule with that id and
   * changes nothing else; with no such rule, the list is unchanged.
   */
  lemma ToggleFlipsFirstMatch(rules: seq<Rule>, id: int)
    ensures |Toggled(rules, id)| == |rules|
    ensures (forall j :: 0 <= j < |rules| ==> rules[j].id != id) ==> Toggled(rules, id) == rules
    ensures forall i :: 0 <= i < |rules| && rules[i].id == id && (forall j :: 0 <= j < i ==> rules[j].id != id) ==>
              Toggled(rules, id)[i].enabled == !rules[i].enabled &&
              Toggled(rules, id)[i] == rules[i].(enabled := Toggled(rules, id)[i].enabled) &&
              forall j :: 0 <= j < |rules| && j != i ==> Toggled(rules, id)[j] == rules[j]
  {
    forall i | 0 <= i < |rules| && rules[i].id == id && (forall j :: 0 <= j < i ==> rules[j].id != id)
      ensures FindRule(rules, id) == Some(i)
    {
    }
  }

  /** Toggling the same rule twice restores the list. */
  lemma ToggleTwice(rules: seq<Rule>, id: int)
    ensures Toggled(Toggled(rules, id), id) == rules
  {
    var once := Toggled(rules, id);
    FindRuleSameIds(rules, once, id);
  }

  /** The stored list after `deleteRule(id)` is confirmed. */
  function WithoutId(rules: seq<Rule>, id: int): (r: seq<Rule>)
    ensures forall rule :: rule in r <==> rule in rules && rule.id != id
    ensures |r| <= |rules|
  {
    if rules == [] then []
    else if rules[0].id == id then WithoutId(rules[1..], id)
    else [rules[0]] + WithoutId(rules[1..], id)
  }

  /** Deleting keeps the other rules in their order: it distributes over concatenation. */
  lemma {:induction false} WithoutIdAppend(a: seq<Rule>, b: seq<Rule>, id: int)
    ensures WithoutId(a + b, id) == WithoutId(a, id) + WithoutId(b, id)
  {
    if a == [] {
      assert a + b == b;
    } else {
      assert (a + b)[1..] == a[1..] + b;
      WithoutIdAppend(a[1..], b, id);
    }
  }

  /** Deleting twice is deleting once, and a list without the id is left as it is. */
  lemma {:induction false} WithoutIdIdempotent(rules: seq<Rule>, id: int)
    ensures WithoutId(WithoutId(rules, id), id) == WithoutId(rules, id)
    ensures (forall j :: 0 <= j < |rules| ==> rules[j].id != id) ==> WithoutId(rules, id) == rules
  {
    if rules != [] {
      WithoutIdIdempotent(rules[1..], id);
    }
  }

  /** A rule after the edit branch of the save handler wrote `data` into it. */
  function Overwritten(rule: Rule, data: RuleData): Rule {
    if data.action == Redirect then
      rule.(domain := data.domain, action := data.action,
            fromPath := data.fromPath, toPath := data.toPath, parameter := None, value := None)
    else
      rule.(domain := data.domain, action := data.action,
            parameter := data.parameter, value := data.value, fromPath := None, toPath := None)
  }

  /** The stored list after saving `data` while editing the rule with id `id`. */
  function Edited(rules: seq<Rule>, id: int, data: RuleData): seq<Rule> {
    match FindRule(rules, id)
    case None => rules
    case Some(i) => rules[i := Overwritten(rules[i], data)]
  }

  /** The rule the add branch of the save handler appends. */
  function NewRule(now: int, data: RuleData): Rule {
    Rule(now, data.domain, data.action, true, data.parameter, data.value, data.fromPath, data.toPath)
  }

  /**
   * The stored list after the form is submitted: `editingId` is
   * `currentEditingRuleId` and `now` the clock reading used as a new id.
   * A falsy id (none, or 0) adds a rule; any other id edits.
   */
  function Saved(rules: seq<Rule>, editingId: Option<int>, form: RuleForm, now: int): seq<Rule> {
    var data := ReadForm(form);
    if editingId.Some? && editingId.value != 0 then Edited(rules, editingId.value, data)
    else rules + [NewRule(now, data)]
  }

  /**
   * Editing rewrites the first rule with that id in place: it keeps its id,
   * its `enabled` flag and its position, takes the trimmed domain, the action
   * and the trimmed fields of that action, and drops the other action's
   * fields; every other rule is unchanged.
   */
  lemma EditInPlace(rules: seq<Rule>, id: int, form: RuleForm, now: int)
    requires id != 0
    ensures var r := Saved(rules, Some(id), form, now);
      |r| == |rules| &&
      (FindRule(rules, id).None? ==> r == rules) &&
      (FindRule(rules, id).Some? ==>
        var i := FindRule(rules, id).value;
        r[i].id == id && r[i].enabled == rules[i].enabled &&
        (form.action == Redirect ==>
          r[i] == rules[i].(domain := Trim(form.domain), action := form.action,
                            parameter := None, value := None,
                            fromPath := Some(Trim(form.fromPath)), toPath := Some(Trim(form.toPath)))) &&
        (form.action != Redirect ==>
          r[i] == rules[i].(domain := Trim(form.domain), action := form.action,
                            parameter := Some(Trim(form.parameter)), value := Some(Trim(form.value)),
                            fromPath := None, toPath := None)) &&
        forall j :: 0 <= j < |rules| && j != i ==> r[j] == rules[j])
  {
    var data := ReadForm(form);
    assert Saved(rules, Some(id), form, now) == Edited(rules, id, data);
    match FindRule(rules, id)
    case None =>
    case Some(i) =>
      assert Edited(rules, id, data)[i] == Overwritten(rules[i], data);
  }

  /**
   * Adding appends exactly one rule, switched on, with the clock reading as
   * its id, the trimmed domain, the action and the trimmed fields of that
   * action only; this happens also when the rule being edited has id 0, which
   * the handler reads as no rule.
   */
  lemma AddAppends(rules: seq<Rule>, editingId: Option<int>, form: RuleForm, now: int)
    requires editingId == None || editingId == Some(0)
    ensures var r := Saved(rules, editingId, form, now);
      |r| == |rules| + 1 && r[..|rules|] == rules &&
      (form.action == Redirect ==>
        r[|rules|] == Rule(now, Trim(form.domain), form.action, true, None, None,
                           Some(Trim(form.fromPath)), Some(Trim(form.toPath)))) &&
      (form.action != Redirect ==>
        r[|rules|] == Rule(now, Trim(form.domain), form.action, true,
                           Some(Trim(form.parameter)), Some(Trim(form.value)), None, None))
  {
    var r := Saved(rules, editingId, form, now);
    assert r[..|rules|] == rules;
  }

  /** Every stored rule carries exactly the fields its action uses. */
  predicate WellShaped(rules: seq<Rule>) {
    forall i :: 0 <= i < |rules| ==> FieldsFitAction(rules[i])
  }

  /** Toggling and deleting keep every rule carrying the fields of its action. */
  lemma ToggleDeleteKeepWellShaped(rules: seq<Rule>, id: int)
    requires WellShaped(rules)
    ensures WellShaped(Toggled(rules, id))
    ensures WellShaped(WithoutId(rules, id))
  {
    var w := WithoutId(rules, id);
    forall i | 0 <= i < |w|
      ensures FieldsFitAction(w[i])
    {
      assert w[i] in rules;
    }
  }

  /** Whatever the form holds, the rule it writes carries exactly the fields of its action. */
  lemma FormFitsAction(form: RuleForm, rule: Rule, now: int)
    ensures FieldsFitAction(Overwritten(rule, ReadForm(form)))
    ensures FieldsFitAction(NewRule(now, ReadForm(form)))
  {
  }

  /** Saving, whether it edits or adds, keeps every rule carrying the fields of its action. */
  lemma SaveKeepsWellShaped(rules: seq<Rule>, editingId: Option<int>, form: RuleForm, now: int)
    requires WellShaped(rules)
    ensures WellShaped(Saved(rules, editingId, form, now))
  {
    var data := ReadForm(form);
    if editingId.Some? && editingId.value != 0 {
      var found := FindRule(rules, editingId.value);
      if found.Some? {
        var k := found.value;
        var rule := Overwritten(rules[k], data);
        FormFitsAction(form, rules[k], now);
        var r := rules[k := rule];
        assert Saved(rules, editingId, form, now) == r;
        forall i | 0 <= i < |r|
          ensures FieldsFitAction(r[i])
        {
          if i != k {
            assert r[i] == rules[i];
          }
        }
      }
    } else {
      var rule := NewRule(now, data);
      FormFitsAction(form, rule, now);
      var r := rules + [rule];
      assert Saved(rules, editingId, form, now) == r;
      forall i | 0 <= i < |r|
        ensures FieldsFitAction(r[i])
      {
        if i < |rules| {
          assert r[i] == rules[i];
        }
      }
    }
  }

  /**
   * The popup's view of storage: the stored switch, the stored rule list and
   * the id of the rule open in the form.
   */
  class RuleEditor {
    var enabled: Option<bool>
    var rules: seq<Rule>
    var editingId: Option<int>

    /** The popup opens on what storage holds, with no rule being edited. */
    constructor (storedEnabled: Option<bool>, storedRules: Option<seq<Rule>>)
      ensures enabled == storedEnabled && rules == RulesOrEmpty(storedRules) && editingId == None
    {
      enabled := storedEnabled;
      rules := RulesOrEmpty(storedRules);
      editingId := None;
    }

    /** `loadSettings`: the position the switch is shown in. */
    method LoadSettings() returns (checked: bool)
      ensures checked == ShownEnabled(enabled)
      ensures enabled == None ==> checked && !Engine.IsOn(enabled)
    {
      checked := enabled != Some(false);
      EnabledDefaultsDisagree();
    }

    /** The switch's change handler stores the position it was moved to. */
    method SetEnabled(checked: bool)
      modifies this`enabled
      ensures enabled == Some(checked)
      ensures Engine.IsOn(enabled) == checked
    {
      enabled := Some(checked);
    }

    /** `toggleRule(id)`. */
    method ToggleRule(id: int)
      modifies this`rules
      ensures rules == Toggled(old(rules), id)
    {
      var found := FindRule(rules, id);
      if found.Some? {
        var i := found.value;
        rules := rules[i := rules[i].(enabled := !rules[i].enabled)];
      }
    }

    /** `deleteRule(id)` once the user has confirmed. */
    method DeleteRule(id: int)
      modifies this`rules
      ensures rules == WithoutId(old(rules), id)
    {
      rules := WithoutId(rules, id);
    }

    /** `editRule(id)`: opens the form on a rule that exists. */
    method EditRule(id: int)
      modifies this`editingId
      ensures FindRule(rules, id).Some? ==> editingId == Some(id)
      ensures FindRule(rules, id).None? ==> editingId == old(editingId)
    {
      var found := FindRule(rules, id);
      if found.Some? {
        editingId := Some(id);
      }
    }

    /** The "Add New Rule" button: opens an empty form. */
    method OpenNewRule()
      modifies this`editingId
      ensures editingId == None
    {
      editingId := None;
    }

    /** The form's submit handler. */
    method SaveRule(form: RuleForm, now: int)
      modifies this`rules
      ensures rules == Saved(old(rules), editingId, form, now)
    {
      var domain := Trim(form.domain);
      var action := form.action;
      var ruleData: RuleData;
      if action == Redirect {
        ruleData := RuleData(domain, action, None, None, Some(Trim(form.fromPath)), Some(Trim(form.toPath)));
      } else {
        ruleData := RuleData(domain, action, Some(Trim(form.parameter)), Some(Trim(form.value)), None, None);
      }
      assert ruleData == ReadForm(form);
      if editingId.Some? && editingId.value != 0 {
        var found := FindRule(rules, editingId.value);
        if found.Some? {
          var i := found.value;
          var rule := rules[i].(domain := domain, action := action);
          if action == Redirect {
            rule := rule.(fromPath := ruleData.fromPath, toPath := ruleData.toPath, parameter := None, value := None);
          } else {
            rule := rule.(parameter := ruleData.parameter, value := ruleData.value, fromPath := None, toPath := None);
          }
          assert rule == Overwritten(rules[i], ruleData);
          rules := rules[i := rule];
        }
      } else {
        var newRule := Rule(now, ruleData.domain, ruleData.action, true,
                            ruleData.parameter, ruleData.value, ruleData.fromPath, ruleData.toPath);
        assert newRule == NewRule(now, ruleData);
        rules := rules + [newRule];
      }
    }
  }
}
