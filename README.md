# url-butler in Dafny

url-butler is a browser extension that rewrites URLs by per-domain rules. A
rule names a domain and one action: `remove` a query parameter (optionally
only when it has a given value), `add` a query parameter or overwrite its
value, or `redirect` a path prefix to another prefix. Two scripts run the same
rule engine: the background worker on every committed main-frame navigation
(it calls `tabs.update`), and the content script at document start (it calls
`location.replace`). A popup edits the rule list and the global switch.

This project models that engine, both handlers and the popup's rule editing,
and proves what they promise:

- `Wrappers`, `JsText`: option values, JavaScript truthiness, `String(undefined)`,
  `startsWith`/`endsWith` and `String.prototype.trim` over the white space set of
  ECMAScript.
- `Utf8`, `FormUrlEncoded`, `SearchParams`: the `URLSearchParams` object the
  engine works on, as a list of name/value pairs. Parsing and serializing
  follow the application/x-www-form-urlencoded parser and serializer of the
  WHATWG URL Standard (section 5), with UTF-8 decoding as in the WHATWG
  Encoding Standard; `has`, `get`, `delete` and `set` follow the
  URLSearchParams interface. Parsing a serialized list gives the list back.
- `Urls`: a parsed URL as its components and its `href`.
- `Rules`: the stored rule record and the two rules written on installation.
- `Engine`: which rules match a hostname, what one rule does to the query and
  the path, the loop over the matching rules (`ApplyMatchingRules`, proved
  against `ApplyRules`), and `Rewrite`/`Target`, the URL a handler navigates to.
- `Background`, `Content`: the two handlers, each proved to navigate to
  exactly `Engine.Target`, so the two scripts always agree.
- `Popup`: the global switch and the class `RuleEditor`, whose methods toggle,
  delete, edit and add rules, each proved against a function on the list.

Behaviour the model keeps as the code has it:

- The engine runs only when `true` is stored for `enabled`; the popup shows
  the switch on whenever `false` is not stored. With nothing stored the popup
  says "Enabled" while both scripts do nothing (`Popup.EnabledDefaultsDisagree`).
  The installer normally stores `true`, so this shows only when storage lost
  the key.
- A rule's missing `parameter` is looked up as the string `"undefined"`, and an
  `add` rule without a value sets `"undefined"` and fires on every pass, since
  `get` never returns `undefined`.
- The save handler tests the id being edited for truthiness, so editing a rule
  whose id is 0 appends a new rule instead (`Popup.AddAppends`).
- Rules run in stored order, each on the result of the previous one; a
  redirect can feed the next redirect (`Engine.ChainedRedirects`).
- The handlers skip a navigation only when the new `href` equals the old one.
  A redirect whose target extends its own source (`/a` to `/a/b`) fires again
  on its own result (`Engine.ExtendingRedirectKeepsFiring`); single add and
  remove rules settle after one navigation.
- Element hiding (`hideElement` rules with CSS selectors) is described for the
  extension, but no script of this source implements it: such a rule reaches
  the engine as an unknown action and does nothing.

## Model

| member | source | states |
|---|---|---|
| Rules.DefaultRules | background.js:4-23 | the installed list has two enabled rules with distinct ids, each carrying exactly the fields of its action |
| Engine.DomainMatchesIff | background.js:44-46 | a hostname matches a domain iff it is the domain or some labels, a dot and the domain |
| Engine.SubdomainExamples | background.js:45 | `sub.example.com` matches `example.com`; `notexample.com` does not |
| Engine.MatchingRules | background.js:42-47 | a rule is kept iff it is stored, enabled and its domain matches the hostname |
| Engine.MatchingRulesAppend | background.js:42-47 | matching keeps the stored order: it distributes over concatenation |
| Engine.ApplyRulesAppend | background.js:55-90 | running rules `a` then `b` is running `a + b`: each rule sees the state the previous ones left |
| Engine.RemoveSemantics | background.js:56-64 | a remove rule changes the query iff the parameter is present and its value is unset or equals the first value; it then deletes every pair of that name, keeps the others and sets both flags; otherwise nothing changes |
| Engine.AddSemantics | background.js:65-74 | after an add rule the parameter's first value is the rule's value and no pair of another name moves; a rule with a value that is already the first value changes nothing, and a rule without a value or with a different one sets both flags |
| Engine.AddIdempotent | background.js:67-74 | applying the same add rule twice is applying it once |
| Engine.RedirectSemantics | background.js:75-88 | a redirect rule never touches the query; when it fires the path becomes `toPath` plus the rest after `fromPath`, otherwise nothing changes |
| Engine.PathMatchesIff | background.js:79-82 | a path matches `fromPath` iff `fromPath` is a prefix that ends the path or is followed by `/` |
| Engine.RedirectExamples | background.js:79-85 | `/u/0/settings` becomes `/u/2/settings`, `/u/0` becomes `/u/2`, and `/u/05` is left alone |
| Engine.ChainedRedirects | background.js:55-90 | redirects `/a`→`/b` then `/b`→`/c` take `/a/x` to `/c/x` in one pass |
| Engine.FlagsRecordChanges | background.js:51-90 | `paramsModified` implies `modified`, nothing changes unless `modified` is set, and the query changes only with `paramsModified` |
| Engine.ParamsFlagRecordsQueryRules | background.js:51-90 | after the loop `paramsModified` is set if and only if some remove or add rule fired on the state the rules before it left |
| Engine.RedirectsKeepQuery | background.js:75-88 | rules with no query action leave the query list and its flag unchanged |
| Engine.ApplyMatchingRules | background.js:51-90 | the imperative rule loop ends in the state `ApplyRules` gives for the matching rules |
| Engine.SearchOf | background.js:95-96 | the new search string is empty iff the query list is empty |
| Engine.SearchOfRoundTrip | background.js:95-96 | the search string written back parses to the same query list |
| Engine.Rewrite | background.js:36-102 | no navigation when the switch is off or no rule matches; a navigation changes the href and only the path and the search |
| Engine.Target | background.js:99-101 | the href navigated to always differs from the current one |
| Engine.RedirectsKeepSearch | background.js:92-97 | with only redirect rules the search string is kept as it was |
| Engine.SearchAfterRewrite | background.js:92-97 | the search navigated to is `?` and the serialization of the final list (or empty for an empty list) when some remove or add rule fired along the matching rules, and the original search otherwise, whatever redirects the list also holds |
| Engine.SelfRedirectDoesNotNavigate | background.js:99-102 | a redirect to its own path causes no navigation |
| Engine.AddRuleSettles | background.js:65-101 | after the navigation one add rule caused, the same rule causes no further navigation |
| Engine.RemoveRuleSettles | background.js:56-101 | after the navigation one remove rule caused, the same rule causes no further navigation |
| Engine.ExtendingRedirectKeepsFiring | background.js:99-101 | a redirect from `/a` to `/a/b` navigates, and its result matches `/a` again |
| Engine.DefaultRulesMatching | background.js:5-22 | each installed rule matches its own host and not the other's |
| Engine.DefaultRedirectVector | background.js:14-21 | on gemini.google.com, `/u/0/settings` goes to `/u/2/settings`, which is not rewritten again |
| Engine.DefaultRemoveVector | background.js:6-13 | on marmalade-ai.com, `?debug_mode=true&x=1` becomes `?x=1` |
| Engine.DefaultRemoveValueMismatch | background.js:59 | `?debug_mode=false` is left alone: the value does not match |
| Background.OnCommitted | background.js:32-104 | no update outside the main frame, with the switch off or without a matching rule; in the main frame the update is exactly `Engine.Target` |
| Content.CheckAndModifyUrl | content.js:8-84 | the replacement is exactly `Engine.Target`, the same as the background handler's |
| Urls.HrefOfNewPathAndSearch | background.js:100 | changing the path and the search changes the href iff it changes path followed by search |
| SearchParams.ToString | background.js:95 | the serialization is empty iff the list is empty |
| SearchParams.Get | background.js:59 | `get` answers iff `has` holds, and answers the value of the first pair with that name |
| SearchParams.Delete | background.js:60 | `delete` removes every pair with that name and keeps every other pair |
| SearchParams.Set | background.js:71 | after `set` the first value is the new one and the list without that name is unchanged |
| SearchParams.SetLeavesOnePair | background.js:71 | after `set` exactly one pair carries the name |
| SearchParams.NamedDeleted | background.js:60 | after `delete` no pair carries the name |
| SearchParams.DeleteAppend | background.js:60 | `delete` distributes over concatenation, so the other pairs keep their order |
| SearchParams.SetInPlace | background.js:71 | `set` on a present name replaces its first pair in place and drops the later ones |
| SearchParams.SetAppends | background.js:71 | `set` on an absent name appends one pair |
| SearchParams.SetIdempotent | background.js:71 | setting the same value twice is setting it once |
| FormUrlEncoded.Serialize | background.js:95 | the serialization is empty iff the list is empty |
| FormUrlEncoded.ParseSerialize | background.js:95-96 | parsing the serialization of any list of pairs gives that list back |
| Utf8.DecodeEncode | background.js:53 | decoding the UTF-8 encoding of any string gives the string back |
| JsText.Trim | popup.js:225 | neither end of the result is white space |
| JsText.TrimCutsWhiteSpace | popup.js:225 | the result is an infix of the input with only white space cut from either end |
| JsText.TrimIdempotent | popup.js:225 | trimming twice is trimming once |
| Popup.EnabledDefaultsDisagree | popup.js:80 | with no stored flag the popup shows the switch on while the engine stays off; a stored boolean reads the same in both |
| Popup.ReadFormShape | popup.js:225-238 | the saved data has the form's action, and each text field it carries is the trimmed form field of that name |
| Popup.FormFitsAction | popup.js:230-238 | whatever the form holds, the rule written from it carries exactly the fields of its action, whether edited or added |
| Popup.FindRule | popup.js:150 | the index found holds the first rule with that id; none is found iff no rule has it |
| Popup.ToggleFlipsFirstMatch | popup.js:150-153 | toggling flips the flag of the first rule with the id and changes nothing else; an unknown id changes nothing |
| Popup.ToggleTwice | popup.js:150-153 | toggling the same id twice restores the list |
| Popup.WithoutId | popup.js:166 | a rule remains iff it was stored and has another id |
| Popup.WithoutIdAppend | popup.js:166 | deleting keeps the other rules in order: it distributes over concatenation |
| Popup.WithoutIdIdempotent | popup.js:166 | deleting twice is deleting once; a list without the id is unchanged |
| Popup.EditInPlace | popup.js:243-260 | editing replaces the first rule with the id by that rule with the trimmed domain, the action, the trimmed parameter and value (or the trimmed from and to paths for a redirect) and the other action's two fields cleared, keeping its id, flag and position; every other rule is unchanged and an unknown id changes nothing |
| Popup.AddAppends | popup.js:243-268 | with no rule being edited, or id 0, saving keeps the list and appends exactly the rule made of the clock reading as id, the trimmed domain, the action, enabled, and the trimmed parameter and value (or the trimmed from and to paths for a redirect) with the other action's two fields unset |
| Popup.ToggleDeleteKeepWellShaped | popup.js:147-171 | toggling and deleting keep every rule carrying exactly the fields of its action |
| Popup.SaveKeepsWellShaped | popup.js:222-270 | saving, by edit or add, keeps every rule carrying exactly the fields of its action |
| Popup.RuleEditor.constructor | popup.js:19-23 | the popup opens on the stored switch and rule list with no rule being edited |
| Popup.RuleEditor.LoadSettings | popup.js:78-84 | the switch is shown on unless `false` is stored |
| Popup.RuleEditor.SetEnabled | popup.js:87-91 | the position chosen is stored, and the engine then runs iff it is on |
| Popup.RuleEditor.ToggleRule | popup.js:147-157 | the stored list becomes `Toggled` of the old one |
| Popup.RuleEditor.DeleteRule | popup.js:161-171 | the stored list becomes `WithoutId` of the old one |
| Popup.RuleEditor.EditRule | popup.js:174-196 | the form edits the rule iff a rule with that id exists; otherwise the editing id is unchanged |
| Popup.RuleEditor.OpenNewRule | popup.js:199-204 | the form opens with no rule being edited |
| Popup.RuleEditor.SaveRule | popup.js:222-270 | the stored list becomes `Saved` of the old one: edit when the editing id is truthy, append otherwise |

## Left out

- Browser APIs (`chrome.storage`, `chrome.tabs.update`, `chrome.webNavigation`, `location.replace`) are parameters and results: each handler takes what storage answered and returns the navigation it would start.
- The asynchronous order of storage reads and writes, and races between the popup and the two scripts, are not modelled.
- URL parsing is not modelled: a URL is its components, and `details.url` and `window.location.href` are taken to be the `href` of those components.
- The `pathname` setter's percent-encoding, dot-segment handling, prepending of `/` to a path that lacks one and reading of `\` as `/` are not modelled: the new path is stored as computed, so a `toPath` of `u/2` applied to `/u/0/x` gives the href `https://hostu/2/x` here where a browser navigates to `https://host/u/2/x`.
- The `search` setter is taken to store `?` and the serializer's output unchanged; that output holds only characters the query state does not escape.
- Strings are sequences of code points; lone surrogates and their replacement by U+FFFD in the serializer are not modelled.
- Rule ids come from `Date.now()` and are a parameter `now`; `parseInt` of the id attribute is taken to give the stored id.
- The popup's DOM work is left out: rendering the list, `escapeHtml`, showing and hiding form fields, the modal and `confirm` (a deletion is modelled once confirmed).
- The installer's writes to storage are left out beyond the default rule list (`Rules.DefaultRules`).
- Element hiding has no implementation in this source and so no model.
- The icon generator script is not part of this model.
