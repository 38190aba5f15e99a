# jq-idealforms validation core in Dafny

A model of the validation engine of the jq-idealforms jQuery plugin
(`js/idealforms.js`), with proofs of what it promises.

- **Validation** (`validation.dfy`). `Actions.validate` is modelled twice.
  `Validate` is a function that states the decision. `ValidateInput` is the
  source's loop with its `break`, and it is proved equal to `Validate`.
  - A field without filters passes.
  - An empty value fails exactly when the filter string contains `required`.
  - A non-empty value is checked against the filters of the split list, in
    order. The first failing filter gives the message.
  - A field's own message overrides the filter's default one.
- **Text** (`text.dfy`). JavaScript's `split(/\s/)` and the substring test
  behind `/required/.test`.
- **Configuration** (`config.dfy`). The plugin options with their defaults
  (a shallow `$.extend`). The deep merge of the caller's filters into the
  registry, and the merge of the caller's flags.
- **Flag dispatch** (`flags.dfy`). A field's flag list is its own flags
  string with the global flags appended without a separator, then split.
  `DoFlags` calls the longest prefix of registered names.
- **Field registration** (`fields.dfy`). The bookkeeping of `addFields`:
  - the caller's array is reversed in place;
  - options are stored with defaults, and an existing entry is overwritten;
  - each new field is inserted after its anchor.
  The proofs show that the insertion order depends on the anchor. Without
  `addAfter`, the anchor is the last field at the moment of each insertion,
  so the new fields end up in the reverse of the caller's order. With one
  shared `addAfter`, they keep the caller's order.
- **Form** (`form.dfy`). The class `Form` holds:
  - the options table;
  - each field's `isValid` datum, its valid/invalid mark and its displayed
    error;
  - the merged registries;
  - the page, as the names of its wrapped fields in document order.
  `Analyze` is `Actions.analyze`. `AddFields` is `addFields`. `GetInvalid`,
  `IsValid` and `IsValidField` are the public queries. `OnSubmit` and
  `OnKeyDown` are the two form handlers.

The filter tests and the flag callbacks are not part of the model. A filter
test is an arbitrary total predicate: a function of the field and the value,
a pattern on the value, or anything else. A flag callback is known only by
its identity. The `onSuccess`/`onFail` calls, the cancelled default action
and the focus change are returned as a list of effects.

What the code does in a few places where a reader might expect more:
- A message is used as written. No `{0}` placeholder is substituted.
- A filter name is never parsed for parameters, so `min:6` is just a name
  that is not in the registry.
- `required` is detected by a substring test on the raw filter string.
  Inside the filter loop it is evaluated like any other filter.
- `addFields` overwrites the options of an existing name. It reports no
  duplicate.
- The field flags and the global flags are joined without a separator.
- A field that has never been analyzed is neither valid nor invalid. It
  does not make the form invalid, and `isValidField` reports it as not valid.

## Model

| member | source | states |
|---|---|---|
| Text.Split | js/idealforms.js:207 | `s.split(/\s/)` always returns at least one piece, even for the empty string |
| Text.SplitPiecesHaveNoSpace | js/idealforms.js:207 | no piece of `split(/\s/)` contains a whitespace character |
| Text.SplitCount | js/idealforms.js:207 | the split has one more piece than there are whitespace characters, so consecutive separators give empty names |
| Text.SplitJoin | js/idealforms.js:207 | when every separator is a space, joining the pieces with a space gives the string back |
| Text.SplitNoSpace | js/idealforms.js:207 | a string without whitespace splits into itself alone |
| Text.SplitAppend | js/idealforms.js:288-290 | splitting a concatenation glues the last piece of the first string to the first piece of the second |
| Text.Contains | js/idealforms.js:196 | `/word/.test(s)` holds iff `word` occurs in `s` at some index |
| Config.Patched | js/idealforms.js:511 | a deep-merged entry takes each property the caller gives and keeps each one it leaves out; a new name has no testable `regex` |
| Config.MergeFilters | js/idealforms.js:511 | after the filter merge, the registry's names are the built-in and the caller's names; untouched names keep their entry; given properties override; left-out properties are kept |
| Config.MergeFlags | js/idealforms.js:514 | after the flag merge, every caller flag replaces the built-in one of its name, and the other built-in flags are kept |
| Config.WithDefaults | js/idealforms.js:9-22 | each option the caller gives replaces its default whole; each option left out keeps its default |
| Validation.Truthy | js/idealforms.js:196 | a value is falsy exactly when it is undefined or the empty string |
| Validation.Fails | js/idealforms.js:211-215 | a filter can fail only when its name is registered and its test is a function or a pattern |
| Validation.ErrorFor | js/idealforms.js:218-221 | the message of a failing filter is the field's own non-empty message for it, else the filter's default message |
| Validation.FirstFailure | js/idealforms.js:208-223 | returns the index of the first failing filter of the list, or none when no filter fails |
| Validation.Validate | js/idealforms.js:185-233 | no filters: pass with ""; empty value: fail iff the filter string contains `required`, with the `required` message; non-empty value: fail iff some filter fails, with the first failing filter's message; a pass never carries a message |
| Validation.FirstFailureWins | js/idealforms.js:207-223 | for a non-empty value, a pass means no filter fails, and a failure carries the message of the earliest failing filter |
| Validation.ValidateInput | js/idealforms.js:185-233 | the loop returns exactly `Validate`'s result; it looks up no filter for an empty value, and only the filters up to and including the first failing one otherwise |
| Validation.ValidateLocal | js/idealforms.js:185-233 | the result depends only on the inputs and on the registry entries of `required` and of the listed names, so it is deterministic |
| Validation.FirstFailureAppend | js/idealforms.js:208-223 | filters after the first failing one cannot change the outcome; after a passing list the search continues at shifted positions |
| Validation.OnlyTestableFiltersMatter | js/idealforms.js:210-215 | unknown names, and filters whose test is neither a function nor a pattern, never fail: dropping them reports the same filter |
| FlagDispatch.FlagList | js/idealforms.js:285-291 | the flag list has one more name than the two flag strings have separators together (none is added between them), and no name contains whitespace |
| FlagDispatch.FlagListGlue | js/idealforms.js:285-291 | the flag list is the field's flags and the global flags with the last field flag glued to the first global flag |
| FlagDispatch.FlagListSeparated | js/idealforms.js:285-291 | when the field's flags end with whitespace, the flag list is the field's flags followed by the global flags |
| FlagDispatch.RegisteredPrefix | js/idealforms.js:292-297 | the longest prefix of the list whose names are all registered |
| FlagDispatch.DoFlags | js/idealforms.js:292-297 | the loop calls exactly the longest registered prefix, in order, and stops at the first unregistered name |
| Fields.StoredOptions | js/idealforms.js:395-400 | stored options take each property given and default `filters` and `flags` to "" and `data` and `errors` to empty tables |
| Fields.Reverse | js/idealforms.js:381 | the caller's array is reversed in place |
| Fields.StoreAll | js/idealforms.js:413 | after the entries are stored, the table's names are its old names and the entries' names |
| Fields.StoreAllKeepsOthers | js/idealforms.js:413 | a name no entry carries keeps its old options, or stays absent |
| Fields.StoreAllLastWins | js/idealforms.js:413 | a name some entry carries holds the options of the last entry stored under it |
| Fields.FirstEntryWins | js/idealforms.js:381-421 | storing the reversed list keeps the first of the caller's entries of a name |
| Fields.IndexOf | js/idealforms.js:388 | the position of the first field of that name, or none when the page has no such field |
| Fields.Anchor | js/idealforms.js:386-390 | the anchor is the first field named by a non-empty `addAfter` (none when the page has no such field), else the last field of the page at that moment, else none on an empty page |
| Fields.Place | js/idealforms.js:416 | the new field goes right after the anchor and the rest of the page is kept; a missing anchor inserts nothing |
| Fields.PlaceAll | js/idealforms.js:420-421 | placing the entries one by one keeps every field of the page, adds at most one field per entry, and adds only the entries' names |
| Fields.EmptyPageInsertsNothing | js/idealforms.js:389 | without `addAfter`, a page with no field has no last field to insert after, so nothing is inserted |
| Fields.DefaultPlacementAppends | js/idealforms.js:389 | without `addAfter`, the entries are appended in the order they are processed |
| Fields.SharedAnchorStacks | js/idealforms.js:388 | with one shared `addAfter`, each entry goes right after the anchor, so they end up in the reverse of the order processed |
| Fields.DefaultAnchorReversesCallerOrder | js/idealforms.js:381-421 | without `addAfter`, `addFields` places the new fields in the reverse of the caller's order |
| Fields.SharedAnchorKeepsCallerOrder | js/idealforms.js:381-421 | with one shared `addAfter`, `addFields` places the new fields after the anchor in the caller's order |
| IdealForm.ResolveOptions | js/idealforms.js:254-257 | a field's options are those stored under its name, else its class attribute as the filter list with no messages and no flags |
| IdealForm.ResolveValue | js/idealforms.js:258-265 | a value equal to the placeholder is empty; a radio button or checkbox otherwise gets `' '`; the value is empty iff it shows its placeholder or is an empty text value |
| IdealForm.InvalidAmong | js/idealforms.js:427-431 | the fields whose datum is `false`, and no others; the first one is the earliest in document order |
| IdealForm.Form.constructor | js/idealforms.js:9-22 | the options over the defaults, the registries after both merges, no field analyzed |
| IdealForm.Form.Analyze | js/idealforms.js:240-320 | the result is `Validate` on the resolved options and value; the field's datum becomes the result's `isValid`; the mark is invalid on failure, valid for a passing non-empty value, none otherwise; on failure every message is hidden and this one shown unless the event is blur; the flags called are the registered prefix of the flag list |
| IdealForm.Form.DatumDecides | js/idealforms.js:433-440 | a field's datum decides `isValidField`, and a `false` datum makes the form invalid |
| IdealForm.Form.AddFields | js/idealforms.js:377-425 | the array ends up reversed; the options table and the page are those of storing and placing the reversed entries one by one; no datum, mark or message changes |
| IdealForm.Form.GetInvalid | js/idealforms.js:427-431 | exactly the fields of the page whose datum is `false`; an untouched field is never among them |
| IdealForm.Form.IsValid | js/idealforms.js:433-435 | the form is valid iff `getInvalid()` is empty, iff no datum is `false` |
| IdealForm.Form.IsValidField | js/idealforms.js:437-440 | a field is valid only when it is on the page and its datum is exactly `true` |
| IdealForm.Form.OnSubmit | js/idealforms.js:494-501 | when some field is invalid the effects are, in order, cancelling the submission, calling `onFail` and focusing the earliest invalid field; otherwise the only effect is calling `onSuccess` |
| IdealForm.OnKeyDown | js/idealforms.js:490-493 | the default action is cancelled iff the key code is 13 |

## Left out

- Markup generation in `doMarkup` and the custom select, radio and file widgets: DOM construction with plugins that are not part of this model.
- The label width adjustment and the placeholder polyfill in `adjust`: DOM measurement and event wiring.
- `init`, `attachEvents`, `fresh` and `reload`: browser event plumbing. At start and at the end of `addFields`, the plugin calls `fresh`. It analyzes every user input on `blur` and then clears the valid/invalid classes. The model's `Form` starts with no field analyzed, and `AddFields` does not reload. A caller reproduces those analyses with `Analyze(el, Blur)` for each element.
- The element selection of `UserInputs` (by name in the options table, or by a class that names a filter): the caller passes the analyzed element.
- `reset`, `focusFirst` and `focusFirstInvalid`'s choice of the first `input` of a field: they set values and move focus. The submit handler's focus is returned as an effect naming the field.
- `responsive` and `LessVars`: layout driven by pixel measurements. `responsiveAt` is kept only as an option.
- The regular expressions and predicate bodies of `Filters` and `Flags`, and the helpers `getKeys`, `isRegex`, `isFunction` and `getByNameOrId`: they are not part of this model. Tests are abstract predicates and callbacks are identities.
- js/i18n/errors_sp.js: a static message table with no logic.
- The `alert` defaults of `onSuccess` and `onFail`: UI side effects, returned as effects.
- AddFields: a new field goes on the page under the entry's `name`. The source inserts the element built from the entry's `markup`, and what `analyze`, `getInvalid` and `isValidField` later see is the `name` attribute of that markup's input. The model assumes the two are equal; when they differ, `Analyze` on the new element records no datum in the model.
- The page `doc` stands both for the `.ideal-wrap` rows that `addFields` anchors on and for the `.ideal-field` wrappers that `getInvalid` and `isValidField` read. A row without a field wrapper, such as a button row, is not modelled apart.
- Element identity: a field is known by its `name` attribute only. Lookup by `id`, several wrappers matching one anchor, and elements outside the form are not modelled. Fields of the page that share a name share one datum.
- The registries `Filters` and `Flags` are shared by every form on the page, and each plugin call merges into them. The model gives each form its own merged copy.
- JavaScript's `undefined`: a missing string option reads as "" and a missing table as an empty one. This includes a merged filter's missing `error`. Both are falsy wherever the code reads them. Names that hit `Object.prototype` members, such as `constructor`, are not modelled.
- The value of a multiple `select`, which is an array: every value is a string.
