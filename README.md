# RestrictedAttrService.filter in Dafny

This project models the field-level access filter of the Sails service
`RestrictedAttrService` (`src/RestrictedAttrService.js`). Its `filter(object,
restrictedAttributes, user, action)` walks an ordered list of rules. Each rule
names one attribute and lists, per action, the access levels allowed to perform
that action on it. The filter deletes from the record every attribute the user
may not see or update, and returns the same record.

The model follows the code as written:

- One `restricted` flag serves the whole call. It starts false, is never
  cleared, and once set makes every later applicable rule delete its
  attribute.
- The membership check comes first. An owner whose own access level is not in
  the list loses the attribute; a list of only `'self'` removes it from
  everyone whose level is not literally `'self'`.
- The owner check compares the user's `id` with the record's `id` as the
  record stands at that rule. Both absent counts as equal. Within one call a
  deleted `id` never decides an owner check, because every deletion sets the
  flag first and later applicable rules then delete anyway
  (`FilterProperties.ClearFlagKeepsRecord`); the reduced `id` shows only in a
  later call on the same record.

Layout:

- `js_values.dfy` (module `JsValues`): values, `undefined` as `None`, property
  lookup `Get`, and `IndexOf` for `Array.prototype.indexOf`.
- `restricted_attr_service.dfy` (module `RestrictedAttrService`): the rule and
  loop-state datatypes, the fixed field names `id`, `id`, `access`, the two
  checks, one loop step `ApplyRule`, the whole loop `Run` and `FilterRecord`
  as functions, and the in-place version: class `Record` (the caller's object,
  a `map` field) and method `Filter`, whose `while` loop is proved to follow
  `Run` rule by rule.
- `filter_properties.dfy` (module `FilterProperties`): lemmas about one rule
  and about the whole list, including idempotence when the first call keeps
  the record's `id`.
- `filter_examples.dfy` (module `FilterExamples`): concrete calls, among them
  inputs on which rule order and a second call change the result.

Four expectations one might have of such a filter do not hold of this code,
and the model proves what the code does instead:

- Independent rules. The flag is shared across rules (lines 21, 28, 37), so a
  denial makes every later applicable rule delete too, and rule order matters
  (`FilterExamples.RuleOrderMatters`).
- A missing access level slipping past `'self'` because index -1 is below the
  index of `'self'`. The membership check at lines 27-28 has already set the
  flag, and the `!restricted` guard at line 32 skips the comparison, so the
  attribute is removed (`FilterProperties.UnlistedAccessRemoves`,
  `FilterProperties.PositionComparisonSeesListedAccess`).
- An owner keeping an attribute restricted to `['self']`. The owner's level
  must be listed too (`FilterExamples.OwnerNotListedLosesEmail`).
- Idempotence. It holds whenever the first call keeps the record's `id`
  (`FilterProperties.IdempotentWhenIdKept`), in particular when no rule is
  named `id`, and can fail when the first call removes `id`
  (`FilterExamples.IdRuleBreaksIdempotence`).

## Model

| member | source | states |
|---|---|---|
| JsValues.Get | src/RestrictedAttrService.js:27-33 | `user[...]` and `object[...]` give a value exactly when the object owns the property, and then the property's value; otherwise undefined |
| JsValues.IndexOf | src/RestrictedAttrService.js:27-33 | `indexOf` gives -1 exactly when the value is undefined or not in the list; otherwise a position holding the value with no earlier occurrence |
| RestrictedAttrService.AfterMembershipCheck | src/RestrictedAttrService.js:26-29 | after the membership check the flag is set iff it was already set or the user's access level is undefined or not in the allowed list |
| RestrictedAttrService.AfterSelfCheck | src/RestrictedAttrService.js:31-39 | the owner check never clears the flag; it sets it only when the list holds `'self'`, the ids differ and the user's level does not come strictly before `'self'`; a non-owner whose level comes strictly before `'self'` stays unrestricted |
| RestrictedAttrService.Decision | src/RestrictedAttrService.js:26-39 | after both checks the flag is set iff it was set, or the user's access level is undefined or unlisted, or the list holds `'self'`, the user's id differs from the record's and the level's first index is not below that of `'self'` |
| RestrictedAttrService.ApplyRule | src/RestrictedAttrService.js:24-44 | one rule removes at most its own attribute, keeps every other value, never clears the flag, is a no-op when it does not apply, and when it applies removes its attribute exactly when the flag ends up set |
| RestrictedAttrService.Run | src/RestrictedAttrService.js:21-45 | after the loop the record has a subset of the keys, each with its original value, every removed key is the name of some rule, and a set flag stays set |
| RestrictedAttrService.FilterRecord | src/RestrictedAttrService.js:14-47 | the filtered record adds no key, keeps each remaining value, and keeps every attribute no rule names |
| RestrictedAttrService.Filter | src/RestrictedAttrService.js:14-47 | the in-place loop returns the same object and leaves in it exactly the record `FilterRecord` describes |
| FilterProperties.UnlistedAccessRemoves | src/RestrictedAttrService.js:26-42 | an applicable rule whose list lacks the user's level removes its attribute and sets the flag, owner or not |
| FilterProperties.SetFlagRemoves | src/RestrictedAttrService.js:21-42 | with the flag already set, any applicable rule removes its attribute |
| FilterProperties.ListedAccessKeptIff | src/RestrictedAttrService.js:27-41 | with the flag clear and the user's level listed, the attribute is kept iff the list has no `'self'`, or the user id equals the record's current id, or the user's level first occurs strictly before `'self'`; the flag is set iff the attribute is removed |
| FilterProperties.PositionComparisonSeesListedAccess | src/RestrictedAttrService.js:27-33 | whenever the position comparison is reached, the user's level has an index of at least 0, so -1 never exempts anyone |
| FilterProperties.RunShrinks | src/RestrictedAttrService.js:21-42 | later in the loop the record's keys only shrink and a set flag stays set |
| FilterProperties.SharedFlagRemovesLaterRules | src/RestrictedAttrService.js:21-42 | after the first rule that sets the flag, every later rule that applies when reached removes its attribute, whatever its own list says |
| FilterProperties.OwnerIdKeptWithoutIdRule | src/RestrictedAttrService.js:32-42 | when no rule is named `id`, every owner check sees the record's original id |
| FilterProperties.SecondPassKeepsAll | src/RestrictedAttrService.js:23-45 | a second call over any prefix of the rules, on the result of a first call that kept the record's `id`, deletes nothing and leaves the flag clear |
| FilterProperties.IdempotentWhenIdKept | src/RestrictedAttrService.js:14-47 | filtering twice with the same arguments equals filtering once whenever the first call keeps the record's `id` (or it was absent) |
| FilterProperties.IdempotentWithoutIdRule | src/RestrictedAttrService.js:14-47 | filtering twice with the same arguments equals filtering once when no rule is named `id` |
| FilterProperties.ClearFlagKeepsRecord | src/RestrictedAttrService.js:21-42 | if the flag is still clear after a run of rules, no attribute was deleted: every deletion sets the shared flag |
| FilterExamples.UnlistedLevelLosesSalary | src/RestrictedAttrService.js:27-42 | `view: ['admin']` removes `salary` for a `user` even on the user's own record |
| FilterExamples.ListedLevelKeepsSalary | src/RestrictedAttrService.js:27-41 | `view: ['admin']` keeps `salary` and its value for an `admin` |
| FilterExamples.OwnerNotListedLosesEmail | src/RestrictedAttrService.js:27-28 | `update: ['self']` removes `email` from its owner, whose level `user` is not listed |
| FilterExamples.SelfBeforeLevelSeparatesOwner | src/RestrictedAttrService.js:32-38 | `['self', 'user']` keeps `email` for the owner and removes it for another `user` |
| FilterExamples.LevelBeforeSelfOverridesOwnership | src/RestrictedAttrService.js:33-35 | `['admin', 'self']` keeps `email` for an `admin` who does not own the record |
| FilterExamples.AbsentIdsMatch | src/RestrictedAttrService.js:32 | a user without an id owns a record without an id |
| FilterExamples.RuleOrderMatters | src/RestrictedAttrService.js:21-42 | swapping an allowing and a denying rule changes the result from keeping the allowed attribute to removing both |
| FilterExamples.IdRuleBreaksIdempotence | src/RestrictedAttrService.js:32-42 | with a rule on `id` after an owner-only rule, a second call removes the attribute the first call kept |

## Left out

- The Sails service export and where the record, rules and user come from
  (`Model.findOne`, the logged-in user); the caller passes them in.
- JavaScript loose equality: `!=` at line 32 equates `"5"` and `5`, and
  `!= undefined` at line 25 also rejects `null`. Values here are strings or
  integers compared structurally, and a missing property is `None`.
- `hasOwnProperty` and the prototype chain: the record is a `map` and
  `delete` removes a key. The lookup `rule.restrictions[action]` at line 25
  does walk the prototype chain. So an action named after an inherited
  property (`constructor`, `toString`, `valueOf`, `__proto__`) passes the
  guard, and calling `indexOf` on what it finds throws a `TypeError` at line
  27 on the first applicable rule. The model looks up only the rule's own
  actions (`Applies`, `action in rule.restrictions`). It treats such an
  action as absent, skips the rule, and nothing throws.
- The `TypeError` when a rule has no `restrictions` object: every rule carries
  a map from action to list.
- Floating-point and `NaN` tokens, which `indexOf` never finds: tokens are
  strings or integers.
- Other shapes of the user and of record values (nested objects, arrays):
  both are maps from names to strings or integers.
- Configurable field names: the source fixes them to `id`, `id` and `access`,
  and so does the model.
- Absent or malformed arguments and the exceptions they raise. If `object` is
  `null` or `undefined` (say `Model.findOne` found no row), `hasOwnProperty`
  throws a `TypeError` at line 25 on the first rule; if `user` is `undefined`,
  reading its access level throws at line 27 on the first applicable rule; a
  `restrictedAttributes` without a `forEach` method (for example a plain
  object, which the doc comment's `{Object}` type allows) throws at line 23. The record
  is left as it was and the exception propagates. The model's types make
  these inputs impossible: it assumes a present record, user and rule list.
  An empty user map is a different input: it removes every applicable
  attribute and does not throw.
- FilterProperties.IdempotentWhenIdKept: states a sufficient condition for
  idempotence (the first call keeps `id`), not an exact one; a call that
  removes `id` may or may not be idempotent, and
  `FilterExamples.IdRuleBreaksIdempotence` shows one that is not.
