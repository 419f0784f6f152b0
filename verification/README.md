# leptos_i18n locale loading and schema unification, in Dafny

This project models the core of the `leptos_i18n` procedural macro's locale
loader (`leptos_i18n_macro/src/load_locales/locale.rs`). The core does three things:

- **Loading.** It reads one JSON resource per locale, or one per locale and
  namespace. It folds each resource's entries into a `Locale`, a map from
  translation key to parsed value. Opening and reading the file can fail with
  `LocaleFileNotFound` or `LocaleFileDeser`; both errors carry the file's path.
- **Unification.** Within one group of locales (one namespace, or all locales
  when no namespaces are configured), `check_locales_inner` does four steps:
  - It checks that every locale has the first locale's key set. The first
    offending locale makes it fail with `MissingKeysInLocale`.
  - It merges, key by key, the interpolation keys every locale's value
    references.
  - It rejects a key whose plural selectors use two different taxonomies
    (`PluralTypeMissmatch`). Otherwise, for a key with a plural selector, it
    drops the reserved `var_count` variable.
  - It classifies each key: `String` when every value's keys are `None`
    (the key's accumulator stayed `None`), `Builder(keys)` otherwise.
- **All groups.** `check_locales` runs the unifier once per namespace, or once
  for the flat locale list. The first failing group aborts the whole call.

The files:

- `results.dfy`: the `Option` and `Result` datatypes.
- `parsed_value.dfy`: `InterpolateKey`, and `ParsedValue` seen through its
  interpolation keys. It stands in for `parsed_value.rs`, which is not part of
  this model.
- `errors.dfy`: the error kinds. `error.rs` is not part of this model.
- `locale_data.dfy`: `Locale`, `Namespace`, `LocalesOrNamespaces`,
  `LocaleValue` and `BuildersKeys`.
- `check_locales.dfy`: `key_missmatch`, `check_locales_inner`, `check_locales`
  and the lemmas about them.
- `load_locales.dfy`: `visit_map`, `Locale::new`, `Namespace::new`,
  `LocalesOrNamespaces::new` and the lemmas about them.

The source is partly imperative: it updates hash maps in place and builds
vectors with loops that exit early through `?`. Those functions are modelled as
methods with loops. Each method is proved against a specification function,
and the lemmas state the properties of those functions. `Rc<Key>` is a plain
string. A `HashMap` is a `map` and a `HashSet` is a `set`.

Assumptions about code outside this model:

- **Merging values.** `ParsedValue::get_keys_inner` is assumed to add the
  value's interpolation keys to the accumulator. A value whose keys are `None`
  leaves the accumulator unchanged, so the merge is a union in which `None` is the
  empty element (`ParsedValues.GetKeysInner`). `get_keys` is that merge
  started from `None`.
- **Iteration order.** Hash-map and hash-set iteration order decides two
  things:
  - which `Count` entry `find_map` meets first (`FindCount` may return any of
    them);
  - which conflicting key `PluralTypeMissmatch` names (`CheckLocalesInner`
    promises only that it is some conflicting key).

A key is a `String` only when its accumulator is `None`. Any `Some`
accumulator, even an empty one, gives `Builder` (`NewLocaleValue`,
`locale.rs:222-227`).

## Model

| member | source | states |
|---|---|---|
| `LocaleData.NewLocaleValue` | leptos_i18n_macro/src/load_locales/locale.rs:221-227 | a key is `String` exactly when its accumulator is `None`; any `Some` accumulator, even an empty one, gives `Builder` with exactly that set, and the set can be read back |
| `LocaleData.ClassificationRoundTrip` | leptos_i18n_macro/src/load_locales/locale.rs:221-227 | classification is invertible: rebuilding a locale value from its accumulator gives the same value |
| `LocaleData.Locale.GetKeys` | leptos_i18n_macro/src/load_locales/locale.rs:94-96 | a locale's key set is exactly the domain of its translation map: a key is in it iff the locale defines it, and it has one element per entry |
| `ParsedValues.GetKeysInnerIsUnion` | leptos_i18n_macro/src/load_locales/locale.rs:154-158 | the assumed merge step is a union: it is `None` only if both sides are, and it holds exactly the elements of either side; `get_keys` is the merge started from `None` |
| `LocaleCheck.FirstMismatchFrom` | leptos_i18n_macro/src/load_locales/locale.rs:142-152 | finds the first locale, in slice order, whose key set differs from the first locale's; every locale before it agrees, and when none is found every locale agrees |
| `LocaleCheck.KeyMissmatch` | leptos_i18n_macro/src/load_locales/locale.rs:98-125 | if `keys1 - keys2` is non-empty, exactly those keys are reported against `locale2`; otherwise `keys2 - keys1` is reported against `locale1`; the namespace label is passed through; for differing sets the report is never empty |
| `LocaleCheck.AccumulatorIsUnion` | leptos_i18n_macro/src/load_locales/locale.rs:136-158 | after the first `n` locales, a key's accumulator holds exactly the interpolation keys some of those locales' values for that key reference; it is `None` exactly when none of them references any |
| `LocaleCheck.AccumulatorReadsOnlyItsKey` | leptos_i18n_macro/src/load_locales/locale.rs:154-158 | a key's accumulator depends only on the locales' values for that same key, folded in slice order |
| `LocaleCheck.AccumulatorIgnoresOrder` | leptos_i18n_macro/src/load_locales/locale.rs:136-158 | the final accumulator of a key is the same for any ordering of the same locales |
| `LocaleCheck.FirstCountChoiceIrrelevant` | leptos_i18n_macro/src/load_locales/locale.rs:166-173 | whichever `Count` entry is picked first, finding a `Count` of a different taxonomy is the same as the set holding two `Count` entries of different taxonomies |
| `LocaleCheck.FindCount` | leptos_i18n_macro/src/load_locales/locale.rs:166-169 | returns the taxonomy of some `Count` entry of the set, or nothing exactly when the set has no `Count` entry |
| `LocaleCheck.RetainWithoutVarCount` | leptos_i18n_macro/src/load_locales/locale.rs:180-184 | keeps every element except `Variable("var_count")` |
| `LocaleCheck.ApplyCountRule` | leptos_i18n_macro/src/load_locales/locale.rs:161-185 | a `None` accumulator and a set without `Count` are unchanged; a set with a `Count` loses only `Variable("var_count")` |
| `LocaleCheck.MergeLocale` | leptos_i18n_macro/src/load_locales/locale.rs:154-158 | merging one more locale into every accumulator, in place, yields the accumulators of the fold one locale further |
| `LocaleCheck.ResolveCounts` | leptos_i18n_macro/src/load_locales/locale.rs:161-186 | fails exactly when some accumulator has a plural conflict, and then with `PluralTypeMissmatch` naming such a key and the namespace; otherwise every accumulator has had the count rule applied |
| `LocaleCheck.CheckLocalesInner` | leptos_i18n_macro/src/load_locales/locale.rs:127-194 | for a non-empty group: succeeds exactly when no key mismatch and no plural conflict exist, and then returns the unified schema; otherwise reports the first offending locale's key mismatch or, when the key sets all agree, a plural mismatch on some conflicting key |
| `LocaleCheck.MismatchBlamesFirstOffender` | leptos_i18n_macro/src/load_locales/locale.rs:142-152 | the first locale, in slice order, whose key set differs is the one the mismatch is reported for; for every namespace label the only error reported is that locale's key mismatch, so no plural mismatch can be reported |
| `LocaleCheck.MismatchIgnoresLaterLocales` | leptos_i18n_macro/src/load_locales/locale.rs:142-152 | once a mismatch is found, appending any locales to the group leaves the outcome and the reported error unchanged |
| `LocaleCheck.UnifiedSchema` | leptos_i18n_macro/src/load_locales/locale.rs:136-193 | the schema's domain is exactly the first locale's key set; a key is `String` exactly when no locale's value for it references an interpolation key; a `Builder` without a `Count` entry holds exactly the interpolation keys the locales contribute for that key |
| `LocaleCheck.PluralConflictAcrossLocales` | leptos_i18n_macro/src/load_locales/locale.rs:165-178 | a key has a plural conflict exactly when the locales, taken together, give it plural selectors of two different taxonomies |
| `LocaleCheck.UnifiedCountKey` | leptos_i18n_macro/src/load_locales/locale.rs:170-185 | after a successful unification, a key with a plural selector is a `Builder` whose `Count` entries share one taxonomy and which lacks only `Variable("var_count")` among the merged keys |
| `LocaleCheck.UnifiedIgnoresLocaleOrder` | leptos_i18n_macro/src/load_locales/locale.rs:127-194 | for a group whose key sets agree, any reordering of its locales still agrees and gives the same conflicting keys and the same schema |
| `LocaleCheck.FailureIgnoresLocaleOrder` | leptos_i18n_macro/src/load_locales/locale.rs:127-194 | two groups holding the same locales, in any order, either both fail or both unify |
| `LocaleCheck.NamespaceKeysLookup` | leptos_i18n_macro/src/load_locales/locale.rs:199-205 | the per-namespace map has exactly one entry per namespace key, holding the schema of the last namespace with that key |
| `LocaleCheck.CheckLocales` | leptos_i18n_macro/src/load_locales/locale.rs:196-211 | namespaced: succeeds exactly when every namespace unifies, returning the namespaces unchanged with one schema per namespace key; otherwise the error of the first failing namespace, labelled with its name; flat: the unifier run once without a label, returning the locales unchanged |
| `LocaleLoading.EntriesFailureSticks` | leptos_i18n_macro/src/load_locales/locale.rs:242-243 | an error among the items read so far is the error of the whole fold |
| `LocaleLoading.VisitMap` | leptos_i18n_macro/src/load_locales/locale.rs:236-248 | the entry loop computes the specification fold of the items |
| `LocaleLoading.EntriesFailure` | leptos_i18n_macro/src/load_locales/locale.rs:242-243 | the fold fails exactly when some item is malformed or its value fails to parse, and then with the first such item's error |
| `LocaleLoading.EntriesKeys` | leptos_i18n_macro/src/load_locales/locale.rs:240-247 | a successful fold's map holds exactly the keys read |
| `LocaleLoading.EntriesLastWins` | leptos_i18n_macro/src/load_locales/locale.rs:242-245 | every value was parsed with the "inside a plural" flag off, and a key read several times holds the value parsed from its last occurrence |
| `LocaleLoading.OpenLocaleOutcome` | leptos_i18n_macro/src/load_locales/locale.rs:81-92 | an unopenable file gives `LocaleFileNotFound` and any other failure gives `LocaleFileDeser`, both with the same path; on success the locale carries the requested name and exactly the file's keys |
| `LocaleLoading.LocaleNew` | leptos_i18n_macro/src/load_locales/locale.rs:81-92 | opening then folding computes the specification of one locale load |
| `LocaleLoading.CollectFailureSticks` | leptos_i18n_macro/src/load_locales/locale.rs:42-45 | an error among the loads done so far is the error of the whole loop |
| `LocaleLoading.CollectOutcome` | leptos_i18n_macro/src/load_locales/locale.rs:42-45 | a `push(...?)` loop succeeds exactly when every step does, keeping the values in order; otherwise it fails with the first failing step's error |
| `LocaleLoading.NamespaceNew` | leptos_i18n_macro/src/load_locales/locale.rs:40-47 | the loop computes the specification of loading one namespace |
| `LocaleLoading.LoadNamespaceOutcome` | leptos_i18n_macro/src/load_locales/locale.rs:40-47 | a namespace holds one locale per configured locale, in configuration order, each loaded from `{dir}/{locale}/{namespace}.json` and named after its locale; the first failing load decides the error |
| `LocaleLoading.LocalesOrNamespacesNew` | leptos_i18n_macro/src/load_locales/locale.rs:51-72 | the loops compute the specification of loading the whole configuration |
| `LocaleLoading.LoadLocalesOrNamespacesOutcome` | leptos_i18n_macro/src/load_locales/locale.rs:51-72 | without namespaces: one locale per configured locale, in order, from `{dir}/{locale}.json`; with namespaces: one namespace per configured namespace, in order; the first failing load decides the error |
| `LocaleLoading.LoadedInputIsCheckable` | leptos_i18n_macro/src/load_locales/locale.rs:131-132 | with at least one configured locale, the loader's output never gives the unifier an empty group |

## Left out

- Opening files and the `serde_json` deserializer are not modelled. The file
  system is a function from a path to what opening it yields: a failure cause,
  or the items the map visitor is handed. The `DeserializeSeed` plumbing
  (`locale.rs:258-268`) is folded into `OpenLocale`.
- The value parser (`ParsedValueSeed`, `parsed_value.rs`) is not part of this
  model. It is a function parameter. A parsed value is represented only by the
  interpolation keys it references.
- `ParsedValues.GetKeysInner`: the union behaviour of `get_keys_inner` is an
  assumption, because its source is not part of this model.
- `LocaleCheck.KeyMissmatch`: it reports the missing keys as a set. The order
  of the source's vector follows hash-set iteration and is not modelled.
- `LocaleCheck.CheckLocalesInner`: it does not say which conflicting key a
  `PluralTypeMissmatch` names. That key depends on hash-map iteration order.
- `LocaleCheck.CheckLocalesInner`: it requires a non-empty slice, because the
  source unwraps the first element and panics otherwise. `CheckLocales`
  requires the same of every group.
- Error `Display` formatting, the visitor's `expecting` message, and the I/O
  and JSON error causes are not modelled. The causes are plain strings.
- `Rc` sharing and `Key` interning are not modelled. Keys, locale names and
  namespace names are strings compared by value.
- Parsing the configuration file (`cfg_file.rs`) is not part of this model.
  The configuration is a record: the ordered locales, the optional ordered
  namespaces and the resource directory.
- `examples/interpolation/src/app.rs` is view code with no logic of the core.
