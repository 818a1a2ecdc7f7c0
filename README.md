# internationalization-rs: translation table, `t!` dispatch and runtime `t`

A Dafny model of the core of the `internationalization` crate. The crate
resolves a message key and a locale to a translated string in two modes:

- **Compile-time mode** (`build.rs`). A build script merges every parsed
  `locales/**/*.json` file into one table, `key -> (locale -> value)`. It then
  emits a `macro_rules! t`. Each key becomes one rule, which `match`es the
  locale and panics with "Missing language" when no arm matches. A final
  catch-all rule expands to `compile_error!("Missing translation")`, so an
  unknown key stops the build.
- **Runtime mode** (`src/i18n/mod.rs`). A global table `TR` is filled by
  `load_i18n(content)` and read by `t(key, locale)`. That call panics on a
  missing key or a missing locale.

Both modes merge with `HashMap::extend`. It works at key granularity: a later
file's locale map for a key replaces the earlier one whole. Locales of one key
are never combined. The crate's design has been described as an additive
merge per (key, locale), but the code does not do that. The model follows the
code, and `Table.SecondFileReplacesLocales` shows the difference on two
one-key files. The same design description mentions a placeholder-interpolation
step and an "at least one locale per key" invariant. The code has neither: there is no
interpolation, and a JSON entry `"k": {}` creates a key with no locales. The
model does not add either one.

Files:

- `table.dfy` (module `Table`): the table types, `Extend` and `Merged`, the
  fold of `Extend` over files. Lemmas state which keys the merge produces,
  that the last file defining a key wins, and that keys are never lost.
- `macro.dfy` (module `Macro`): the emitted macro as data. Key rules and
  locale arms are `Arm(pattern, body)`, evaluated first-match, with the
  catch-all compile error after the key rules. The main theorem is
  `DispatchAgrees`: expansion equals direct table lookup for every emission
  order.
- `build.dfy` (module `Build`): `read_locales` and `generate_code` as methods
  with loops. Hash-map iteration order is modelled as an arbitrary choice of
  the next key or locale. The crate's own tests appear as `CrateExamples`.
- `i18n.dfy` (module `I18n`): `TR` as the class `Registry`, plus
  `load_i18n`, `t` and lemmas about lookups after a sequence of loads.
- `modes.dfy` (module `Modes`): the two modes agree on the same table.
- `wrappers.dfy` (module `Wrappers`): `Option`.

## Model

| member | source | states |
|---|---|---|
| Table.Extend | build.rs:31 | `extend` gives the union of the key sets. Every key of the new file takes that file's whole locale map, and every other key keeps its old map. |
| Table.MergedKeys | build.rs:14-32 | A key is in the merged table if and only if some parsed file defines it. The fold starts from the empty table. |
| Table.MergedLastWins | build.rs:20-31 | The merged locale map of a key is exactly the one from the last file that defines the key. Earlier locales for it are discarded. |
| Table.MergedGrows | build.rs:31 | Merging more files never removes a key. A key that none of the later files mentions keeps its locale map. |
| Table.SecondFileReplacesLocales | build.rs:31 | Merging `{greet:{en}}` and then `{greet:{fr}}` leaves `greet` with `fr` only. There is no per-locale merge. |
| Macro.FirstMatchArmMap | build.rs:47-65 | The first-match scan of macro rules or match arms returns exactly the entry of the map they denote, in which the earliest arm for a pattern wins. It returns nothing when no arm has the pattern. |
| Macro.ExpandDecode | build.rs:47-65 | Expanding `t!(key, lang)` is a direct lookup in the table the macro encodes. Both present gives the value. A present key with an absent locale gives the missing-language panic. An absent key gives the compile error. |
| Macro.DispatchAgrees | build.rs:41-65 | A macro that represents the table expands every invocation to the table's answer. A present key never reaches the catch-all rule, and an absent key always does. |
| Macro.OrderIrrelevant | build.rs:39-46 | Two macros that encode the same table give the same expansion for every key and locale, whatever the order of their rules and arms. |
| Macro.ArmCounts | build.rs:39-55 | A macro that represents the table has exactly one rule per key. Each rule has exactly one locale arm per locale of its key. |
| Macro.ArmMapSnoc | build.rs:45 | Pushing an arm with a new pattern adds exactly that entry to the denoted map and keeps the patterns distinct. |
| Macro.DistinctArmCount | build.rs:39-46 | With distinct patterns, the denoted map has as many entries as there are arms. |
| Build.ReadLocales | build.rs:13-34 | Gives the fold of `extend` over the parsed files, starting from an empty table, when every file parses. Otherwise it aborts at the first file that fails to parse. |
| Build.GenerateLangs | build.rs:40-46 | The locale arms pushed for one key have distinct locales and denote exactly that key's locale map. |
| Build.GenerateCode | build.rs:36-67 | For every hash-map iteration order, the emitted macro represents the table, and every `t!(key, lang)` expands as the direct lookup says. |
| Build.CrateExamples | src/lib.rs:94-110 | With the crate's test table, the four test translations come out. `("key.test", "es")` panics with a missing language. `"missing key"` is a compile error for every locale, as the compile-fail example documents. |
| I18n.Lookup | src/i18n/mod.rs:55-63 | Returns the stored value exactly when both key and locale are present. It reports a missing key, naming the key, exactly when the key is absent. Otherwise it reports a missing language that carries both the locale and the key. |
| I18n.Registry.constructor | src/i18n/mod.rs:13-15 | `TR` starts as the empty table with nothing loaded. |
| I18n.Registry.LoadI18n | src/i18n/mod.rs:31-35 | A parse failure leaves `TR` unchanged. Otherwise each key of the content replaces its whole locale map, the key set becomes the union, other keys are untouched, and `TR` stays the merge of everything loaded. |
| I18n.Registry.T | src/i18n/mod.rs:55-63 | `t` answers `Lookup` on the current `TR` and modifies nothing. |
| I18n.LookupNeverLoaded | src/i18n/mod.rs:61 | After a series of loads, a key that no content defined gives the missing-key error for every locale. |
| I18n.LookupLastLoad | src/i18n/mod.rs:31-59 | After a series of loads, a key is answered from the last content that defined it. That gives its value, or a missing-language error when that content lacks the locale, even if an earlier content had it. |
| I18n.LoadKeepsKeys | src/i18n/mod.rs:34 | Further loads never turn a lookup that found the key into a missing-key error. |
| Modes.ModesAgree | build.rs:47-65 | For the same table, the compile-time `t!` and the runtime `t` agree. A value matches the same value, the compile error matches the missing-key panic, and the missing-language panic matches the same locale. |

## Left out

- File discovery and reading are not modelled: the glob over `$PWD/**/locales/**/*.json`, opening and reading files, and `read_files`. They are I/O. Each parsed file is an input map.
- JSON parsing is a foreign library. Its result is an `Option<Translations>` input, where `None` means the content did not parse.
- The `PWD` and `OUT_DIR` environment variables and their `unwrap` failures are not modelled.
- `RwLock` and `lazy_static` only provide thread-safe shared access, and concurrency is not modelled. `TR` is a plain field of a single-threaded object, and the lock's poisoning `unwrap`s are not modelled.
- `write_code`, `main` and the `println!` calls are left out. Turning tokens into source text is code emission. Only the meaning of the emitted macro is modelled.
- `macro_rules!` token matching is reduced to string equality of the key literal. The catch-all `compile_error!` rule is not stored as an arm. `Macro.Expand` applies it after the key rules, which is where the generator always puts it.
- Panic messages are reduced to error values that carry the key and the locale. The text of the messages is not modelled.
- The `init_i18n!` macro that drives `load_i18n` is not part of this model. A sequence of loads is modelled as a sequence of parsed contents.
- The inner loop over locales in `generate_code` is written as its own method, `Build.GenerateLangs`. The loop and its behaviour are unchanged.
