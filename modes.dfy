/**
 * The two modes side by side: the same locale files baked into the `t!`
 * macro at build time and loaded into `TR` at run time give the same
 * answers, the build-time compile error standing for the run-time
 * missing-key panic.
 */
module Modes {
  import opened Table
  import Macro
  import I18n

  /** The build-time outcome that corresponds to a run-time one. */
  function AtBuildTime(r: I18n.Resolution): Macro.Expansion
  {
    match r
    case Found(value) => Macro.Translated(value)
    case MissingKey(_) => Macro.CompileError
    case MissingLanguage(locale, _) => Macro.PanicMissingLanguage(locale)
  }

  /**
   * A macro emitted for `table` expands `t!(key, locale)` exactly as
   * `t(key, locale)` resolves against `table` at run time.
   */
  lemma ModesAgree(m: Macro.Macro, table: Translations, key: Key, locale: Locale)
    requires Macro.Represents(m, table)
    ensures Macro.Expand(m, key, locale) == AtBuildTime(I18n.Lookup(table, key, locale))
  {
    Macro.DispatchAgrees(m, table, key, locale);
  }
}
