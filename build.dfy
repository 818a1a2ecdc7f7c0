/**
 * The compile-time mode's build script: merge the parsed locale files into
 * one table (`read_locales`) and turn the table into the `t!` macro
 * (`generate_code`).
 */
module Build {
  import opened Wrappers
  import opened Table
  import opened Macro

  /** The outcome of `read_locales`: the merged table, or the build aborting on a file. */
  datatype Loaded =
    | Loaded(translations: Translations)
    | CannotParse(file: nat)   // `expect("Cannot parse locale file")` panics

  /** Every file parsed. */
  ghost predicate AllParsed(files: seq<Option<Translations>>)
  {
    forall i :: 0 <= i < |files| ==> files[i].Some?
  }

  /** The parsed contents of files that all parsed. */
  function Parsed(files: seq<Option<Translations>>): (r: seq<Translations>)
    requires AllParsed(files)
    ensures |r| == |files| && forall i :: 0 <= i < |files| ==> r[i] == files[i].value
  {
    seq(|files|, i requires 0 <= i < |files| => files[i].value)
  }

  /**
   * `read_locales`: start from an empty table and `extend` it with each file
   * in glob order. A file whose content is not a key -> locale -> value JSON
   * object aborts the build at that file.
   */
  method ReadLocales(files: seq<Option<Translations>>) returns (r: Loaded)
    ensures r.Loaded? <==> AllParsed(files)
    ensures r.Loaded? ==> r.translations == Merged(Parsed(files))
    ensures r.CannotParse? ==>
              r.file < |files| && files[r.file].None? && AllParsed(files[..r.file])
  {
    var translations: Translations := map[];
    var i := 0;
    while i < |files|
      invariant 0 <= i <= |files|
      invariant AllParsed(files[..i])
      invariant translations == Merged(Parsed(files[..i]))
    {
      match files[i]
      case None =>
        return CannotParse(i);
      case Some(res) =>
        assert Parsed(files[..i + 1])[..i] == Parsed(files[..i]);
        translations := Extend(translations, res);
        i := i + 1;
    }
    assert files[..i] == files;
    r := Loaded(translations);
  }

  /**
   * The inner loop of `generate_code`: one `lang => tr` arm per locale of a
   * key, in the hash map's order.
   */
  method GenerateLangs(trs: LocaleMap) returns (langs: seq<LangArm>)
    ensures Distinct(langs)
    ensures ArmMap(langs) == trs
  {
    langs := [];
    var locales := trs.Keys;
    while locales != {}
      invariant locales <= trs.Keys
      invariant Distinct(langs)
      invariant ArmMap(langs).Keys == trs.Keys - locales
      invariant forall l :: l in ArmMap(langs) ==> ArmMap(langs)[l] == trs[l]
      decreases locales
    {
      var lang :| lang in locales;
      ArmMapSnoc(langs, Arm(lang, trs[lang]));
      langs := langs + [Arm(lang, trs[lang])];
      locales := locales - {lang};
    }
  }

  /**
   * `generate_code`: one rule per key of the table, each holding one arm per
   * locale of that key. The keys and locales are taken in whatever order the
   * hash map yields them, which the arbitrary choices below stand for; the
   * postconditions hold for every such order.
   */
  method GenerateCode(translations: Translations) returns (m: Macro)
    ensures Represents(m, translations)
    ensures forall key, lang :: Expand(m, key, lang) == Expected(translations, key, lang)
  {
    var branches: seq<KeyArm> := [];
    var keys := translations.Keys;
    while keys != {}
      invariant keys <= translations.Keys
      invariant Distinct(branches)
      invariant forall i :: 0 <= i < |branches| ==> Distinct(branches[i].body)
      invariant ArmMap(branches).Keys == translations.Keys - keys
      invariant forall k :: k in ArmMap(branches) ==> ArmMap(ArmMap(branches)[k]) == translations[k]
      decreases keys
    {
      var key :| key in keys;
      var langs := GenerateLangs(translations[key]);
      ArmMapSnoc(branches, Arm(key, langs));
      branches := branches + [Arm(key, langs)];
      keys := keys - {key};
    }
    m := Macro(branches);
    assert Decode(m) == translations;
    forall key, lang ensures Expand(m, key, lang) == Expected(translations, key, lang) {
      DispatchAgrees(m, translations, key, lang);
    }
  }

  /** The table behind the crate's own tests. */
  function TestTable(): Translations
  {
    map[
      "key.test" := map["en" := "This is a test", "fr" := "C'est un test"],
      "err.not_allowed" := map["fr" := "Vous n'êtes pas autorisé à faire cela",
                               "en" := "You are not allowed to do this"]
    ]
  }

  /**
   * The crate's tests and its compile-fail example, against any macro that
   * the generator can emit for that table: the four translations, the panic
   * for Spanish, and the compile error for an unknown key.
   */
  lemma CrateExamples(m: Macro)
    requires Represents(m, TestTable())
    ensures Expand(m, "key.test", "en") == Translated("This is a test")
    ensures Expand(m, "key.test", "fr") == Translated("C'est un test")
    ensures Expand(m, "err.not_allowed", "fr") == Translated("Vous n'êtes pas autorisé à faire cela")
    ensures Expand(m, "err.not_allowed", "en") == Translated("You are not allowed to do this")
    ensures Expand(m, "key.test", "es") == PanicMissingLanguage("es")
    ensures forall lang :: Expand(m, "missing key", lang) == CompileError
  {
    DispatchAgrees(m, TestTable(), "key.test", "en");
    DispatchAgrees(m, TestTable(), "key.test", "fr");
    DispatchAgrees(m, TestTable(), "err.not_allowed", "fr");
    DispatchAgrees(m, TestTable(), "err.not_allowed", "en");
    DispatchAgrees(m, TestTable(), "key.test", "es");
    forall lang ensures Expand(m, "missing key", lang) == CompileError {
      DispatchAgrees(m, TestTable(), "missing key", lang);
    }
  }
}
