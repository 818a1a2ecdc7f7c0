/**
 * The translation table shared by both modes: key -> (locale -> value), all
 * strings, and the merge that builds it from parsed locale files.
 *
 * Both modes merge with `HashMap::extend`, which inserts every entry of the
 * later map and so replaces a key's WHOLE locale map; locales of one key are
 * never combined across files.
 */
module Table {

  type Key = string
  type Locale = string
  type Value = string

  /** The locale map of one key. */
  type LocaleMap = map<Locale, Value>

  /** The aggregate table (`Translations` in build.rs, the map inside `TR`). */
  type Translations = map<Key, LocaleMap>

  /**
   * `table.extend(res)`: every key of `res` now maps to its locale map in
   * `res`; keys that `res` does not mention keep their old locale map.
   */
  function Extend(table: Translations, res: Translations): (r: Translations)
    ensures r.Keys == table.Keys + res.Keys
    ensures forall k :: k in res ==> r[k] == res[k]
    ensures forall k :: k in table && k !in res ==> r[k] == table[k]
  {
    table + res
  }

  /**
   * The table obtained by starting from the empty map and extending it with
   * each parsed file in order (the loop of `read_locales`, and a sequence of
   * `load_i18n` calls on a fresh `TR`).
   */
  function Merged(files: seq<Translations>): Translations
  {
    if files == [] then map[]
    else Extend(Merged(files[..|files| - 1]), files[|files| - 1])
  }

  /** True when no file after position `i` defines `k`. */
  ghost predicate LastDefining(files: seq<Translations>, i: int, k: Key)
  {
    0 <= i < |files| && k in files[i] &&
    forall j :: i < j < |files| ==> k !in files[j]
  }

  /** A key is in the merged table exactly when some file defines it. */
  lemma {:induction false} MergedKeys(files: seq<Translations>, k: Key)
    ensures k in Merged(files) <==> exists i :: 0 <= i < |files| && k in files[i]
  {
    if files != [] {
      var init := files[..|files| - 1];
      MergedKeys(init, k);
      if k in Merged(files) && k !in files[|files| - 1] {
        var i :| 0 <= i < |init| && k in init[i];
        assert files[i] == init[i];
      }
      if exists i :: 0 <= i < |files| && k in files[i] {
        var i :| 0 <= i < |files| && k in files[i];
        if i < |init| {
          assert init[i] == files[i];
        }
      }
    }
  }

  /**
   * The merged locale map of a key is exactly the one from the last file
   * defining it: earlier files' locales for that key are discarded.
   */
  lemma {:induction false} MergedLastWins(files: seq<Translations>, i: int, k: Key)
    requires LastDefining(files, i, k)
    ensures k in Merged(files) && Merged(files)[k] == files[i][k]
  {
    var init := files[..|files| - 1];
    if i < |files| - 1 {
      assert LastDefining(init, i, k) by {
        forall j | i < j < |init| ensures k !in init[j] {
          assert init[j] == files[j];
        }
      }
      MergedLastWins(init, i, k);
    }
  }

  /**
   * Merging more files never removes a key, and a key that none of the later
   * files mentions keeps its locale map.
   */
  lemma {:induction false} MergedGrows(files: seq<Translations>, more: seq<Translations>, k: Key)
    requires k in Merged(files)
    ensures k in Merged(files + more)
    ensures (forall j :: 0 <= j < |more| ==> k !in more[j]) ==>
              Merged(files + more)[k] == Merged(files)[k]
  {
    if more != [] {
      var init := more[..|more| - 1];
      assert (files + more)[..|files + more| - 1] == files + init;
      assert (files + more)[|files + more| - 1] == more[|more| - 1];
      MergedGrows(files, init, k);
    } else {
      assert files + more == files;
    }
  }

  /**
   * Locales are not combined: a key defined by two files with disjoint
   * locales ends up with the later file's locales only.
   */
  lemma SecondFileReplacesLocales()
    ensures var first := map["greet" := map["en" := "Hi"]];
            var second := map["greet" := map["fr" := "Salut"]];
            var merged := Merged([first, second]);
            "greet" in merged && merged["greet"] == map["fr" := "Salut"] &&
            "en" !in merged["greet"]
  {
  }
}
