/**
 * The runtime mode: a process-wide table `TR`, filled by `load_i18n` calls
 * and read by `t(key, locale)`.
 */
module I18n {
  import opened Wrappers
  import opened Table

  /** What `t` produces: the stored value, or one of its two panics. */
  datatype Resolution =
    | Found(value: Value)
    | MissingKey(key: Key)                          // `panic!("Missing key: {}", key)`
    | MissingLanguage(locale: Locale, key: Key)     // `panic!("Missing language ({}) for key: {}", ...)`

  /**
   * The nested lookup of `t`: the key first, then the locale within that
   * key's map.
   */
  function Lookup(table: Translations, key: Key, locale: Locale): (r: Resolution)
    ensures r.Found? <==> key in table && locale in table[key]
    ensures r.Found? ==> r.value == table[key][locale]
    ensures r.MissingKey? <==> key !in table
    ensures r.MissingKey? ==> r.key == key
    ensures r.MissingLanguage? ==> r.locale == locale && r.key == key
  {
    match Get(table, key)
    case None => MissingKey(key)
    case Some(trs) =>
      match Get(trs, locale)
      case None => MissingLanguage(locale, key)
      case Some(value) => Found(value)
  }

  /** `HashMap::get`. */
  function Get<K, V>(m: map<K, V>, k: K): Option<V>
  {
    if k in m then Some(m[k]) else None
  }

  /** The global `TR`, with the contents loaded into it so far. */
  class Registry {
    var tr: Translations
    ghost var loaded: seq<Translations>

    /** The table is the merge of everything loaded, in order. */
    ghost predicate Valid()
      reads this
    {
      tr == Merged(loaded)
    }

    /** `RwLock::new(HashMap::new())`. */
    constructor ()
      ensures Valid() && loaded == [] && tr == map[]
    {
      tr := map[];
      loaded := [];
    }

    /**
     * `load_i18n`: `content` is the parsed file, `None` when parsing fails;
     * then the call panics before taking the lock and `TR` stays as it was.
     * Otherwise every key of the content replaces its whole locale map in
     * `TR`, and the other keys are left alone.
     */
    method LoadI18n(content: Option<Translations>) returns (parsed: bool)
      requires Valid()
      modifies this
      ensures Valid()
      ensures parsed == content.Some?
      ensures !parsed ==> tr == old(tr) && loaded == old(loaded)
      ensures parsed ==> loaded == old(loaded) + [content.value]
      ensures parsed ==> tr.Keys == old(tr).Keys + content.value.Keys
      ensures parsed ==> forall k :: k in content.value ==> tr[k] == content.value[k]
      ensures forall k :: k in old(tr) && (parsed ==> k !in content.value) ==> tr[k] == old(tr)[k]
    {
      match content
      case None =>
        parsed := false;
      case Some(res) =>
        assert (loaded + [res])[..|loaded|] == loaded;
        tr := Extend(tr, res);
        loaded := loaded + [res];
        parsed := true;
    }

    /** `t(key, locale)`: reads `TR` and never changes it. */
    method T(key: Key, locale: Locale) returns (r: Resolution)
      ensures r == Lookup(tr, key, locale)
    {
      match Get(tr, key)
      case None =>
        r := MissingKey(key);
      case Some(trs) =>
        match Get(trs, locale)
        case None =>
          r := MissingLanguage(locale, key);
        case Some(value) =>
          r := Found(value);
    }
  }

  /**
   * After loading `contents` into a fresh `TR`, a key that no content
   * defines is reported missing, whatever the locale.
   */
  lemma {:induction false} LookupNeverLoaded(contents: seq<Translations>, key: Key, locale: Locale)
    requires forall i :: 0 <= i < |contents| ==> key !in contents[i]
    ensures Lookup(Merged(contents), key, locale) == MissingKey(key)
  {
    MergedKeys(contents, key);
  }

  /**
   * After loading `contents` into a fresh `TR`, a key is answered from the
   * last content that defined it: its value for the locale, or a
   * missing-language error naming both when that content lacks the locale,
   * even if an earlier content had it.
   */
  lemma {:induction false} LookupLastLoad(contents: seq<Translations>, i: int, key: Key, locale: Locale)
    requires LastDefining(contents, i, key)
    ensures Lookup(Merged(contents), key, locale) ==
              if locale in contents[i][key] then Found(contents[i][key][locale])
              else MissingLanguage(locale, key)
  {
    MergedLastWins(contents, i, key);
  }

  /**
   * Loading never makes a successful lookup of a key fail with a missing key:
   * the keys of `TR` only grow.
   */
  lemma LoadKeepsKeys(contents: seq<Translations>, more: seq<Translations>, key: Key, locale: Locale)
    requires !Lookup(Merged(contents), key, locale).MissingKey?
    ensures !Lookup(Merged(contents + more), key, locale).MissingKey?
  {
    MergedGrows(contents, more, key);
  }
}
