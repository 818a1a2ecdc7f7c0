/**
 * The `t!` macro that build.rs emits, as data with its evaluation.
 *
 * The emitted `macro_rules! t` has one rule per table key,
 * `(key, $lang) => match $lang { lang1 => tr1, ..., e => panic!(...) }`,
 * followed by the catch-all rule `($key, $lang) => compile_error!(...)`.
 * Both levels are tried first to last and the first equal pattern wins.
 */
module Macro {
  import opened Wrappers
  import opened Table

  /** One arm of a `match` or one rule of `macro_rules!`: a literal and what it expands to. */
  datatype Arm<B> = Arm(pattern: string, body: B)

  /** `lang => tr,` inside a key rule. */
  type LangArm = Arm<Value>

  /** `(key, $lang:expr) => { match $lang.as_ref() { ...langs... } }`. */
  type KeyArm = Arm<seq<LangArm>>

  /**
   * The whole emitted macro: the key rules in emission order. The catch-all
   * `compile_error!("Missing translation")` rule always comes after them and
   * is part of `Expand` below.
   */
  datatype Macro = Macro(arms: seq<KeyArm>)

  /** What an invocation `t!(key, lang)` turns into. */
  datatype Expansion =
    | Translated(s: Value)                 // the literal translation
    | PanicMissingLanguage(lang: Locale)   // `panic!("Missing language: {}", e)` at run time
    | CompileError                         // `compile_error!("Missing translation")`

  /** First-match scan: the body of the first arm whose pattern equals `s`. */
  function FirstMatch<B>(arms: seq<Arm<B>>, s: string): Option<B>
  {
    if arms == [] then None
    else if arms[0].pattern == s then Some(arms[0].body)
    else FirstMatch(arms[1..], s)
  }

  /**
   * The finite map a list of arms denotes: each pattern goes to the body of
   * its first arm (an earlier arm shadows a later one with the same pattern).
   */
  function ArmMap<B>(arms: seq<Arm<B>>): (r: map<string, B>)
    ensures forall s :: s in r <==> exists i :: 0 <= i < |arms| && arms[i].pattern == s
  {
    if arms == [] then map[]
    else
      var rest := ArmMap(arms[1..]);
      assert forall i :: 1 <= i < |arms| ==> arms[i] == arms[1..][i - 1];
      rest[arms[0].pattern := arms[0].body]
  }

  /** No two arms share a pattern. */
  ghost predicate Distinct<B>(arms: seq<Arm<B>>)
  {
    forall i, j :: 0 <= i < j < |arms| ==> arms[i].pattern != arms[j].pattern
  }

  /** The table a macro encodes, read back through its arms. */
  function Decode(m: Macro): Translations
  {
    var keys := ArmMap(m.arms);
    map k | k in keys :: ArmMap(keys[k])
  }

  /**
   * The macro is a faithful rendering of `table`: one rule per key, one
   * locale arm per locale of that key, and nothing else.
   */
  ghost predicate Represents(m: Macro, table: Translations)
  {
    && Distinct(m.arms)
    && (forall i :: 0 <= i < |m.arms| ==> Distinct(m.arms[i].body))
    && Decode(m) == table
  }

  /** Expanding `t!(key, lang)` against the emitted rules. */
  function Expand(m: Macro, key: Key, lang: Locale): Expansion
  {
    match FirstMatch(m.arms, key)
    case None => CompileError
    case Some(langs) =>
      match FirstMatch(langs, lang)
      case None => PanicMissingLanguage(lang)
      case Some(tr) => Translated(tr)
  }

  /** Direct lookup in the table, stated with the outcomes of the macro. */
  function Expected(table: Translations, key: Key, lang: Locale): Expansion
  {
    if key !in table then CompileError
    else if lang !in table[key] then PanicMissingLanguage(lang)
    else Translated(table[key][lang])
  }

  /** A first-match scan finds exactly what the denoted map holds. */
  lemma {:induction false} FirstMatchArmMap<B>(arms: seq<Arm<B>>, s: string)
    ensures FirstMatch(arms, s) == if s in ArmMap(arms) then Some(ArmMap(arms)[s]) else None
  {
    if arms != [] && arms[0].pattern != s {
      FirstMatchArmMap(arms[1..], s);
    }
  }

  /** With distinct patterns, every arm is the one its pattern selects. */
  lemma {:induction false} DistinctArmMapAt<B>(arms: seq<Arm<B>>, i: int)
    requires Distinct(arms) && 0 <= i < |arms|
    ensures arms[i].pattern in ArmMap(arms) && ArmMap(arms)[arms[i].pattern] == arms[i].body
  {
    if i > 0 {
      var rest := arms[1..];
      DistinctTail(arms);
      assert rest[i - 1] == arms[i];
      DistinctArmMapAt(rest, i - 1);
    }
  }

  /** Dropping the first arm keeps the patterns distinct. */
  lemma DistinctTail<B>(arms: seq<Arm<B>>)
    requires Distinct(arms) && arms != []
    ensures Distinct(arms[1..])
  {
    var rest := arms[1..];
    forall i, j | 0 <= i < j < |rest| ensures rest[i].pattern != rest[j].pattern {
      assert rest[i] == arms[i + 1] && rest[j] == arms[j + 1];
    }
  }

  /** With distinct patterns, the denoted map has one entry per arm. */
  lemma {:induction false} DistinctArmCount<B>(arms: seq<Arm<B>>)
    requires Distinct(arms)
    ensures |ArmMap(arms)| == |arms|
  {
    if arms != [] {
      var rest := arms[1..];
      DistinctTail(arms);
      DistinctArmCount(rest);
      assert arms[0].pattern !in ArmMap(rest);
      assert ArmMap(arms).Keys == ArmMap(rest).Keys + {arms[0].pattern};
    }
  }

  /** Appending an arm with a new pattern extends the denoted map by one entry. */
  lemma {:induction false} ArmMapSnoc<B>(arms: seq<Arm<B>>, a: Arm<B>)
    requires a.pattern !in ArmMap(arms)
    ensures ArmMap(arms + [a]) == ArmMap(arms)[a.pattern := a.body]
    ensures Distinct(arms) ==> Distinct(arms + [a])
  {
    if arms != [] {
      assert (arms + [a])[1..] == arms[1..] + [a];
      assert a.pattern !in ArmMap(arms[1..]);
      ArmMapSnoc(arms[1..], a);
    } else {
      assert [] + [a] == [a];
    }
  }

  /** Expanding the emitted macro is a lookup in the table it encodes. */
  lemma ExpandDecode(m: Macro, key: Key, lang: Locale)
    ensures Expand(m, key, lang) == Expected(Decode(m), key, lang)
  {
    FirstMatchArmMap(m.arms, key);
    if key in ArmMap(m.arms) {
      FirstMatchArmMap(ArmMap(m.arms)[key], lang);
    }
  }

  /**
   * Central theorem: whatever the order of the rules and of the locale arms,
   * a macro representing `table` expands every invocation to the table's
   * answer — the value when key and locale are present, the missing-language
   * panic when only the key is, and a compile error when the key is absent
   * (the catch-all rule is reached only then).
   */
  lemma DispatchAgrees(m: Macro, table: Translations, key: Key, lang: Locale)
    requires Represents(m, table)
    ensures Expand(m, key, lang) == Expected(table, key, lang)
  {
    ExpandDecode(m, key, lang);
  }

  /** Two macros encoding the same table cannot be told apart by any invocation. */
  lemma OrderIrrelevant(m1: Macro, m2: Macro, key: Key, lang: Locale)
    requires Decode(m1) == Decode(m2)
    ensures Expand(m1, key, lang) == Expand(m2, key, lang)
  {
    ExpandDecode(m1, key, lang);
    ExpandDecode(m2, key, lang);
  }

  /**
   * A macro representing `table` has exactly one rule per key, and each rule
   * has exactly one locale arm per locale of its key.
   */
  lemma ArmCounts(m: Macro, table: Translations)
    requires Represents(m, table)
    ensures |m.arms| == |table|
    ensures forall i :: 0 <= i < |m.arms| ==>
              m.arms[i].pattern in table && |m.arms[i].body| == |table[m.arms[i].pattern]|
  {
    DistinctArmCount(m.arms);
    assert table.Keys == ArmMap(m.arms).Keys;
    forall i | 0 <= i < |m.arms|
      ensures m.arms[i].pattern in table && |m.arms[i].body| == |table[m.arms[i].pattern]|
    {
      DistinctArmMapAt(m.arms, i);
      DistinctArmCount(m.arms[i].body);
    }
  }
}
