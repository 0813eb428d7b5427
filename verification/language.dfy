/**
 * The translation context (`LanguageContext.tsx`): the current locale, its
 * persistence, the fallback to English when a locale's file cannot be
 * loaded, and the lookup with `{{name}}` placeholders.
 */
module Language {
  import opened Wrappers
  import opened Strings

  const English := "en"

  /**
   * The provider's state: the current locale, what local storage holds
   * under `locale`, and the translations loaded last.
   */
  datatype LanguageState = LanguageState(locale: string, stored: Option<string>, translations: map<string, string>)

  /** The first render: the stored locale unless absent or empty, else English; nothing loaded yet. */
  function Initial(stored: Option<string>): (st: LanguageState)
    ensures st.stored == stored && st.translations == map[]
    ensures st.locale == English <==> stored.None? || stored.value == "" || stored.value == English
    ensures st.locale != English ==> st.locale == stored.value
  {
    LanguageState(if stored.Some? && stored.value != "" then stored.value else English, stored, map[])
  }

  /** `setLocale`: the new locale is stored and becomes current. */
  function SetLocale(st: LanguageState, newLocale: string): (r: LanguageState)
    ensures r.locale == newLocale && r.stored == Some(newLocale) && r.translations == st.translations
  {
    st.(locale := newLocale, stored := Some(newLocale))
  }

  /** What fetching `/locales/<locale>.json` gave. */
  datatype Load = Loaded(data: map<string, string>) | LoadFailed

  /**
   * The end of the translation effect: loaded data replaces the
   * translations; a failure for a locale other than English switches to
   * English (which loads in turn) and keeps the old translations.
   */
  function LoadFinished(st: LanguageState, load: Load): (r: LanguageState)
    ensures r.stored == st.stored
    ensures load.Loaded? ==> r == st.(translations := load.data)
    ensures load.LoadFailed? ==> r.locale == English && r.translations == st.translations
  {
    match load
    case Loaded(data) => st.(translations := data)
    case LoadFailed => if st.locale != English then st.(locale := English) else st
  }

  /**
   * Falling back happens once: a second failure changes nothing. The stored
   * choice is kept, so the next start tries that locale again.
   */
  lemma FallbackSettles(st: LanguageState, newLocale: string)
    requires newLocale != ""
    ensures var failed := LoadFinished(SetLocale(st, newLocale), LoadFailed);
      LoadFinished(failed, LoadFailed) == failed && Initial(failed.stored).locale == newLocale
  {
  }

  /** The placeholder a replacement key fills. */
  function Placeholder(key: string): string {
    "{{" + key + "}}"
  }

  /** The translation of a key, or the key itself when there is none or it is empty. */
  function Lookup(translations: map<string, string>, key: string): (r: string)
    ensures key in translations && translations[key] != "" ==> r == translations[key]
    ensures key !in translations || translations[key] == "" ==> r == key
  {
    if key in translations && translations[key] != "" then translations[key] else key
  }

  /** The replacements applied in order, each to the first occurrence of its placeholder. */
  function Fill(text: string, replacements: seq<(string, string)>): string
    decreases |replacements|
  {
    if |replacements| == 0 then text
    else Fill(ReplaceFirst(text, Placeholder(replacements[0].0), replacements[0].1), replacements[1..])
  }

  /**
   * `t`: the looked-up text with each replacement key's placeholder filled,
   * key by key; without replacements the lookup is returned as it is.
   */
  function Translate(translations: map<string, string>, key: string, replacements: Option<seq<(string, string)>>): (r: string)
    ensures replacements.None? || |replacements.value| == 0 ==> r == Lookup(translations, key)
    ensures key !in translations && (replacements.None? || |replacements.value| == 0) ==> r == key
  {
    if replacements.Some? then Fill(Lookup(translations, key), replacements.value) else Lookup(translations, key)
  }

  /** A text holding none of the placeholders comes back unchanged. */
  lemma {:induction false} FillWithoutPlaceholders(text: string, replacements: seq<(string, string)>)
    requires forall i :: 0 <= i < |replacements| ==> !Contains(text, Placeholder(replacements[i].0))
    ensures Fill(text, replacements) == text
    decreases |replacements|
  {
    if |replacements| > 0 {
      assert ReplaceFirst(text, Placeholder(replacements[0].0), replacements[0].1) == text;
      FillWithoutPlaceholders(text, replacements[1..]);
    }
  }

  /**
   * One replacement fills only the first occurrence of its placeholder:
   * everything after it, later occurrences included, is kept verbatim.
   */
  lemma FillsFirstOnly(before: string, after: string, key: string, value: string)
    requires IndexOf(before + Placeholder(key) + after, Placeholder(key)) == Some(|before|)
    ensures Fill(before + Placeholder(key) + after, [(key, value)]) == before + value + after
  {
    var p := Placeholder(key);
    var s := before + p + after;
    assert s[..|before|] == before;
    assert s[|before| + |p|..] == after;
    assert [(key, value)][1..] == [];
  }
}
