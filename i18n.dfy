/**
 * i18n.ts: the translation lookup `t` with its English fallback, the
 * browser-language detection, and the language store.
 */
module I18n {
  import opened Wrappers
  import opened Text
  import opened Browser

  datatype Language = En | Ru

  function Code(l: Language): string {
    match l
    case En => "en"
    case Ru => "ru"
  }

  /** The two tables of `translations`; their contents are left abstract. */
  datatype Translations = Translations(en: map<string, string>, ru: map<string, string>)

  function Table(tr: Translations, lang: Language): map<string, string> {
    match lang
    case En => tr.en
    case Ru => tr.ru
  }

  /** `table[key]`, with a missing entry read as the falsy `undefined`. */
  function Entry(table: map<string, string>, key: string): string {
    if key in table then table[key] else ""
  }

  /** `t(key, lang)`: the entry in `lang`, else the English one, else the key itself. */
  function T(tr: Translations, key: string, lang: Language := En): (r: string)
    ensures Entry(Table(tr, lang), key) != "" ==> r == Table(tr, lang)[key]
    ensures Entry(Table(tr, lang), key) == "" && Entry(tr.en, key) != "" ==> r == tr.en[key]
    ensures Entry(Table(tr, lang), key) == "" && Entry(tr.en, key) == "" ==> r == key
  {
    var primary := Entry(Table(tr, lang), key);
    if primary != "" then primary
    else
      var english := Entry(tr.en, key);
      if english != "" then english else key
  }

  /** `t` never renders an empty label for a non-empty key. */
  lemma TNeverEmpty(tr: Translations, key: string, lang: Language)
    requires key != ""
    ensures T(tr, key, lang) != ""
  {
  }

  /** A Russian entry that is missing or empty shows the English text, exactly as `t` in English would. */
  lemma RussianFallsBackToEnglish(tr: Translations, key: string)
    requires Entry(tr.ru, key) == ""
    ensures T(tr, key, Ru) == T(tr, key)
  {
  }

  /** A key absent from both tables is shown as itself. */
  lemma UnknownKeyShownAsIs(tr: Translations, key: string, lang: Language)
    requires key !in tr.en && key !in tr.ru
    ensures T(tr, key, lang) == key
  {
  }

  /** `detectBrowserLanguage`; `navigatorLanguage` is `None` where `navigator` is undefined. */
  function DetectBrowserLanguage(navigatorLanguage: Option<string>): (l: Language)
    ensures navigatorLanguage.None? ==> l == En
    ensures navigatorLanguage.Some? ==> var s := navigatorLanguage.value;
      (l == Ru <==> |s| >= 2 && (s[0] == 'r' || s[0] == 'R') && (s[1] == 'u' || s[1] == 'U'))
  {
    match navigatorLanguage
    case None => En
    case Some(s) =>
      var lang := ToLowerAscii(s);
      LowerStartsWithRu(s);
      if StartsWith(lang, "ru") then Ru else En
  }

  lemma LowerStartsWithRu(s: string)
    ensures StartsWith(ToLowerAscii(s), "ru") <==> |s| >= 2 && (s[0] == 'r' || s[0] == 'R') && (s[1] == 'u' || s[1] == 'U')
  {
    var lang := ToLowerAscii(s);
    if |s| >= 2 {
      assert lang[..2] == [LowerChar(s[0]), LowerChar(s[1])];
    }
  }

  /** The store's first value: a non-empty stored `language` as it is, unchecked, else the detected language. */
  function InitialLanguage(stored: Option<string>, navigatorLanguage: Option<string>): (v: string)
    ensures stored.Some? && stored.value != "" ==> v == stored.value
    ensures (stored.None? || stored.value == "") ==> v == Code(DetectBrowserLanguage(navigatorLanguage))
  {
    if stored.Some? && stored.value != "" then stored.value
    else Code(DetectBrowserLanguage(navigatorLanguage))
  }

  /** Whatever is stored, the language store starts at "en" or "ru" unless a non-empty value was stored. */
  lemma InitialLanguageKnown(stored: Option<string>, navigatorLanguage: Option<string>)
    requires stored.None? || stored.value in {"", "en", "ru"}
    ensures InitialLanguage(stored, navigatorLanguage) in {"en", "ru"}
  {
  }

  /** The `language` store; `storage` is `None` where `localStorage` is undefined. */
  class LanguageStore {
    var value: string
    const storage: Option<LocalStorage>

    constructor(storage: Option<LocalStorage>, navigatorLanguage: Option<string>)
      ensures this.storage == storage
      ensures value == InitialLanguage(if storage.Some? then storage.value.GetItem("language") else None, navigatorLanguage)
    {
      this.storage := storage;
      var stored := if storage.Some? then storage.value.GetItem("language") else None;
      value := InitialLanguage(stored, navigatorLanguage);
    }

    /** `set`: writes `language` to the storage when there is one, then the store value. */
    method Set(lang: Language)
      modifies this, if storage.Some? then {storage.value} else {}
      ensures value == Code(lang)
      ensures storage.Some? ==> storage.value.items == old(storage.value.items)["language" := Code(lang)]
    {
      if storage.Some? {
        storage.value.SetItem("language", Code(lang));
      }
      value := Code(lang);
    }
  }

  /** What `set` stores, a later page load reads back as the initial language. */
  lemma SetSurvivesReload(items: map<string, string>, lang: Language, navigatorLanguage: Option<string>)
    ensures var stored := items["language" := Code(lang)];
      InitialLanguage(Some(stored["language"]), navigatorLanguage) == Code(lang)
  {
  }
}
