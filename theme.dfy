/**
 * theme.ts: the initial theme and the theme store's `set` and `toggle`,
 * which write `localStorage`, the `data-theme` attribute and the store value.
 */
module Theme {
  import opened Wrappers
  import opened Browser

  datatype Theme = Light | Dark

  function Name(t: Theme): string {
    match t
    case Light => "light"
    case Dark => "dark"
  }

  /** `getInitialTheme`: a stored "light" or "dark" when in the browser, "dark" in every other case. */
  function GetInitialTheme(browser: bool, stored: Option<string>): (t: Theme)
    ensures t == Light <==> browser && stored == Some("light")
  {
    if !browser then Dark
    else if stored == Some("light") then Light
    else if stored == Some("dark") then Dark
    else Dark
  }

  /** The theme `toggle` switches to: a missing or empty stored value counts as "dark", and anything else but "dark" toggles to dark. */
  function NextTheme(browser: bool, stored: Option<string>): (t: Theme)
    ensures !browser ==> t == Light
    ensures browser ==> (t == Light <==> stored.None? || stored.value in {"", "dark"})
  {
    var current := if browser then (if stored.Some? && stored.value != "" then stored.value else "dark") else "dark";
    if current == "dark" then Light else Dark
  }

  /** In the browser, toggling twice from a stored "light" or "dark" gives back the stored theme. */
  lemma ToggleTwiceRestores(t: Theme)
    ensures NextTheme(true, Some(Name(NextTheme(true, Some(Name(t)))))) == t
  {
  }

  /** The `theme` store, with the page it runs in. */
  class ThemeStore {
    var value: Theme
    const browser: bool
    const storage: LocalStorage
    const document: Document

    /** `createThemeStore` plus the module's load step, which also sets `data-theme` in the browser. */
    constructor(browser: bool, storage: LocalStorage, document: Document)
      modifies document
      ensures this.browser == browser && this.storage == storage && this.document == document
      ensures value == GetInitialTheme(browser, storage.GetItem("theme"))
      ensures document.dataTheme == if browser then Some(Name(value)) else old(document.dataTheme)
    {
      this.browser := browser;
      this.storage := storage;
      this.document := document;
      value := GetInitialTheme(browser, storage.GetItem("theme"));
      new;
      if browser {
        document.dataTheme := Some(Name(value));
      }
    }

    /** `set`: in the browser the choice is stored and shown; the store value follows in any case. */
    method Set(t: Theme)
      modifies this, storage, document
      ensures value == t
      ensures storage.items == if browser then old(storage.items)["theme" := Name(t)] else old(storage.items)
      ensures document.dataTheme == if browser then Some(Name(t)) else old(document.dataTheme)
    {
      if browser {
        storage.SetItem("theme", Name(t));
        document.dataTheme := Some(Name(t));
      }
      value := t;
    }

    /** `toggle`: the opposite of the stored theme, stored and shown in the browser; "light" outside it. */
    method Toggle()
      modifies this, storage, document
      ensures value == NextTheme(browser, old(storage.GetItem("theme")))
      ensures storage.items == if browser then old(storage.items)["theme" := Name(value)] else old(storage.items)
      ensures document.dataTheme == if browser then Some(Name(value)) else old(document.dataTheme)
    {
      var stored := if browser then storage.GetItem("theme") else None;
      var current := if browser then (if stored.Some? && stored.value != "" then stored.value else "dark") else "dark";
      var next := if current == "dark" then Light else Dark;
      if browser {
        storage.SetItem("theme", Name(next));
        document.dataTheme := Some(Name(next));
      }
      value := next;
    }
  }
}
