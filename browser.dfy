/**
 * The browser state the stores of i18n.ts and theme.ts write: the origin's
 * `localStorage` and the `data-theme` attribute of the document element.
 */
module Browser {
  import opened Wrappers

  /** `localStorage`: a string-to-string map the page writes in place. */
  class LocalStorage {
    var items: map<string, string>

    constructor(initial: map<string, string>)
      ensures items == initial
    {
      items := initial;
    }

    /** `getItem`: the stored string, or `null`. */
    function GetItem(key: string): (v: Option<string>)
      reads this
      ensures v.Some? <==> key in items
      ensures v.Some? ==> v.value == items[key]
    {
      if key in items then Some(items[key]) else None
    }

    /** `setItem`: only `key` changes. */
    method SetItem(key: string, value: string)
      modifies this
      ensures items == old(items)[key := value]
    {
      items := items[key := value];
    }
  }

  /** `document.documentElement`, as far as its `data-theme` attribute goes. */
  class Document {
    var dataTheme: Option<string>

    constructor()
      ensures dataTheme == None
    {
      dataTheme := None;
    }
  }
}
