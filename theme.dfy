/** The theme toggle of js/main.js (`initThemeToggle`): the `light-mode`
    class of the body, flipped by a button and remembered in the browser's
    local storage under the key "theme". Local storage is modelled as a map
    from keys to values. */
module ThemeToggle {

  const ThemeKey := "theme"

  /** The value saved for a theme. */
  function StoredTheme(isLight: bool): (v: string)
    ensures v == "light" || v == "dark"
  {
    if isLight then "light" else "dark"
  }

  /** Whether a saved preference selects the light theme at start-up: only
      the exact value "light" does; a missing key, "dark" or anything else
      leaves the theme alone. */
  function SavedLight(storage: map<string, string>): bool
  {
    ThemeKey in storage && storage[ThemeKey] == "light"
  }

  /** Saving a theme and loading it back gives the same theme, whatever
      else the storage holds. */
  lemma SaveThenLoad(storage: map<string, string>, isLight: bool)
    ensures SavedLight(storage[ThemeKey := StoredTheme(isLight)]) == isLight
  {
  }

  class Theme {
    /** Whether the body carries the `light-mode` class. */
    var lightMode: bool
    /** `localStorage`. */
    var storage: map<string, string>

    /** `initThemeToggle` when the toggle button exists: a saved "light"
        adds `light-mode`; nothing ever removes it at start-up, and the
        storage is only read. */
    constructor (saved: map<string, string>, bodyLight: bool)
      ensures storage == saved
      ensures lightMode == (bodyLight || SavedLight(saved))
    {
      storage := saved;
      lightMode := bodyLight;
      if ThemeKey in saved && saved[ThemeKey] == "light" {
        lightMode := true;
      }
    }

    /** The click handler: flip `light-mode` and save the theme now shown,
        so that the next page load starts in the same theme. */
    method Click()
      modifies this
      ensures lightMode == !old(lightMode)
      ensures storage == old(storage)[ThemeKey := StoredTheme(lightMode)]
      ensures (storage[ThemeKey] == "light") == lightMode && SavedLight(storage) == lightMode
    {
      lightMode := !lightMode;
      var isLight := lightMode;
      storage := storage[ThemeKey := if isLight then "light" else "dark"];
    }
  }
}
