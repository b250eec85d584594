/** The dark/light theme switch of every page (js/theme.js): the state is the root element's
    `data-theme` attribute and the `blog-theme` storage key; it changes at load time, when the
    toggle button is clicked, and when the system colour scheme changes while no theme is
    stored. Each change is also posted to the Giscus comment frame when the page has one. */
module Theme {
  import opened Collections

  /** The storage key the chosen theme is kept under. */
  const ThemeKey := "blog-theme"

  /** `localStorage.getItem(THEME_KEY)` is truthy: a theme is stored and is not empty. */
  predicate Pinned(storage: map<string, string>) {
    ThemeKey in storage && storage[ThemeKey] != ""
  }

  /** `getPreferredTheme`: the stored theme when it is truthy, else `dark` when the system
      prefers a dark scheme (`systemDark` is false when `matchMedia` is missing), else `light`. */
  function PreferredTheme(storage: map<string, string>, systemDark: bool): (r: string)
    ensures r != ""
    ensures Pinned(storage) ==> r == storage[ThemeKey]
    ensures !Pinned(storage) ==> (r == "dark" <==> systemDark) && (r == "dark" || r == "light")
  {
    if Pinned(storage) then storage[ThemeKey]
    else if systemDark then "dark"
    else "light"
  }

  /** Storing the preferred theme pins it, so the system scheme is not consulted again. */
  lemma PreferredPins(storage: map<string, string>, systemDark: bool)
    ensures Pinned(storage[ThemeKey := PreferredTheme(storage, systemDark)])
    ensures PreferredTheme(storage[ThemeKey := PreferredTheme(storage, systemDark)], !systemDark)
      == PreferredTheme(storage, systemDark)
  {
    var t := PreferredTheme(storage, systemDark);
    assert storage[ThemeKey := t][ThemeKey] == t;
  }

  /** The theme `toggleTheme` switches to from the current attribute: `light` after `dark`,
      `dark` after anything else, including no attribute at all. */
  function Toggled(current: Option<string>): (r: string)
    ensures r == "light" <==> current == Some("dark")
    ensures r == "dark" || r == "light"
  {
    if current == Some("dark") then "light" else "dark"
  }

  /** Toggling twice from `dark` or `light` comes back to it; from anything else, it ends on
      `light`. */
  lemma ToggleTwice(current: Option<string>)
    ensures current == Some("dark") || current == Some("light") ==>
      Toggled(Some(Toggled(current))) == current.value
    ensures !(current == Some("dark") || current == Some("light")) ==>
      Toggled(Some(Toggled(current))) == "light"
  {
    var once := Toggled(current);
    if current == Some("dark") {
      assert once == "light";
    } else {
      assert once == "dark";
    }
  }

  /** `updateGiscusTheme`'s choice: Giscus knows only `dark` and `light`. */
  function GiscusTheme(theme: string): (r: string)
    ensures r == "dark" <==> theme == "dark"
    ensures r == "dark" || r == "light"
  {
    if theme == "dark" then "dark" else "light"
  }

  /** The theme the system-change listener applies for `e.matches`. */
  function SchemeTheme(matches: bool): (r: string)
    ensures r == "dark" <==> matches
    ensures r == "dark" || r == "light"
  {
    if matches then "dark" else "light"
  }

  /** One page with the theme script loaded. */
  class ThemePage {
    /** The root element's `data-theme` attribute; `None` before it is first set. */
    var theme: Option<string>
    /** The page's `localStorage`. */
    var storage: map<string, string>
    /** The themes posted to the Giscus frame, oldest first. */
    var messages: seq<string>
    /** Whether `iframe.giscus-frame` is on the page. */
    const hasGiscusFrame: bool

    /** The load-time `applyTheme(getPreferredTheme())`. */
    constructor Load(storage0: map<string, string>, systemDark: bool, hasGiscusFrame: bool)
      ensures this.hasGiscusFrame == hasGiscusFrame
      ensures theme == Some(PreferredTheme(storage0, systemDark))
      ensures storage == storage0[ThemeKey := PreferredTheme(storage0, systemDark)]
      ensures messages == if hasGiscusFrame then [GiscusTheme(PreferredTheme(storage0, systemDark))] else []
      ensures Pinned(storage)
    {
      this.hasGiscusFrame := hasGiscusFrame;
      theme := None;
      storage := storage0;
      messages := [];
      new;
      PreferredPins(storage0, systemDark);
      ApplyTheme(PreferredTheme(storage0, systemDark));
    }

    /** `applyTheme(theme)`: sets the attribute and the stored key to `t` and, when the frame
        exists, posts the Giscus theme for `t`. */
    method ApplyTheme(t: string)
      modifies this
      ensures theme == Some(t) && storage == old(storage)[ThemeKey := t]
      ensures messages == old(messages) + (if hasGiscusFrame then [GiscusTheme(t)] else [])
      ensures t != "" ==> Pinned(storage)
    {
      theme := Some(t);
      storage := storage[ThemeKey := t];
      if hasGiscusFrame {
        messages := messages + [GiscusTheme(t)];
      }
    }

    /** `toggleTheme`: applies the opposite of the current attribute, and so pins it. */
    method Toggle()
      modifies this
      ensures theme == Some(Toggled(old(theme)))
      ensures storage == old(storage)[ThemeKey := Toggled(old(theme))]
      ensures messages == old(messages) + (if hasGiscusFrame then [GiscusTheme(Toggled(old(theme)))] else [])
      ensures Pinned(storage)
    {
      var next := Toggled(theme);
      ApplyTheme(next);
    }

    /** The `change` listener of the dark-scheme media query: it follows the system only while
        no theme is stored; a stored theme leaves the whole state as it was. */
    method SystemChange(matches: bool)
      modifies this
      ensures Pinned(old(storage)) ==>
        theme == old(theme) && storage == old(storage) && messages == old(messages)
      ensures !Pinned(old(storage)) ==>
        theme == Some(SchemeTheme(matches)) &&
        storage == old(storage)[ThemeKey := SchemeTheme(matches)] &&
        messages == old(messages) + (if hasGiscusFrame then [GiscusTheme(SchemeTheme(matches))] else [])
      ensures Pinned(storage)
    {
      if !Pinned(storage) {
        ApplyTheme(SchemeTheme(matches));
      }
    }
  }
}
