/** The theme state machine and the scroll-animation configuration of `client/js/controllers.js`.

    The page is reduced to what the controllers write: the custom properties set on the root
    element's inline style, the `preferred-theme` entry of local storage, and, for the animation
    controller, one element's class list, data attributes and whether it is observed. Whether the
    system prefers a dark scheme is a parameter. */
module Controllers {
  import opened Wrappers
  import Values

  /** A theme: CSS custom property name to value. */
  type Palette = map<string, string>

  /** The nine custom properties the built-in themes set. */
  const Properties: set<string> := {
    "--primary-color", "--secondary-color", "--background-color", "--text-color", "--border-color",
    "--gradient-start", "--gradient-end", "--card-bg", "--shadow-color"}

  function LightValue(property: string): string {
    if property == "--primary-color" then "#3498db"
    else if property == "--secondary-color" then "#2ecc71"
    else if property == "--background-color" then "#f8f9fa"
    else if property == "--text-color" then "#2c3e50"
    else if property == "--border-color" then "#ddd"
    else if property == "--gradient-start" then "#3498db"
    else if property == "--gradient-end" then "#2ecc71"
    else if property == "--card-bg" then "#ffffff"
    else "rgba(0,0,0,0.1)"
  }

  function DarkValue(property: string): string {
    if property == "--primary-color" then "#3498db"
    else if property == "--secondary-color" then "#2ecc71"
    else if property == "--background-color" then "#1a1a1a"
    else if property == "--text-color" then "#ffffff"
    else if property == "--border-color" then "#333"
    else if property == "--gradient-start" then "#2c3e50"
    else if property == "--gradient-end" then "#3498db"
    else if property == "--card-bg" then "#2c2c2c"
    else "rgba(0,0,0,0.3)"
  }

  const Light: Palette := map k | k in Properties :: LightValue(k)
  const Dark: Palette := map k | k in Properties :: DarkValue(k)

  /** The local-storage key the chosen theme is persisted under. */
  const ThemeKey: string := "preferred-theme"

  /** `Object.entries(undefined)` for a theme name the controller does not know. */
  const UnknownTheme: string := "TypeError: Cannot convert undefined or null to object"

  /** The controller and the page state it writes: the custom palette, `currentTheme`, the root
      element's inline custom properties, and the stored `preferred-theme` (`None` when absent). */
  datatype ThemeState = ThemeState(custom: Palette, current: string, style: map<string, string>, stored: Option<string>)

  /** The names `this.themes[name]` yields an object for: the three themes, and the names the
      plain `themes` object inherits. */
  predicate KnownTheme(name: string) {
    name == "light" || name == "dark" || name == "custom" || name in Values.InheritedNames
  }

  /** `this.themes[name]`. An inherited member (a function, or the prototype for `__proto__`)
      has no own enumerable property, so `Object.entries` sees it as an empty palette. */
  function PaletteOf(st: ThemeState, name: string): (r: Option<Palette>)
    ensures r.Some? <==> KnownTheme(name)
    ensures name in Values.InheritedNames ==> r == Some(map[])
  {
    if name == "light" then Some(Light)
    else if name == "dark" then Some(Dark)
    else if name == "custom" then Some(st.custom)
    else if name in Values.InheritedNames then Some(map[])
    else None
  }

  /** `root.style.setProperty(property, value)` for every entry of a palette: a custom property
      takes any value, and the empty string removes it from the inline style. */
  function SetProperties(style: map<string, string>, colors: Palette): (r: map<string, string>)
    ensures forall k | k in colors && colors[k] != "" :: k in r && r[k] == colors[k]
    ensures forall k | k in colors && colors[k] == "" :: k !in r
    ensures forall k | k !in colors :: (k in r <==> k in style) && (k in style ==> r[k] == style[k])
  {
    map k | k in style.Keys + colors.Keys && (k in colors ==> colors[k] != "") ::
      if k in colors then colors[k] else style[k]
  }

  /** `applyTheme`: every property of the named palette is set on the root element, then the
      name becomes current and is persisted. An unknown name throws before anything changes. */
  function ApplyTheme(st: ThemeState, theme: string): (r: Result<ThemeState, string>)
    ensures r.Success? <==> KnownTheme(theme)
    ensures r.Failure? ==> r.error == UnknownTheme
    ensures r.Success? ==>
              var colors := PaletteOf(st, theme).value;
              && r.value.current == theme && r.value.stored == Some(theme) && r.value.custom == st.custom
              && (forall k | k in colors && colors[k] != "" :: k in r.value.style && r.value.style[k] == colors[k])
              && (forall k | k in colors && colors[k] == "" :: k !in r.value.style)
              && (forall k | k !in colors ::
                    (k in r.value.style <==> k in st.style) && (k in st.style ==> r.value.style[k] == st.style[k]))
  {
    match PaletteOf(st, theme)
    case None => Failure(UnknownTheme)
    case Some(colors) => Success(st.(style := SetProperties(st.style, colors), current := theme, stored := Some(theme)))
  }

  /** The two built-in palettes set the same nine properties, so switching between them leaves
      no property of the other behind. */
  lemma BuiltInPalettesShareProperties()
    ensures Light.Keys == Dark.Keys == Properties
    ensures forall k | k in Properties :: Light[k] != "" && Dark[k] != ""
    ensures Light["--background-color"] != Dark["--background-color"]
  {
  }

  /** `toggleTheme`: light goes to dark, and any other theme (dark or custom) to light. */
  function ToggleTheme(st: ThemeState): (r: ThemeState)
    ensures r.current == (if st.current == "light" then "dark" else "light")
    ensures r.stored == Some(r.current) && r.custom == st.custom
    ensures forall k | k in Properties ::
              k in r.style && r.style[k] == (if r.current == "dark" then DarkValue(k) else LightValue(k))
  {
    BuiltInPalettesShareProperties();
    var next := if st.current == "light" then "dark" else "light";
    ApplyTheme(st, next).value
  }

  /** Toggling twice comes back to a built-in theme; from custom it lands on dark. */
  lemma ToggleTwice(st: ThemeState)
    ensures st.current == "light" || st.current == "dark" ==> ToggleTheme(ToggleTheme(st)).current == st.current
    ensures st.current == "custom" ==> ToggleTheme(ToggleTheme(st)).current == "dark"
    ensures ToggleTheme(ToggleTheme(st)).stored == Some(ToggleTheme(ToggleTheme(st)).current)
  {
  }

  /** Applying the same theme again changes nothing. */
  lemma ApplyThemeIdempotent(st: ThemeState, theme: string)
    requires KnownTheme(theme)
    ensures ApplyTheme(ApplyTheme(st, theme).value, theme) == ApplyTheme(st, theme)
  {
    var colors := PaletteOf(st, theme).value;
    var once := SetProperties(st.style, colors);
    assert SetProperties(once, colors) == once;
  }

  /** `loadTheme`: a saved (non-empty) theme name is applied; otherwise dark is applied when the
      system prefers it; otherwise nothing changes. */
  function LoadTheme(st: ThemeState, prefersDark: bool): (r: Result<ThemeState, string>)
    ensures st.stored.Some? && st.stored.value != "" ==> r == ApplyTheme(st, st.stored.value)
    ensures (st.stored.None? || st.stored.value == "") && prefersDark ==>
              r.Success? && r.value.current == "dark" && r.value.stored == Some("dark")
    ensures (st.stored.None? || st.stored.value == "") && !prefersDark ==> r == Success(st)
  {
    if st.stored.Some? && st.stored.value != "" then ApplyTheme(st, st.stored.value)
    else if prefersDark then ApplyTheme(st, "dark")
    else Success(st)
  }

  /** The constructor: empty custom palette, current theme light, then `loadTheme`. */
  function NewThemeController(style: map<string, string>, stored: Option<string>, prefersDark: bool): (r: Result<ThemeState, string>)
    ensures r.Success? ==> r.value.custom == map[]
    ensures r.Failure? <==> stored.Some? && stored.value != "" && !KnownTheme(stored.value)
  {
    LoadTheme(ThemeState(map[], "light", style, stored), prefersDark)
  }

  /** The three outcomes of loading: the saved theme, the system preference, or light. */
  lemma LoadedTheme(style: map<string, string>, stored: Option<string>, prefersDark: bool)
    ensures var r := NewThemeController(style, stored, prefersDark);
            && (stored.Some? && KnownTheme(stored.value) ==> r.Success? && r.value.current == stored.value)
            && ((stored.None? || stored.value == "") && prefersDark ==> r.Success? && r.value.current == "dark")
            && ((stored.None? || stored.value == "") && !prefersDark ==>
                  r.Success? && r.value.current == "light" && r.value.style == style)
  {
  }

  /** Only the name of a custom theme is persisted: reloading with `custom` saved makes it
      current but sets no property, because the fresh controller's custom palette is empty. */
  lemma ReloadedCustomThemeSetsNothing(style: map<string, string>, prefersDark: bool)
    ensures var r := NewThemeController(style, Some("custom"), prefersDark);
            r.Success? && r.value.current == "custom" && r.value.style == style
  {
    assert SetProperties(style, map[]) == style;
  }

  /** The system colour-scheme listener: follow the new preference. */
  function SystemSchemeChanged(st: ThemeState, matchesDark: bool): (r: ThemeState)
    ensures r.current == (if matchesDark then "dark" else "light")
    ensures r.stored == Some(r.current) && r.custom == st.custom
    ensures forall k | k in Properties ::
              k in r.style && r.style[k] == (if matchesDark then DarkValue(k) else LightValue(k))
    ensures forall k | k !in Properties :: (k in r.style <==> k in st.style) && (k in st.style ==> r.style[k] == st.style[k])
  {
    BuiltInPalettesShareProperties();
    ApplyTheme(st, if matchesDark then "dark" else "light").value
  }

  /** A scheme change that flips the built-in theme does what the toggle does, and a change to
      the scheme already shown changes nothing once that theme is applied. */
  lemma SchemeChangeAgreesWithToggle(st: ThemeState, matchesDark: bool)
    ensures st.current == "light" ==> SystemSchemeChanged(st, true) == ToggleTheme(st)
    ensures st.current == "dark" ==> SystemSchemeChanged(st, false) == ToggleTheme(st)
    ensures SystemSchemeChanged(SystemSchemeChanged(st, matchesDark), matchesDark) == SystemSchemeChanged(st, matchesDark)
  {
    ApplyThemeIdempotent(st, if matchesDark then "dark" else "light");
  }

  /** `createCustomTheme`: the custom palette becomes light overridden property by property with
      `colors`, and is applied. */
  function CreateCustomTheme(st: ThemeState, colors: Palette): (r: ThemeState)
    ensures r.custom.Keys == Light.Keys + colors.Keys
    ensures forall k | k in colors :: r.custom[k] == colors[k]
    ensures forall k | k in Light && k !in colors :: r.custom[k] == Light[k]
    ensures r.current == "custom" && r.stored == Some("custom")
    ensures forall k | k in r.custom && r.custom[k] != "" :: k in r.style && r.style[k] == r.custom[k]
    ensures forall k | k in r.custom && r.custom[k] == "" :: k !in r.style
  {
    var custom := Light + colors;
    ApplyTheme(st.(custom := custom), "custom").value
  }

  /** A custom theme with no overrides looks exactly like light, and one that overrides
      everything light sets replaces it entirely. */
  lemma CustomThemeExtremes(st: ThemeState, colors: Palette)
    ensures CreateCustomTheme(st, map[]).custom == Light
    ensures Light.Keys <= colors.Keys ==> CreateCustomTheme(st, colors).custom == colors
  {
    assert Light + map[] == Light;
  }

  /** An element as the animation controller touches it. */
  datatype Element = Element(classes: set<string>, dataset: map<string, string>, observed: bool)

  /** The defaults of `addScrollAnimation`, each value as its string form. */
  const ScrollDefaults: map<string, string> :=
    map["animation" := "fadeIn", "duration" := "0.5s", "delay" := "0s", "threshold" := "0.1"]

  /** The three configuration entries written to the element's data attributes. */
  const DataKeys: set<string> := {"animation", "duration", "delay"}

  /** `addScrollAnimation`: the options override the defaults; the element gets the
      `animate-on-scroll` class, three data attributes from the merged configuration, and is
      handed to the intersection observer. Option values are given as their string forms. */
  function AddScrollAnimation(el: Element, options: map<string, string>): (r: Element)
    ensures r.classes == el.classes + {"animate-on-scroll"}
    ensures r.observed
    ensures r.dataset.Keys == el.dataset.Keys + DataKeys
    ensures forall k | k in DataKeys :: r.dataset[k] == (if k in options then options[k] else ScrollDefaults[k])
    ensures forall k | k in el.dataset && k !in DataKeys :: r.dataset[k] == el.dataset[k]
  {
    var config := ScrollDefaults + options;
    var data := el.dataset["animation" := config["animation"]]["duration" := config["duration"]]["delay" := config["delay"]];
    Element(el.classes + {"animate-on-scroll"}, data, true)
  }

  /** With no options the defaults are written, and adding the animation twice is the same as
      adding it once. */
  lemma ScrollAnimationDefaultsAndRepeat(el: Element, options: map<string, string>)
    ensures var r := AddScrollAnimation(el, map[]);
            r.dataset["animation"] == "fadeIn" && r.dataset["duration"] == "0.5s" && r.dataset["delay"] == "0s"
    ensures AddScrollAnimation(AddScrollAnimation(el, options), options) == AddScrollAnimation(el, options)
  {
    var once := AddScrollAnimation(el, options);
    var twice := AddScrollAnimation(once, options);
    assert twice.dataset == once.dataset;
  }
}
