/**
 * The application's colour themes: the built-in theme table, the list of built-in themes
 * with their ids, the lookup of a theme by id among built-in and custom themes, and the
 * check that a new custom theme name clashes with no existing one.
 */
module AppThemes {
  import opened Wrappers

  /** How a theme's display name is obtained: through a translation key, or as fixed text. */
  datatype ThemeName = Translated(key: string) | Literal(text: string)

  /** The part of the UI library's theme options the model keeps: the main primary and secondary colours. */
  datatype MuiTheme = MuiTheme(primaryMain: string, secondaryMain: string)

  /**
   * A theme object. Built-in theme objects carry no `id`; custom themes are stored without a
   * `getName`, so both fields are optional.
   */
  datatype Theme = Theme(id: Option<string>, isCustom: bool, getName: Option<ThemeName>, muiTheme: MuiTheme)

  function BuiltIn(key: string, primary: string, secondary: string): Theme {
    Theme(None, false, Some(Translated(key)), MuiTheme(primary, secondary))
  }

  const DefaultTheme: Theme := BuiltIn("global.label.default", "#5b74ef", "#efd65b")

  /** The built-in themes, keyed by their ids. */
  const Themes: map<string, Theme> := map[
    "default" := DefaultTheme,
    "lavender" := BuiltIn("settings.appearance.theme.themes.lavender", "#5c58dc", "#d8dc58"),
    "dune" := BuiltIn("settings.appearance.theme.themes.dune", "#897869", "#697a89"),
    "rosegold" := BuiltIn("settings.appearance.theme.themes.rosegold", "#f1a886", "#86cff1"),
    "forest dew" := BuiltIn("settings.appearance.theme.themes.forest_dew", "#53a584", "#a55374"),
    "montain sunset" := BuiltIn("settings.appearance.theme.themes.mountain_sunset", "#c55a77", "#5ac5a8"),
    "crimson" := BuiltIn("settings.appearance.theme.themes.crimson", "#ff0033", "#00ffcc"),
    "minty miracles" := BuiltIn("settings.appearance.theme.themes.minty_miracles", "#9defc3", "#ef9dc9"),
    "orange juice" := BuiltIn("settings.appearance.theme.themes.orange_juice", "#ffb546", "#4690ff")
  ]

  /** The keys of the built-in table in declaration order, which is the order the object's entries are enumerated in. */
  const ThemeKeys: seq<string> :=
    ["default", "lavender", "dune", "rosegold", "forest dew", "montain sunset", "crimson", "minty miracles", "orange juice"]

  /** The declaration order lists every key of the table once. */
  lemma ThemeKeysEnumerateTable()
    ensures forall i, j :: 0 <= i < j < |ThemeKeys| ==> ThemeKeys[i] != ThemeKeys[j]
    ensures forall k :: 0 <= k < |ThemeKeys| ==> ThemeKeys[k] in Themes
    ensures forall key :: key in Themes <==> key in ThemeKeys
  {
  }

  /**
   * Every built-in theme is declared without an id, is not custom, and is named through its
   * translation key; the default theme is the one stored under "default".
   */
  lemma BuiltInThemesDeclared()
    ensures "default" in Themes && Themes["default"] == DefaultTheme
    ensures forall key :: key in Themes ==>
              Themes[key].id.None? && !Themes[key].isCustom && Themes[key].getName.Some? && Themes[key].getName.value.Translated?
  {
    ThemeKeysEnumerateTable();
    forall key | key in Themes
      ensures Themes[key].id.None? && !Themes[key].isCustom && Themes[key].getName.Some? && Themes[key].getName.value.Translated?
    {
      var k :| 0 <= k < |ThemeKeys| && ThemeKeys[k] == key;
    }
  }

  /** appThemes: every built-in theme with its key as id, in declaration order. */
  function AppThemeList(): (r: seq<Theme>)
    ensures |r| == |ThemeKeys|
    ensures forall k :: 0 <= k < |r| ==> r[k] == Themes[ThemeKeys[k]].(id := Some(ThemeKeys[k]))
  {
    seq(|ThemeKeys|, k requires 0 <= k < |ThemeKeys| => Themes[ThemeKeys[k]].(id := Some(ThemeKeys[k])))
  }

  /** appThemes has one entry per built-in key, each carrying that key as its id. */
  lemma AppThemesOnePerKey()
    ensures forall key :: key in Themes <==> exists k :: 0 <= k < |AppThemeList()| && AppThemeList()[k].id == Some(key)
    ensures forall i, j :: 0 <= i < j < |AppThemeList()| ==> AppThemeList()[i].id != AppThemeList()[j].id
    ensures forall k :: 0 <= k < |AppThemeList()| ==> !AppThemeList()[k].isCustom
  {
    ThemeKeysEnumerateTable();
    var list := AppThemeList();
    forall key | key in Themes
      ensures exists k :: 0 <= k < |list| && list[k].id == Some(key)
    {
      var k :| 0 <= k < |ThemeKeys| && ThemeKeys[k] == key;
      assert list[k].id == Some(key);
    }
  }

  /** The theme stored under `id` among built-in and custom themes, custom ones taking precedence. */
  function LookupTheme(id: string, customThemes: map<string, Theme>): (r: Option<Theme>)
    ensures r.Some? <==> id in Themes || id in customThemes
    ensures id in customThemes ==> r == Some(customThemes[id])
    ensures id !in customThemes && id in Themes ==> r == Some(Themes[id])
  {
    var allThemes := Themes + customThemes;
    if id in allThemes then Some(allThemes[id]) else None
  }

  /**
   * getTheme: the theme stored under `id`, or the default theme when there is none, with a
   * `getName` that returns `id` when the theme brings no name of its own.
   */
  function GetTheme(id: string, customThemes: map<string, Theme>): (r: Theme)
    ensures r.getName.Some?
  {
    var theme := LookupTheme(id, customThemes).GetOr(DefaultTheme);
    theme.(getName := Some(theme.getName.GetOr(Literal(id))))
  }

  /** An id that is neither a built-in nor a custom key gets the default theme. */
  lemma GetThemeFallsBackToDefault(id: string, customThemes: map<string, Theme>)
    requires id !in Themes && id !in customThemes
    ensures GetTheme(id, customThemes) == DefaultTheme
  {
  }

  /** A custom theme is returned for its key even when that key names a built-in theme. */
  lemma GetThemeCustomOverrides(id: string, customThemes: map<string, Theme>)
    requires id in customThemes
    ensures var r := GetTheme(id, customThemes);
            r.id == customThemes[id].id && r.isCustom == customThemes[id].isCustom
            && r.muiTheme == customThemes[id].muiTheme
  {
  }

  /** A built-in key without a custom theme of the same key gets the built-in theme as declared. */
  lemma GetThemeBuiltIn(id: string, customThemes: map<string, Theme>)
    requires id in Themes && id !in customThemes
    ensures GetTheme(id, customThemes) == Themes[id]
  {
  }

  /** The display name is the theme's own when it has one, and otherwise the requested id. */
  lemma GetThemeName(id: string, customThemes: map<string, Theme>)
    ensures var found := LookupTheme(id, customThemes);
            GetTheme(id, customThemes).getName ==
              if found.Some? && found.value.getName.Some? then found.value.getName
              else if found.Some? then Some(Literal(id))
              else DefaultTheme.getName
  {
  }

  /** ASCII lower-casing of one character. */
  function LowerChar(c: char): char {
    if 'A' <= c <= 'Z' then (c as int + 32) as char else c
  }

  /** `toLowerCase`, on ASCII letters. */
  function ToLower(s: string): (r: string)
    ensures |r| == |s|
    ensures forall k :: 0 <= k < |s| ==> r[k] == LowerChar(s[k])
  {
    if |s| == 0 then "" else [LowerChar(s[0])] + ToLower(s[1..])
  }

  /** isThemeNameUnique: no built-in or custom key equals `id` when case is ignored. */
  predicate IsThemeNameUnique(id: string, customThemes: map<string, Theme>)
    ensures IsThemeNameUnique(id, customThemes) ==> id !in Themes && id !in customThemes
  {
    forall themeId | themeId in (Themes + customThemes).Keys :: ToLower(themeId) != ToLower(id)
  }

  /** A name is taken exactly when some built-in or custom key equals it ignoring case. */
  lemma ThemeNameTakenIff(id: string, customThemes: map<string, Theme>)
    ensures !IsThemeNameUnique(id, customThemes) <==>
              (exists key :: key in Themes && ToLower(key) == ToLower(id))
              || (exists key :: key in customThemes && ToLower(key) == ToLower(id))
  {
  }

  /** The built-in name "default" is taken in any letter case, for instance "DEFAULT". */
  lemma DefaultNameTaken(customThemes: map<string, Theme>)
    ensures !IsThemeNameUnique("DEFAULT", customThemes)
  {
    assert "default" in (Themes + customThemes).Keys;
    assert ToLower("default") == ToLower("DEFAULT");
  }

  /** Uniqueness depends only on the lower-cased name. */
  lemma ThemeNameUniqueIgnoresCase(id: string, other: string, customThemes: map<string, Theme>)
    requires ToLower(id) == ToLower(other)
    ensures IsThemeNameUnique(id, customThemes) == IsThemeNameUnique(other, customThemes)
  {
  }

  /** Adding a custom theme can only make a name taken, never free it. */
  lemma AddingThemeKeepsNameTaken(id: string, customThemes: map<string, Theme>, key: string, theme: Theme)
    ensures IsThemeNameUnique(id, customThemes[key := theme]) ==> IsThemeNameUnique(id, customThemes)
    ensures IsThemeNameUnique(id, customThemes[key := theme]) <==>
              IsThemeNameUnique(id, customThemes) && ToLower(key) != ToLower(id)
  {
    assert (Themes + customThemes[key := theme]).Keys == (Themes + customThemes).Keys + {key};
  }

  /** A unique name is no key at all, so looking it up gives the default theme. */
  lemma UniqueNameGetsDefaultTheme(id: string, customThemes: map<string, Theme>)
    requires IsThemeNameUnique(id, customThemes)
    ensures GetTheme(id, customThemes) == DefaultTheme
  {
    assert id !in (Themes + customThemes).Keys;
  }
}
