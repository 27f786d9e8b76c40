/** The theme toggle (src/components/layout/ThemeToggle.tsx): it resolves
    `system` to the system theme, offers the opposite of the effective
    theme and labels the button with the theme a click switches to. The
    theme state of next-themes is an input. */
module ThemeToggle {
  import opened Wrappers

  const LightLabel: string := "\U{2600}\U{FE0F} Light"
  const DarkLabel: string := "\U{1F319} Dark"

  /** `theme === 'system' ? systemTheme : theme`. */
  function Effective(theme: Option<string>, systemTheme: Option<string>): (r: Option<string>)
    ensures theme == Some("system") ==> r == systemTheme
    ensures theme != Some("system") ==> r == theme
  {
    if theme == Some("system") then systemTheme else theme
  }

  /** `effective === 'dark' ? 'light' : 'dark'`. */
  function Next(effective: Option<string>): (r: string)
    ensures r == "light" <==> effective == Some("dark")
    ensures r == "light" || r == "dark"
  {
    if effective == Some("dark") then "light" else "dark"
  }

  /** The button's text. */
  function Label(effective: Option<string>): (r: string)
    ensures r == LightLabel <==> effective == Some("dark")
    ensures r == LightLabel || r == DarkLabel
  {
    if effective == Some("dark") then LightLabel else DarkLabel
  }

  datatype View = Nothing | Button(text: string, onClick: string)

  /** The component: nothing before mount, else the button whose click
      calls `setTheme(next)`. */
  function Render(mounted: bool, theme: Option<string>, systemTheme: Option<string>): (v: View)
    ensures v.Nothing? <==> !mounted
    ensures v.Button? ==> v.onClick != "system"
  {
    if !mounted then Nothing
    else
      var effective := Effective(theme, systemTheme);
      Button(Label(effective), Next(effective))
  }

  /** A click always changes the effective theme, whatever it was. */
  lemma ClickChangesEffectiveTheme(theme: Option<string>, systemTheme: Option<string>)
    ensures var e := Effective(theme, systemTheme);
            Effective(Some(Next(e)), systemTheme) != e
  {
  }

  /** Two clicks from an explicit `light` or `dark` come back to it. */
  lemma TwoClicksRestore(theme: string, systemTheme: Option<string>)
    requires theme == "light" || theme == "dark"
    ensures var once := Next(Effective(Some(theme), systemTheme));
            Next(Effective(Some(once), systemTheme)) == theme
  {
  }

  /** The label names the theme the click switches to. */
  lemma LabelNamesTheNextTheme(theme: Option<string>, systemTheme: Option<string>)
    ensures var v := Render(true, theme, systemTheme);
            v.Button? && (v.text == LightLabel <==> v.onClick == "light")
  {
  }
}
