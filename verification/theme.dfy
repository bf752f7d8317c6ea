/**
 The light/dark theme: the choice made when the page loads, from the value
 stored under the `theme` key and the system colour-scheme preference, and
 the click handler shared by both theme buttons, which flips the theme and
 stores the new choice.
 */
module Theme {
  import opened JsText

  const LightValue := "light"
  const DarkValue := "dark"

  /** The body's `light` class and the value stored under `theme`
      (None when nothing has been stored). */
  datatype ThemeState = ThemeState(light: bool, stored: Option<string>)

  /** Whether the page starts light. A stored `"light"` always wins; any
      other non-empty stored value (`"dark"` included) means dark whatever
      the system prefers; only when nothing usable is stored does the
      system preference decide. */
  function InitialLight(saved: Option<string>, prefersLight: bool): (light: bool)
    ensures saved == Some(LightValue) ==> light
    ensures !Falsy(saved) && saved != Some(LightValue) ==> !light
    ensures Falsy(saved) ==> (light <==> prefersLight)
  {
    saved == Some(LightValue) || (Falsy(saved) && prefersLight)
  }

  /** The state right after the page has loaded. */
  function Load(saved: Option<string>, prefersLight: bool): (s: ThemeState)
    ensures s.stored == saved
    ensures s.light == InitialLight(saved, prefersLight)
  {
    ThemeState(InitialLight(saved, prefersLight), saved)
  }

  /** A click on either theme button: the theme flips, and the value stored
      is `"light"` exactly when the page is now light, `"dark"` otherwise. */
  function Toggle(s: ThemeState): (t: ThemeState)
    ensures t.light == !s.light
    ensures t.stored == Some(LightValue) <==> t.light
    ensures t.stored == Some(DarkValue) <==> !t.light
  {
    var light := !s.light;
    ThemeState(light, Some(if light then LightValue else DarkValue))
  }

  /** A run of clicks. */
  function Clicks(s: ThemeState, n: nat): ThemeState
    decreases n
  {
    if n == 0 then s else Clicks(Toggle(s), n - 1)
  }

  /** Two clicks restore the original theme. */
  lemma ToggleTwiceRestoresTheme(s: ThemeState)
    ensures Toggle(Toggle(s)).light == s.light
    ensures Toggle(Toggle(s)).stored.Some?
  {
  }

  /** After `n` clicks the theme has flipped exactly when `n` is odd. */
  lemma {:induction false} ClicksParity(s: ThemeState, n: nat)
    ensures Clicks(s, n).light == (if n % 2 == 0 then s.light else !s.light)
    decreases n
  {
    if n > 0 {
      ClicksParity(Toggle(s), n - 1);
    }
  }

  /** What a click stores is what the next page load shows: after at least
      one click, reloading reproduces the current theme whatever the
      system preference is. */
  lemma {:induction false} ReloadKeepsChosenTheme(s: ThemeState, n: nat, prefersLight: bool)
    requires n >= 1
    ensures InitialLight(Clicks(s, n).stored, prefersLight) == Clicks(s, n).light
    decreases n
  {
    if n > 1 {
      ReloadKeepsChosenTheme(Toggle(s), n - 1, prefersLight);
    }
  }
}
