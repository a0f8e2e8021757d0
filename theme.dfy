/**
 * The theme switch: the `data-theme` attribute of the document and the
 * `theme` entry of local storage. The stored entry may hold any text.
 */
module Theme {
  import opened Wrappers

  const Light := "light"
  const Dark := "dark"

  /** The theme applied at load: the stored one, or "light" when nothing (or nothing but "") is stored. */
  function InitialTheme(saved: Option<string>): (t: string)
    ensures t != []
    ensures saved.Some? && saved.value != [] ==> t == saved.value
  {
    if saved.Some? && saved.value != [] then saved.value else Light
  }

  /** The toggle: "light" becomes "dark", anything else becomes "light". */
  function Flip(t: string): (r: string)
    ensures r == Light || r == Dark
    ensures r != t
  {
    if t == Light then Dark else Light
  }

  /** Toggling twice from a light or dark page comes back to it. */
  lemma FlipTwice(t: string)
    requires t == Light || t == Dark
    ensures Flip(Flip(t)) == t
  {
  }

  class ThemeController {
    var applied: string          // `data-theme` on the document element
    var stored: Option<string>   // the `theme` entry of local storage

    /** Page load: apply the stored preference or the default. */
    constructor (saved: Option<string>)
      ensures stored == saved && applied == InitialTheme(saved)
    {
      stored := saved;
      applied := InitialTheme(saved);
    }

    /** A click on the toggle: flip the applied theme and store the new one. */
    method Toggle()
      modifies this
      ensures applied == Flip(old(applied))
      ensures stored == Some(applied)
    {
      var next := Flip(applied);
      applied := next;
      stored := Some(next);
    }
  }

  /** After any click, the stored theme is the applied one, and it is light or dark. */
  method StoredMatchesApplied(saved: Option<string>, clicks: nat) returns (applied: string, stored: Option<string>)
    requires clicks > 0
    ensures stored == Some(applied)
    ensures applied == Light || applied == Dark
  {
    var theme := new ThemeController(saved);
    for i := 0 to clicks
      invariant i > 0 ==> theme.stored == Some(theme.applied) && (theme.applied == Light || theme.applied == Dark)
    {
      theme.Toggle();
    }
    applied, stored := theme.applied, theme.stored;
  }
}
