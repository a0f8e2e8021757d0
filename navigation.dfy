/**
 * The mobile navigation menu: one open/closed state, held by the `is-open`
 * class of the navigation list and mirrored into the hamburger's class and
 * ARIA attributes, the body's `menu-open` class and the backdrop.
 */
module Navigation {

  const Breakpoint := 920

  /** The page events the menu listens to. */
  datatype MenuEvent =
    | HamburgerClick
    | NavClick(onLink: bool)        // a click inside the list; `onLink` when it lies within an `<a>`
    | KeyDown(key: string)
    | BackdropClick
    | Resize(width: int)            // `window.innerWidth` after the resize
    | AnchorClick(targetFound: bool) // an in-page `#` link of the list; `targetFound` when its id exists

  /** The events that close the menu from any state. */
  predicate Closes(e: MenuEvent) {
    || (e.NavClick? && e.onLink)
    || (e.KeyDown? && e.key == "Escape")
    || e.BackdropClick?
    || (e.Resize? && e.width > Breakpoint)
    || (e.AnchorClick? && e.targetFound)
  }

  /** The transition table: the open state after an event. */
  function Step(open: bool, e: MenuEvent): (r: bool)
    ensures r ==> open || e == HamburgerClick
    ensures Closes(e) ==> !r
  {
    if e.HamburgerClick? then !open
    else if Closes(e) then false
    else open
  }

  /** The open state after a sequence of events. */
  function Run(open: bool, events: seq<MenuEvent>): bool {
    if events == [] then open else Step(Run(open, events[..|events| - 1]), events[|events| - 1])
  }

  /** A closed menu only ever opens through the hamburger. */
  lemma {:induction false} OnlyHamburgerOpens(events: seq<MenuEvent>)
    requires Run(false, events)
    ensures exists k :: 0 <= k < |events| && events[k] == HamburgerClick
  {
    var init := events[..|events| - 1];
    if events[|events| - 1] != HamburgerClick {
      OnlyHamburgerOpens(init);
      var k :| 0 <= k < |init| && init[k] == HamburgerClick;
      assert events[k] == init[k];
    }
  }

  /** After a closing event, the menu stays closed until the next hamburger click. */
  lemma {:induction false} ClosedUntilHamburger(open: bool, events: seq<MenuEvent>, k: nat)
    requires k < |events| && Closes(events[k])
    requires forall m :: k < m < |events| ==> events[m] != HamburgerClick
    ensures !Run(open, events)
  {
    if k < |events| - 1 {
      var init := events[..|events| - 1];
      assert init[k] == events[k];
      assert forall m :: k < m < |init| ==> init[m] == events[m];
      ClosedUntilHamburger(open, init, k);
    }
  }

  /**
   * A click on an in-page link of the list reaches the link's own listener
   * and then, bubbling, the list's: the menu ends closed whether or not the
   * link's target exists.
   */
  lemma MenuLinkClickCloses(open: bool, targetFound: bool)
    ensures !Run(open, [AnchorClick(targetFound), NavClick(true)])
  {
  }

  /** Two hamburger clicks in a row leave the menu as it was. */
  lemma ToggleTwice(open: bool)
    ensures Step(Step(open, HamburgerClick), HamburgerClick) == open
  {
  }

  class Menu {
    const hasBackdrop: bool
    var navOpen: bool           // `is-open` on the navigation list: the state itself
    var hamburgerOpen: bool     // `is-open` on the hamburger
    var bodyMenuOpen: bool      // `menu-open` on the body
    var ariaExpanded: string
    var ariaLabel: string
    var backdropOpen: bool      // `is-open` on the backdrop
    var backdropHidden: bool

    /** Every mirror of the state agrees with the navigation list's class. */
    ghost predicate Valid()
      reads this
    {
      && hamburgerOpen == navOpen
      && bodyMenuOpen == navOpen
      && ariaExpanded == (if navOpen then "true" else "false")
      && ariaLabel == (if navOpen then "Close menu" else "Open menu")
      && (hasBackdrop ==> backdropOpen == navOpen && backdropHidden == !navOpen)
    }

    /** The menu as the page's markup starts it: closed, its backdrop hidden. */
    constructor (hasBackdrop: bool)
      ensures Valid() && !navOpen && this.hasBackdrop == hasBackdrop
    {
      this.hasBackdrop := hasBackdrop;
      navOpen, hamburgerOpen, bodyMenuOpen := false, false, false;
      ariaExpanded, ariaLabel := "false", "Open menu";
      backdropOpen, backdropHidden := false, true;
    }

    /** `openMenu`. */
    method Open()
      modifies this
      ensures Valid() && navOpen
      ensures ariaExpanded == "true" && ariaLabel == "Close menu"
      ensures !hasBackdrop ==> backdropOpen == old(backdropOpen) && backdropHidden == old(backdropHidden)
    {
      navOpen := true;
      hamburgerOpen := true;
      bodyMenuOpen := true;
      ariaExpanded := "true";
      ariaLabel := "Close menu";
      if hasBackdrop {
        backdropHidden := false;
        backdropOpen := true;
      }
    }

    /** `closeMenu`: closed from any state, whatever the attributes said before. */
    method Close()
      modifies this
      ensures Valid() && !navOpen
      ensures ariaExpanded == "false" && ariaLabel == "Open menu"
      ensures !hasBackdrop ==> backdropOpen == old(backdropOpen) && backdropHidden == old(backdropHidden)
    {
      navOpen := false;
      hamburgerOpen := false;
      bodyMenuOpen := false;
      ariaExpanded := "false";
      ariaLabel := "Open menu";
      if hasBackdrop {
        backdropOpen := false;
        backdropHidden := true;
      }
    }

    /** `toggleMenu`: the list's class decides which way to go. */
    method Toggle()
      requires Valid()
      modifies this
      ensures Valid() && navOpen == !old(navOpen)
    {
      if navOpen {
        Close();
      } else {
        Open();
      }
    }

    /**
     * The listeners: each event moves the menu as the transition table says,
     * and every mirror follows. A backdrop click can only come from a backdrop.
     */
    method Handle(e: MenuEvent)
      requires Valid()
      requires e.BackdropClick? ==> hasBackdrop
      modifies this
      ensures Valid()
      ensures navOpen == Step(old(navOpen), e)
      ensures ariaExpanded == "true" <==> navOpen
      ensures ariaLabel == "Close menu" <==> navOpen
    {
      match e
      case HamburgerClick =>
        Toggle();
      case NavClick(onLink) =>
        if onLink {
          Close();
        }
      case KeyDown(key) =>
        if key == "Escape" && navOpen {
          Close();
        }
      case BackdropClick =>
        Close();
      case Resize(width) =>
        if width > Breakpoint && navOpen {
          Close();
        }
      case AnchorClick(targetFound) =>
        if targetFound {
          Close();
        }
    }
  }

  /** Escape leaves the menu closed after any run of events, and a further close keeps it closed. */
  method EscapeThenCloseStaysClosed(hasBackdrop: bool, events: seq<MenuEvent>) returns (open: bool, again: bool)
    requires !hasBackdrop ==> forall k :: 0 <= k < |events| ==> !events[k].BackdropClick?
    ensures !open && !again
    ensures open == Run(false, events + [KeyDown("Escape")])
  {
    var menu := new Menu(hasBackdrop);
    for i := 0 to |events|
      invariant menu.Valid() && menu.hasBackdrop == hasBackdrop
      invariant menu.navOpen == Run(false, events[..i])
    {
      menu.Handle(events[i]);
      assert events[..i + 1][..i] == events[..i];
    }
    assert events[..|events|] == events;
    menu.Handle(KeyDown("Escape"));
    assert (events + [KeyDown("Escape")])[..|events|] == events;
    open := menu.navOpen;
    menu.Close();
    again := menu.navOpen;
  }
}
