/**
 * The mobile navigation menu: the `active` class on the toggle button
 * (`#menuToggle`), the navigation panel (`#navMenu`) and the overlay
 * (`#menuOverlay`), and the body's `overflow` style, which locks page
 * scrolling while the panel is open.
 */
module MobileMenu {

  /** The viewport width above which the menu is closed on resize. */
  const Breakpoint: int := 768

  /** The part of the page the menu handlers touch. */
  datatype MenuState = MenuState(
    toggleActive: bool,
    panelActive: bool,
    overlayActive: bool,
    bodyOverflow: string)

  /** The page as it loads: nothing active, no overflow style. */
  const Closed: MenuState := MenuState(false, false, false, "")

  /** The events the menu reacts to. `ResizeSettled` is the debounced resize
      callback, run with the viewport width of that moment. */
  datatype MenuEvent =
    | ToggleClick
    | OverlayClick
    | LinkClick
    | ResizeSettled(innerWidth: int)
    | KeyDown(key: string)

  /** The three flags agree and the scroll lock is on exactly when the panel
      is open. */
  predicate Synced(s: MenuState)
  {
    s.toggleActive == s.panelActive == s.overlayActive &&
    s.bodyOverflow == (if s.panelActive then "hidden" else "")
  }

  /** The toggle's click handler: each flag flips on its own, then the
      overflow follows the panel. */
  function Toggled(s: MenuState): (r: MenuState)
    ensures r.toggleActive == !s.toggleActive
    ensures r.panelActive == !s.panelActive
    ensures r.overlayActive == !s.overlayActive
    ensures Synced(s) ==> Synced(r)
    ensures r.bodyOverflow == (if r.panelActive then "hidden" else "")
  {
    MenuState(!s.toggleActive, !s.panelActive, !s.overlayActive,
              if !s.panelActive then "hidden" else "")
  }

  /** `closeMenu`: whatever the state, everything is cleared. */
  function CloseMenu(s: MenuState): (r: MenuState)
    ensures Synced(r) && !r.panelActive
    ensures r == Closed
  {
    s.(toggleActive := false, panelActive := false, overlayActive := false, bodyOverflow := "")
  }

  /** The menu's response to one event. */
  function React(s: MenuState, e: MenuEvent): (r: MenuState)
    ensures e.ToggleClick? ==> r == Toggled(s)
    ensures !e.ToggleClick? ==> r == s || r == Closed
    ensures (e.OverlayClick? || e.LinkClick?) ==> r == Closed
  {
    match e
    case ToggleClick => Toggled(s)
    case OverlayClick => CloseMenu(s)
    case LinkClick => CloseMenu(s)
    case ResizeSettled(w) => if w > Breakpoint then CloseMenu(s) else s
    case KeyDown(k) => if k == "Escape" && s.panelActive then CloseMenu(s) else s
  }

  /** The menu after a run of events. */
  function Replay(s: MenuState, es: seq<MenuEvent>): MenuState
    decreases |es|
  {
    if es == [] then s else Replay(React(s, es[0]), es[1..])
  }

  /** Every handler keeps the three flags and the scroll lock in step. */
  lemma ReactKeepsSynced(s: MenuState, e: MenuEvent)
    requires Synced(s)
    ensures Synced(React(s, e))
  {
  }

  /** From the page as it loads, whatever the user does, the toggle, panel
      and overlay are active together and the body is locked exactly while
      they are. */
  lemma {:induction false} ReplayKeepsSynced(s: MenuState, es: seq<MenuEvent>)
    requires Synced(s)
    ensures Synced(Replay(s, es))
    decreases |es|
  {
    if es != [] {
      ReactKeepsSynced(s, es[0]);
      ReplayKeepsSynced(React(s, es[0]), es[1..]);
    }
  }

  /** Two clicks on the toggle give back a state whose overflow follows its
      panel. */
  lemma ToggleTwiceRestores(s: MenuState)
    requires s.bodyOverflow == (if s.panelActive then "hidden" else "")
    ensures Toggled(Toggled(s)) == s
  {
  }

  /** `closeMenu` is idempotent. */
  lemma CloseIsIdempotent(s: MenuState)
    ensures CloseMenu(CloseMenu(s)) == CloseMenu(s)
  {
  }

  /** Escape closes the menu only when the panel is open; any other key
      changes nothing. */
  lemma EscapeClosesOnlyAnOpenMenu(s: MenuState, key: string)
    ensures React(s, KeyDown("Escape")) == if s.panelActive then Closed else s
    ensures key != "Escape" ==> React(s, KeyDown(key)) == s
  {
  }

  /** A settled resize wider than the breakpoint always closes the menu; a
      narrower one never changes anything. */
  lemma WideResizeCloses(s: MenuState, innerWidth: int)
    ensures innerWidth > 768 ==> React(s, ResizeSettled(innerWidth)) == Closed
    ensures innerWidth <= 768 ==> React(s, ResizeSettled(innerWidth)) == s
  {
  }

  class Menu {
    var toggleActive: bool
    var panelActive: bool
    var overlayActive: bool
    /** `document.body.style.overflow`. */
    var bodyOverflow: string

    function State(): MenuState
      reads this
    {
      MenuState(toggleActive, panelActive, overlayActive, bodyOverflow)
    }

    constructor ()
      ensures State() == Closed
    {
      toggleActive, panelActive, overlayActive := false, false, false;
      bodyOverflow := "";
    }

    /** The click handler of `#menuToggle`. */
    method Toggle()
      modifies this
      ensures State() == Toggled(old(State()))
    {
      toggleActive := !toggleActive;
      panelActive := !panelActive;
      overlayActive := !overlayActive;
      bodyOverflow := if panelActive then "hidden" else "";
    }

    /** `closeMenu`, the common exit of the handlers below. */
    method Close()
      modifies this
      ensures State() == CloseMenu(old(State()))
    {
      toggleActive := false;
      panelActive := false;
      overlayActive := false;
      bodyOverflow := "";
    }

    /** A click on `#menuOverlay`. */
    method OverlayClicked()
      modifies this
      ensures State() == React(old(State()), OverlayClick)
    {
      Close();
    }

    /** A click on any `.nav-link`. */
    method LinkClicked()
      modifies this
      ensures State() == React(old(State()), LinkClick)
    {
      Close();
    }

    /** The resize callback, once the 250 ms debounce has settled. */
    method ResizeSettledAt(innerWidth: int)
      modifies this
      ensures State() == React(old(State()), ResizeSettled(innerWidth))
    {
      if innerWidth > Breakpoint {
        Close();
      }
    }

    /** The document's keydown handler for the menu. */
    method KeyPressed(key: string)
      modifies this
      ensures State() == React(old(State()), KeyDown(key))
    {
      if key == "Escape" && panelActive {
        Close();
      }
    }
  }
}
