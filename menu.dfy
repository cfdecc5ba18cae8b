/** The mobile navigation menu of js/main.js (`initMobileMenu`): a toggle
    button, the list of navigation links and an optional overlay, opened and
    closed together.

    The class `Menu` holds what the handlers change: the `active` class and
    the `aria-expanded` attribute of the toggle button, the `open` class of
    the links, the `visible` class of the overlay and the body's overflow
    style. Whether the menu is open is read, as in the source, from the
    `open` class of the links. */
module MobileMenu {

  /** `window.innerWidth` above which a resize closes the menu. */
  const DesktopWidth := 768

  /** The value `aria-expanded` takes for an open or a closed menu. */
  function Expanded(open: bool): string
  {
    if open then "true" else "false"
  }

  class Menu {
    /** Whether the page has a `navOverlay` element. */
    const hasOverlay: bool

    var toggleActive: bool
    var ariaExpanded: string
    var linksOpen: bool
    var overlayVisible: bool
    var bodyOverflow: string

    /** The button, the links and the overlay agree on whether the menu is
        open; `aria-expanded` is "true" exactly when it is. */
    ghost predicate Consistent()
      reads this
    {
      toggleActive == linksOpen && ariaExpanded == Expanded(linksOpen)
      && (hasOverlay ==> overlayVisible == linksOpen)
    }

    /** `initMobileMenu` when the toggle button and the links exist. It
        changes nothing on the page: every attribute keeps what the markup
        had. */
    constructor (overlay: bool)
      ensures hasOverlay == overlay
    {
      hasOverlay := overlay;
    }

    /** `openMenu`. */
    method OpenMenu()
      modifies this
      ensures linksOpen && Consistent() && bodyOverflow == "hidden"
      ensures !hasOverlay ==> overlayVisible == old(overlayVisible)
    {
      toggleActive := true;
      ariaExpanded := "true";
      linksOpen := true;
      if hasOverlay {
        overlayVisible := true;
      }
      bodyOverflow := "hidden";
    }

    /** `closeMenu`, also bound to the overlay and to every navigation link. */
    method CloseMenu()
      modifies this
      ensures !linksOpen && Consistent() && bodyOverflow == ""
      ensures !hasOverlay ==> overlayVisible == old(overlayVisible)
    {
      toggleActive := false;
      ariaExpanded := "false";
      linksOpen := false;
      if hasOverlay {
        overlayVisible := false;
      }
      bodyOverflow := "";
    }

    /** `toggleMenu`, bound to the toggle button: each call flips the menu
        and leaves it consistent, so two calls restore the open flag. */
    method ToggleMenu()
      modifies this
      ensures linksOpen == !old(linksOpen) && Consistent()
      ensures bodyOverflow == if linksOpen then "hidden" else ""
      ensures !hasOverlay ==> overlayVisible == old(overlayVisible)
    {
      if linksOpen {
        CloseMenu();
      } else {
        OpenMenu();
      }
    }

    /** The document's keydown handler: Escape closes an open menu; any
        other key, or Escape on a closed menu, changes nothing. */
    method KeyDown(key: string)
      modifies this
      ensures key == "Escape" && old(linksOpen) ==> !linksOpen && Consistent() && bodyOverflow == ""
      ensures key != "Escape" || !old(linksOpen) ==> unchanged(this)
      ensures !hasOverlay ==> overlayVisible == old(overlayVisible)
    {
      if key == "Escape" && linksOpen {
        CloseMenu();
      }
    }

    /** The window's resize handler: a width over 768 closes an open menu. */
    method Resize(innerWidth: int)
      modifies this
      ensures innerWidth > DesktopWidth && old(linksOpen) ==> !linksOpen && Consistent() && bodyOverflow == ""
      ensures innerWidth <= DesktopWidth || !old(linksOpen) ==> unchanged(this)
      ensures !hasOverlay ==> overlayVisible == old(overlayVisible)
    {
      if innerWidth > DesktopWidth && linksOpen {
        CloseMenu();
      }
    }
  }
}
