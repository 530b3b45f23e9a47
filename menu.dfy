/** The navigation menu of `initBurgerMenu` (script.js:45-112): one `isOpen`
    flag of the closure drives the nav's `is-open` class, the toggle's
    `aria-expanded` attribute and the body's `u-no-scroll` class. */
module BurgerMenu {
  import opened Dom

  /** Widths from this value up are the desktop layout (script.js:89, 108). */
  const DesktopWidth: int := 1024

  /** The four pieces of state the menu code reads or writes. */
  datatype View = View(isOpen: bool, navOpen: bool, ariaExpanded: Option<string>, bodyNoScroll: bool)

  /** The three DOM flags agree with `isOpen`. */
  predicate Synced(v: View) {
    && v.navOpen == v.isOpen
    && (v.ariaExpanded == Some("true")) == v.isOpen
    && v.bodyNoScroll == v.isOpen
  }

  /** What holds from page load on: an open menu always shows as open. (A
      closed menu may still show the page's initial markup, because closing
      an already closed menu touches nothing.) */
  predicate Inv(v: View) {
    v.isOpen ==> v.navOpen && v.ariaExpanded == Some("true") && v.bodyNoScroll
  }

  /** `closeMenu` (script.js:58-64). */
  function Close(v: View): (r: View)
    ensures !r.isOpen
    ensures !v.isOpen ==> r == v
    ensures v.isOpen ==> Synced(r) && r.ariaExpanded == Some("false")
  {
    if !v.isOpen then v else View(false, false, Some("false"), false)
  }

  /** `openMenu` (script.js:66-72). */
  function Open(v: View): (r: View)
    ensures r.isOpen && (Inv(v) ==> Inv(r))
    ensures v.isOpen ==> r == v
    ensures !v.isOpen ==> Synced(r)
  {
    if v.isOpen then v else View(true, true, Some("true"), true)
  }

  /** `toggleMenu` (script.js:74-80): flips `isOpen` and leaves every flag in
      agreement with it, whatever the markup showed before. */
  function Toggle(v: View): (r: View)
    ensures r.isOpen == !v.isOpen
    ensures Synced(r)
    ensures r.ariaExpanded == Some(if r.isOpen then "true" else "false")
  {
    if v.isOpen then Close(v) else Open(v)
  }

  /** Where a click lands: on the toggle button, on a nav link (inside the nav
      or not), or on anything else (inside the nav or not). */
  datatype Target = OnToggle | OnNavLink(linkInNav: bool) | Elsewhere(inNav: bool)

  /** The events the menu listens to. */
  datatype Event =
    | Click(target: Target, innerWidth: int)
    | KeyDown(key: string)
    | Resize(innerWidth: int)

  /** The nav-link listener (script.js:88-92). */
  function AfterNavLinkClick(v: View, innerWidth: int): View {
    if innerWidth < DesktopWidth then Close(v) else v
  }

  /** The document click listener (script.js:101-105). */
  function AfterDocumentClick(v: View, inNav: bool, inToggle: bool): View {
    if v.isOpen && !inNav && !inToggle then Close(v) else v
  }

  /** The keydown listener (script.js:95-99). */
  function AfterKeyDown(v: View, key: string): View {
    if key == "Escape" && v.isOpen then Close(v) else v
  }

  /** The resize listener, debouncing aside (script.js:107-111). */
  function AfterResize(v: View, innerWidth: int): View {
    if innerWidth >= DesktopWidth then Close(v) else v
  }

  /** One event: a click first reaches the listener of the element it lands
      on (toggle, script.js:82-85, or nav link), then bubbles up to the
      document listener. */
  function Handle(v: View, e: Event): View {
    match e
    case Click(OnToggle, _) => AfterDocumentClick(Toggle(v), false, true)
    case Click(OnNavLink(inNav), w) => AfterDocumentClick(AfterNavLinkClick(v, w), inNav, false)
    case Click(Elsewhere(inNav), _) => AfterDocumentClick(v, inNav, false)
    case KeyDown(key) => AfterKeyDown(v, key)
    case Resize(w) => AfterResize(v, w)
  }

  /** A run of events, in order. */
  function HandleAll(v: View, es: seq<Event>): View
    decreases |es|
  {
    if es == [] then v else HandleAll(Handle(v, es[0]), es[1..])
  }

  predicate IsToggleClick(e: Event) {
    e.Click? && e.target.OnToggle?
  }

  /** The events that close an open menu, as the four close triggers and the
      toggle describe them. */
  predicate Closes(e: Event) {
    match e
    case Click(OnToggle, _) => true
    case Click(OnNavLink(inNav), w) => w < DesktopWidth || !inNav
    case Click(Elsewhere(inNav), _) => !inNav
    case KeyDown(key) => key == "Escape"
    case Resize(w) => w >= DesktopWidth
  }

  /** Only a click on the toggle opens the menu. */
  lemma OnlyToggleOpens(v: View, e: Event)
    requires !v.isOpen && Handle(v, e).isOpen
    ensures IsToggleClick(e)
  {
  }

  /** An open menu closes on exactly the events of `Closes`. */
  lemma ClosesIff(v: View, e: Event)
    requires v.isOpen
    ensures !Handle(v, e).isOpen <==> Closes(e)
  {
  }

  /** Every event keeps the page-load invariant and keeps agreeing flags in
      agreement; a toggle click brings them into agreement. */
  lemma HandlePreserves(v: View, e: Event)
    ensures Inv(v) ==> Inv(Handle(v, e))
    ensures Synced(v) ==> Synced(Handle(v, e))
    ensures IsToggleClick(e) ==> Synced(Handle(v, e))
  {
  }

  /** Over any run of events the invariant holds, and once the toggle has been
      clicked the three flags agree with `isOpen` for good. */
  lemma {:induction false} HandleAllPreserves(v: View, es: seq<Event>)
    requires Inv(v)
    ensures Inv(HandleAll(v, es))
    ensures (Synced(v) || exists i :: 0 <= i < |es| && IsToggleClick(es[i])) ==> Synced(HandleAll(v, es))
    decreases |es|
  {
    if es != [] {
      HandlePreserves(v, es[0]);
      HandleAllPreserves(Handle(v, es[0]), es[1..]);
      if exists i :: 0 <= i < |es| && IsToggleClick(es[i]) {
        var i :| 0 <= i < |es| && IsToggleClick(es[i]);
        if i > 0 {
          assert IsToggleClick(es[1..][i - 1]);
        }
      }
    }
  }

  /** The script's state for one page: the closure variable and the three DOM
      flags it manages. */
  class NavMenu {
    var isOpen: bool
    var navOpen: bool
    var ariaExpanded: Option<string>
    var bodyNoScroll: bool

    function Current(): View
      reads this
    {
      View(isOpen, navOpen, ariaExpanded, bodyNoScroll)
    }

    ghost predicate Valid()
      reads this
    {
      Inv(Current())
    }

    /** Set up on a page whose markup shows the given flags; `isOpen` starts
        false (script.js:56). */
    constructor (navOpen0: bool, ariaExpanded0: Option<string>, bodyNoScroll0: bool)
      ensures Valid()
      ensures Current() == View(false, navOpen0, ariaExpanded0, bodyNoScroll0)
    {
      isOpen := false;
      navOpen := navOpen0;
      ariaExpanded := ariaExpanded0;
      bodyNoScroll := bodyNoScroll0;
    }

    method CloseMenu()
      requires Valid()
      modifies this
      ensures Valid()
      ensures Current() == Close(old(Current()))
    {
      if !isOpen {
        return;
      }
      isOpen := false;
      navOpen := false;
      ariaExpanded := Some("false");
      bodyNoScroll := false;
    }

    method OpenMenu()
      requires Valid()
      modifies this
      ensures Valid()
      ensures Current() == Open(old(Current()))
    {
      if isOpen {
        return;
      }
      isOpen := true;
      navOpen := true;
      ariaExpanded := Some("true");
      bodyNoScroll := true;
    }

    method ToggleMenu()
      requires Valid()
      modifies this
      ensures Valid()
      ensures Current() == Toggle(old(Current()))
    {
      if isOpen {
        CloseMenu();
      } else {
        OpenMenu();
      }
    }

    method OnNavLinkClick(innerWidth: int)
      requires Valid()
      modifies this
      ensures Valid()
      ensures Current() == AfterNavLinkClick(old(Current()), innerWidth)
    {
      if innerWidth < DesktopWidth {
        CloseMenu();
      }
    }

    method OnKeyDown(key: string)
      requires Valid()
      modifies this
      ensures Valid()
      ensures Current() == AfterKeyDown(old(Current()), key)
    {
      if key == "Escape" && isOpen {
        CloseMenu();
      }
    }

    method OnDocumentClick(inNav: bool, inToggle: bool)
      requires Valid()
      modifies this
      ensures Valid()
      ensures Current() == AfterDocumentClick(old(Current()), inNav, inToggle)
    {
      if isOpen && !inNav && !inToggle {
        CloseMenu();
      }
    }

    method OnResize(innerWidth: int)
      requires Valid()
      modifies this
      ensures Valid()
      ensures Current() == AfterResize(old(Current()), innerWidth)
    {
      if innerWidth >= DesktopWidth {
        CloseMenu();
      }
    }

    /** Deliver one event to the listeners, in the order the browser calls
        them. */
    method Dispatch(e: Event)
      requires Valid()
      modifies this
      ensures Valid()
      ensures Current() == Handle(old(Current()), e)
    {
      match e
      case Click(OnToggle, _) =>
        ToggleMenu();
        OnDocumentClick(false, true);
      case Click(OnNavLink(inNav), w) =>
        OnNavLinkClick(w);
        OnDocumentClick(inNav, false);
      case Click(Elsewhere(inNav), _) =>
        OnDocumentClick(inNav, false);
      case KeyDown(key) =>
        OnKeyDown(key);
      case Resize(w) =>
        OnResize(w);
    }
  }
}
