// The multi-page navigator: the page switcher, nav highlighting, the mobile
// menu, the three click handlers that lead to the page switcher, and page
// preloading. The document is a `Navigator` object whose element and link records
// are updated in place, as the script updates the DOM nodes.
module Site {
  import opened Dom

  /** Widths up to this many pixels count as mobile. */
  const Breakpoint: int := 768

  /** The inline styles of `.nav` that the menu code writes: `display`, whether the
      overlay-panel layout (position, offsets, background, shadow, radius, padding)
      is set, and whether `z-index: 1000` is set. */
  datatype NavStyle = NavStyle(display: Display, overlay: bool, raised: bool)

  /** The menu: the `isMenuOpen` flag, the viewport width, the nav's inline
      styles, whether a `.hamburger` exists, and whether its bars are drawn as a
      cross. */
  datatype Menu = Menu(open: bool, width: int, nav: NavStyle, hasBurger: bool, burgerCross: bool)

  /** Whenever the nav is shown as a block, it is laid out as the overlay panel and
      the hamburger is a cross; a cross needs a hamburger. */
  predicate MenuCoherent(m: Menu)
  {
    (m.nav.display == Block ==> m.nav.overlay && m.nav.raised && m.burgerCross) &&
    (m.burgerCross ==> m.hasBurger)
  }

  /** `closeMobileMenu()`: on a mobile width the nav is hidden and the hamburger
      bars reset; on a wider viewport nothing at all happens. The open flag is
      never touched. */
  function ClosedMenu(m: Menu): (r: Menu)
    ensures r.open == m.open && r.width == m.width && r.hasBurger == m.hasBurger
    ensures m.width <= Breakpoint ==>
      r.nav == m.nav.(display := NoDisplay) && (m.hasBurger ==> !r.burgerCross)
    ensures m.width > Breakpoint ==> r == m
    ensures MenuCoherent(m) ==> MenuCoherent(r)
  {
    if m.width <= Breakpoint then
      m.(nav := m.nav.(display := NoDisplay), burgerCross := if m.hasBurger then false else m.burgerCross)
    else m
  }

  /** `toggleMobileMenu()`: flips the flag; opening shows the overlay panel and the
      cross, closing is `closeMobileMenu()`. */
  function ToggledMenu(m: Menu): (r: Menu)
    requires m.hasBurger
    ensures r.open == !m.open && r.width == m.width && r.hasBurger
    ensures r.open ==> r.nav == NavStyle(Block, true, true) && r.burgerCross
    ensures !r.open ==> r == ClosedMenu(m.(open := false))
    ensures MenuCoherent(m) ==> MenuCoherent(r)
  {
    var flipped := m.(open := !m.open);
    if flipped.open then flipped.(nav := NavStyle(Block, true, true), burgerCross := true)
    else ClosedMenu(flipped)
  }

  /** The resize handler with the new width: above the breakpoint the nav's inline
      display and overlay layout are cleared (its z-index is not) and
      `closeMobileMenu()` is called, which does nothing at that width. */
  function ResizedMenu(m: Menu, width: int): (r: Menu)
    ensures r.width == width && r.open == m.open && r.hasBurger == m.hasBurger
    ensures r.burgerCross == m.burgerCross
    ensures width > Breakpoint ==> r.nav == NavStyle(Unset, false, m.nav.raised)
    ensures width <= Breakpoint ==> r.nav == m.nav
    ensures MenuCoherent(m) ==> MenuCoherent(r)
  {
    var moved := m.(width := width);
    if width > Breakpoint then ClosedMenu(moved.(nav := moved.nav.(display := Unset, overlay := false)))
    else moved
  }

  /** The whole state the navigator touches. */
  datatype SiteState = SiteState(elements: seq<Element>, links: seq<NavLink>, menu: Menu)

  /** `showPage(name)`: pages hidden whatever happens; only when an element has id
      `name` are the nav links highlighted and the menu closed. */
  function ShowPageState(s: SiteState, name: string): (r: SiteState)
    ensures r.elements == AfterShowPage(s.elements, name)
    ensures FindById(s.elements, name).Some? ==>
      r.links == Highlighted(s.links, name) && r.menu == ClosedMenu(s.menu)
    ensures FindById(s.elements, name).None? ==> r.links == s.links && r.menu == s.menu
  {
    var es := AfterShowPage(s.elements, name);
    if FindById(s.elements, name).Some? then SiteState(es, Highlighted(s.links, name), ClosedMenu(s.menu))
    else s.(elements := es)
  }

  /** What a click handler decides: let the browser follow the link, switch page,
      scroll the element at an index into view, or only cancel the default. */
  datatype Action = PassThrough | Navigate(page: string) | ScrollTo(index: nat) | Prevented

  /** `href.startsWith('#')`. */
  predicate StartsWithHash(href: string): (b: bool)
    ensures b <==> |href| >= 1 && href[..1] == "#"
  {
    |href| > 0 && href[0] == '#'
  }

  /** An href that the smooth-scrolling handler acts on: starts with `#` and is not
      `#` alone. */
  predicate IsHashLink(href: string): (b: bool)
    ensures b <==> |href| > 1 && href[0] == '#'
  {
    StartsWithHash(href) && href != "#"
  }

  /** The handler of every `a[href^="#"]` anchor. A page id goes to showPage; any
      other name is an in-page anchor to scroll to (if it exists); `#` and other
      hrefs are left to the browser. */
  function AnchorAction(es: seq<Element>, href: string): (r: Action)
    ensures r == PassThrough <==> !IsHashLink(href)
    ensures r.Navigate? <==> IsHashLink(href) && NamesPage(es, href[1..])
    ensures r.Navigate? ==> "#" + r.page == href
    ensures r.ScrollTo? ==>
      r.index < |es| && "#" + es[r.index].id == href && !es[r.index].isPage
    // the element scrolled to is the first one with that id
    ensures r.ScrollTo? ==> FindById(es, href[1..]) == Some(r.index)
    ensures r == Prevented ==> FindById(es, href[1..]).None?
  {
    if IsHashLink(href) then
      var name := href[1..];
      var t := FindById(es, name);
      if t.Some? && es[t.value].isPage then Navigate(name)
      else if t.Some? then ScrollTo(t.value)
      else Prevented
    else PassThrough
  }

  /** The document-level click handler for `.footer-links a[href^="#"]`: any
      element with the id after `#` goes to showPage, `.page` or not. */
  function FooterAction(es: seq<Element>, inFooterLinks: bool, href: string): (r: Action)
    ensures !(inFooterLinks && StartsWithHash(href)) ==> r == PassThrough
    // a handled link always cancels the browser's default
    ensures inFooterLinks && StartsWithHash(href) ==> r != PassThrough
    ensures r.Navigate? <==>
      inFooterLinks && StartsWithHash(href) && FindById(es, href[1..]).Some?
    ensures r.Navigate? ==> "#" + r.page == href
    ensures !r.ScrollTo?
  {
    if inFooterLinks && StartsWithHash(href) then
      var name := href[1..];
      if FindById(es, name).Some? then Navigate(name) else Prevented
    else PassThrough
  }

  /** A `.nav-link` click: a non-empty `data-page` goes to showPage. */
  function NavLinkAction(dataPage: Option<string>): (r: Action)
    ensures r.Navigate? <==> dataPage.Some? && dataPage.value != ""
    ensures r.Navigate? ==> dataPage == Some(r.page)
    ensures !r.Navigate? ==> r == Prevented
  {
    if dataPage.Some? && dataPage.value != "" then Navigate(dataPage.value) else Prevented
  }

  /** The state after a handler's decision; scrolling does not change it. */
  function Perform(s: SiteState, a: Action): (r: SiteState)
    ensures !a.Navigate? ==> r == s
  {
    if a.Navigate? then ShowPageState(s, a.page) else s
  }

  /** Switching to the same page twice is switching once. */
  lemma {:induction false} ShowPageStateIdempotent(s: SiteState, name: string)
    ensures ShowPageState(ShowPageState(s, name), name) == ShowPageState(s, name)
  {
    var once := ShowPageState(s, name);
    AfterShowPageIdempotent(s.elements, name);
    if FindById(s.elements, name).Some? {
      HighlightedForgetsPrevious(s.links, name, name);
    }
  }

  /** A footer link `#p` to a `.page` runs both handlers (the anchor's own, then the
      document's as the click bubbles): showPage is called twice, with the effect
      of one call. */
  lemma {:induction false} FooterPageLinkSwitchesOnce(s: SiteState, href: string)
    requires IsHashLink(href) && NamesPage(s.elements, href[1..])
    ensures Perform(Perform(s, AnchorAction(s.elements, href)), FooterAction(Perform(s, AnchorAction(s.elements, href)).elements, true, href))
            == ShowPageState(s, href[1..])
  {
    var name := href[1..];
    var mid := ShowPageState(s, name);
    assert AnchorAction(s.elements, href) == Navigate(name);
    assert FooterAction(mid.elements, true, href) == Navigate(name);
    ShowPageStateIdempotent(s, name);
  }

  /** A footer link `#x` to an element that is not a `.page`: the anchor handler
      scrolls to it, then the document handler still calls showPage, which hides
      every page and marks that element active. */
  lemma {:induction false} FooterAnchorLinkHidesPages(s: SiteState, href: string)
    requires IsHashLink(href) && FindById(s.elements, href[1..]).Some?
    requires !NamesPage(s.elements, href[1..])
    ensures AnchorAction(s.elements, href).ScrollTo?
    ensures FooterAction(s.elements, true, href) == Navigate(href[1..])
    ensures var r := ShowPageState(s, href[1..]);
      forall j :: 0 <= j < |s.elements| && s.elements[j].isPage ==>
        !r.elements[j].active && r.elements[j].display == NoDisplay
  {
    var name := href[1..];
    var k := FindById(s.elements, name).value;
    var r := ShowPageState(s, name);
    forall j | 0 <= j < |s.elements| && s.elements[j].isPage
      ensures !r.elements[j].active && r.elements[j].display == NoDisplay
    {
      assert j != k;
      assert r.elements[j] == Hidden(s.elements[j]);
    }
  }

  /** After navigating away from an open menu on a phone, the nav is hidden but the
      flag still says open, so the next hamburger tap "closes" it again instead of
      opening it. */
  lemma {:induction false} MenuFlagDesyncAfterNavigation(s: SiteState, name: string)
    requires s.menu.hasBurger && s.menu.width <= Breakpoint && !s.menu.open
    requires FindById(s.elements, name).Some?
    ensures
      var after := ShowPageState(s.(menu := ToggledMenu(s.menu)), name);
      after.menu.open && after.menu.nav.display == NoDisplay &&
      !ToggledMenu(after.menu).open && ToggledMenu(after.menu).nav.display == NoDisplay
  {
    var withMenu := s.(menu := ToggledMenu(s.menu));
    assert withMenu.menu.open;
    var after := ShowPageState(withMenu, name);
    assert after.menu == ClosedMenu(withMenu.menu);
  }

  /** Resizing to a desktop width does not close the menu's flag: the overlay
      styles are cleared but `isMenuOpen` stays true and the cross stays drawn. */
  lemma {:induction false} ResizeKeepsMenuFlag(m: Menu, width: int)
    requires m.hasBurger && !m.open && width > Breakpoint
    ensures var r := ResizedMenu(ToggledMenu(m), width);
      r.open && r.burgerCross && r.nav.display == Unset && !r.nav.overlay
  {
    assert ToggledMenu(m).open;
  }

  /** On a desktop width the hamburger opens the overlay but cannot close it:
      the second tap clears the flag and leaves the nav displayed. */
  lemma {:induction false} WideToggleCannotClose(m: Menu)
    requires m.hasBurger && !m.open && m.width > Breakpoint
    ensures var twice := ToggledMenu(ToggledMenu(m));
      !twice.open && twice.nav.display == Block
  {
    var once := ToggledMenu(m);
    assert once.open && once.nav.display == Block;
  }

  /** The page navigator, holding the document's elements and nav links in place. */
  class Navigator {
    const elements: array<Element>
    const links: array<NavLink>
    var menuOpen: bool
    var width: int
    var nav: NavStyle
    const hasBurger: bool
    var burgerCross: bool

    function MenuState(): Menu
      reads this
    {
      Menu(menuOpen, width, nav, hasBurger, burgerCross)
    }

    function State(): SiteState
      reads this, elements, links
    {
      SiteState(elements[..], links[..], MenuState())
    }

    /** The document as loaded, before any script has run. */
    constructor (es: seq<Element>, ls: seq<NavLink>, burger: bool, viewport: int)
      ensures State() == SiteState(es, ls, Menu(false, viewport, NavStyle(Unset, false, false), burger, false))
      ensures MenuCoherent(MenuState())
    {
      elements := new Element[|es|](i requires 0 <= i < |es| => es[i]);
      links := new NavLink[|ls|](i requires 0 <= i < |ls| => ls[i]);
      menuOpen, width, nav, hasBurger, burgerCross := false, viewport, NavStyle(Unset, false, false), burger, false;
    }

    /** `initNavigation()`: highlight the `home` link and show the `home` element. */
    method InitNavigation()
      modifies elements, links
      ensures links[..] == Highlighted(old(links[..]), "home")
      ensures FindById(old(elements[..]), "home").None? ==> elements[..] == old(elements[..])
      ensures FindById(old(elements[..]), "home").Some? ==>
        var k := FindById(old(elements[..]), "home").value;
        elements[..] == old(elements[..])[k := old(elements[k]).(display := Block)]
      // only a display changes, so at most one page stays active
      ensures AtMostOneActivePage(old(elements[..])) ==> AtMostOneActivePage(elements[..])
    {
      UpdateActiveStates("home");
      var home := FindById(elements[..], "home");
      if home.Some? {
        elements[home.value] := elements[home.value].(display := Block);
      }
    }

    /** `updateActiveStates(page)`: each link loses `active`, and regains it when its
        `data-page` is `page`. */
    method UpdateActiveStates(page: string)
      modifies links
      ensures links[..] == Highlighted(old(links[..]), page)
    {
      var i := 0;
      while i < links.Length
        invariant 0 <= i <= links.Length
        invariant forall j :: 0 <= j < i ==>
          links[j] == old(links[j]).(active := old(links[j]).dataPage == Some(page))
        invariant forall j :: i <= j < links.Length ==> links[j] == old(links[j])
      {
        links[i] := links[i].(active := false);
        if links[i].dataPage == Some(page) {
          links[i] := links[i].(active := true);
        }
        i := i + 1;
      }
    }

    /** `closeMobileMenu()`. */
    method CloseMobileMenu()
      modifies this`nav, this`burgerCross
      ensures MenuState() == ClosedMenu(old(MenuState()))
    {
      if width <= Breakpoint {
        nav := nav.(display := NoDisplay);
        if hasBurger {
          burgerCross := false;
        }
      }
    }

    /** `toggleMobileMenu()`, reachable only through a click on the hamburger. */
    method ToggleMobileMenu()
      requires hasBurger
      modifies this`menuOpen, this`nav, this`burgerCross
      ensures MenuState() == ToggledMenu(old(MenuState()))
    {
      menuOpen := !menuOpen;
      if menuOpen {
        nav := NavStyle(Block, true, true);
        burgerCross := true;
      } else {
        CloseMobileMenu();
      }
    }

    /** The (debounced) resize handler, given the new viewport width. */
    method Resize(newWidth: int)
      modifies this`width, this`nav, this`burgerCross
      ensures MenuState() == ResizedMenu(old(MenuState()), newWidth)
    {
      width := newWidth;
      if width > Breakpoint {
        nav := nav.(display := Unset, overlay := false);
        CloseMobileMenu();
      }
    }

    /** `showPage(name)`: hide every page, then show the element with id `name` if
        there is one, highlight its nav link and close the mobile menu. */
    method ShowPage(name: string)
      modifies elements, links, this`nav, this`burgerCross
      ensures State() == ShowPageState(old(State()), name)
      ensures AtMostOneActivePage(elements[..])
    {
      ghost var before := elements[..];
      HidePages();
      FindBySameIds(elements[..], before, name);
      var target := FindById(elements[..], name);
      if target.Some? {
        var k := target.value;
        elements[k] := elements[k].(active := true, display := Block);
        assert elements[..] == AfterShowPage(before, name);
        UpdateActiveStates(name);
        CloseMobileMenu();
      } else {
        assert elements[..] == AfterShowPage(before, name);
      }
    }

    /** The first loop of showPage: every `.page` loses `active` and is hidden. */
    method HidePages()
      modifies elements
      ensures elements[..] == HideAll(old(elements[..]))
    {
      var i := 0;
      while i < elements.Length
        invariant 0 <= i <= elements.Length
        invariant forall j :: 0 <= j < i ==> elements[j] == Hidden(old(elements[j]))
        invariant forall j :: i <= j < elements.Length ==> elements[j] == old(elements[j])
      {
        if elements[i].isPage {
          elements[i] := elements[i].(active := false, display := NoDisplay);
        }
        i := i + 1;
      }
    }

    /** A click on the nav link at `index`. */
    method ClickNavLink(index: nat)
      requires index < links.Length
      modifies elements, links, this`nav, this`burgerCross
      ensures State() == Perform(old(State()), NavLinkAction(old(links[index].dataPage)))
    {
      var page := links[index].dataPage;
      if page.Some? && page.value != "" {
        ShowPage(page.value);
      }
    }

    /** A click on an `a[href^="#"]` anchor with the given href; returns what the
        handler decided (the scrolling itself is the browser's). */
    method ClickAnchor(href: string) returns (a: Action)
      modifies elements, links, this`nav, this`burgerCross
      ensures a == AnchorAction(old(elements[..]), href)
      ensures State() == Perform(old(State()), a)
    {
      a := AnchorAction(elements[..], href);
      if a.Navigate? {
        ShowPage(a.page);
      }
    }

    /** The document-level click handler for a click on an element with the given
        href, inside `.footer-links` or not. */
    method ClickFooter(inFooterLinks: bool, href: string) returns (a: Action)
      modifies elements, links, this`nav, this`burgerCross
      ensures a == FooterAction(old(elements[..]), inFooterLinks, href)
      ensures State() == Perform(old(State()), a)
    {
      a := FooterAction(elements[..], inFooterLinks, href);
      if a.Navigate? {
        ShowPage(a.page);
      }
    }

    /** `preloadPageContent(name)`: mark the element with id `name` preloaded and
        load its lazy images, unless it is already marked. */
    method PreloadPageContent(name: string)
      modifies elements
      ensures elements[..] == AfterPreload(old(elements[..]), name)
    {
      var target := FindById(elements[..], name);
      if target.Some? && !elements[target.value].preloaded {
        var k := target.value;
        var imgs := elements[k].images;
        var i := 0;
        while i < |imgs|
          invariant 0 <= i <= |imgs| == |old(elements[k].images)|
          invariant forall j :: 0 <= j < i ==> imgs[j] == LoadLazy(old(elements[k].images)[j])
          invariant forall j :: i <= j < |imgs| ==> imgs[j] == old(elements[k].images)[j]
        {
          if imgs[i].dataSrc.Some? && imgs[i].dataSrc.value != "" {
            imgs := imgs[i := Img(imgs[i].dataSrc.value, None)];
          }
          i := i + 1;
        }
        ghost var e := old(elements[k]);
        assert imgs == seq(|e.images|, j requires 0 <= j < |e.images| => LoadLazy(e.images[j]));
        elements[k] := elements[k].(preloaded := true, images := imgs);
      }
    }
  }
}
