/**
 In-page navigation and the mobile menu (main.js, sections 3 and 4). A
 click on a navigation link or a call-to-action button whose `href` is an
 internal fragment `#id` scrolls to 80 pixels above the element with that
 id and closes the menu. The menu itself is four page elements (the nav,
 the toggle button with its `aria-expanded` attribute, the overlay and the
 body's scroll lock) that open and close together.
 */
module Navigation {
  import opened Js

  /* ---------------------------------------------------------------- */
  /* Fragments                                                        */
  /* ---------------------------------------------------------------- */

  /** A character of `[\w-]`: an ASCII letter or digit, `_` or `-`. */
  predicate IdChar(c: char) {
    ('a' <= c <= 'z') || ('A' <= c <= 'Z') || IsDigit(c) || c == '_' || c == '-'
  }

  /** A non-empty run of `[\w-]`. */
  predicate IsPlainId(id: string) {
    id != [] && forall k :: 0 <= k < |id| ==> IdChar(id[k])
  }

  /** The check `/^#[\w-]+$/.test(href)`: a `#` followed by one or more
      `[\w-]` characters and nothing else. */
  function IsFragment(href: string): (b: bool)
    ensures b <==> href != [] && href[0] == '#' && IsPlainId(href[1..])
  {
    |href| >= 2 && href[0] == '#' && forall k :: 1 <= k < |href| ==> IdChar(href[k])
  }

  /** The id a fragment names: `href.substring(1)`. */
  function FragmentId(href: string): (id: string)
    requires IsFragment(href)
    ensures "#" + id == href
    ensures IsPlainId(id)
  {
    var id := href[1..];
    assert forall k :: 0 <= k < |id| ==> id[k] == href[k + 1];
    id
  }

  /** A fragment is `#` and a plain id, and the id reads back. */
  lemma FragmentOfPlainId(id: string)
    ensures IsFragment("#" + id) <==> IsPlainId(id)
    ensures IsPlainId(id) ==> FragmentId("#" + id) == id
  {
    var h := "#" + id;
    assert forall k :: 1 <= k < |h| ==> h[k] == id[k - 1];
    assert forall k :: 0 <= k < |id| ==> id[k] == h[k + 1];
  }

  /** `#` alone, an external address and an id with a dot are all refused. */
  lemma FragmentExamples()
    ensures !IsFragment("#")
    ensures !IsFragment("https://example.com/#top")
    ensures !IsFragment("#a.b")
    ensures IsFragment("#cotizar")
  {
    assert !IdChar("#a.b"[2]);
  }

  /* ---------------------------------------------------------------- */
  /* The menu                                                         */
  /* ---------------------------------------------------------------- */

  /** What the menu functions touch: the nav's `open` class, the toggle's
      `active` class and its `aria-expanded` attribute, the overlay's
      `active` class and the body's `overflow` style. */
  datatype Menu = Menu(
    navOpen: bool,
    toggleActive: bool,
    ariaExpanded: string,
    overlayActive: bool,
    bodyOverflow: string)

  /** `openMenu` (main.js:117-123). */
  const Opened: Menu := Menu(true, true, "true", true, "hidden")

  /** `closeMenu` (main.js:125-131). */
  const Closed: Menu := Menu(false, false, "false", false, "")

  /** The menu's parts agree: all open, or all closed. */
  predicate Coherent(m: Menu) {
    m == Opened || m == Closed
  }

  datatype MenuEvent =
    | ToggleClick
    | OverlayClick
    | KeyDown(key: string)

  /** The menu's handlers (main.js:133-150): the toggle opens a closed nav
      and closes an open one, a click on the overlay closes, and Escape
      closes an open nav. Other keys do nothing. */
  function MenuStep(m: Menu, e: MenuEvent): (r: Menu)
    ensures e == ToggleClick ==> r.navOpen == !m.navOpen && Coherent(r)
    ensures e == OverlayClick ==> r == Closed
    ensures e.KeyDown? ==> (r.navOpen <==> m.navOpen && e.key != "Escape")
    ensures e.KeyDown? && e.key == "Escape" && m.navOpen ==> r == Closed
    ensures e.KeyDown? && (e.key != "Escape" || !m.navOpen) ==> r == m
  {
    match e
    case ToggleClick => if m.navOpen then Closed else Opened
    case OverlayClick => Closed
    case KeyDown(key) => if key == "Escape" && m.navOpen then Closed else m
  }

  /** Every handler keeps the menu coherent. */
  lemma MenuStepKeepsCoherent(m: Menu, e: MenuEvent)
    requires Coherent(m)
    ensures Coherent(MenuStep(m, e))
  {
  }

  /** Clicking the toggle twice leaves a coherent menu as it was. */
  lemma ToggleTwiceIsIdentity(m: Menu)
    requires Coherent(m)
    ensures MenuStep(MenuStep(m, ToggleClick), ToggleClick) == m
  {
  }

  /** A run of handler calls. */
  function MenuRun(m: Menu, es: seq<MenuEvent>): Menu
    decreases |es|
  {
    if es == [] then m else MenuRun(MenuStep(m, es[0]), es[1..])
  }

  /** However many events arrive, a coherent menu stays coherent. */
  lemma {:induction false} MenuRunKeepsCoherent(m: Menu, es: seq<MenuEvent>)
    requires Coherent(m)
    ensures Coherent(MenuRun(m, es))
    decreases |es|
  {
    if es != [] {
      MenuStepKeepsCoherent(m, es[0]);
      MenuRunKeepsCoherent(MenuStep(m, es[0]), es[1..]);
    }
  }

  /* ---------------------------------------------------------------- */
  /* Link clicks                                                      */
  /* ---------------------------------------------------------------- */

  /** What a click handler does: whether it cancels the browser's default
      navigation, where it scrolls the window to (if anywhere), and the
      menu afterwards. */
  datatype ClickOutcome = ClickOutcome(preventDefault: bool, scrollTo: Option<int>, menu: Menu)

  /** The window stops 80 pixels above the target, below the fixed header. */
  const HeaderOffset: int := 80

  /** Where a valid internal `href` leads, given the page's elements by id
      and their offsets from the top of the document. */
  function Target(href: Option<string>, offsets: map<string, int>): (t: Option<int>)
    ensures t.Some? <==> href.Some? && IsFragment(href.value) && FragmentId(href.value) in offsets
    ensures t.Some? ==> t.value == offsets[FragmentId(href.value)] - HeaderOffset
  {
    if href.Some? && IsFragment(href.value) && FragmentId(href.value) in offsets
    then Some(offsets[FragmentId(href.value)] - HeaderOffset)
    else None
  }

  /** A click on a navigation link (main.js:75-91): the default is always
      cancelled; a valid fragment naming an element scrolls to it and
      closes the menu; anything else does nothing more. */
  function NavLinkClick(href: Option<string>, offsets: map<string, int>, m: Menu): (o: ClickOutcome)
    ensures o.preventDefault
    ensures o.scrollTo.Some? <==> href.Some? && IsFragment(href.value) && FragmentId(href.value) in offsets
    ensures o.scrollTo.Some? ==> o.scrollTo.value == offsets[FragmentId(href.value)] - HeaderOffset
    ensures o.menu == if o.scrollTo.Some? then Closed else m
  {
    match Target(href, offsets)
    case Some(top) => ClickOutcome(true, Some(top), Closed)
    case None => ClickOutcome(true, None, m)
  }

  /** A click on a call-to-action button (main.js:94-108): as a navigation
      link, except that the default is cancelled only when the page
      scrolls, so an `href` naming no element still navigates. */
  function CtaClick(href: Option<string>, offsets: map<string, int>, m: Menu): (o: ClickOutcome)
    ensures o.preventDefault <==> o.scrollTo.Some?
    ensures o.scrollTo.Some? <==> href.Some? && IsFragment(href.value) && FragmentId(href.value) in offsets
    ensures o.scrollTo.Some? ==> o.scrollTo.value == offsets[FragmentId(href.value)] - HeaderOffset
    ensures o.menu == if o.scrollTo.Some? then Closed else m
  {
    match Target(href, offsets)
    case Some(top) => ClickOutcome(true, Some(top), Closed)
    case None => ClickOutcome(false, None, m)
  }

  /** The two handlers scroll and close alike; they differ only in
      cancelling the default when nothing happens. */
  lemma LinkAndButtonAgree(href: Option<string>, offsets: map<string, int>, m: Menu)
    ensures NavLinkClick(href, offsets, m).scrollTo == CtaClick(href, offsets, m).scrollTo
    ensures NavLinkClick(href, offsets, m).menu == CtaClick(href, offsets, m).menu
    ensures CtaClick(href, offsets, m).preventDefault ==> NavLinkClick(href, offsets, m).preventDefault
  {
  }

  /** A link to `#id` for an element on the page scrolls there. */
  lemma LinkToPlainIdScrolls(id: string, offsets: map<string, int>, m: Menu)
    requires IsPlainId(id) && id in offsets
    ensures NavLinkClick(Some("#" + id), offsets, m).scrollTo == Some(offsets[id] - HeaderOffset)
    ensures NavLinkClick(Some("#" + id), offsets, m).menu == Closed
  {
    FragmentOfPlainId(id);
  }

  /** A click never leaves a coherent menu incoherent. */
  lemma ClicksKeepCoherent(href: Option<string>, offsets: map<string, int>, m: Menu)
    requires Coherent(m)
    ensures Coherent(NavLinkClick(href, offsets, m).menu)
    ensures Coherent(CtaClick(href, offsets, m).menu)
  {
  }
}
