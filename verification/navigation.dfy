/** The navigation behaviour of js/main.js: the light/dark theme, the mobile
    menu, the dropdown items with their one shared hide-timer handle, the
    active-link marking for the current page and the back-to-top button.
    Storage, the document attribute and element classes are fields; timers
    are explicit records run by the event loop. */
module Navigation {
  import opened Optional

  // ---- Theme -----------------------------------------------------------

  /** The theme on page load: the stored value unless it is missing or empty. */
  function InitialTheme(stored: Option<string>): (t: string)
    ensures stored.Some? && stored.value != "" ==> t == stored.value
    ensures stored.None? || stored.value == "" ==> t == "light"
  {
    if stored.Some? && stored.value != "" then stored.value else "light"
  }

  /** The theme a click switches to. */
  function NextTheme(current: string): (t: string)
    ensures t == "light" || t == "dark"
    ensures t == "light" <==> current == "dark"
  {
    if current == "dark" then "light" else "dark"
  }

  /** Two clicks restore the theme exactly when it was "light" or "dark"; any
      other value becomes "light". */
  lemma ToggleTwice(current: string)
    ensures NextTheme(NextTheme(current)) == current <==> current == "light" || current == "dark"
    ensures current != "dark" ==> NextTheme(NextTheme(current)) == "light"
  {
  }

  const Sun: string := "☀"
  const Moon: string := "☾"

  /** The toggle's text: a sun in the dark theme, a moon otherwise. */
  function ThemeIcon(theme: string): (icon: string)
    ensures icon == Sun <==> theme == "dark"
    ensures icon == Sun || icon == Moon
  {
    if theme == "dark" then Sun else Moon
  }

  /** The theme state: the `data-theme` attribute, the stored "theme" value and
      the toggle button's text (`None` when the page has no toggle). */
  class Theme {
    const hasToggle: bool
    var attribute: string
    var stored: Option<string>
    var icon: Option<string>

    /** The icon always shows the current theme. */
    predicate Valid()
      reads this
    {
      icon == (if hasToggle then Some(ThemeIcon(attribute)) else None)
    }

    /** `initTheme`: the stored or default theme is applied; nothing is stored. */
    constructor(stored: Option<string>, hasToggle: bool)
      ensures Valid() && this.hasToggle == hasToggle
      ensures attribute == InitialTheme(stored) && this.stored == stored
    {
      this.hasToggle := hasToggle;
      this.stored := stored;
      attribute := InitialTheme(stored);
      icon := if hasToggle then Some(ThemeIcon(InitialTheme(stored))) else None;
    }

    /** A click on the toggle: the attribute and the stored value both become
        the next theme. */
    method Toggle()
      requires Valid() && hasToggle
      modifies this
      ensures Valid()
      ensures attribute == NextTheme(old(attribute)) && stored == Some(attribute)
    {
      var next := NextTheme(attribute);
      attribute := next;
      stored := Some(next);
      icon := Some(ThemeIcon(next));
    }
  }

  // ---- Mobile menu -----------------------------------------------------

  const Cross: string := "✕"
  const Burger: string := "☰"

  /** The mobile menu: whether the nav menu has `active`, and the toggle's text. */
  class MobileMenu {
    var active: bool
    var icon: string

    /** Page load registers the listeners only: whether the menu is open and
        the toggle's text come from the page markup. */
    constructor(active: bool, icon: string)
      ensures this.active == active && this.icon == icon
    {
      this.active := active;
      this.icon := icon;
    }

    /** A click on the toggle flips the menu and shows a cross while it is open. */
    method Toggle()
      modifies this
      ensures active == !old(active)
      ensures icon == (if active then Cross else Burger)
    {
      active := !active;
      icon := if active then Cross else Burger;
    }

    /** A document click: one outside both the menu and the toggle closes the menu. */
    method DocumentClick(inMenu: bool, inToggle: bool)
      modifies this
      ensures !inMenu && !inToggle ==> !active && icon == Burger
      ensures inMenu || inToggle ==> active == old(active) && icon == old(icon)
    {
      if !inMenu && !inToggle {
        active := false;
        icon := Burger;
      }
    }
  }

  // ---- Dropdowns -------------------------------------------------------

  /** A pending `setTimeout` that removes `active` from dropdown `item`. */
  datatype HideTimer = HideTimer(handle: nat, item: nat, due: int)

  /** The dropdown row as a value: which items are active, the pending hide
      timers, the shared `dropdownTimeout` handle (0 stands for null) and the
      handle the next `setTimeout` returns. */
  datatype Dropdowns = Dropdowns(active: seq<bool>, pending: seq<HideTimer>, handle: nat, nextHandle: nat)

  /** `clearTimeout(h)`: the timer with handle `h`, if still pending, is dropped. */
  function Cancel(pending: seq<HideTimer>, h: nat): (r: seq<HideTimer>)
    ensures forall t :: t in r <==> t in pending && t.handle != h
    ensures |r| <= |pending|
  {
    if pending == [] then []
    else (if pending[0].handle == h then [] else [pending[0]]) + Cancel(pending[1..], h)
  }

  /** A click on item `i`'s link: every other item is closed and `i` flips. */
  function ClickActive(active: seq<bool>, i: nat): (r: seq<bool>)
    requires i < |active|
    ensures |r| == |active| && r[i] == !active[i]
    ensures forall j :: 0 <= j < |r| && j != i ==> !r[j]
  {
    seq(|active|, j requires 0 <= j < |active| => if j == i then !active[i] else false)
  }

  /** Right after a click on a link at most one dropdown is open: the clicked one. */
  lemma ClickLeavesAtMostOne(active: seq<bool>, i: nat, j: nat, k: nat)
    requires i < |active| && j < |active| && k < |active|
    requires ClickActive(active, i)[j] && ClickActive(active, i)[k]
    ensures j == k == i
  {
  }

  function AllClosed(n: nat): (r: seq<bool>)
    ensures |r| == n && forall j :: 0 <= j < n ==> !r[j]
  {
    seq(n, j => false)
  }

  function Clicked(s: Dropdowns, i: nat): Dropdowns
    requires i < |s.active|
  {
    s.(active := ClickActive(s.active, i), pending := Cancel(s.pending, s.handle))
  }

  /** `mouseenter` on item `i`: the timer the shared handle names is cancelled
      and `i` opens. */
  function Entered(s: Dropdowns, i: nat): Dropdowns
    requires i < |s.active|
  {
    s.(active := s.active[i := true], pending := Cancel(s.pending, s.handle))
  }

  /** `mouseleave` on item `i` at `now`: a new 100 ms hide timer whose handle
      overwrites the shared one. */
  function Left(s: Dropdowns, i: nat, now: int): Dropdowns {
    s.(pending := s.pending + [HideTimer(s.nextHandle, i, now + 100)],
       handle := s.nextHandle, nextHandle := s.nextHandle + 1)
  }

  /** The hide timer at position `k` runs: its item closes. */
  function TimerRan(s: Dropdowns, k: nat): Dropdowns
    requires k < |s.pending| && s.pending[k].item < |s.active|
  {
    s.(active := s.active[s.pending[k].item := false], pending := s.pending[..k] + s.pending[k + 1..])
  }

  /** A click outside every dropdown: the named timer is cancelled and all close. */
  function ClickedOutside(s: Dropdowns): Dropdowns {
    s.(active := AllClosed(|s.active|), pending := Cancel(s.pending, s.handle))
  }

  /** Only the latest hide timer can be cancelled: after two `mouseleave`s,
      `mouseenter` on the first item keeps that item's timer, which then
      closes it although the pointer is back on it. */
  lemma OverwrittenTimerStillCloses(s: Dropdowns, i: nat, j: nat, t1: int, t2: int)
    requires i < |s.active| && j < |s.active|
    ensures var s3 := Entered(Left(Left(s, i, t1), j, t2), i);
      && s3.active[i]
      && HideTimer(s.nextHandle, i, t1 + 100) in s3.pending
  {
    var s1 := Left(s, i, t1);
    var s2 := Left(s1, j, t2);
    assert HideTimer(s.nextHandle, i, t1 + 100) in s2.pending by {
      assert s2.pending == s.pending + [HideTimer(s.nextHandle, i, t1 + 100)] + [HideTimer(s.nextHandle + 1, j, t2 + 100)];
    }
  }

  /** When that surviving timer runs, the hovered item closes. */
  lemma StaleTimerCloses(s: Dropdowns, k: nat)
    requires k < |s.pending| && s.pending[k].item < |s.active|
    ensures !TimerRan(s, k).active[s.pending[k].item]
  {
  }

  /** The dropdown row (`dropdownItems` with their listeners). `linked` says
      which items have a `.has-dropdown` link, the only ones with listeners;
      `mobile` is the `innerWidth <= 820` test made once on load and
      `hasNavMenu` whether the page has a `.nav-menu`. */
  class DropdownRow {
    const mobile: bool
    const hasNavMenu: bool
    const linked: seq<bool>
    const active: array<bool>
    var pending: seq<HideTimer>
    var handle: nat
    var nextHandle: nat

    function State(): Dropdowns
      reads this, active
    {
      Dropdowns(active[..], pending, handle, nextHandle)
    }

    /** Handles are positive and below `nextHandle`; timers name real items. */
    predicate Valid()
      reads this
    {
      && |linked| == active.Length && 0 < nextHandle && handle < nextHandle
      && forall t :: t in pending ==> 0 < t.handle < nextHandle && t.item < active.Length
    }

    /** On load every item loses `active`; no timer is pending. */
    constructor(linked: seq<bool>, mobile: bool, hasNavMenu: bool)
      ensures Valid() && fresh(active)
      ensures this.linked == linked && this.mobile == mobile && this.hasNavMenu == hasNavMenu
      ensures State() == Dropdowns(AllClosed(|linked|), [], 0, 1)
    {
      this.linked := linked;
      this.mobile := mobile;
      this.hasNavMenu := hasNavMenu;
      active := new bool[|linked|](j => false);
      pending := [];
      handle := 0;
      nextHandle := 1;
    }

    /** A click on item `i`'s link. */
    method Click(i: nat)
      requires Valid() && i < active.Length && linked[i]
      modifies this, active
      ensures Valid() && State() == Clicked(old(State()), i)
    {
      pending := Cancel(pending, handle);
      CloseOthersAndFlip(i);
    }

    /** The `forEach` over the items for a click on item `i`. */
    method CloseOthersAndFlip(i: nat)
      requires i < active.Length
      modifies active
      ensures active[..] == ClickActive(old(active[..]), i)
    {
      for j := 0 to active.Length
        invariant forall m :: 0 <= m < j && m != i ==> !active[m]
        invariant forall m :: j <= m < active.Length || m == i ==> active[m] == old(active[m])
      {
        if j != i {
          active[j] := false;
        }
      }
      active[i] := !active[i];
    }

    method Enter(i: nat)
      requires Valid() && i < active.Length && linked[i] && !mobile
      modifies this, active
      ensures Valid() && State() == Entered(old(State()), i)
    {
      pending := Cancel(pending, handle);
      active[i] := true;
    }

    method Leave(i: nat, now: int)
      requires Valid() && i < active.Length && linked[i] && !mobile
      modifies this
      ensures Valid() && State() == Left(old(State()), i, now)
    {
      pending := pending + [HideTimer(nextHandle, i, now + 100)];
      handle := nextHandle;
      nextHandle := nextHandle + 1;
    }

    /** The event loop runs the hide timer at position `k` once it is due. */
    method RunTimer(k: nat, now: int)
      requires Valid() && k < |pending| && pending[k].due <= now
      modifies this, active
      ensures Valid() && State() == TimerRan(old(State()), k)
    {
      assert pending[k] in pending;
      active[pending[k].item] := false;
      pending := pending[..k] + pending[k + 1..];
    }

    /** A document click; outside every dropdown it cancels the named timer
        and closes all items. */
    method DocumentClick(inDropdown: bool)
      requires Valid()
      modifies this, active
      ensures Valid()
      ensures State() == if inDropdown then old(State()) else ClickedOutside(old(State()))
    {
      if !inDropdown {
        pending := Cancel(pending, handle);
        CloseAll();
      }
    }

    /** On mobile, a click outside the nav menu and the navbar actions closes all
        items without touching the timers; without a nav menu it does nothing. */
    method MobileDocumentClick(inMenu: bool, inActions: bool)
      requires Valid() && mobile
      modifies active
      ensures Valid()
      ensures hasNavMenu && !inMenu && !inActions ==> active[..] == AllClosed(active.Length)
      ensures !hasNavMenu || inMenu || inActions ==> active[..] == old(active[..])
    {
      if hasNavMenu && !inMenu && !inActions {
        CloseAll();
      }
    }

    method CloseAll()
      modifies active
      ensures active[..] == AllClosed(active.Length)
    {
      for j := 0 to active.Length
        invariant forall m :: 0 <= m < j ==> !active[m]
      {
        active[j] := false;
      }
    }
  }

  // ---- Current page and active links ---------------------------------

  /** `path.split('/').pop()`: the text after the last '/', or all of `path`
      when it has none. */
  function LastSegment(path: string): (r: string)
    ensures '/' !in r && |r| <= |path| && r == path[|path| - |r|..]
    ensures |r| < |path| ==> path[|path| - |r| - 1] == '/'
  {
    if path == [] || path[|path| - 1] == '/' then []
    else LastSegment(path[..|path| - 1]) + [path[|path| - 1]]
  }

  /** The segment is the only '/'-free suffix that follows a '/' or starts the path. */
  lemma {:induction false} LastSegmentUnique(path: string, s: string)
    requires '/' !in s && |s| <= |path| && s == path[|path| - |s|..]
    requires |s| < |path| ==> path[|path| - |s| - 1] == '/'
    ensures s == LastSegment(path)
    decreases |path|
  {
    if path != [] {
      var init := path[..|path| - 1];
      var c := path[|path| - 1];
      assert |s| > 0 ==> s[|s| - 1] == c;
      assert |s| == 0 ==> path[|path| - 1] == '/';
      if c != '/' {
        var s' := s[..|s| - 1];
        assert s == s' + [c];
        assert s' == init[|init| - |s'|..];
        assert '/' !in s' && |s'| <= |init|;
        assert |s'| < |init| ==> init[|init| - |s'| - 1] == '/';
        LastSegmentUnique(init, s');
      }
    }
  }

  /** The page name `currentPage`: the last segment, or "index.html" for a path
      ending in '/'. */
  function CurrentPage(path: string): (page: string)
    ensures page != ""
    ensures LastSegment(path) != "" ==> page == LastSegment(path)
  {
    if LastSegment(path) == "" then "index.html" else LastSegment(path)
  }

  /** A link of `navLinks`: its `href` attribute, and the index of the parent
      `.has-dropdown` link when it sits inside a dropdown item that has one. */
  datatype NavLink = NavLink(href: Option<string>, parent: Option<nat>)

  /** The link matches the current page. The second test of the source, for an
      empty page name, can never hold, because `CurrentPage` is never empty. */
  predicate LinkMatches(link: NavLink, page: string) {
    link.href == Some(page) || (page == "" && link.href == Some("index.html"))
  }

  /** Link `k` is marked by one of the first `n` links: it matches itself, or
      it is the parent of a matching link. */
  predicate MarkedBy(links: seq<NavLink>, page: string, n: nat, k: nat)
    requires n <= |links|
  {
    exists m | 0 <= m < n :: LinkMatches(links[m], page) && (m == k || links[m].parent == Some(k))
  }

  /** `active` after the first `n` passes of the marking loop: what it was,
      or marked by one of the first `n` links. */
  function MarkedUpTo(init: seq<bool>, links: seq<NavLink>, page: string, n: nat): (r: seq<bool>)
    requires |init| == |links| && n <= |links|
    ensures |r| == |init|
  {
    seq(|init|, k requires 0 <= k < |init| => init[k] || MarkedBy(links, page, n, k))
  }

  /** `active` after the marking loop. */
  function MarkedActive(init: seq<bool>, links: seq<NavLink>, page: string): (r: seq<bool>)
    requires |init| == |links|
    ensures |r| == |init|
    ensures forall k :: 0 <= k < |r| ==> r[k] == (init[k] || MarkedBy(links, page, |links|, k))
  {
    MarkedUpTo(init, links, page, |links|)
  }

  /** A link that is not the page and not the parent of a link to it keeps its state. */
  lemma UnrelatedLinkUnchanged(init: seq<bool>, links: seq<NavLink>, page: string, k: nat)
    requires |init| == |links| && k < |links| && page != ""
    requires links[k].href != Some(page)
    requires forall m :: 0 <= m < |links| && links[m].href == Some(page) ==> links[m].parent != Some(k)
    ensures MarkedActive(init, links, page)[k] == init[k]
  {
  }

  /** One pass of the loop: a matching link sets itself and its parent. */
  function Touch(s: seq<bool>, link: NavLink, i: nat, page: string): (r: seq<bool>)
    requires i < |s| && (link.parent.Some? ==> link.parent.value < |s|)
    ensures |r| == |s|
  {
    if !LinkMatches(link, page) then s
    else if link.parent.Some? then s[i := true][link.parent.value := true]
    else s[i := true]
  }

  /** Marks the current page's links and their dropdown parents `active`. */
  method MarkActiveLinks(active: array<bool>, links: seq<NavLink>, path: string)
    requires active.Length == |links|
    requires forall m :: 0 <= m < |links| && links[m].parent.Some? ==> links[m].parent.value < |links|
    modifies active
    ensures active[..] == MarkedActive(old(active[..]), links, CurrentPage(path))
  {
    var page := CurrentPage(path);
    MarkPageLinks(active, links, page);
  }

  /** The marking loop over `navLinks` for a given page name. */
  method MarkPageLinks(active: array<bool>, links: seq<NavLink>, page: string)
    requires active.Length == |links|
    requires forall m :: 0 <= m < |links| && links[m].parent.Some? ==> links[m].parent.value < |links|
    modifies active
    ensures active[..] == MarkedActive(old(active[..]), links, page)
  {
    ghost var init := active[..];
    for i := 0 to |links|
      invariant active[..] == MarkedUpTo(init, links, page, i)
    {
      ghost var before := active[..];
      var link := links[i];
      if link.href == Some(page) || (page == "" && link.href == Some("index.html")) {
        active[i] := true;
        if link.parent.Some? {
          active[link.parent.value] := true;
        }
      }
      assert active[..] == Touch(before, link, i, page);
      MarkStep(init, links, page, i);
    }
  }

  /** One pass of the marking loop takes the first `i` links' marks to the
      first `i + 1` links' marks. */
  lemma MarkStep(init: seq<bool>, links: seq<NavLink>, page: string, i: nat)
    requires |init| == |links| && i < |links|
    requires links[i].parent.Some? ==> links[i].parent.value < |links|
    ensures MarkedUpTo(init, links, page, i + 1) == Touch(MarkedUpTo(init, links, page, i), links[i], i, page)
  {
    var a, b := MarkedUpTo(init, links, page, i + 1), Touch(MarkedUpTo(init, links, page, i), links[i], i, page);
    forall k | 0 <= k < |links| ensures a[k] == b[k] {
      MarkedByStep(links, page, i, k);
    }
  }

  /** One more link marks `k` when it matches and is `k` or `k`'s child. */
  lemma MarkedByStep(links: seq<NavLink>, page: string, i: nat, k: nat)
    requires i < |links|
    ensures MarkedBy(links, page, i + 1, k) == (MarkedBy(links, page, i, k)
      || (LinkMatches(links[i], page) && (i == k || links[i].parent == Some(k))))
  {
    if LinkMatches(links[i], page) && (i == k || links[i].parent == Some(k)) {
      assert MarkedBy(links, page, i + 1, k);
    }
  }

  // ---- Back to top -----------------------------------------------------

  class BackToTop {
    var visible: bool

    /** Page load registers the scroll listener only: whether the button
        shows comes from the page markup until the first scroll event. */
    constructor(visible: bool)
      ensures this.visible == visible
    {
      this.visible := visible;
    }

    /** A scroll event: the button shows exactly when the page is scrolled
        more than 300 pixels. */
    method Scroll(offset: real)
      modifies this
      ensures visible <==> offset > 300.0
    {
      if offset > 300.0 {
        visible := true;
      } else {
        visible := false;
      }
    }
  }
}
