/** The page-level controllers of assets/js/main.js that `initializeApp` wires
    up: the light/dark theme toggle, the mobile navigation drawer, the
    highlighting of the current page's navigation link, and the gallery filter. */
module PageControls {
  import opened Wrappers
  import opened Dom

  // ===== Theme =====

  /** The key the theme preference is stored under. */
  const ThemeKey: string := "theme"

  /** What a toggle's icon shows: a sun while the page is dark (offering
      light), a moon otherwise. */
  datatype Icon = Sun | Moon

  function IconFor(theme: string): (icon: Icon)
    ensures icon == Sun <==> theme == "dark"
  {
    if theme == "dark" then Sun else Moon
  }

  /** The theme applied at page load: the stored string when there is a
      non-empty one (whatever it says), `"light"` otherwise. */
  function InitialTheme(stored: Option<string>): (theme: string)
    ensures theme != ""
    ensures stored.Some? && stored.value != "" ==> theme == stored.value
    ensures stored.None? || stored.value == "" ==> theme == "light"
  {
    if stored.Some? && stored.value != "" then stored.value else "light"
  }

  /** The theme a click switches to: `"light"` from `"dark"`, and `"dark"`
      from anything else, including a missing attribute or an unrecognised
      stored value. */
  function NextTheme(current: Option<string>): (next: string)
    ensures next == "light" || next == "dark"
    ensures next == "light" <==> current == Some("dark")
  {
    if current == Some("dark") then "light" else "dark"
  }

  /** Two clicks come back to where they started exactly when the starting
      theme is one of the two real themes. */
  lemma NextThemeTwice(t: string)
    ensures NextTheme(Some(NextTheme(Some(t)))) == t <==> t == "dark" || t == "light"
  {
  }

  /** A theme-toggle button; only one holding an `svg` gets its icon redrawn. */
  class ThemeToggle {
    const hasSvg: bool
    var icon: Icon

    constructor (hasSvg: bool, icon: Icon)
      ensures this.hasSvg == hasSvg && this.icon == icon
    {
      this.hasSvg := hasSvg;
      this.icon := icon;
    }
  }

  /** The theme state of one page: the `data-theme` attribute of the document
      element, the origin's local storage, and the page's toggle buttons. */
  class ThemeState {
    var dataTheme: Option<string>
    var storage: map<string, string>
    const toggles: seq<ThemeToggle>

    constructor (storage: map<string, string>, toggles: seq<ThemeToggle>)
      ensures this.dataTheme == None && this.storage == storage && this.toggles == toggles
    {
      this.dataTheme := None;
      this.storage := storage;
      this.toggles := toggles;
    }

    function StoredTheme(): (stored: Option<string>)
      reads this
      ensures stored.Some? <==> ThemeKey in storage
      ensures stored.Some? ==> stored.value == storage[ThemeKey]
    {
      if ThemeKey in storage then Some(storage[ThemeKey]) else None
    }

    /** Every toggle that has an icon shows the one for `theme`. */
    ghost predicate TogglesShow(theme: string)
      reads this, toggles
    {
      forall t :: t in toggles && t.hasSvg ==> t.icon == IconFor(theme)
    }

    /** `updateThemeToggle` applied to every toggle in turn. */
    method UpdateToggles(theme: string)
      modifies toggles
      ensures TogglesShow(theme)
      ensures forall t :: t in toggles && !t.hasSvg ==> t.icon == old(t.icon)
    {
      var i := 0;
      while i < |toggles|
        invariant 0 <= i <= |toggles|
        invariant forall t :: t in toggles[..i] && t.hasSvg ==> t.icon == IconFor(theme)
        invariant forall t :: t in toggles && t !in toggles[..i] ==> t.icon == old(t.icon)
        invariant forall t :: t in toggles && !t.hasSvg ==> t.icon == old(t.icon)
      {
        var toggle := toggles[i];
        if toggle.hasSvg {
          toggle.icon := IconFor(theme);
        }
        assert toggles[..i + 1] == toggles[..i] + [toggle];
        i := i + 1;
      }
      assert toggles[..i] == toggles;
    }

    /** `setupDarkMode`: applies the stored theme (or light) to the document
      and to every toggle; storage is only read. */
    method SetupDarkMode()
      modifies this`dataTheme, toggles
      ensures dataTheme == Some(InitialTheme(StoredTheme()))
      ensures TogglesShow(InitialTheme(StoredTheme()))
      ensures forall t :: t in toggles && !t.hasSvg ==> t.icon == old(t.icon)
    {
      var savedTheme := InitialTheme(StoredTheme());
      dataTheme := Some(savedTheme);
      UpdateToggles(savedTheme);
    }

    /** The click handler of every toggle: switches the theme, stores it, and
      redraws every toggle, so that afterwards the document, the stored
      preference and the icons agree; other storage entries are untouched. */
    method ToggleTheme()
      modifies this`dataTheme, this`storage, toggles
      ensures dataTheme == Some(NextTheme(old(dataTheme)))
      ensures storage == old(storage)[ThemeKey := NextTheme(old(dataTheme))]
      ensures StoredTheme() == dataTheme
      ensures TogglesShow(NextTheme(old(dataTheme)))
      ensures forall t :: t in toggles && !t.hasSvg ==> t.icon == old(t.icon)
    {
      var newTheme := NextTheme(dataTheme);
      dataTheme := Some(newTheme);
      storage := storage[ThemeKey := newTheme];
      UpdateToggles(newTheme);
    }
  }

  // ===== Mobile menu =====

  const MobileActive: string := "mobile-active"

  /** The drawer controls of `setupMobileMenu`: the `.menu-toggle` button, the
      `.nav-center` drawer and the document body whose `overflow` locks
      scrolling. */
  class MobileMenu {
    const toggle: Element
    const nav: Element
    const body: Element

    /** The drawer starts closed: the drawer and the button carry no marker
      class and scroll is not locked, so the three agree from the start. */
    constructor (toggle: Element, nav: Element, body: Element)
      requires toggle != nav && toggle != body && nav != body
      requires MobileActive !in nav.classes && Active !in toggle.classes
      requires !("overflow" in body.style && body.style["overflow"] == "hidden")
      ensures this.toggle == toggle && this.nav == nav && this.body == body
      ensures Valid()
    {
      this.toggle := toggle;
      this.nav := nav;
      this.body := body;
    }

    ghost predicate Distinct() {
      toggle != nav && toggle != body && nav != body
    }

    predicate IsOpen()
      reads nav
    {
      MobileActive in nav.classes
    }

    predicate ScrollLocked()
      reads body
    {
      "overflow" in body.style && body.style["overflow"] == "hidden"
    }

    /** The drawer is open exactly when the toggle shows as active and exactly
      when page scroll is locked. */
    ghost predicate Valid()
      reads this, toggle, nav, body
    {
      Distinct() && (IsOpen() <==> Active in toggle.classes) && (IsOpen() <==> ScrollLocked())
    }

    /** A click on the menu button flips the drawer and the button, then locks
      scroll when the drawer is now open and releases it otherwise. */
    method ClickToggle()
      requires Valid()
      modifies toggle`classes, nav`classes, body`style
      ensures Valid()
      ensures IsOpen() == !old(IsOpen())
      ensures nav.classes - {MobileActive} == old(nav.classes) - {MobileActive}
      ensures toggle.classes - {Active} == old(toggle.classes) - {Active}
      ensures body.style == old(body.style)["overflow" := if IsOpen() then "hidden" else ""]
    {
      nav.classes := WithClass(nav.classes, MobileActive, MobileActive !in nav.classes);
      toggle.classes := WithClass(toggle.classes, Active, Active !in toggle.classes);
      if MobileActive in nav.classes {
        body.style := body.style["overflow" := "hidden"];
      } else {
        body.style := body.style["overflow" := ""];
      }
    }

    /** Closes the drawer, releases scroll: what a click on a navigation link
      does, and what a click outside the header does. */
    method Close()
      requires Distinct()
      modifies toggle`classes, nav`classes, body`style
      ensures Valid() && !IsOpen()
      ensures nav.classes == old(nav.classes) - {MobileActive}
      ensures toggle.classes == old(toggle.classes) - {Active}
      ensures body.style == old(body.style)["overflow" := ""]
    {
      nav.classes := nav.classes - {MobileActive};
      toggle.classes := toggle.classes - {Active};
      body.style := body.style["overflow" := ""];
    }

    /** The document click handler: a click whose target lies outside the
      header closes the drawer; one inside it changes nothing. */
    method ClickDocument(targetInHeader: bool)
      requires Valid()
      modifies toggle`classes, nav`classes, body`style
      ensures Valid()
      ensures targetInHeader ==> unchanged(toggle, nav, body)
      ensures !targetInHeader ==> !IsOpen() && body.style == old(body.style)["overflow" := ""]
      ensures !targetInHeader ==> nav.classes == old(nav.classes) - {MobileActive}
      ensures !targetInHeader ==> toggle.classes == old(toggle.classes) - {Active}
    {
      if !targetInHeader {
        Close();
      }
    }
  }

  // ===== Navigation =====

  /** The part of `path` after its last `/`: what `split('/').pop()` yields. */
  function LastSegment(path: string): string {
    if path == [] || path[|path| - 1] == '/' then []
    else LastSegment(path[..|path| - 1]) + [path[|path| - 1]]
  }

  /** The last segment holds no `/`, it ends `path`, and it is either all of
      `path` or preceded by a `/`. */
  lemma {:induction false} LastSegmentMeaning(path: string)
    ensures var seg := LastSegment(path);
      && '/' !in seg
      && |seg| <= |path| && seg == path[|path| - |seg|..]
      && (|seg| < |path| ==> path[|path| - |seg| - 1] == '/')
  {
    if path != [] && path[|path| - 1] != '/' {
      var init, last := path[..|path| - 1], path[|path| - 1];
      LastSegmentMeaning(init);
      var before := LastSegment(init);
      var seg := LastSegment(path);
      assert seg == before + [last];
      assert '/' !in seg;
      var start := |init| - |before|;
      assert path[start..] == path[start..|init|] + [last];
      assert path[start..|init|] == init[start..];
      if start > 0 {
        assert path[start - 1] == init[start - 1];
      }
    }
  }

  /** The current page's identifier: the last path segment, or `index.html`
      when that is empty. It is never empty. */
  function CurrentPage(path: string): (page: string)
    ensures page != ""
  {
    var seg := LastSegment(path);
    if seg == "" then "index.html" else seg
  }

  /** A file name after a directory is the page identifier, whatever the
      directory. */
  lemma {:induction false} CurrentPageOfFile(dir: string, name: string)
    requires name != "" && '/' !in name
    ensures CurrentPage(dir + "/" + name) == name
  {
    LastSegmentOfFile(dir, name);
  }

  lemma {:induction false} LastSegmentOfFile(dir: string, name: string)
    requires '/' !in name
    ensures LastSegment(dir + "/" + name) == name
    decreases |name|
  {
    var path := dir + "/" + name;
    if name != [] {
      var init := name[..|name| - 1];
      assert path[..|path| - 1] == dir + "/" + init;
      LastSegmentOfFile(dir, init);
      assert name == init + [name[|name| - 1]];
    }
  }

  /** Whether a link with this `href` is the current page's link; the two
      extra disjuncts of the source are kept although a current page is never
      empty and the third repeats the first. */
  predicate LinkMatches(href: Option<string>, currentPage: string) {
    || href == Some(currentPage)
    || (currentPage == "" && href == Some("index.html"))
    || (currentPage == "index.html" && href == Some("index.html"))
  }

  /** The extra disjuncts add nothing for a page identifier, which is never
      empty: a link matches exactly when its `href` is the current page. */
  lemma LinkMatchesIsEquality(href: Option<string>, currentPage: string)
    requires currentPage != ""
    ensures LinkMatches(href, currentPage) <==> href == Some(currentPage)
  {
  }

  /** A link whose `active` class has been set from whether it is the
      current page's link. */
  twostate predicate NavMarked(e: Element, currentPage: string)
    reads e
  {
    e.classes == WithClass(old(e.classes), Active, e.Attr("href") == Some(currentPage))
  }

  /** The loop body of `setupNavigation`, for one link. */
  method MarkLink(link: Element, currentPage: string)
    requires currentPage != ""
    modifies link`classes
    ensures NavMarked(link, currentPage)
  {
    link.classes := link.classes - {Active};
    var linkPage := link.Attr("href");
    LinkMatchesIsEquality(linkPage, currentPage);
    if LinkMatches(linkPage, currentPage) {
      link.classes := link.classes + {Active};
    }
  }

  /** `setupNavigation`: every link loses `active` and gets it back exactly
      when its `href` is the current page; other classes are untouched. Links
      sharing that `href` are all active, and with no match none is. */
  method SetupNavigation(links: seq<Element>, path: string)
    modifies links`classes
    ensures forall e :: e in links ==> NavMarked(e, CurrentPage(path))
  {
    var currentPage := CurrentPage(path);
    var i := 0;
    while i < |links|
      invariant 0 <= i <= |links|
      invariant forall e :: e in links[..i] ==> NavMarked(e, currentPage)
      invariant forall e :: e in links && e !in links[..i] ==> e.classes == old(e.classes)
    {
      var link := links[i];
      MarkLink(link, currentPage);
      assert NavMarked(link, currentPage) by {
        if link in links[..i] {
          WithClassIdempotent(old(link.classes), Active, link.Attr("href") == Some(currentPage));
        }
      }
      assert links[..i + 1] == links[..i] + [link];
      i := i + 1;
    }
    assert links[..i] == links;
  }

  // ===== Gallery filter =====

  /** An item is shown when the filter is `all` or names its category. Two
      missing attributes compare equal, as `null === null` does. */
  predicate Shown(filter: Option<string>, category: Option<string>) {
    filter == Some("all") || category == filter
  }

  /** With the wildcard every item is shown; with any other filter an item
      is shown exactly when its category is that filter. */
  lemma ShownIff(filter: Option<string>, category: Option<string>)
    ensures filter == Some("all") ==> Shown(filter, category)
    ensures filter != Some("all") ==> (Shown(filter, category) <==> category == filter)
  {
  }

  /** The inline style an item settles on once its fade has run: on display
      and fully opaque when shown, off display and faded out otherwise. */
  function SettledStyle(style: map<string, string>, shown: bool): map<string, string>
  {
    if shown then style["display" := "block"]["opacity" := "1"]["transform" := "scale(1)"]
    else style["opacity" := "0"]["transform" := "scale(0.8)"]["display" := "none"]
  }

  /** A shown item is displayed as a block and a hidden one not displayed;
      only the display, opacity and transform properties are touched. */
  lemma SettledStyleMeaning(style: map<string, string>, shown: bool)
    ensures var r := SettledStyle(style, shown);
      && "display" in r && (r["display"] == "block" <==> shown) && (r["display"] == "none" <==> !shown)
      && r.Keys == style.Keys + {"display", "opacity", "transform"}
      && forall k :: k in style && k !in {"display", "opacity", "transform"} ==> r[k] == style[k]
  {
  }

  /** Filtering again with the same filter changes nothing. */
  lemma SettledStyleIdempotent(style: map<string, string>, shown: bool)
    ensures SettledStyle(SettledStyle(style, shown), shown) == SettledStyle(style, shown)
  {
  }

  /** An item has settled for `filter` since the previous state. */
  twostate predicate Settled(e: Element, filter: Option<string>)
    reads e
  {
    e.style == SettledStyle(old(e.style), Shown(filter, e.Attr("data-category")))
  }

  /** The timer callback for one item, run to completion. */
  method Settle(item: Element, filter: Option<string>)
    modifies item`style
    ensures Settled(item, filter)
  {
    item.style := SettledStyle(item.style, Shown(filter, item.Attr("data-category")));
  }

  /** A click on a filter button (when the page has both buttons and items):
      the clicked button becomes the only active one, and every item settles
      shown or hidden by its category. */
  method ClickFilter(buttons: seq<Element>, clicked: Element, items: seq<Element>)
    requires clicked in buttons
    modifies buttons, items
    ensures |items| == 0 ==> forall e :: e in buttons ==> e.classes == old(e.classes)
    ensures |items| > 0 ==> forall e :: e in buttons ==> e.classes == WithClass(old(e.classes), Active, e == clicked)
    ensures |items| > 0 ==> forall e :: e in buttons ==> (Active in e.classes <==> e == clicked)
    ensures forall e :: e in items && e !in buttons ==> e.classes == old(e.classes)
    ensures |items| > 0 ==> forall e :: e in items ==> Settled(e, clicked.Attr("data-filter"))
    ensures forall e :: e in buttons && e !in items ==> e.style == old(e.style)
    ensures forall e :: e in buttons + items ==> e.content == old(e.content)
  {
    if |items| == 0 {
      return;
    }
    var filter := clicked.Attr("data-filter");
    SelectOnly(buttons, clicked, Active);
    SettleAll(items, filter);
  }

  /** Every item's timer callback, run to completion. */
  method SettleAll(items: seq<Element>, filter: Option<string>)
    modifies items`style
    ensures forall e :: e in items ==> Settled(e, filter)
  {
    var i := 0;
    while i < |items|
      invariant 0 <= i <= |items|
      invariant forall e :: e in items[..i] ==> Settled(e, filter)
      invariant forall e :: e in items && e !in items[..i] ==> e.style == old(e.style)
    {
      var item := items[i];
      Settle(item, filter);
      assert Settled(item, filter) by {
        if item in items[..i] {
          SettledStyleIdempotent(old(item.style), Shown(filter, item.Attr("data-category")));
        }
      }
      assert items[..i + 1] == items[..i] + [item];
      i := i + 1;
    }
    assert items[..i] == items;
  }
}
