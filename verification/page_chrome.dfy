/** The page-wide behaviour of `assets/js/main.js`: the e-mail check used by
    forms, the mobile menu's open and closed states, the two scroll
    thresholds, and the anchor-link scroll that leaves room for the fixed
    header. */
module PageChrome {
  import opened Wrappers
  import opened Text

  // ---------------------------------------------------------------------------
  // `validateEmail`: /^[^\s@]+@[^\s@]+\.[^\s@]+$/
  // ---------------------------------------------------------------------------

  /** `[^\s@]` */
  predicate Plain(c: char) {
    !IsJsSpace(c) && c != '@'
  }

  /** `[^\s@]+` matches `s[lo..hi]`. */
  predicate PlainRun(s: string, lo: int, hi: int)
    requires 0 <= lo <= hi <= |s|
  {
    lo < hi && forall k :: lo <= k < hi ==> Plain(s[k])
  }

  /** The pattern read as a decomposition: a run before an `@` at `at`, a run
      up to a `.` at `dot`, and a run to the end. */
  predicate SplitsAt(s: string, at: int, dot: int) {
    0 <= at < dot < |s| && s[at] == '@' && s[dot] == '.'
    && PlainRun(s, 0, at) && PlainRun(s, at + 1, dot) && PlainRun(s, dot + 1, |s|)
  }

  /** Some split of the text matches the pattern (the expression backtracks
      over every choice of the dot). */
  ghost predicate MatchesEmailPattern(s: string) {
    exists at, dot :: SplitsAt(s, at, dot)
  }

  /** The first position of `c` in `s`, or -1. */
  function IndexOf(s: string, c: char): (r: int)
    ensures -1 <= r < |s|
    ensures r == -1 <==> c !in s
    ensures r >= 0 ==> s[r] == c && c !in s[..r]
  {
    if s == [] then -1
    else if s[0] == c then 0
    else
      var r := IndexOf(s[1..], c);
      if r == -1 then -1
      else assert s[..r + 1] == [s[0]] + s[1..][..r]; r + 1
  }

  /** `validateEmail(email)` as a direct check: no white space anywhere, one
      `@` that is not first, and after it a `.` with at least one character
      on each side. */
  function ValidateEmail(s: string): (ok: bool)
    ensures ok ==> |s| >= 5 && s[0] != '@' && s[|s| - 1] != '@' && '@' in s
  {
    var at := IndexOf(s, '@');
    at > 0 && at + 2 <= |s| - 1 && '@' !in s[at + 1..]
    && (forall k :: 0 <= k < |s| ==> !IsJsSpace(s[k]))
    && '.' in s[at + 2..|s| - 1]
  }

  /** The direct check accepts exactly the texts the pattern matches. */
  lemma ValidateEmailMatchesPattern(s: string)
    ensures ValidateEmail(s) <==> MatchesEmailPattern(s)
  {
    if ValidateEmail(s) {
      var at := IndexOf(s, '@');
      var mid := s[at + 2..|s| - 1];
      var j :| 0 <= j < |mid| && mid[j] == '.';
      var dot := at + 2 + j;
      assert s[dot] == '.';
      forall k | 0 <= k < at ensures Plain(s[k]) {
        assert s[..at][k] == s[k];
      }
      forall k | at + 1 <= k < |s| ensures s[k] != '@' {
        assert s[at + 1..][k - at - 1] == s[k];
      }
      assert SplitsAt(s, at, dot);
    }
    if MatchesEmailPattern(s) {
      var at, dot :| SplitsAt(s, at, dot);
      PatternForces(s, at, dot);
    }
  }

  /** A matching split pins the `@` and leaves the direct check nothing to
      object to. */
  lemma PatternForces(s: string, at: int, dot: int)
    requires SplitsAt(s, at, dot)
    ensures ValidateEmail(s)
  {
    assert '@' !in s[..at] by {
      forall k | 0 <= k < at ensures s[..at][k] != '@' {
        assert s[..at][k] == s[k];
      }
    }
    assert IndexOf(s, '@') == at;
    forall k | 0 <= k < |s| ensures !IsJsSpace(s[k]) {
      if k != at && k != dot {
        assert Plain(s[k]);
      }
    }
    assert '@' !in s[at + 1..] by {
      forall k | at + 1 <= k < |s| ensures s[k] != '@' {
        if k != dot {
          assert Plain(s[k]);
        }
      }
    }
    assert s[at + 2..|s| - 1][dot - at - 2] == '.';
  }

  lemma AcceptsAddress()
    ensures ValidateEmail("preot@parohia.ro")
  {
    var s := "preot@parohia.ro";
    assert SplitsAt(s, 5, 13);
    PatternForces(s, 5, 13);
  }

  lemma RejectsMalformed()
    ensures !ValidateEmail("a b@c.ro")
    ensures !ValidateEmail("@c.ro")
    ensures !ValidateEmail("a@b@c.ro")
  {
    assert IsJsSpace("a b@c.ro"[1]);
    assert IndexOf("@c.ro", '@') == 0;
    var t := "a@b@c.ro";
    assert IndexOf(t, '@') == 1;
    assert t[2..][1] == '@';
  }

  // ---------------------------------------------------------------------------
  // The mobile menu.
  // ---------------------------------------------------------------------------

  /** The toggle's `aria-expanded`, the menu's `active` class, whether the
      body's scrolling is switched off, and whether a handler has moved focus
      to the toggle. */
  datatype Menu = Menu(expanded: bool, active: bool, scrollLocked: bool, toggleFocused: bool)

  /** The three agree: the menu is either open everywhere or closed everywhere. */
  predicate Coherent(m: Menu) {
    m.expanded == m.active && m.active == m.scrollLocked
  }

  /** Closed everywhere. */
  predicate Shut(m: Menu) {
    !m.expanded && !m.active && !m.scrollLocked
  }

  /** A click on the toggle: `aria-expanded` flips, the class toggles, and the
      scroll is locked exactly when the menu was closed. */
  function ToggleMenu(m: Menu): (r: Menu)
    ensures r.expanded == !m.expanded && r.active == !m.active && r.scrollLocked == !m.expanded
    ensures r.toggleFocused == m.toggleFocused
    ensures Coherent(m) ==> Coherent(r)
  {
    m.(expanded := !m.expanded, active := !m.active, scrollLocked := !m.expanded)
  }

  /** A click, key or resize that may close the menu. */
  datatype Trigger = ClickOutside | ClickInside | Key(key: string) | ResizeTo(width: int)

  /** The closing handlers: a click outside the toggle and the menu, Escape
      while the menu is active, or a viewport of 1024 pixels or more shut the
      menu, and Escape also moves focus to the toggle; anything else leaves the
      menu alone. */
  function HandleTrigger(m: Menu, t: Trigger): (r: Menu)
    ensures r == m || Shut(r)
    ensures r.toggleFocused == (m.toggleFocused || (t == Key("Escape") && m.active))
    ensures t == ClickOutside ==> Shut(r)
    ensures t == Key("Escape") ==> (Shut(r) <==> m.active || Shut(m))
    ensures t.ResizeTo? && t.width >= 1024 ==> Shut(r)
    ensures t == ClickInside || (t.ResizeTo? && t.width < 1024) ==> r == m
  {
    var shut := m.(expanded := false, active := false, scrollLocked := false);
    match t
    case ClickOutside => shut
    case ClickInside => m
    case Key(k) => if k == "Escape" && m.active then shut.(toggleFocused := true) else m
    case ResizeTo(w) => if w >= 1024 then shut else m
  }

  /** Every handler keeps the three indicators in agreement. */
  lemma MenuStaysCoherent(m: Menu, t: Trigger)
    requires Coherent(m)
    ensures Coherent(ToggleMenu(m)) && Coherent(HandleTrigger(m, t))
  {
  }

  /** Closing twice is closing once, and two toggles restore the menu. */
  lemma MenuIdempotence(m: Menu, t: Trigger)
    ensures HandleTrigger(HandleTrigger(m, t), t) == HandleTrigger(m, t)
    ensures ToggleMenu(ToggleMenu(m)) == m || !Coherent(m)
  {
  }

  // ---------------------------------------------------------------------------
  // Scrolling.
  // ---------------------------------------------------------------------------

  datatype Shadow = Light | Strong

  /** The header's shadow for a vertical scroll position. */
  function HeaderShadow(scrollY: int): (s: Shadow)
    ensures s == Strong <==> scrollY > 50
  {
    if scrollY > 50 then Strong else Light
  }

  /** The scroll-to-top button is displayed past 300 pixels. */
  function ScrollTopVisible(scrollY: int): (visible: bool)
    ensures visible <==> scrollY > 300
  {
    scrollY > 300
  }

  /** Wherever the scroll-to-top button shows, the header has its strong
      shadow, and both only switch on further down the page. */
  lemma ThresholdsNest(y1: int, y2: int)
    requires y1 <= y2
    ensures ScrollTopVisible(y1) ==> HeaderShadow(y1) == Strong
    ensures ScrollTopVisible(y1) ==> ScrollTopVisible(y2)
    ensures HeaderShadow(y1) == Strong ==> HeaderShadow(y2) == Strong
  {
  }

  const HeaderOffset := 80

  /** A smooth scroll: where the window goes, and the URL pushed. */
  datatype Jump = Jump(top: int, url: string)

  /** A click on an in-page link: `#` alone and a missing target do nothing;
      otherwise the window scrolls so the target sits 80 pixels below the top,
      and the link's `href` is pushed to the history. `targetTop` is the
      target's distance from the top of the viewport, `None` when no element
      matches. */
  function AnchorClick(href: string, targetTop: Option<int>, pageY: int): (r: Option<Jump>)
    ensures href == "#" || targetTop.None? ==> r.None?
    ensures href != "#" && targetTop.Some? ==> r.Some?
    ensures r.Some? ==> r.value.url == href && r.value.top == targetTop.value + pageY - HeaderOffset
  {
    if href == "#" then None
    else match targetTop
      case None => None
      case Some(top) => Some(Jump(top + pageY - HeaderOffset, href))
  }

  /** The jump depends only on where the target sits in the document, not on
      how far the page was scrolled; once there, the target is 80 pixels below
      the top and clicking the link again scrolls nowhere else. */
  lemma AnchorClickSettles(href: string, top: int, pageY: int, otherY: int)
    requires href != "#"
    ensures var r := AnchorClick(href, Some(top), pageY);
      r.Some?
      && AnchorClick(href, Some(top + pageY - otherY), otherY) == r
      && AnchorClick(href, Some(HeaderOffset), r.value.top) == r
  {
  }
}
