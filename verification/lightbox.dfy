/** The photo lightbox of `assets/js/lightbox.js`: a circular index over the
    thumbnails captured when the page loaded, the content the overlay shows
    for that index, keyboard and swipe navigation, and the Tab wrap that keeps
    focus inside the overlay. */
module Lightbox {
  import opened Wrappers
  import opened Text
  import Dates

  // ---------------------------------------------------------------------------
  // JavaScript's remainder.
  // ---------------------------------------------------------------------------

  /** `a % n` for a positive `n`: the remainder truncates toward zero, so it
      takes the sign of `a`. */
  function JsRem(a: int, n: int): (r: int)
    requires n > 0
    ensures a >= 0 ==> 0 <= r < n && r == a % n
    ensures a < 0 ==> -n < r <= 0 && r == -((-a) % n)
    ensures (a - r) % n == 0
  {
    if a >= 0 then
      Dates.DivModUnique(a - a % n, n, a / n, 0);
      a % n
    else
      var q := (-a) / n;
      assert a + (-a) % n == n * -q;
      Dates.DivModUnique(n * -q, n, -q, 0);
      -((-a) % n)
  }

  // ---------------------------------------------------------------------------
  // State.
  // ---------------------------------------------------------------------------

  /** A gallery `img`: its `src`, `alt` and `data-caption` (absent when the
      attribute is missing). */
  datatype Thumb = Thumb(src: string, alt: string, caption: Option<string>)

  /** What the overlay displays: image, caption and the `i / n` counter. */
  datatype Content = Content(src: string, alt: string, caption: string, counter: string)

  datatype Focus = Elsewhere | CloseButton | ThumbAt(position: int)

  /** `images`, `currentIndex`, whether the overlay is displayed (and the body
      scroll locked with it), the overlay's content, whether the previous and
      next buttons are displayed, and where focus is. */
  datatype LightboxState = LightboxState(images: seq<Thumb>, index: int, visible: bool, bodyLocked: bool,
                                         content: Option<Content>, navShown: bool, focus: Focus)

  predicate InRange(s: LightboxState) {
    0 <= s.index < |s.images|
  }

  // ---------------------------------------------------------------------------
  // Content.
  // ---------------------------------------------------------------------------

  /** `data-caption || alt`. */
  function CaptionOf(t: Thumb): (c: string)
    ensures t.caption.Some? && t.caption.value != "" ==> c == t.caption.value
    ensures t.caption.None? || t.caption.value == "" ==> c == t.alt
  {
    match t.caption
    case Some(c) => if c != "" then c else t.alt
    case None => t.alt
  }

  function Counter(index: int, count: int): string {
    IntToString(index + 1) + " / " + IntToString(count)
  }

  /** The counter reads the one-based position, then the number of images. */
  lemma CounterReads(index: nat, count: nat)
    ensures var c := Counter(index, count);
      var a, b := NatToString(index + 1), NatToString(count);
      c[..|a|] == a && DigitsValue(a) == index + 1
      && c[|a|..|a| + 3] == " / "
      && c[|a| + 3..] == b && DigitsValue(b) == count
  {
    var a, b := NatToString(index + 1), NatToString(count);
    assert Counter(index, count) == a + " / " + b;
  }

  /** `updateLightboxContent`: nothing happens unless `images[currentIndex]`
      exists; otherwise the image, caption, counter and button display follow
      the current thumbnail. */
  function UpdateContent(s: LightboxState): (r: LightboxState)
    ensures !InRange(s) ==> r == s
    ensures InRange(s) ==> r == s.(content := Some(ContentOf(s.images, s.index)), navShown := |s.images| > 1)
  {
    if !InRange(s) then s
    else s.(content := Some(ContentOf(s.images, s.index)), navShown := |s.images| > 1)
  }

  function ContentOf(images: seq<Thumb>, i: int): (c: Content)
    requires 0 <= i < |images|
    ensures c.src == images[i].src && c.alt == images[i].alt
    ensures c.caption == CaptionOf(images[i])
  {
    Content(images[i].src, images[i].alt, CaptionOf(images[i]), Counter(i, |images|))
  }

  // ---------------------------------------------------------------------------
  // Opening, closing, navigating.
  // ---------------------------------------------------------------------------

  /** `openLightbox(index)`: a no-op without images; otherwise the index is
      taken as given, the content updated if it exists, the overlay shown, the
      page scroll locked and (after the delay) the close button focused. */
  function Open(s: LightboxState, index: int): (r: LightboxState)
    ensures |s.images| == 0 ==> r == s
    ensures |s.images| > 0 ==> r.index == index && r.visible && r.bodyLocked && r.focus == CloseButton
    ensures r.images == s.images
    ensures |s.images| > 0 && !(0 <= index < |s.images|) ==> r.content == s.content && r.navShown == s.navShown
    ensures 0 <= index < |s.images| ==> r.content == Some(ContentOf(s.images, index)) && r.navShown == (|s.images| > 1)
  {
    if |s.images| == 0 then s
    else UpdateContent(s.(index := index)).(visible := true, bodyLocked := true, focus := CloseButton)
  }

  /** `closeLightbox`: overlay hidden, scroll unlocked, focus back on the
      current thumbnail when it exists. */
  function Close(s: LightboxState): (r: LightboxState)
    ensures !r.visible && !r.bodyLocked
    ensures r.images == s.images && r.index == s.index && r.content == s.content
    ensures InRange(s) ==> r.focus == ThumbAt(s.index)
    ensures !InRange(s) ==> r.focus == s.focus
  {
    s.(visible := false, bodyLocked := false, focus := if InRange(s) then ThumbAt(s.index) else s.focus)
  }

  /** `(i + 1) % n`. With no images JavaScript computes NaN; the index is then
      left as it is. */
  function NextIndex(i: int, n: int): (r: int)
    ensures n > 0 && 0 <= i < n ==> 0 <= r < n && (i < n - 1 ==> r == i + 1) && (i == n - 1 ==> r == 0)
    ensures n > 0 && i >= -1 ==> 0 <= r < n
  {
    if n <= 0 then i else JsRem(i + 1, n)
  }

  /** `(i - 1 + n) % n`. */
  function PrevIndex(i: int, n: int): (r: int)
    ensures n > 0 && 0 <= i < n ==> 0 <= r < n && (i > 0 ==> r == i - 1) && (i == 0 ==> r == n - 1)
    ensures n > 0 && i >= 1 - n ==> 0 <= r < n
  {
    if n <= 0 then i else JsRem(i - 1 + n, n)
  }

  /** `nextImage`: the index moves on, and the content follows it. */
  function Next(s: LightboxState): (r: LightboxState)
    ensures r.index == NextIndex(s.index, |s.images|) && r.images == s.images && r.visible == s.visible
    ensures r.bodyLocked == s.bodyLocked && r.focus == s.focus
    ensures InRange(r) ==> r.content == Some(ContentOf(r.images, r.index)) && r.navShown == (|r.images| > 1)
    ensures !InRange(r) ==> r.content == s.content && r.navShown == s.navShown
  {
    UpdateContent(s.(index := NextIndex(s.index, |s.images|)))
  }

  /** `prevImage`: the index moves back, and the content follows it. */
  function Prev(s: LightboxState): (r: LightboxState)
    ensures r.index == PrevIndex(s.index, |s.images|) && r.images == s.images && r.visible == s.visible
    ensures r.bodyLocked == s.bodyLocked && r.focus == s.focus
    ensures InRange(r) ==> r.content == Some(ContentOf(r.images, r.index)) && r.navShown == (|r.images| > 1)
    ensures !InRange(r) ==> r.content == s.content && r.navShown == s.navShown
  {
    UpdateContent(s.(index := PrevIndex(s.index, |s.images|)))
  }

  /** Next undoes previous and previous undoes next. */
  lemma NextPrevInverse(i: int, n: int)
    requires 0 <= i < n
    ensures NextIndex(PrevIndex(i, n), n) == i
    ensures PrevIndex(NextIndex(i, n), n) == i
  {
  }

  function NextTimes(i: int, n: int, k: nat): int
    decreases k
  {
    if k == 0 then i else NextIndex(NextTimes(i, n, k - 1), n)
  }

  /** Going next `k` times from `i` lands on `(i + k) mod n`. */
  lemma {:induction false} NextTimesWraps(i: int, n: int, k: nat)
    requires 0 <= i < n
    ensures NextTimes(i, n, k) == (i + k) % n
    decreases k
  {
    if k > 0 {
      NextTimesWraps(i, n, k - 1);
      ModSucc(i + k - 1, n);
    }
  }

  /** `n` steps forward come back to the start. */
  lemma FullTurn(i: int, n: int)
    requires 0 <= i < n
    ensures NextTimes(i, n, n) == i
  {
    NextTimesWraps(i, n, n);
    Dates.DivModUnique(i + n, n, 1, i);
  }

  lemma ModSucc(a: nat, n: int)
    requires n > 0
    ensures (a % n + 1) % n == (a + 1) % n
  {
    var q, r := a / n, a % n;
    if r + 1 < n {
      Dates.DivModUnique(a + 1, n, q, r + 1);
      Dates.DivModUnique(r + 1, n, 0, r + 1);
    } else {
      Dates.DivModUnique(a + 1, n, q + 1, 0);
      Dates.DivModUnique(r + 1, n, 1, 0);
    }
  }

  // ---------------------------------------------------------------------------
  // Keyboard and touch.
  // ---------------------------------------------------------------------------

  /** The document `keydown` handler: nothing while the overlay is hidden;
      Escape closes, the left arrow goes back, the right arrow forward, and
      any other key is ignored. */
  function HandleKey(s: LightboxState, key: string): (r: LightboxState)
    ensures !s.visible ==> r == s
    ensures s.visible && key == "Escape" ==> r == Close(s)
    ensures s.visible && key == "ArrowLeft" ==> r == Prev(s)
    ensures s.visible && key == "ArrowRight" ==> r == Next(s)
    ensures key != "Escape" && key != "ArrowLeft" && key != "ArrowRight" ==> r == s
  {
    if !s.visible then s
    else if key == "Escape" then Close(s)
    else if key == "ArrowLeft" then Prev(s)
    else if key == "ArrowRight" then Next(s)
    else s
  }

  const SwipeThreshold := 50

  function Abs(x: int): nat {
    if x < 0 then -x else x
  }

  /** `handleSwipe` with the two horizontal touch positions: a move of more
      than 50 pixels to the left goes forward, to the right goes back, and a
      shorter one does nothing. The overlay's visibility is not consulted. */
  function Swipe(s: LightboxState, startX: int, endX: int): (r: LightboxState)
    ensures Abs(startX - endX) <= SwipeThreshold ==> r == s
    ensures startX - endX > SwipeThreshold ==> r == Next(s)
    ensures endX - startX > SwipeThreshold ==> r == Prev(s)
  {
    var diff := startX - endX;
    if Abs(diff) > SwipeThreshold then (if diff > 0 then Next(s) else Prev(s)) else s
  }

  /** A long swipe left and a long swipe back return to the same image. */
  lemma SwipeBackAndForth(s: LightboxState, x: int, d: int)
    requires InRange(s) && d > SwipeThreshold
    ensures Swipe(Swipe(s, x + d, x), x, x + d).index == s.index
  {
    NextPrevInverse(s.index, |s.images|);
  }

  // ---------------------------------------------------------------------------
  // What the open overlay shows.
  // ---------------------------------------------------------------------------

  /** While the overlay is displayed on an existing image, it shows that image
      with its caption and counter, and the previous and next buttons exactly
      when there is more than one image. */
  predicate Shows(s: LightboxState) {
    s.visible && InRange(s) ==> s.content == Some(ContentOf(s.images, s.index)) && s.navShown == (|s.images| > 1)
  }

  /** Opening at an existing image shows it. */
  lemma OpenShows(s: LightboxState, index: int)
    requires 0 <= index < |s.images|
    ensures var r := Open(s, index); r.visible && InRange(r) && Shows(r)
  {
  }

  /** Stepping forward or back, and closing, keep the overlay showing the
      current image and the index in range. */
  lemma StepsKeepShowing(s: LightboxState)
    requires InRange(s) && Shows(s)
    ensures InRange(Next(s)) && Shows(Next(s))
    ensures InRange(Prev(s)) && Shows(Prev(s))
    ensures InRange(Close(s)) && Shows(Close(s))
  {
  }

  /** So do the keyboard and the swipe handlers. */
  lemma NavigationKeepsShowing(s: LightboxState, key: string, startX: int, endX: int)
    requires InRange(s) && Shows(s)
    ensures InRange(HandleKey(s, key)) && Shows(HandleKey(s, key))
    ensures InRange(Swipe(s, startX, endX)) && Shows(Swipe(s, startX, endX))
  {
    StepsKeepShowing(s);
  }

  // ---------------------------------------------------------------------------
  // The focus trap.
  // ---------------------------------------------------------------------------

  /** The overlay's `keydown` handler set up by `trapFocus`, over the `count`
      focusable elements in tab order. `active` is the position of the focused
      element among them, if it is one of them. The result is the position the
      handler moves focus to; `None` leaves the browser's own Tab behaviour. */
  function TrapTab(key: string, shift: bool, count: nat, active: Option<nat>): (moved: Option<nat>)
    ensures moved.Some? <==> key == "Tab" && count > 0 && active.Some?
                             && ((shift && active.value == 0) || (!shift && active.value == count - 1))
    ensures moved.Some? ==> moved.value == (if shift then count - 1 else 0)
  {
    if key != "Tab" || count == 0 || active.None? then None
    else if shift && active.value == 0 then Some(count - 1)
    else if !shift && active.value == count - 1 then Some(0)
    else None
  }

  /** Where Tab (or Shift+Tab) leaves focus from a focusable position: the
      trap's wrap when it fires, otherwise the neighbour in tab order. */
  function TabFrom(shift: bool, count: nat, pos: nat): int
    requires pos < count
  {
    match TrapTab("Tab", shift, count, Some(pos))
    case Some(p) => p
    case None => if shift then pos - 1 else pos + 1
  }

  /** Focus never leaves the overlay's focusable elements by Tab or Shift+Tab. */
  lemma FocusStaysInside(shift: bool, count: nat, pos: nat)
    requires pos < count
    ensures 0 <= TabFrom(shift, count, pos) < count
  {
  }

  /** Tab and Shift+Tab undo each other inside the overlay. */
  lemma TabShiftTabInverse(count: nat, pos: nat)
    requires pos < count
    ensures var p := TabFrom(false, count, pos); 0 <= p < count && TabFrom(true, count, p) == pos
    ensures var p := TabFrom(true, count, pos); 0 <= p < count && TabFrom(false, count, p) == pos
  {
  }
}
