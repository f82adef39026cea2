/** The progressive gallery of `assets/js/galerie.js`: a cursor into the
    loaded image list, a first screenful sized by the viewport tier, further
    batches on each "load more" click, and the button that says how many
    images remain. The grid is modelled as the sequence of items appended to
    it; timers (the simulated network delay, the fade-in stagger, the resize
    debounce) are taken as having fired, so each handler is one atomic step. */
module Gallery {
  import opened Wrappers
  import opened Text

  // ---------------------------------------------------------------------------
  // Configuration.
  // ---------------------------------------------------------------------------

  datatype Tier = Mobile | Tablet | Desktop

  const TabletWidth := 768
  const DesktopWidth := 1024

  /** `detectBreakpoint`: desktop from 1024 pixels, tablet from 768. */
  function TierOf(width: int): (t: Tier)
    ensures t == Desktop <==> width >= DesktopWidth
    ensures t == Tablet <==> TabletWidth <= width < DesktopWidth
    ensures t == Mobile <==> width < TabletWidth
  {
    if width >= DesktopWidth then Desktop else if width >= TabletWidth then Tablet else Mobile
  }

  function Rank(t: Tier): nat {
    match t
    case Mobile => 0
    case Tablet => 1
    case Desktop => 2
  }

  /** A wider viewport never gets a smaller tier. */
  lemma TierMonotone(w1: int, w2: int)
    requires w1 <= w2
    ensures Rank(TierOf(w1)) <= Rank(TierOf(w2))
  {
  }

  /** `config.initialCount`. */
  function InitialCount(t: Tier): (n: nat)
    ensures 4 <= n <= 6 && (n == 6 <==> t == Desktop)
  {
    match t
    case Mobile => 4
    case Tablet => 4
    case Desktop => 6
  }

  /** `config.batchPerClick`. */
  function BatchSize(t: Tier): (n: nat)
    ensures 4 <= n <= 6 && (n == 6 <==> t == Desktop)
  {
    match t
    case Mobile => 4
    case Tablet => 4
    case Desktop => 6
  }

  // ---------------------------------------------------------------------------
  // Images and grid items.
  // ---------------------------------------------------------------------------

  /** An entry of `gallery.json`. A missing field is the falsy value: the empty
      string, or zero for a dimension. */
  datatype Image = Image(src: string, alt: string, caption: string, width: int, height: int)

  /** The `img` fallback entry `i` (counting from one). */
  function FallbackImage(i: nat): Image {
    Image("/assets/img/gallery/img" + NatToString(i) + ".jpg",
          "Imagine " + NatToString(i),
          "Imagine din galerie " + NatToString(i),
          1200, 900)
  }

  /** `generateFallbackGallery`: twenty images, `img1.jpg` to `img20.jpg`. */
  function FallbackGallery(): (images: seq<Image>)
    ensures |images| == 20
    ensures forall k :: 0 <= k < 20 ==> images[k] == FallbackImage(k + 1)
  {
    seq(20, k requires 0 <= k < 20 => FallbackImage(k + 1))
  }

  /** The fallback images have pairwise different files, each 1200 by 900. */
  lemma FallbackSourcesDistinct(j: int, k: int)
    requires 0 <= j < k < 20
    ensures FallbackGallery()[j].src != FallbackGallery()[k].src
    ensures FallbackGallery()[k].width == 1200 && FallbackGallery()[k].height == 900
  {
    var prefix, suffix := "/assets/img/gallery/img", ".jpg";
    var a, b := NatToString(j + 1), NatToString(k + 1);
    var sa, sb := FallbackGallery()[j].src, FallbackGallery()[k].src;
    assert sa == prefix + a + suffix && sb == prefix + b + suffix;
    assert a != b;
    if |a| == |b| {
      assert sa[|prefix|..|prefix| + |a|] == a;
      assert sb[|prefix|..|prefix| + |a|] == b;
    } else {
      assert |sa| != |sb|;
    }
  }

  /** The element `createGalleryItem` builds for an image at a position of the
      whole list: its `data-index` is that position. */
  datatype Item = Item(src: string, alt: string, ariaLabel: string, width: int, height: int,
                       caption: Option<string>, index: int)

  const AriaPrefix := "Vizualizează: "

  /** The item for an image: a missing dimension falls back to 800 by 600, a
      caption becomes `data-caption` when present, and the label names the
      alt text or, without one, a generic image. */
  function ItemOf(image: Image, index: int): (item: Item)
    ensures item.src == image.src && item.alt == image.alt && item.index == index
    ensures item.width == (if image.width != 0 then image.width else 800) && item.width != 0
    ensures item.height == (if image.height != 0 then image.height else 600) && item.height != 0
    ensures item.caption.Some? <==> image.caption != ""
    ensures item.caption.Some? ==> item.caption.value == image.caption
    ensures |item.ariaLabel| > |AriaPrefix| && item.ariaLabel[..|AriaPrefix|] == AriaPrefix
    ensures item.ariaLabel[|AriaPrefix|..] == if image.alt != "" then image.alt else "Imagine din galerie"
  {
    Item(image.src,
         image.alt,
         AriaPrefix + (if image.alt != "" then image.alt else "Imagine din galerie"),
         if image.width != 0 then image.width else 800,
         if image.height != 0 then image.height else 600,
         if image.caption != "" then Some(image.caption) else None,
         index)
  }

  /** `renderImages(images, startIndex)`: one item per image, numbered from
      `startIndex` on. */
  function ItemsFrom(images: seq<Image>, start: int): (items: seq<Item>)
    ensures |items| == |images|
    ensures forall k :: 0 <= k < |images| ==> items[k] == ItemOf(images[k], start + k)
  {
    if images == [] then [] else [ItemOf(images[0], start)] + ItemsFrom(images[1..], start + 1)
  }

  /** Rendering two adjacent slices one after the other renders their union. */
  lemma ItemsFromConcat(data: seq<Image>, a: int, b: int)
    requires 0 <= a <= b <= |data|
    ensures ItemsFrom(data[..a], 0) + ItemsFrom(data[a..b], a) == ItemsFrom(data[..b], 0)
  {
    var l, r, w := ItemsFrom(data[..a], 0), ItemsFrom(data[a..b], a), ItemsFrom(data[..b], 0);
    forall k | 0 <= k < b ensures (l + r)[k] == w[k] {
      if k < a {
        assert (l + r)[k] == l[k];
      } else {
        assert (l + r)[k] == r[k - a];
        assert data[a..b][k - a] == data[..b][k];
      }
    }
  }

  /** Enter or Space on an item, like a click, opens the lightbox at the item's
      index; any other key does nothing. */
  function KeyTarget(item: Item, key: string): (target: Option<int>)
    ensures target.Some? <==> key == "Enter" || key == " "
    ensures target.Some? ==> target.value == item.index
  {
    if key == "Enter" || key == " " then Some(item.index) else None
  }

  // ---------------------------------------------------------------------------
  // `Array.prototype.slice` with non-negative bounds.
  // ---------------------------------------------------------------------------

  function Min(a: int, b: int): int {
    if a <= b then a else b
  }

  /** `s.slice(a, b)` for non-negative `a` and `b`: both bounds are clamped to
      the length, and a reversed range is empty. */
  function Slice<T>(s: seq<T>, a: nat, b: nat): (r: seq<T>)
    ensures |r| == if Min(b, |s|) <= Min(a, |s|) then 0 else Min(b, |s|) - Min(a, |s|)
    ensures forall k :: 0 <= k < |r| ==> r[k] == s[a + k]
  {
    var lo, hi := Min(a, |s|), Min(b, |s|);
    if hi <= lo then [] else s[lo..hi]
  }

  // ---------------------------------------------------------------------------
  // The gallery state and its handlers.
  // ---------------------------------------------------------------------------

  /** The "load more" button: shown or `display: none`, its `aria-disabled`
      flag and the text of its `.btn-text`. */
  datatype MoreButton = MoreButton(visible: bool, ariaDisabled: bool, text: string)

  /** `galleryData`, `currentIndex`, `currentBreakpoint`, the grid's items, the
      button, and whether the `.gallery-status` message has been added. */
  datatype GalleryState = GalleryState(data: seq<Image>, cursor: nat, tier: Tier, rendered: seq<Item>,
                                       button: MoreButton, completed: bool)

  /** `n - cursor`; negative once the first screenful overshoots a short list. */
  function Remaining(g: GalleryState): int {
    |g.data| - g.cursor
  }

  /** The grid shows exactly the first `min(cursor, n)` images, each with its
      own position as index. */
  predicate Consistent(g: GalleryState) {
    g.rendered == ItemsFrom(g.data[..Min(g.cursor, |g.data|)], 0)
  }

  /** `document.documentElement.lang || 'ro'` is English. */
  predicate English(lang: string) {
    lang == "en"
  }

  function MoreLabel(lang: string, remaining: int): string {
    (if English(lang) then "Load More" else "Arată mai mult") + " (" + IntToString(remaining) + ")"
  }

  /** The label ends with the remaining count in parentheses. */
  lemma MoreLabelCount(lang: string, remaining: nat)
    ensures var l := MoreLabel(lang, remaining);
      var digits := NatToString(remaining);
      |l| >= |digits| + 2 && l[|l| - |digits| - 2] == '(' && l[|l| - 1] == ')'
      && AllDigits(l[|l| - |digits| - 1..|l| - 1]) && DigitsValue(l[|l| - |digits| - 1..|l| - 1]) == remaining
  {
    var head := if English(lang) then "Load More" else "Arată mai mult";
    var digits := NatToString(remaining);
    var l := MoreLabel(lang, remaining);
    assert l == (head + " ") + "(" + digits + ")";
    assert l[|l| - |digits| - 1..|l| - 1] == digits;
  }

  /** `updateMoreButton` as written: nothing left hides the button and adds the
      completion message; otherwise only the flag and the label change, and a
      button hidden earlier stays hidden. */
  function UpdateMoreButtonAsWritten(g: GalleryState, lang: string): (r: GalleryState)
    ensures r.data == g.data && r.cursor == g.cursor && r.rendered == g.rendered && r.tier == g.tier
    ensures Remaining(g) <= 0 ==> !r.button.visible && r.button.ariaDisabled && r.completed
    ensures Remaining(g) > 0 ==> r.button == MoreButton(g.button.visible, false, MoreLabel(lang, Remaining(g)))
  {
    if Remaining(g) <= 0 then
      g.(button := g.button.(visible := false, ariaDisabled := true), completed := true)
    else
      g.(button := MoreButton(g.button.visible, false, MoreLabel(lang, Remaining(g))))
  }

  /** `updateMoreButton` corrected: the button is shown again whenever images
      remain. */
  function UpdateMoreButton(g: GalleryState, lang: string): (r: GalleryState)
    ensures r.data == g.data && r.cursor == g.cursor && r.rendered == g.rendered && r.tier == g.tier
    ensures r.button.visible <==> Remaining(g) > 0
    ensures r.button.ariaDisabled <==> Remaining(g) <= 0
    ensures Remaining(g) > 0 ==> r.button.text == MoreLabel(lang, Remaining(g)) && r.completed == g.completed
    ensures Remaining(g) <= 0 ==> r.completed
  {
    var as_written := UpdateMoreButtonAsWritten(g, lang);
    if Remaining(g) > 0 then as_written.(button := as_written.button.(visible := true)) else as_written
  }

  /** `renderInitialImages`: the first `initialCount` images, and the cursor at
      `initialCount` even when fewer images exist. */
  function RenderInitial(g: GalleryState, lang: string): (r: GalleryState)
    requires g.rendered == []
    ensures r.cursor == InitialCount(g.tier)
    ensures Consistent(r)
    ensures r.data == g.data && r.tier == g.tier
  {
    var count := InitialCount(g.tier);
    var shown := Slice(g.data, 0, count);
    assert shown == g.data[..Min(count, |g.data|)];
    UpdateMoreButtonAsWritten(g.(rendered := ItemsFrom(shown, 0), cursor := count), lang)
  }

  /** `initGallery` on an empty grid: the loaded list, or the fallback when the
      load failed; the tier of the viewport width; the first screenful. */
  function InitGallery(loaded: Option<seq<Image>>, width: int, lang: string,
                       button: MoreButton, completed: bool): (r: GalleryState)
    ensures r.data == (if loaded.Some? then loaded.value else FallbackGallery())
    ensures r.tier == TierOf(width) && r.cursor == InitialCount(r.tier)
    ensures Consistent(r)
  {
    var g := GalleryState(loaded.GetOr(FallbackGallery()), 0, TierOf(width), [], button, completed);
    RenderInitial(g, lang)
  }

  /** `loadMoreImages`, with its delayed part taken as done: the next batch from
      the cursor on, appended with its global indices; the cursor advances by
      what was actually taken. An empty batch only refreshes the button. */
  function LoadMore(g: GalleryState, lang: string): (r: GalleryState)
    requires Consistent(g)
    ensures Consistent(r)
    ensures r.data == g.data && r.tier == g.tier
    ensures r.cursor == (if g.cursor >= |g.data| then g.cursor else Min(g.cursor + BatchSize(g.tier), |g.data|))
    ensures g.cursor <= r.cursor
    ensures |g.rendered| <= |r.rendered| && r.rendered[..|g.rendered|] == g.rendered
    ensures g.cursor >= |g.data| ==> r.rendered == g.rendered && r.cursor == g.cursor
  {
    var batch := Slice(g.data, g.cursor, g.cursor + BatchSize(g.tier));
    if |batch| == 0 then
      UpdateMoreButtonAsWritten(g, lang)
    else
      var next := g.cursor + |batch|;
      assert batch == g.data[g.cursor..next];
      ItemsFromConcat(g.data, g.cursor, next);
      UpdateMoreButtonAsWritten(g.(rendered := g.rendered + ItemsFrom(batch, g.cursor), cursor := next), lang)
  }

  /** The resize handler after its debounce: a new tier only refreshes the
      button; the cursor and the grid stay as they are. */
  function Resize(g: GalleryState, width: int, lang: string): (r: GalleryState)
    ensures r.data == g.data && r.cursor == g.cursor && r.rendered == g.rendered
    ensures r.tier == TierOf(width)
    ensures TierOf(width) == g.tier ==> r == g
  {
    var t := TierOf(width);
    if t != g.tier then UpdateMoreButtonAsWritten(g.(tier := t), lang) else g
  }

  /** `progressiveGalleryAPI.reload`: cursor back to zero, the grid emptied, and
      `initGallery` run again; the button and the completion message are
      outside the grid and keep their state. */
  function Reload(g: GalleryState, loaded: Option<seq<Image>>, width: int, lang: string): (r: GalleryState)
    ensures Consistent(r)
    ensures r.cursor == InitialCount(TierOf(width))
    ensures r.data == (if loaded.Some? then loaded.value else FallbackGallery())
    ensures Remaining(r) > 0 ==> r.button.visible == g.button.visible
  {
    InitGallery(loaded, width, lang, g.button, g.completed)
  }

  /** The reload with the corrected button update. */
  function ReloadCorrected(g: GalleryState, loaded: Option<seq<Image>>, width: int, lang: string): (r: GalleryState)
    ensures Consistent(r)
    ensures r.cursor == InitialCount(TierOf(width))
    ensures r.button.visible <==> Remaining(r) > 0
  {
    UpdateMoreButton(Reload(g, loaded, width, lang), lang)
  }

  /** `getLoadedCount` and `getTotalCount`. */
  function LoadedCount(g: GalleryState): nat { g.cursor }
  function TotalCount(g: GalleryState): nat { |g.data| }

  // ---------------------------------------------------------------------------
  // Properties across several steps.
  // ---------------------------------------------------------------------------

  /** Clicking the `k`-th grid item (by mouse, Enter or Space) opens the
      lightbox at `k`, and that item shows the `k`-th image. */
  lemma ActivatedItemIsItsImage(g: GalleryState, k: int, key: string)
    requires Consistent(g) && 0 <= k < |g.rendered|
    requires key == "Enter" || key == " "
    ensures KeyTarget(g.rendered[k], key) == Some(k)
    ensures k < |g.data| && g.rendered[k].src == g.data[k].src
  {
    assert g.data[..Min(g.cursor, |g.data|)][k] == g.data[k];
  }

  function LoadMoreTimes(g: GalleryState, lang: string, clicks: nat): (r: GalleryState)
    requires Consistent(g)
    ensures Consistent(r) && r.data == g.data && r.tier == g.tier
    decreases clicks
  {
    if clicks == 0 then g else LoadMoreTimes(LoadMore(g, lang), lang, clicks - 1)
  }

  /** Enough clicks show the whole list and hide the button: `k` clicks reach
      `min(n, cursor + k * batch)`. */
  lemma {:induction false} ClicksReachTheEnd(g: GalleryState, lang: string, clicks: nat)
    requires Consistent(g)
    ensures var r := LoadMoreTimes(g, lang, clicks);
      r.cursor >= Min(|g.data|, g.cursor + clicks * BatchSize(g.tier))
    decreases clicks
  {
    if clicks > 0 {
      var h, b := LoadMore(g, lang), BatchSize(g.tier);
      ClicksReachTheEnd(h, lang, clicks - 1);
      var rest := (clicks - 1) * b;
      assert clicks * b == b + rest;
      MinStep(|g.data|, g.cursor, h.cursor, b, rest);
    }
  }

  /** One click brings the target of the remaining clicks no closer. */
  lemma MinStep(n: int, c: int, next: int, b: nat, rest: nat)
    requires next == (if c >= n then c else Min(c + b, n))
    ensures Min(n, c + b + rest) <= Min(n, next + rest)
  {
  }

  /** Once the cursor has reached the end, every image is on the grid and the
      button is hidden with its completion message. */
  lemma AllShownAtTheEnd(g: GalleryState, lang: string)
    requires Consistent(g) && g.cursor >= |g.data|
    ensures var r := LoadMore(g, lang);
      r.rendered == ItemsFrom(g.data, 0) && !r.button.visible && r.completed
  {
    assert g.data[..|g.data|] == g.data;
  }

  /** The two updates differ only in showing a hidden button: while the button
      is displayed, or nothing remains, they agree. */
  lemma CorrectedAgreesWhenShown(g: GalleryState, lang: string)
    requires g.button.visible || Remaining(g) <= 0
    ensures UpdateMoreButton(g, lang) == UpdateMoreButtonAsWritten(g, lang)
  {
  }

  /** As written, a button hidden once everything was shown stays hidden when
      a reload brings back images to show: after the last batch, reloading a
      list longer than the first screenful leaves those images unreachable. */
  lemma ReloadLeavesButtonHidden(g: GalleryState, lang: string, images: seq<Image>, width: int)
    requires Consistent(g) && g.cursor >= |g.data|
    requires |images| > InitialCount(TierOf(width))
    ensures var r := Reload(LoadMore(g, lang), Some(images), width, lang);
      Remaining(r) > 0 && !r.button.visible
  {
  }

  /** The concrete case: twelve images, all shown on a phone, then a reload to
      the first four leaves eight images behind a hidden button. */
  lemma ReloadLeavesTwelveHidden(data: seq<Image>)
    requires |data| == 12
    ensures var done := GalleryState(data, 12, Mobile, ItemsFrom(data, 0), MoreButton(true, false, ""), false);
      var r := Reload(LoadMore(done, "ro"), Some(data), 100, "ro");
      Remaining(r) == 8 && !r.button.visible
  {
    var done := GalleryState(data, 12, Mobile, ItemsFrom(data, 0), MoreButton(true, false, ""), false);
    assert data[..Min(12, |data|)] == data;
    ReloadLeavesButtonHidden(done, "ro", data, 100);
  }

  /** With the corrected update, a reload offers the button exactly when it
      leaves images to show, whatever the button's state before. */
  lemma ReloadShowsButton(g: GalleryState, loaded: Option<seq<Image>>, width: int, lang: string)
    ensures var r := ReloadCorrected(g, loaded, width, lang);
      Remaining(r) > 0 <==> r.button.visible
  {
  }
}
