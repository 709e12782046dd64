/** The lightbox controller as a state machine: the state its handlers share
    (`View`), one transition function per handler, the invariants they keep and
    the properties of sequences of them. The class `Controller.Lightbox` runs
    the same transitions in place. */
module Viewer {
  import opened JsText
  import opened Ring
  import opened Gallery

  /** Release offset, in pixels, at which a drag commits a navigation. */
  const DragThreshold: int := 80

  /** What the page provides once: the gallery and which of the optional
      elements (`#lightbox-image`, `#lightbox-caption`, `#lightbox-pip`,
      `#lightbox-pip-image`) were found in the modal. */
  datatype Page = Page(gallery: seq<Item>, hasImage: bool, hasCaption: bool, hasPip: bool, hasPipImage: bool)

  /** The controller runs only for a page with at least one gallery node. */
  predicate Ok(p: Page) {
    |p.gallery| > 0
  }

  /** The inline `display` of the preview thumbnail. */
  datatype PipDisplay = Unstyled | Block | NoDisplay

  /** Everything the handlers read or write.
      - `currentIndex`, `pointerDown`, `startX`, `lastTranslate`: the closure variables;
      - `visible`: the modal's `data-visible` attribute is `'true'`;
      - `offset`, `transitionOff`: the image's inline translation (0 for the
        neutral transform) and whether its transition is switched off;
      - `imageSrc`, `imageAlt`, `captionText`, `fading`: the main image, its
        caption and whether it carries the `fade-out` class;
      - `pipSrc`, `pip`: the preview thumbnail's source and display;
      - `pending`: the items of the deferred swaps not yet fired, oldest first;
      - `preloads`: the sources handed to `preload`, in order. */
  datatype View = View(
    currentIndex: int, visible: bool,
    pointerDown: bool, startX: int, lastTranslate: int, offset: int, transitionOff: bool,
    imageSrc: string, imageAlt: string, captionText: string, fading: bool,
    pipSrc: string, pip: PipDisplay,
    pending: seq<Item>, preloads: seq<string>)

  /** The state before any event: closed, no drag, nothing shown. */
  const Initial: View := View(-1, false, false, 0, 0, 0, false, "", "", "", false, "", Unstyled, [], [])

  /** The main image shows `item`: its source, its alternative text and, when the
      caption element exists, its caption text. */
  predicate Shows(p: Page, v: View, item: Item) {
    v.imageSrc == item.src && v.imageAlt == AltText(item) &&
    (p.hasCaption ==> v.captionText == CaptionText(item))
  }

  /** `v` and `w` agree on the drag state. */
  predicate SameDrag(v: View, w: View) {
    v.pointerDown == w.pointerDown && v.startX == w.startX && v.lastTranslate == w.lastTranslate &&
    v.offset == w.offset && v.transitionOff == w.transitionOff
  }

  /** Outside a drag the offsets are zero and the transition is on. */
  predicate DragNeutral(v: View) {
    !v.pointerDown ==> v.lastTranslate == 0 && v.offset == 0 && !v.transitionOff
  }

  /** Without an image element nothing is ever scheduled and no drag can start
      (its listeners are not installed). */
  predicate ImageGuard(p: Page, v: View) {
    !p.hasImage ==> v.pending == [] && !v.fading && !v.pointerDown
  }

  /** Only non-empty sources are ever requested. */
  predicate PreloadsNonEmpty(v: View) {
    forall k :: 0 <= k < |v.preloads| ==> v.preloads[k] != ""
  }

  /** The invariant every handler keeps. */
  predicate Inv(p: Page, v: View) {
    DragNeutral(v) && ImageGuard(p, v) && PreloadsNonEmpty(v)
  }

  /** The viewer's index agrees with its visibility: a valid index while open,
      -1 while closed. */
  predicate Consistent(p: Page, v: View) {
    (v.visible ==> 0 <= v.currentIndex < |p.gallery|) && (!v.visible ==> v.currentIndex == -1)
  }

  /** The last deferred swap still to fire is for the current item, so the
      image settles on the item the index names. */
  predicate SwapsConverge(p: Page, v: View) {
    v.pending != [] ==> 0 <= v.currentIndex < |p.gallery| && v.pending[|v.pending| - 1] == p.gallery[v.currentIndex]
  }

  /** The sources `preload(src)` requests: none for an empty one. */
  function Requested(src: string): seq<string> {
    if src == "" then [] else [src]
  }

  /** `preload(src)`: a non-empty source is appended to the requests, an empty
      one ignored; nothing else changes, and only non-empty sources are ever
      requested. */
  function Preload(v: View, src: string): (r: View)
    ensures r == v.(preloads := v.preloads + Requested(src))
    ensures src == "" ==> r == v
    ensures PreloadsNonEmpty(v) ==> PreloadsNonEmpty(r)
  {
    if src == "" then v else v.(preloads := v.preloads + [src])
  }

  /** `updatePip(index)`: the thumbnail previews the item after `index`, with
      wrap-around; nothing else changes. */
  function UpdatePip(p: Page, v: View, index: int): (r: View)
    requires Ok(p) && 0 <= index < |p.gallery|
    ensures p.hasPipImage ==> r.pipSrc == p.gallery[if index == |p.gallery| - 1 then 0 else index + 1].src
    ensures !p.hasPipImage ==> r == v
    ensures r == v.(pipSrc := r.pipSrc)
  {
    if !p.hasPipImage then v else v.(pipSrc := p.gallery[NextIndex(index, |p.gallery|)].src)
  }

  /** The three writes of an image swap: source, alternative text and caption text. */
  function Paint(p: Page, v: View, item: Item): (r: View)
    ensures Shows(p, r, item)
    ensures r == v.(imageSrc := r.imageSrc, imageAlt := r.imageAlt, captionText := r.captionText)
    ensures !p.hasCaption ==> r.captionText == v.captionText
  {
    var w := v.(imageSrc := item.src, imageAlt := AltText(item));
    if p.hasCaption then w.(captionText := CaptionText(item)) else w
  }

  /** `setImage(index, {instant})`. An index outside the gallery, or a page
      without the image element, changes nothing. Otherwise an instant call shows
      the item at once, and any other call starts the fade and schedules a swap
      to that item, leaving the image as it is for now; either way the thumbnail
      previews the next item and both neighbours are preloaded. The index, the
      visibility and the drag are not touched. */
  function SetImage(p: Page, v: View, index: int, instant: bool): (r: View)
    requires Ok(p)
    ensures !(0 <= index < |p.gallery| && p.hasImage) ==> r == v
    ensures 0 <= index < |p.gallery| && p.hasImage ==>
              && r.pending == (if instant then v.pending else v.pending + [p.gallery[index]])
              && (instant ==> Shows(p, r, p.gallery[index]) && r.fading == v.fading)
              && (!instant ==> r.fading && r.imageSrc == v.imageSrc && r.imageAlt == v.imageAlt && r.captionText == v.captionText)
              && (!p.hasCaption ==> r.captionText == v.captionText)
              && (p.hasPipImage ==> r.pipSrc == p.gallery[NextIndex(index, |p.gallery|)].src)
              && (!p.hasPipImage ==> r.pipSrc == v.pipSrc)
              && r.preloads == v.preloads + Requested(p.gallery[NextIndex(index, |p.gallery|)].src)
                                          + Requested(p.gallery[PrevIndex(index, |p.gallery|)].src)
    ensures r == v.(imageSrc := r.imageSrc, imageAlt := r.imageAlt, captionText := r.captionText, fading := r.fading,
                    pipSrc := r.pipSrc, pending := r.pending, preloads := r.preloads)
    ensures ImageGuard(p, v) ==> ImageGuard(p, r)
    ensures PreloadsNonEmpty(v) ==> PreloadsNonEmpty(r)
    ensures Inv(p, v) ==> Inv(p, r)
  {
    if index < 0 || index >= |p.gallery| then v
    else if !p.hasImage then v
    else
      var item := p.gallery[index];
      var v1 := if !instant then v.(fading := true, pending := v.pending + [item]) else Paint(p, v, item);
      var v2 := UpdatePip(p, v1, index);
      var v3 := Preload(v2, p.gallery[NextIndex(index, |p.gallery|)].src);
      Preload(v3, p.gallery[PrevIndex(index, |p.gallery|)].src)
  }

  /** The deferred swap firing: the oldest scheduled item is shown and the fade
      ends; the index, the visibility, the thumbnail and the drag are untouched. */
  function FireSwap(p: Page, v: View): (r: View)
    requires v.pending != []
    ensures Shows(p, r, v.pending[0]) && !r.fading && r.pending == v.pending[1..]
    ensures r == v.(imageSrc := r.imageSrc, imageAlt := r.imageAlt, captionText := r.captionText,
                    fading := false, pending := v.pending[1..])
    ensures !p.hasCaption ==> r.captionText == v.captionText
    ensures Inv(p, v) ==> Inv(p, r)
    ensures SwapsConverge(p, v) ==> SwapsConverge(p, r)
  {
    Paint(p, v, v.pending[0]).(fading := false, pending := v.pending[1..])
  }

  /** All scheduled swaps firing in the order they were scheduled. Afterwards
      nothing is pending, and the image shows the item of the swap scheduled
      last; only the image, its caption, the fade and the queue change. */
  function Settle(p: Page, v: View): (r: View)
    decreases |v.pending|
    ensures r.pending == []
    ensures v.pending == [] ==> r == v
    ensures v.pending != [] ==> Shows(p, r, v.pending[|v.pending| - 1]) && !r.fading
    ensures r.currentIndex == v.currentIndex && r.visible == v.visible && SameDrag(v, r)
    ensures r == v.(imageSrc := r.imageSrc, imageAlt := r.imageAlt, captionText := r.captionText,
                    fading := r.fading, pending := [])
    ensures !p.hasCaption ==> r.captionText == v.captionText
  {
    if v.pending == [] then v else Settle(p, FireSwap(p, v))
  }

  /** `openAt(index)`: the index is set (unchecked) and the modal made visible;
      for an index in the gallery the item is shown at once, with no swap
      scheduled; the thumbnail is displayed. */
  function OpenAt(p: Page, v: View, index: int): (r: View)
    requires Ok(p)
    ensures r.currentIndex == index && r.visible
    ensures p.hasPip ==> r.pip == Block
    ensures !p.hasPip ==> r.pip == v.pip
    ensures r == v.(currentIndex := index, visible := true, pip := r.pip, imageSrc := r.imageSrc, imageAlt := r.imageAlt,
                    captionText := r.captionText, pipSrc := r.pipSrc, preloads := r.preloads)
    ensures 0 <= index < |p.gallery| && p.hasImage ==>
              && Shows(p, r, p.gallery[index])
              && (!p.hasCaption ==> r.captionText == v.captionText)
              && (p.hasPipImage ==> r.pipSrc == p.gallery[NextIndex(index, |p.gallery|)].src)
              && (!p.hasPipImage ==> r.pipSrc == v.pipSrc)
              && r.preloads == v.preloads + Requested(p.gallery[NextIndex(index, |p.gallery|)].src)
                                          + Requested(p.gallery[PrevIndex(index, |p.gallery|)].src)
    ensures !(0 <= index < |p.gallery| && p.hasImage) ==> r == v.(currentIndex := index, visible := true, pip := r.pip)
    ensures 0 <= index < |p.gallery| ==> Consistent(p, r)
    ensures Inv(p, v) ==> Inv(p, r)
  {
    var w := SetImage(p, v.(currentIndex := index, visible := true), index, true);
    if p.hasPip then w.(pip := Block) else w
  }

  /** `closeModalEnhanced()`: hidden, index -1, image and caption cleared,
      thumbnail hidden; the drag, the scheduled swaps and the fade are left as
      they are. */
  function Close(p: Page, v: View): (r: View)
    ensures r.currentIndex == -1 && !r.visible && Consistent(p, r)
    ensures p.hasImage ==> r.imageSrc == "" && r.imageAlt == ""
    ensures p.hasCaption ==> r.captionText == ""
    ensures p.hasPip ==> r.pip == NoDisplay
    ensures r == v.(currentIndex := -1, visible := false, imageSrc := r.imageSrc, imageAlt := r.imageAlt,
                    captionText := r.captionText, pip := r.pip)
    ensures !p.hasImage ==> r.imageSrc == v.imageSrc && r.imageAlt == v.imageAlt
    ensures !p.hasCaption ==> r.captionText == v.captionText
    ensures !p.hasPip ==> r.pip == v.pip
    ensures Inv(p, v) ==> Inv(p, r)
  {
    var w := v.(visible := false);
    var w1 := if p.hasImage then w.(imageSrc := "", imageAlt := "") else w;
    var w2 := if p.hasCaption then w1.(captionText := "") else w1;
    var w3 := if p.hasPip then w2.(pip := NoDisplay) else w2;
    w3.(currentIndex := -1)
  }

  /** `showNext()`: nothing happens on a gallery of at most one item; otherwise
      the index moves one forward, wrapping from the last item to the first,
      and a faded swap to the new item is scheduled. */
  function ShowNext(p: Page, v: View): (r: View)
    requires Ok(p)
    ensures |p.gallery| <= 1 ==> r == v
    ensures |p.gallery| > 1 ==> r.currentIndex == NextIndex(v.currentIndex, |p.gallery|)
    ensures |p.gallery| > 1 && 0 <= r.currentIndex && p.hasImage ==>
              r.pending == v.pending + [p.gallery[r.currentIndex]] && r.fading
    ensures |p.gallery| > 1 && 0 <= r.currentIndex && p.hasImage ==>
              && r.imageSrc == v.imageSrc && r.imageAlt == v.imageAlt && r.captionText == v.captionText
              && (p.hasPipImage ==> r.pipSrc == p.gallery[NextIndex(r.currentIndex, |p.gallery|)].src)
              && (!p.hasPipImage ==> r.pipSrc == v.pipSrc)
              && r.preloads == v.preloads + Requested(p.gallery[NextIndex(r.currentIndex, |p.gallery|)].src)
                                          + Requested(p.gallery[PrevIndex(r.currentIndex, |p.gallery|)].src)
    ensures |p.gallery| > 1 && !(0 <= r.currentIndex && p.hasImage) ==> r == v.(currentIndex := r.currentIndex)
    ensures v.visible && Consistent(p, v) ==> Consistent(p, r)
    ensures |p.gallery| > 1 && p.hasImage && v.visible && Consistent(p, v) ==> SwapsConverge(p, r)
    ensures r.visible == v.visible && r.pip == v.pip && SameDrag(v, r)
    ensures ImageGuard(p, v) ==> ImageGuard(p, r)
    ensures PreloadsNonEmpty(v) ==> PreloadsNonEmpty(r)
    ensures Inv(p, v) ==> Inv(p, r)
  {
    if |p.gallery| <= 1 then v
    else
      var i := NextIndex(v.currentIndex, |p.gallery|);
      SetImage(p, v.(currentIndex := i), i, false)
  }

  /** `showPrev()`: nothing happens on a gallery of at most one item; otherwise
      the index moves one back, wrapping from the first item to the last, and a
      faded swap to the new item is scheduled. */
  function ShowPrev(p: Page, v: View): (r: View)
    requires Ok(p)
    ensures |p.gallery| <= 1 ==> r == v
    ensures |p.gallery| > 1 ==> r.currentIndex == PrevIndex(v.currentIndex, |p.gallery|)
    ensures |p.gallery| > 1 && 0 <= r.currentIndex && p.hasImage ==>
              r.pending == v.pending + [p.gallery[r.currentIndex]] && r.fading
    ensures |p.gallery| > 1 && 0 <= r.currentIndex && p.hasImage ==>
              && r.imageSrc == v.imageSrc && r.imageAlt == v.imageAlt && r.captionText == v.captionText
              && (p.hasPipImage ==> r.pipSrc == p.gallery[NextIndex(r.currentIndex, |p.gallery|)].src)
              && (!p.hasPipImage ==> r.pipSrc == v.pipSrc)
              && r.preloads == v.preloads + Requested(p.gallery[NextIndex(r.currentIndex, |p.gallery|)].src)
                                          + Requested(p.gallery[PrevIndex(r.currentIndex, |p.gallery|)].src)
    ensures |p.gallery| > 1 && !(0 <= r.currentIndex && p.hasImage) ==> r == v.(currentIndex := r.currentIndex)
    ensures v.visible && Consistent(p, v) ==> Consistent(p, r)
    ensures |p.gallery| > 1 && p.hasImage && v.visible && Consistent(p, v) ==> SwapsConverge(p, r)
    ensures r.visible == v.visible && r.pip == v.pip && SameDrag(v, r)
    ensures ImageGuard(p, v) ==> ImageGuard(p, r)
    ensures PreloadsNonEmpty(v) ==> PreloadsNonEmpty(r)
    ensures Inv(p, v) ==> Inv(p, r)
  {
    if |p.gallery| <= 1 then v
    else
      var i := PrevIndex(v.currentIndex, |p.gallery|);
      SetImage(p, v.(currentIndex := i), i, false)
  }

  /** The keydown listener: ignored while the modal is not visible; otherwise
      Escape closes, ArrowRight goes forward, ArrowLeft goes back, and any other
      key does nothing. It never breaks the index/visibility agreement. */
  function KeyDown(p: Page, v: View, key: string): (r: View)
    requires Ok(p)
    ensures !v.visible ==> r == v
    ensures v.visible && key == "Escape" ==> r == Close(p, v)
    ensures v.visible && key == "ArrowRight" ==> r == ShowNext(p, v)
    ensures v.visible && key == "ArrowLeft" ==> r == ShowPrev(p, v)
    ensures key != "Escape" && key != "ArrowRight" && key != "ArrowLeft" ==> r == v
    ensures Consistent(p, v) ==> Consistent(p, r)
    ensures Inv(p, v) ==> Inv(p, r)
  {
    if !v.visible then v
    else if key == "Escape" then Close(p, v)
    else if key == "ArrowRight" then ShowNext(p, v)
    else if key == "ArrowLeft" then ShowPrev(p, v)
    else v
  }

  /** Where a released drag goes. */
  datatype Nav = GoNext | GoPrev | Stay

  /** The release decision: a drag at least the threshold to the left goes
      forward, one at least the threshold to the right goes back, anything
      shorter stays. */
  function Release(dx: int): (n: Nav)
    ensures n == GoNext <==> dx <= -DragThreshold
    ensures n == GoPrev <==> dx >= DragThreshold
    ensures n == Stay <==> -DragThreshold < dx < DragThreshold
  {
    if dx <= -DragThreshold then GoNext else if dx >= DragThreshold then GoPrev else Stay
  }

  /** Performs a release decision. Staying changes nothing; on a gallery of
      two or more, a committed drag from a valid index always moves to another
      item; visibility and drag state are never touched. */
  function Go(p: Page, v: View, n: Nav): (r: View)
    requires Ok(p)
    ensures n == Stay ==> r == v
    ensures n == GoNext ==> r == ShowNext(p, v)
    ensures n == GoPrev ==> r == ShowPrev(p, v)
    ensures n != Stay && |p.gallery| > 1 && 0 <= v.currentIndex < |p.gallery| ==>
              0 <= r.currentIndex < |p.gallery| && r.currentIndex != v.currentIndex
    ensures r.visible == v.visible && SameDrag(v, r)
  {
    match n
    case GoNext => ShowNext(p, v)
    case GoPrev => ShowPrev(p, v)
    case Stay => v
  }

  /** `pointerdown` on the image: a drag starts at `clientX` with no offset yet. */
  function PointerDown(p: Page, v: View, clientX: int): (r: View)
    requires p.hasImage
    ensures r.pointerDown && r.startX == clientX && r.lastTranslate == 0
    ensures r == v.(pointerDown := true, startX := clientX, lastTranslate := 0)
    ensures Inv(p, v) ==> Inv(p, r)
  {
    v.(pointerDown := true, startX := clientX, lastTranslate := 0)
  }

  /** `pointermove` on the image: ignored outside a drag; during one the offset
      from the start is recorded and the image follows it, without transition. */
  function PointerMove(p: Page, v: View, clientX: int): (r: View)
    requires p.hasImage
    ensures !v.pointerDown ==> r == v
    ensures v.pointerDown ==> r.lastTranslate == clientX - v.startX && r.offset == r.lastTranslate && r.transitionOff
    ensures r == v.(lastTranslate := r.lastTranslate, offset := r.offset, transitionOff := r.transitionOff)
    ensures Inv(p, v) ==> Inv(p, r)
  {
    if !v.pointerDown then v
    else
      var dx := clientX - v.startX;
      v.(lastTranslate := dx, offset := dx, transitionOff := true)
  }

  /** `onPointerUp` (also `pointercancel`): ignored outside a drag. Otherwise the
      drag ends, the image returns to its neutral transform, the release
      decision on the last offset is carried out and the offset is reset. */
  function PointerUp(p: Page, v: View): (r: View)
    requires Ok(p) && p.hasImage
    ensures !v.pointerDown ==> r == v
    ensures v.pointerDown || Inv(p, v) ==> !r.pointerDown && r.lastTranslate == 0 && r.offset == 0 && !r.transitionOff
    ensures v.pointerDown ==>
              r == Go(p, v, Release(v.lastTranslate)).(pointerDown := false, lastTranslate := 0,
                                                        offset := 0, transitionOff := false)
    ensures Consistent(p, v) && (v.visible || Release(v.lastTranslate) == Stay) ==> Consistent(p, r)
    ensures Inv(p, v) ==> Inv(p, r)
  {
    if !v.pointerDown then v
    else
      var w := v.(pointerDown := false, transitionOff := false, offset := 0);
      Go(p, w, Release(v.lastTranslate)).(lastTranslate := 0)
  }

  /** `pointerleave`: a release while a drag is in progress, else nothing;
      the same as `onPointerUp`, whose own guard makes the check redundant. */
  function PointerLeave(p: Page, v: View): (r: View)
    requires Ok(p) && p.hasImage
    ensures r == PointerUp(p, v)
  {
    if v.pointerDown then PointerUp(p, v) else v
  }

  // ---------------------------------------------------------------------
  // Properties of sequences of events

  /** Closing twice leaves the viewer as closing once does. */
  lemma CloseIdempotent(p: Page, v: View)
    ensures Close(p, Close(p, v)) == Close(p, v)
  {
  }

  /** Forward then back, and back then forward, return to the index one started
      from; on a gallery of one item both are no-ops. */
  lemma NavigationInvertible(p: Page, v: View)
    requires Ok(p) && 0 <= v.currentIndex < |p.gallery|
    ensures ShowPrev(p, ShowNext(p, v)).currentIndex == v.currentIndex
    ensures ShowNext(p, ShowPrev(p, v)).currentIndex == v.currentIndex
  {
    NextPrevInverse(v.currentIndex, |p.gallery|);
  }

  /** On a gallery of three, forward from the last item is the first and back
      from the first is the last. */
  lemma WrapsOnThree(p: Page, v: View)
    requires |p.gallery| == 3
    ensures v.currentIndex == 2 ==> ShowNext(p, v).currentIndex == 0
    ensures v.currentIndex == 0 ==> ShowPrev(p, v).currentIndex == 2
  {
  }

  /** Opening the first of four items and going forward three times reaches the
      last; once more wraps to the first. */
  lemma FourItemTour(p: Page, v: View)
    requires |p.gallery| == 4
    ensures ShowNext(p, ShowNext(p, ShowNext(p, OpenAt(p, v, 0)))).currentIndex == 3
    ensures ShowNext(p, ShowNext(p, ShowNext(p, ShowNext(p, OpenAt(p, v, 0))))).currentIndex == 0
  {
  }

  /** A drag on a gallery of three opened at the first item, released `dx`
      pixels from where it started: far enough left it goes to the second
      item, far enough right it wraps to the third, otherwise it stays. */
  lemma DragFromFirstOfThree(p: Page, v: View, x: int, dx: int)
    requires |p.gallery| == 3 && p.hasImage
    ensures PointerUp(p, PointerMove(p, PointerDown(p, OpenAt(p, v, 0), x), x + dx)).currentIndex ==
              if dx <= -DragThreshold then 1 else if dx >= DragThreshold then 2 else 0
  {
    var m := PointerMove(p, PointerDown(p, OpenAt(p, v, 0), x), x + dx);
    assert m.currentIndex == 0 && m.pointerDown && m.lastTranslate == dx;
  }

  /** Released 81 px to the left the drag goes to the second item, 81 px to the
      right it wraps to the third, 40 px to the left it stays on the first. */
  lemma DragScenarios(p: Page, v: View, x: int)
    requires |p.gallery| == 3 && p.hasImage
    ensures PointerUp(p, PointerMove(p, PointerDown(p, OpenAt(p, v, 0), x), x - 81)).currentIndex == 1
    ensures PointerUp(p, PointerMove(p, PointerDown(p, OpenAt(p, v, 0), x), x + 81)).currentIndex == 2
    ensures PointerUp(p, PointerMove(p, PointerDown(p, OpenAt(p, v, 0), x), x - 40)).currentIndex == 0
  {
    DragFromFirstOfThree(p, v, x, -81);
    DragFromFirstOfThree(p, v, x, 81);
    DragFromFirstOfThree(p, v, x, -40);
  }

  /** Opening a node that has no caption, or a blank one, shows the placeholder
      both as the caption and as the alternative text. */
  lemma CaptionlessOpenShowsPlaceholder(nodes: seq<Node>, p: Page, v: View, k: int)
    requires p.gallery == BuildGallery(nodes) && 0 <= k < |nodes| && p.hasImage && p.hasCaption
    requires nodes[k].figcaption.None? || IsBlank(nodes[k].figcaption.value)
    ensures OpenAt(p, v, k).captionText == DefaultCaption
    ensures OpenAt(p, v, k).imageAlt == DefaultCaption
  {
    BuiltItemsNeedNoFallback(nodes, k);
  }

  /** However many swaps are in flight, when they converge the image settles on
      the item the index names: the last navigation wins. */
  lemma SettlesOnCurrent(p: Page, v: View)
    requires SwapsConverge(p, v) && v.pending != []
    ensures Shows(p, Settle(p, v), p.gallery[v.currentIndex])
    ensures Settle(p, v).currentIndex == v.currentIndex
  {
  }

  /** Rapid navigation: stepping forward while earlier swaps are still
      pending, then letting them all fire, shows the item the index names. */
  lemma RapidNavigationSettles(p: Page, v: View)
    requires Ok(p) && |p.gallery| > 1 && p.hasImage && v.visible && Consistent(p, v)
    ensures Shows(p, Settle(p, ShowNext(p, v)), p.gallery[ShowNext(p, v).currentIndex])
    ensures Shows(p, Settle(p, ShowPrev(p, v)), p.gallery[ShowPrev(p, v).currentIndex])
  {
    SettlesOnCurrent(p, ShowNext(p, v));
    SettlesOnCurrent(p, ShowPrev(p, v));
  }

  /** Closing and reopening does not cancel a swap still pending: navigate
      forward, close, reopen at the third item before the fade delay passes, and
      when the swap fires the image shows the second item while the index names
      the third. */
  lemma ReopenKeepsStaleSwap()
    ensures
      var p := Page([Item("a.jpg", "A"), Item("b.jpg", "B"), Item("c.jpg", "C")], true, true, true, true);
      var w := FireSwap(p, OpenAt(p, Close(p, ShowNext(p, OpenAt(p, Initial, 0))), 2));
      w.currentIndex == 2 && w.visible && w.imageSrc == "b.jpg" && !SwapsConverge(p, OpenAt(p, Close(p, ShowNext(p, OpenAt(p, Initial, 0))), 2))
  {
  }

  /** Closing does not end a drag: with a drag in progress, Escape hides the
      viewer and sets the index to -1, and the committed release that follows
      still navigates. On three items opened at the second, a leftward drag of
      120 px released after Escape leaves the hidden viewer at index 0, faded,
      with a swap to the first item scheduled, so `Consistent` fails. */
  lemma CloseDuringDragNavigatesHidden()
    ensures
      var p := Page([Item("a.jpg", "A"), Item("b.jpg", "B"), Item("c.jpg", "C")], true, true, true, true);
      var r := PointerUp(p, KeyDown(p, PointerMove(p, PointerDown(p, OpenAt(p, Initial, 1), 500), 380), "Escape"));
      !r.visible && r.currentIndex == 0 && !Consistent(p, r) && r.pending == [p.gallery[0]] && r.fading
  {
  }
}
