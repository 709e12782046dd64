# Lightbox gallery controller

This project models the lightbox of the portfolio site's script
(`assets/js/main.js`, lines 288-439) and proves properties of it. The lightbox
is a modal viewer over a fixed, ordered gallery of `{src, caption}` items,
built once from the page's `.gallery-item[data-full]` nodes. It keeps:

- a current index, which is -1 while the viewer is closed;
- the modal's visibility;
- a drag gesture (`pointerDown`, `startX`, `lastTranslate`);
- the surfaces it writes: the main image's source and alternative text, its
  `fade-out` class, the caption text, and the preview thumbnail ("pip") with
  its source and display style.

Visitors navigate by clicking, with the keyboard (Escape, ArrowRight,
ArrowLeft) or by dragging the image. A drag commits once its release offset
reaches 80 px. Navigation wraps around the gallery. A non-instant image change
fades the image out and swaps it after a delay. The swap uses the item
captured when it was scheduled.

Modules, one file each:

- `JsText` (`js_text.dfy`): JavaScript's `String.prototype.trim`, using
  ECMAScript's white-space and line-terminator characters, and `||` on strings.
- `Ring` (`ring.dfy`): JavaScript's `%`, which truncates toward zero and is
  written out explicitly, and the circular successor and predecessor
  `(i + 1) % len` and `(i - 1 + len) % len`.
- `Gallery` (`gallery.dfy`): gallery nodes, items, caption extraction with
  the `'Charcoal artwork'` placeholder, and how an item's alternative text and
  caption text are derived.
- `Viewer` (`viewer.dfy`): the controller as a state machine. `View` is the
  whole mutable state and `Page` is what the page supplies once. There is one
  transition function per handler, plus the invariants they keep (`Inv`,
  `Consistent`, `SwapsConverge`) and lemmas about sequences of events.
- `Controller` (`lightbox.dfy`): the class `Lightbox`. Its fields are the
  closure variables and the surfaces. Its methods update them in place, and
  each method is proved to perform a `Viewer` transition: the one of the same
  name, except that `FireNextSwap` performs `FireSwap` and `CloseModal`
  performs `Close`.

Each deferred fade swap (`setTimeout(…, 220)`) is an entry in a FIFO
`pending` of captured items. `FireSwap` (`Lightbox.FireNextSwap`) fires the
oldest one, because timers with equal delays fire in the order they were set.
Time itself is not modelled. The preloads (`new Image().src = …`) are a
recorded list of requested sources; `PreloadsNonEmpty` (only non-empty
sources are ever requested) is part of the invariant `Inv`.

The page's optional elements are flags of `Page`: `#lightbox-image`,
`#lightbox-caption`, `#lightbox-pip` and `#lightbox-pip-image`
(`querySelector` may return `null`). The source guards every write to these
elements, and the model guards them the same way. The pointer handlers are
only installed when the image element exists, so the pointer methods require
`hasImage`. The whole controller exists only for a page with at least one
gallery node (line 290), which is why `Ok(p)` requires a non-empty gallery.

Behaviour worth knowing, proved in the model:

- `openAt` does not check its index (the page only passes valid ones);
  `setImage`'s range guard makes an out-of-range index leave the picture alone.
- The navigation functions do not check visibility, as in the source. The
  keyboard handler is guarded, and `Consistent` (a valid index while open, -1
  while closed) is preserved by every key event, by open with a valid index,
  by close, by navigation while open, and by a release while open; a
  committed release while closed breaks it (next bullet).
- Closing does not end a drag: `closeModalEnhanced` leaves `pointerDown` set,
  so a drag that is still in progress when Escape (or a second touch on the
  close control or backdrop) closes the viewer is still released afterwards,
  and a committed release then navigates the hidden viewer. The index becomes
  0 (or `len - 2` backwards) while the viewer is closed, and a faded swap is
  scheduled, so the index is no longer -1 exactly when closed.
  `PointerUp` keeps `Consistent` only when the viewer is open or the release
  stays, and `CloseDuringDragNavigatesHidden` exhibits the other case.
- Closing and reopening does not cancel a pending swap. `ReopenKeepsStaleSwap`
  exhibits this: navigate, close, reopen at another item within the delay,
  and the image then shows the previously scheduled item while the index
  names the reopened one. After any navigation the pending swaps converge on
  the current item (`RapidNavigationSettles`).
- Gallery captions are never empty, so the `|| 'Charcoal artwork'` and
  `|| ''` fallbacks in `setImage` never apply (`BuiltItemsNeedNoFallback`).

## Model

| member | source | states |
|---|---|---|
| JsText.IsSpace | assets/js/main.js:302 | the characters `trim()` removes include space, tab and line feed and exclude every printable ASCII character |
| JsText.TrimStart | assets/js/main.js:302 | the result is a suffix of the input that does not start with white space, and all removed characters are white space |
| JsText.TrimEnd | assets/js/main.js:302 | the result is a prefix of the input that does not end with white space, and all removed characters are white space |
| JsText.Trim | assets/js/main.js:302 | `trim()`: the result is the input with a blank prefix (exactly the leading white space) and a blank suffix cut off; it has no white space at either end; it is empty exactly when the input is blank; an already trimmed input is returned unchanged |
| JsText.OrElse | assets/js/main.js:302 | JavaScript's or-operator on strings: `a` when it is non-empty, else `b`; empty exactly when both are |
| Ring.JsRem | assets/js/main.js:367 | JavaScript `%` with a positive divisor: in `[0, n)` and equal to Euclidean `%` for a non-negative dividend, in `(-n, 0]` for a negative one |
| Ring.JsRemIsTruncatedRemainder | assets/js/main.js:367 | `a` is `JsRem(a, n)` plus a multiple of `n` whose quotient has the sign of `a` (division truncated toward zero), and for a negative `a` the result is `-JsRem(-a, n)`; with the bounds of `JsRem` this determines the value |
| Ring.NextIndex | assets/js/main.js:367 | `(i + 1) % len` stays in `[0, len)` for `-1 <= i < len` and is `i + 1`, wrapping from `len - 1` to 0 |
| Ring.PrevIndex | assets/js/main.js:373 | `(i - 1 + len) % len` stays in `[0, len)` and is `i - 1`, wrapping from 0 to `len - 1`; from the closed index -1 it is `len - 2` |
| Ring.NextPrevInverse | assets/js/main.js:365-375 | successor and predecessor undo each other, in both orders, on every valid index |
| Gallery.CaptionOf | assets/js/main.js:302 | a node's caption is its trimmed figcaption text, or `'Charcoal artwork'` when the figcaption is missing or blank; it is never empty |
| Gallery.BuildGallery | assets/js/main.js:300-303 | one item per node in page order, with the source taken from `data-full` and the caption from `CaptionOf`; every caption is non-empty |
| Gallery.AltText | assets/js/main.js:327 | the caption or else `'Charcoal artwork'`: never empty; the caption itself when it is non-empty, the placeholder when it is empty |
| Gallery.CaptionText | assets/js/main.js:328 | the caption or else the empty string is always the item's caption |
| Gallery.BuiltItemsNeedNoFallback | assets/js/main.js:300-334 | for a built gallery, alternative text and caption text both equal the node's caption, and a captionless node shows the placeholder |
| Viewer.Preload | assets/js/main.js:310 | a non-empty source is appended to the requested sources, an empty one changes nothing; nothing else changes; only non-empty sources are ever requested |
| Viewer.UpdatePip | assets/js/main.js:312-316 | the thumbnail shows the item after `index`, wrapping around, when the thumbnail image exists; nothing else changes |
| Viewer.Paint | assets/js/main.js:331-335 | the image shows the item (source, alternative text, and caption text when the caption element exists); nothing else changes |
| Viewer.SetImage | assets/js/main.js:318-340 | no-op out of range or without the image element; an instant call shows the item with no swap scheduled; any other call sets the fade and appends the captured item to the pending swaps, leaving image, alternative text and caption text as they were; without the caption element the caption text is untouched; the thumbnail previews the next item; the preloads grow by exactly the successor's and then the predecessor's source, each only when non-empty; index, visibility, thumbnail display and drag are untouched |
| Viewer.FireSwap | assets/js/main.js:325-330 | the oldest pending item is shown, the fade is cleared and the item leaves the queue; without the caption element the caption text is untouched; nothing else changes; `Inv` and `SwapsConverge` are preserved |
| Viewer.Settle | assets/js/main.js:323-330 | once all pending swaps have fired in order, the queue is empty and the image shows the item scheduled last; only the image, alternative text, caption text, fade and queue can change, and the caption text not at all without the caption element |
| Viewer.OpenAt | assets/js/main.js:342-350 | sets the index to `index` and makes the modal visible, and displays the thumbnail where it exists; with a valid index and the image element, the item is shown at once with no new swap, the thumbnail previews the next item and exactly the two neighbours' non-empty sources are preloaded; otherwise only index, visibility and thumbnail display change; a valid index yields `Consistent` |
| Viewer.Close | assets/js/main.js:352-363 | index -1 and not visible from any state; image source and alternative text, and caption text, are emptied and the thumbnail is hidden where those elements exist; drag state, pending swaps and preloads are unchanged |
| Viewer.ShowNext | assets/js/main.js:365-369 | identity on a gallery of at most one item; otherwise the index becomes the wrapped successor and, with the image element, a swap to the new item is appended while the image, alternative text and caption text stay as they were until it fires, the thumbnail previews the item after the new index and exactly the new index's neighbours' non-empty sources are preloaded; without the image element only the index changes; preserves `Consistent` while open and leaves the swaps converging on the new index |
| Viewer.ShowPrev | assets/js/main.js:371-375 | identity on a gallery of at most one item; otherwise the index becomes the wrapped predecessor and, with the image element, a swap to the new item is appended while the image, alternative text and caption text stay as they were until it fires, the thumbnail previews the item after the new index and exactly the new index's neighbours' non-empty sources are preloaded; without the image element only the index changes; preserves `Consistent` while open and leaves the swaps converging on the new index |
| Viewer.KeyDown | assets/js/main.js:387-396 | ignored while not visible; Escape closes, ArrowRight goes next, ArrowLeft goes previous, and any other key changes nothing; `Consistent` is always preserved |
| Viewer.Release | assets/js/main.js:423-428 | the release decision is next exactly when `dx <= -80`, previous exactly when `dx >= 80`, and stay exactly in between |
| Viewer.Go | assets/js/main.js:424-428 | performing a release decision: next is exactly `showNext`, previous exactly `showPrev`, and staying changes nothing; on a gallery of two or more, moving from a valid index lands on a different valid index; visibility and drag are untouched |
| Viewer.PointerDown | assets/js/main.js:400-406 | a drag starts at `clientX` with `lastTranslate` 0; nothing else changes |
| Viewer.PointerMove | assets/js/main.js:408-414 | no-op outside a drag; during a drag `lastTranslate` and the image offset become `clientX - startX` and the transition is switched off |
| Viewer.PointerUp | assets/js/main.js:416-430 | no-op outside a drag; a release always ends with no drag, `lastTranslate` and offset 0 and the transition back on, and otherwise equals the navigation the release decision picks for the last offset (`showNext` at `<= -80`, `showPrev` at `>= 80`, nothing in between), so nothing else changes; `Consistent` is kept when the viewer is open or the release stays |
| Viewer.PointerLeave | assets/js/main.js:434-437 | leaving while dragging behaves exactly as `onPointerUp` |
| Viewer.CloseIdempotent | assets/js/main.js:352-363 | closing twice gives the same state as closing once |
| Viewer.NavigationInvertible | assets/js/main.js:365-375 | from a valid index, next then previous restores the index, and so does previous then next |
| Viewer.WrapsOnThree | assets/js/main.js:365-375 | with three items, next from 2 gives 0 and previous from 0 gives 2 |
| Viewer.FourItemTour | assets/js/main.js:342-369 | with four items, opening at 0 and going next three times gives 3, and once more gives 0 |
| Viewer.DragFromFirstOfThree | assets/js/main.js:400-430 | with three items opened at 0, a drag released at offset `dx` ends at 1 if `dx <= -80`, at 2 if `dx >= 80`, else at 0 |
| Viewer.DragScenarios | assets/js/main.js:416-430 | release offsets -81, +81 and -40 end at indices 1, 2 and 0 |
| Viewer.CaptionlessOpenShowsPlaceholder | assets/js/main.js:300-350 | opening a node whose caption is missing or blank shows `'Charcoal artwork'` as both caption and alternative text |
| Viewer.SettlesOnCurrent | assets/js/main.js:323-330 | if the last pending swap is for the current item, the image settles on that item and the index is kept |
| Viewer.RapidNavigationSettles | assets/js/main.js:318-375 | after a navigation while open, however many swaps are still pending, the image settles on the item the new index names |
| Viewer.ReopenKeepsStaleSwap | assets/js/main.js:323-363 | a swap scheduled before close still fires after reopening at another item, so the image disagrees with the index |
| Viewer.CloseDuringDragNavigatesHidden | assets/js/main.js:352-430 | Escape during a drag closes the viewer without ending the drag, and the committed release then moves the hidden viewer to index 0 with a faded swap scheduled, breaking `Consistent` |
| Controller.Lightbox.constructor | assets/js/main.js:288-308 | the gallery is built from the nodes; the controller starts closed with index -1, no drag and nothing shown or pending |
| Controller.Lightbox.Preload | assets/js/main.js:310 | a non-empty source is recorded as requested and an empty one is ignored |
| Controller.Lightbox.UpdatePip | assets/js/main.js:312-316 | performs `Viewer.UpdatePip` in place |
| Controller.Lightbox.Paint | assets/js/main.js:331-335 | performs `Viewer.Paint` in place |
| Controller.Lightbox.SetImage | assets/js/main.js:318-340 | performs `Viewer.SetImage` in place and keeps the image guard |
| Controller.Lightbox.FireNextSwap | assets/js/main.js:325-330 | performs `Viewer.FireSwap` in place: the oldest pending swap fires, showing its captured item and removing it from the queue |
| Controller.Lightbox.OpenAt | assets/js/main.js:342-350 | performs `Viewer.OpenAt` in place: index `index`, visible |
| Controller.Lightbox.CloseModal | assets/js/main.js:352-363 | performs `Viewer.Close` in place: index -1, not visible |
| Controller.Lightbox.ShowNext | assets/js/main.js:365-369 | performs `Viewer.ShowNext` in place |
| Controller.Lightbox.ShowPrev | assets/js/main.js:371-375 | performs `Viewer.ShowPrev` in place |
| Controller.Lightbox.KeyDown | assets/js/main.js:387-396 | performs `Viewer.KeyDown` in place |
| Controller.Lightbox.PointerDown | assets/js/main.js:400-406 | performs `Viewer.PointerDown` in place |
| Controller.Lightbox.PointerMove | assets/js/main.js:408-414 | performs `Viewer.PointerMove` in place |
| Controller.Lightbox.PointerUp | assets/js/main.js:416-430 | performs `Viewer.PointerUp` in place, in the source's statement order: `lastTranslate` is reset after navigating; ends with no drag and `lastTranslate` 0 |
| Controller.Lightbox.PointerLeave | assets/js/main.js:434-437 | performs `Viewer.PointerLeave` in place |

## Left out

- The rest of `assets/js/main.js` (lines 1-287 and 441-470) is out of scope: the year stamp, reveal observers, scroll progress, navigation-link scrolling and highlighting, cursor, tilt, magnetic and float effects, and background parallax. These are observer wiring and floating-point transform strings.
- `assets/js/scroll-animations.js` and `scripts/generate_images.py` are not part of this model. The first is DOM observer glue; the second draws images with PIL and writes files.
- The drag's scale factor `1 - min(|dx| / 2000, 0.03)` (line 412) is left out because it is floating-point styling. The image offset is kept, as an integer; `clientX` is modelled as an integer too.
- Real timer semantics are left out. The 220 ms delay is not modelled, and swaps fire only through `FireSwap`, in scheduling order, whenever the caller chooses.
- The `fade-out` class timing has no CSS. Only the flag is modelled.
- The `aria-hidden` attribute, `document.body.style.overflow` and pointer capture (`setPointerCapture`/`releasePointerCapture`) are browser effects and are left out.
- The `is-dragging` class on the modal is left out because it always equals `pointerDown`.
- Network preloading (`new Image()`) is left out. Preloads are only recorded as a list of requested sources.
- The click wiring (lines 377-384) has no members of its own. A thumbnail click is `OpenAt(i)` with the node's position, the close control and the backdrop are `CloseModal`, and the previous and next controls are `ShowPrev` and `ShowNext`. Their `stopPropagation` means that only the navigation runs, which is what calling the method alone models.
- The initial markup values of the image, caption and thumbnail are not available to the model. The model starts them empty.
