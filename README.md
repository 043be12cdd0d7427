# Valentine gift page: timer, shuffle and lightbox

The page has two widgets. A relationship timer shows the days, hours, minutes and
seconds since a fixed start date. A photo gallery takes a configured list of
pictures and prefixes each with its directory. It shuffles them with Fisher-Yates
and renders them as a grid of tiles, followed by a "coming soon" tile. A lightbox
overlay shows one picture full size. The user can move through the pictures
with the next/previous buttons, the arrow keys or a horizontal swipe. The
Escape key, the close button or a click on the backdrop closes it.

The model has five modules:

- `JsMath`: JavaScript's truncating `%` and `Math.floor`, over Dafny's exact `int` and `real`.
- `ElapsedTime`: `calculateTime`, as the browser evaluates it and as an integer breakdown, with a proof that the two agree.
- `FisherYates`: the shuffle as a function of the input and of the successive `Math.random()` results.
- `Lightbox`: the viewer (cursor and visibility) as a value, with every handler as a transition.
- `Gallery`: the `PhotoGallery` class. Its image list is an `array<string>` shuffled in place. The grid is a sequence of tiles. Each method is proved against the `Lightbox` transition it performs.

The gallery proves the following:

- **Shuffle orders.** The shuffle yields a permutation of its input. Every permutation is some run's outcome.
- **The cursor.** It always stays on a picture, whatever sequence of clicks, keys and swipes arrives.
- **The lightbox image.** It is always the source of the grid tile under the cursor.
- **The scroll lock.** It is set exactly while the overlay is open.

## Model

| member | source | states |
|---|---|---|
| ElapsedTime.CalculateTime | valentine-gift/script.js:57-67 | for a start not in the future: hours below 24, minutes and seconds below 60, and the four fields add up to the whole seconds elapsed |
| ElapsedTime.CalculateTimeJs | valentine-gift/script.js:57-67 | the browser's formula for any difference, a start in the future included; its meaning is stated by `JsAgreesWithInteger` (equal to the normalized integer breakdown when the start is not in the future) and by `FutureStartFieldBounds` (otherwise a negative day count and hours, minutes and seconds between minus one larger unit and zero) |
| ElapsedTime.JsAgreesWithInteger | valentine-gift/script.js:59-66 | the browser's formula (real division, truncating `%`, `Math.floor`) gives exactly the integer breakdown whenever the start is not in the future |
| ElapsedTime.BreakdownRoundTrip | valentine-gift/script.js:61-66 | any normalized breakdown, plus any sub-second rest, gives that same breakdown back: the breakdown is unique |
| ElapsedTime.ExampleOneDayLater | valentine-gift/script.js:57-67 | 90 123 000 ms after the start reads 1 day, 1 hour, 2 minutes, 3 seconds |
| ElapsedTime.FutureStartGivesNegativeDays | valentine-gift/script.js:62 | a start in the future is not clamped: the day count is negative |
| ElapsedTime.FutureStartFieldBounds | valentine-gift/script.js:62-65 | for a start in the future the day count is negative, hours lie in [-24, 0] and minutes and seconds in [-60, 0]: the truncating `%` keeps the sign and `Math.floor` rounds down |
| ElapsedTime.ExampleBeforeStart | valentine-gift/script.js:62-65 | 84 600 000 ms before the start, the fields read -1, -24, -30, 0 (the truncating `%` keeps the sign) |
| FisherYates.Pick | valentine-gift/script.js:123 | for a draw in [0, 1) the partner of position `i` lies in [0, i] |
| FisherYates.DrawForPartner | valentine-gift/script.js:123 | every partner in [0, i] is selected by some draw in [0, 1) |
| FisherYates.Partners | valentine-gift/script.js:122-123 | the draws give one partner per visited position, each within range |
| FisherYates.Swap | valentine-gift/script.js:124 | the destructuring swap exchanges the two positions and leaves every other one alone |
| FisherYates.ShuffleFrom | valentine-gift/script.js:122-125 | the countdown loop from position `i` down to 1; `ShuffleFromIsPermutation` keeps the multiset and `PassedPositionsFinal` fixes every position the loop has passed |
| FisherYates.Shuffle | valentine-gift/script.js:120-126 | the whole shuffle; by `ShuffleIsPermutation` and `EveryOrderReachable` its possible results are exactly the permutations of the input |
| FisherYates.SwapPermutes | valentine-gift/script.js:124 | a swap keeps the multiset of elements |
| FisherYates.ShuffleIsPermutation | valentine-gift/script.js:120-126 | the shuffled list has the same length and the same multiset of elements as the input |
| FisherYates.ShortInputUnchanged | valentine-gift/script.js:122 | with zero or one image the loop body never runs |
| FisherYates.PassedPositionsFinal | valentine-gift/script.js:122-125 | once the loop has passed a position, its element is final |
| FisherYates.DrawsSelectPartners | valentine-gift/script.js:122-123 | any in-range choice of partners comes from some valid sequence of draws |
| FisherYates.EveryOrderReachable | valentine-gift/script.js:120-126 | every permutation of the input is the outcome of some sequence of draws |
| Lightbox.NextIndex | valentine-gift/script.js:178 | from a valid position, the next one is valid: one more, or 0 after the last |
| Lightbox.PrevIndex | valentine-gift/script.js:183 | from a valid position, the previous one is valid: one less, or the last before 0 |
| Lightbox.NextPrevInverse | valentine-gift/script.js:177-185 | previous undoes next and next undoes previous |
| Lightbox.NextTimesIsOffset | valentine-gift/script.js:177-180 | `k` presses of next from `c` land on `(c + k) mod n` |
| Lightbox.FullCycle | valentine-gift/script.js:177-180 | `n` presses of next return to the start |
| Lightbox.Open | valentine-gift/script.js:165-170 | opening shows the overlay on the given position; `HandlersKeepCursorInRange` keeps the cursor on a picture when the position is a tile's |
| Lightbox.Close | valentine-gift/script.js:172-175 | closing hides the overlay and keeps the cursor |
| Lightbox.Next | valentine-gift/script.js:177-180 | one wrapped step forward with the visibility kept; `NextTimesIsOffset` and `FullCycle` state where repeated steps land |
| Lightbox.Prev | valentine-gift/script.js:182-185 | one wrapped step back with the visibility kept; `NextPrevInverse` states that it undoes `Next` |
| Lightbox.OnKey | valentine-gift/script.js:217-222 | the keydown handler; `KeyEffects` states its effect for each key, open or closed |
| Lightbox.KeyEffects | valentine-gift/script.js:217-222 | while closed no key acts; while open Escape closes in place, each arrow takes one step, other keys do nothing |
| Lightbox.SwipeEffects | valentine-gift/script.js:238-242 | a movement of at most 50 px is ignored; a longer leftward one steps to the next image, a rightward one to the previous one; never both |
| Lightbox.OnSwipe | valentine-gift/script.js:238-242 | the swipe test; `SwipeEffects` states that short movements are ignored and long ones take exactly one step in their direction |
| Lightbox.OnBackdropClick | valentine-gift/script.js:212-214 | only a click on the backdrop itself closes; `HandlersKeepCursorInRange` keeps the cursor on a picture |
| Lightbox.HandlersKeepCursorInRange | valentine-gift/script.js:165-242 | opening on a tile and every handler afterwards keep the cursor on a picture |
| Gallery.PicturePaths | valentine-gift/script.js:112 | each path is `Picture/` followed by exactly the file name at the same position |
| Gallery.PathsKeepDistinct | valentine-gift/script.js:112 | distinct file names give distinct paths |
| Gallery.CatalogDistinct | valentine-gift/script.js:10-19 | the 31 configured file names, and so their paths, are pairwise different |
| Gallery.GridTiles | valentine-gift/script.js:128-163 | one image tile per image, in order, each with its source and position, then exactly one "coming soon" tile |
| Gallery.PhotoGallery.constructor | valentine-gift/script.js:86-99 | no images, cursor 0, overlay closed |
| Gallery.PhotoGallery.Init | valentine-gift/script.js:101-108 | afterwards the images are the shuffled paths, a permutation of the configured ones; the grid matches them, the overlay is closed and the lightbox image is still unset |
| Gallery.PhotoGallery.LoadImages | valentine-gift/script.js:110-118 | a fresh list of the catalog's paths |
| Gallery.PhotoGallery.ShuffleImages | valentine-gift/script.js:120-126 | the in-place loop leaves exactly the shuffle of the old contents |
| Gallery.PhotoGallery.RenderGrid | valentine-gift/script.js:128-163 | the grid becomes the tiles of the current image order |
| Gallery.PhotoGallery.SetupLightboxEvents | valentine-gift/script.js:225-226 | both touch coordinates start at 0 |
| Gallery.PhotoGallery.UpdateLightboxImage | valentine-gift/script.js:187-196 | the grid child under the cursor is an image tile, and the lightbox shows its source, which is the image at the cursor |
| Gallery.PhotoGallery.OpenLightbox | valentine-gift/script.js:165-170 | the cursor moves to the clicked image, the overlay opens on it and scrolling is locked |
| Gallery.PhotoGallery.CloseLightbox | valentine-gift/script.js:172-175 | the overlay closes, the cursor stays and scrolling is unlocked |
| Gallery.PhotoGallery.NextImage | valentine-gift/script.js:177-180 | the viewer takes one step forward and shows the image under the new cursor |
| Gallery.PhotoGallery.PrevImage | valentine-gift/script.js:182-185 | the viewer takes one step back and shows the image under the new cursor |
| Gallery.PhotoGallery.ClickTile | valentine-gift/script.js:148 | an image tile opens the lightbox on its own position; the "coming soon" tile changes nothing |
| Gallery.PhotoGallery.OnKeyDown | valentine-gift/script.js:217-222 | the viewer moves as `Lightbox.OnKey` says; with the overlay closed nothing changes; Escape and other keys leave the lightbox image alone, and an arrow on an open overlay shows the image under the new cursor |
| Gallery.PhotoGallery.OnOverlayClick | valentine-gift/script.js:212-214 | a click on the backdrop itself closes; any other click changes nothing |
| Gallery.PhotoGallery.OnTouchStart | valentine-gift/script.js:228-230 | records where the touch began |
| Gallery.PhotoGallery.OnTouchEnd | valentine-gift/script.js:232-235 | records where the touch ended, then moves the viewer as `Lightbox.OnSwipe` says; without a swipe the lightbox image is unchanged, after one it is the image under the cursor, even with the overlay closed |
| Gallery.PhotoGallery.HandleSwipe | valentine-gift/script.js:238-242 | the viewer moves as `Lightbox.OnSwipe` says and the class invariant is kept; without a swipe the lightbox image is unchanged, after one it is the image under the cursor, even with the overlay closed |

## Left out

- The timer's DOM work is not modelled: `renderStructure`, `update` writing the fields into the page, and the one-second `setInterval` of `start`. `calculateTime` is modelled on the difference of two instants.
- Parsing the start date string is not modelled, and neither is reading the clock. Instants are integer milliseconds, and the current time is a parameter.
- IEEE floating-point rounding is not modelled. The browser's formula is evaluated in exact real arithmetic.
- ElapsedTime.CalculateTime: the integer version requires a start not in the future. The negative case is covered by `CalculateTimeJs` and the two lemmas about it.
- All DOM lookups are replaced by plain state, and so is `init`'s early return when the grid container is missing. The page always has these elements.
- The `console.warn` for an empty catalog is a log message with no effect on state.
- Each image's `alt` text and lazy loading are not modelled.
- The `onerror` fallback to a remote placeholder is not modelled. A tile's source is the configured path, so the lightbox shows that path.
- Event registration, `stopPropagation` and the passive-listener option are not modelled. Each listener is a method, and the buttons call `NextImage`, `PrevImage` and `CloseLightbox` directly.
- The key of a `keydown` event is abstracted to Escape, the two arrows, or any other key.
- Touch coordinates (`screenX`) are integers, not floating-point numbers.
- `Math.random()` is a parameter: the list of values it returns, each in [0, 1). Uniformity, and so the probability of each order, is not modelled. `FisherYates.EveryOrderReachable` uses exact reals of the form `j / (i + 1)` as draws. For an actual double, any value in `[j / (i + 1), (j + 1) / (i + 1))` selects the same partner.
- Gallery.PhotoGallery.NextImage, Gallery.PhotoGallery.PrevImage, Gallery.PhotoGallery.HandleSwipe, Gallery.PhotoGallery.OnTouchEnd: require at least one image. With an empty list the source's `% 0` makes the cursor `NaN`, and the model does not represent that state.
- The handlers require the invariant `Valid()`, which `Init` establishes. In the page, the listeners exist only after `init` has run.
- The overlay is assumed to start closed, as in the page's markup.
