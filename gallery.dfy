/** The photo gallery: the image list, the grid of tiles rendered from it and
    the lightbox that shows one of them full size. The DOM is replaced by
    plain state: the grid is the sequence of the container's children, the
    lightbox image is the `src` it was last given, and the `active` class and
    the body's `overflow: hidden` are booleans. */
module Gallery {
  import FisherYates
  import Lightbox

  datatype Option<T> = None | Some(value: T)

  /** The directory every catalog file name is placed under. */
  const PicturePrefix := "Picture/"

  /** The configured catalog of picture file names. */
  const Catalog: seq<string> := [
    "1000016484.jpg", "1000016485.jpg", "1000016486.jpg", "1000016487.jpg",
    "1000016488.jpg", "1000016489.jpg", "1000016490.jpg", "1000016491.jpg",
    "1000016492.jpg", "1000016493.jpg", "1000016494.jpg", "1000016495.jpg",
    "1000016496.jpg", "1000016497.jpg", "1000016498.jpg", "1000016499.jpg",
    "1000016500.jpg", "1000016501.jpg", "1000016502.jpg", "1000016503.jpg",
    "1000016504.jpg", "1000016505.jpg", "1000016506.jpg", "1000016507.jpg",
    "1000016508.jpg", "1000016509.jpg", "1000016510.jpg", "1000016511.jpg",
    "1000016512.jpg", "1000016513.jpg", "1000016514.jpg"
  ]

  /** `loadImages`' mapping of file names to paths: each path is the prefix
      followed by exactly the file name at the same position. */
  function PicturePaths(filenames: seq<string>): (paths: seq<string>)
    ensures |paths| == |filenames|
    ensures forall k :: 0 <= k < |paths| ==>
      PicturePrefix <= paths[k] && paths[k][|PicturePrefix|..] == filenames[k]
  {
    if filenames == [] then []
    else [PicturePrefix + filenames[0]] + PicturePaths(filenames[1..])
  }

  /** No two positions of a sequence hold the same element. */
  predicate Distinct<T(==)>(s: seq<T>) {
    forall i, j :: 0 <= i < j < |s| ==> s[i] != s[j]
  }

  /** Distinct file names give distinct paths, so the gallery never shows
      one picture twice. */
  lemma PathsKeepDistinct(filenames: seq<string>)
    requires Distinct(filenames)
    ensures Distinct(PicturePaths(filenames))
  {
    var paths := PicturePaths(filenames);
    forall i, j | 0 <= i < j < |paths|
      ensures paths[i] != paths[j]
    {
      assert paths[i][|PicturePrefix|..] == filenames[i];
      assert paths[j][|PicturePrefix|..] == filenames[j];
    }
  }

  /** The number a configured file name carries in its eighth to tenth
      characters: 484 to 514 along the catalog. */
  function Serial(name: string): int
    requires 10 <= |name|
  {
    100 * (name[7] as int - '0' as int) + 10 * (name[8] as int - '0' as int) + (name[9] as int - '0' as int)
  }

  lemma SerialsFrom0()
    ensures forall k :: 0 <= k < 8 ==> |Catalog[k]| == 14 && Serial(Catalog[k]) == 484 + k
  {
  }

  lemma SerialsFrom8()
    ensures forall k :: 8 <= k < 16 ==> |Catalog[k]| == 14 && Serial(Catalog[k]) == 484 + k
  {
  }

  lemma SerialsFrom16()
    ensures forall k :: 16 <= k < 24 ==> |Catalog[k]| == 14 && Serial(Catalog[k]) == 484 + k
  {
  }

  lemma SerialsFrom24()
    ensures forall k :: 24 <= k < 31 ==> |Catalog[k]| == 14 && Serial(Catalog[k]) == 484 + k
  {
  }

  /** The configured file names are all different, so the page never shows
      one picture twice. */
  lemma {:induction false} CatalogDistinct()
    ensures Distinct(Catalog) && Distinct(PicturePaths(Catalog))
  {
    SerialsFrom0();
    SerialsFrom8();
    SerialsFrom16();
    SerialsFrom24();
    forall i, j | 0 <= i < j < |Catalog|
      ensures Catalog[i] != Catalog[j]
    {
      assert Serial(Catalog[i]) != Serial(Catalog[j]);
    }
    PathsKeepDistinct(Catalog);
  }

  /** A child of the grid container: an image tile, clickable and remembering
      its position, or the closing "coming soon" tile. */
  datatype Tile = ImageTile(src: string, index: nat) | ComingSoon

  /** `renderGrid`: one image tile per image, in display order, then the
      "coming soon" tile. */
  function GridTiles(images: seq<string>): (grid: seq<Tile>)
    ensures |grid| == |images| + 1
    ensures forall k :: 0 <= k < |grid| ==> (grid[k].ImageTile? <==> k < |images|)
    ensures forall k :: 0 <= k < |images| ==> grid[k].src == images[k] && grid[k].index == k
  {
    seq(|images|, k requires 0 <= k < |images| => ImageTile(images[k], k)) + [ComingSoon]
  }

  class PhotoGallery {
    var images: array<string>
    var grid: seq<Tile>
    var currentIndex: int
    var active: bool
    var scrollLocked: bool
    var lightboxSrc: Option<string>
    var touchStartX: int
    var touchEndX: int

    /** The viewer's cursor and visibility. */
    function View(): Lightbox.Viewer
      reads this
    {
      Lightbox.Viewer(currentIndex, active)
    }

    /** After `init`: the grid shows the images in display order; the cursor is
        a display position (0 while there are none); scrolling is locked exactly
        while the overlay is active; and whatever the lightbox shows is the
        source of the grid tile under the cursor. */
    ghost predicate Valid()
      reads this, images
    {
      && grid == GridTiles(images[..])
      && 0 <= currentIndex
      && (currentIndex < images.Length || currentIndex == 0)
      && scrollLocked == active
      && (active ==> lightboxSrc.Some?)
      && (lightboxSrc.Some? ==>
            currentIndex < images.Length && grid[currentIndex] == ImageTile(lightboxSrc.value, currentIndex))
    }

    /** The state `new PhotoGallery(...)` leaves, before `init`. */
    predicate Constructed()
      reads this
    {
      currentIndex == 0 && !active && !scrollLocked && lightboxSrc == None
    }

    constructor ()
      ensures Constructed() && images.Length == 0 && grid == []
    {
      images := new string[0];
      grid := [];
      currentIndex := 0;
      active := false;
      scrollLocked := false;
      lightboxSrc := None;
      touchStartX, touchEndX := 0, 0;
    }

    /** `init`: load, shuffle, render, wire the handlers. The draws stand for
        the successive results of `Math.random()`. */
    method Init(catalog: seq<string>, draws: seq<real>)
      requires Constructed()
      requires FisherYates.ValidDraws(draws) && |catalog| - 1 <= |draws|
      modifies this
      ensures Valid() && fresh(images)
      ensures images[..] == FisherYates.Shuffle(PicturePaths(catalog), draws)
      ensures multiset(images[..]) == multiset(PicturePaths(catalog))
      ensures View() == Lightbox.Viewer(0, false) && touchStartX == 0 && touchEndX == 0
      ensures lightboxSrc == None
    {
      LoadImages(catalog);
      ShuffleImages(draws);
      FisherYates.ShuffleIsPermutation(PicturePaths(catalog), draws);
      RenderGrid();
      SetupLightboxEvents();
    }

    /** `loadImages`: a fresh list of the catalog's paths. */
    method LoadImages(catalog: seq<string>)
      modifies this`images
      ensures fresh(images) && images[..] == PicturePaths(catalog)
    {
      var paths := PicturePaths(catalog);
      images := new string[|paths|](k requires 0 <= k < |paths| => paths[k]);
    }

    /** `shuffleImages`: Fisher-Yates in place, from the last position down to 1. */
    method ShuffleImages(draws: seq<real>)
      requires FisherYates.ValidDraws(draws) && images.Length - 1 <= |draws|
      modifies images
      ensures |old(images[..])| == images.Length
      ensures images[..] == FisherYates.Shuffle(old(images[..]), draws)
    {
      var n := images.Length;
      ghost var original, partners := images[..], FisherYates.Partners(draws, n);
      var i := n - 1;
      while i > 0
        invariant -1 <= i < n
        invariant FisherYates.ShuffleFrom(images[..], i, partners)
                  == FisherYates.ShuffleFrom(original, n - 1, partners)
      {
        ghost var before := images[..];
        var j := FisherYates.Pick(draws[n - 1 - i], i);
        FisherYates.PartnerAt(draws, n, i);
        FisherYates.ShuffleStep(before, i, partners);
        images[i], images[j] := images[j], images[i];
        assert images[..] == FisherYates.Swap(before, i, j);
        i := i - 1;
      }
    }

    /** `renderGrid`. */
    method RenderGrid()
      modifies this`grid
      ensures grid == GridTiles(images[..])
    {
      grid := GridTiles(images[..]);
    }

    /** The state part of `setupLightboxEvents`. */
    method SetupLightboxEvents()
      modifies this`touchStartX, this`touchEndX
      ensures touchStartX == 0 && touchEndX == 0
    {
      touchStartX := 0;
      touchEndX := 0;
    }

    /** `updateLightboxImage`: show the source of the grid child under the
        cursor, which is always an image tile. */
    method UpdateLightboxImage()
      requires grid == GridTiles(images[..]) && 0 <= currentIndex < images.Length
      modifies this`lightboxSrc
      ensures grid[currentIndex].ImageTile?
      ensures lightboxSrc == Some(grid[currentIndex].src) && lightboxSrc == Some(images[currentIndex])
    {
      var tile := grid[currentIndex];
      lightboxSrc := Some(tile.src);
    }

    /** `openLightbox(index)`, called by the click on image tile `index`. */
    method OpenLightbox(index: int)
      requires Valid() && 0 <= index < images.Length
      modifies this`currentIndex, this`active, this`scrollLocked, this`lightboxSrc
      ensures Valid()
      ensures View() == Lightbox.Open(old(View()), index)
      ensures lightboxSrc == Some(images[index]) && scrollLocked
    {
      currentIndex := index;
      UpdateLightboxImage();
      active := true;
      scrollLocked := true;
    }

    /** `closeLightbox`. */
    method CloseLightbox()
      requires Valid()
      modifies this`active, this`scrollLocked
      ensures Valid()
      ensures View() == Lightbox.Close(old(View())) && !scrollLocked
    {
      active := false;
      scrollLocked := false;
    }

    /** `nextImage`, also run by the "next" button. */
    method NextImage()
      requires Valid() && 0 < images.Length
      modifies this`currentIndex, this`lightboxSrc
      ensures Valid()
      ensures View() == Lightbox.Next(old(View()), images.Length)
      ensures lightboxSrc == Some(images[currentIndex])
    {
      currentIndex := Lightbox.NextIndex(currentIndex, images.Length);
      UpdateLightboxImage();
    }

    /** `prevImage`, also run by the "previous" button. */
    method PrevImage()
      requires Valid() && 0 < images.Length
      modifies this`currentIndex, this`lightboxSrc
      ensures Valid()
      ensures View() == Lightbox.Prev(old(View()), images.Length)
      ensures lightboxSrc == Some(images[currentIndex])
    {
      currentIndex := Lightbox.PrevIndex(currentIndex, images.Length);
      UpdateLightboxImage();
    }

    /** A click on grid child `k`: image tiles open the lightbox on their own
        position, the "coming soon" tile has no handler. */
    method ClickTile(k: int)
      requires Valid() && 0 <= k < |grid|
      modifies this`currentIndex, this`active, this`scrollLocked, this`lightboxSrc
      ensures Valid()
      ensures k < images.Length ==> View() == Lightbox.Viewer(k, true) && lightboxSrc == Some(images[k])
      ensures k == images.Length ==> View() == old(View()) && lightboxSrc == old(lightboxSrc)
    {
      match grid[k]
      case ImageTile(_, index) => OpenLightbox(index);
      case ComingSoon =>
    }

    /** The document's `keydown` handler. */
    method OnKeyDown(key: Lightbox.Key)
      requires Valid()
      modifies this`currentIndex, this`active, this`scrollLocked, this`lightboxSrc
      ensures Valid()
      ensures View() == Lightbox.OnKey(old(View()), key, images.Length)
      ensures !old(active) ==> lightboxSrc == old(lightboxSrc)
      ensures key != Lightbox.ArrowRight && key != Lightbox.ArrowLeft ==> lightboxSrc == old(lightboxSrc)
      ensures old(active) && (key == Lightbox.ArrowRight || key == Lightbox.ArrowLeft) ==>
                lightboxSrc == Some(images[currentIndex])
    {
      if !active {
        return;
      }
      if key == Lightbox.Escape {
        CloseLightbox();
      }
      if key == Lightbox.ArrowRight {
        NextImage();
      }
      if key == Lightbox.ArrowLeft {
        PrevImage();
      }
    }

    /** The overlay's `click` handler, told whether the click landed on the
        backdrop itself rather than on the image or a control. */
    method OnOverlayClick(targetIsBackdrop: bool)
      requires Valid()
      modifies this`active, this`scrollLocked
      ensures Valid()
      ensures View() == Lightbox.OnBackdropClick(old(View()), targetIsBackdrop)
    {
      if targetIsBackdrop {
        CloseLightbox();
      }
    }

    /** The overlay's `touchstart` handler. */
    method OnTouchStart(screenX: int)
      modifies this`touchStartX
      ensures touchStartX == screenX
    {
      touchStartX := screenX;
    }

    /** The overlay's `touchend` handler. */
    method OnTouchEnd(screenX: int)
      requires Valid() && 0 < images.Length
      modifies this`touchEndX, this`currentIndex, this`lightboxSrc
      ensures Valid() && touchEndX == screenX
      ensures View() == Lightbox.OnSwipe(old(View()), touchStartX, screenX, images.Length)
      ensures !Lightbox.SwipedLeft(touchStartX, screenX) && !Lightbox.SwipedRight(touchStartX, screenX) ==>
                lightboxSrc == old(lightboxSrc)
      ensures Lightbox.SwipedLeft(touchStartX, screenX) || Lightbox.SwipedRight(touchStartX, screenX) ==>
                lightboxSrc == Some(images[currentIndex])
    {
      touchEndX := screenX;
      HandleSwipe();
    }

    /** `handleSwipe`. */
    method HandleSwipe()
      requires Valid() && 0 < images.Length
      modifies this`currentIndex, this`lightboxSrc
      ensures Valid()
      ensures View() == Lightbox.OnSwipe(old(View()), touchStartX, touchEndX, images.Length)
      ensures !Lightbox.SwipedLeft(touchStartX, touchEndX) && !Lightbox.SwipedRight(touchStartX, touchEndX) ==>
                lightboxSrc == old(lightboxSrc)
      ensures Lightbox.SwipedLeft(touchStartX, touchEndX) || Lightbox.SwipedRight(touchStartX, touchEndX) ==>
                lightboxSrc == Some(images[currentIndex])
    {
      if Lightbox.SwipedLeft(touchStartX, touchEndX) {
        NextImage();
      }
      if Lightbox.SwipedRight(touchStartX, touchEndX) {
        PrevImage();
      }
    }
  }
}
