/**
 The arithmetic of the viewer's `load_image`: fitting the image inside the
 window while keeping its aspect ratio, laying out the 2x2 channel grid, and
 deciding what a render produces for the current display and channel modes.
 Pixel work (decoding, resizing, splitting and merging bands) is not modelled;
 only the sizes and positions it is given are.
 */
module Geometry {

  import opened Options

  datatype Size = Size(width: nat, height: nat)

  /** The viewer's two display modes. */
  datatype DisplayMode = Grid | Single

  /** One channel drawn into the grid: band `band` of the scaled image at (x, y). */
  datatype Tile = Tile(band: nat, x: nat, y: nat, width: nat, height: nat)

  /** Exceptions `load_image` can raise once the window is known to be visible. */
  datatype RenderError =
    | DivisionByZero            // the image aspect divides by a zero image height
    | UnknownChannel(mode: string) // single mode, a render mode that names no band
    | MissingBand(band: nat)     // single mode, a band the image does not have

  datatype Render =
    | Nothing                                   // minimised or too small: nothing drawn
    | GridView(scaled: Size, tiles: seq<Tile>)  // one tile per band
    | SingleView(scaled: Size, band: nat)       // one band shown as grey
    | Raised(error: RenderError)

  /**
   The image is relatively wider than the window: width / height of the image
   exceeds that of the window, compared by cross-multiplication.
   */
  predicate Wider(image: Size, window: Size)
  {
    image.width * window.height > window.width * image.height
  }

  /** `q` is `num / den` rounded down: `q * den <= num < (q + 1) * den`. */
  predicate FloorQuotient(q: nat, num: nat, den: nat)
  {
    q * den <= num < (q + 1) * den
  }

  lemma FloorBounds(a: nat, b: nat)
    requires b > 0
    ensures FloorQuotient(a / b, a, b)
  {
    assert a == b * (a / b) + a % b;
  }

  lemma DivBelow(a: nat, b: nat, c: nat)
    requires b > 0 && a < b * c
    ensures a / b < c
  {
    assert a == b * (a / b) + a % b;
  }

  lemma DivAtMost(a: nat, b: nat, c: nat)
    requires b > 0 && a <= b * c
    ensures a / b <= c
  {
    assert a == b * (a / b) + a % b;
  }

  /** A product of naturals is positive only when both factors are. */
  lemma PositiveFactor(a: nat, b: nat)
    requires a * b > 0
    ensures a > 0
  {
  }

  /** A relatively wider image pinned to the window width: its derived height fits. */
  lemma PinnedWidth(iw: nat, ih: nat, ww: nat, wh: nat)
    requires iw * wh > ww * ih
    ensures iw > 0 && FloorQuotient(ww * ih / iw, ww * ih, iw) && ww * ih / iw <= wh
  {
    PositiveFactor(iw, wh);
    FloorBounds(ww * ih, iw);
    DivBelow(ww * ih, iw, wh);
  }

  /** An image that is not relatively wider pinned to the window height: its derived width fits. */
  lemma PinnedHeight(iw: nat, ih: nat, ww: nat, wh: nat)
    requires ih > 0 && iw * wh <= ww * ih
    ensures FloorQuotient(wh * iw / ih, wh * iw, ih) && wh * iw / ih <= ww
  {
    FloorBounds(wh * iw, ih);
    DivAtMost(wh * iw, ih, ww);
  }

  /**
   Fit-inside scaling. A relatively wider image is pinned to the window width and
   its height derived; otherwise the height is pinned and the width derived. The
   derived side is the exact proportional length rounded down.
   */
  function ScaledSize(image: Size, window: Size): (s: Size)
    requires window.width > 0 && window.height > 0 && image.height > 0
    ensures s.width <= window.width && s.height <= window.height
  {
    if Wider(image, window) then
      PinnedWidth(image.width, image.height, window.width, window.height);
      Size(window.width, window.width * image.height / image.width)
    else
      PinnedHeight(image.width, image.height, window.width, window.height);
      Size(window.height * image.width / image.height, window.height)
  }

  /**
   The scaled size keeps the aspect ratio: the pinned side equals the window's,
   and the other is the exact proportional length rounded down.
   */
  lemma ScaledSizeKeepsAspect(image: Size, window: Size)
    requires window.width > 0 && window.height > 0 && image.height > 0
    ensures Wider(image, window) ==>
              var s := ScaledSize(image, window);
              s.width == window.width && FloorQuotient(s.height, window.width * image.height, image.width)
    ensures !Wider(image, window) ==>
              var s := ScaledSize(image, window);
              s.height == window.height && FloorQuotient(s.width, window.height * image.width, image.height)
  {
    if Wider(image, window) {
      PinnedWidth(image.width, image.height, window.width, window.height);
    } else {
      PinnedHeight(image.width, image.height, window.width, window.height);
    }
  }

  /** The quadrant given to each channel: half the scaled size, rounded down. */
  function Quadrant(scaled: Size): Size
  {
    Size(scaled.width / 2, scaled.height / 2)
  }

  /** Band `idx` goes to column `idx % 2`, row `idx / 2` of the grid. */
  function TileAt(scaled: Size, idx: nat): (t: Tile)
    ensures t.band == idx && t.width == scaled.width / 2 && t.height == scaled.height / 2
    ensures idx < 4 ==> t.x + t.width <= scaled.width && t.y + t.height <= scaled.height
  {
    var q := Quadrant(scaled);
    Tile(idx, (idx % 2) * q.width, (idx / 2) * q.height, q.width, q.height)
  }

  /**
   The grid: one tile per band of the scaled image, in band order. With at most
   four bands in a scaled image of at least 2x2, every tile is non-empty and
   inside the scaled rectangle, and no two tiles overlap.
   */
  function GridTiles(scaled: Size, bands: nat): (ts: seq<Tile>)
    ensures |ts| == bands
    ensures forall idx :: 0 <= idx < bands ==> ts[idx] == TileAt(scaled, idx)
    ensures scaled.width >= 2 && scaled.height >= 2 && bands <= 4 ==>
              && (forall i :: 0 <= i < bands ==>
                    ts[i].width > 0 && ts[i].height > 0
                    && ts[i].x + ts[i].width <= scaled.width && ts[i].y + ts[i].height <= scaled.height)
              && (forall i, j :: 0 <= i < j < bands ==> Disjoint(ts[i], ts[j]))
  {
    var ts := seq(bands, idx requires 0 <= idx => TileAt(scaled, idx));
    if scaled.width >= 2 && scaled.height >= 2 && bands <= 4 then
      GridTilesPartition(scaled, ts);
      ts
    else
      ts
  }

  /** For the four grid bands, the column and row offsets are zero or one quadrant. */
  lemma TileCorner(scaled: Size, idx: nat)
    requires idx < 4
    ensures TileAt(scaled, idx).x == if idx % 2 == 0 then 0 else scaled.width / 2
    ensures TileAt(scaled, idx).y == if idx < 2 then 0 else scaled.height / 2
  {
  }

  /** Two tiles share no pixel. */
  predicate Disjoint(a: Tile, b: Tile)
  {
    a.x + a.width <= b.x || b.x + b.width <= a.x || a.y + a.height <= b.y || b.y + b.height <= a.y
  }

  /** The band a single-channel render mode selects; "RGB" selects none. */
  function BandOf(mode: string): (r: Option<nat>)
    ensures r.Some? <==> mode in {"R", "G", "B", "A"}
    ensures r.Some? ==> r.value < 4
  {
    if mode == "R" then Some(0)
    else if mode == "G" then Some(1)
    else if mode == "B" then Some(2)
    else if mode == "A" then Some(3)
    else None
  }

  /**
   What `load_image` draws for an image of size `image` with `bands` bands in a
   window of size `window`.
   */
  function Plan(display: DisplayMode, renderMode: string, image: Size, bands: nat, window: Size): (r: Render)
    ensures window.width == 0 || window.height == 0 ==> r == Nothing
    ensures r.GridView? ==> display == Grid && r.tiles == GridTiles(r.scaled, bands)
    ensures r.SingleView? ==> display == Single && r.band < bands && BandOf(renderMode) == Some(r.band)
    ensures r.GridView? || r.SingleView? ==>
              && window.width > 0 && window.height > 0 && image.height > 0
              && r.scaled == ScaledSize(image, window)
              && 2 <= r.scaled.width <= window.width
              && 2 <= r.scaled.height <= window.height
    ensures window.width > 0 && window.height > 0 && image.height > 0
            && (ScaledSize(image, window).width <= 1 || ScaledSize(image, window).height <= 1) ==>
              r == Nothing
    ensures window.width > 0 && window.height > 0 && image.height == 0 ==> r == Raised(DivisionByZero)
    ensures window.width > 0 && window.height > 0 && image.height > 0 ==>
              var s := ScaledSize(image, window);
              s.width >= 2 && s.height >= 2 ==>
                && (display == Grid ==> r == GridView(s, GridTiles(s, bands)))
                && (display == Single && BandOf(renderMode).None? ==> r == Raised(UnknownChannel(renderMode)))
                && (display == Single && BandOf(renderMode).Some? ==>
                      r == if BandOf(renderMode).value < bands then SingleView(s, BandOf(renderMode).value)
                           else Raised(MissingBand(BandOf(renderMode).value)))
  {
    if window.width == 0 || window.height == 0 then
      Nothing
    else if image.height == 0 then
      Raised(DivisionByZero)
    else
      var scaled := ScaledSize(image, window);
      if scaled.width <= 1 || scaled.height <= 1 then
        Nothing
      else if display.Grid? then
        GridView(scaled, GridTiles(scaled, bands))
      else
        var band := BandOf(renderMode);
        if band.None? then Raised(UnknownChannel(renderMode))
        else if band.value < bands then SingleView(scaled, band.value)
        else Raised(MissingBand(band.value))
  }

  /** A window one pixel wide or high never shows a picture. */
  lemma TinyWindowRendersNothing(display: DisplayMode, renderMode: string, image: Size, bands: nat, window: Size)
    requires image.height > 0
    requires window.width <= 1 || window.height <= 1
    ensures Plan(display, renderMode, image, bands, window) == Nothing
  {
  }

  /** A 4000x2000 image in an 800x600 window is pinned to the width: 800x400. */
  lemma WideImageExample()
    ensures Wider(Size(4000, 2000), Size(800, 600))
    ensures ScaledSize(Size(4000, 2000), Size(800, 600)) == Size(800, 400)
  {
  }

  /** Tiles placed by `TileAt` for up to four bands partition part of the scaled rectangle. */
  lemma GridTilesPartition(scaled: Size, ts: seq<Tile>)
    requires scaled.width >= 2 && scaled.height >= 2 && |ts| <= 4
    requires forall idx :: 0 <= idx < |ts| ==> ts[idx] == TileAt(scaled, idx)
    ensures forall i :: 0 <= i < |ts| ==>
              ts[i].width > 0 && ts[i].height > 0
              && ts[i].x + ts[i].width <= scaled.width && ts[i].y + ts[i].height <= scaled.height
    ensures forall i, j :: 0 <= i < j < |ts| ==> Disjoint(ts[i], ts[j])
  {
    forall i | 0 <= i < |ts|
      ensures ts[i].width > 0 && ts[i].height > 0
      ensures ts[i].x + ts[i].width <= scaled.width && ts[i].y + ts[i].height <= scaled.height
    {
      TileCorner(scaled, i);
    }
    forall i, j | 0 <= i < j < |ts| ensures Disjoint(ts[i], ts[j]) {
      TileCorner(scaled, i);
      TileCorner(scaled, j);
    }
  }

  /**
   Single mode with the composite "RGB" mode never draws: the channel table has
   no "RGB" entry, so once the window is big enough the lookup raises.
   */
  lemma SingleCompositeRaises(image: Size, bands: nat, window: Size)
    ensures Plan(Single, "RGB", image, bands, window) in {Nothing, Raised(DivisionByZero), Raised(UnknownChannel("RGB"))}
    ensures window.width > 0 && window.height > 0 && image.height > 0 ==>
              var s := ScaledSize(image, window);
              s.width >= 2 && s.height >= 2 ==> Plan(Single, "RGB", image, bands, window) == Raised(UnknownChannel("RGB"))
  {
  }
}
