/**
 * The display modes of composer.py's `apply_mode_to_image`: how one
 * decoded image becomes a picture of exactly the monitor's size.
 *
 *   fill     cover the target, cropping the excess (ImageOps.fit)
 *   fit      shrink (never enlarge) to fit inside, centred on the background
 *   stretch  resize to the target, ignoring the aspect ratio
 *   center   no scaling, centred on the background, may overflow
 *   tile     no scaling, repeated from (0, 0), clipped on the last row/column
 *
 * Any other mode name is treated as fill.
 */
module Modes {
  import opened Base
  import opened Config
  import opened Platform
  import opened Raster

  datatype Mode = Fill | Fit | Stretch | Center | Tile

  function ModeName(m: Mode): string {
    match m
    case Fill => "fill"
    case Fit => "fit"
    case Stretch => "stretch"
    case Center => "center"
    case Tile => "tile"
  }

  /** The five names `apply_mode_to_image` recognises. */
  const KnownModeNames: set<string> := {"fill", "fit", "stretch", "center", "tile"}

  /** The branch `apply_mode_to_image` takes for a mode name: a known name picks its mode, anything else fill. */
  function ModeFromName(name: string): (m: Mode)
    ensures name in KnownModeNames ==> ModeName(m) == name
    ensures name !in KnownModeNames ==> m == Fill
  {
    if name == "fill" then Fill
    else if name == "fit" then Fit
    else if name == "stretch" then Stretch
    else if name == "center" then Center
    else if name == "tile" then Tile
    else Fill
  }

  /** Every mode's name selects that mode again. */
  lemma ModeNameRoundTrip(m: Mode)
    ensures ModeName(m) in KnownModeNames && ModeFromName(ModeName(m)) == m
  {
  }

  // ---------------------------------------------------------------------
  // Integer facts used by the size arithmetic below.

  lemma MulLeft(a: int, b: int, c: int)
    requires a <= b && c > 0
    ensures a * c <= b * c
  {
  }

  lemma MulLeftStrict(a: int, b: int, c: int)
    requires a < b && c > 0
    ensures a * c < b * c
  {
  }

  lemma MulCancel(a: int, b: int, c: int)
    requires a * c <= b * c && c > 0
    ensures a <= b
  {
    if a > b {
      MulLeftStrict(b, a, c);
    }
  }

  lemma MulCancelStrict(a: int, b: int, c: int)
    requires a * c < b * c && c > 0
    ensures a < b
  {
    if a >= b {
      MulLeft(b, a, c);
    }
  }

  lemma FloorDiv(a: int, b: int)
    requires a >= 0 && b > 0
    ensures 0 <= a / b
    ensures (a / b) * b <= a < (a / b) * b + b
  {
  }

  // ---------------------------------------------------------------------
  // Image.thumbnail

  /**
   * Pillow's `round_aspect` when the height is the limit: the width nearest
   * to th * w / h, comparing |w/h - n/th| for the floor and the ceiling
   * (ties to the floor), at least 1.
   */
  function WidthForHeight(w: Pos, h: Pos, th: Pos): int {
    var f := (th * w) / h;
    var c := if f * h == th * w then f else f + 1;
    var pick := if th * w - f * h <= c * h - th * w then f else c;
    if pick < 1 then 1 else pick
  }

  /**
   * Pillow's `round_aspect` when the width is the limit: the height n nearest
   * to tw * h / w, comparing |w/h - tw/n| for the floor and the ceiling
   * (a floor of 0 has key 0 and wins), at least 1.
   */
  function HeightForWidth(w: Pos, h: Pos, tw: Pos): int {
    var f := (tw * h) / w;
    var c := if f * w == tw * h then f else f + 1;
    var pick := if f == 0 then f else if c * (tw * h - w * f) <= f * (w * c - tw * h) then f else c;
    if pick < 1 then 1 else pick
  }

  lemma WidthForHeightBounds(w: Pos, h: Pos, tw: Pos, th: Pos)
    requires tw * h >= w * th && !(tw >= w && th >= h)
    ensures th < h
    ensures 1 <= WidthForHeight(w, h, th) <= tw && WidthForHeight(w, h, th) <= w
    ensures -(h as int) < WidthForHeight(w, h, th) * h - th * w < h
  {
    if th >= h {
      MulLeft(h, th, w);
      assert tw * h >= w * h;
      MulCancel(w, tw, h);
      assert false;
    }
    var f := (th * w) / h;
    FloorDiv(th * w, h);
    MulLeftStrict(th, h, w);
    MulCancel(f, tw, h);
    MulCancelStrict(f, w, h);
    var c := if f * h == th * w then f else f + 1;
    if c == f + 1 {
      MulCancelStrict(f, tw, h);
    }
    var pick := if th * w - f * h <= c * h - th * w then f else c;
    if pick < 1 {
      assert pick == 0 && f == 0 && c == 1;
    }
  }

  lemma HeightForWidthBounds(w: Pos, h: Pos, tw: Pos, th: Pos)
    requires tw * h < w * th && !(tw >= w && th >= h)
    ensures tw < w
    ensures 1 <= HeightForWidth(w, h, tw) <= th && HeightForWidth(w, h, tw) <= h
    ensures -(w as int) < tw * h - HeightForWidth(w, h, tw) * w < w
  {
    WidthIsTheLimit(w, h, tw, th);
    HeightCandidates(w, h, tw, th);
    var f := (tw * h) / w;
    var c := if f * w == tw * h then f else f + 1;
    var n := HeightForWidth(w, h, tw);
    if f == 0 {
      assert n == 1;
      assert 0 < tw * h;
    } else {
      assert n == f || n == c;
    }
  }

  lemma WidthIsTheLimit(w: Pos, h: Pos, tw: Pos, th: Pos)
    requires tw * h < w * th && !(tw >= w && th >= h)
    ensures tw < w
  {
    if tw >= w {
      MulLeft(w, tw, h);
      MulLeftStrict(th, h, w);
      assert false;
    }
  }

  lemma HeightCandidates(w: Pos, h: Pos, tw: Pos, th: Pos)
    requires tw * h < w * th && tw < w
    ensures var f := (tw * h) / w;
      var c := if f * w == tw * h then f else f + 1;
      f <= c <= th && c <= h && 0 <= f && 0 <= tw * h - f * w < w && 0 <= c * w - tw * h < w
  {
    var f := (tw * h) / w;
    FloorDiv(tw * h, w);
    MulCancelStrict(f, th, w);
    MulLeftStrict(tw, w, h);
    MulCancelStrict(f, h, w);
  }

  /**
   * The size `img.thumbnail((tw, th))` leaves: unchanged when the image
   * already fits, otherwise scaled down so that one side meets its bound and
   * the aspect ratio is kept to within one pixel. It never exceeds the
   * target nor the original, so fit mode never enlarges an image.
   */
  function ThumbnailSize(w: Pos, h: Pos, tw: Pos, th: Pos): (size: (int, int))
    ensures 1 <= size.0 <= tw && 1 <= size.1 <= th
    ensures size.0 <= w && size.1 <= h
    ensures size == (w, h) <==> (w <= tw && h <= th)
    ensures size != (w, h) ==> size.0 == tw || size.1 == th
    ensures -(w + h) < size.0 * h - size.1 * w < w + h
  {
    if tw >= w && th >= h then (w, h)
    else if tw * h >= w * th then
      WidthForHeightBounds(w, h, tw, th);
      (WidthForHeight(w, h, th), th)
    else
      HeightForWidthBounds(w, h, tw, th);
      (tw, HeightForWidth(w, h, tw))
  }

  /** What fit mode pastes: the image itself when it already fits, else its shrunk copy. */
  function FitCopy(pic: Picture, tw: Pos, th: Pos): Source {
    if ThumbnailSize(pic.width, pic.height, tw, th) == (pic.width, pic.height) then Original(pic)
    else Copy(pic, Shrunk)
  }

  /** Where fit mode pastes a w x h copy on a tw x th background: `((tw - w) // 2, (th - h) // 2)`. */
  function FitOffset(tw: int, th: int, w: int, h: int): (int, int) {
    ((tw - w) / 2, (th - h) / 2)
  }

  /**
   * The fit copy lies inside the target with non-negative offsets, and the
   * two margins on each axis differ by at most one pixel (the extra one on
   * the right or the bottom).
   */
  lemma FitIsCentred(pic: Picture, tw: Pos, th: Pos)
    ensures var size := ThumbnailSize(pic.width, pic.height, tw, th);
      var off := FitOffset(tw, th, size.0, size.1);
      && 0 <= off.0 && off.0 + size.0 <= tw
      && 0 <= off.1 && off.1 + size.1 <= th
      && 0 <= (tw - size.0 - off.0) - off.0 <= 1
      && 0 <= (th - size.1 - off.1) - off.1 <= 1
  {
  }

  /**
   * Where center mode pastes the unscaled image: `(tw - w) // 2`, Python's
   * floor division (Dafny's `/` by a positive divisor rounds the same way).
   */
  function CenterOffset(tw: int, th: int, w: int, h: int): (int, int) {
    ((tw - w) / 2, (th - h) / 2)
  }

  /** Center offsets go negative exactly on an axis where the image is larger than the target. */
  lemma CenterOffsetSign(tw: Pos, th: Pos, pic: Picture)
    ensures var off := CenterOffset(tw, th, pic.width, pic.height);
      (off.0 < 0 <==> pic.width > tw) && (off.1 < 0 <==> pic.height > th)
  {
  }

  // ---------------------------------------------------------------------
  // The picture each mode produces

  /** The pixel at (lx, ly) of the tw x th picture that `mode` makes from `pic` on background `bg`. */
  function ModePixel(mode: Mode, pic: Picture, tw: Pos, th: Pos, bg: Color, lx: int, ly: int): Pixel {
    match mode
    case Fill => Resampled(pic.id, Cover, lx, ly)
    case Stretch => Resampled(pic.id, Stretched, lx, ly)
    case Fit =>
      var size := ThumbnailSize(pic.width, pic.height, tw, th);
      var off := FitOffset(tw, th, size.0, size.1);
      if InBox(off.0, off.1, size.0, size.1, lx, ly) then SourcePixel(FitCopy(pic, tw, th), lx - off.0, ly - off.1)
      else Paint(bg)
    case Center =>
      var off := CenterOffset(tw, th, pic.width, pic.height);
      if InBox(off.0, off.1, pic.width, pic.height, lx, ly) then Texel(pic.id, lx - off.0, ly - off.1)
      else Paint(bg)
    case Tile => Texel(pic.id, lx % pic.width, ly % pic.height)
  }

  /** fill and stretch leave no background; an unknown name renders exactly as fill. */
  lemma CoveringModes(name: string, pic: Picture, tw: Pos, th: Pos, bg: Color, lx: int, ly: int)
    ensures ModeFromName(name) in {Fill, Stretch} ==> !ModePixel(ModeFromName(name), pic, tw, th, bg, lx, ly).Paint?
    ensures name !in KnownModeNames ==>
      ModePixel(ModeFromName(name), pic, tw, th, bg, lx, ly) == ModePixel(Fill, pic, tw, th, bg, lx, ly)
  {
  }

  /**
   * In fit mode the background shows exactly outside the centred copy, and
   * an image that already fits is pasted pixel for pixel, unscaled.
   */
  lemma FitPixels(pic: Picture, tw: Pos, th: Pos, bg: Color, lx: int, ly: int)
    requires pic.width <= tw && pic.height <= th
    ensures var off := FitOffset(tw, th, pic.width, pic.height);
      ModePixel(Fit, pic, tw, th, bg, lx, ly) ==
        if InBox(off.0, off.1, pic.width, pic.height, lx, ly) then Texel(pic.id, lx - off.0, ly - off.1) else Paint(bg)
  {
  }

  /**
   * In center mode a target pixel shows image pixel (lx - ox, ly - oy) when
   * that pixel exists and the background otherwise; an image larger than
   * the target on both axes leaves no background at all.
   */
  lemma CenterCoversWhenLarger(pic: Picture, tw: Pos, th: Pos, bg: Color, lx: int, ly: int)
    requires pic.width >= tw && pic.height >= th
    requires 0 <= lx < tw && 0 <= ly < th
    ensures ModePixel(Center, pic, tw, th, bg, lx, ly).Texel?
  {
  }

  // ---------------------------------------------------------------------
  // Tiling

  /** `range(start, stop, step)` */
  function Range(start: int, stop: int, step: Pos): (r: seq<int>)
    decreases stop - start
  {
    if start >= stop then [] else [start] + Range(start + step, stop, step)
  }

  /** The tile origins along one axis are 0, step, 2*step, ... and all lie before the end. */
  lemma {:induction false} TileOrigins(start: int, stop: int, step: Pos, k: nat)
    requires k < |Range(start, stop, step)|
    ensures Range(start, stop, step)[k] == start + k * step < stop
    decreases stop - start
  {
    if k > 0 {
      TileOrigins(start + step, stop, step, k - 1);
      assert Range(start, stop, step)[k] == Range(start + step, stop, step)[k - 1];
    }
  }

  /** Index k exists in `range(start, stop, step)` exactly when start + k * step < stop. */
  lemma {:induction false} RangeIndices(start: int, stop: int, step: Pos, k: nat)
    ensures k < |Range(start, stop, step)| <==> start + k * step < stop
    decreases stop - start
  {
    if start >= stop {
      assert k * step >= 0;
    } else if k > 0 {
      RangeIndices(start + step, stop, step, k - 1);
      assert start + step + (k - 1) * step == start + k * step;
    }
  }

  lemma ModOfTile(p: int, k: int, n: Pos)
    requires k * n <= p < k * n + n
    ensures p / n == k && p % n == p - k * n
  {
    var q, r := p / n, p % n;
    assert p == q * n + r && 0 <= r < n;
    if q < k {
      MulLeft(q + 1, k, n);
      assert false;
    } else if q > k {
      MulLeft(k + 1, q, n);
      assert false;
    }
  }

  /**
   * Along an axis of length `extent`, the tiles of size `step` pasted at
   * `range(0, extent, step)` cover each position p exactly once: by the
   * tile with index p / step, whose origin is p - p % step. The last tile
   * may run past the end and is clipped.
   */
  lemma TilesCoverOnce(extent: nat, step: Pos, p: int)
    requires 0 <= p < extent
    ensures var origins := Range(0, extent, step);
      && p / step < |origins|
      && origins[p / step] == p - p % step
      && (forall k :: 0 <= k < |origins| && origins[k] <= p < origins[k] + step ==> k == p / step)
  {
    var origins := Range(0, extent, step);
    var q := p / step;
    FloorDiv(p, step);
    RangeIndices(0, extent, step, q);
    TileOrigins(0, extent, step, q);
    forall k | 0 <= k < |origins| && origins[k] <= p < origins[k] + step
      ensures k == q
    {
      TileOrigins(0, extent, step, k);
      ModOfTile(p, k, step);
    }
  }

  /** Tile row `y` once its upper rows are done: the inner loop of the tile branch. */
  method TileRow(out: array2<Pixel>, pic: Picture, bg: Color, y: int)
    requires 0 <= y && y % pic.height == 0
    requires forall lx, ly :: 0 <= lx < out.Length0 && 0 <= ly < out.Length1 ==>
      out[lx, ly] == if ly < y then ModePixel(Tile, pic, 1, 1, bg, lx, ly) else Paint(bg)
    modifies out
    ensures forall lx, ly :: 0 <= lx < out.Length0 && 0 <= ly < out.Length1 ==>
      out[lx, ly] == if ly < y + pic.height then ModePixel(Tile, pic, 1, 1, bg, lx, ly) else Paint(bg)
  {
    var w, h := pic.width, pic.height;
    var x := 0;
    while x < out.Length0
      invariant 0 <= x && x % w == 0
      invariant forall lx, ly :: 0 <= lx < out.Length0 && 0 <= ly < out.Length1 ==>
        out[lx, ly] == if ly < y || (ly < y + h && lx < x) then ModePixel(Tile, pic, 1, 1, bg, lx, ly) else Paint(bg)
    {
      PasteSource(out, Original(pic), x, y, w, h);
      forall lx, ly | 0 <= lx < out.Length0 && 0 <= ly < out.Length1
        ensures out[lx, ly] == if ly < y || (ly < y + h && lx < x + w) then ModePixel(Tile, pic, 1, 1, bg, lx, ly) else Paint(bg)
      {
        if InBox(x, y, w, h, lx, ly) {
          ModOfTile(lx, x / w, w);
          ModOfTile(ly, y / h, h);
        }
      }
      ModOfTile(x + w, x / w + 1, w);
      x := x + w;
    }
  }

  /** `Image.new('RGBA', (tw, th), bg)` then the nested tile loop of `apply_mode_to_image`. */
  method TileImage(pic: Picture, tw: Pos, th: Pos, bg: Color) returns (out: array2<Pixel>)
    ensures fresh(out) && out.Length0 == tw && out.Length1 == th
    ensures forall lx, ly :: 0 <= lx < tw && 0 <= ly < th ==> out[lx, ly] == ModePixel(Tile, pic, tw, th, bg, lx, ly)
  {
    out := NewImage(tw, th, Solid(bg));
    var y := 0;
    while y < th
      invariant 0 <= y && y % pic.height == 0
      invariant forall lx, ly :: 0 <= lx < tw && 0 <= ly < th ==>
        out[lx, ly] == if ly < y then ModePixel(Tile, pic, 1, 1, bg, lx, ly) else Paint(bg)
    {
      TileRow(out, pic, bg, y);
      ModOfTile(y + pic.height, y / pic.height + 1, pic.height);
      y := y + pic.height;
    }
  }

  /**
   * `apply_mode_to_image(img, (tw, th), mode, bg)`: a fresh picture of
   * exactly tw x th whatever the mode, holding what `ModePixel` says.
   */
  method ApplyMode(pic: Picture, tw: Pos, th: Pos, mode: string, bg: Color) returns (out: array2<Pixel>)
    ensures fresh(out) && out.Length0 == tw && out.Length1 == th
    ensures forall lx, ly :: 0 <= lx < tw && 0 <= ly < th ==>
      out[lx, ly] == ModePixel(ModeFromName(mode), pic, tw, th, bg, lx, ly)
  {
    if mode == "fill" {
      out := NewImage(tw, th, Copy(pic, Cover));
    } else if mode == "fit" {
      var size := ThumbnailSize(pic.width, pic.height, tw, th);
      out := NewImage(tw, th, Solid(bg));
      var off := FitOffset(tw, th, size.0, size.1);
      PasteSource(out, FitCopy(pic, tw, th), off.0, off.1, size.0, size.1);
    } else if mode == "stretch" {
      out := NewImage(tw, th, Copy(pic, Stretched));
    } else if mode == "center" {
      out := NewImage(tw, th, Solid(bg));
      var off := CenterOffset(tw, th, pic.width, pic.height);
      PasteSource(out, Original(pic), off.0, off.1, pic.width, pic.height);
    } else if mode == "tile" {
      out := TileImage(pic, tw, th, bg);
    } else {
      out := NewImage(tw, th, Copy(pic, Cover));
    }
  }
}
