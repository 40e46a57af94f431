/**
 * The two Pillow operations the compositor is built from, over a pixel
 * buffer `array2<Pixel>` indexed [x, y]: `Image.new(size, colour)` and
 * `dst.paste(src, (x, y))`, which copies `src` onto `dst` with its top-left
 * corner at (x, y), clipped to `dst`.
 *
 * A pixel records where it comes from rather than an RGBA value: a solid
 * colour, pixel (sx, sy) of a decoded image, or pixel (sx, sy) of a
 * resampled copy of one. This is the geometry of the composition without
 * the values resampling produces.
 */
module Raster {
  import opened Config
  import opened Platform

  /** The Pillow call that produced a resampled copy. */
  datatype Resample =
    | Cover      // ImageOps.fit: scaled to cover the target, excess cropped
    | Shrunk     // Image.thumbnail: scaled down to fit inside the target
    | Stretched  // Image.resize: scaled to the target, aspect ignored

  datatype Pixel =
    | Paint(color: Color)
    | Texel(image: nat, sx: int, sy: int)
    | Resampled(image: nat, kind: Resample, sx: int, sy: int)

  /** Something that can be pasted without a buffer of its own. */
  datatype Source =
    | Solid(color: Color)
    | Original(pic: Picture)
    | Copy(pic: Picture, kind: Resample)

  function SourcePixel(s: Source, sx: int, sy: int): Pixel {
    match s
    case Solid(c) => Paint(c)
    case Original(p) => Texel(p.id, sx, sy)
    case Copy(p, k) => Resampled(p.id, k, sx, sy)
  }

  /** Whether (px, py) lies in the w x h box whose top-left corner is (ox, oy). */
  predicate InBox(ox: int, oy: int, w: int, h: int, px: int, py: int) {
    ox <= px < ox + w && oy <= py < oy + h
  }

  /** A fresh w x h image whose pixel (x, y) is pixel (x, y) of `s`. */
  method NewImage(w: nat, h: nat, s: Source) returns (img: array2<Pixel>)
    ensures fresh(img)
    ensures img.Length0 == w && img.Length1 == h
    ensures forall x, y :: 0 <= x < w && 0 <= y < h ==> img[x, y] == SourcePixel(s, x, y)
  {
    img := new Pixel[w, h]((x, y) => SourcePixel(s, x, y));
  }

  /** `dst.paste(...)` of a w x h source at (ox, oy): covered pixels are replaced, the rest kept. */
  method PasteSource(dst: array2<Pixel>, s: Source, ox: int, oy: int, w: nat, h: nat)
    modifies dst
    ensures forall px, py :: 0 <= px < dst.Length0 && 0 <= py < dst.Length1 ==>
      dst[px, py] == if InBox(ox, oy, w, h, px, py) then SourcePixel(s, px - ox, py - oy) else old(dst[px, py])
  {
    forall px, py | 0 <= px < dst.Length0 && 0 <= py < dst.Length1 && InBox(ox, oy, w, h, px, py) {
      dst[px, py] := SourcePixel(s, px - ox, py - oy);
    }
  }

  /** `dst.paste(src, (ox, oy))` for another buffer. */
  method PasteImage(dst: array2<Pixel>, src: array2<Pixel>, ox: int, oy: int)
    requires dst != src
    modifies dst
    ensures forall px, py :: 0 <= px < dst.Length0 && 0 <= py < dst.Length1 ==>
      dst[px, py] == if InBox(ox, oy, src.Length0, src.Length1, px, py) then src[px - ox, py - oy] else old(dst[px, py])
  {
    forall px, py | 0 <= px < dst.Length0 && 0 <= py < dst.Length1 && InBox(ox, oy, src.Length0, src.Length1, px, py) {
      dst[px, py] := src[px - ox, py - oy];
    }
  }
}
