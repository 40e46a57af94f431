/**
 * composer.py's `compose_image`: normalise the monitors, start a canvas of
 * the default background, paste each monitor's picture (or a block of its
 * background colour when it has no usable image) at its normalised
 * position in monitor order, and, for a preview, scale the canvas down to
 * fit a square of the requested side. Scaling never enlarges.
 */
module Composer {
  import opened Base
  import opened Config
  import opened Platform
  import opened Geometry
  import opened Raster
  import opened Modes

  /** A monitor's settings once the defaults have been applied. */
  datatype Settings = Settings(file: Option<string>, mode: string, background: Color)

  /**
   * `st = states.get(str(i), {})` and its `get`s: a missing entry gives no
   * file, mode "fill" and background "#000000"; a missing mode or background
   * key in an entry gives the same defaults, and present keys are used as
   * they are.
   */
  function Resolve(states: map<string, MonitorConfig>, index: nat): (s: Settings)
    ensures StateKey(index) !in states ==> s == Settings(None, "fill", "#000000")
    ensures StateKey(index) in states ==>
      var st := states[StateKey(index)];
      && s.file == st.file
      && s.mode == (if st.mode.Some? then st.mode.value else "fill")
      && s.background == (if st.background.Some? then st.background.value else "#000000")
  {
    var st := Lookup(states, index);
    Settings(st.file, st.mode.GetOr(DefaultMode), st.background.GetOr(DefaultBackground))
  }

  /**
   * The image a monitor shows: only when its file is set, non-empty and
   * exists, and then only if it decodes.
   */
  function LoadedPicture(s: Settings, disk: Disk): (p: Option<Picture>)
    ensures p.Some? <==> Truthy(s.file) && disk.pathExists(s.file.value) && disk.decode(s.file.value).Some?
    ensures p.Some? ==> p == disk.decode(s.file.value)
  {
    if Truthy(s.file) && disk.pathExists(s.file.value) then disk.decode(s.file.value) else None
  }

  /** Pixel (lx, ly) of the w x h region a monitor with settings `s` contributes. */
  function MonitorPixel(s: Settings, disk: Disk, w: Pos, h: Pos, lx: int, ly: int): Pixel {
    match LoadedPicture(s, disk)
    case Some(pic) => ModePixel(ModeFromName(s.mode), pic, w, h, s.background, lx, ly)
    case None => Paint(s.background)
  }

  predicate NonEmptyRects(rects: seq<Rect>) {
    forall i :: 0 <= i < |rects| ==> rects[i].w > 0 && rects[i].h > 0
  }

  /** Canvas pixel (px, py) once monitors 0 .. n-1 have been pasted: the last one covering it wins. */
  function Painted(rects: seq<Rect>, states: map<string, MonitorConfig>, disk: Disk, n: nat, px: int, py: int): Pixel
    requires n <= |rects| && NonEmptyRects(rects)
  {
    if n == 0 then Paint(DefaultBackground)
    else
      var r := rects[n - 1];
      if r.Contains(px, py) then MonitorPixel(Resolve(states, n - 1), disk, r.w, r.h, px - r.x, py - r.y)
      else Painted(rects, states, disk, n - 1, px, py)
  }

  /**
   * Paste order: where monitors overlap, the one with the highest index
   * covering a pixel decides it.
   */
  lemma {:induction false} LastMonitorWins(rects: seq<Rect>, states: map<string, MonitorConfig>, disk: Disk,
                                           n: nat, j: nat, px: int, py: int)
    requires j < n <= |rects| && NonEmptyRects(rects)
    requires rects[j].Contains(px, py)
    requires forall k :: j < k < n ==> !rects[k].Contains(px, py)
    ensures Painted(rects, states, disk, n, px, py) ==
      MonitorPixel(Resolve(states, j), disk, rects[j].w, rects[j].h, px - rects[j].x, py - rects[j].y)
  {
    if n - 1 > j {
      LastMonitorWins(rects, states, disk, n - 1, j, px, py);
    }
  }

  /** A pixel no monitor covers keeps the canvas background "#000000". */
  lemma {:induction false} UncoveredKeepsDefault(rects: seq<Rect>, states: map<string, MonitorConfig>, disk: Disk,
                                                 n: nat, px: int, py: int)
    requires n <= |rects| && NonEmptyRects(rects)
    requires forall k :: 0 <= k < n ==> !rects[k].Contains(px, py)
    ensures Painted(rects, states, disk, n, px, py) == Paint("#000000")
  {
    if n > 0 {
      UncoveredKeepsDefault(rects, states, disk, n - 1, px, py);
    }
  }

  /**
   * A monitor whose file is unset, missing or undecodable shows its own
   * background colour (the default one when it has none) on every pixel
   * where no later monitor overlaps it.
   */
  lemma MonitorWithoutImage(rects: seq<Rect>, states: map<string, MonitorConfig>, disk: Disk,
                            j: nat, px: int, py: int)
    requires j < |rects| && NonEmptyRects(rects)
    requires LoadedPicture(Resolve(states, j), disk).None?
    requires rects[j].Contains(px, py)
    requires forall k :: j < k < |rects| ==> !rects[k].Contains(px, py)
    ensures Painted(rects, states, disk, |rects|, px, py) == Paint(Resolve(states, j).background)
  {
    LastMonitorWins(rects, states, disk, |rects|, j, px, py);
  }

  /**
   * `if scale_preview:` and `ratio = min(sp / total_w, sp / total_h)`, with
   * the ratio as the exact fraction sp / max(total_w, total_h): scaling
   * happens only for a non-zero side smaller than the canvas's longer side,
   * and then the new size is `(int(total_w * ratio), int(total_h * ratio))`:
   * the longer side becomes exactly sp, neither side grows, neither exceeds sp.
   */
  function PreviewSize(tw: Pos, th: Pos, scalePreview: Option<nat>): (size: Option<(int, int)>)
    ensures size.Some? <==> scalePreview.Some? && 0 < scalePreview.value && (scalePreview.value < tw || scalePreview.value < th)
    ensures size.Some? ==>
      var sp := scalePreview.value;
      && 0 <= size.value.0 < tw && 0 <= size.value.1 < th
      && size.value.0 <= sp && size.value.1 <= sp
      && (size.value.0 == sp || size.value.1 == sp)
    ensures size.Some? ==>
      var sp := scalePreview.value;
      var longer := if tw >= th then tw else th;
      && size.value.0 * longer <= tw * sp < (size.value.0 + 1) * longer
      && size.value.1 * longer <= th * sp < (size.value.1 + 1) * longer
  {
    if scalePreview.None? || scalePreview.value == 0 then None
    else
      var sp := scalePreview.value;
      var longer := if tw >= th then tw else th;
      if sp >= longer then None
      else
        ScaleSide(tw, sp, longer);
        ScaleSide(th, sp, longer);
        Some(((tw * sp) / longer, (th * sp) / longer))
  }

  lemma ScaleSide(side: Pos, sp: Pos, longer: Pos)
    requires side <= longer && sp < longer
    ensures 0 <= (side * sp) / longer <= sp
    ensures (side * sp) / longer < side
    ensures side == longer ==> (side * sp) / longer == sp
    ensures (side * sp) / longer * longer <= side * sp < ((side * sp) / longer + 1) * longer
    ensures (side * sp) / longer == 0 <==> side * sp < longer
  {
    FloorDiv(side * sp, longer);
    var q := (side * sp) / longer;
    MulLeft(side, longer, sp);
    assert q * longer <= longer * sp;
    MulCancel(q, sp, longer);
    MulLeftStrict(sp, longer, side);
    assert q * longer < side * longer;
    MulCancelStrict(q, side, longer);
    if side == longer {
      ModOfTile(side * sp, sp, longer);
    }
    assert (q + 1) * longer == q * longer + longer;
    if q > 0 {
      MulLeft(1, q, longer);
    }
  }

  /** A preview size with a side of 0, which `canvas.resize` rejects. */
  predicate PreviewCollapses(tw: Pos, th: Pos, scalePreview: Option<nat>) {
    var size := PreviewSize(tw, th, scalePreview);
    size.Some? && (size.value.0 == 0 || size.value.1 == 0)
  }

  /**
   * The preview collapses exactly when it scales and a side times the
   * preview size stays below the canvas's longer side.
   */
  lemma CollapseCondition(tw: Pos, th: Pos, sp: nat)
    ensures PreviewCollapses(tw, th, Some(sp)) <==>
      var longer := if tw >= th then tw else th;
      0 < sp < longer && (tw * sp < longer || th * sp < longer)
  {
    var longer := if tw >= th then tw else th;
    if 0 < sp < longer {
      ScaleSide(tw, sp, longer);
      ScaleSide(th, sp, longer);
    }
  }

  /** A 1920x1 canvas previewed at 1000 would be 1000x0. */
  lemma CollapseExample()
    ensures PreviewSize(1920, 1, Some(1000)) == Some((1000, 0))
    ensures PreviewCollapses(1920, 1, Some(1000))
  {
  }

  /** A 3840x1080 canvas previewed at 1000 becomes 1000x281. */
  lemma PreviewExample()
    ensures PreviewSize(3840, 1080, Some(1000)) == Some((1000, 281))
  {
  }

  /** The result of `compose_image`: the full canvas, or the canvas resized to a preview size. */
  datatype Rendering =
    | FullSize(canvas: array2<Pixel>)
    | Downscaled(canvas: array2<Pixel>, width: int, height: int)

  /**
   * One pass of the monitor loop: monitor i's region of the canvas becomes
   * its fitted picture, or a block of its background colour when it has no
   * usable image; every other pixel is kept.
   */
  method PasteMonitor(canvas: array2<Pixel>, rects: seq<Rect>, states: map<string, MonitorConfig>, disk: Disk, i: nat)
    requires i < |rects| && NonEmptyRects(rects)
    modifies canvas
    ensures forall px, py :: 0 <= px < canvas.Length0 && 0 <= py < canvas.Length1 ==>
      canvas[px, py] == if rects[i].Contains(px, py)
                        then MonitorPixel(Resolve(states, i), disk, rects[i].w, rects[i].h, px - rects[i].x, py - rects[i].y)
                        else old(canvas[px, py])
  {
    var rect := rects[i];
    var s := Resolve(states, i);
    var pic := LoadedPicture(s, disk);
    if pic.Some? {
      var img := ApplyMode(pic.value, rect.w, rect.h, s.mode, s.background);
      PasteImage(canvas, img, rect.x, rect.y);
    } else {
      var filler := NewImage(rect.w, rect.h, Solid(s.background));
      PasteImage(canvas, filler, rect.x, rect.y);
    }
  }

  /**
   * The monitor loop of `compose_image` over a canvas of the default
   * background: afterwards every pixel is what `Painted` says after all
   * monitors.
   */
  method PasteMonitors(canvas: array2<Pixel>, rects: seq<Rect>, states: map<string, MonitorConfig>, disk: Disk)
    requires NonEmptyRects(rects)
    requires forall px, py :: 0 <= px < canvas.Length0 && 0 <= py < canvas.Length1 ==> canvas[px, py] == Paint(DefaultBackground)
    modifies canvas
    ensures forall px, py :: 0 <= px < canvas.Length0 && 0 <= py < canvas.Length1 ==>
      canvas[px, py] == Painted(rects, states, disk, |rects|, px, py)
  {
    var i := 0;
    while i < |rects|
      invariant 0 <= i <= |rects|
      invariant forall px, py :: 0 <= px < canvas.Length0 && 0 <= py < canvas.Length1 ==>
        canvas[px, py] == Painted(rects, states, disk, i, px, py)
    {
      PasteMonitor(canvas, rects, states, disk, i);
      i := i + 1;
    }
  }

  /**
   * `compose_image(monitors, states, scale_preview)`. Fails for an empty
   * monitor list, and when the preview size has a side of 0; otherwise the
   * canvas has the normalised size, every pixel is what `Painted` says
   * after all monitors, and it is downscaled exactly when `PreviewSize`
   * says so.
   */
  method ComposeImage(monitors: seq<Rect>, states: map<string, MonitorConfig>, disk: Disk, scalePreview: Option<nat>)
    returns (r: Result<Rendering, LayoutError>)
    requires NonEmptyRects(monitors)
    ensures monitors == [] ==> r.Failure? && r.error == NoMonitors
    ensures monitors != [] ==>
      var L := Normalize(monitors).value;
      (r.Failure? <==> PreviewCollapses(L.width, L.height, scalePreview)) && (r.Failure? ==> r.error == EmptyPreview)
    ensures r.Success? ==>
      var L := Normalize(monitors).value;
      && 0 < L.width && 0 < L.height
      && fresh(r.value.canvas)
      && r.value.canvas.Length0 == L.width && r.value.canvas.Length1 == L.height
      && NonEmptyRects(L.rects)
      && (forall px, py :: 0 <= px < L.width && 0 <= py < L.height ==>
            r.value.canvas[px, py] == Painted(L.rects, states, disk, |L.rects|, px, py))
      && (r.value.Downscaled? <==> PreviewSize(L.width, L.height, scalePreview).Some?)
      && (r.value.Downscaled? ==> PreviewSize(L.width, L.height, scalePreview) == Some((r.value.width, r.value.height)))
      && (r.value.Downscaled? ==> 0 < r.value.width && 0 < r.value.height)
  {
    var layout := Normalize(monitors);
    if layout.Failure? {
      return Failure(layout.error);
    }
    var L := layout.value;
    var rects := L.rects;
    CanvasNotEmpty(monitors);
    var totalW: Pos, totalH: Pos := L.width, L.height;
    var canvas := NewImage(totalW, totalH, Solid(DefaultBackground));
    PasteMonitors(canvas, rects, states, disk);
    var size := PreviewSize(totalW, totalH, scalePreview);
    if size.Some? && (size.value.0 == 0 || size.value.1 == 0) {
      return Failure(EmptyPreview);
    }
    if size.Some? {
      r := Success(Downscaled(canvas, size.value.0, size.value.1));
    } else {
      r := Success(FullSize(canvas));
    }
  }

  /** For non-empty monitors the normalised canvas has positive size and the monitors stay non-empty. */
  lemma CanvasNotEmpty(monitors: seq<Rect>)
    requires monitors != [] && NonEmptyRects(monitors)
    ensures var L := Normalize(monitors).value;
      0 < L.width && 0 < L.height && NonEmptyRects(L.rects)
  {
    var L := Normalize(monitors).value;
    var w0 :| 0 <= w0 < |monitors| && L.rects[w0].Right() == L.width;
    var h0 :| 0 <= h0 < |monitors| && L.rects[h0].Bottom() == L.height;
    assert L.rects[w0].w == monitors[w0].w;
    assert L.rects[h0].h == monitors[h0].h;
  }
}
