/**
 * Normalisation of monitor geometry (composer.py, `compose_image`, first
 * half): the rectangles reported for the monitors, whose origins may be
 * negative, are shifted so that the smallest x and the smallest y become 0,
 * and the canvas is the smallest box from the origin that holds them all.
 */
module Geometry {
  import opened Base

  /** A monitor's geometry: origin (x, y) in desktop coordinates, width and height. */
  datatype Rect = Rect(x: int, y: int, w: nat, h: nat) {
    function Right(): int { x + w }
    function Bottom(): int { y + h }
    predicate Contains(px: int, py: int) {
      x <= px < x + w && y <= py < y + h
    }
  }

  /** The normalised rectangles, in monitor order, and the canvas size. */
  datatype Layout = Layout(rects: seq<Rect>, width: int, height: int)

  /**
   * Why `compose_image` raises: `min()` of an empty sequence, when there is
   * no monitor at all, or Pillow's `resize` refusing a preview size with a
   * side of 0, which a very narrow canvas truncates to.
   */
  datatype LayoutError = NoMonitors | EmptyPreview

  function Min(xs: seq<int>): (m: int)
    requires |xs| > 0
    ensures forall i :: 0 <= i < |xs| ==> m <= xs[i]
    ensures exists i :: 0 <= i < |xs| && xs[i] == m
  {
    if |xs| == 1 then xs[0]
    else
      var rest := Min(xs[1..]);
      assert forall i :: 1 <= i < |xs| ==> xs[i] == xs[1..][i - 1];
      if xs[0] <= rest then xs[0] else rest
  }

  function Max(xs: seq<int>): (m: int)
    requires |xs| > 0
    ensures forall i :: 0 <= i < |xs| ==> xs[i] <= m
    ensures exists i :: 0 <= i < |xs| && xs[i] == m
  {
    if |xs| == 1 then xs[0]
    else
      var rest := Max(xs[1..]);
      assert forall i :: 1 <= i < |xs| ==> xs[i] == xs[1..][i - 1];
      if xs[0] >= rest then xs[0] else rest
  }

  function Lefts(rs: seq<Rect>): (xs: seq<int>)
    ensures |xs| == |rs| && forall i :: 0 <= i < |rs| ==> xs[i] == rs[i].x
  {
    seq(|rs|, i requires 0 <= i < |rs| => rs[i].x)
  }

  function Tops(rs: seq<Rect>): (ys: seq<int>)
    ensures |ys| == |rs| && forall i :: 0 <= i < |rs| ==> ys[i] == rs[i].y
  {
    seq(|rs|, i requires 0 <= i < |rs| => rs[i].y)
  }

  function Rights(rs: seq<Rect>): (xs: seq<int>)
    ensures |xs| == |rs| && forall i :: 0 <= i < |rs| ==> xs[i] == rs[i].Right()
  {
    seq(|rs|, i requires 0 <= i < |rs| => rs[i].Right())
  }

  function Bottoms(rs: seq<Rect>): (ys: seq<int>)
    ensures |ys| == |rs| && forall i :: 0 <= i < |rs| ==> ys[i] == rs[i].Bottom()
  {
    seq(|rs|, i requires 0 <= i < |rs| => rs[i].Bottom())
  }

  /** Every rectangle moved by (-dx, -dy), sizes kept. */
  function Translate(rs: seq<Rect>, dx: int, dy: int): (ts: seq<Rect>)
    ensures |ts| == |rs|
    ensures forall i :: 0 <= i < |rs| ==> ts[i] == Rect(rs[i].x - dx, rs[i].y - dy, rs[i].w, rs[i].h)
  {
    seq(|rs|, i requires 0 <= i < |rs| => Rect(rs[i].x - dx, rs[i].y - dy, rs[i].w, rs[i].h))
  }

  /**
   * The normalised layout of `raw`: one translation vector for all
   * rectangles, sizes unchanged, the smallest x and y both 0, and a canvas
   * whose right and bottom edges are each touched by some monitor and
   * passed by none.
   */
  function Normalize(raw: seq<Rect>): (r: Result<Layout, LayoutError>)
    ensures r.Failure? <==> raw == []
    ensures r.Success? ==>
      var L := r.value;
      && |L.rects| == |raw|
      && (forall i :: 0 <= i < |raw| ==>
            && L.rects[i].w == raw[i].w && L.rects[i].h == raw[i].h
            && L.rects[i].x - raw[i].x == L.rects[0].x - raw[0].x
            && L.rects[i].y - raw[i].y == L.rects[0].y - raw[0].y)
      && (forall i :: 0 <= i < |raw| ==> 0 <= L.rects[i].x && 0 <= L.rects[i].y)
      && (exists i :: 0 <= i < |raw| && L.rects[i].x == 0)
      && (exists i :: 0 <= i < |raw| && L.rects[i].y == 0)
      && (forall i :: 0 <= i < |raw| ==> L.rects[i].Right() <= L.width && L.rects[i].Bottom() <= L.height)
      && (exists i :: 0 <= i < |raw| && L.rects[i].Right() == L.width)
      && (exists i :: 0 <= i < |raw| && L.rects[i].Bottom() == L.height)
  {
    if raw == [] then Failure(NoMonitors)
    else
      var minX := Min(Lefts(raw));
      var minY := Min(Tops(raw));
      var norm := Translate(raw, minX, minY);
      var L := Layout(norm, Max(Rights(norm)), Max(Bottoms(norm)));
      assert forall i :: 0 <= i < |raw| ==> Lefts(raw)[i] - minX == norm[i].x;
      assert forall i :: 0 <= i < |raw| ==> Tops(raw)[i] - minY == norm[i].y;
      Success(L)
  }

  /** Every monitor lies inside the canvas, so the canvas holds every pixel any monitor covers. */
  lemma MonitorsInsideCanvas(raw: seq<Rect>, i: nat, px: int, py: int)
    requires raw != [] && i < |raw|
    requires Normalize(raw).value.rects[i].Contains(px, py)
    ensures 0 <= px < Normalize(raw).value.width && 0 <= py < Normalize(raw).value.height
  {
  }

  /** Normalisation keeps the distance between any two monitors. */
  lemma RelativePositionsKept(raw: seq<Rect>, i: nat, j: nat)
    requires i < |raw| && j < |raw|
    ensures var L := Normalize(raw).value;
      L.rects[i].x - L.rects[j].x == raw[i].x - raw[j].x &&
      L.rects[i].y - L.rects[j].y == raw[i].y - raw[j].y
  {
  }

  /** A single monitor is moved to the origin and the canvas is its own size. */
  lemma SingleMonitorLayout(m: Rect)
    ensures Normalize([m]) == Success(Layout([Rect(0, 0, m.w, m.h)], m.w, m.h))
  {
    var L := Normalize([m]).value;
    assert L.rects[0].x == 0 && L.rects[0].y == 0;
    assert L.rects == [Rect(0, 0, m.w, m.h)];
  }

  /** A landscape monitor beside a rotated one share a 3000x1920 canvas; the second starts at x = 1920. */
  lemma RotatedNeighbourExample()
    ensures var L := Normalize([Rect(0, 0, 1920, 1080), Rect(1920, 0, 1080, 1920)]).value;
      L.width == 3000 && L.height == 1920 && L.rects[1].x == 1920
  {
    var raw := [Rect(0, 0, 1920, 1080), Rect(1920, 0, 1080, 1920)];
    assert Lefts(raw) == [0, 1920] && Tops(raw) == [0, 0];
    assert Min([0, 1920]) == 0 && Min([0, 0]) == 0;
    var norm := Translate(raw, 0, 0);
    assert norm == raw;
    assert Rights(raw) == [1920, 3000] && Bottoms(raw) == [1080, 1920];
    assert Max([1920, 3000]) == 3000 && Max([1080, 1920]) == 1920;
  }

  /** Negative origins: monitors left of and above the primary are shifted right and down. */
  lemma NegativeOriginExample()
    ensures var L := Normalize([Rect(0, 0, 1920, 1080), Rect(-1280, -200, 1280, 1024)]).value;
      L.rects == [Rect(1280, 200, 1920, 1080), Rect(0, 0, 1280, 1024)] && L.width == 3200 && L.height == 1280
  {
    var raw := [Rect(0, 0, 1920, 1080), Rect(-1280, -200, 1280, 1024)];
    assert Lefts(raw) == [0, -1280] && Tops(raw) == [0, -200];
    assert Min([0, -1280]) == -1280 && Min([0, -200]) == -200;
    var norm := Translate(raw, -1280, -200);
    assert norm == [Rect(1280, 200, 1920, 1080), Rect(0, 0, 1280, 1024)];
    assert Rights(norm) == [3200, 1280] && Bottoms(norm) == [1280, 1024];
    assert Max([3200, 1280]) == 3200 && Max([1280, 1024]) == 1280;
  }
}
