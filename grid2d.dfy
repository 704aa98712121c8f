// The list-building helpers of the 2D grid renderer
// (`ui/src/gridview/render/grid2d.rs`): clipping cell positions to the visible
// render cells, the rectangles that make up solid and gradient borders and
// rectangle outlines, and the bookkeeping of mouse targets. Colours, z values
// and line widths are only copied here, so colours are a type parameter and
// z values and widths are reals; a render cell position is an unbounded
// integer vector.
module Grid2D {
  import opened Wrappers
  import opened Numbers

  datatype Axis2 = X | Y

  datatype IVec = IVec(x: int, y: int)

  function Offset(v: IVec, k: int): IVec
  {
    IVec(v.x + k, v.y + k)
  }

  predicate LessEq(a: IVec, b: IVec)
  {
    a.x <= b.x && a.y <= b.y
  }

  /** An integer rectangle given by its least and greatest cells, both
      included. */
  datatype IRect = IRect(min: IVec, max: IVec)

  predicate ValidRect(r: IRect)
  {
    LessEq(r.min, r.max)
  }

  predicate InRect(c: IVec, r: IRect)
  {
    LessEq(r.min, c) && LessEq(c, r.max)
  }

  function Min(a: int, b: int): int
  {
    if a <= b then a else b
  }

  function Max(a: int, b: int): int
  {
    if a <= b then b else a
  }

  /** `NdRect::span`: the least rectangle holding both cells. */
  function Span(a: IVec, b: IVec): (r: IRect)
    ensures ValidRect(r) && InRect(a, r) && InRect(b, r)
    ensures forall s: IRect :: InRect(a, s) && InRect(b, s) ==> LessEq(s.min, r.min) && LessEq(r.max, s.max)
  {
    IRect(IVec(Min(a.x, b.x), Min(a.y, b.y)), IVec(Max(a.x, b.x), Max(a.y, b.y)))
  }

  /** What the clipping helpers read from the renderer: the global cell at
      render cell (0, 0), the layer of a render cell (whose side is
      2^layer cells) and the visible render cells. */
  datatype View = View(origin: IVec, renderCellLayer: nat, visible: IRect)

  /** `div_floor` by a positive divisor; Dafny's `/` rounds down when the
      divisor is positive. */
  function DivFloor(a: int, d: nat): (q: int)
    requires d > 0
    ensures d * q <= a < d * q + d
  {
    a / d
  }

  /** The render cell holding a global cell, before clipping. */
  function RenderCellOf(view: View, p: IVec): IVec
  {
    var len := Pow2(view.renderCellLayer);
    IVec(DivFloor(p.x - view.origin.x, len), DivFloor(p.y - view.origin.y, len))
  }

  /** The render cell holding a global cell, moved to the nearest render cell
      at most 2 outside the visible ones. */
  function ClipCellPos(view: View, p: IVec): (r: IVec)
    requires ValidRect(view.visible)
    ensures LessEq(Offset(view.visible.min, -2), r) && LessEq(r, Offset(view.visible.max, 2))
  {
    var lo, hi := Offset(view.visible.min, -2), Offset(view.visible.max, 2);
    var c := RenderCellOf(view, p);
    IVec(Min(Max(c.x, lo.x), hi.x), Min(Max(c.y, lo.y), hi.y))
  }

  /** A render cell already within the band is returned unchanged, and a
      component outside it is moved to the nearer edge of the band. */
  lemma {:induction false} ClipCellPosSpec(view: View, p: IVec)
    requires ValidRect(view.visible)
    ensures var lo, hi, c := Offset(view.visible.min, -2), Offset(view.visible.max, 2), RenderCellOf(view, p);
      && (LessEq(lo, c) && LessEq(c, hi) ==> ClipCellPos(view, p) == c)
      && (c.x < lo.x ==> ClipCellPos(view, p).x == lo.x) && (c.x > hi.x ==> ClipCellPos(view, p).x == hi.x)
      && (c.y < lo.y ==> ClipCellPos(view, p).y == lo.y) && (c.y > hi.y ==> ClipCellPos(view, p).y == hi.y)
  {
  }

  lemma {:induction false} DivFloorMonotone(a: int, b: int, d: nat)
    requires d > 0 && a <= b
    ensures DivFloor(a, d) <= DivFloor(b, d)
  {
    var qa, qb := DivFloor(a, d), DivFloor(b, d);
    assert d * (qa - qb) < d * 1 by {
      assert d * (qa - qb) == d * qa - d * qb;
    }
    MulCancelLess(d, qa - qb, 1);
  }

  lemma {:induction false} MulCancelLess(d: nat, x: int, y: int)
    requires d > 0 && d * x < d * y
    ensures x < y
  {
    assert d * y - d * x == d * (y - x);
  }

  /** Clipping keeps the order of cells. */
  lemma {:induction false} ClipCellPosMonotone(view: View, p: IVec, q: IVec)
    requires ValidRect(view.visible) && LessEq(p, q)
    ensures LessEq(ClipCellPos(view, p), ClipCellPos(view, q))
  {
    var len := Pow2(view.renderCellLayer);
    DivFloorMonotone(p.x - view.origin.x, q.x - view.origin.x, len);
    DivFloorMonotone(p.y - view.origin.y, q.y - view.origin.y, len);
  }

  function ClipCellRect(view: View, cells: IRect): IRect
    requires ValidRect(view.visible)
  {
    Span(ClipCellPos(view, cells.min), ClipCellPos(view, cells.max))
  }

  /** A clipped rectangle's corners are the clipped corners of the
      rectangle. */
  lemma {:induction false} ClipCellRectSpec(view: View, cells: IRect)
    requires ValidRect(view.visible) && ValidRect(cells)
    ensures ClipCellRect(view, cells) == IRect(ClipCellPos(view, cells.min), ClipCellPos(view, cells.max))
  {
    ClipCellPosMonotone(view, cells.min, cells.max);
  }

  /** Width, whether the end squares are drawn, and direction of a line. */
  datatype LineParams = LineParams(width: real, includeEndpoints: bool, axis: Axis2)

  /** A line from `start` to `end` or, without line parameters, a filled
      rectangle with these corners. */
  datatype OverlayRect<C> = OverlayRect(start: IVec, end: IVec, z: real, startColour: C, endColour: C, lineParams: Option<LineParams>)

  /** A filled rectangle covering the cells of `rect`. */
  function SolidRect<C>(rect: IRect, z: real, colour: C): (r: OverlayRect<C>)
    ensures r.lineParams == None && r.startColour == colour && r.endColour == colour && r.z == z
    ensures forall c: IVec :: InRect(c, rect) <==> LessEq(r.start, c) && c.x < r.end.x && c.y < r.end.y
  {
    OverlayRect(rect.min, Offset(rect.max, 1), z, colour, colour, None)
  }

  /** A full-height line at column x. */
  function ColumnLine<C>(visible: IRect, x: int, z: real, width: real, colour: C): OverlayRect<C>
  {
    OverlayRect(IVec(x, visible.min.y), IVec(x, visible.max.y + 1), z, colour, colour, Some(LineParams(width, true, Y)))
  }

  /** A full-width line at row y. */
  function RowLine<C>(visible: IRect, y: int, z: real, width: real, colour: C): OverlayRect<C>
  {
    OverlayRect(IVec(visible.min.x, y), IVec(visible.max.x + 1, y), z, colour, colour, Some(LineParams(width, true, X)))
  }

  function SolidBorderRects<C>(visible: IRect, columns: seq<int>, rows: seq<int>, z: real, width: real, colour: C): seq<OverlayRect<C>>
  {
    seq(|columns|, i requires 0 <= i < |columns| => ColumnLine(visible, columns[i], z, width, colour))
    + seq(|rows|, j requires 0 <= j < |rows| => RowLine(visible, rows[j], z, width, colour))
  }

  /** One line per column, then one per row, each across the visible cells
      along its axis and in the one colour. */
  lemma {:induction false} SolidBorderRectsSpec<C>(visible: IRect, columns: seq<int>, rows: seq<int>, z: real, width: real, colour: C, k: nat)
    requires k < |columns| + |rows|
    ensures var r := SolidBorderRects(visible, columns, rows, z, width, colour);
      && |r| == |columns| + |rows|
      && r[k].startColour == colour && r[k].endColour == colour && r[k].z == z
      && r[k].lineParams.Some? && r[k].lineParams.value.includeEndpoints
      && (k < |columns| ==>
          && r[k].lineParams.value.axis == Y
          && r[k].start.x == r[k].end.x == columns[k]
          && r[k].start.y == visible.min.y && r[k].end.y == visible.max.y + 1)
      && (k >= |columns| ==>
          && r[k].lineParams.value.axis == X
          && r[k].start.y == r[k].end.y == rows[k - |columns|]
          && r[k].start.x == visible.min.x && r[k].end.x == visible.max.x + 1)
  {
  }

  /** `generate_solid_cell_borders`. */
  method SolidBorders<C>(visible: IRect, columns: seq<int>, rows: seq<int>, z: real, width: real, colour: C)
    returns (ret: seq<OverlayRect<C>>)
    ensures ret == SolidBorderRects(visible, columns, rows, z, width, colour)
  {
    ret := [];
    for i := 0 to |columns|
      invariant ret == seq(i, k requires 0 <= k < i => ColumnLine(visible, columns[k], z, width, colour))
    {
      ret := ret + [ColumnLine(visible, columns[i], z, width, colour)];
    }
    ghost var cols := ret;
    for j := 0 to |rows|
      invariant ret == cols + seq(j, k requires 0 <= k < j => RowLine(visible, rows[k], z, width, colour))
    {
      ret := ret + [RowLine(visible, rows[j], z, width, colour)];
    }
  }

  /** The square at one stop. */
  function StopRect<C>(stop: (IVec, C), z: real, width: real, axis: Axis2): OverlayRect<C>
  {
    OverlayRect(stop.0, stop.0, z, stop.1, stop.1, Some(LineParams(width, true, axis)))
  }

  /** The line between two stops, without their squares, fading from the
      first stop's colour to the second's. */
  function BetweenRect<C>(prev: (IVec, C), stop: (IVec, C), z: real, width: real, axis: Axis2): OverlayRect<C>
  {
    OverlayRect(prev.0, stop.0, z, prev.1, stop.1, Some(LineParams(width, false, axis)))
  }

  /** The rectangles of a gradient border: the even positions hold the stops'
      squares, the odd ones the lines between neighbouring stops. */
  function GradientRects<C>(stops: seq<(IVec, C)>, z: real, width: real, axis: Axis2): (r: seq<OverlayRect<C>>)
    ensures |r| == if |stops| == 0 then 0 else 2 * |stops| - 1
  {
    var n := if |stops| == 0 then 0 else 2 * |stops| - 1;
    seq(n, k requires 0 <= k < n =>
      if k % 2 == 0 then StopRect(stops[k / 2], z, width, axis)
      else BetweenRect(stops[k / 2], stops[k / 2 + 1], z, width, axis))
  }

  /** One more stop adds the line from the last stop (if there is one) and
      the new stop's square. */
  lemma {:induction false} GradientRectsSnoc<C>(stops: seq<(IVec, C)>, stop: (IVec, C), z: real, width: real, axis: Axis2)
    ensures GradientRects(stops + [stop], z, width, axis) ==
      GradientRects(stops, z, width, axis)
      + (if |stops| == 0 then [] else [BetweenRect(stops[|stops| - 1], stop, z, width, axis)])
      + [StopRect(stop, z, width, axis)]
  {
    var s := stops + [stop];
    var lhs := GradientRects(s, z, width, axis);
    var rhs := GradientRects(stops, z, width, axis)
      + (if |stops| == 0 then [] else [BetweenRect(stops[|stops| - 1], stop, z, width, axis)])
      + [StopRect(stop, z, width, axis)];
    assert |lhs| == |rhs|;
    forall k | 0 <= k < |lhs|
      ensures lhs[k] == rhs[k]
    {
      if k < |GradientRects(stops, z, width, axis)| {
        assert k / 2 + (k % 2) < |stops|;
        assert s[k / 2] == stops[k / 2];
        if k % 2 == 1 {
          assert s[k / 2 + 1] == stops[k / 2 + 1];
        }
      }
    }
  }

  /** `generate_gradient_cell_border`. */
  method GradientBorder<C>(stops: seq<(IVec, C)>, z: real, width: real, axis: Axis2)
    returns (ret: seq<OverlayRect<C>>)
    ensures ret == GradientRects(stops, z, width, axis)
  {
    ret := [];
    var prevStop: Option<(IVec, C)> := None;
    for i := 0 to |stops|
      invariant ret == GradientRects(stops[..i], z, width, axis)
      invariant prevStop == if i == 0 then None else Some(stops[i - 1])
    {
      var stop := stops[i];
      GradientRectsSnoc(stops[..i], stop, z, width, axis);
      assert stops[..i + 1] == stops[..i] + [stop];
      if prevStop.Some? {
        ret := ret + [BetweenRect(prevStop.value, stop, z, width, axis)];
      }
      ret := ret + [StopRect(stop, z, width, axis)];
      prevStop := Some(stop);
    }
    assert stops[..|stops|] == stops;
  }

  /** When every stop lies on one column, so does every rectangle of the
      border; the same holds for rows. */
  lemma {:induction false} GradientRectsOnLine<C>(stops: seq<(IVec, C)>, z: real, width: real, axis: Axis2, k: nat)
    requires k < |GradientRects(stops, z, width, axis)|
    ensures (forall i :: 0 <= i < |stops| ==> stops[i].0.x == stops[0].0.x) ==>
      GradientRects(stops, z, width, axis)[k].start.x == GradientRects(stops, z, width, axis)[k].end.x == stops[0].0.x
    ensures (forall i :: 0 <= i < |stops| ==> stops[i].0.y == stops[0].0.y) ==>
      GradientRects(stops, z, width, axis)[k].start.y == GradientRects(stops, z, width, axis)[k].end.y == stops[0].0.y
  {
    assert k / 2 < |stops|;
    if k % 2 == 1 {
      assert k / 2 + 1 < |stops|;
    }
  }

  datatype HighlightParams = HighlightParams(fill: bool, crosshairs: bool)

  /** The colours of an outline: the given colour, its faded form for the
      crosshair ends, its darker form for the fill, and the gridline colour
      drawn beneath crosshairs. */
  datatype Palette<C> = Palette(bright: C, dull: C, fill: C, gridlines: C)

  function KeepBright<C(==)>(stops: seq<(int, C)>, bright: C): (r: seq<(int, C)>)
    ensures forall i :: 0 <= i < |r| ==> r[i] in stops && r[i].1 == bright
    ensures forall s :: s in stops && s.1 == bright ==> s in r
  {
    if |stops| == 0 then [] else
    var last := stops[|stops| - 1];
    KeepBright(stops[..|stops| - 1], bright) + (if last.1 == bright then [last] else [])
  }

  /** The filter keeps order: filtering a concatenation filters each part,
      and a single stop is kept iff it is bright. */
  lemma {:induction false} KeepBrightAppend<C>(a: seq<(int, C)>, b: seq<(int, C)>, bright: C)
    ensures KeepBright(a + b, bright) == KeepBright(a, bright) + KeepBright(b, bright)
    ensures |b| == 1 ==> KeepBright(b, bright) == (if b[0].1 == bright then b else [])
    decreases |b|
  {
    if |b| == 1 {
      assert b[..0] == [];
    }
    if b == [] {
      assert a + b == a;
    } else {
      var b' := b[..|b| - 1];
      assert (a + b)[..|a + b| - 1] == a + b';
      assert (a + b)[|a + b| - 1] == b[|b| - 1];
      KeepBrightAppend(a, b', bright);
    }
  }

  /** The stops of one outline axis: from the edge of the view to the
      rectangle and on to the other edge, bright only on the rectangle;
      without crosshairs only the bright stops remain. */
  function Stops<C(==)>(lo: int, a: int, b: int, hi: int, palette: Palette<C>, crosshairs: bool): seq<(int, C)>
  {
    var all := [(lo, palette.dull), (a - 1, palette.dull), (a, palette.bright),
                (b, palette.bright), (b + 1, palette.dull), (hi, palette.dull)];
    if crosshairs then all else KeepBright(all, palette.bright)
  }

  /** With crosshairs there are six stops; without, and with a faded colour
      that differs from the bright one, exactly the two on the rectangle. */
  lemma {:induction false} StopsSpec<C>(lo: int, a: int, b: int, hi: int, palette: Palette<C>, crosshairs: bool)
    ensures crosshairs ==> |Stops(lo, a, b, hi, palette, crosshairs)| == 6
    ensures !crosshairs && palette.dull != palette.bright ==>
      Stops(lo, a, b, hi, palette, crosshairs) == [(a, palette.bright), (b, palette.bright)]
  {
    var all := [(lo, palette.dull), (a - 1, palette.dull), (a, palette.bright),
                (b, palette.bright), (b + 1, palette.dull), (hi, palette.dull)];
    if !crosshairs && palette.dull != palette.bright {
      assert all[..5] == all[..4] + [all[4]];
      assert all[..4] == all[..3] + [all[3]];
      assert all[..3] == all[..2] + [all[2]];
      assert all[..2] == all[..1] + [all[1]];
      assert all[..1] == [] + [all[0]];
      assert KeepBright(all[..1], palette.bright) == [];
      assert KeepBright(all[..2], palette.bright) == [];
      assert KeepBright(all[..3], palette.bright) == [all[2]];
      assert KeepBright(all[..4], palette.bright) == [all[2], all[3]];
      assert KeepBright(all[..5], palette.bright) == [all[2], all[3]];
    }
  }

  /** The stops of one axis placed on a column. */
  function AtColumn<C>(x: int, stops: seq<(int, C)>): (r: seq<(IVec, C)>)
    ensures |r| == |stops|
    ensures forall i :: 0 <= i < |r| ==> r[i] == (IVec(x, stops[i].0), stops[i].1)
  {
    seq(|stops|, i requires 0 <= i < |stops| => (IVec(x, stops[i].0), stops[i].1))
  }

  /** The stops of one axis placed on a row. */
  function AtRow<C>(y: int, stops: seq<(int, C)>): (r: seq<(IVec, C)>)
    ensures |r| == |stops|
    ensures forall i :: 0 <= i < |r| ==> r[i] == (IVec(stops[i].0, y), stops[i].1)
  {
    seq(|stops|, i requires 0 <= i < |stops| => (IVec(stops[i].0, y), stops[i].1))
  }

  /** The corner at which the outline ends: past the rectangle's last cell
      when a render cell is drawn more than 1.5 pixels wide, on it
      otherwise. */
  function UpperCorner(rect: IRect, morePixelsThanCell: bool): IVec
  {
    Offset(rect.max, if morePixelsThanCell then 1 else 0)
  }

  /** The rectangles of an outline: gridlines beneath crosshairs, the two
      vertical borders, the two horizontal ones, then the fill. */
  function OutlineRects<C(==)>(visible: IRect, rect: IRect, z: real, underZ: real, width: real, palette: Palette<C>,
                               params: HighlightParams, morePixelsThanCell: bool): seq<OverlayRect<C>>
  {
    var a, b := rect.min, UpperCorner(rect, morePixelsThanCell);
    var hStops := Stops(visible.min.x, a.x, b.x, visible.max.x + 1, palette, params.crosshairs);
    var vStops := Stops(visible.min.y, a.y, b.y, visible.max.y + 1, palette, params.crosshairs);
    var under := if params.crosshairs then SolidBorderRects(visible, [a.x, b.x], [a.y, b.y], underZ, width, palette.gridlines) else [];
    var lines := under
      + GradientRects(AtColumn(a.x, vStops), z, width, Y)
      + GradientRects(AtColumn(b.x, vStops), z, width, Y)
      + GradientRects(AtRow(a.y, hStops), z, width, X)
      + GradientRects(AtRow(b.y, hStops), z, width, X);
    if params.fill then lines + [OverlayRect(a, b, z, palette.fill, palette.fill, None)] else lines
  }

  /** How many rectangles an outline has, and that a requested fill comes
      last and runs from the rectangle's first cell to the upper corner. */
  lemma {:induction false} OutlineRectsSpec<C>(visible: IRect, rect: IRect, z: real, underZ: real, width: real, palette: Palette<C>,
                                                   params: HighlightParams, morePixelsThanCell: bool)
    ensures var r := OutlineRects(visible, rect, z, underZ, width, palette, params, morePixelsThanCell);
      var n := |Stops(visible.min.x, rect.min.x, UpperCorner(rect, morePixelsThanCell).x, visible.max.x + 1, palette, params.crosshairs)|;
      && (params.crosshairs ==> |r| == 4 + 4 * 11 + (if params.fill then 1 else 0))
      && (!params.crosshairs && palette.dull != palette.bright ==> |r| == 4 * 3 + (if params.fill then 1 else 0))
      && n >= 1
      && (params.fill ==> r[|r| - 1] == OverlayRect(rect.min, UpperCorner(rect, morePixelsThanCell), z, palette.fill, palette.fill, None))
  {
    var a, b := rect.min, UpperCorner(rect, morePixelsThanCell);
    StopsSpec(visible.min.x, a.x, b.x, visible.max.x + 1, palette, params.crosshairs);
    StopsSpec(visible.min.y, a.y, b.y, visible.max.y + 1, palette, params.crosshairs);
  }

  /** `generate_cell_rect_outline`. `underZ` is the z value just beneath `z`
      at which the source draws gridlines under crosshairs, and
      `morePixelsThanCell` says whether a render cell is more than 1.5 pixels
      wide; the loops over the two columns and the two rows are unrolled. */
  method CellRectOutline<C(==)>(visible: IRect, rect: IRect, z: real, underZ: real, width: real, palette: Palette<C>,
                                params: HighlightParams, morePixelsThanCell: bool)
    returns (ret: seq<OverlayRect<C>>)
    ensures ret == OutlineRects(visible, rect, z, underZ, width, palette, params, morePixelsThanCell)
  {
    var a := rect.min;
    var b := Offset(rect.max, if morePixelsThanCell then 1 else 0);
    var hStops := Stops(visible.min.x, a.x, b.x, visible.max.x + 1, palette, params.crosshairs);
    var vStops := Stops(visible.min.y, a.y, b.y, visible.max.y + 1, palette, params.crosshairs);
    var under: seq<OverlayRect<C>> := [];
    if params.crosshairs {
      under := SolidBorders(visible, [a.x, b.x], [a.y, b.y], underZ, width, palette.gridlines);
    }
    var left := GradientBorder(AtColumn(a.x, vStops), z, width, Y);
    var right := GradientBorder(AtColumn(b.x, vStops), z, width, Y);
    var top := GradientBorder(AtRow(a.y, hStops), z, width, X);
    var bottom := GradientBorder(AtRow(b.y, hStops), z, width, X);
    ret := under + left + right + top + bottom;
    if params.fill {
      ret := ret + [OverlayRect(a, b, z, palette.fill, palette.fill, None)];
    }
  }

  const U32_MODULUS: nat := 0x1_0000_0000

  type U32 = n: nat | n < U32_MODULUS

  /** A mouse target vertex: a position and the ID of its target. */
  datatype Vertex = Vertex(x: real, y: real, z: real, targetId: U32)

  /** A rectangle in render cell coordinates. */
  datatype FRect = FRect(minX: real, minY: real, maxX: real, maxY: real)

  /** The vertices of one triangle, at depth 0. */
  function TriVertices(points: seq<(real, real)>, id: U32): (r: seq<Vertex>)
    ensures |r| == |points|
    ensures forall i :: 0 <= i < |r| ==> r[i] == Vertex(points[i].0, points[i].1, 0.0, id)
  {
    seq(|points|, i requires 0 <= i < |points| => Vertex(points[i].0, points[i].1, 0.0, id))
  }

  /** The two triangles of a quad: (min, min) (max, min) (min, max), then
      (max, max) (min, max) (max, min). */
  function QuadVertices(cells: FRect, id: U32): seq<Vertex>
  {
    var c0, c1 := (cells.minX, cells.minY), (cells.maxX, cells.minY);
    var c2, c3 := (cells.minX, cells.maxY), (cells.maxX, cells.maxY);
    TriVertices([c0, c1, c2], id) + TriVertices([c3, c2, c1], id)
  }

  /** A quad has six vertices, all with its ID, and reaches all four
      corners. */
  lemma {:induction false} QuadVerticesSpec(cells: FRect, id: U32)
    ensures var v := QuadVertices(cells, id);
      && |v| == 6
      && (forall i :: 0 <= i < 6 ==> v[i].targetId == id && v[i].z == 0.0)
      && (set i | 0 <= i < 6 :: (v[i].x, v[i].y)) ==
         {(cells.minX, cells.minY), (cells.maxX, cells.minY), (cells.minX, cells.maxY), (cells.maxX, cells.maxY)}
  {
    var v := QuadVertices(cells, id);
    assert v[0].x == cells.minX && v[0].y == cells.minY;
    assert v[1].x == cells.maxX && v[1].y == cells.minY;
    assert v[2].x == cells.minX && v[2].y == cells.maxY;
    assert v[3].x == cells.maxX && v[3].y == cells.maxY;
    assert v[4].x == cells.minX && v[4].y == cells.maxY;
    assert v[5].x == cells.maxX && v[5].y == cells.minY;
  }

  /** `len as u32`. */
  function TargetId(len: nat): U32
  {
    len % U32_MODULUS
  }

  /** The target with an ID: 0 means none, ID i names the i-th target. */
  function Lookup<D>(targets: seq<D>, id: nat): (r: Option<D>)
    ensures r.Some? <==> 1 <= id <= |targets|
    ensures r.Some? ==> r.value == targets[id - 1]
  {
    if id == 0 then None
    else if id - 1 < |targets| then Some(targets[id - 1])
    else None
  }

  /** Giving a new target the length of the extended list as its ID makes
      that ID name it, and leaves the earlier IDs naming what they named
      (while the IDs fit in 32 bits). */
  lemma {:induction false} LookupAfterPush<D>(targets: seq<D>, d: D, id: nat)
    requires |targets| + 1 < U32_MODULUS
    ensures TargetId(|targets + [d]|) == |targets| + 1
    ensures Lookup(targets + [d], TargetId(|targets + [d]|)) == Some(d)
    ensures id != |targets| + 1 ==> Lookup(targets + [d], id) == Lookup(targets, id)
  {
    if 1 <= id <= |targets| {
      assert (targets + [d])[id - 1] == targets[id - 1];
    }
  }

  /** Float to `u32` conversion: truncation toward zero, `None` outside the
      representable range. */
  function ToU32(r: real): (n: Option<U32>)
    ensures n.Some? <==> -1.0 < r < U32_MODULUS as real
    ensures n.Some? ==> n.value as real <= r + 1.0 && (r >= 0.0 ==> n.value as real <= r < n.value as real + 1.0)
  {
    if -1.0 < r < U32_MODULUS as real then Some(if r < 0.0 then 0 else r.Floor) else None
  }

  /** The target under the cursor, if any: the picker gives the ID drawn at
      the cursor's pixel. */
  function TargetUnderCursor<D>(targets: seq<D>, cursor: Option<(real, real)>, picker: (U32, U32) -> U32): (r: Option<D>)
    ensures r.Some? ==> r.value in targets
    ensures cursor.None? ==> r.None?
    ensures r.Some? <==>
      && cursor.Some?
      && -1.0 < cursor.value.0 < U32_MODULUS as real && -1.0 < cursor.value.1 < U32_MODULUS as real
      && 1 <= picker(ToU32(cursor.value.0).value, ToU32(cursor.value.1).value) <= |targets|
    ensures r.Some? ==> r.value == targets[picker(ToU32(cursor.value.0).value, ToU32(cursor.value.1).value) - 1]
  {
    match cursor
    case None => None
    case Some((x, y)) =>
      var px, py := ToU32(x), ToU32(y);
      if px.None? || py.None? then None else Lookup(targets, picker(px.value, py.value))
  }

  /** The mouse targets gathered while rendering, and their triangles. */
  class MouseTargets<D, M(==)> {
    var targets: seq<D>
    var tris: seq<Vertex>
    /** The modifier keys the render is for (`params.modifiers`). */
    const modifiers: M

    constructor(modifiers: M)
      ensures targets == [] && tris == [] && this.modifiers == modifiers
    {
      this.modifiers := modifiers;
      targets := [];
      tris := [];
    }

    /** `_add_mouse_target_tri`: the triangle is drawn only for matching
        modifiers. */
    method AddTri(m: M, points: seq<(real, real)>, id: U32)
      modifies this
      ensures targets == old(targets)
      ensures tris == old(tris) + (if m == modifiers then TriVertices(points, id) else [])
    {
      if m == modifiers {
        for i := 0 to |points|
          invariant targets == old(targets)
          invariant tris == old(tris) + TriVertices(points[..i], id)
        {
          assert TriVertices(points[..i + 1], id) == TriVertices(points[..i], id) + [Vertex(points[i].0, points[i].1, 0.0, id)];
          tris := tris + [Vertex(points[i].0, points[i].1, 0.0, id)];
        }
        assert points[..|points|] == points;
      }
    }

    /** `add_mouse_target_quad`: records the target and draws its two
        triangles with the new list length as ID. */
    method AddQuad(m: M, cells: FRect, data: D) returns (id: U32)
      modifies this
      ensures targets == old(targets) + [data] && id == TargetId(|targets|)
      ensures tris == old(tris) + (if m == modifiers then QuadVertices(cells, id) else [])
      ensures |tris| == |old(tris)| + (if m == modifiers then 6 else 0)
    {
      targets := targets + [data];
      id := TargetId(|targets|);
      var c0, c1 := (cells.minX, cells.minY), (cells.maxX, cells.minY);
      var c2, c3 := (cells.minX, cells.maxY), (cells.maxX, cells.maxY);
      AddTri(m, [c0, c1, c2], id);
      AddTri(m, [c3, c2, c1], id);
    }
  }
}
