/** Area windowing: the optional area-of-interest box is snapped to whole
    grid cells, clamped to the grid and turned back into a geographic box
    (chrtrGeotiff.cpp, `slotCustomButtonClicked`, lines 456-457 and 520-562). */
module AreaWindow {
  import opened CNumeric
  import opened Results

  /** Geographic bounds of a grid header (`NV_F64_MBR`), in degrees. */
  datatype Bounds = Bounds(wlon: real, elon: real, slat: real, nlat: real)

  /** A minimum bounding rectangle (`NV_F64_XYMBR`), in degrees. */
  datatype Box = Box(minX: real, minY: real, maxX: real, maxY: real)

  /** What the renderer takes from a CHRTR or CHRTR2 header. */
  datatype GridHeader = GridHeader(
    width: int, height: int, bounds: Bounds, xCellDegrees: real, yCellDegrees: real)

  /** A header describes a non-empty grid whose bounds are exactly its cells. */
  predicate ValidHeader(h: GridHeader)
  {
    h.width > 0 && h.height > 0 && h.xCellDegrees > 0.0 && h.yCellDegrees > 0.0 &&
    h.bounds.elon == h.bounds.wlon + h.width as real * h.xCellDegrees &&
    h.bounds.nlat == h.bounds.slat + h.height as real * h.yCellDegrees
  }

  /** The bounding box of an area file: west not east of east, south not north of north. */
  predicate ValidBox(a: Box)
  {
    a.minX <= a.maxX && a.minY <= a.maxY
  }

  /** The cells read from the grid and the geographic box they cover. */
  datatype Window = Window(xStart: int, yStart: int, width: int, height: int, box: Box)

  datatype AreaError = AreaOutsideGrid

  /** The area lies wholly outside the grid; touching edges do not count. */
  predicate Outside(a: Box, b: Bounds)
  {
    a.minY > b.nlat || a.maxY < b.slat || a.minX > b.elon || a.maxX < b.wlon
  }

  /** The box covered by `width` x `height` cells starting at cell (`xStart`, `yStart`). */
  function CellBox(h: GridHeader, xStart: int, yStart: int, width: int, height: int): Box
  {
    var minX := h.bounds.wlon + xStart as real * h.xCellDegrees;
    var minY := h.bounds.slat + yStart as real * h.yCellDegrees;
    Box(minX, minY, minX + width as real * h.xCellDegrees, minY + height as real * h.yCellDegrees)
  }

  /** The window lies inside the grid and its box is the box of its cells. */
  predicate InGrid(w: Window, h: GridHeader)
  {
    0 <= w.xStart && 0 <= w.width && w.xStart + w.width <= h.width &&
    0 <= w.yStart && 0 <= w.height && w.yStart + w.height <= h.height &&
    w.box == CellBox(h, w.xStart, w.yStart, w.width, w.height)
  }

  /** Offset of the cell nearest to `coordinate`, before clamping. */
  function SnapOffset(coordinate: real, origin: real, cellDegrees: real): int
    requires cellDegrees > 0.0
  {
    Nint((coordinate - origin) / cellDegrees)
  }

  /** `if (start < 0) start = 0` */
  function ClampStart(start: int): int
  {
    if start < 0 then 0 else start
  }

  /** `if (start + extent > limit) extent = limit - start` */
  function ClampExtent(start: int, extent: int, limit: int): int
  {
    if start + extent > limit then limit - start else extent
  }

  /** Without an area the whole grid is used; otherwise an area wholly outside
      the grid is refused, and the area's edges are snapped to cells, clamped
      to the grid, and the box is re-derived from the clamped cells. */
  function SelectArea(h: GridHeader, area: Option<Box>): (r: Result<Window, AreaError>)
    requires ValidHeader(h)
    requires area.Some? ==> ValidBox(area.value)
    ensures r.Failure? <==> area.Some? && Outside(area.value, h.bounds)
    ensures r.Success? ==> InGrid(r.value, h)
    ensures area.None? ==> r == Success(Window(0, 0, h.width, h.height, CellBox(h, 0, 0, h.width, h.height)))
  {
    match area
    case None =>
      var b := h.bounds;
      Success(Window(0, 0, h.width, h.height, Box(b.wlon, b.slat, b.elon, b.nlat)))
    case Some(a) =>
      if Outside(a, h.bounds) then Failure(AreaOutsideGrid)
      else
        var x := SnapAxis(a.minX, a.maxX, h.bounds.wlon, h.xCellDegrees, h.width);
        var y := SnapAxis(a.minY, a.maxY, h.bounds.slat, h.yCellDegrees, h.height);
        Success(Window(x.0, y.0, x.1, y.1, CellBox(h, x.0, y.0, x.1, y.1)))
  }

  /** One axis of the snapping: the area's low edge snapped to a cell offset
      and clamped to the grid, and its extent in cells, clamped so that the
      window ends inside the grid. */
  function SnapAxis(lo: real, hi: real, origin: real, cellDegrees: real, cells: int): (r: (int, int))
    requires cellDegrees > 0.0 && cells >= 0 && lo <= hi && lo <= origin + cells as real * cellDegrees
    ensures 0 <= r.0 && 0 <= r.1 && r.0 + r.1 <= cells
  {
    var start := ClampStart(SnapOffset(lo, origin, cellDegrees));
    SnapWithinGrid(lo, origin + cells as real * cellDegrees, origin, cellDegrees, cells);
    ExtentNonNegative(lo, hi, cellDegrees);
    (start, ClampExtent(start, Nint((hi - lo) / cellDegrees), cells))
  }

  /** An edge at or before the far side of the grid snaps to an offset no
      larger than the grid's cell count. */
  lemma SnapWithinGrid(coordinate: real, far: real, origin: real, cellDegrees: real, cells: int)
    requires cellDegrees > 0.0 && far == origin + cells as real * cellDegrees
    requires coordinate <= far
    ensures SnapOffset(coordinate, origin, cellDegrees) <= cells
  {
    assert (far - origin) / cellDegrees == cells as real;
    assert (coordinate - origin) / cellDegrees <= (far - origin) / cellDegrees;
    NintMonotone((coordinate - origin) / cellDegrees, cells as real);
    NintOfWhole(cells);
  }

  /** A well-formed box spans a non-negative number of cells. */
  lemma ExtentNonNegative(lo: real, hi: real, cellDegrees: real)
    requires cellDegrees > 0.0 && lo <= hi
    ensures Nint((hi - lo) / cellDegrees) >= 0
  {
  }

  /** The box of a window inside the grid lies inside the grid's bounds. */
  lemma BoxWithinBounds(w: Window, h: GridHeader)
    requires ValidHeader(h) && InGrid(w, h)
    ensures h.bounds.wlon <= w.box.minX <= w.box.maxX <= h.bounds.elon
    ensures h.bounds.slat <= w.box.minY <= w.box.maxY <= h.bounds.nlat
  {
    AxisWithin(h.bounds.wlon, h.xCellDegrees, w.xStart, w.width, h.width, w.box.minX, w.box.maxX);
    AxisWithin(h.bounds.slat, h.yCellDegrees, w.yStart, w.height, h.height, w.box.minY, w.box.maxY);
  }

  /** Along one axis: cells `start` .. `start + extent` of a grid of `cells`
      cells span `lo` .. `hi`, inside the grid's own span. */
  lemma AxisWithin(origin: real, cellDegrees: real, start: int, extent: int, cells: int, lo: real, hi: real)
    requires cellDegrees > 0.0 && 0 <= start && 0 <= extent && start + extent <= cells
    requires lo == origin + start as real * cellDegrees && hi == lo + extent as real * cellDegrees
    ensures origin <= lo <= hi <= origin + cells as real * cellDegrees
  {
    ScaleMonotone(0.0, start as real, cellDegrees);
    ScaleMonotone(0.0, extent as real, cellDegrees);
    ScaleMonotone((start + extent) as real, cells as real, cellDegrees);
    assert hi == origin + (start + extent) as real * cellDegrees;
  }

  lemma ScaleMonotone(x: real, y: real, c: real)
    requires x <= y && c >= 0.0
    ensures x * c <= y * c
  {
    assert y * c - x * c == (y - x) * c;
  }

  /** The window's start offsets are the snapped offsets of the area's west
      and south edges when those edges lie inside the grid. */
  lemma StartIsSnapped(h: GridHeader, a: Box)
    requires ValidHeader(h) && ValidBox(a) && !Outside(a, h.bounds)
    requires h.bounds.wlon <= a.minX && h.bounds.slat <= a.minY
    ensures SelectArea(h, Some(a)).Success?
    ensures SelectArea(h, Some(a)).value.xStart == SnapOffset(a.minX, h.bounds.wlon, h.xCellDegrees)
    ensures SelectArea(h, Some(a)).value.yStart == SnapOffset(a.minY, h.bounds.slat, h.yCellDegrees)
  {
    AxisStartNearest(a.minX, a.maxX, h.bounds.wlon, h.xCellDegrees, h.width);
    AxisStartNearest(a.minY, a.maxY, h.bounds.slat, h.yCellDegrees, h.height);
  }

  /** An area edge that lies inside the grid becomes the nearest cell edge:
      the west and south edges of the window are within half a cell of the
      area's. */
  lemma SnapToNearestCell(h: GridHeader, a: Box)
    requires ValidHeader(h) && ValidBox(a) && !Outside(a, h.bounds)
    requires h.bounds.wlon <= a.minX && h.bounds.slat <= a.minY
    ensures SelectArea(h, Some(a)).Success?
    ensures var w := SelectArea(h, Some(a)).value;
      WithinHalf(w.box.minX, a.minX, h.xCellDegrees) && WithinHalf(w.box.minY, a.minY, h.yCellDegrees)
  {
    WestEdgeNearest(h, a);
    SouthEdgeNearest(h, a);
  }

  lemma WestEdgeNearest(h: GridHeader, a: Box)
    requires ValidHeader(h) && ValidBox(a) && !Outside(a, h.bounds) && h.bounds.wlon <= a.minX
    ensures SelectArea(h, Some(a)).Success?
    ensures WithinHalf(SelectArea(h, Some(a)).value.box.minX, a.minX, h.xCellDegrees)
  {
    AxisStartNearest(a.minX, a.maxX, h.bounds.wlon, h.xCellDegrees, h.width);
  }

  lemma SouthEdgeNearest(h: GridHeader, a: Box)
    requires ValidHeader(h) && ValidBox(a) && !Outside(a, h.bounds) && h.bounds.slat <= a.minY
    ensures SelectArea(h, Some(a)).Success?
    ensures WithinHalf(SelectArea(h, Some(a)).value.box.minY, a.minY, h.yCellDegrees)
  {
    AxisStartNearest(a.minY, a.maxY, h.bounds.slat, h.yCellDegrees, h.height);
  }

  /** `edge` is within half a cell of `coordinate`. */
  predicate WithinHalf(edge: real, coordinate: real, cellDegrees: real)
  {
    coordinate - 0.5 * cellDegrees <= edge <= coordinate + 0.5 * cellDegrees
  }

  /** Along one axis: a low edge inside the grid starts the window at its
      snapped offset, whose cell edge is within half a cell of it. */
  lemma AxisStartNearest(lo: real, hi: real, origin: real, cellDegrees: real, cells: int)
    requires cellDegrees > 0.0 && cells >= 0 && origin <= lo <= hi && lo <= origin + cells as real * cellDegrees
    ensures SnapAxis(lo, hi, origin, cellDegrees, cells).0 == SnapOffset(lo, origin, cellDegrees)
    ensures WithinHalf(origin + SnapAxis(lo, hi, origin, cellDegrees, cells).0 as real * cellDegrees, lo, cellDegrees)
  {
    ExtentNonNegative(origin, lo, cellDegrees);
    var start := SnapAxis(lo, hi, origin, cellDegrees, cells).0;
    NearestEdge(lo, origin, cellDegrees, start, origin + start as real * cellDegrees);
  }

  lemma NearestEdge(coordinate: real, origin: real, cellDegrees: real, start: int, edge: real)
    requires cellDegrees > 0.0 && start == SnapOffset(coordinate, origin, cellDegrees)
    requires edge == origin + start as real * cellDegrees
    ensures WithinHalf(edge, coordinate, cellDegrees)
  {
    var d := coordinate - origin;
    var q := d / cellDegrees;
    WithinHalfCell(d, q, start as real, cellDegrees);
  }

  /** Scaling "`k` is within one half of `q` = `d` / `c`" by a positive cell size `c`. */
  lemma WithinHalfCell(d: real, q: real, k: real, c: real)
    requires c > 0.0 && q == d / c && q - 0.5 <= k <= q + 0.5
    ensures d - 0.5 * c <= k * c <= d + 0.5 * c
  {
    assert q * c == d;
    ScaleMonotone(q - 0.5, k, c);
    ScaleMonotone(k, q + 0.5, c);
    assert (q - 0.5) * c == d - 0.5 * c;
    assert (q + 0.5) * c == d + 0.5 * c;
  }

  /** `edge` is within one cell of `coordinate`. */
  predicate WithinCell(edge: real, coordinate: real, cellDegrees: real)
  {
    coordinate - cellDegrees <= edge <= coordinate + cellDegrees
  }

  /** Along one axis, for an area inside the grid: the extent is the area's
      span rounded to whole cells, cut back only where the window would
      otherwise pass the grid's far edge, and the window's far edge is within
      one cell of the area's. Start and extent are rounded separately, so
      half a cell is not guaranteed there (see `FarEdgeMissesHalfCell`). */
  lemma AxisEndWithinCell(lo: real, hi: real, origin: real, cellDegrees: real, cells: int, start: int, extent: int)
    requires cellDegrees > 0.0 && cells >= 0 && origin <= lo <= hi <= origin + cells as real * cellDegrees
    requires (start, extent) == SnapAxis(lo, hi, origin, cellDegrees, cells)
    ensures extent <= Nint((hi - lo) / cellDegrees)
    ensures start + extent < cells ==> extent == Nint((hi - lo) / cellDegrees)
    ensures WithinCell((origin + start as real * cellDegrees) + extent as real * cellDegrees, hi, cellDegrees)
  {
    AxisEndParts(lo, hi, origin, cellDegrees, cells);
    EndWithinOne((lo - origin) / cellDegrees, (hi - lo) / cellDegrees, start, Nint((hi - lo) / cellDegrees), cells, extent);
    EdgeWithinCell(origin, hi, cellDegrees, start as real, extent as real);
  }

  /** The facts `AxisEndWithinCell` combines: the start is within half a cell
      of the low edge's offset, the extent is the rounded span clamped, and
      the high edge's offset is the sum of the two, inside the grid. */
  lemma AxisEndParts(lo: real, hi: real, origin: real, cellDegrees: real, cells: int)
    requires cellDegrees > 0.0 && cells >= 0 && origin <= lo <= hi <= origin + cells as real * cellDegrees
    ensures var r := SnapAxis(lo, hi, origin, cellDegrees, cells);
      var qlo, span := (lo - origin) / cellDegrees, (hi - lo) / cellDegrees;
      qlo - 0.5 <= r.0 as real <= qlo + 0.5 &&
      r.1 == ClampExtent(r.0, Nint(span), cells) &&
      span - 0.5 <= Nint(span) as real <= span + 0.5 &&
      (hi - origin) / cellDegrees == qlo + span && qlo + span <= cells as real
  {
    DivSum(lo - origin, hi - lo, cellDegrees);
    QuotientAtMost(hi - origin, cells as real, cellDegrees);
    AxisStartNearest(lo, hi, origin, cellDegrees, cells);
  }

  /** Offsets rounded separately: a start within half of `qlo` and an extent
      within half of `span`, cut back to end at `cells`, end within one of
      `qlo + span`. */
  lemma EndWithinOne(qlo: real, span: real, start: int, rounded: int, cells: int, extent: int)
    requires qlo - 0.5 <= start as real <= qlo + 0.5 && span - 0.5 <= rounded as real <= span + 0.5
    requires qlo + span <= cells as real && extent == ClampExtent(start, rounded, cells)
    ensures qlo + span - 1.0 <= (start + extent) as real <= qlo + span + 1.0
    ensures extent <= rounded && (start + extent < cells ==> extent == rounded)
  {
  }

  /** A far edge `k0 + k1` cells from the origin, with `k0 + k1` within one of
      the high coordinate's offset, lies within one cell of that coordinate. */
  lemma EdgeWithinCell(origin: real, hi: real, c: real, k0: real, k1: real)
    requires c > 0.0 && (hi - origin) / c - 1.0 <= k0 + k1 <= (hi - origin) / c + 1.0
    ensures WithinCell((origin + k0 * c) + k1 * c, hi, c)
  {
    WithinCellScaled(hi - origin, (hi - origin) / c, k0 + k1, c);
    assert (k0 + k1) * c == k0 * c + k1 * c;
  }

  /** Division by a positive cell size distributes over a sum. */
  lemma DivSum(x: real, y: real, c: real)
    requires c > 0.0
    ensures (x + y) / c == x / c + y / c
  {
    assert (x / c) * c == x && (y / c) * c == y;
    assert (x / c + y / c) * c == x + y;
  }

  /** A distance of at most `k` cells is at most `k` cells once divided. */
  lemma QuotientAtMost(d: real, k: real, c: real)
    requires c > 0.0 && d <= k * c
    ensures d / c <= k
  {
    assert (d / c) * c == d;
    assert (k - d / c) * c == k * c - d;
  }

  /** Scaling "`k` is within one of `q` = `d` / `c`" by a positive cell size `c`. */
  lemma WithinCellScaled(d: real, q: real, k: real, c: real)
    requires c > 0.0 && q == d / c && q - 1.0 <= k <= q + 1.0
    ensures d - c <= k * c <= d + c
  {
    assert q * c == d;
    ScaleMonotone(q - 1.0, k, c);
    ScaleMonotone(k, q + 1.0, c);
    assert (q - 1.0) * c == d - c;
    assert (q + 1.0) * c == d + c;
  }

  /** An area not wholly outside the grid selects the window of its two
      snapped axes. */
  lemma SelectedWindow(h: GridHeader, a: Box)
    requires ValidHeader(h) && ValidBox(a) && !Outside(a, h.bounds)
    ensures var x := SnapAxis(a.minX, a.maxX, h.bounds.wlon, h.xCellDegrees, h.width);
      var y := SnapAxis(a.minY, a.maxY, h.bounds.slat, h.yCellDegrees, h.height);
      SelectArea(h, Some(a)) == Success(Window(x.0, y.0, x.1, y.1, CellBox(h, x.0, y.0, x.1, y.1)))
  {
  }

  /** For an area inside the grid from west to east, the window's width is
      the area's rounded width unless it is cut at the grid's east edge. */
  lemma WidthIsRoundedSpan(h: GridHeader, a: Box)
    requires ValidHeader(h) && ValidBox(a) && !Outside(a, h.bounds)
    requires h.bounds.wlon <= a.minX && a.maxX <= h.bounds.elon
    ensures SelectArea(h, Some(a)).Success?
    ensures var w := SelectArea(h, Some(a)).value;
      w.width <= Nint((a.maxX - a.minX) / h.xCellDegrees) &&
      (w.xStart + w.width < h.width ==> w.width == Nint((a.maxX - a.minX) / h.xCellDegrees))
  {
    var w := SelectArea(h, Some(a)).value;
    SelectedWindow(h, a);
    AxisEndWithinCell(a.minX, a.maxX, h.bounds.wlon, h.xCellDegrees, h.width, w.xStart, w.width);
  }

  /** For an area inside the grid from west to east, the window's east edge
      is within one cell of the area's. */
  lemma EastEdgeWithinCell(h: GridHeader, a: Box, w: Window)
    requires ValidHeader(h) && ValidBox(a) && h.bounds.wlon <= a.minX && a.maxX <= h.bounds.elon
    requires SelectArea(h, Some(a)) == Success(w)
    ensures WithinCell(w.box.maxX, a.maxX, h.xCellDegrees)
  {
    SelectedWindow(h, a);
    EastEdgeOfWindow(h, a, w);
  }

  /** A window in the grid whose columns are the snapped x axis of the area
      ends within one cell of the area's east edge. */
  lemma EastEdgeOfWindow(h: GridHeader, a: Box, w: Window)
    requires ValidHeader(h) && ValidBox(a) && h.bounds.wlon <= a.minX && a.maxX <= h.bounds.elon
    requires InGrid(w, h) && (w.xStart, w.width) == SnapAxis(a.minX, a.maxX, h.bounds.wlon, h.xCellDegrees, h.width)
    ensures WithinCell(w.box.maxX, a.maxX, h.xCellDegrees)
  {
    FarEdgesOfWindow(h, w);
    FarEdgeOfAxis(a.minX, a.maxX, h.bounds.wlon, h.xCellDegrees, h.width, w.xStart, w.width, w.box.maxX);
  }

  /** `AxisEndWithinCell`'s far-edge bound, for an edge given by value. */
  lemma FarEdgeOfAxis(lo: real, hi: real, origin: real, cellDegrees: real, cells: int, start: int, extent: int, edge: real)
    requires cellDegrees > 0.0 && cells >= 0 && origin <= lo <= hi <= origin + cells as real * cellDegrees
    requires (start, extent) == SnapAxis(lo, hi, origin, cellDegrees, cells)
    requires edge == (origin + start as real * cellDegrees) + extent as real * cellDegrees
    ensures WithinCell(edge, hi, cellDegrees)
  {
    AxisEndWithinCell(lo, hi, origin, cellDegrees, cells, start, extent);
  }

  /** The east and north edges of a window in the grid: the far side of its
      last column and of its last row. */
  lemma FarEdgesOfWindow(h: GridHeader, w: Window)
    requires InGrid(w, h)
    ensures w.box.maxX == (h.bounds.wlon + w.xStart as real * h.xCellDegrees) + w.width as real * h.xCellDegrees
    ensures w.box.maxY == (h.bounds.slat + w.yStart as real * h.yCellDegrees) + w.height as real * h.yCellDegrees
  {
  }

  /** For an area inside the grid from south to north, the window's height
      is the area's rounded height unless it is cut at the grid's north edge. */
  lemma HeightIsRoundedSpan(h: GridHeader, a: Box)
    requires ValidHeader(h) && ValidBox(a) && !Outside(a, h.bounds)
    requires h.bounds.slat <= a.minY && a.maxY <= h.bounds.nlat
    ensures SelectArea(h, Some(a)).Success?
    ensures var w := SelectArea(h, Some(a)).value;
      w.height <= Nint((a.maxY - a.minY) / h.yCellDegrees) &&
      (w.yStart + w.height < h.height ==> w.height == Nint((a.maxY - a.minY) / h.yCellDegrees))
  {
    var w := SelectArea(h, Some(a)).value;
    SelectedWindow(h, a);
    AxisEndWithinCell(a.minY, a.maxY, h.bounds.slat, h.yCellDegrees, h.height, w.yStart, w.height);
  }

  /** For an area inside the grid from south to north, the window's north
      edge is within one cell of the area's. */
  lemma NorthEdgeWithinCell(h: GridHeader, a: Box, w: Window)
    requires ValidHeader(h) && ValidBox(a) && h.bounds.slat <= a.minY && a.maxY <= h.bounds.nlat
    requires SelectArea(h, Some(a)) == Success(w)
    ensures WithinCell(w.box.maxY, a.maxY, h.yCellDegrees)
  {
    SelectedWindow(h, a);
    NorthEdgeOfWindow(h, a, w);
  }

  /** A window in the grid whose rows are the snapped y axis of the area
      ends within one cell of the area's north edge. */
  lemma NorthEdgeOfWindow(h: GridHeader, a: Box, w: Window)
    requires ValidHeader(h) && ValidBox(a) && h.bounds.slat <= a.minY && a.maxY <= h.bounds.nlat
    requires InGrid(w, h) && (w.yStart, w.height) == SnapAxis(a.minY, a.maxY, h.bounds.slat, h.yCellDegrees, h.height)
    ensures WithinCell(w.box.maxY, a.maxY, h.yCellDegrees)
  {
    FarEdgesOfWindow(h, w);
    FarEdgeOfAxis(a.minY, a.maxY, h.bounds.slat, h.yCellDegrees, h.height, w.yStart, w.height, w.box.maxY);
  }

  /** The east edge can land a whole cell from the area's: with one-degree
      cells from longitude 0, the area from 0.5 to 2.0 starts at column 1
      (0.5 rounds up) and spans 2 columns (1.5 rounds up), so the window
      ends at 3.0. */
  lemma FarEdgeMissesHalfCell()
    ensures var h := GridHeader(10, 10, Bounds(0.0, 10.0, 0.0, 10.0), 1.0, 1.0);
      var r := SelectArea(h, Some(Box(0.5, 0.0, 2.0, 1.0)));
      r.Success? && r.value.xStart == 1 && r.value.width == 2 && r.value.box.maxX == 3.0 &&
      !WithinHalf(r.value.box.maxX, 2.0, 1.0) && WithinCell(r.value.box.maxX, 2.0, 1.0)
  {
    NintOfWhole(1);
    NintOfWhole(0);
  }

  /** The extent is measured from the requested west edge, but the clamped
      start is the grid's west edge: an area that begins west of the grid
      yields a window reaching east of the area. With one-degree cells from
      longitude 0, an area from -10 to 5 becomes columns 0 to 15. */
  lemma WestOverhangShiftsWindow()
    ensures var h := GridHeader(100, 100, Bounds(0.0, 100.0, 0.0, 100.0), 1.0, 1.0);
      var r := SelectArea(h, Some(Box(-10.0, 0.0, 5.0, 10.0)));
      r.Success? && r.value.xStart == 0 && r.value.width == 15 && r.value.box.maxX == 15.0
  {
    var h := GridHeader(100, 100, Bounds(0.0, 100.0, 0.0, 100.0), 1.0, 1.0);
    NintOfWhole(-10);
    NintOfWhole(15);
    NintOfWhole(10);
    NintOfWhole(0);
  }
}
