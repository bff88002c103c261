/** One press of the Run button (`slotCustomButtonClicked`,
    chrtrGeotiff.cpp, lines 422-899): select the window, load it and take
    its statistics, pick the colour ramp, describe the GeoTIFF and produce
    its scanlines. The grid file arrives opened, as its header, format, null
    value and rows; the area arrives as its bounding box; the sunshade
    function and the palette are parameters. */
module Pipeline {
  import opened Results
  import opened AreaWindow
  import opened GridLoad
  import opened Palette
  import opened Scanlines
  import opened RasterOutput

  /** An opened grid file. */
  datatype GridFile = GridFile(header: GridHeader, fmt: Format, nullValue: real, rows: seq<seq<Sample>>)

  /** The header is valid and the rows match its size. */
  predicate GridFileOk(f: GridFile)
  {
    ValidHeader(f.header) && |f.rows| == f.header.height && Rectangular(f.rows, f.header.width)
  }

  /** The run's options: grey or colour, alpha band, Caris compression,
      zero-crossing ramp, units and sign, shading floor and palette. */
  datatype Settings = Settings(grey: bool, transparent: bool, caris: bool, restart: bool, load: LoadOptions,
                               minShade: real, numHues: nat, numShades: nat, palette: seq<Rgb>)

  /** The ways a run ends without a file: an area wholly outside the grid
      (the source exits), or a colour ramp that would divide a cell's value
      by a zero range. */
  datatype RunError = AreaOutsideGrid | ZeroRange

  /** The scanlines of the image, north to south. */
  datatype Image = Grey(greyLines: seq<seq<real>>) | Colour(colourLines: seq<seq<Rgba>>)

  /** Everything a successful run determines. */
  datatype Product = Product(config: RasterConfig, window: Window, minZ: real, maxZ: real, image: Image)

  /** The rows the load pass reads for a window. */
  function WindowRows(f: GridFile, w: Window): (rows: seq<seq<Sample>>)
    requires GridFileOk(f) && InGrid(w, f.header)
    ensures |rows| == w.height && Rectangular(rows, w.width)
  {
    ReadWindow(f.rows, w.xStart, w.yStart, w.width, w.height)
  }

  function StyleOf(s: Settings, minZ: real, maxZ: real, nullValue: real): Style
  {
    Style(minZ, maxZ, s.restart, nullValue, s.minShade, s.numHues, s.numShades, s.palette)
  }

  /** The cells of a window as the load pass stores them, row-major. */
  function WindowGrid(f: GridFile, s: Settings, w: Window): (grid: seq<real>)
    requires GridFileOk(f) && InGrid(w, f.header)
    ensures |grid| == w.width * w.height
  {
    StoredGridLength(WindowRows(f, w), w.width, f.fmt, f.nullValue, s.load);
    StoredGrid(WindowRows(f, w), f.fmt, f.nullValue, s.load)
  }

  /** The colour style of a window: the ramp spans the window's statistics. */
  function WindowStyle(f: GridFile, s: Settings, w: Window): (st: Style)
    requires GridFileOk(f) && InGrid(w, f.header)
    ensures st.nullValue == f.nullValue
    ensures st.minZ == RunMin(WindowRows(f, w), f.fmt, f.nullValue, s.load)
    ensures st.maxZ == RunMax(WindowRows(f, w), f.fmt, f.nullValue, s.load)
  {
    var rows := WindowRows(f, w);
    StyleOf(s, RunMin(rows, f.fmt, f.nullValue, s.load), RunMax(rows, f.fmt, f.nullValue, s.load), f.nullValue)
  }

  /** Some stored value below the null value has a zero ramp range. */
  predicate HasZeroRange(grid: seq<real>, st: Style)
  {
    exists p | 0 <= p < |grid| :: grid[p] < st.nullValue && Divisor(grid[p], RampOf(st)) == 0.0
  }

  /** Grey mode's lines: line `k` is stored row `height - 1 - k`. */
  predicate GreyLines(lines: seq<seq<real>>, grid: seq<real>, width: nat, height: nat)
    requires |grid| == width * height
  {
    |lines| == height &&
    forall k | 0 <= k < height :: lines[k] == GridRow(grid, width, height, height - 1 - k)
  }

  /** Colour mode's lines: line `k` shows stored row `RenderedRow(height, k)`,
      shaded with row `height - 1 - k` as its neighbour. */
  predicate ColourLines(lines: seq<seq<Rgba>>, grid: seq<real>, width: nat, height: nat, st: Style, shade: Sunshade)
    requires |grid| == width * height && StyleOk(st) && Renderable(grid, st)
  {
    |lines| == height &&
    forall k | 0 <= k < height ::
      lines[k] == LinePixels(GridRow(grid, width, height, RenderedRow(height, k)),
                             GridRow(grid, width, height, height - 1 - k), st, shade)
  }

  /** Unless some value below the null value has a zero ramp range, every
      stored value of the window is one the colour pass can render: the
      statistics taken while loading bracket every value below the null
      value. */
  lemma WindowRenderable(f: GridFile, s: Settings, w: Window)
    requires GridFileOk(f) && InGrid(w, f.header)
    ensures !HasZeroRange(WindowGrid(f, s, w), WindowStyle(f, s, w)) <==>
            Renderable(WindowGrid(f, s, w), WindowStyle(f, s, w))
  {
    var rows := WindowRows(f, w);
    var lo, hi := RunMin(rows, f.fmt, f.nullValue, s.load), RunMax(rows, f.fmt, f.nullValue, s.load);
    RunStats(rows, f.fmt, f.nullValue, s.load);
    StoredBelowNullInRange(rows, f.fmt, f.nullValue, s.load, lo, hi);
  }

  /** The colour pass: refuses a window with a zero ramp range, otherwise
      shades every line. */
  method RenderColour(ar: array<real>, f: GridFile, s: Settings, w: Window, shade: Sunshade)
    returns (r: Result<seq<seq<Rgba>>, RunError>)
    requires GridFileOk(f) && InGrid(w, f.header)
    requires ar[..] == WindowGrid(f, s, w) && StyleOk(WindowStyle(f, s, w))
    ensures r.Failure? <==> HasZeroRange(WindowGrid(f, s, w), WindowStyle(f, s, w))
    ensures r.Failure? ==> r.error == ZeroRange
    ensures r.Success? ==>
      Renderable(WindowGrid(f, s, w), WindowStyle(f, s, w)) &&
      ColourLines(r.value, WindowGrid(f, s, w), w.width, w.height, WindowStyle(f, s, w), shade)
  {
    var st := WindowStyle(f, s, w);
    if HasZeroRange(ar[..], st) {
      return Failure(ZeroRange);
    }
    WindowRenderable(f, s, w);
    var lines := EmitColour(ar, w.width, w.height, st, shade);
    return Success(lines);
  }

  /** What a run that got past the area check yields for window `w`: a
      grey run always succeeds with the window's rows, north to south; a
      colour run fails with `ZeroRange` exactly when some value below the null
      value has a zero ramp range, and otherwise succeeds with the shaded
      lines. A success carries the window, its statistics and the GeoTIFF
      description. */
  predicate RunOutcome(f: GridFile, s: Settings, outputName: string, shade: Sunshade, w: Window,
                       r: Result<Product, RunError>)
    requires GridFileOk(f) && InGrid(w, f.header) && |outputName| >= 4
  {
    var grid, st := WindowGrid(f, s, w), WindowStyle(f, s, w);
    match r
    case Failure(e) => e == ZeroRange && !s.grey && HasZeroRange(grid, st)
    case Success(p) =>
      p.window == w && p.minZ == st.minZ && p.maxZ == st.maxZ &&
      p.config == Configure(outputName, w.width, w.height, s.grey, s.transparent, s.caris,
                            w.box.minX, w.box.maxY, f.header.xCellDegrees, f.header.yCellDegrees, f.nullValue) &&
      if s.grey then p.image.Grey? && GreyLines(p.image.greyLines, grid, w.width, w.height)
      else
        p.image.Colour? && !HasZeroRange(grid, st) && StyleOk(st) && Renderable(grid, st) &&
        ColourLines(p.image.colourLines, grid, w.width, w.height, st, shade)
  }

  /** One press of Run: an area wholly outside the grid ends the run with
      `AreaOutsideGrid` and nothing else does; otherwise the run's outcome is
      the one `RunOutcome` describes for the selected window. */
  method Run(f: GridFile, area: Option<Box>, outputName: string, s: Settings, shade: Sunshade)
    returns (r: Result<Product, RunError>)
    requires GridFileOk(f) && (area.Some? ==> ValidBox(area.value)) && |outputName| >= 4
    requires s.minShade >= 0.0 && |s.palette| == s.numHues * s.numShades
    ensures r.Failure? && r.error == RunError.AreaOutsideGrid <==> area.Some? && Outside(area.value, f.header.bounds)
    ensures SelectArea(f.header, area).Success? ==>
      RunOutcome(f, s, outputName, shade, SelectArea(f.header, area).value, r)
  {
    var selected := SelectArea(f.header, area);
    if selected.Failure? {
      return Failure(RunError.AreaOutsideGrid);
    }
    var w := selected.value;
    var ar, minZ, maxZ := LoadGrid(WindowRows(f, w), w.width, w.height, f.fmt, f.nullValue, s.load);
    var config := Configure(outputName, w.width, w.height, s.grey, s.transparent, s.caris,
                            w.box.minX, w.box.maxY, f.header.xCellDegrees, f.header.yCellDegrees, f.nullValue);
    if s.grey {
      var lines := EmitGrey(ar, w.width, w.height);
      r := Success(Product(config, w, minZ, maxZ, Grey(lines)));
    } else {
      var colour := RenderColour(ar, f, s, w, shade);
      if colour.Failure? {
        r := Failure(colour.error);
      } else {
        r := Success(Product(config, w, minZ, maxZ, Colour(colour.value)));
      }
    }
    assert RunOutcome(f, s, outputName, shade, w, r);
  }
}
