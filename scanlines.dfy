/** The write loop of `slotCustomButtonClicked` (chrtrGeotiff.cpp, lines
    827-899). It turns the row-major grid array into scanlines, from the
    northernmost stored row down to the southernmost. In grey mode a scanline
    holds the cell values. In colour mode a scanline holds one palette pixel
    per column, and two row buffers (`current_row`, `next_row`) feed the
    sunshade function its two-row neighbourhood. */
module Scanlines {
  import opened CNumeric
  import opened Palette
  import GridLoad

  /** Position of window cell (`i`, `j`) in the row-major grid array of a
      window `width` x `height` cells in size. */
  function StoredIndex(i: nat, j: nat, width: nat, height: nat): (p: nat)
    requires i < height && j < width
    ensures i * width <= p < i * width + width <= width * height
  {
    GridLoad.RowFits(i, width, height);
    i * width + j
  }

  /** Every array position belongs to exactly one cell: the row and column
      come back from the position by division and remainder. */
  lemma StoredIndexInverse(i: nat, j: nat, width: nat, height: nat)
    requires i < height && j < width
    ensures StoredIndex(i, j, width, height) / width == i
    ensures StoredIndex(i, j, width, height) % width == j
  {
    var p := StoredIndex(i, j, width, height);
    DivModUnique(p, width, i, j);
  }

  /** `p` = `q` * `w` + `r` with 0 <= `r` < `w` fixes the quotient and remainder. */
  lemma DivModUnique(p: int, w: int, q: int, r: int)
    requires 0 <= r < w && p == q * w + r
    ensures p / w == q && p % w == r
  {
    var q2, r2 := p / w, p % w;
    assert p == q2 * w + r2 && 0 <= r2 < w;
    if q2 > q {
      MulAtLeast(q2 - q, w);
    } else if q2 < q {
      MulAtLeast(q - q2, w);
    }
  }

  lemma MulAtLeast(a: int, w: int)
    requires a >= 1 && w >= 0
    ensures a * w >= w
  {
    assert a * w == (a - 1) * w + w;
  }

  /** Stored row `r` of the grid array. */
  function GridRow(s: seq<real>, width: nat, height: nat, r: nat): (row: seq<real>)
    requires |s| == width * height && r < height
    ensures |row| == width
    ensures forall j | 0 <= j < width :: r * width + j < |s| && row[j] == s[r * width + j]
  {
    GridLoad.RowFits(r, width, height);
    s[r * width .. r * width + width]
  }

  /** The stored row whose values colour-mode line `k` shows: line 0 shows
      the last row, and every later line the row written one line earlier
      by grey mode, because `current_row` takes over the previous `next_row`. */
  function RenderedRow(height: nat, k: nat): (r: nat)
    requires k < height
    ensures r < height
  {
    if k == 0 then height - 1 else height - k
  }

  /** Colour settings of one run: statistics, ramp flag, null value, the
      minimum shade, the palette size constants `NUMHUES` and `NUMSHADES`,
      and the palette. */
  datatype Style = Style(minZ: real, maxZ: real, restart: bool, nullValue: real, minShade: real,
                         numHues: nat, numShades: nat, palette: seq<Rgb>)

  function RampOf(st: Style): Ramp
  {
    SelectRamp(st.restart, st.minZ, st.maxZ)
  }

  /** The minimum shade is not negative and the palette has one entry per
      hue band and shade. */
  predicate StyleOk(st: Style)
  {
    st.minShade >= 0.0 && |st.palette| == st.numHues * st.numShades
  }

  /** A value below the null value lies inside the statistics and its hue
      formula does not divide by zero. */
  predicate InRange(v: real, st: Style)
  {
    v < st.nullValue ==> st.minZ <= v <= st.maxZ && Divisor(v, RampOf(st)) != 0.0
  }

  predicate Renderable(s: seq<real>, st: Style)
  {
    forall p | 0 <= p < |s| :: InRange(s[p], st)
  }

  /** The sunshade result for a column, given `next_row`, `current_row` and
      the column; sun geometry and cell sizes are fixed for a run. */
  type Sunshade = (seq<real>, seq<real>, int) -> real

  /** The pixel of a cell whose sunshade result is `shadeValue`. */
  function CellPixel(v: real, shadeValue: real, st: Style): (p: Rgba)
    requires StyleOk(st) && InRange(v, st)
    ensures v >= st.nullValue ==> p == Rgba(0, 0, 0, 0)
    ensures p.alpha == 255 ==> v < st.nullValue
  {
    if v >= st.nullValue then
      NullCellBlank(v, st.minZ, RampOf(st), st.nullValue, shadeValue, st.minShade, st.numHues, st.numShades, st.palette);
      PixelOf(ColourIndex(v, st.minZ, RampOf(st), st.nullValue, shadeValue, st.minShade, st.numHues, st.numShades), st.palette)
    else
      ValidIndexInPalette(v, st.minZ, st.maxZ, st.restart, st.nullValue, shadeValue, st.minShade, st.numHues, st.numShades);
      PixelOf(ColourIndex(v, st.minZ, RampOf(st), st.nullValue, shadeValue, st.minShade, st.numHues, st.numShades), st.palette)
  }

  /** The pixel of a cell is the palette entry at its colour index, or
      blank, and the index is inside the palette. */
  lemma CellPixelFromIndex(v: real, shadeValue: real, st: Style)
    requires StyleOk(st) && InRange(v, st)
    ensures ColourIndex(v, st.minZ, RampOf(st), st.nullValue, shadeValue, st.minShade, st.numHues, st.numShades) < |st.palette|
    ensures CellPixel(v, shadeValue, st) ==
      PixelOf(ColourIndex(v, st.minZ, RampOf(st), st.nullValue, shadeValue, st.minShade, st.numHues, st.numShades), st.palette)
  {
    if v >= st.nullValue {
      NullCellBlank(v, st.minZ, RampOf(st), st.nullValue, shadeValue, st.minShade, st.numHues, st.numShades, st.palette);
    } else {
      ValidIndexInPalette(v, st.minZ, st.maxZ, st.restart, st.nullValue, shadeValue, st.minShade, st.numHues, st.numShades);
    }
  }

  /** The pixels of a colour line drawn from `current` with `next` as the
      sunshade neighbour row. */
  function LinePixels(current: seq<real>, next: seq<real>, st: Style, shade: Sunshade): (line: seq<Rgba>)
    requires StyleOk(st) && Renderable(current, st)
    ensures |line| == |current|
  {
    seq(|current|, j requires 0 <= j < |current| => CellPixel(current[j], shade(next, current, j), st))
  }

  /** The four band buffers of one line, column by column. */
  function Interleave(red: seq<Byte>, green: seq<Byte>, blue: seq<Byte>, alpha: seq<Byte>): (line: seq<Rgba>)
    requires |red| == |green| == |blue| == |alpha|
    ensures |line| == |red|
    ensures forall j | 0 <= j < |red| :: line[j] == Rgba(red[j], green[j], blue[j], alpha[j])
  {
    seq(|red|, j requires 0 <= j < |red| => Rgba(red[j], green[j], blue[j], alpha[j]))
  }

  /** Fills `dst` with stored row `i` of the grid array. */
  method CopyRow(ar: array<real>, width: nat, height: nat, i: nat, dst: array<real>)
    requires ar != dst && ar.Length == width * height && i < height && dst.Length == width
    modifies dst
    ensures dst[..] == GridRow(ar[..], width, height, i)
  {
    ghost var row := GridRow(ar[..], width, height, i);
    var j := 0;
    while j < width
      invariant 0 <= j <= width
      invariant forall c | 0 <= c < j :: dst[c] == row[c]
    {
      dst[j] := ar[StoredIndex(i, j, width, height)];
      j := j + 1;
    }
  }

  /** `memcpy` of one row buffer into another. */
  method CopyBuffer(src: array<real>, dst: array<real>)
    requires src != dst && src.Length == dst.Length
    modifies dst
    ensures dst[..] == src[..]
  {
    forall j | 0 <= j < dst.Length {
      dst[j] := src[j];
    }
  }

  /** Grey mode: line `k` holds the values of stored row `height - 1 - k`. */
  method EmitGrey(ar: array<real>, width: nat, height: nat) returns (lines: seq<seq<real>>)
    requires ar.Length == width * height
    ensures |lines| == height
    ensures forall k | 0 <= k < height :: lines[k] == GridRow(ar[..], width, height, height - 1 - k)
  {
    var currentRow := new real[width];
    lines := [];
    var i: int := height - 1;
    var k := 0;
    while i >= 0
      invariant -1 <= i < height && k == height - 1 - i
      invariant |lines| == k
      invariant forall q | 0 <= q < k :: lines[q] == GridRow(ar[..], width, height, height - 1 - q)
    {
      CopyRow(ar, width, height, i, currentRow);
      lines := lines + [currentRow[..]];
      i := i - 1;
      k := k + 1;
    }
  }

  /** The palette index of one column: the hue band times `NUMSHADES`, or
      -2 at or above the null value, minus the rounded shade term, where a
      negative sunshade result is replaced by the minimum shade. */
  method PaletteIndex(v: real, sunshadeResult: real, st: Style) returns (cIndex: int)
    requires StyleOk(st) && InRange(v, st)
    ensures cIndex == ColourIndex(v, st.minZ, RampOf(st), st.nullValue, sunshadeResult, st.minShade, st.numHues, st.numShades)
  {
    cIndex := -2;
    if v < st.nullValue {
      cIndex := HueBand(v, st.minZ, RampOf(st), st.numHues) * st.numShades;
    }
    var shadeFactor := sunshadeResult;
    if shadeFactor < 0.0 {
      shadeFactor := st.minShade;
    }
    cIndex := cIndex - ShadeTerm(shadeFactor, st.numShades);
  }

  /** One colour line: every column's palette index is computed from
      `current` and the sunshade result, and its pixel written into the four
      band buffers. */
  method ShadeScanline(current: array<real>, next: array<real>, st: Style, shade: Sunshade,
                       red: array<Byte>, green: array<Byte>, blue: array<Byte>, alpha: array<Byte>)
    requires StyleOk(st) && Renderable(current[..], st)
    requires red.Length == current.Length && green.Length == current.Length
    requires blue.Length == current.Length && alpha.Length == current.Length
    requires red != green && red != blue && red != alpha && green != blue && green != alpha && blue != alpha
    modifies red, green, blue, alpha
    ensures Interleave(red[..], green[..], blue[..], alpha[..]) == LinePixels(current[..], next[..], st, shade)
  {
    var j := 0;
    while j < current.Length
      invariant 0 <= j <= current.Length
      invariant forall c | 0 <= c < j ::
        Rgba(red[c], green[c], blue[c], alpha[c]) == CellPixel(current[c], shade(next[..], current[..], c), st)
    {
      assert InRange(current[..][j], st);
      var cIndex := PaletteIndex(current[j], shade(next[..], current[..], j), st);
      CellPixelFromIndex(current[j], shade(next[..], current[..], j), st);
      if cIndex >= 0 {
        red[j] := st.palette[cIndex].red;
        green[j] := st.palette[cIndex].green;
        blue[j] := st.palette[cIndex].blue;
        alpha[j] := 255;
      } else {
        red[j], green[j], blue[j], alpha[j] := 0, 0, 0, 0;
      }
      j := j + 1;
    }
  }

  /** One pass of the colour loop for stored row `i`: the first pass loads
      the last row into both buffers, every later one moves `next_row` into
      `current_row` and loads row `i` into `next_row`; then the line is
      shaded. */
  method ColourLine(ar: array<real>, ghost grid: seq<real>, width: nat, height: nat, i: nat, st: Style, shade: Sunshade,
                    currentRow: array<real>, nextRow: array<real>,
                    red: array<Byte>, green: array<Byte>, blue: array<Byte>, alpha: array<Byte>)
    returns (line: seq<Rgba>)
    requires ar[..] == grid && |grid| == width * height && StyleOk(st) && Renderable(grid, st) && i < height
    requires currentRow.Length == width && nextRow.Length == width
    requires red.Length == width && green.Length == width && blue.Length == width && alpha.Length == width
    requires ar != currentRow && ar != nextRow && currentRow != nextRow
    requires red != green && red != blue && red != alpha && green != blue && green != alpha && blue != alpha
    requires i < height - 1 ==> nextRow[..] == GridRow(grid, width, height, i + 1)
    modifies currentRow, nextRow, red, green, blue, alpha
    ensures nextRow[..] == GridRow(grid, width, height, i)
    ensures currentRow[..] == GridRow(grid, width, height, if i == height - 1 then i else i + 1)
    ensures Interleave(red[..], green[..], blue[..], alpha[..]) == line
    ensures line == ColourImage(grid, width, height, st, shade)[height - 1 - i]
  {
    if i == height - 1 {
      CopyRow(ar, width, height, i, currentRow);
      CopyBuffer(currentRow, nextRow);
    } else {
      CopyBuffer(nextRow, currentRow);
      CopyRow(ar, width, height, i, nextRow);
    }
    assert currentRow[..] == GridRow(grid, width, height, RenderedRow(height, height - 1 - i));
    RowRenderable(grid, width, height, RenderedRow(height, height - 1 - i), st);
    ShadeScanline(currentRow, nextRow, st, shade, red, green, blue, alpha);
    line := Interleave(red[..], green[..], blue[..], alpha[..]);
    assert height - 1 - (height - 1 - i) == i;
  }

  /** The colour image of a grid: line `k` shows stored row
      `RenderedRow(height, k)` and shades it with stored row
      `height - 1 - k` as the neighbour row. */
  function ColourImage(s: seq<real>, width: nat, height: nat, st: Style, shade: Sunshade): (lines: seq<seq<Rgba>>)
    requires |s| == width * height && StyleOk(st) && Renderable(s, st)
    ensures |lines| == height
    ensures forall k | 0 <= k < height ::
      |lines[k]| == width &&
      lines[k] == LinePixels(GridRow(s, width, height, RenderedRow(height, k)),
                             GridRow(s, width, height, height - 1 - k), st, shade)
  {
    seq(height, k requires 0 <= k < height =>
      RowRenderable(s, width, height, RenderedRow(height, k), st);
      LinePixels(GridRow(s, width, height, RenderedRow(height, k)),
                 GridRow(s, width, height, height - 1 - k), st, shade))
  }

  /** Colour mode: the lines of the colour image, north to south. */
  method EmitColour(ar: array<real>, width: nat, height: nat, st: Style, shade: Sunshade)
    returns (lines: seq<seq<Rgba>>)
    requires ar.Length == width * height && StyleOk(st) && Renderable(ar[..], st)
    ensures lines == ColourImage(ar[..], width, height, st, shade)
  {
    ghost var grid := ar[..];
    ghost var image := ColourImage(grid, width, height, st, shade);
    var currentRow := new real[width];
    var nextRow := new real[width];
    var red := new Byte[width];
    var green := new Byte[width];
    var blue := new Byte[width];
    var alpha := new Byte[width];
    lines := [];
    var i: int := height - 1;
    while i >= 0
      invariant -1 <= i < height
      invariant ar[..] == grid
      invariant lines == image[..height - 1 - i]
      invariant i < height - 1 ==> nextRow[..] == GridRow(grid, width, height, i + 1)
    {
      var line := ColourLine(ar, grid, width, height, i, st, shade, currentRow, nextRow, red, green, blue, alpha);
      PrefixExtend(image, height - 1 - i, line);
      lines := lines + [line];
      i := i - 1;
    }
  }

  lemma PrefixExtend<T>(s: seq<T>, n: nat, x: T)
    requires n < |s| && s[n] == x
    ensures s[..n + 1] == s[..n] + [x]
  {
  }

  /** A stored row of a renderable grid is renderable. */
  lemma RowRenderable(s: seq<real>, width: nat, height: nat, r: nat, st: Style)
    requires |s| == width * height && r < height && Renderable(s, st)
    ensures Renderable(GridRow(s, width, height, r), st)
  {
  }

  /** With two rows or more, colour mode never shows stored row 0 (the
      southernmost), shows the northernmost row on both of the first two
      lines, and shows every other row exactly on the line after the one
      grey mode writes it on. */
  lemma ColourRowLag(height: nat)
    requires height >= 2
    ensures RenderedRow(height, 0) == RenderedRow(height, 1) == height - 1
    ensures forall k | 0 <= k < height :: RenderedRow(height, k) != 0
    ensures forall k | 1 <= k < height :: RenderedRow(height, k) == height - 1 - (k - 1)
  {
  }

  /** The array position the write loop reads for window row `i`, column
      `j`, as the loop is written: the window's first source row `y_start`
      is added, although the array holds only the window's rows. */
  function SourceReadIndex(yStart: nat, i: nat, j: nat, width: nat): nat
  {
    (yStart + i) * width + j
  }

  /** For a window that does not start at the grid's first row, the read of
      the window's last row, first column, falls past the end of the array
      of `width * height` values. */
  lemma SourceReadIndexOutOfBounds(yStart: nat, width: nat, height: nat)
    requires yStart >= 1 && width >= 1 && height >= 1
    ensures SourceReadIndex(yStart, height - 1, 0, width) >= width * height
  {
    assert (yStart + height - 1) * width == (yStart - 1) * width + height * width;
    assert (yStart - 1) * width >= 0;
  }

  /** For a window that starts at the grid's first row the written read and
      `StoredIndex` agree. */
  lemma SourceReadIndexAtOrigin(i: nat, j: nat, width: nat, height: nat)
    requires i < height && j < width
    ensures SourceReadIndex(0, i, j, width) == StoredIndex(i, j, width, height)
  {
  }
}
