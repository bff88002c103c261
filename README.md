# chrtrGeotiff in Dafny

chrtrGeotiff converts a CHRTR or CHRTR2 bathymetry grid into a GeoTIFF
image. It is a Qt wizard. Its first page (`startPage`) picks the grid file,
the output file and an optional area file. Pressing Run
(`chrtrGeotiff::slotCustomButtonClicked`) then renders the image:

1. **Window selection.** An optional area is snapped to whole cells and
   clamped to the grid. An area wholly outside the grid ends the run.
2. **Load pass.** Every cell of the window is validated: a CHRTR2 cell by its
   status flag, a CHRTR cell by lying below the null value. A valid cell is
   converted (fathoms, elevation sign) and stored row-major in `ar`. The
   running minimum and maximum fold over the valid values with `qMin` and
   `qMax`.
3. **Ramp.** A continuous ramp, or a zero-crossing ramp when `restart` is set
   and the minimum is negative.
4. **GeoTIFF settings.** The `.tif` suffix, the bands, the creation options,
   the geotransform and the grey-mode no-data value.
5. **Write loop.** It goes from the northernmost stored row to the
   southernmost:
   - grey mode writes each row's values;
   - colour mode turns each cell into a palette pixel. The pixel comes from
     its hue band, the null value and the sunshade term. Two row buffers
     feed the sunshade function its neighbour row.

The wizard's constructor also decodes the preview sample grid: little-endian
16-bit values with a running minimum and maximum.

The model has one module per concern:

| module | what it models |
|---|---|
| `CNumeric` | the `(int32_t)` cast, `NINT` and `fabsf` |
| `AreaWindow` | window selection |
| `GridLoad` | the load pass, as a method over an array proved against `StoredGrid`, `RunMin` and `RunMax` |
| `Palette` | the ramp and the palette index |
| `Scanlines` | the write loop, as methods over arrays proved against `GridRow` and `ColourImage` |
| `RasterOutput` | the GeoTIFF settings |
| `SampleData` | the constructor's decoding loop over an `array2` |
| `Text` | the file-name tests |
| `StartPageModel` | the start page, as a class whose slots update its fields and the shared options |
| `Pipeline` | the whole Run press |

The command line marks a legacy CHRTR file as CHRTR2 as well
(startPage.cpp line 200). The model keeps that behaviour: see
`StartPageModel.StartPage.constructor`.

## Model

| member | source | states |
|---|---|---|
| CNumeric.Trunc | chrtrGeotiff.cpp:862-871 | the `(int32_t)` cast truncates toward zero: for x >= 0 the result is the largest integer not above x, for x < 0 the smallest not below it |
| CNumeric.Nint | chrtrGeotiff.cpp:542-545 | `NINT` is within one half of its argument, with halves rounded away from zero |
| CNumeric.NintMonotone | chrtrGeotiff.cpp:542-553 | rounding preserves order, so a snapped edge inside the grid snaps to a cell offset inside it |
| AreaWindow.SelectArea | chrtrGeotiff.cpp:520-562 | fails exactly when the area is wholly outside the header bounds; otherwise the window lies inside the grid and its box is the box of its cells; without an area it is the whole grid |
| AreaWindow.Outside | chrtrGeotiff.cpp:532 | Definition: the area lies wholly outside the grid's bounds, touching edges not counting; its meaning is stated by `SelectArea`, which fails exactly on such areas |
| AreaWindow.SnapOffset | chrtrGeotiff.cpp:542-543 | Definition: the `NINT` of the distance from the grid origin in cells; its meaning is stated by `StartIsSnapped` and `AxisStartNearest` |
| AreaWindow.ClampStart | chrtrGeotiff.cpp:550-551 | Definition: a negative start offset becomes 0; its meaning is stated by `SnapAxis` (start at least 0) and `WestOverhangShiftsWindow` |
| AreaWindow.ClampExtent | chrtrGeotiff.cpp:552-553 | Definition: an extent running past the grid is cut to end at its last cell; its meaning is stated by `SnapAxis` (start plus extent within the grid) and `AxisEndWithinCell` |
| AreaWindow.CellBox | chrtrGeotiff.cpp:558-561 | Definition: the box of the clamped cells, from the grid origin and the cell sizes; its meaning is stated by `SelectArea` (`InGrid`), `BoxWithinBounds` and the edge lemmas |
| AreaWindow.SnapAxis | chrtrGeotiff.cpp:542-553 | along one axis the clamped start and extent are non-negative and end inside the grid; their values are stated by `AxisStartNearest` and `AxisEndWithinCell` |
| AreaWindow.StartIsSnapped | chrtrGeotiff.cpp:542-550 | when the area's west and south edges lie inside the grid, the window starts at their rounded cell offsets |
| AreaWindow.SnapToNearestCell | chrtrGeotiff.cpp:538-559 | the window's west and south edges are within half a cell of the area's |
| AreaWindow.WestEdgeNearest | chrtrGeotiff.cpp:542-558 | the window's west edge is within half a cell of an area west edge inside the grid |
| AreaWindow.SouthEdgeNearest | chrtrGeotiff.cpp:543-559 | the window's south edge is within half a cell of an area south edge inside the grid |
| AreaWindow.AxisStartNearest | chrtrGeotiff.cpp:542-558 | along one axis, an edge inside the grid starts the window at its rounded offset, whose cell edge is within half a cell of it |
| AreaWindow.AxisEndWithinCell | chrtrGeotiff.cpp:544-553 | along one axis, for an area inside the grid, the snapped extent is the area's span rounded to whole cells, cut back only where the window would pass the grid's far edge, and the far edge of the snapped cells is within one cell of the area's |
| AreaWindow.SelectedWindow | chrtrGeotiff.cpp:538-560 | an area not wholly outside the grid selects the window made of its snapped x axis and snapped y axis, with the box of those cells |
| AreaWindow.WidthIsRoundedSpan | chrtrGeotiff.cpp:542-552 | for an area inside the grid from west to east, the window's width is at most the area's rounded width, and equal to it unless cut at the grid's east edge |
| AreaWindow.EastEdgeWithinCell | chrtrGeotiff.cpp:544-559 | for an area inside the grid from west to east, the east edge of the selected window is within one cell of the area's |
| AreaWindow.EastEdgeOfWindow | chrtrGeotiff.cpp:544-559 | a window in the grid whose columns are the area's snapped x axis ends within one cell of the area's east edge |
| AreaWindow.HeightIsRoundedSpan | chrtrGeotiff.cpp:543-553 | for an area inside the grid from south to north, the window's height is at most the area's rounded height, and equal to it unless cut at the grid's north edge |
| AreaWindow.NorthEdgeWithinCell | chrtrGeotiff.cpp:545-560 | for an area inside the grid from south to north, the north edge of the selected window is within one cell of the area's |
| AreaWindow.NorthEdgeOfWindow | chrtrGeotiff.cpp:545-560 | a window in the grid whose rows are the area's snapped y axis ends within one cell of the area's north edge |
| AreaWindow.FarEdgeMissesHalfCell | chrtrGeotiff.cpp:542-559 | start and extent are rounded separately, so the far edge can miss by more than half a cell: with one-degree cells from 0, the area 0.5..2.0 becomes columns 1..3, ending at 3.0 |
| AreaWindow.BoxWithinBounds | chrtrGeotiff.cpp:550-561 | the redefined box of any window inside the grid lies inside the header bounds |
| AreaWindow.WestOverhangShiftsWindow | chrtrGeotiff.cpp:542-553 | the extent is measured from the requested edge, not the clamped one: with one-degree cells from 0, the area -10..5 becomes columns 0..15 |
| GridLoad.UnitDivisor | chrtrGeotiff.cpp:644-654 | the unit divisor is positive, and 1 when units are not converted |
| GridLoad.Convert | chrtrGeotiff.cpp:644-657 | undoing the elevation sign and scaling back by the divisor recovers the value read |
| GridLoad.IsValid | chrtrGeotiff.cpp:642-685 | Definition: a CHRTR2 cell is valid when its status flag is set (642), a legacy cell when its value is below the null value (685); its meaning is stated by `StoredCell`, `ValidCellSeen` and `RunStats` |
| GridLoad.Stored | chrtrGeotiff.cpp:660-719 | Definition: a valid cell stores its converted value, an invalid one the null value; its meaning is stated by `StoredCell` |
| GridLoad.StoredRow | chrtrGeotiff.cpp:660-719 | Definition: one row's stored values in column order; its meaning is stated by `LoadRow` and `StoredGridAt` |
| GridLoad.StoredGrid | chrtrGeotiff.cpp:660-719 | Definition: the stored rows laid end to end, the row-major contents of `ar`; its meaning is stated by `StoredGridAt`, `StoredGridLength` and `LoadGrid` |
| GridLoad.ReadWindow | chrtrGeotiff.cpp:636-680 | the window's reads return `height` rows of `width` cells each |
| GridLoad.LoadGrid | chrtrGeotiff.cpp:624-728 | `ar` holds `width * height` values; they are the stored values of the rows in row-major order; the minimum and maximum are the `qMin`/`qMax` folds from the null value and its negation over the valid values in scan order |
| GridLoad.LoadNextRow | chrtrGeotiff.cpp:632-721 | one outer pass extends the stored prefix and both folds from `i` rows to `i + 1`, and leaves the array past the new prefix unchanged |
| GridLoad.LoadRow | chrtrGeotiff.cpp:638-719 | one row's cells are stored after the earlier rows, the array past the row is unchanged, and its valid values continue both folds |
| GridLoad.RowFoldStep | chrtrGeotiff.cpp:642-668 | a valid cell continues both folds with its converted value; an invalid one leaves them unchanged |
| GridLoad.ValidRowValuesStep | chrtrGeotiff.cpp:685-719 | one more cell adds its converted value to the valid values exactly when it is valid |
| GridLoad.FoldAppend | chrtrGeotiff.cpp:667-668 | folding over a concatenation continues from where the first part left off |
| GridLoad.FoldStep | chrtrGeotiff.cpp:76-77 | one more sample continues both folds, passed as the first argument of `qMin` and `qMax` as the sample loop does |
| GridLoad.FoldBounds | chrtrGeotiff.cpp:712-713 | the `qMin` fold is at most its start and every element and is one of them; likewise `qMax` |
| GridLoad.ValidRowValuesMembers | chrtrGeotiff.cpp:685-713 | a value is among a row's valid values exactly when some valid cell of it converts to that value |
| GridLoad.ValidValuesMembers | chrtrGeotiff.cpp:632-713 | a value is among the valid values exactly when some valid cell converts to it |
| GridLoad.ValidCellSeen | chrtrGeotiff.cpp:642-668 | every valid cell's converted value is among the folded values |
| GridLoad.RunStats | chrtrGeotiff.cpp:632-728 | the statistics bracket every valid converted value; each is its starting sentinel or is attained by a valid cell |
| GridLoad.StatsDetermined | chrtrGeotiff.cpp:632-728 | any two pairs meeting those statistics agree, so they pin down the minimum and maximum |
| GridLoad.NoValidCellKeepsSentinels | chrtrGeotiff.cpp:481-507 | with no valid cell the minimum stays the null value and the maximum its negation |
| GridLoad.MinNotAboveMax | chrtrGeotiff.cpp:667-713 | with a valid cell, its value lies between the statistics and the minimum does not exceed the maximum |
| GridLoad.StoredGridAt | chrtrGeotiff.cpp:662-674 | cell (`i`, `j`) is stored at `i * width + j` |
| GridLoad.StoredGridLength | chrtrGeotiff.cpp:620-622 | the stored grid has `height * width` entries |
| GridLoad.StoredCell | chrtrGeotiff.cpp:660-675 | an invalid cell is stored as exactly the null value; a valid one as its converted value |
| GridLoad.FathomExamples | chrtrGeotiff.cpp:644-657 | 18.288 m is 10 standard fathoms; 18.75 m is 10 legacy fathoms; elevation reports -10 |
| GridLoad.StoredBelowNullInRange | chrtrGeotiff.cpp:662-719 | a stored value below the null value came from a valid cell and lies between the statistics |
| Palette.SelectRamp | chrtrGeotiff.cpp:740-752 | the ramp crosses zero exactly when `restart` is set and the minimum is negative; the ranges are then -min and max, otherwise max - min with `range[1]` left at 0 |
| Palette.PixelOf | chrtrGeotiff.cpp:883-893 | the alpha is 255 exactly when the index is non-negative; then the colour is the palette entry's; otherwise all four bands are 0 |
| Palette.HueBand | chrtrGeotiff.cpp:858-871 | Definition: `NUMHUES` minus the truncated ramp fraction scaled by `NUMHUES`, with the zero-crossing ramp's upper half measured from 0 (866) and the rest from the minimum (862, 871); its meaning is stated by `HueBandBounds` and `HueBandAtEnds` |
| Palette.ShadeFactor | chrtrGeotiff.cpp:876-878 | Definition: a negative sunshade value is replaced by the minimum shade; its meaning is stated by `ShadeTermAtLeastOne` and `NegativeMinShadeLeavesPalette` |
| Palette.ShadeTerm | chrtrGeotiff.cpp:880 | Definition: `NINT(NUMSHADES * shade + 0.5)`; its meaning is stated by `ShadeTermAtLeastOne` |
| Palette.ColourIndex | chrtrGeotiff.cpp:856-880 | Definition: hue band times `NUMSHADES`, or -2 for a null cell (874), minus the shade term (880); its meaning is stated by `ValidIndexInPalette`, `NullCellBlank`, `MaxCellBlank` and `NegativeMinShadeLeavesPalette` |
| Palette.HueBandBounds | chrtrGeotiff.cpp:858-871 | a value inside the statistics whose divisor is not zero gets a hue band between 0 and `NUMHUES` |
| Palette.UpperBand | chrtrGeotiff.cpp:866 | the upper half of a zero-crossing ramp gives a band between 0 and `NUMHUES` |
| Palette.LowerBand | chrtrGeotiff.cpp:862-871 | the continuous ramp and the lower half give a band between 0 and `NUMHUES` |
| Palette.FractionTerm | chrtrGeotiff.cpp:862-871 | for 0 <= part <= whole the truncated scaled fraction lies in 0..n, with `fabsf` taken inside or outside the division |
| Palette.HueBandAtEnds | chrtrGeotiff.cpp:740-871 | the minimum gets band `NUMHUES` and the maximum band 0, in both ramp kinds |
| Palette.ContinuousEnds | chrtrGeotiff.cpp:749-871 | in the continuous ramp the minimum gets band `NUMHUES` and the maximum band 0 |
| Palette.CrossingEnds | chrtrGeotiff.cpp:740-866 | in the zero-crossing ramp the minimum gets band `NUMHUES` and the maximum band 0 |
| Palette.ShadeTermAtLeastOne | chrtrGeotiff.cpp:876-880 | for a non-negative shade the rounded shade term is at least 1 |
| Palette.ValidIndexInPalette | chrtrGeotiff.cpp:856-886 | the index of a cell below the null value is at most `NUMHUES * NUMSHADES - 1`, inside the palette |
| Palette.NegativeMinShadeLeavesPalette | chrtrGeotiff.cpp:876-886 | with a minimum shade of -0.5 and 10 shades, a minimum cell with a negative sunshade result gets index `NUMHUES * 10 + 5`, past the palette |
| Palette.NullCellBlank | chrtrGeotiff.cpp:874-892 | a cell at or above the null value has a negative index and is written blank |
| Palette.MaxCellBlank | chrtrGeotiff.cpp:858-892 | a cell equal to the maximum gets band 0, a negative index and a blank pixel |
| Palette.CrossZeroExample | chrtrGeotiff.cpp:740-866 | with min -50 and max 100 the zero-crossing ramp maps -50 to `NUMHUES` and 100 to 0 |
| Scanlines.StoredIndex | chrtrGeotiff.cpp:662 | cell (`i`, `j`) lies in row `i`'s slice of the array, inside the array |
| Scanlines.StoredIndexInverse | chrtrGeotiff.cpp:662-674 | division and remainder by the width recover the row and column |
| Scanlines.GridRow | chrtrGeotiff.cpp:833 | stored row `r` has `width` values, the array's entries `r * width + j` (the corrected read of the Findings row: the source reads from `(y_start + i) * width`) |
| Scanlines.RenderedRow | chrtrGeotiff.cpp:836-845 | the row colour line `k` shows is a stored row |
| Scanlines.CellPixel | chrtrGeotiff.cpp:856-893 | a cell at or above the null value is blank; an opaque pixel comes from a cell below the null value |
| Scanlines.CellPixelFromIndex | chrtrGeotiff.cpp:856-893 | a cell's index lies inside the palette and its pixel is the one the index selects |
| Scanlines.LinePixels | chrtrGeotiff.cpp:854-893 | Definition: the pixel of every column of one line, shaded against the neighbour row; its meaning is stated by `CellPixel`, `ShadeScanline` and `ColourLine` |
| Scanlines.Interleave | chrtrGeotiff.cpp:883-899 | column `j` of a line holds the four band buffers' `j`-th values |
| Scanlines.CopyRow | chrtrGeotiff.cpp:833-845 | the buffer holds stored row `i` (the corrected read of the Findings row: the source reads from `(y_start + i) * width`) |
| Scanlines.CopyBuffer | chrtrGeotiff.cpp:840-844 | `memcpy` leaves the destination equal to the source |
| Scanlines.EmitGrey | chrtrGeotiff.cpp:827-852 | grey line `k` holds stored row `height - 1 - k` (the corrected read of the Findings row: the source reads from `(y_start + i) * width`) |
| Scanlines.PaletteIndex | chrtrGeotiff.cpp:856-880 | the index is the hue band times `NUMSHADES` (or -2 for a null cell) minus the rounded shade term of the sunshade result, a negative result replaced by the minimum shade |
| Scanlines.ShadeScanline | chrtrGeotiff.cpp:854-893 | the four band buffers hold the line's pixels for the current row with the sunshade computed from `next_row`, `current_row` and the column |
| Scanlines.ColourLine | chrtrGeotiff.cpp:834-899 | one pass rotates the buffers: `current_row` holds the previous `next_row` (row `i + 1`, or the last row on the first pass) and `next_row` holds row `i`; the band buffers hold line `height - 1 - i` of the colour image (the corrected read of the Findings row: the source reads from `(y_start + i) * width`) |
| Scanlines.ColourImage | chrtrGeotiff.cpp:834-893 | line `k` shows stored row `RenderedRow(height, k)` shaded with stored row `height - 1 - k` as its neighbour |
| Scanlines.EmitColour | chrtrGeotiff.cpp:827-899 | the write loop's colour lines are exactly the colour image (the corrected read of the Findings row: the source reads from `(y_start + i) * width`) |
| Scanlines.RowRenderable | chrtrGeotiff.cpp:856-871 | a stored row of a renderable grid is renderable |
| Scanlines.ColourRowLag | chrtrGeotiff.cpp:836-845 | colour mode shows the northern row on the first two lines, never shows stored row 0, and shows every other row one line after grey mode |
| Scanlines.SourceReadIndexOutOfBounds | chrtrGeotiff.cpp:833-845 | as written, the read of the window's last row falls past the array when `y_start` >= 1 |
| Scanlines.SourceReadIndex | chrtrGeotiff.cpp:833 | Definition: the array position the write loop reads as written, `(y_start + i) * width + j`; its meaning is stated by `SourceReadIndexOutOfBounds` and `SourceReadIndexAtOrigin` |
| Scanlines.SourceReadIndexAtOrigin | chrtrGeotiff.cpp:833 | as written, the read agrees with the store when `y_start` is 0 |
| RasterOutput.TifName | chrtrGeotiff.cpp:511-513 | the name ends with `.tif`; it is unchanged when it already does and gets `.tif` appended otherwise |
| RasterOutput.TifNameIdempotent | chrtrGeotiff.cpp:513 | applying the suffix rule twice changes nothing more |
| RasterOutput.TifRulesAgree | chrtrGeotiff.cpp:513 | the run's rule and the output browse slot's rule agree on names of four characters or more |
| RasterOutput.TifNameCaseSensitive | chrtrGeotiff.cpp:513 | `a.TIF` becomes `a.TIF.tif`: the comparison is case-sensitive |
| RasterOutput.BandCount | chrtrGeotiff.cpp:774-793 | grey mode writes one band; colour mode writes three, or four when transparent |
| RasterOutput.BandType | chrtrGeotiff.cpp:790-798 | the bands are 32-bit floats exactly in grey mode |
| RasterOutput.SetNameValue | chrtrGeotiff.cpp:782-787 | Definition: `CSLSetNameValue` replaces the first entry with the key or appends one; its meaning is stated by `SetNameValueLookup` |
| RasterOutput.CreationOptions | chrtrGeotiff.cpp:778-788 | Definition: `COMPRESS=PACKBITS` for Caris output, otherwise `TILED=NO` and `COMPRESS=LZW`; its meaning is stated by `CreationOptionsValues` |
| RasterOutput.SetNameValueLookup | chrtrGeotiff.cpp:780-788 | after `CSLSetNameValue` the key reads back the new value and every other key is unchanged |
| RasterOutput.CreationOptionsValues | chrtrGeotiff.cpp:778-788 | Caris output is PackBits-compressed with no tiling key; other output is LZW-compressed with `TILED=NO` |
| RasterOutput.GeoTransform | chrtrGeotiff.cpp:806-811 | Definition: the six coefficients, north-west corner, cell sizes, no rotation, lines running south; its meaning is stated by `GeoTransformCorners` |
| RasterOutput.GeoTransformCorners | chrtrGeotiff.cpp:806-812 | the first pixel's corner is the box's north-west corner, the far corner its south-east corner, and line `k` starts at the north edge of stored row `height - 1 - k` |
| RasterOutput.NoDataValue | chrtrGeotiff.cpp:824 | the null value is the no-data value exactly in grey mode |
| RasterOutput.BandValues | chrtrGeotiff.cpp:896-899 | the row written to colour band `b` has one value per pixel of the line |
| RasterOutput.LineBandRows | chrtrGeotiff.cpp:896-899 | one row is written per band of the dataset, in band order |
| RasterOutput.ColourBandRows | chrtrGeotiff.cpp:896-899 | a colour line is written as red, green and blue rows, plus the alpha row exactly when the image is transparent; each row has the line's length, and the rows reassemble every pixel (its colour when there is no alpha row) |
| RasterOutput.Configure | chrtrGeotiff.cpp:774-824 | the dataset's name ends with `.tif`, its bands and sample type follow the mode, and no-data is set only in grey mode |
| SampleData.Decode16 | chrtrGeotiff.cpp:74 | a sample is in 0..65535 |
| SampleData.Decode16RoundTrip | chrtrGeotiff.cpp:74 | decoding, low byte first, and encoding are inverse to each other |
| SampleData.DecodeRow | chrtrGeotiff.cpp:70-77 | one row of `sample_data` holds its decoded samples, other rows are unchanged, and both folds continue over the row |
| SampleData.DecodeGridRow | chrtrGeotiff.cpp:68-78 | one outer pass extends the decoded rows and the folds from `i` rows to `i + 1`, and leaves the rows after `i` unchanged |
| SampleData.DecodeRows | chrtrGeotiff.cpp:68-79 | every row is decoded and the folds run over all rows |
| SampleData.DecodeSamples | chrtrGeotiff.cpp:61-81 | an unopened file leaves the data alone and the sentinels 99999 and -99999; otherwise every sample is decoded in row-major order and the minimum and maximum fold over all samples |
| SampleData.SampleGridRow | chrtrGeotiff.cpp:68-74 | row `i` holds the `width` samples from position `i * width` on |
| SampleData.FlattenSampleGrid | chrtrGeotiff.cpp:68-77 | the first `i` rows laid end to end are the first `i * width` samples of the file |
| SampleData.SampleGridAt | chrtrGeotiff.cpp:73-74 | sample (`r`, `c`) is the file's sample at row-major position `r * width + c` |
| SampleData.SampleStats | chrtrGeotiff.cpp:63-77 | every sample lies between the minimum and maximum, and both are attained and lie in 0..65535; with no samples they keep their starting values |
| Text.LowerAscii | startPage.cpp:394 | upper-case ASCII letters are lowered and every other character is kept |
| Text.EndsWith | startPage.cpp:259 | Definition: `endsWith` with exact comparison; its meaning is stated by `SuffixIsContained`, `SearchAndSuffixDiffer` and `EndsWithIgnoresCase` |
| Text.Contains | startPage.cpp:142 | Definition: `strstr` finds the text somewhere in the name; its meaning is stated by `SuffixIsContained` and `SearchAndSuffixDiffer` |
| Text.EndsWithIgnoreCase | startPage.cpp:394 | Definition: `endsWith` with `Qt::CaseInsensitive`, folding ASCII case; its meaning is stated by `EndsWithIgnoresCase` |
| Text.EndsWithIgnoresCase | startPage.cpp:394 | a suffix is also a suffix up to case |
| Text.AppendTif | startPage.cpp:349 | the result ends with `.tif`; a name already ending with it is kept, any other gets `.tif` appended |
| Text.AppendTifIdempotent | startPage.cpp:349 | applying the output browse rule twice changes nothing more |
| Text.SearchAndSuffixDiffer | startPage.cpp:142 | `a.ch2.fin` contains `.ch2` but does not end with it |
| Text.SuffixIsContained | startPage.cpp:142 | a name ending with `.ch2` contains it |
| StartPageModel.CommandLineFormat | startPage.cpp:142-201 | the command line opens a name as CHRTR2 exactly when `.ch2` occurs in it |
| StartPageModel.BrowseFormat | startPage.cpp:259-296 | the browse slot opens a name as CHRTR2 exactly when it ends with `.ch2` |
| StartPageModel.BrowseChrtr2IsCommandLineChrtr2 | startPage.cpp:142-259 | every name browsed as CHRTR2 is CHRTR2 on the command line; `a.ch2.fin` shows that the converse fails |
| StartPageModel.ScanVertices | startPage.cpp:442-451 | the vertex loop succeeds exactly when every vertex lies in [-360, 360] x [-90, 90] |
| StartPageModel.RangeLimits | startPage.cpp:444 | vertices on the range limits pass and one just beyond fails |
| StartPageModel.IsLineOrPolygon | startPage.cpp:419-420 | Definition: the shape type is one of the polygon or arc types, plain, Z or M; its meaning is stated by `StartPage.AreaFileBrowse` |
| StartPageModel.ShapeAccepted | startPage.cpp:419-451 | Definition: the type check, at least 3 vertices and every vertex geographic; its meaning is stated by `ScanVertices` and `StartPage.AreaFileBrowse` |
| StartPageModel.AreaAccepted | startPage.cpp:394-460 | Definition: a file not named `.shp` in any case is taken, a shapefile only when it opens and passes the checks; its meaning is stated by `StartPage.AreaFileBrowse` |
| StartPageModel.DefaultOutput | startPage.cpp:161-165 | a non-empty output field is kept; an empty one gets the grid name with `.tif` appended |
| StartPageModel.StartPage.constructor | startPage.cpp:140-202 | with exactly one argument that opens with the opener its name selects, the grid and output fields are set; with one argument `chrtr2` is set either way; otherwise nothing changes |
| StartPageModel.StartPage.CHRTRFileBrowse | startPage.cpp:221-313 | a cancelled dialog or a failed open changes nothing; otherwise the grid field, the input directory, the default output and `chrtr2` are set |
| StartPageModel.StartPage.OutputFileBrowse | startPage.cpp:317-354 | an accepted dialog records its directory; a non-empty name becomes the output with `.tif` ensured |
| StartPageModel.StartPage.AreaFileBrowse | startPage.cpp:357-463 | an accepted dialog records its directory; a non-empty name becomes the area file unless it is a shapefile that fails to open or fails the type, vertex-count or range checks |
| Pipeline.WindowRows | chrtrGeotiff.cpp:636-680 | the rows read for a window are `height` rows of `width` cells |
| Pipeline.WindowGrid | chrtrGeotiff.cpp:620-721 | the stored window has `width * height` values |
| Pipeline.WindowStyle | chrtrGeotiff.cpp:740-752 | the colour style uses the window's null value and its load-pass minimum and maximum |
| Pipeline.WindowRenderable | chrtrGeotiff.cpp:740-871 | every stored value is renderable exactly when no value below the null value has a zero ramp range |
| Pipeline.RenderColour | chrtrGeotiff.cpp:827-899 | fails with `ZeroRange` exactly when some value below the null value has a zero ramp range; otherwise returns the colour lines |
| Pipeline.GreyLines | chrtrGeotiff.cpp:827-852 | Definition: line `k` of grey output is stored row `height - 1 - k`; its meaning is stated by `Scanlines.EmitGrey` and `Pipeline.Run` |
| Pipeline.ColourLines | chrtrGeotiff.cpp:834-899 | Definition: line `k` shows stored row `RenderedRow(height, k)`, shaded with row `height - 1 - k` as its neighbour; its meaning is stated by `Scanlines.ColourRowLag`, `RenderColour` and `Run` |
| Pipeline.RunOutcome | chrtrGeotiff.cpp:740-899 | Definition: a grey run succeeds with the window's rows north to south; a colour run fails with `ZeroRange` exactly when a value below the null value has a zero ramp range, and otherwise succeeds with the shaded lines; its meaning is stated by `Pipeline.Run` |
| Pipeline.Run | chrtrGeotiff.cpp:422-899 | the run fails with `AreaOutsideGrid` exactly when the area is wholly outside the grid. Otherwise, for the selected window: a grey run returns the rows north to south; a colour run fails with `ZeroRange` exactly when a zero range would be divided by, and otherwise returns the shaded lines. Every success carries the window, its statistics and the GeoTIFF settings. Rows are read back where the load pass stored them (the corrected read of the Findings row) |

## Left out

- The Qt user interface is not modelled: widgets, wizard buttons, progress bars, message boxes, the wait cursor, `checkList` messages and `registerField`.
- Opening and reading the grid files is not modelled. The CHRTR and CHRTR2 libraries are outside this model. The grid arrives opened, as its header, format, null value and rows. An open failure ends the program there, and that is not modelled.
- Reading the area file (`get_area_mbr`) is not modelled. The area arrives as its bounding box. A read failure ends the program, and that is not modelled.
- The GDAL calls are not modelled: the driver, dataset creation, the projection text and `RasterIO`. A dataset is described by the values passed to GDAL, and the scanlines are returned as values. Scanline write failures only add a message, so they are left out.
- The sunshade function belongs to another library. It is a parameter of the model, a function of (`next_row`, `current_row`, column). The cell-size trigonometry feeds only that function, so it is left out.
- The contour pass (`scribe`) is left out.
- `calloc` failures are left out.
- The palette, `NUMHUES`, `NUMSHADES` and the minimum shade are parameters of the model.
- The two `exit (-1)` calls after checking the area are not modelled as exits. Both the read failure and the area wholly outside the grid end the program. In the model, the second is the `AreaOutsideGrid` error.
- The 32-bit integer range of the casts is not modelled, and neither is 32-bit float rounding. Values are unbounded reals and integers.
- Pipeline.Run: when a valid value lands on a zero divisor (`HasZeroRange`), the source divides by zero and casts the infinite or NaN result to an integer, which is undefined. This happens when the maximum equals the minimum in the continuous ramp, or when the maximum is 0 in the zero-crossing ramp and some valid value is 0. The model refuses such a run with the `ZeroRange` error instead of producing an image.
- Pipeline.Run: requires a non-negative minimum shade. The minimum shade is set outside the files modelled and only read at line 878. A negative one gives indices past the palette (`Palette.NegativeMinShadeLeavesPalette`), which the source would read out of bounds.
- Pipeline.Run: requires an output name of at least four characters, as does `RasterOutput.TifName`. On a shorter name line 513 reads before the start of the name, which is undefined.
- Pipeline.Run: the write loop reads stored rows where the load pass put them, not at `(y_start + i) * width` as the source does (see Findings). The two agree when `y_start` is 0.
- Palette.ColourIndex: the source computes a hue for null cells too, then overwrites it with -2. The model does not compute that discarded hue.
- SampleData.DecodeSamples: requires the file to hold all the samples. On a short file the source keeps the bytes of the last successful read, and that is not modelled.
- AreaWindow.ValidHeader: the header's bounds are assumed to be exactly its cells times the cell size. With no area, the source uses the header bounds directly.
- StartPageModel.StartPage.AreaFileBrowse: a shapefile whose first shape cannot be read is not modelled. The source would dereference the missing shape there. The model takes the first shape's vertices as given.
- Text.EndsWithIgnoresCase: case folding is ASCII only. Unicode case folding is not modelled.
- The rest of the wizard's constructor is not modelled: only the sample decoding is. The same goes for the image and surface pages, whose settings arrive in `Settings`.
- The sidebar directories (`setSidebarUrls`) and the dialogs' name filters are left out. The dialog's outcome is a parameter.

## Findings

| source | as written | input that shows it | evidently intended | confidence | as-written member | corrected member |
|---|---|---|---|---|---|---|
| chrtrGeotiff.cpp:833-845 | the write loop reads `ar[(y_start + i) * width + j]`, but the load pass stored window row `i` at `ar[i * width + j]` (line 662) | an area whose south edge snaps to `y_start` = 1, with `width` = 1 and `height` = 1: the read index is 1, past the one-value array | read `ar[i * width + j]`, the row the load pass stored | high, not executed | Scanlines.SourceReadIndexOutOfBounds | Scanlines.StoredIndex, Scanlines.CopyRow, Scanlines.EmitGrey, Scanlines.EmitColour, Pipeline.Run |
