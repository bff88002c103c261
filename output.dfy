/** The GeoTIFF settings of `slotCustomButtonClicked` (chrtrGeotiff.cpp,
    lines 511-515 and 766-825): the output name's suffix, the band layout,
    the creation options, the geotransform and the grey-mode no-data value.
    The GDAL driver, the file creation and the projection text are not part
    of this model; a dataset is described by the values handed to GDAL. */
module RasterOutput {
  import opened Results
  import opened Palette
  import opened Text

  /** The output name: `.tif` is appended unless the last four characters
      already are `.tif`. The comparison reads the four characters before
      the terminator, so the name must have at least four. */
  function TifName(name: string): (r: string)
    requires |name| >= 4
    ensures EndsWith(r, ".tif")
    ensures EndsWith(name, ".tif") ==> r == name
    ensures !EndsWith(name, ".tif") ==> r == name + ".tif"
  {
    if name[|name| - 4..] != ".tif" then name + ".tif" else name
  }

  /** Applying the rule twice changes nothing more. */
  lemma TifNameIdempotent(name: string)
    requires |name| >= 4
    ensures TifName(TifName(name)) == TifName(name)
  {
  }

  /** For names of four characters or more the run's rule and the output
      browse rule append `.tif` to the same names. */
  lemma TifRulesAgree(name: string)
    requires |name| >= 4
    ensures TifName(name) == AppendTif(name)
  {
  }

  /** A name ending in the upper-case `.TIF` still gets `.tif` appended: the
      comparison is case-sensitive. */
  lemma TifNameCaseSensitive()
    ensures TifName("a.TIF") == "a.TIF.tif"
  {
    assert !EndsWith("a.TIF", ".tif") by {
      assert "a.TIF"[1..] != ".tif" by { assert "a.TIF"[1..][1] == 'T'; }
    }
  }

  /** The GDAL sample type of the bands. */
  datatype SampleType = Float32 | Byte8

  /** Grey mode writes one 32-bit float band of cell values; colour mode
      writes red, green and blue byte bands, plus an alpha band when the
      image is transparent. */
  function BandCount(grey: bool, transparent: bool): (n: nat)
    ensures grey ==> n == 1
    ensures !grey ==> (n == 4 <==> transparent) && 3 <= n <= 4
  {
    if grey then 1 else if transparent then 4 else 3
  }

  function BandType(grey: bool): (t: SampleType)
    ensures t == Float32 <==> grey
  {
    if grey then Float32 else Byte8
  }

  /** One creation option, key and value. */
  datatype NameValue = NameValue(key: string, value: string)

  /** The value of `key` in an option list, if set. */
  function Lookup(opts: seq<NameValue>, key: string): (r: Option<string>)
    ensures r.None? <==> forall i | 0 <= i < |opts| :: opts[i].key != key
  {
    if |opts| == 0 then None
    else if opts[0].key == key then Some(opts[0].value)
    else Lookup(opts[1..], key)
  }

  /** `CSLSetNameValue`: replaces the value of the first entry with `key`, or
      appends a new entry. Keys are compared exactly here, while GDAL ignores
      case; the renderer sets only the fixed upper-case keys `TILED` and
      `COMPRESS`, for which the two agree. */
  function SetNameValue(opts: seq<NameValue>, key: string, value: string): (r: seq<NameValue>)
  {
    if |opts| == 0 then [NameValue(key, value)]
    else if opts[0].key == key then [NameValue(key, value)] + opts[1..]
    else [opts[0]] + SetNameValue(opts[1..], key, value)
  }

  /** After setting, the key reads back the new value and every other key
      reads back what it did before. */
  lemma {:induction false} SetNameValueLookup(opts: seq<NameValue>, key: string, value: string, other: string)
    ensures Lookup(SetNameValue(opts, key, value), key) == Some(value)
    ensures other != key ==> Lookup(SetNameValue(opts, key, value), other) == Lookup(opts, other)
  {
    if |opts| == 0 {
    } else if opts[0].key == key {
      assert SetNameValue(opts, key, value)[1..] == opts[1..];
    } else {
      SetNameValueLookup(opts[1..], key, value, other);
      assert SetNameValue(opts, key, value)[1..] == SetNameValue(opts[1..], key, value);
    }
  }

  /** The creation options: PackBits compression for Caris-readable files,
      otherwise strips (no tiles) with LZW compression. */
  function CreationOptions(caris: bool): (opts: seq<NameValue>)
  {
    if caris then SetNameValue([], "COMPRESS", "PACKBITS")
    else SetNameValue(SetNameValue([], "TILED", "NO"), "COMPRESS", "LZW")
  }

  lemma CreationOptionsValues(caris: bool)
    ensures caris ==> Lookup(CreationOptions(caris), "COMPRESS") == Some("PACKBITS")
    ensures caris ==> Lookup(CreationOptions(caris), "TILED") == None
    ensures !caris ==> Lookup(CreationOptions(caris), "COMPRESS") == Some("LZW")
    ensures !caris ==> Lookup(CreationOptions(caris), "TILED") == Some("NO")
  {
    SetNameValueLookup([], "COMPRESS", "PACKBITS", "TILED");
    SetNameValueLookup([], "TILED", "NO", "COMPRESS");
    SetNameValueLookup(SetNameValue([], "TILED", "NO"), "COMPRESS", "LZW", "TILED");
  }

  /** The six geotransform coefficients: the north-west corner of the
      window box, the cell sizes, no rotation, and lines running south. */
  function GeoTransform(minX: real, maxY: real, xCellDegrees: real, yCellDegrees: real): (t: seq<real>)
    ensures |t| == 6
  {
    [minX, xCellDegrees, 0.0, maxY, 0.0, -yCellDegrees]
  }

  /** The geographic position GDAL assigns to pixel corner (`pixel`, `line`). */
  function PixelToGeo(t: seq<real>, pixel: real, line: real): (real, real)
    requires |t| == 6
  {
    (t[0] + pixel * t[1] + line * t[2], t[3] + pixel * t[4] + line * t[5])
  }

  /** The geotransform puts the first pixel's corner on the window box's
      north-west corner and the last pixel's far corner on its south-east
      corner, and the top of line `k` on the north edge of stored row
      `height - 1 - k`, the row grey mode writes there. */
  lemma GeoTransformCorners(minX: real, minY: real, maxX: real, maxY: real, xCellDegrees: real, yCellDegrees: real,
                            width: nat, height: nat, k: nat)
    requires maxX == minX + width as real * xCellDegrees && maxY == minY + height as real * yCellDegrees
    requires k < height
    ensures PixelToGeo(GeoTransform(minX, maxY, xCellDegrees, yCellDegrees), 0.0, 0.0) == (minX, maxY)
    ensures PixelToGeo(GeoTransform(minX, maxY, xCellDegrees, yCellDegrees), width as real, height as real) == (maxX, minY)
    ensures PixelToGeo(GeoTransform(minX, maxY, xCellDegrees, yCellDegrees), 0.0, k as real).1
            == minY + ((height - 1 - k) + 1) as real * yCellDegrees
  {
    var t := GeoTransform(minX, maxY, xCellDegrees, yCellDegrees);
    assert t[1] == xCellDegrees && t[2] == 0.0 && t[4] == 0.0 && t[5] == -yCellDegrees;
    assert width as real * 0.0 == 0.0 && height as real * 0.0 == 0.0;
    assert height as real * -yCellDegrees == -(height as real * yCellDegrees);
    assert k as real * -yCellDegrees == -(k as real * yCellDegrees);
    assert (height - k) as real * yCellDegrees == height as real * yCellDegrees - k as real * yCellDegrees;
    assert PixelToGeo(t, width as real, height as real).0 == maxX;
    assert PixelToGeo(t, width as real, height as real).1 == minY;
  }

  /** Grey mode marks the null value as the band's no-data value; colour
      mode marks none (blank pixels carry alpha 0 instead). */
  function NoDataValue(grey: bool, nullValue: real): (r: Option<real>)
    ensures r.Some? <==> grey
    ensures r.Some? ==> r.value == nullValue
  {
    if grey then Some(nullValue) else None
  }

  /** The values written to colour band `band` (0 red, 1 green, 2 blue,
      3 alpha) for one line. */
  function BandValues(line: seq<Rgba>, band: nat): (r: seq<Byte>)
    requires band < 4
    ensures |r| == |line|
  {
    seq(|line|, j requires 0 <= j < |line| =>
      if band == 0 then line[j].red else if band == 1 then line[j].green
      else if band == 2 then line[j].blue else line[j].alpha)
  }

  /** The rows written for one colour line, one per band of the dataset, in
      band order. */
  function LineBandRows(line: seq<Rgba>, bands: nat): (rows: seq<seq<Byte>>)
    requires bands <= 4
    ensures |rows| == bands
  {
    seq(bands, b requires 0 <= b < bands => BandValues(line, b))
  }

  /** A colour line is written as red, green and blue rows, plus an alpha row
      exactly when the image is transparent; the rows reassemble the line's
      pixels, and without the alpha row its colours. */
  lemma ColourBandRows(line: seq<Rgba>, transparent: bool)
    ensures var rows := LineBandRows(line, BandCount(false, transparent));
      (|rows| == 4 <==> transparent) && |rows| >= 3 &&
      (forall b | 0 <= b < |rows| :: |rows[b]| == |line|) &&
      (transparent ==> forall j | 0 <= j < |line| :: Rgba(rows[0][j], rows[1][j], rows[2][j], rows[3][j]) == line[j]) &&
      (forall j | 0 <= j < |line| :: Rgba(rows[0][j], rows[1][j], rows[2][j], line[j].alpha) == line[j])
  {
  }

  /** What the dataset is created with, independent of its contents. */
  datatype RasterConfig = RasterConfig(
    name: string, width: nat, height: nat, bands: nat, sampleType: SampleType,
    options: seq<NameValue>, transform: seq<real>, noData: Option<real>)

  /** The settings of one run. */
  function Configure(outputName: string, width: nat, height: nat, grey: bool, transparent: bool, caris: bool,
                     minX: real, maxY: real, xCellDegrees: real, yCellDegrees: real, nullValue: real): (c: RasterConfig)
    requires |outputName| >= 4
    ensures EndsWith(c.name, ".tif")
    ensures c.bands == BandCount(grey, transparent) && c.sampleType == BandType(grey)
    ensures c.noData == NoDataValue(grey, nullValue)
  {
    RasterConfig(TifName(outputName), width, height, BandCount(grey, transparent), BandType(grey),
                 CreationOptions(caris), GeoTransform(minX, maxY, xCellDegrees, yCellDegrees),
                 NoDataValue(grey, nullValue))
  }
}
