/** Ramp selection and the per-pixel palette index of colour mode
    (chrtrGeotiff.cpp, lines 740-752 and 856-893). `NUMHUES`, `NUMSHADES`,
    the palette and the sunshade result are parameters. */
module Palette {
  import opened CNumeric

  /** An 8-bit colour component. */
  type Byte = x: int | 0 <= x < 256

  /** One entry of the colour palette (`options.color_array`). */
  datatype Rgb = Rgb(red: Byte, green: Byte, blue: Byte)

  /** The four band values written for one column. */
  datatype Rgba = Rgba(red: Byte, green: Byte, blue: Byte, alpha: Byte)

  /** `cross_zero`, `range[0]` and `range[1]`. */
  datatype Ramp = Ramp(crossZero: bool, range0: real, range1: real)

  /** The ramp topology: with `restart` set and a negative minimum the values
      below zero and those from zero up get a ramp each; otherwise one ramp
      spans the minimum to the maximum (`range[1]` keeps its initial 0). */
  function SelectRamp(restart: bool, minZ: real, maxZ: real): (r: Ramp)
    ensures r.crossZero <==> restart && minZ < 0.0
    ensures r.crossZero ==> r.range0 == -minZ && r.range0 > 0.0 && r.range1 == maxZ
    ensures !r.crossZero ==> r.range0 == maxZ - minZ && r.range1 == 0.0
  {
    if restart && minZ < 0.0 then Ramp(true, -minZ, maxZ) else Ramp(false, maxZ - minZ, 0.0)
  }

  /** The range the hue formula divides by for value `v`. */
  function Divisor(v: real, ramp: Ramp): real
  {
    if ramp.crossZero && 0.0 <= v then ramp.range1 else ramp.range0
  }

  /** The hue band of `v`, `NUMHUES` minus the truncated fraction of the ramp
      scaled by `NUMHUES` (lines 862, 866 and 871). */
  function HueBand(v: real, minZ: real, ramp: Ramp, numHues: nat): int
    requires Divisor(v, ramp) != 0.0
  {
    if ramp.crossZero && 0.0 <= v then
      numHues - Trunc(Abs(v) / ramp.range1 * numHues as real)
    else
      numHues - Trunc(Abs((v - minZ) / ramp.range0 * numHues as real))
  }

  /** A negative sunshade result is replaced by the minimum shade. */
  function ShadeFactor(sunshade: real, minShade: real): real
  {
    if sunshade < 0.0 then minShade else sunshade
  }

  /** `NINT(NUMSHADES * shade + 0.5)`, the shade term taken off every index. */
  function ShadeTerm(shade: real, numShades: nat): int
  {
    Nint(numShades as real * shade + 0.5)
  }

  /** The final palette index of a cell: the hue band times `NUMSHADES`, or
      -2 for a value at or above the null value, minus the rounded shade. */
  function ColourIndex(v: real, minZ: real, ramp: Ramp, nullValue: real, sunshade: real, minShade: real,
                       numHues: nat, numShades: nat): int
    requires v < nullValue ==> Divisor(v, ramp) != 0.0
  {
    var base := if v >= nullValue then -2 else HueBand(v, minZ, ramp, numHues) * numShades;
    base - ShadeTerm(ShadeFactor(sunshade, minShade), numShades)
  }

  /** The pixel for an index: the palette colour at full opacity, or all
      zero for a negative index. */
  function PixelOf(index: int, palette: seq<Rgb>): (p: Rgba)
    requires index < |palette|
    ensures p.alpha == 255 <==> index >= 0
    ensures index >= 0 ==> p.red == palette[index].red && p.green == palette[index].green && p.blue == palette[index].blue
    ensures index < 0 ==> p == Rgba(0, 0, 0, 0)
  {
    if index >= 0 then Rgba(palette[index].red, palette[index].green, palette[index].blue, 255)
    else Rgba(0, 0, 0, 0)
  }

  /** A value inside the statistics whose divisor is not zero gets a hue band
      between 0 and `NUMHUES`. */
  lemma HueBandBounds(v: real, minZ: real, maxZ: real, restart: bool, numHues: nat)
    requires minZ <= v <= maxZ
    requires Divisor(v, SelectRamp(restart, minZ, maxZ)) != 0.0
    ensures 0 <= HueBand(v, minZ, SelectRamp(restart, minZ, maxZ), numHues) <= numHues
  {
    var ramp := SelectRamp(restart, minZ, maxZ);
    if ramp.crossZero && 0.0 <= v {
      UpperBand(v, minZ, ramp, numHues);
    } else {
      LowerBand(v, minZ, ramp, numHues);
    }
  }

  lemma UpperBand(v: real, minZ: real, ramp: Ramp, numHues: nat)
    requires ramp.crossZero && 0.0 <= v <= ramp.range1 && ramp.range1 != 0.0
    ensures 0 <= HueBand(v, minZ, ramp, numHues) <= numHues
  {
    var t := FractionTerm(v, ramp.range1, numHues);
  }

  lemma LowerBand(v: real, minZ: real, ramp: Ramp, numHues: nat)
    requires !(ramp.crossZero && 0.0 <= v)
    requires 0.0 <= v - minZ <= ramp.range0 && ramp.range0 != 0.0
    ensures 0 <= HueBand(v, minZ, ramp, numHues) <= numHues
  {
    var t := FractionTerm(v - minZ, ramp.range0, numHues);
  }

  /** For 0 <= `part` <= `whole`, `part` / `whole` * `n` truncates into 0 .. `n`
      (with or without the absolute value the formulas take). */
  lemma FractionTerm(part: real, whole: real, n: nat) returns (t: int)
    requires 0.0 <= part <= whole && whole != 0.0
    ensures t == Trunc(Abs(part / whole * n as real)) == Trunc(Abs(part) / whole * n as real)
    ensures 0 <= t <= n
  {
    var f := part / whole;
    UnitFraction(part, whole);
    var x := f * n as real;
    ScaleUnit(f, n as real);
    assert 0.0 <= x <= n as real;
    assert Abs(part) / whole * n as real == x;
    TruncWithin(x, n);
    t := Trunc(x);
  }

  /** A value from 0 to `n` truncates to an integer from 0 to `n`. */
  lemma TruncWithin(x: real, n: nat)
    requires 0.0 <= x <= n as real
    ensures Abs(x) == x && 0 <= Trunc(x) <= n
  {
  }

  lemma UnitFraction(part: real, whole: real)
    requires 0.0 <= part <= whole && whole != 0.0
    ensures 0.0 <= part / whole <= 1.0
  {
    assert (part / whole) * whole == part;
  }

  lemma ScaleUnit(f: real, n: real)
    requires 0.0 <= f <= 1.0 && 0.0 <= n
    ensures 0.0 <= f * n <= n
  {
    assert n - f * n == (1.0 - f) * n;
  }

  /** The ends of each ramp: the minimum gets band `NUMHUES` and the maximum
      band 0, in the continuous ramp and in the upper half of the zero-crossing
      ramp (for min_z = 0, max_z = 100 and 8 hues: 0 maps to 8, 100 to 0). */
  lemma HueBandAtEnds(minZ: real, maxZ: real, restart: bool, numHues: nat)
    requires minZ < maxZ
    requires !(restart && minZ < 0.0) || maxZ > 0.0
    ensures Divisor(minZ, SelectRamp(restart, minZ, maxZ)) != 0.0
    ensures Divisor(maxZ, SelectRamp(restart, minZ, maxZ)) != 0.0
    ensures HueBand(minZ, minZ, SelectRamp(restart, minZ, maxZ), numHues) == numHues
    ensures HueBand(maxZ, minZ, SelectRamp(restart, minZ, maxZ), numHues) == 0
  {
    var ramp := SelectRamp(restart, minZ, maxZ);
    if ramp.crossZero {
      CrossingEnds(minZ, maxZ, numHues);
    } else {
      ContinuousEnds(minZ, maxZ, numHues);
    }
  }

  lemma ContinuousEnds(minZ: real, maxZ: real, numHues: nat)
    requires minZ < maxZ
    ensures HueBand(minZ, minZ, Ramp(false, maxZ - minZ, 0.0), numHues) == numHues
    ensures HueBand(maxZ, minZ, Ramp(false, maxZ - minZ, 0.0), numHues) == 0
  {
    FractionEnds(maxZ - minZ, numHues);
  }

  lemma CrossingEnds(minZ: real, maxZ: real, numHues: nat)
    requires minZ < 0.0 < maxZ
    ensures HueBand(minZ, minZ, Ramp(true, -minZ, maxZ), numHues) == numHues
    ensures HueBand(maxZ, minZ, Ramp(true, -minZ, maxZ), numHues) == 0
  {
    FractionEnds(-minZ, numHues);
    FractionEnds(maxZ, numHues);
  }

  /** The fraction of a ramp at its two ends: nothing of it, and all of it. */
  lemma FractionEnds(whole: real, n: nat)
    requires whole > 0.0
    ensures Trunc(Abs(0.0 / whole * n as real)) == 0
    ensures Trunc(Abs(whole / whole * n as real)) == n
    ensures Trunc(Abs(whole) / whole * n as real) == n
  {
    assert whole / whole == 1.0;
  }

  /** The shade term subtracted from every index is at least 1 when the shade
      factor is not negative. */
  lemma ShadeTermAtLeastOne(shade: real, numShades: nat)
    requires shade >= 0.0
    ensures ShadeTerm(shade, numShades) >= 1
  {
    assert numShades as real * shade >= 0.0;
  }

  /** Every index of a cell below the null value whose value lies inside the
      statistics is at most `NUMHUES * NUMSHADES - 1`, so the palette lookup
      stays inside the palette. */
  lemma ValidIndexInPalette(v: real, minZ: real, maxZ: real, restart: bool, nullValue: real,
                            sunshade: real, minShade: real, numHues: nat, numShades: nat)
    requires minZ <= v <= maxZ && v < nullValue && minShade >= 0.0
    requires Divisor(v, SelectRamp(restart, minZ, maxZ)) != 0.0
    ensures ColourIndex(v, minZ, SelectRamp(restart, minZ, maxZ), nullValue, sunshade, minShade, numHues, numShades)
            <= numHues * numShades - 1
  {
    var ramp := SelectRamp(restart, minZ, maxZ);
    HueBandBounds(v, minZ, maxZ, restart, numHues);
    var band := HueBand(v, minZ, ramp, numHues);
    var shade := ShadeFactor(sunshade, minShade);
    ShadeTermAtLeastOne(shade, numShades);
    MulMonotone(band, numHues, numShades);
    assert ColourIndex(v, minZ, ramp, nullValue, sunshade, minShade, numHues, numShades)
           == band * numShades - ShadeTerm(shade, numShades);
  }

  /** The minimum shade must not be negative: with `min_shade` at -0.5 and
      10 shades, a cell at the minimum whose sunshade result is negative gets
      index `NUMHUES * 10 + 5`, past the end of the palette. */
  lemma NegativeMinShadeLeavesPalette(numHues: nat)
    ensures ColourIndex(0.0, 0.0, SelectRamp(false, 0.0, 10.0), 100.0, -1.0, -0.5, numHues, 10) == numHues * 10 + 5
  {
    ContinuousEnds(0.0, 10.0, numHues);
  }

  lemma MulMonotone(a: int, b: int, n: nat)
    requires a <= b
    ensures a * n <= b * n
  {
    assert b * n - a * n == (b - a) * n;
  }

  /** A cell at or above the null value is blank whatever the palette,
      shade or ramp. */
  lemma NullCellBlank(v: real, minZ: real, ramp: Ramp, nullValue: real, sunshade: real, minShade: real,
                      numHues: nat, numShades: nat, palette: seq<Rgb>)
    requires v >= nullValue && minShade >= 0.0
    ensures ColourIndex(v, minZ, ramp, nullValue, sunshade, minShade, numHues, numShades) < 0
    ensures PixelOf(ColourIndex(v, minZ, ramp, nullValue, sunshade, minShade, numHues, numShades), palette)
            == Rgba(0, 0, 0, 0)
  {
    ShadeTermAtLeastOne(ShadeFactor(sunshade, minShade), numShades);
  }

  /** A cell equal to the maximum gets band 0 in the continuous ramp and in
      the upper half of the zero-crossing ramp, and the shade term then makes
      its index negative: it is written blank. */
  lemma MaxCellBlank(minZ: real, maxZ: real, restart: bool, nullValue: real, sunshade: real, minShade: real,
                     numHues: nat, numShades: nat, palette: seq<Rgb>)
    requires minZ < maxZ < nullValue && minShade >= 0.0
    requires !(restart && minZ < 0.0) || maxZ > 0.0
    ensures Divisor(maxZ, SelectRamp(restart, minZ, maxZ)) != 0.0
    ensures ColourIndex(maxZ, minZ, SelectRamp(restart, minZ, maxZ), nullValue, sunshade, minShade, numHues, numShades) < 0
    ensures PixelOf(ColourIndex(maxZ, minZ, SelectRamp(restart, minZ, maxZ), nullValue, sunshade, minShade, numHues, numShades),
                    palette) == Rgba(0, 0, 0, 0)
  {
    HueBandAtEnds(minZ, maxZ, restart, numHues);
    ShadeTermAtLeastOne(ShadeFactor(sunshade, minShade), numShades);
  }

  /** In the zero-crossing ramp the minimum (below zero) and the maximum
      (above zero) take the extreme bands of their halves: for min_z = -50,
      max_z = 100, -50 maps to `NUMHUES` and 100 to 0. */
  lemma CrossZeroExample(numHues: nat)
    ensures SelectRamp(true, -50.0, 100.0).crossZero
    ensures HueBand(-50.0, -50.0, SelectRamp(true, -50.0, 100.0), numHues) == numHues
    ensures HueBand(100.0, -50.0, SelectRamp(true, -50.0, 100.0), numHues) == 0
  {
    HueBandAtEnds(-50.0, 100.0, true, numHues);
  }
}
