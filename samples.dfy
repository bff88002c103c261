/** The sample grid of the colour and sunshade previews, decoded in the
    wizard's constructor (chrtrGeotiff.cpp, lines 61-81). The resource file
    holds little-endian unsigned 16-bit values, two bytes per sample, in
    row-major order. The file is a parameter: `None` when it cannot be
    opened, otherwise its bytes. */
module SampleData {
  import opened Results
  import GridLoad

  type Byte = x: int | 0 <= x < 256

  /** `idata[1] * 256 + idata[0]`: the low byte first. */
  function Decode16(lo: Byte, hi: Byte): (v: int)
    ensures 0 <= v <= 65535
  {
    hi * 256 + lo
  }

  /** The two bytes that store a 16-bit value, low byte first. */
  function Encode16(v: int): (bytes: (Byte, Byte))
    requires 0 <= v <= 65535
  {
    (v % 256, v / 256)
  }

  /** Decoding and encoding are inverse to each other. */
  lemma Decode16RoundTrip(lo: Byte, hi: Byte, v: int)
    requires 0 <= v <= 65535
    ensures Encode16(Decode16(lo, hi)) == (lo, hi)
    ensures Decode16(Encode16(v).0, Encode16(v).1) == v
  {
  }

  /** The `p`-th sample of the file. */
  function SampleAt(bytes: seq<Byte>, p: nat): int
    requires 2 * p + 1 < |bytes|
  {
    Decode16(bytes[2 * p], bytes[2 * p + 1])
  }

  /** The first `n` samples of the file, as the floats the minimum and
      maximum are taken over. */
  function Samples(bytes: seq<Byte>, n: nat): (s: seq<real>)
    requires 2 * n <= |bytes|
    ensures |s| == n
  {
    seq(n, p requires 0 <= p < n => SampleAt(bytes, p) as real)
  }

  /** The samples arranged as `height` rows of `width`, row-major. */
  function SampleGrid(bytes: seq<Byte>, height: nat, width: nat): (g: seq<seq<int>>)
    requires 2 * (height * width) <= |bytes|
    ensures |g| == height && forall r | 0 <= r < height :: |g[r]| == width
  {
    seq(height, r requires 0 <= r < height =>
      GridLoad.RowFits(r, width, height);
      seq(width, c requires 0 <= c < width => SampleAt(bytes, r * width + c)))
  }

  /** A row of samples as the floats the minimum and maximum are taken over. */
  function RowValues(row: seq<int>): (s: seq<real>)
    ensures |s| == |row| && forall c | 0 <= c < |row| :: s[c] == row[c] as real
  {
    seq(|row|, c requires 0 <= c < |row| => row[c] as real)
  }

  /** The rows laid end to end, as floats. */
  function Flatten(g: seq<seq<int>>): seq<real>
  {
    if g == [] then [] else Flatten(g[..|g| - 1]) + RowValues(g[|g| - 1])
  }

  /** Fills row `i` of `data` with `row`, decoded from the samples starting at
      sample `base`, folding the running minimum and maximum over them. */
  method DecodeRow(bytes: seq<Byte>, ghost row: seq<int>, data: array2<int>, i: nat, base: nat, minIn: real, maxIn: real)
    returns (sampleMin: real, sampleMax: real)
    requires i < data.Length0 && |row| == data.Length1 && 2 * (base + data.Length1) <= |bytes|
    requires forall c | 0 <= c < data.Length1 :: row[c] == SampleAt(bytes, base + c)
    modifies data
    ensures forall c | 0 <= c < data.Length1 :: data[i, c] == row[c]
    ensures forall r, c | 0 <= r < data.Length0 && r != i && 0 <= c < data.Length1 :: data[r, c] == old(data[r, c])
    ensures sampleMin == GridLoad.MinOf(minIn, RowValues(row))
    ensures sampleMax == GridLoad.MaxOf(maxIn, RowValues(row))
  {
    ghost var values := RowValues(row);
    sampleMin, sampleMax := minIn, maxIn;
    var j: nat := 0;
    while j < data.Length1
      invariant 0 <= j <= data.Length1
      invariant forall c | 0 <= c < j :: data[i, c] == row[c]
      invariant forall r, c | 0 <= r < data.Length0 && r != i && 0 <= c < data.Length1 :: data[r, c] == old(data[r, c])
      invariant sampleMin == GridLoad.MinOf(minIn, values[..j])
      invariant sampleMax == GridLoad.MaxOf(maxIn, values[..j])
    {
      var p := 2 * (base + j);
      var sample := Decode16(bytes[p], bytes[p + 1]);
      data[i, j] := sample;
      GridLoad.FoldStep(minIn, maxIn, values, j);
      sampleMin := GridLoad.QMin(sample as real, sampleMin);
      sampleMax := GridLoad.QMax(sample as real, sampleMax);
      j := j + 1;
    }
    assert values[..data.Length1] == values;
  }

  /** The rows `0 .. i - 1` of `data` hold those of `grid`. */
  ghost predicate RowsDecoded(grid: seq<seq<int>>, data: array2<int>, i: nat)
    reads data
  {
    forall r, c | 0 <= r < i && r < data.Length0 && r < |grid| && 0 <= c < data.Length1 && c < |grid[r]| ::
      data[r, c] == grid[r][c]
  }

  /** One pass of the constructor's outer loop: decodes row `i`, whose
      samples start at sample `base`, and continues both folds over it. */
  method DecodeGridRow(bytes: seq<Byte>, ghost grid: seq<seq<int>>, data: array2<int>, i: nat, base: nat,
                       minIn: real, maxIn: real)
    returns (sampleMin: real, sampleMax: real)
    requires i < data.Length0 && i < |grid| && |grid[i]| == data.Length1 && 2 * (base + data.Length1) <= |bytes|
    requires forall c | 0 <= c < data.Length1 :: grid[i][c] == SampleAt(bytes, base + c)
    requires RowsDecoded(grid, data, i)
    requires minIn == GridLoad.MinOf(99999.0, Flatten(grid[..i]))
    requires maxIn == GridLoad.MaxOf(-99999.0, Flatten(grid[..i]))
    modifies data
    ensures RowsDecoded(grid, data, i + 1)
    ensures forall r, c | i < r < data.Length0 && 0 <= c < data.Length1 :: data[r, c] == old(data[r, c])
    ensures sampleMin == GridLoad.MinOf(99999.0, Flatten(grid[..i + 1]))
    ensures sampleMax == GridLoad.MaxOf(-99999.0, Flatten(grid[..i + 1]))
  {
    sampleMin, sampleMax := DecodeRow(bytes, grid[i], data, i, base, minIn, maxIn);
    forall r, c | 0 <= r < i + 1 && r < data.Length0 && r < |grid| && 0 <= c < data.Length1 && c < |grid[r]|
      ensures data[r, c] == grid[r][c]
    {
      if r < i {
        assert data[r, c] == old(data[r, c]);
      }
    }
    assert grid[..i + 1][..i] == grid[..i];
    GridLoad.FoldAppend(99999.0, -99999.0, Flatten(grid[..i]), RowValues(grid[i]));
  }

  /** The outer loop over the rows of `data`, which `grid` describes. */
  method DecodeRows(bytes: seq<Byte>, ghost grid: seq<seq<int>>, data: array2<int>) returns (sampleMin: real, sampleMax: real)
    requires 2 * (data.Length0 * data.Length1) <= |bytes| && grid == SampleGrid(bytes, data.Length0, data.Length1)
    modifies data
    ensures RowsDecoded(grid, data, data.Length0)
    ensures sampleMin == GridLoad.MinOf(99999.0, Flatten(grid))
    ensures sampleMax == GridLoad.MaxOf(-99999.0, Flatten(grid))
  {
    sampleMin, sampleMax := 99999.0, -99999.0;
    var i: nat, base: nat := 0, 0;
    while i < data.Length0
      invariant 0 <= i <= data.Length0
      invariant base == i * data.Length1
      invariant RowsDecoded(grid, data, i)
      invariant sampleMin == GridLoad.MinOf(99999.0, Flatten(grid[..i]))
      invariant sampleMax == GridLoad.MaxOf(-99999.0, Flatten(grid[..i]))
    {
      SampleGridRow(bytes, data.Length0, data.Length1, i, base);
      sampleMin, sampleMax := DecodeGridRow(bytes, grid, data, i, base, sampleMin, sampleMax);
      i, base := i + 1, base + data.Length1;
    }
    assert grid[..data.Length0] == grid;
  }

  /** The constructor's decoding loop: the minimum starts at 99999 and the
      maximum at -99999; when the file opens, every sample is decoded in
      row-major order and both fold over them. */
  method DecodeSamples(file: Option<seq<Byte>>, data: array2<int>) returns (sampleMin: real, sampleMax: real)
    requires file.Some? ==> 2 * (data.Length0 * data.Length1) <= |file.value|
    modifies data
    ensures file.None? ==> sampleMin == 99999.0 && sampleMax == -99999.0 && unchanged(data)
    ensures file.Some? ==> forall r, c | 0 <= r < data.Length0 && 0 <= c < data.Length1 ::
      data[r, c] == SampleGrid(file.value, data.Length0, data.Length1)[r][c]
    ensures file.Some? ==> sampleMin == GridLoad.MinOf(99999.0, Samples(file.value, data.Length0 * data.Length1))
    ensures file.Some? ==> sampleMax == GridLoad.MaxOf(-99999.0, Samples(file.value, data.Length0 * data.Length1))
  {
    if file.None? {
      return 99999.0, -99999.0;
    }
    ghost var grid := SampleGrid(file.value, data.Length0, data.Length1);
    sampleMin, sampleMax := DecodeRows(file.value, grid, data);
    FlattenSampleGrid(file.value, data.Length0, data.Length1, data.Length0);
    assert grid[..data.Length0] == grid;
  }

  /** Row `i` of the grid holds the `width` samples from position
      `i * width` on. */
  lemma SampleGridRow(bytes: seq<Byte>, height: nat, width: nat, i: nat, base: nat)
    requires 2 * (height * width) <= |bytes| && i < height && base == i * width
    ensures 2 * (base + width) <= |bytes| && base + width == (i + 1) * width
    ensures forall c | 0 <= c < width :: SampleGrid(bytes, height, width)[i][c] == SampleAt(bytes, base + c)
  {
    GridLoad.RowFits(i, width, height);
  }

  /** The first `i` rows of the grid, laid end to end, are the first
      `i * width` samples of the file. */
  lemma {:induction false} FlattenSampleGrid(bytes: seq<Byte>, height: nat, width: nat, i: nat)
    requires 2 * (height * width) <= |bytes| && i <= height
    ensures 2 * (i * width) <= |bytes|
    ensures Flatten(SampleGrid(bytes, height, width)[..i]) == Samples(bytes, i * width)
  {
    var g := SampleGrid(bytes, height, width);
    if i == 0 {
      assert g[..0] == [];
    } else {
      FlattenSampleGrid(bytes, height, width, i - 1);
      var base := (i - 1) * width;
      SampleGridRow(bytes, height, width, i - 1, base);
      assert g[..i][..i - 1] == g[..i - 1];
      var front, row := Samples(bytes, base), RowValues(g[i - 1]);
      var all := Samples(bytes, base + width);
      forall p | 0 <= p < base + width
        ensures all[p] == (front + row)[p]
      {
        if p >= base {
          assert row[p - base] == SampleAt(bytes, base + (p - base)) as real;
        }
      }
      assert all == front + row;
    }
  }

  /** Sample (`r`, `c`) of the grid is the sample at row-major position
      `r * width + c` of the file. */
  lemma SampleGridAt(bytes: seq<Byte>, height: nat, width: nat, r: nat, c: nat)
    requires 2 * (height * width) <= |bytes| && r < height && c < width
    ensures r * width + c < height * width
    ensures SampleGrid(bytes, height, width)[r][c] as real == Samples(bytes, height * width)[r * width + c]
  {
    GridLoad.RowFits(r, width, height);
  }

  /** Every sample lies between the minimum and the maximum, both lie in
      0 .. 65535 and are attained, unless there are no samples, when they
      keep their starting values. */
  lemma {:induction false} SampleStats(bytes: seq<Byte>, n: nat)
    requires 2 * n <= |bytes|
    ensures forall p | 0 <= p < n ::
      GridLoad.MinOf(99999.0, Samples(bytes, n)) <= SampleAt(bytes, p) as real <= GridLoad.MaxOf(-99999.0, Samples(bytes, n))
    ensures n == 0 ==> GridLoad.MinOf(99999.0, Samples(bytes, n)) == 99999.0 && GridLoad.MaxOf(-99999.0, Samples(bytes, n)) == -99999.0
    ensures n > 0 ==> GridLoad.MinOf(99999.0, Samples(bytes, n)) in Samples(bytes, n)
    ensures n > 0 ==> GridLoad.MaxOf(-99999.0, Samples(bytes, n)) in Samples(bytes, n)
    ensures n > 0 ==> 0.0 <= GridLoad.MinOf(99999.0, Samples(bytes, n)) <= GridLoad.MaxOf(-99999.0, Samples(bytes, n)) <= 65535.0
  {
    var s := Samples(bytes, n);
    GridLoad.FoldBounds(99999.0, -99999.0, s);
    assert forall p | 0 <= p < n :: s[p] == SampleAt(bytes, p) as real;
    if n > 0 {
      assert 0.0 <= s[0] <= 65535.0;
      assert forall x | x in s :: 0.0 <= x <= 65535.0;
    }
  }
}
