/** The load-and-statistics pass: every cell of the window is validated,
    converted and stored row-major in `ar`, while the running minimum and
    maximum of the valid cells are kept (chrtrGeotiff.cpp, lines 632-728). */
module GridLoad {

  /** The two on-disk grid formats: legacy CHRTR and CHRTR2. */
  datatype Format = Chrtr | Chrtr2

  /** One cell as a row read returns it. A CHRTR2 record carries a status
      flag; a legacy CHRTR row carries only the value, so there `status`
      is ignored. */
  datatype Sample = Sample(z: real, status: bool)

  /** `options.units` (report fathoms), `options.dumb` (the legacy
      1500 m/s fathom) and `options.elev` (elevation, not depth). */
  datatype LoadOptions = LoadOptions(units: bool, dumb: bool, elev: bool)

  /** Metres per standard fathom (six feet). */
  const StandardFathom: real := 1.8288
  /** Metres per fathom derived from a 1500 m/s sound velocity. */
  const LegacyFathom: real := 1.875

  /** A CHRTR2 cell is valid when its status flag is set; a legacy cell
      when its value lies below the format's null value. */
  predicate IsValid(s: Sample, fmt: Format, nullValue: real)
  {
    match fmt
    case Chrtr2 => s.status
    case Chrtr => s.z < nullValue
  }

  /** What one stored unit is worth in source units. */
  function UnitDivisor(opts: LoadOptions): (d: real)
    ensures d > 0.0
    ensures !opts.units ==> d == 1.0
  {
    if !opts.units then 1.0 else if opts.dumb then LegacyFathom else StandardFathom
  }

  /** Unit conversion, then the sign flip for elevation: undoing the sign and
      scaling back by the unit recovers the source value. */
  function Convert(z: real, opts: LoadOptions): (v: real)
    ensures (if opts.elev then -v else v) * UnitDivisor(opts) == z
  {
    var scaled := if opts.units then (if opts.dumb then z / LegacyFathom else z / StandardFathom) else z;
    if opts.elev then -scaled else scaled
  }

  /** A valid cell stores its converted value, an invalid one the null value. */
  function Stored(s: Sample, fmt: Format, nullValue: real, opts: LoadOptions): real
  {
    if IsValid(s, fmt, nullValue) then Convert(s.z, opts) else nullValue
  }

  function StoredRow(row: seq<Sample>, fmt: Format, nullValue: real, opts: LoadOptions): (r: seq<real>)
    ensures |r| == |row|
  {
    seq(|row|, k requires 0 <= k < |row| => Stored(row[k], fmt, nullValue, opts))
  }

  /** The stored rows laid end to end: the row-major contents of `ar`. */
  function StoredGrid(rows: seq<seq<Sample>>, fmt: Format, nullValue: real, opts: LoadOptions): seq<real>
  {
    if rows == [] then []
    else StoredGrid(rows[..|rows| - 1], fmt, nullValue, opts) + StoredRow(rows[|rows| - 1], fmt, nullValue, opts)
  }

  /** Every row has `width` cells. */
  predicate Rectangular(rows: seq<seq<Sample>>, width: nat)
  {
    forall i | 0 <= i < |rows| :: |rows[i]| == width
  }

  /** The rows of the window as the per-row reads return them: row
      `yStart + i`, columns `xStart` .. `xStart + width`. */
  function ReadWindow(grid: seq<seq<Sample>>, xStart: nat, yStart: nat, width: nat, height: nat): (rows: seq<seq<Sample>>)
    requires yStart + height <= |grid| && forall r | 0 <= r < |grid| :: xStart + width <= |grid[r]|
    ensures |rows| == height && Rectangular(rows, width)
  {
    seq(height, i requires 0 <= i < height => grid[yStart + i][xStart .. xStart + width])
  }

  /** `qMin`: the first argument unless the second is smaller. */
  function QMin(a: real, b: real): real { if a < b then a else b }

  /** `qMax`: the second argument when the first is smaller. */
  function QMax(a: real, b: real): real { if a < b then b else a }

  /** The converted values of the valid cells of one row, in column order. */
  function ValidRowValues(row: seq<Sample>, fmt: Format, nullValue: real, opts: LoadOptions): seq<real>
  {
    if row == [] then []
    else
      var last := row[|row| - 1];
      ValidRowValues(row[..|row| - 1], fmt, nullValue, opts)
        + (if IsValid(last, fmt, nullValue) then [Convert(last.z, opts)] else [])
  }

  /** The converted values of the valid cells, in scan order. */
  function ValidValues(rows: seq<seq<Sample>>, fmt: Format, nullValue: real, opts: LoadOptions): seq<real>
  {
    if rows == [] then []
    else ValidValues(rows[..|rows| - 1], fmt, nullValue, opts) + ValidRowValues(rows[|rows| - 1], fmt, nullValue, opts)
  }

  /** `init` folded with `qMin` over `s` from the left. */
  function MinOf(init: real, s: seq<real>): real
  {
    if s == [] then init else QMin(MinOf(init, s[..|s| - 1]), s[|s| - 1])
  }

  /** `init` folded with `qMax` over `s` from the left. */
  function MaxOf(init: real, s: seq<real>): real
  {
    if s == [] then init else QMax(MaxOf(init, s[..|s| - 1]), s[|s| - 1])
  }

  /** `min_z` after the pass: it starts at the null value. */
  function RunMin(rows: seq<seq<Sample>>, fmt: Format, nullValue: real, opts: LoadOptions): real
  {
    MinOf(nullValue, ValidValues(rows, fmt, nullValue, opts))
  }

  /** `max_z` after the pass: it starts at the negated null value. */
  function RunMax(rows: seq<seq<Sample>>, fmt: Format, nullValue: real, opts: LoadOptions): real
  {
    MaxOf(-nullValue, ValidValues(rows, fmt, nullValue, opts))
  }

  /** What the statistics mean: both bracket every valid converted value, the
      minimum is the null value or some valid value below it, and the
      maximum the negated null value or some valid value above it. */
  ghost predicate Stats(rows: seq<seq<Sample>>, fmt: Format, nullValue: real, opts: LoadOptions, minZ: real, maxZ: real)
  {
    minZ <= nullValue && -nullValue <= maxZ &&
    (forall i, j | 0 <= i < |rows| && 0 <= j < |rows[i]| && IsValid(rows[i][j], fmt, nullValue)
       :: minZ <= Convert(rows[i][j].z, opts) <= maxZ) &&
    (minZ == nullValue ||
     exists i, j | 0 <= i < |rows| && 0 <= j < |rows[i]| && IsValid(rows[i][j], fmt, nullValue)
       :: Convert(rows[i][j].z, opts) == minZ) &&
    (maxZ == -nullValue ||
     exists i, j | 0 <= i < |rows| && 0 <= j < |rows[i]| && IsValid(rows[i][j], fmt, nullValue)
       :: Convert(rows[i][j].z, opts) == maxZ)
  }

  /** The pass over the window: `rows` are the `height` rows the reads return,
      `width` cells each. Fills `ar` row-major with the stored values and
      returns the running minimum and maximum of the valid converted values. */
  method LoadGrid(rows: seq<seq<Sample>>, width: nat, height: nat, fmt: Format, nullValue: real, opts: LoadOptions)
    returns (ar: array<real>, minZ: real, maxZ: real)
    requires |rows| == height && Rectangular(rows, width)
    ensures ar.Length == width * height
    ensures ar[..] == StoredGrid(rows, fmt, nullValue, opts)
    ensures minZ == RunMin(rows, fmt, nullValue, opts) && maxZ == RunMax(rows, fmt, nullValue, opts)
  {
    ar := new real[width * height];
    minZ, maxZ := nullValue, -nullValue;
    var i: nat, base: nat := 0, 0;
    assert rows[..0] == [];
    while i < height
      invariant i <= height
      invariant Loaded(ar, rows, i, base, fmt, nullValue, opts, minZ, maxZ)
    {
      minZ, maxZ := LoadNextRow(ar, rows, width, height, i, base, fmt, nullValue, opts, minZ, maxZ);
      i, base := i + 1, base + width;
    }
    assert rows[..height] == rows;
    StoredGridLength(rows, width, fmt, nullValue, opts);
    assert ar[..] == ar[..base];
  }

  /** After `i` rows the first `base` entries of `ar` are their stored
      values and the statistics are those of their valid values. */
  ghost predicate Loaded(ar: array<real>, rows: seq<seq<Sample>>, i: nat, base: nat,
                         fmt: Format, nullValue: real, opts: LoadOptions, minZ: real, maxZ: real)
    reads ar
  {
    i <= |rows| && base <= ar.Length &&
    ar[..base] == StoredGrid(rows[..i], fmt, nullValue, opts) &&
    minZ == RunMin(rows[..i], fmt, nullValue, opts) && maxZ == RunMax(rows[..i], fmt, nullValue, opts)
  }

  /** Row `i` of the pass extends the stored prefix and the statistics from
      the first `i` rows to the first `i + 1`. */
  method LoadNextRow(ar: array<real>, rows: seq<seq<Sample>>, width: nat, height: nat, i: nat, base: nat,
                     fmt: Format, nullValue: real, opts: LoadOptions, minIn: real, maxIn: real)
    returns (minZ: real, maxZ: real)
    requires |rows| == height && Rectangular(rows, width) && i < height
    requires ar.Length == width * height
    requires Loaded(ar, rows, i, base, fmt, nullValue, opts, minIn, maxIn)
    modifies ar
    ensures Loaded(ar, rows, i + 1, base + width, fmt, nullValue, opts, minZ, maxZ)
    ensures ar[base + width..] == old(ar[base + width..])
  {
    StoredGridLength(rows[..i], width, fmt, nullValue, opts);
    RowFits(i, width, height);
    ghost var seen := ValidValues(rows[..i], fmt, nullValue, opts);
    minZ, maxZ := LoadRow(ar, base, rows[i], fmt, nullValue, opts, minIn, maxIn);
    FoldAppend(nullValue, -nullValue, seen, ValidRowValues(rows[i], fmt, nullValue, opts));
    assert rows[..i + 1][..i] == rows[..i];
  }

  /** One row of the pass: stores the row's cells at `ar[base ..]` and folds
      its valid values into the running minimum and maximum. */
  method LoadRow(ar: array<real>, base: nat, row: seq<Sample>, fmt: Format, nullValue: real, opts: LoadOptions,
                 minIn: real, maxIn: real)
    returns (minZ: real, maxZ: real)
    requires base + |row| <= ar.Length
    modifies ar
    ensures ar[..base + |row|] == old(ar[..base]) + StoredRow(row, fmt, nullValue, opts)
    ensures ar[base + |row|..] == old(ar[base + |row|..])
    ensures minZ == MinOf(minIn, ValidRowValues(row, fmt, nullValue, opts))
    ensures maxZ == MaxOf(maxIn, ValidRowValues(row, fmt, nullValue, opts))
  {
    minZ, maxZ := minIn, maxIn;
    ghost var done := ar[..base];
    ghost var stored := StoredRow(row, fmt, nullValue, opts);
    assert row[..0] == [];
    var j: nat := 0;
    while j < |row|
      invariant j <= |row|
      invariant ar[..base + j] == done + stored[..j]
      invariant ar[base + |row|..] == old(ar[base + |row|..])
      invariant minZ == MinOf(minIn, ValidRowValues(row[..j], fmt, nullValue, opts))
      invariant maxZ == MaxOf(maxIn, ValidRowValues(row[..j], fmt, nullValue, opts))
    {
      var s := row[j];
      RowFoldStep(row, j, fmt, nullValue, opts, minIn, maxIn);
      var v;
      if IsValid(s, fmt, nullValue) {
        v := Convert(s.z, opts);
        minZ := QMin(minZ, v);
        maxZ := QMax(maxZ, v);
      } else {
        v := nullValue;
      }
      ar[base + j] := v;
      assert ar[..base + j + 1] == ar[..base + j] + [v];
      assert stored[j] == v;
      assert stored[..j + 1] == stored[..j] + [v];
      j := j + 1;
    }
    assert row[..|row|] == row;
    assert stored[..|row|] == stored;
  }

  /** One more cell continues both folds over a row's valid values with its
      converted value when it is valid, and leaves them as they were
      otherwise. */
  lemma RowFoldStep(row: seq<Sample>, j: nat, fmt: Format, nullValue: real, opts: LoadOptions, minIn: real, maxIn: real)
    requires j < |row|
    ensures var before := ValidRowValues(row[..j], fmt, nullValue, opts);
      var after := ValidRowValues(row[..j + 1], fmt, nullValue, opts);
      if IsValid(row[j], fmt, nullValue) then
        MinOf(minIn, after) == QMin(MinOf(minIn, before), Convert(row[j].z, opts)) &&
        MaxOf(maxIn, after) == QMax(MaxOf(maxIn, before), Convert(row[j].z, opts))
      else MinOf(minIn, after) == MinOf(minIn, before) && MaxOf(maxIn, after) == MaxOf(maxIn, before)
  {
    ValidRowValuesStep(row, j, fmt, nullValue, opts);
    var before := ValidRowValues(row[..j], fmt, nullValue, opts);
    assert (before + [Convert(row[j].z, opts)])[..|before|] == before;
  }

  /** One more cell extends a row's valid values by its converted value when
      it is valid, and by nothing otherwise. */
  lemma ValidRowValuesStep(row: seq<Sample>, j: nat, fmt: Format, nullValue: real, opts: LoadOptions)
    requires j < |row|
    ensures IsValid(row[j], fmt, nullValue) ==>
      ValidRowValues(row[..j + 1], fmt, nullValue, opts) == ValidRowValues(row[..j], fmt, nullValue, opts) + [Convert(row[j].z, opts)]
    ensures !IsValid(row[j], fmt, nullValue) ==>
      ValidRowValues(row[..j + 1], fmt, nullValue, opts) == ValidRowValues(row[..j], fmt, nullValue, opts)
  {
    assert row[..j + 1][..j] == row[..j];
  }

  /** Folding over a concatenation folds over the second part from where the
      first part left off. */
  lemma {:induction false} FoldAppend(init: real, lowInit: real, a: seq<real>, b: seq<real>)
    ensures MinOf(init, a + b) == MinOf(MinOf(init, a), b)
    ensures MaxOf(lowInit, a + b) == MaxOf(MaxOf(lowInit, a), b)
  {
    if b == [] {
      assert a + b == a;
    } else {
      var n := |b| - 1;
      FoldAppend(init, lowInit, a, b[..n]);
      assert (a + b)[..|a + b| - 1] == a + b[..n];
    }
  }

  /** One more element continues both folds, whichever side of `qMin` and
      `qMax` the new element is passed on. */
  lemma FoldStep(init: real, lowInit: real, s: seq<real>, n: nat)
    requires n < |s|
    ensures MinOf(init, s[..n + 1]) == QMin(s[n], MinOf(init, s[..n]))
    ensures MaxOf(lowInit, s[..n + 1]) == QMax(s[n], MaxOf(lowInit, s[..n]))
  {
    assert s[..n + 1][..n] == s[..n];
  }

  /** Row `i` of a `height`-row grid ends within the grid. */
  lemma RowFits(i: nat, width: nat, height: nat)
    requires i < height
    ensures i * width + width == (i + 1) * width <= width * height
  {
    assert (height - (i + 1)) * width >= 0;
    assert width * height - (i + 1) * width == (height - (i + 1)) * width;
  }

  /** The fold of `qMin` is at most its start and every element, and is its
      start or one of the elements; likewise for `qMax`. */
  lemma {:induction false} FoldBounds(init: real, lowInit: real, s: seq<real>)
    ensures MinOf(init, s) <= init && (forall k | 0 <= k < |s| :: MinOf(init, s) <= s[k])
    ensures MinOf(init, s) == init || MinOf(init, s) in s
    ensures MaxOf(lowInit, s) >= lowInit && (forall k | 0 <= k < |s| :: s[k] <= MaxOf(lowInit, s))
    ensures MaxOf(lowInit, s) == lowInit || MaxOf(lowInit, s) in s
  {
    if s != [] {
      var n := |s| - 1;
      FoldBounds(init, lowInit, s[..n]);
      assert forall k | 0 <= k < n :: s[..n][k] == s[k];
      assert forall x | x in s[..n] :: x in s;
    }
  }

  /** A value is among the valid values of a row exactly when some valid
      cell of the row converts to it. */
  lemma {:induction false} ValidRowValuesMembers(row: seq<Sample>, fmt: Format, nullValue: real, opts: LoadOptions, v: real)
    ensures v in ValidRowValues(row, fmt, nullValue, opts) <==>
      exists j | 0 <= j < |row| && IsValid(row[j], fmt, nullValue) :: Convert(row[j].z, opts) == v
  {
    if row != [] {
      var n := |row| - 1;
      ValidRowValuesMembers(row[..n], fmt, nullValue, opts, v);
      assert forall j | 0 <= j < n :: row[..n][j] == row[j];
      if exists j | 0 <= j < |row| && IsValid(row[j], fmt, nullValue) :: Convert(row[j].z, opts) == v {
        var j :| 0 <= j < |row| && IsValid(row[j], fmt, nullValue) && Convert(row[j].z, opts) == v;
        if j < n {
          assert IsValid(row[..n][j], fmt, nullValue) && Convert(row[..n][j].z, opts) == v;
        }
      }
    }
  }

  /** A value is among the valid values exactly when some valid cell of the
      rows converts to it. */
  lemma {:induction false} ValidValuesMembers(rows: seq<seq<Sample>>, fmt: Format, nullValue: real, opts: LoadOptions, v: real)
    ensures v in ValidValues(rows, fmt, nullValue, opts) <==>
      exists i, j | 0 <= i < |rows| && 0 <= j < |rows[i]| && IsValid(rows[i][j], fmt, nullValue) :: Convert(rows[i][j].z, opts) == v
  {
    if rows != [] {
      var n := |rows| - 1;
      ValidValuesMembers(rows[..n], fmt, nullValue, opts, v);
      ValidRowValuesMembers(rows[n], fmt, nullValue, opts, v);
      assert forall i | 0 <= i < n :: rows[..n][i] == rows[i];
      if exists i, j | 0 <= i < |rows| && 0 <= j < |rows[i]| && IsValid(rows[i][j], fmt, nullValue) :: Convert(rows[i][j].z, opts) == v {
        var i, j :| 0 <= i < |rows| && 0 <= j < |rows[i]| && IsValid(rows[i][j], fmt, nullValue) && Convert(rows[i][j].z, opts) == v;
        if i < n {
          assert IsValid(rows[..n][i][j], fmt, nullValue) && Convert(rows[..n][i][j].z, opts) == v;
        }
      }
    }
  }

  /** Every valid cell's converted value is one of the valid values. */
  lemma ValidCellSeen(rows: seq<seq<Sample>>, fmt: Format, nullValue: real, opts: LoadOptions, i: int, j: int)
    requires 0 <= i < |rows| && 0 <= j < |rows[i]| && IsValid(rows[i][j], fmt, nullValue)
    ensures Convert(rows[i][j].z, opts) in ValidValues(rows, fmt, nullValue, opts)
  {
    ValidValuesMembers(rows, fmt, nullValue, opts, Convert(rows[i][j].z, opts));
  }

  /** The running minimum and maximum of the pass are its statistics: they
      bracket every valid value and are either their start values or valid
      values themselves. */
  lemma RunStats(rows: seq<seq<Sample>>, fmt: Format, nullValue: real, opts: LoadOptions)
    ensures Stats(rows, fmt, nullValue, opts, RunMin(rows, fmt, nullValue, opts), RunMax(rows, fmt, nullValue, opts))
  {
    var vs := ValidValues(rows, fmt, nullValue, opts);
    var lo, hi := RunMin(rows, fmt, nullValue, opts), RunMax(rows, fmt, nullValue, opts);
    FoldBounds(nullValue, -nullValue, vs);
    forall i, j | 0 <= i < |rows| && 0 <= j < |rows[i]| && IsValid(rows[i][j], fmt, nullValue)
      ensures lo <= Convert(rows[i][j].z, opts) <= hi
    {
      ValidCellSeen(rows, fmt, nullValue, opts, i, j);
    }
    ValidValuesMembers(rows, fmt, nullValue, opts, lo);
    ValidValuesMembers(rows, fmt, nullValue, opts, hi);
  }

  /** The stored grid of rectangular rows has one entry per cell, cell
      (`i`, `j`) at `i * width + j`. */
  lemma {:induction false} StoredGridAt(rows: seq<seq<Sample>>, width: nat, fmt: Format, nullValue: real, opts: LoadOptions, i: nat, j: nat)
    requires Rectangular(rows, width) && i < |rows| && j < width
    ensures |StoredGrid(rows, fmt, nullValue, opts)| == |rows| * width
    ensures i * width + j < |rows| * width
    ensures StoredGrid(rows, fmt, nullValue, opts)[i * width + j] == Stored(rows[i][j], fmt, nullValue, opts)
  {
    var n := |rows| - 1;
    var prefix := rows[..n];
    StoredGridLength(prefix, width, fmt, nullValue, opts);
    StoredGridLength(rows, width, fmt, nullValue, opts);
    RowFits(i, width, |rows|);
    var front, last := StoredGrid(prefix, fmt, nullValue, opts), StoredRow(rows[n], fmt, nullValue, opts);
    assert StoredGrid(rows, fmt, nullValue, opts) == front + last;
    if i < n {
      StoredGridAt(prefix, width, fmt, nullValue, opts, i, j);
    } else {
      assert (front + last)[i * width + j] == last[j];
    }
  }

  lemma {:induction false} StoredGridLength(rows: seq<seq<Sample>>, width: nat, fmt: Format, nullValue: real, opts: LoadOptions)
    requires Rectangular(rows, width)
    ensures |StoredGrid(rows, fmt, nullValue, opts)| == |rows| * width
  {
    if rows != [] {
      var n := |rows| - 1;
      StoredGridLength(rows[..n], width, fmt, nullValue, opts);
      assert |rows| * width == n * width + width;
    }
  }

  /** An invalid cell is stored as exactly the null value, never converted;
      a valid one as its converted value. */
  lemma StoredCell(s: Sample, fmt: Format, nullValue: real, opts: LoadOptions)
    ensures !IsValid(s, fmt, nullValue) ==> Stored(s, fmt, nullValue, opts) == nullValue
    ensures IsValid(s, fmt, nullValue) ==>
      Stored(s, fmt, nullValue, opts) * UnitDivisor(opts) == if opts.elev then -s.z else s.z
  {
  }

  /** The two fathom definitions: 18.288 m is 10 standard fathoms and 18.75 m
      is 10 legacy fathoms; elevation mode reports them as -10. */
  lemma FathomExamples()
    ensures Convert(18.288, LoadOptions(true, false, false)) == 10.0
    ensures Convert(18.75, LoadOptions(true, true, false)) == 10.0
    ensures Convert(18.288, LoadOptions(true, false, true)) == -10.0
  {
  }

  /** The statistics are determined by the rows: any two pairs meeting
      `Stats` agree, so `Stats` characterises the running minimum and maximum. */
  lemma StatsDetermined(rows: seq<seq<Sample>>, fmt: Format, nullValue: real, opts: LoadOptions,
                        min1: real, max1: real, min2: real, max2: real)
    requires Stats(rows, fmt, nullValue, opts, min1, max1)
    requires Stats(rows, fmt, nullValue, opts, min2, max2)
    ensures min1 == min2 && max1 == max2
  {
    if min1 != nullValue {
      var i', j' :| 0 <= i' < |rows| && 0 <= j' < |rows[i']| && IsValid(rows[i'][j'], fmt, nullValue)
                    && Convert(rows[i'][j'].z, opts) == min1;
    }
    if min2 != nullValue {
      var i', j' :| 0 <= i' < |rows| && 0 <= j' < |rows[i']| && IsValid(rows[i'][j'], fmt, nullValue)
                    && Convert(rows[i'][j'].z, opts) == min2;
    }
    if max1 != -nullValue {
      var i', j' :| 0 <= i' < |rows| && 0 <= j' < |rows[i']| && IsValid(rows[i'][j'], fmt, nullValue)
                    && Convert(rows[i'][j'].z, opts) == max1;
    }
    if max2 != -nullValue {
      var i', j' :| 0 <= i' < |rows| && 0 <= j' < |rows[i']| && IsValid(rows[i'][j'], fmt, nullValue)
                    && Convert(rows[i'][j'].z, opts) == max2;
    }
  }

  /** With no valid cell the statistics keep their initial values. */
  lemma NoValidCellKeepsSentinels(rows: seq<seq<Sample>>, fmt: Format, nullValue: real, opts: LoadOptions, minZ: real, maxZ: real)
    requires Stats(rows, fmt, nullValue, opts, minZ, maxZ)
    requires forall i, j | 0 <= i < |rows| && 0 <= j < |rows[i]| :: !IsValid(rows[i][j], fmt, nullValue)
    ensures minZ == nullValue && maxZ == -nullValue
  {
  }

  /** With at least one valid cell the minimum does not exceed the maximum. */
  lemma MinNotAboveMax(rows: seq<seq<Sample>>, fmt: Format, nullValue: real, opts: LoadOptions,
                       minZ: real, maxZ: real, i: int, j: int)
    requires Stats(rows, fmt, nullValue, opts, minZ, maxZ)
    requires 0 <= i < |rows| && 0 <= j < |rows[i]| && IsValid(rows[i][j], fmt, nullValue)
    ensures minZ <= Convert(rows[i][j].z, opts) <= maxZ
    ensures minZ <= maxZ
  {
  }

  /** A stored value below the null value came from a valid cell, so it lies
      between the statistics: the fact the colour ramp relies on. */
  lemma {:induction false} StoredBelowNullInRange(rows: seq<seq<Sample>>, fmt: Format, nullValue: real, opts: LoadOptions,
                                                 minZ: real, maxZ: real)
    requires forall i, j | 0 <= i < |rows| && 0 <= j < |rows[i]| && IsValid(rows[i][j], fmt, nullValue)
      :: minZ <= Convert(rows[i][j].z, opts) <= maxZ
    ensures forall p | 0 <= p < |StoredGrid(rows, fmt, nullValue, opts)| && StoredGrid(rows, fmt, nullValue, opts)[p] < nullValue
      :: minZ <= StoredGrid(rows, fmt, nullValue, opts)[p] <= maxZ
  {
    if rows != [] {
      var n := |rows| - 1;
      var prefix := rows[..n];
      assert forall i | 0 <= i < n :: prefix[i] == rows[i];
      StoredBelowNullInRange(prefix, fmt, nullValue, opts, minZ, maxZ);
      var front := StoredGrid(prefix, fmt, nullValue, opts);
      var last := StoredRow(rows[n], fmt, nullValue, opts);
      var g := StoredGrid(rows, fmt, nullValue, opts);
      assert g == front + last;
      forall p | 0 <= p < |g| && g[p] < nullValue
        ensures minZ <= g[p] <= maxZ
      {
        if p < |front| {
          assert g[p] == front[p];
          assert front[p] < nullValue;
          assert minZ <= front[p] <= maxZ;
        } else {
          var k := p - |front|;
          assert g[p] == last[k] == Stored(rows[n][k], fmt, nullValue, opts);
          assert IsValid(rows[n][k], fmt, nullValue);
          assert g[p] == Convert(rows[n][k].z, opts);
          assert minZ <= Convert(rows[n][k].z, opts) <= maxZ;
        }
      }
    }
  }
}
