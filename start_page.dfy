/** The wizard's first page (startPage.cpp): the command-line file, and the
    three browse slots for the grid file, the output file and the optional
    area file. The file dialogs, the grid-file openers and the shapefile
    library are parameters: whether the dialog was accepted, the selected
    name and directory, whether a name opens in a given format, and the
    contents of a shapefile. */
module StartPageModel {
  import opened Results
  import opened Text
  import opened GridLoad

  /** The part of the shared `OPTIONS` record the page writes. */
  class Options {
    var chrtr2: bool
    var inputDir: string
    var outputDir: string
    var areaDir: string

    constructor (chrtr2: bool, inputDir: string, outputDir: string, areaDir: string)
      ensures this.chrtr2 == chrtr2 && this.inputDir == inputDir
      ensures this.outputDir == outputDir && this.areaDir == areaDir
    {
      this.chrtr2 := chrtr2;
      this.inputDir := inputDir;
      this.outputDir := outputDir;
      this.areaDir := areaDir;
    }
  }

  /** Whether opening the named file with a format's opener succeeds. */
  type Opener = (string, Format) -> bool

  /** The opener the command line uses: CHRTR2 when `.ch2` occurs anywhere
      in the name. */
  function CommandLineFormat(name: string): (f: Format)
    ensures f == Chrtr2 <==> Contains(name, ".ch2")
  {
    if Contains(name, ".ch2") then Chrtr2 else Chrtr
  }

  /** The opener the browse slot uses: CHRTR2 when the name ends with `.ch2`. */
  function BrowseFormat(name: string): (f: Format)
    ensures f == Chrtr2 <==> EndsWith(name, ".ch2")
  {
    if EndsWith(name, ".ch2") then Chrtr2 else Chrtr
  }

  /** Every name the browse slot opens as CHRTR2 the command line opens as
      CHRTR2 too; the converse fails for names with `.ch2` inside. */
  lemma BrowseChrtr2IsCommandLineChrtr2(name: string)
    ensures BrowseFormat(name) == Chrtr2 ==> CommandLineFormat(name) == Chrtr2
    ensures CommandLineFormat("a.ch2.fin") == Chrtr2 && BrowseFormat("a.ch2.fin") == Chrtr
  {
    if EndsWith(name, ".ch2") {
      SuffixIsContained(name, ".ch2");
    }
    SearchAndSuffixDiffer();
  }

  /** Shapefile shape types (ESRI shapefile technical description). */
  const ShapeArc := 3
  const ShapePolygon := 5
  const ShapeArcZ := 13
  const ShapePolygonZ := 15
  const ShapeArcM := 23
  const ShapePolygonM := 25

  /** The polygon and polyline shape types an area may have. */
  predicate IsLineOrPolygon(shapeType: int)
  {
    shapeType == ShapePolygon || shapeType == ShapePolygonZ || shapeType == ShapePolygonM ||
    shapeType == ShapeArc || shapeType == ShapeArcZ || shapeType == ShapeArcM
  }

  datatype Vertex = Vertex(x: real, y: real)

  /** An opened shapefile: its header's shape type and the vertices of its
      first shape. */
  datatype ShapeFile = ShapeFile(shapeType: int, vertices: seq<Vertex>)

  /** A vertex that could be geographic: longitude in [-360, 360] and
      latitude in [-90, 90], ends included. */
  predicate Geographic(v: Vertex)
  {
    -360.0 <= v.x <= 360.0 && -90.0 <= v.y <= 90.0
  }

  predicate AllGeographic(vs: seq<Vertex>)
  {
    forall j | 0 <= j < |vs| :: Geographic(vs[j])
  }

  /** The checks an opened shapefile must pass. */
  predicate ShapeAccepted(shp: ShapeFile)
  {
    IsLineOrPolygon(shp.shapeType) && |shp.vertices| >= 3 && AllGeographic(shp.vertices)
  }

  /** An area file is taken unless it is a shapefile (by its suffix, in any
      case) that does not open (`None`) or fails the checks. */
  predicate AreaAccepted(name: string, shp: Option<ShapeFile>)
  {
    !EndsWithIgnoreCase(name, ".shp") || (shp.Some? && ShapeAccepted(shp.value))
  }

  /** The vertex loop: stops at the first vertex outside the geographic
      ranges. */
  method ScanVertices(vs: seq<Vertex>) returns (ok: bool)
    ensures ok <==> AllGeographic(vs)
  {
    var j := 0;
    while j < |vs|
      invariant 0 <= j <= |vs|
      invariant forall k | 0 <= k < j :: Geographic(vs[k])
    {
      if vs[j].x < -360.0 || vs[j].x > 360.0 || vs[j].y < -90.0 || vs[j].y > 90.0 {
        return false;
      }
      j := j + 1;
    }
    return true;
  }

  /** Vertices on the range limits pass; one just beyond fails. */
  lemma RangeLimits()
    ensures AllGeographic([Vertex(-360.0, -90.0), Vertex(360.0, 90.0), Vertex(0.0, 0.0)])
    ensures !AllGeographic([Vertex(0.0, 0.0), Vertex(360.5, 0.0)])
  {
    assert !Geographic([Vertex(0.0, 0.0), Vertex(360.5, 0.0)][1]);
  }

  /** The output field's default: the grid name with `.tif` appended, used
      only when the field is empty. */
  function DefaultOutput(current: string, gridName: string): (r: string)
    ensures current != [] ==> r == current
    ensures current == [] ==> EndsWith(r, ".tif") && |r| == |gridName| + 4 && r[..|gridName|] == gridName
  {
    if current == [] then gridName + ".tif" else current
  }

  class StartPage {
    const options: Options
    var chrtrFileText: string
    var outputFileText: string
    var areaFileText: string

    /** With exactly one argument the argument is tried with the opener
        `CommandLineFormat` picks; when it opens it becomes the grid file and
        names the output. Either way `chrtr2` is then set, also for a legacy
        CHRTR file. */
    constructor (argv: seq<string>, op: Options, opens: Opener)
      modifies op
      ensures options == op
      ensures |argv| != 2 ==> chrtrFileText == [] && outputFileText == [] && unchanged(op)
      ensures |argv| == 2 && opens(argv[1], CommandLineFormat(argv[1])) ==>
        chrtrFileText == argv[1] && outputFileText == argv[1] + ".tif"
      ensures |argv| == 2 && !opens(argv[1], CommandLineFormat(argv[1])) ==>
        chrtrFileText == [] && outputFileText == []
      ensures |argv| == 2 ==>
        op.chrtr2 && op.inputDir == old(op.inputDir) && op.outputDir == old(op.outputDir) && op.areaDir == old(op.areaDir)
      ensures areaFileText == []
    {
      options := op;
      chrtrFileText := [];
      outputFileText := [];
      areaFileText := [];
      new;
      if |argv| == 2 {
        var name := argv[1];
        if Contains(name, ".ch2") {
          if opens(name, Chrtr2) {
            chrtrFileText := name;
            outputFileText := DefaultOutput(outputFileText, name);
          }
          op.chrtr2 := true;
        } else {
          if opens(name, Chrtr) {
            chrtrFileText := name;
            outputFileText := DefaultOutput(outputFileText, name);
          }
          op.chrtr2 := true;
        }
      }
    }

    /** The grid-file browse slot. A non-empty name is opened with the
        opener `BrowseFormat` picks, and a failed open changes nothing.
        Otherwise the name (even an empty one) becomes the grid file, the
        dialog's directory the input directory, an empty output field gets
        the default name, and `chrtr2` records the opener that succeeded. */
    method CHRTRFileBrowse(accepted: bool, selected: string, dialogDir: string, opens: Opener)
      modifies this, options
      ensures areaFileText == old(areaFileText)
      ensures options.outputDir == old(options.outputDir) && options.areaDir == old(options.areaDir)
      ensures !accepted || (selected != [] && !opens(selected, BrowseFormat(selected))) ==>
        chrtrFileText == old(chrtrFileText) && outputFileText == old(outputFileText) &&
        options.chrtr2 == old(options.chrtr2) && options.inputDir == old(options.inputDir)
      ensures accepted && (selected == [] || opens(selected, BrowseFormat(selected))) ==>
        chrtrFileText == selected && options.inputDir == dialogDir &&
        outputFileText == DefaultOutput(old(outputFileText), selected) &&
        options.chrtr2 == (if selected == [] then old(options.chrtr2) else BrowseFormat(selected) == Chrtr2)
    {
      if !accepted {
        return;
      }
      if selected != [] {
        if EndsWith(selected, ".ch2") {
          if !opens(selected, Chrtr2) {
            return;
          }
          options.chrtr2 := true;
        } else {
          if !opens(selected, Chrtr) {
            return;
          }
          options.chrtr2 := false;
        }
      }
      chrtrFileText := selected;
      options.inputDir := dialogDir;
      outputFileText := DefaultOutput(outputFileText, selected);
    }

    /** The output-file browse slot: an accepted dialog always records its
        directory; a non-empty name becomes the output file with `.tif`
        appended when missing. */
    method OutputFileBrowse(accepted: bool, selected: string, dialogDir: string)
      modifies this, options
      ensures chrtrFileText == old(chrtrFileText) && areaFileText == old(areaFileText)
      ensures options.chrtr2 == old(options.chrtr2) && options.inputDir == old(options.inputDir)
      ensures options.areaDir == old(options.areaDir)
      ensures options.outputDir == if accepted then dialogDir else old(options.outputDir)
      ensures outputFileText == if accepted && selected != [] then AppendTif(selected) else old(outputFileText)
      ensures accepted && selected != [] ==> EndsWith(outputFileText, ".tif")
    {
      if accepted {
        options.outputDir := dialogDir;
        if selected != [] {
          outputFileText := AppendTif(selected);
        }
      }
    }

    /** The area-file browse slot: an accepted dialog always records its
        directory; a non-empty name becomes the area file unless it is a
        shapefile that does not open or fails the type, vertex-count or
        range checks (`shp` is the opened file, `None` when it does not
        open). */
    method AreaFileBrowse(accepted: bool, selected: string, dialogDir: string, shp: Option<ShapeFile>)
      modifies this, options
      ensures chrtrFileText == old(chrtrFileText) && outputFileText == old(outputFileText)
      ensures options.chrtr2 == old(options.chrtr2) && options.inputDir == old(options.inputDir)
      ensures options.outputDir == old(options.outputDir)
      ensures options.areaDir == if accepted then dialogDir else old(options.areaDir)
      ensures areaFileText ==
        if accepted && selected != [] && AreaAccepted(selected, shp) then selected else old(areaFileText)
    {
      if !accepted {
        return;
      }
      options.areaDir := dialogDir;
      if selected == [] {
        return;
      }
      if EndsWithIgnoreCase(selected, ".shp") {
        if shp.None? {
          return;
        }
        var file := shp.value;
        if !IsLineOrPolygon(file.shapeType) {
          return;
        }
        if |file.vertices| < 3 {
          return;
        }
        var ok := ScanVertices(file.vertices);
        if !ok {
          return;
        }
      }
      areaFileText := selected;
    }
  }
}
