/** The quarter exporter (`export_quarter_coords_to_csv.py`, `main`): parse the `geometry`
    text of every row, drop the rows without a point, reproject the rest and write the
    quarter code, the quarter name and the position under new column names. */
module QuarterExport {
  import opened Wrappers
  import opened Rows
  import opened Frames
  import opened PointWkt

  const Geometry := "geometry"
  const Kuerzel := "kuerzel"
  const Name := "name"
  const QuarterCode := "quarter_code"
  const QuarterName := "quarter_name"

  /** The columns `main` selects, in the order it selects them. */
  const Selected := [Kuerzel, Name, Latitude, Longitude]

  /** The names the selected columns are given. */
  const OutputHeader := [QuarterCode, QuarterName, Latitude, Longitude]

  /** What `parse_point_wkt` returns for one row: east and north. */
  type Coords = (Option<real>, Option<real>)

  /** The exceptions the exporter raises. */
  datatype ExportError =
      /** The `KeyError` of `df["geometry"]`. */
    | MissingGeometry
      /** The `ValueError` of `float` on a matched group, from the first row that has one. */
    | InvalidPoint(error: FloatError)
      /** The `KeyError` of `df[[...]]`, naming the selected labels that are absent. */
    | NotInIndex(missing: seq<string>)

  /** `str` of a missing value. */
  const NanText := "nan"

  /** `parse_point_wkt` on one cell, which it first turns into text with `str`. A missing
      value becomes `nan`; a number is taken to parse as no match, since `str` of a
      float never holds the letter `P`. */
  function ParseCell(c: Cell): (r: Result<Coords, FloatError>)
    ensures r.Ok? ==> (r.value.0.Some? <==> r.value.1.Some?)
    ensures !c.Text? ==> r == Ok((None, None))
  {
    match c
    case Text(s) => ParsePoint(s)
    case Blank =>
      ParsePointWithoutKeyword(NanText);
      ParsePoint(NanText)
    case Num(_) => Ok((None, None))
  }

  /** The position of the one column labelled `name` in a frame with distinct labels. */
  function Column(t: Table, name: string): (c: nat)
    requires WellFormed(t) && name in t.header
    ensures c < |t.header| && t.header[c] == name
    ensures forall row :: row in t.rows ==> c < |row|
  {
    ColumnsNamed(t.header, name)[0]
  }

  /** The `geometry` cell of every row, in row order. */
  function GeometryCells(t: Table): (r: seq<Cell>)
    requires WellFormed(t) && Geometry in t.header
    ensures |r| == |t.rows| && forall i :: 0 <= i < |t.rows| ==> r[i] == t.rows[i][Column(t, Geometry)]
  {
    var g := Column(t, Geometry);
    seq(|t.rows|, i requires 0 <= i < |t.rows| => assert t.rows[i] in t.rows; t.rows[i][g])
  }

  /** Each row together with its parsed point. */
  function WithCoords(rows: seq<seq<Cell>>, coords: seq<Coords>): (r: seq<(seq<Cell>, Coords)>)
    requires |coords| == |rows|
    ensures |r| == |rows| && forall i :: 0 <= i < |rows| ==> r[i] == (rows[i], coords[i])
  {
    seq(|rows|, i requires 0 <= i < |rows| => (rows[i], coords[i]))
  }

  /** The row survives `dropna(subset=["east_coordinate"])`. */
  const HasEast: ((seq<Cell>, Coords)) -> bool := (p: (seq<Cell>, Coords)) => p.1.0.Some?

  /** The geometry cell parses to a point. */
  const HasPoint: Cell -> bool := c => ParseCell(c).Ok? && ParseCell(c).value.0.Some?

  /** One output row: the code and name cells, then latitude and longitude of
      `toWgs84(east, north)`, which returns (longitude, latitude). */
  function QuarterRow(row: seq<Cell>, c: Coords, code: nat, name: nat,
                      toWgs84: (real, real) -> (real, real)): (r: seq<Cell>)
    requires c.0.Some? && c.1.Some? && code < |row| && name < |row|
    ensures |r| == |OutputHeader|
  {
    var lonLat := toWgs84(c.0.value, c.1.value);
    [row[code], row[name], Num(lonLat.1), Num(lonLat.0)]
  }

  /** The rows of the output: the rows with a point, reprojected, in input order. */
  function QuarterRows(rows: seq<seq<Cell>>, coords: seq<Coords>, code: nat, name: nat,
                       toWgs84: (real, real) -> (real, real)): (r: seq<seq<Cell>>)
    requires |coords| == |rows|
    requires forall i :: 0 <= i < |rows| ==> (coords[i].0.Some? <==> coords[i].1.Some?)
    requires forall row :: row in rows ==> code < |row| && name < |row|
    ensures forall row :: row in r ==> |row| == |OutputHeader|
  {
    var pairs := WithCoords(rows, coords);
    var kept := Filter(pairs, HasEast);
    FilterMembers(pairs, HasEast);
    seq(|kept|, k requires 0 <= k < |kept| =>
      assert kept[k] in kept;
      QuarterRow(kept[k].0, kept[k].1, code, name, toWgs84))
  }

  /** The exporter's `main`, from the frame `read_csv` returns to the frame it writes. */
  function Export(t: Table, toWgs84: (real, real) -> (real, real)): (r: Result<Table, ExportError>)
    requires WellFormed(t)
    ensures r == Err(MissingGeometry) <==> Geometry !in t.header
    ensures r.Err? && r.error.InvalidPoint? <==>
              Geometry in t.header && exists i :: 0 <= i < |t.rows| && ParseCell(GeometryCells(t)[i]).Err?
    ensures r.Err? && r.error.InvalidPoint? ==>
              exists i :: 0 <= i < |t.rows| && ParseCell(GeometryCells(t)[i]) == Err(r.error.error)
                          && forall j :: 0 <= j < i ==> ParseCell(GeometryCells(t)[j]).Ok?
    ensures r.Err? && r.error.NotInIndex? <==>
              && Geometry in t.header
              && (forall i :: 0 <= i < |t.rows| ==> ParseCell(GeometryCells(t)[i]).Ok?)
              && (Kuerzel !in t.header || Name !in t.header)
    ensures r.Err? && r.error.NotInIndex? ==>
              r.error.missing == (if Kuerzel in t.header then [] else [Kuerzel])
                                 + (if Name in t.header then [] else [Name])
    ensures r.Ok? ==> r.value.header == OutputHeader && WellFormed(r.value)
  {
    if Geometry !in t.header then Err(MissingGeometry)
    else
      match ApplyAll(GeometryCells(t), ParseCell)
      case Err(e) => Err(InvalidPoint(e))
      case Ok(coords) => Project(t, coords, toWgs84)
  }

  /** The labels the frame carries when the columns are selected: those read, and the
      latitude and longitude just added. */
  function Absent(header: seq<string>): string -> bool {
    x => x !in header + [Latitude, Longitude]
  }

  /** The selection and renaming at the end of `main`, once every row is parsed. */
  function Project(t: Table, coords: seq<Coords>, toWgs84: (real, real) -> (real, real))
    : (r: Result<Table, ExportError>)
    requires WellFormed(t) && |coords| == |t.rows|
    requires forall i :: 0 <= i < |t.rows| ==> (coords[i].0.Some? <==> coords[i].1.Some?)
    ensures r.Err? <==> Kuerzel !in t.header || Name !in t.header
    ensures r.Err? ==> r.error.NotInIndex?
                       && r.error.missing == (if Kuerzel in t.header then [] else [Kuerzel])
                                             + (if Name in t.header then [] else [Name])
    ensures r.Ok? ==> r.value.header == OutputHeader && WellFormed(r.value)
  {
    var missing := Filter(Selected, Absent(t.header));
    MissingSelected(t.header);
    if |missing| > 0 then Err(NotInIndex(missing))
    else
      OutputHeaderDistinct();
      Ok(Table(OutputHeader, QuarterRows(t.rows, coords, Column(t, Kuerzel), Column(t, Name), toWgs84)))
  }

  /** The latitude and longitude columns exist by the time of the selection, so only the
      code and the name can be missing, and they are named in selection order. */
  lemma MissingSelected(header: seq<string>)
    ensures Filter(Selected, Absent(header))
            == (if Kuerzel in header then [] else [Kuerzel]) + (if Name in header then [] else [Name])
  {
    var keep := Absent(header);
    assert Latitude in header + [Latitude, Longitude];
    assert Longitude in header + [Latitude, Longitude];
    assert Kuerzel in header + [Latitude, Longitude] <==> Kuerzel in header;
    assert Name in header + [Latitude, Longitude] <==> Name in header;
    assert Selected[1..][1..][1..][1..] == [];
    assert Filter(Selected[1..][1..][1..], keep) == [];
    assert Filter(Selected[1..][1..], keep) == [];
  }

  lemma OutputHeaderDistinct()
    ensures Distinct(OutputHeader)
  {
    assert OutputHeader[0][8] != OutputHeader[1][8];
  }

  // ---------------------------------------------------------------------------
  // Properties of the exporter

  /** The rows of `QuarterRows`: exactly the rows with an east value, in input order
      (the k-th output row comes from the k-th such row), each with its code and name
      cells and the reprojected latitude and longitude. */
  lemma QuarterRowsSpec(rows: seq<seq<Cell>>, coords: seq<Coords>, code: nat, name: nat,
                        toWgs84: (real, real) -> (real, real))
    requires |coords| == |rows|
    requires forall i :: 0 <= i < |rows| ==> (coords[i].0.Some? <==> coords[i].1.Some?)
    requires forall row :: row in rows ==> code < |row| && name < |row|
    ensures var idx := KeptIndices(WithCoords(rows, coords), HasEast);
            var out := QuarterRows(rows, coords, code, name, toWgs84);
            && StrictlyIncreasing(idx)
            && (forall i :: 0 <= i < |rows| ==> (i in idx <==> coords[i].0.Some?))
            && |out| == |idx|
            && forall k :: 0 <= k < |idx| ==>
                 var row := rows[idx[k]];
                 var c := coords[idx[k]];
                 && c.0.Some? && c.1.Some?
                 && var lonLat := toWgs84(c.0.value, c.1.value);
                    out[k] == [row[code], row[name], Num(lonLat.1), Num(lonLat.0)]
  {
    var pairs := WithCoords(rows, coords);
    FilterIsKeptIndices(pairs, HasEast);
    var idx := KeptIndices(pairs, HasEast);
    forall i | 0 <= i < |rows|
      ensures i in idx <==> coords[i].0.Some?
    {
      assert HasEast(pairs[i]) <==> coords[i].0.Some?;
    }
  }

  /** `out` is the exporter's output for `rows` with geometry cells `cells`: it has one
      row for each input row whose geometry holds a point, in input order (the k-th output
      row comes from the k-th such row), and that row holds the input row's code and name
      cells followed by the latitude and longitude of its reprojected point. */
  predicate ExportedRows(rows: seq<seq<Cell>>, cells: seq<Cell>, code: nat, name: nat,
                         toWgs84: (real, real) -> (real, real), out: seq<seq<Cell>>)
  {
    var idx := KeptIndices(cells, HasPoint);
    && (forall i :: 0 <= i < |cells| ==>
          (i in idx <==> ParseCell(cells[i]).Ok? && ParseCell(cells[i]).value.0.Some?))
    && |out| == |idx|
    && forall k :: 0 <= k < |idx| ==>
         && idx[k] < |rows| && code < |rows[idx[k]]| && name < |rows[idx[k]]|
         && ParseCell(cells[idx[k]]).Ok?
         && var p := ParseCell(cells[idx[k]]).value;
            && p.0.Some? && p.1.Some?
            && var lonLat := toWgs84(p.0.value, p.1.value);
               out[k] == [rows[idx[k]][code], rows[idx[k]][name], Num(lonLat.1), Num(lonLat.0)]
  }

  /** Once every geometry parses and the code and name columns exist, the export
      succeeds with the renamed header, and its rows are the exporter's output rows for
      the input rows. */
  lemma ExportValue(t: Table, toWgs84: (real, real) -> (real, real))
    requires WellFormed(t) && Geometry in t.header && Kuerzel in t.header && Name in t.header
    requires forall i :: 0 <= i < |t.rows| ==> ParseCell(GeometryCells(t)[i]).Ok?
    ensures var r := Export(t, toWgs84);
            && r.Ok? && r.value.header == OutputHeader
            && ExportedRows(t.rows, GeometryCells(t), Column(t, Kuerzel), Column(t, Name), toWgs84, r.value.rows)
  {
    var cells := GeometryCells(t);
    var coords := ApplyAll(cells, ParseCell).value;
    ExportOfParsed(t, toWgs84, coords);
    QuarterRowsExported(t.rows, cells, coords, Column(t, Kuerzel), Column(t, Name), toWgs84);
  }

  /** The rows `QuarterRows` builds from parsed geometries are the exporter's output rows. */
  lemma QuarterRowsExported(rows: seq<seq<Cell>>, cells: seq<Cell>, coords: seq<Coords>, code: nat, name: nat,
                            toWgs84: (real, real) -> (real, real))
    requires |cells| == |rows| && |coords| == |rows|
    requires forall i :: 0 <= i < |rows| ==> ParseCell(cells[i]) == Ok(coords[i])
    requires forall i :: 0 <= i < |rows| ==> (coords[i].0.Some? <==> coords[i].1.Some?)
    requires forall row :: row in rows ==> code < |row| && name < |row|
    ensures ExportedRows(rows, cells, code, name, toWgs84, QuarterRows(rows, coords, code, name, toWgs84))
  {
    QuarterRowsSpec(rows, coords, code, name, toWgs84);
    var pairs := WithCoords(rows, coords);
    forall i | 0 <= i < |rows|
      ensures HasEast(pairs[i]) == HasPoint(cells[i])
    {
    }
    KeptIndicesAgree(pairs, HasEast, cells, HasPoint);
  }

  /** With every geometry parsed to `coords`, the export is the projection of them. */
  lemma ExportOfParsed(t: Table, toWgs84: (real, real) -> (real, real), coords: seq<Coords>)
    requires WellFormed(t) && Geometry in t.header && Kuerzel in t.header && Name in t.header
    requires ApplyAll(GeometryCells(t), ParseCell) == Ok(coords)
    ensures |coords| == |t.rows|
    ensures forall i :: 0 <= i < |t.rows| ==> (coords[i].0.Some? <==> coords[i].1.Some?)
    ensures Export(t, toWgs84)
            == Ok(Table(OutputHeader, QuarterRows(t.rows, coords, Column(t, Kuerzel), Column(t, Name), toWgs84)))
  {
  }

  /** A row whose geometry is `POINT (E N)` with two numerals yields their values. */
  lemma ParseCellOfPointText(east: string, north: string)
    requires |east| > 0 && TokenBetween(east, 0, |east|) && IsNumeral(east)
    requires |north| > 0 && TokenBetween(north, 0, |north|) && IsNumeral(north)
    ensures ParseCell(Text(PointText(east, north))) == Ok((DecimalValue(east), DecimalValue(north)))
    ensures DecimalValue(east).Some? && DecimalValue(north).Some?
  {
    ParsePointOfTokens(east, north);
  }
}
