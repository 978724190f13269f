/** The counting-site converter (`convert_countingsite_lv95_csv_to_wgs84.py`, `main`):
    standardise the headers, insist on the four required columns, keep the rows whose
    east and north values are numeric, reproject them and select four output columns. */
module SiteConvert {
  import opened Wrappers
  import opened Rows
  import opened Frames
  import opened HeaderNames
  import opened Standardize

  /** The exceptions the converter raises. */
  datatype ConvertError =
      /** The `ValueError` naming the missing required columns (sorted) and the columns found. */
    | MissingColumns(missing: seq<string>, found: seq<string>)
      /** The `TypeError` of `pandas.to_numeric` when a coordinate label names two
          columns, so that selecting it yields a frame rather than a series. */
    | NotASeries(column: string)

  /** Python's `<` on strings: lexicographic by code point, a proper prefix first. */
  predicate LexLess(a: string, b: string) {
    if |a| == 0 then |b| > 0
    else |b| > 0 && (a[0] < b[0] || (a[0] == b[0] && LexLess(a[1..], b[1..])))
  }

  /** No two strings are each smaller than the other. */
  lemma {:induction false} LexLessAsymmetric(a: string, b: string)
    requires LexLess(a, b)
    ensures !LexLess(b, a)
  {
    if |a| > 0 && a[0] == b[0] {
      LexLessAsymmetric(a[1..], b[1..]);
    }
  }

  /** A proper prefix sorts first. */
  lemma {:induction false} LexLessPrefix(a: string, b: string)
    requires |a| < |b| && a == b[..|a|]
    ensures LexLess(a, b)
  {
    if |a| > 0 {
      assert a[1..] == b[1..][..|a| - 1];
      LexLessPrefix(a[1..], b[1..]);
    }
  }

  /** At the first position where two strings differ, the smaller character decides. */
  lemma {:induction false} LexLessAt(a: string, b: string, k: nat)
    requires k < |a| && k < |b| && a[..k] == b[..k] && a[k] < b[k]
    ensures LexLess(a, b)
  {
    if k > 0 {
      assert a[0] == a[..k][0];
      assert a[1..][..k - 1] == a[..k][1..];
      assert b[1..][..k - 1] == b[..k][1..];
      LexLessAt(a[1..], b[1..], k - 1);
    }
  }

  predicate StrictlySorted(xs: seq<string>) {
    forall a, b :: 0 <= a < b < |xs| ==> LexLess(xs[a], xs[b])
  }

  lemma TargetPairSorted(a: nat, b: nat)
    requires a < b < |Targets|
    ensures LexLess(Targets[a], Targets[b])
  {
    if a == 0 && b == 1 {
      LexLessAt(Targets[0], Targets[1], 14);
    } else {
      LexLessAt(Targets[a], Targets[b], 0);
    }
  }

  /** The target names are listed in ascending order. */
  lemma TargetsSorted()
    ensures StrictlySorted(Targets)
  {
    forall a, b | 0 <= a < b < |Targets| ensures LexLess(Targets[a], Targets[b]) {
      TargetPairSorted(a, b);
    }
  }

  /** `sorted(missing)` for a set of required names: the names in ascending order. */
  function SortedMissing(missing: set<string>): (r: seq<string>)
    ensures forall x :: x in r <==> x in Targets && x in missing
    ensures StrictlySorted(r)
  {
    var r := Filter(Targets, x => x in missing);
    FilterIsKeptIndices(Targets, x => x in missing);
    TargetsSorted();
    r
  }

  /** A set has only one strictly ascending listing, so `SortedMissing` is what
      Python's `sorted` returns. */
  lemma {:induction false} StrictlySortedUnique(xs: seq<string>, ys: seq<string>)
    requires StrictlySorted(xs) && StrictlySorted(ys)
    requires forall x :: x in xs <==> x in ys
    ensures xs == ys
  {
    if |xs| > 0 { assert xs[0] in ys; }
    if |ys| > 0 { assert ys[0] in xs; }
    if |xs| > 0 && |ys| > 0 {
      var j :| 0 <= j < |xs| && xs[j] == ys[0];
      var k :| 0 <= k < |ys| && ys[k] == xs[0];
      if j > 0 && k > 0 {
        LexLessAsymmetric(xs[0], ys[0]);
      }
      assert xs[0] == ys[0];
      forall x ensures x in xs[1..] <==> x in ys[1..] {
        if x in xs[1..] {
          var a :| 0 <= a < |xs[1..]| && xs[1..][a] == x;
          LexLessAsymmetric(xs[0], xs[a + 1]);
          assert x in xs;
          var b :| 0 <= b < |ys| && ys[b] == x;
          assert b != 0;
          assert ys[1..][b - 1] == x;
        }
        if x in ys[1..] {
          var b :| 0 <= b < |ys[1..]| && ys[1..][b] == x;
          LexLessAsymmetric(ys[0], ys[b + 1]);
          assert x in ys;
          var a :| 0 <= a < |xs| && xs[a] == x;
          assert a != 0;
          assert xs[1..][a - 1] == x;
        }
      }
      StrictlySortedUnique(xs[1..], ys[1..]);
    }
  }

  /** `pandas.to_numeric(..., errors="coerce")` on one cell, with `NaN` as `None`.
      How text is read as a number is the parameter `number`. */
  function ToNumeric(c: Cell, number: string -> Option<real>): (r: Option<real>)
    ensures c.Num? ==> r == Some(c.x)
    ensures c.Blank? ==> r.None?
    ensures r.Some? <==> c.Num? || (c.Text? && number(c.s).Some?)
  {
    match c
    case Num(x) => Some(x)
    case Text(s) => number(s)
    case Blank => None
  }

  /** The row survives `dropna(subset=[east, north])` after the numeric coercion. */
  function KeepRow(e: nat, n: nat, number: string -> Option<real>): seq<Cell> -> bool {
    row => e < |row| && n < |row| && ToNumeric(row[e], number).Some? && ToNumeric(row[n], number).Some?
  }

  /** The output header: every column labelled with the id, every one labelled with the
      name (`df[[...]]` returns all columns carrying a selected label), then latitude and
      longitude. */
  function OutHeader(idCount: nat, nameCount: nat): seq<string> {
    seq(idCount, _ => CountingSiteId) + seq(nameCount, _ => CountingSiteName) + [Latitude, Longitude]
  }

  /** One output row: id and name cells as read, then latitude and longitude of
      `toWgs84(east, north)`, which returns (longitude, latitude). */
  function OutRow(row: seq<Cell>, ids: seq<nat>, names: seq<nat>, e: nat, n: nat,
                  number: string -> Option<real>, toWgs84: (real, real) -> (real, real)): seq<Cell>
    requires KeepRow(e, n, number)(row)
    requires forall k :: 0 <= k < |ids| ==> ids[k] < |row|
    requires forall k :: 0 <= k < |names| ==> names[k] < |row|
  {
    var lonLat := toWgs84(ToNumeric(row[e], number).value, ToNumeric(row[n], number).value);
    Pick(row, ids) + Pick(row, names) + [Num(lonLat.1), Num(lonLat.0)]
  }

  /** The required names that label no column of the standardised header `h`. */
  function Missing(h: seq<string>): (r: set<string>)
    ensures forall x :: x in r <==> x in Targets && x !in h
    ensures r == {} <==> forall k :: 0 <= k < |Targets| ==> Targets[k] in h
  {
    var r := set x | x in Targets && x !in h;
    assert r == {} ==> forall k :: 0 <= k < |Targets| ==> Targets[k] in h by {
      forall k | 0 <= k < |Targets| && Targets[k] !in h
        ensures Targets[k] in r
      {
      }
    }
    r
  }

  /** The rows of the output frame: the kept rows, reprojected, in input order. */
  function OutRows(rows: seq<seq<Cell>>, ids: seq<nat>, names: seq<nat>, e: nat, n: nat,
                   number: string -> Option<real>, toWgs84: (real, real) -> (real, real))
    : (r: seq<seq<Cell>>)
    requires forall row, k :: row in rows && 0 <= k < |ids| ==> ids[k] < |row|
    requires forall row, k :: row in rows && 0 <= k < |names| ==> names[k] < |row|
  {
    var kept := Filter(rows, KeepRow(e, n, number));
    FilterMembers(rows, KeepRow(e, n, number));
    seq(|kept|, k requires 0 <= k < |kept| => assert kept[k] in kept; OutRow(kept[k], ids, names, e, n, number, toWgs84))
  }

  /** The converter's `main`, from the frame `read_csv` returns to the frame it writes. */
  function Convert(t: Table, number: string -> Option<real>, toWgs84: (real, real) -> (real, real))
    : (r: Result<Table, ConvertError>)
    requires WellFormed(t)
    ensures r.Err? && r.error.MissingColumns? <==> Missing(StandardizeColumns(t.header)) != {}
    ensures r.Err? && r.error.MissingColumns? ==>
              && r.error.found == StandardizeColumns(t.header)
              && StrictlySorted(r.error.missing)
              && forall x :: x in r.error.missing <==> x in Missing(StandardizeColumns(t.header))
    ensures r.Err? && r.error.NotASeries? ==>
              r.error.column in {EastCoordinate, NorthCoordinate}
              && |ColumnsNamed(StandardizeColumns(t.header), r.error.column)| > 1
    ensures r.Ok? <==> Missing(StandardizeColumns(t.header)) == {}
                       && |ColumnsNamed(StandardizeColumns(t.header), EastCoordinate)| == 1
                       && |ColumnsNamed(StandardizeColumns(t.header), NorthCoordinate)| == 1
  {
    var h := StandardizeColumns(t.header);
    var missing := Missing(h);
    if missing != {} then Err(MissingColumns(SortedMissing(missing), h))
    else ConvertComplete(t, h, number, toWgs84)
  }

  /** `main` once every required column is present: the numeric coercion of the two
      coordinate columns, the row filter, the reprojection and the selection. */
  function ConvertComplete(t: Table, h: seq<string>, number: string -> Option<real>,
                           toWgs84: (real, real) -> (real, real))
    : (r: Result<Table, ConvertError>)
    requires WellFormed(t) && |h| == |t.header| && Missing(h) == {}
    ensures r.Err? ==> r.error.NotASeries? && r.error.column in {EastCoordinate, NorthCoordinate}
                       && |ColumnsNamed(h, r.error.column)| > 1
    ensures r.Ok? <==> |ColumnsNamed(h, EastCoordinate)| == 1 && |ColumnsNamed(h, NorthCoordinate)| == 1
  {
    assert EastCoordinate !in Missing(h) && NorthCoordinate !in Missing(h);
    var east := ColumnsNamed(h, EastCoordinate);
    var north := ColumnsNamed(h, NorthCoordinate);
    if |east| > 1 then Err(NotASeries(EastCoordinate))
    else if |north| > 1 then Err(NotASeries(NorthCoordinate))
    else
      var ids := ColumnsNamed(h, CountingSiteId);
      var names := ColumnsNamed(h, CountingSiteName);
      Ok(Table(OutHeader(|ids|, |names|), OutRows(t.rows, ids, names, east[0], north[0], number, toWgs84)))
  }

  // ---------------------------------------------------------------------------
  // Properties of the converter

  /** The required-column check, stated on the headers as read: the converter reports
      missing columns exactly when some target name is the normalised form of no header,
      and it reports exactly those target names, in ascending order. */
  lemma ConvertMissingIff(t: Table, number: string -> Option<real>, toWgs84: (real, real) -> (real, real))
    requires WellFormed(t)
    ensures var r := Convert(t, number, toWgs84);
            (r.Err? && r.error.MissingColumns?) <==>
              exists x :: x in Targets && forall i :: 0 <= i < |t.header| ==> Normalize(t.header[i]) != x
    ensures var r := Convert(t, number, toWgs84);
            r.Err? && r.error.MissingColumns? ==>
              && StrictlySorted(r.error.missing)
              && forall x :: x in r.error.missing <==>
                   x in Targets && forall i :: 0 <= i < |t.header| ==> Normalize(t.header[i]) != x
  {
    var h := StandardizeColumns(t.header);
    forall x | x in Targets
      ensures x in Missing(h) <==> forall i :: 0 <= i < |t.header| ==> Normalize(t.header[i]) != x
    {
      TargetPresentIff(t.header, x);
    }
    if exists x :: x in Targets && forall i :: 0 <= i < |t.header| ==> Normalize(t.header[i]) != x {
      var x :| x in Targets && forall i :: 0 <= i < |t.header| ==> Normalize(t.header[i]) != x;
      assert x in Missing(h);
    }
  }

  /** The report lists the missing names as Python's `sorted` does: any ascending listing
      of the same names is this one. */
  lemma MissingReportIsSorted(t: Table, number: string -> Option<real>, toWgs84: (real, real) -> (real, real),
                              listing: seq<string>)
    requires WellFormed(t)
    requires Convert(t, number, toWgs84).Err? && Convert(t, number, toWgs84).error.MissingColumns?
    requires StrictlySorted(listing)
    requires forall x :: x in listing <==> x in Missing(StandardizeColumns(t.header))
    ensures Convert(t, number, toWgs84).error.missing == listing
  {
    StrictlySortedUnique(Convert(t, number, toWgs84).error.missing, listing);
  }

  /** `out` is the converter's output for `rows`: it has one row for each input row whose
      east and north cells are both numeric, in input order (the k-th output row comes
      from the k-th such row), and that row holds the input row's id and name cells
      followed by the latitude and longitude of its reprojected point. */
  predicate ProjectedRows(rows: seq<seq<Cell>>, ids: seq<nat>, names: seq<nat>, e: nat, n: nat,
                          number: string -> Option<real>, toWgs84: (real, real) -> (real, real),
                          out: seq<seq<Cell>>)
  {
    var idx := KeptIndices(rows, KeepRow(e, n, number));
    && (forall i :: 0 <= i < |rows| ==>
          (i in idx <==> e < |rows[i]| && n < |rows[i]|
                         && ToNumeric(rows[i][e], number).Some? && ToNumeric(rows[i][n], number).Some?))
    && |out| == |idx|
    && forall k :: 0 <= k < |idx| ==>
         var row := rows[idx[k]];
         && e < |row| && n < |row|
         && ToNumeric(row[e], number).Some? && ToNumeric(row[n], number).Some?
         && (forall j :: 0 <= j < |ids| ==> ids[j] < |row|)
         && (forall j :: 0 <= j < |names| ==> names[j] < |row|)
         && var lonLat := toWgs84(ToNumeric(row[e], number).value, ToNumeric(row[n], number).value);
            out[k] == Pick(row, ids) + Pick(row, names) + [Num(lonLat.1), Num(lonLat.0)]
  }

  /** The rows of `OutRows` are the converter's output rows for the input rows. */
  lemma OutRowsSpec(rows: seq<seq<Cell>>, ids: seq<nat>, names: seq<nat>, e: nat, n: nat,
                    number: string -> Option<real>, toWgs84: (real, real) -> (real, real))
    requires forall row, k :: row in rows && 0 <= k < |ids| ==> ids[k] < |row|
    requires forall row, k :: row in rows && 0 <= k < |names| ==> names[k] < |row|
    ensures ProjectedRows(rows, ids, names, e, n, number, toWgs84, OutRows(rows, ids, names, e, n, number, toWgs84))
  {
    FilterIsKeptIndices(rows, KeepRow(e, n, number));
    var idx := KeptIndices(rows, KeepRow(e, n, number));
    forall k | 0 <= k < |idx|
      ensures rows[idx[k]] in rows
    {
    }
  }

  /** A successful run reads east and north from the single columns their labels name.
      It writes every id column, every name column, latitude and longitude. Its rows come
      from exactly the input rows whose east and north cells are both numeric, in input
      order; each carries that row's id and name cells and the latitude and longitude of
      its reprojected point. */
  lemma ConvertValue(t: Table, number: string -> Option<real>, toWgs84: (real, real) -> (real, real))
    requires WellFormed(t) && Convert(t, number, toWgs84).Ok?
    ensures var h := StandardizeColumns(t.header);
            |ColumnsNamed(h, EastCoordinate)| == 1 && |ColumnsNamed(h, NorthCoordinate)| == 1
    ensures var h := StandardizeColumns(t.header);
            var ids := ColumnsNamed(h, CountingSiteId);
            var names := ColumnsNamed(h, CountingSiteName);
            var v := Convert(t, number, toWgs84).value;
            && v.header == OutHeader(|ids|, |names|)
            && ProjectedRows(t.rows, ids, names, ColumnsNamed(h, EastCoordinate)[0],
                             ColumnsNamed(h, NorthCoordinate)[0], number, toWgs84, v.rows)
  {
    var h := StandardizeColumns(t.header);
    assert Missing(h) == {};
    assert Convert(t, number, toWgs84) == ConvertComplete(t, h, number, toWgs84);
    ConvertCompleteValue(t, h, number, toWgs84);
    var ids := ColumnsNamed(h, CountingSiteId);
    var names := ColumnsNamed(h, CountingSiteName);
    var e := ColumnsNamed(h, EastCoordinate)[0];
    var n := ColumnsNamed(h, NorthCoordinate)[0];
    OutRowsSpec(t.rows, ids, names, e, n, number, toWgs84);
  }

  lemma ConvertCompleteValue(t: Table, h: seq<string>, number: string -> Option<real>,
                             toWgs84: (real, real) -> (real, real))
    requires WellFormed(t) && |h| == |t.header| && Missing(h) == {}
    requires ConvertComplete(t, h, number, toWgs84).Ok?
    ensures var ids := ColumnsNamed(h, CountingSiteId);
            var names := ColumnsNamed(h, CountingSiteName);
            && |ColumnsNamed(h, EastCoordinate)| == 1
            && |ColumnsNamed(h, NorthCoordinate)| == 1
            && ConvertComplete(t, h, number, toWgs84).value
               == Table(OutHeader(|ids|, |names|),
                        OutRows(t.rows, ids, names, ColumnsNamed(h, EastCoordinate)[0],
                                ColumnsNamed(h, NorthCoordinate)[0], number, toWgs84))
  {
  }

  /** When the id and the name each label one column, the output has exactly the
      columns `counting_site_id, counting_site_name, latitude, longitude`. */
  lemma ConvertFourColumns(t: Table, number: string -> Option<real>, toWgs84: (real, real) -> (real, real))
    requires WellFormed(t) && Convert(t, number, toWgs84).Ok?
    requires |ColumnsNamed(StandardizeColumns(t.header), CountingSiteId)| == 1
    requires |ColumnsNamed(StandardizeColumns(t.header), CountingSiteName)| == 1
    ensures Convert(t, number, toWgs84).value.header == [CountingSiteId, CountingSiteName, Latitude, Longitude]
  {
    ConvertValue(t, number, toWgs84);
    OutHeaderSingle();
  }

  lemma OutHeaderSingle()
    ensures OutHeader(1, 1) == [CountingSiteId, CountingSiteName, Latitude, Longitude]
  {
    assert seq(1, _ => CountingSiteId) == [CountingSiteId];
    assert seq(1, _ => CountingSiteName) == [CountingSiteName];
  }
}
