/** The tables both converters read with `pandas.read_csv` and write with `to_csv`:
    a header of column labels and rows of cells. */
module Frames {
  import opened Rows

  /** One value of a data frame as `read_csv` produces it: a number, a text, or a
      missing value (`NaN`, what an empty CSV field becomes). */
  datatype Cell = Num(x: real) | Text(s: string) | Blank

  datatype Table = Table(header: seq<string>, rows: seq<seq<Cell>>)

  /** The two columns both converters add for the reprojected position. */
  const Latitude := "latitude"
  const Longitude := "longitude"

  /** `read_csv` renames repeated header labels (`a`, `a.1`), so the labels of a
      frame it returns are pairwise distinct. */
  predicate Distinct<T(==)>(s: seq<T>) {
    forall a, b :: 0 <= a < b < |s| ==> s[a] != s[b]
  }

  /** Every row has one cell per column, and no name repeats. */
  predicate WellFormed(t: Table) {
    && Distinct(t.header)
    && forall r :: r in t.rows ==> |r| == |t.header|
  }

  /** The positions of the columns labelled `name`, left to right. */
  function ColumnsNamed(header: seq<string>, name: string): (r: seq<nat>)
    ensures forall k :: 0 <= k < |r| ==> r[k] < |header| && header[r[k]] == name
    ensures forall i :: 0 <= i < |header| && header[i] == name ==> i in r
    ensures StrictlyIncreasing(r)
    ensures name in header <==> |r| > 0
  {
    var r := KeptIndices(header, l => l == name);
    assert name in header ==> |r| > 0 by {
      if name in header {
        var i :| 0 <= i < |header| && header[i] == name;
        assert i in r;
      }
    }
    assert |r| > 0 ==> header[r[0]] == name;
    r
  }

  /** The cells of `row` at the positions `cols`, in that order. */
  function Pick(row: seq<Cell>, cols: seq<nat>): (r: seq<Cell>)
    requires forall k :: 0 <= k < |cols| ==> cols[k] < |row|
    ensures |r| == |cols| && forall k :: 0 <= k < |cols| ==> r[k] == row[cols[k]]
  {
    seq(|cols|, k requires 0 <= k < |cols| => row[cols[k]])
  }
}
