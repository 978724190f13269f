# Coordinate converters: header resolution and point parsing

This project models the pure logic inside two coordinate-conversion scripts.

The counting-site converter (`convert_countingsite_lv95_csv_to_wgs84.py`) does four things:

- It normalises header names (`_normalize`).
- It renames the headers that match one of four target names (`_standardize_columns`).
- It refuses a file without the four required columns, and names the missing ones in sorted order.
- It keeps the rows whose east and north values are numeric, reprojects them, and selects four output columns.

The quarter exporter (`export_quarter_coords_to_csv.py`) does three things:

- It parses the `geometry` text of each row with `parse_point_wkt`. That function takes the leftmost match of `POINT\s*\(\s*([0-9.]+)\s+([0-9.]+)\s*\)` and reads both groups with `float`.
- It drops the rows without a point and reprojects the rest.
- It selects the code, name and position columns and gives them new names.

Frames are immutable values:

- A header is a sequence of labels.
- Each row is a sequence of cells: a number, a text, or the missing value.
- Both scripts' `main` become functions from the frame `read_csv` returns to either the frame they write or the exception they raise.

The reprojection is a parameter `toWgs84: (real, real) -> (real, real)` that returns (longitude, latitude). How `pandas.to_numeric` reads a text cell as a number is the parameter `number: string -> Option<real>`.

Modules:

| module | file | contents |
|---|---|---|
| `Wrappers` | `wrappers.dfy` | `Option`, `Result` |
| `Chars` | `chars.dfy` | ASCII whitespace (`str.isspace`, which is also regex `\s`), `lower`, the class `[0-9.]` |
| `Rows` | `rows.dfy` | the order-preserving row filter, the positions it keeps, and `Series.apply` with exceptions |
| `Frames` | `frames.dfy` | cells, tables, and columns by label |
| `HeaderNames` | `header_names.dfy` | `_normalize` |
| `Standardize` | `standardize.dfy` | `_standardize_columns` |
| `SiteConvert` | `site_convert.dfy` | the counting-site converter's `main` |
| `PointWkt` | `point_wkt.dfy` | the pattern as a predicate on positions, a scanner proved to find exactly its matches, `float` on a `[0-9.]` run, and `parse_point_wkt` |
| `QuarterExport` | `quarter_export.dfy` | the quarter exporter's `main` |

## Model

| member | source | states |
|---|---|---|
| HeaderNames.Normalize | materials_for_report_later/map/convert_countingsite_lv95_csv_to_wgs84.py:21-22 | A normalised header contains no space and no upper-case ASCII letter. It neither starts nor ends with whitespace. It is never longer than the input. |
| HeaderNames.NormalizeFixedPoints | materials_for_report_later/map/convert_countingsite_lv95_csv_to_wgs84.py:21-22 | Normalisation leaves a header unchanged if and only if the header already has that normalised shape. |
| HeaderNames.NormalizeIdempotent | materials_for_report_later/map/convert_countingsite_lv95_csv_to_wgs84.py:21-22 | Normalising twice gives the same result as normalising once. |
| HeaderNames.NormalizeIgnoresSurroundingSpace | materials_for_report_later/map/convert_countingsite_lv95_csv_to_wgs84.py:21-22 | Whitespace added before or after a header does not change its normalised form. |
| HeaderNames.StripUnique | materials_for_report_later/map/convert_countingsite_lv95_csv_to_wgs84.py:22 | A trimmed string framed only by whitespace inside `s` is what `strip` returns for `s`. |
| HeaderNames.NormalizeTrimmed | materials_for_report_later/map/convert_countingsite_lv95_csv_to_wgs84.py:21-22 | On an already trimmed header, normalisation keeps the length. It lower-cases each character and turns each space into `_`. |
| HeaderNames.NormalizeWorkbenchHeader | materials_for_report_later/map/convert_countingsite_lv95_csv_to_wgs84.py:21-22 | The Workbench header `Counting Site ID` normalises to `counting_site_id`. |
| Standardize.Dict | materials_for_report_later/map/convert_countingsite_lv95_csv_to_wgs84.py:27 | A dictionary comprehension has exactly the listed keys. Each key maps to the value paired with its last occurrence. |
| Standardize.Index | materials_for_report_later/map/convert_countingsite_lv95_csv_to_wgs84.py:27 | Every header's normalised form is a key. Every value is a header that normalises to its key. A header with no later header of the same normalised form is the value of its key. |
| Standardize.RenameMapFromSpec | materials_for_report_later/map/convert_countingsite_lv95_csv_to_wgs84.py:51-56 | The loop over the targets only adds entries to the rename dictionary. Every new key is an original header found through the normalised-name dictionary. Every entry maps to one of the targets or is an entry that was already there. |
| Standardize.Rename | materials_for_report_later/map/convert_countingsite_lv95_csv_to_wgs84.py:58 | `rename` keeps the number and order of the columns. A label that is a key of the map becomes its value, and any other label stays. Every resulting label is an unrenamed input label or a value of the map. A map with no key among the labels leaves the header unchanged. |
| Standardize.StandardizeColumns | materials_for_report_later/map/convert_countingsite_lv95_csv_to_wgs84.py:25-58 | Standardisation keeps the number and order of the columns. Each label either stays as read or becomes one of the four target names. The exact rule is stated by `StandardizeColumnsSpec`. |
| Standardize.FirstAlias | materials_for_report_later/map/convert_countingsite_lv95_csv_to_wgs84.py:53-56 | The inner loop with `break` finds the alias at the first position that is a key, or none if no alias is a key. |
| Standardize.AliasDuplicatesHaveNoEffect | materials_for_report_later/map/convert_countingsite_lv95_csv_to_wgs84.py:30-56 | For any alias table and any header, standardising gives the same result as with each alias list reduced to its distinct entries. |
| Standardize.AliasesAreSelfAliases | materials_for_report_later/map/convert_countingsite_lv95_csv_to_wgs84.py:30-49 | With duplicates removed, the converter's alias dictionary gives each target itself as its only alias. |
| Standardize.StandardizeColumnsSpec | materials_for_report_later/map/convert_countingsite_lv95_csv_to_wgs84.py:25-58 | A header becomes its normalised form exactly when that form is a target and the normalised-name dictionary kept this header. Every other header keeps its label. The column count is unchanged. |
| Standardize.RenamesToTarget | materials_for_report_later/map/convert_countingsite_lv95_csv_to_wgs84.py:43-58 | A header that normalises to a target, with no later header sharing that form, is renamed to the target. |
| Standardize.KeepsOtherHeaders | materials_for_report_later/map/convert_countingsite_lv95_csv_to_wgs84.py:51-58 | A header whose normalised form is no target keeps its label and its position. |
| Standardize.OnlyRightmostRenamed | materials_for_report_later/map/convert_countingsite_lv95_csv_to_wgs84.py:27-58 | Of two headers with the same normalised form, the earlier one is not renamed. |
| Standardize.TargetPresentIff | materials_for_report_later/map/convert_countingsite_lv95_csv_to_wgs84.py:25-58 | After standardisation a target labels a column if and only if some original header normalises to it. |
| SiteConvert.SortedMissing | materials_for_report_later/map/convert_countingsite_lv95_csv_to_wgs84.py:66-69 | The listing holds exactly the required names in the set, in strictly ascending order by Python string comparison. |
| SiteConvert.StrictlySortedUnique | materials_for_report_later/map/convert_countingsite_lv95_csv_to_wgs84.py:69 | Two strictly ascending listings of the same names are equal, so `sorted` has only one possible result. |
| SiteConvert.LexLessPrefix | materials_for_report_later/map/convert_countingsite_lv95_csv_to_wgs84.py:69 | Under Python's `<` on strings, a proper prefix sorts first. |
| SiteConvert.LexLessAt | materials_for_report_later/map/convert_countingsite_lv95_csv_to_wgs84.py:69 | Under Python's `<` on strings, the first differing character decides. |
| SiteConvert.LexLessAsymmetric | materials_for_report_later/map/convert_countingsite_lv95_csv_to_wgs84.py:69 | No two strings are each smaller than the other under Python's `<`. |
| SiteConvert.Missing | materials_for_report_later/map/convert_countingsite_lv95_csv_to_wgs84.py:65-66 | The missing set holds exactly the required names that label no column. It is empty if and only if every required name labels a column. |
| SiteConvert.ToNumeric | materials_for_report_later/map/convert_countingsite_lv95_csv_to_wgs84.py:73-74 | `to_numeric` with coercion keeps a number and turns a missing value into `NaN`. A cell has a value if and only if it is a number or a text that reads as one. |
| SiteConvert.Convert | materials_for_report_later/map/convert_countingsite_lv95_csv_to_wgs84.py:61-85 | Error cases: the missing-columns error comes exactly when some required name labels no standardised column, and it carries the sorted missing names and the standardised header. The `to_numeric` error comes only for a coordinate label that names two or more columns. Success comes exactly when nothing is missing and each coordinate label names one column. |
| SiteConvert.ConvertComplete | materials_for_report_later/map/convert_countingsite_lv95_csv_to_wgs84.py:73-85 | Once all required columns exist, the run fails only on a duplicated coordinate label. Otherwise it succeeds. |
| SiteConvert.ConvertMissingIff | materials_for_report_later/map/convert_countingsite_lv95_csv_to_wgs84.py:65-71 | Stated on the headers as read: the run reports missing columns exactly when some target is the normalised form of no header. The report lists exactly those targets, in ascending order. |
| SiteConvert.MissingReportIsSorted | materials_for_report_later/map/convert_countingsite_lv95_csv_to_wgs84.py:66-71 | Any strictly ascending listing of the missing names equals the reported one. |
| SiteConvert.OutRowsSpec | materials_for_report_later/map/convert_countingsite_lv95_csv_to_wgs84.py:73-85 | The output holds exactly the rows whose east and north cells are both numeric, in input order. Each output row holds its id and name cells, then the latitude and longitude of the reprojected point. |
| SiteConvert.ConvertValue | materials_for_report_later/map/convert_countingsite_lv95_csv_to_wgs84.py:73-85 | A successful run has one east and one north column. It writes every id column, every name column, latitude and longitude. Output row k comes from the k-th input row whose east and north cells are both numeric, in input order. A row is kept if and only if both cells are numeric. Each output row holds that row's id and name cells, then the latitude and longitude of its reprojected east and north values. |
| SiteConvert.ConvertFourColumns | materials_for_report_later/map/convert_countingsite_lv95_csv_to_wgs84.py:85 | When the id and the name each label one column, the output columns are `counting_site_id, counting_site_name, latitude, longitude`. |
| Frames.ColumnsNamed | materials_for_report_later/map/convert_countingsite_lv95_csv_to_wgs84.py:85 | The positions of the columns carrying a label, left to right. Each listed position carries the label, no column with the label is left out, and the list is empty if and only if the label is absent. `df[[...]]` selects all of them. |
| Rows.Filter | materials_for_report_later/map/convert_countingsite_lv95_csv_to_wgs84.py:75 | `dropna` keeps only rows the predicate accepts and never adds rows. |
| Rows.FilterMembers | materials_for_report_later/map/convert_countingsite_lv95_csv_to_wgs84.py:75 | A row is in the filtered frame exactly when it is in the input and accepted. |
| Rows.KeptIndices | materials_for_report_later/map/export_quarter_coords_to_csv.py:31 | The accepted positions in increasing order: each is accepted, and none that is accepted is missing. |
| Rows.FilterIsKeptIndices | materials_for_report_later/map/convert_countingsite_lv95_csv_to_wgs84.py:75 | The k-th row kept by the filter is the input row at the k-th accepted position, so row order is preserved. |
| Rows.ApplyAll | materials_for_report_later/map/export_quarter_coords_to_csv.py:28 | `Series.apply` succeeds exactly when every element succeeds, and then returns one result per element in order. Otherwise it raises the exception of the first element that fails. |
| PointWkt.ScanAt | materials_for_report_later/map/export_quarter_coords_to_csv.py:18 | What the scanner returns at a position is a match of the pattern that starts there. |
| PointWkt.ScanComplete | materials_for_report_later/map/export_quarter_coords_to_csv.py:18 | Every match of the pattern at a position is the one the scanner returns there. |
| PointWkt.MatchUnique | materials_for_report_later/map/export_quarter_coords_to_csv.py:18 | At a given position the pattern matches in at most one way. |
| PointWkt.SearchFrom | materials_for_report_later/map/export_quarter_coords_to_csv.py:18 | The search from `i` returns a match that starts at `i` or later, with no match starting before it. If it returns none, no match starts at `i` or later. |
| PointWkt.Search | materials_for_report_later/map/export_quarter_coords_to_csv.py:18 | `re.search` returns the match whose start is leftmost. It returns none exactly when the pattern matches nowhere. |
| PointWkt.SearchIsLeftmost | materials_for_report_later/map/export_quarter_coords_to_csv.py:18 | A match with no match starting before it is the one `re.search` returns. |
| PointWkt.DecimalValue | materials_for_report_later/map/export_quarter_coords_to_csv.py:21 | `float` on a `[0-9.]` run has a value exactly when the run has at least one digit and at most one dot. |
| PointWkt.DecimalValueOfNumeral | materials_for_report_later/map/export_quarter_coords_to_csv.py:21 | A numeral `w.f` reads as `w + f / 10^len(f)`. |
| PointWkt.DecimalValueOfDigits | materials_for_report_later/map/export_quarter_coords_to_csv.py:21 | A run of digits without a dot reads as its integer value. |
| PointWkt.NatDigitsRoundTrip | materials_for_report_later/map/export_quarter_coords_to_csv.py:21 | Writing a whole number in decimal and reading the digits back gives the number. |
| PointWkt.ParsePoint | materials_for_report_later/map/export_quarter_coords_to_csv.py:16-21 | `parse_point_wkt` returns both coordinates or neither. |
| PointWkt.ReadGroups | materials_for_report_later/map/export_quarter_coords_to_csv.py:21 | Both groups are read when both are numerals, and the result is their decimal values, the first group first. Otherwise the `ValueError` names the first group if that one is not a numeral, else the second. |
| PointWkt.ParsePointNoneIff | materials_for_report_later/map/export_quarter_coords_to_csv.py:18-20 | `(None, None)` comes back exactly when the pattern matches nowhere in the text. |
| PointWkt.ParseErrorIsFirstBadGroup | materials_for_report_later/map/export_quarter_coords_to_csv.py:18-21 | An error comes from the leftmost match: its first group when that is not a numeral, otherwise its second group. |
| PointWkt.ParsePointValue | materials_for_report_later/map/export_quarter_coords_to_csv.py:18-21 | When both groups of the leftmost match are numerals, `parse_point_wkt` returns their decimal values, the first group as east. |
| PointWkt.ParsePointOfTokens | materials_for_report_later/map/export_quarter_coords_to_csv.py:16-21 | `POINT (E N)` with `[0-9.]` runs gives the decimal values of both when both are numerals. Otherwise it raises for the first run that is not a numeral. |
| PointWkt.ParsePointExample | materials_for_report_later/map/export_quarter_coords_to_csv.py:17-21 | `POINT (2683000.0 1247000.0)` parses to exactly (2683000.0, 1247000.0). |
| PointWkt.ParsePointWithoutKeyword | materials_for_report_later/map/export_quarter_coords_to_csv.py:18-20 | A text that never contains `POINT` parses to `(None, None)`. |
| PointWkt.ParsePointRejectsSignOrExponent | materials_for_report_later/map/export_quarter_coords_to_csv.py:18-20 | In `POINT (E N)` where neither coordinate contains `P`: if the first coordinate runs into a character that is neither in `[0-9.]` nor whitespace, there is no match and the result is `(None, None)`. Such a character is the `-` or `+` of a sign or the `e` of an exponent. Without the `P` condition a later match would be taken instead: `POINT (-1 2) POINT (3 4)` gives (3, 4). |
| PointWkt.ParsePointRejectsSignOrExponentInNorth | materials_for_report_later/map/export_quarter_coords_to_csv.py:18-20 | The same for the second coordinate, with `E` a non-empty `[0-9.]` run and no `P` after it: if `N` runs into a character that is neither in `[0-9.]`, whitespace nor `)`, as in `POINT (1 -2)` or `POINT (1 2e5)`, the result is `(None, None)`. |
| PointWkt.ParsePointRejectsThirdCoordinate | materials_for_report_later/map/export_quarter_coords_to_csv.py:18-20 | `POINT (A B C)` does not match and parses to `(None, None)`. |
| PointWkt.ParsePointRejectsTwoDots | materials_for_report_later/map/export_quarter_coords_to_csv.py:18-21 | `POINT (1.2.3 5)` raises the `ValueError` for `1.2.3` instead of returning `(None, None)`. |
| PointWkt.ParsePointRejectsLoneDot | materials_for_report_later/map/export_quarter_coords_to_csv.py:18-21 | `POINT (. 5)` raises the `ValueError` for `.`. |
| PointWkt.SearchIgnoresTrailingText | materials_for_report_later/map/export_quarter_coords_to_csv.py:18 | Text appended after a text that has a match does not change the match `re.search` finds. |
| PointWkt.ParsePointIgnoresTrailingText | materials_for_report_later/map/export_quarter_coords_to_csv.py:18-21 | Text after the leftmost match does not change the result. |
| PointWkt.SearchIgnoresLeadingText | materials_for_report_later/map/export_quarter_coords_to_csv.py:18 | A prefix in which no match starts only shifts the match `re.search` finds. |
| PointWkt.ParsePointIgnoresLeadingText | materials_for_report_later/map/export_quarter_coords_to_csv.py:18-21 | Text before the leftmost match does not change the result, as long as no match starts in it. |
| QuarterExport.ParseCell | materials_for_report_later/map/export_quarter_coords_to_csv.py:16-21 | A geometry cell yields both coordinates or neither. A cell that is not text yields `(None, None)`. |
| QuarterExport.Export | materials_for_report_later/map/export_quarter_coords_to_csv.py:24-40 | The `geometry` error comes exactly when that column is absent. The `ValueError` comes exactly when some geometry cell raises, and it is the first such cell's error. The selection error comes exactly when `kuerzel` or `name` is absent, and it lists the absent ones in selection order. On success the header is `quarter_code, quarter_name, latitude, longitude` and every row has four cells. |
| QuarterExport.Project | materials_for_report_later/map/export_quarter_coords_to_csv.py:38-40 | The selection fails exactly when `kuerzel` or `name` is absent, and then names the absent ones in selection order. Otherwise the result has the header `quarter_code, quarter_name, latitude, longitude` and distinct labels. |
| QuarterExport.MissingSelected | materials_for_report_later/map/export_quarter_coords_to_csv.py:35-39 | Latitude and longitude always exist at the selection, so only `kuerzel` and `name` can be reported missing, in that order. |
| QuarterExport.QuarterRowsSpec | materials_for_report_later/map/export_quarter_coords_to_csv.py:28-36 | The output holds exactly the rows with an east value, in input order. Each kept row also has a north value. Each output row holds the code and name cells and the reprojected latitude and longitude. |
| QuarterExport.ExportValue | materials_for_report_later/map/export_quarter_coords_to_csv.py:28-40 | Once every geometry parses and the `kuerzel` and `name` columns exist, the export succeeds with header `quarter_code, quarter_name, latitude, longitude`. Output row k comes from the k-th input row whose geometry holds a point, in input order. A row is kept if and only if its geometry holds a point. Each output row holds that row's code and name cells, then the latitude and longitude of its reprojected point. |
| QuarterExport.ParseCellOfPointText | materials_for_report_later/map/export_quarter_coords_to_csv.py:18-21 | A geometry text `POINT (E N)` with two numerals yields their decimal values. |

## Left out

- The reprojection with `pyproj` is a parameter, because it is floating-point geodesy in a foreign library. The same goes for how `pandas.to_numeric` reads a text cell as a number.
- CSV reading and writing, the hard-coded paths and every `print` are left out. The models start from the frame `read_csv` returns, with distinct header labels (`read_csv` renames repeats), and end with the frame written or the exception raised.
- Python float rounding is left out. `float` on a matched group is modelled as the exact decimal value, as a `real`.
- Unicode is left out. `strip`, `lower` and regex `\s` are modelled on ASCII: the whitespace set is space and code points 9-13 and 28-31, and the letters are A-Z.
- The message text of the missing-columns error is left out. The error carries the sorted missing names and the standardised header it shows.
- QuarterExport.ParseCell: a numeric `geometry` cell is modelled as giving `(None, None)` rather than as `str` of the number being searched. Such text cannot contain `POINT`, but the decimal writing of floats is not modelled.
- A `geometry` column whose label also appears elsewhere is not modelled, because header labels are distinct. The same goes for the `east_coordinate`, `north_coordinate`, `latitude` and `longitude` columns the exporter adds over existing ones: only the four selected columns reach the output, and `latitude` and `longitude` are always freshly written.
- `extract_pdf.py` and `prepare_geojson.py` are not part of this model. They are file I/O around PyPDF2 and `json`.

Behaviour of the code worth noting:

- A geometry whose match holds a token `float` rejects, such as `1.2.3` or `.`, does not drop the row. It raises `ValueError` and stops the exporter (`ParsePointRejectsTwoDots`, `Export`).
- Header matching in the counting-site converter ignores case and surrounding whitespace. It also equates a space with `_`. Other whitespace inside a header is kept, so `Counting\tSite ID` matches no target.
- The exporter's `geometry`, `kuerzel` and `name` columns are looked up by exact label, not through an alias table.
