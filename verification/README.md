# RATP toilets dashboard — a Dafny model of its data logic

The dashboard (`app.py`) fetches the RATP open-data list of toilets in the
metro and RER network and prepares it for display. It then lets the user
restrict the list to some lines and shows how many toilets are free. This
project models the part of it that is logic rather than presentation:

- `clean_data`: it splits the `coord_geo` pair into `lat`/`lon`, drops the
  records without coordinates, gives five API fields their display names,
  defaults `Tarif` to `Inconnu`, turns `Ligne` into text (`Inconnue` when
  there is no line column) and sets the marker colour `#FF0000`;
- the sidebar line filter, as a pure function of the frame and the set of
  selected lines;
- the two home-page metrics: stations shown, and free toilets among them;
- what `load_data_from_api` makes of the service's reply, with the reply
  itself an input.

A pandas frame is a `Table`: a set of column labels and a sequence of rows,
where every row maps every column label to a cell (`Frames.WellFormed`). A
cell is missing (`Null`), a string, an integer or a list. The pandas
operations the program calls are defined explicitly in module `Frames`:
- column assignment;
- `rename` as a substitution of labels;
- `fillna`;
- `dropna`, which raises `KeyError` for an unknown label;
- boolean-mask selection, the order-preserving `Seqs.Filter`.

`DataFrame.empty` is true when either axis has length zero. A frame with
rows but no columns is therefore "empty", and `clean_data` returns it
unchanged.

Modules, in dependency order:
- `Seqs`: order-preserving selection and its characterisation.
- `Frames`: cells, rows, frames and the pandas operations.
- `Text`: `str()` of a cell.
- `Cleaning`: `clean_data`.
- `Loading`: the fetch.
- `Dashboard`: the line filter and the home page.

`Cleaning.Clean` is the frame-level definition, built from the pandas
operations in the order `clean_data` applies them. `Cleaning.CleanRecord`
says what the same steps do to one record: its contract states the
coordinate, rename, tariff, line and colour guarantees. The contract of
`Cleaning.Clean` links the two: the cleaned frame is `CleanRecord` of
exactly the surviving records, in their original order.

## Model

| member | source | states |
|---|---|---|
| Seqs.FilterSelects | app.py:98 | a boolean-mask selection holds exactly the rows whose mask entry is true, at ascending original positions |
| Seqs.FilterDropsFailing | app.py:98 | a selection returns the whole sequence exactly when every element passes the mask, and is otherwise strictly shorter |
| Frames.DropNa | app.py:53 | `dropna(subset)` raises `KeyError` naming the missing labels exactly when a label of the subset is not a column; otherwise it keeps the columns and exactly the rows with a value under every subset label, in their original order |
| Frames.RenameRow | app.py:64 | renaming a record gives the image set of labels, and each cell moves unchanged to its new label |
| Frames.RenamedCell | app.py:64 | after renaming, a label that is not itself renamed holds the cell of the field renamed to it, or else its own former cell |
| Text.ToText | app.py:73 | `str()` of a cell: a string is itself, a missing value is `nan`, an integer is a canonical decimal numeral (optional `-`, no leading zero) that reads back as that integer, a list is its `repr`, which is bracketed |
| Text.IntTextRoundTrip | app.py:73 | reading back the decimal text of an integer gives the integer |
| Text.NumeralRoundTrip | app.py:73 | every canonical decimal numeral is the text of the integer it denotes, so the text of an integer is unique |
| Cleaning.WithCoordinates | app.py:40-48 | the `lat`/`lon` columns are added only when `coord_geo` is a column, and each record is changed only in those two cells |
| Cleaning.Locate | app.py:40-53 | with a `coord_geo` column, `lat`/`lon` are elements 0 and 1 of a two-element list and missing for any other value, and no other cell changes; the record then has both coordinates exactly when its `coord_geo` is a pair of present values (or, with no `coord_geo` column, its own `lat` and `lon` are present) |
| Cleaning.DropWithoutGps | app.py:52-53 | the drop keeps the columns and exactly the rows with both `lat` and `lon` present, in their original order |
| Cleaning.StandardTarif | app.py:67-70 | every record gets a `Tarif` cell: its filled tariff when the column exists, `Inconnu` otherwise |
| Cleaning.StandardLigne | app.py:72-75 | every record gets a `Ligne` cell: the text of its line when the column exists, `Inconnue` otherwise |
| Cleaning.Finish | app.py:55-78 | after the drop, the columns are the display names of the old columns plus `Tarif`, `Ligne` and `color`; no row is added or lost |
| Cleaning.Clean | app.py:32-80 | an empty frame is returned unchanged; otherwise the columns are the display names of the old columns plus `lat`/`lon` (when `coord_geo` exists), `Tarif`, `Ligne` and `color`, and the rows are `CleanRecord` of exactly the surviving records, at ascending original positions, so every row has both coordinates, a tariff, a text line and the red marker |
| Cleaning.CleanAsWritten | app.py:32-80 | as written, cleaning raises `KeyError` for `lat`/`lon` exactly when a non-empty frame has no `coord_geo` and lacks its own `lat` or `lon`; whenever it returns, it returns `Clean` |
| Cleaning.MissingCoordinatesRaises | app.py:40-53 | the input `[{"ligne": "4"}]` raises as written and yields a frame with no rows once corrected |
| Cleaning.FinishIsRecordwise | app.py:57-78 | the rename and standardisation steps act on every record on its own |
| Cleaning.CleanRecord | app.py:47-78 | one record: labels are the display names plus `Tarif`, `Ligne`, `color`; every other cell reappears unchanged under its display name; a surviving record keeps the elements of its `coord_geo` pair (or its own `lat`/`lon`) as coordinates; a present tariff is kept and a missing one becomes `Inconnu`; `Ligne` is `str` of the source line, or `Inconnue` without a line column; `color` is `#FF0000` |
| Cleaning.OneStationRecord | app.py:47-78 | the record with `coord_geo` [4885, 235], line `"1"` and tariff `"Payant"` cleans to those coordinates, line and tariff, and the red marker |
| Cleaning.OneStationCleaned | app.py:32-80 | a one-row frame of that record cleans to exactly one row holding those values |
| Loading.KeysOf | app.py:24 | the columns built from a list of records are exactly the labels that some record carries |
| Loading.FromRecords | app.py:24 | one row per record, in order; each record's own cells are kept and the labels it lacks are missing, so a record carrying every column comes back unchanged |
| Loading.FromUniformRecords | app.py:24 | records that share one schema come back unchanged as the rows, with that schema as the columns |
| Loading.FieldsOf | app.py:23 | the `fields` of every record, in order, or `KeyError` exactly when some record has no `fields` |
| Loading.Load | app.py:11-30 | status 200 with a well-formed body gives the frame of the records' fields and no alert; a status other than 200 gives the connection alert; any failure gives an empty frame |
| Dashboard.FilterByLines | app.py:94-102 | an empty frame, a frame without `Ligne`, or an empty selection shows the whole frame; otherwise exactly the rows whose `Ligne` is selected, in order; the whole frame is shown exactly when the filter is bypassed or every line of the frame is selected, as with the default selection |
| Dashboard.DistinctLines | app.py:95 | the options offered are exactly the lines that occur in the frame |
| Dashboard.FilterByLinesIdempotent | app.py:97-98 | filtering the filtered view by the same selection changes nothing |
| Seqs.FilterCount | app.py:116 | the length of a boolean-mask selection is the number of positions whose mask entry is true |
| Dashboard.FreeCount | app.py:116 | the free count is the number of row positions whose `Tarif` is `Gratuit`; it never exceeds the row count and equals it exactly when every row is free |
| Dashboard.CountFree | app.py:116 | a single pass that counts the rows whose `Tarif` is `Gratuit` gives the same number as the selection, and never more than the rows |
| Dashboard.HomeView | app.py:111-117 | no metrics exactly when the frame is empty; `KeyError` exactly when a non-empty frame has no `Tarif`; otherwise the filtered row count, and a free count that exceeds neither it nor the free count of the whole frame |
| Dashboard.CleanedHomeView | app.py:84-85 | on the frame `clean_data` returns, the home page never raises `KeyError` |
| Dashboard.TwoFreeOnePaying | app.py:114-116 | two `Gratuit` rows and one `Payant` row give 3 stations and 2 free toilets |
| Dashboard.ServerErrorShowsNoData | app.py:25-27 | a status-500 reply yields an empty frame with the connection alert, and the home page shows no metrics |

## Left out

- Caching (`st.cache_data`), the URL and the HTTP request itself are left out. The reply is an input of `Loading.Load`.
- The alert texts and `st.error` are left out. Only the kind of alert is modelled.
- All Streamlit and Plotly rendering is left out: page configuration, spinner, navigation, widgets, metric widgets, pie and bar charts, map, data table. These are presentation.
- The statistics, map and data pages (app.py:125-151) are left out. They only render the filtered frame.
- The order of the multiselect options (`sorted`, app.py:95) is left out. The selection is a set, and order does not change which rows are shown.
- Coordinates are opaque integers rather than floating-point numbers. The program only copies them and never computes with them.
- pandas dtype coercions are left out. Examples: an integer column with a gap becomes float, and `astype(str)` prints `None` in an object column but `nan` in a float one. `Text.ToText` prints a missing value as `nan` and an integer as its numeral.
- Text.Repr: always puts text in single quotes. Python switches to double quotes for text that contains a single quote, and escapes special characters.
- Column order and the row index are left out. A frame's columns are a set, so the order `st.dataframe` shows them in is not modelled, and the rows are a sequence, so the gaps `dropna` leaves in the pandas index are not modelled. Both affect only presentation.
- The `try`/`except: pass` around the coordinate step (app.py:44-50) is left out. Neither lambda can raise on any cell.
- Loading.Load: does not model a `records` value that is not a list, or a `fields` value that is not an object. `pd.DataFrame` of such values need not raise (strings, numbers or missing values give a single column labelled `0`, lists give columns labelled by position), and the model does not say what frame results.
- Cleaning.Clean: requires that no column already carries the display name of another column that gets renamed to it (`NoLabelClash`), because pandas would then produce two columns with one label, which a row as a map cannot hold.
- Cleaning.CleanAsWritten: has the same `NoLabelClash` requirement as `Cleaning.Clean`, for the same reason.
- Cleaning.Clean: models the drop step as corrected under Findings. `Cleaning.CleanAsWritten` models it as written.

## Findings

| source | as written | input that shows it | evidently intended | confidence | as-written member | corrected member |
|---|---|---|---|---|---|---|
| app.py:53 | `dropna(subset=['lat', 'lon'])` runs even when the coordinate step created no `lat`/`lon` columns, so pandas raises `KeyError` | a raw frame `[{"ligne": "4"}]` (no `coord_geo`, no `lat`/`lon`) | records without coordinates are dropped, as the comment `# Suppression des sans-GPS` at app.py:52 says, which leaves a frame with no rows | not executed | Cleaning.CleanAsWritten, Cleaning.MissingCoordinatesRaises | Cleaning.Clean |

The rest of the model, including the home page and the record-level contracts, uses the corrected `Cleaning.Clean`.
