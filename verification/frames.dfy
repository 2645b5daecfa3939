/** The slice of a pandas data frame the dashboard relies on: labelled columns,
    rows as maps from label to cell, missing values, and the handful of frame
    operations `clean_data` calls (column assignment, `rename`, `fillna`,
    `dropna`, boolean-mask selection). */
module Frames {
  import opened Seqs

  /** A cell. `Null` is pandas' missing value (NaN or None); numbers are kept
      opaque because the dashboard only copies them. */
  datatype Value = Null | Str(text: string) | Num(n: int) | Lst(items: seq<Value>)

  type Row = map<string, Value>

  datatype Table = Table(columns: set<string>, rows: seq<Row>)

  /** Every row has a cell for every column and for nothing else. */
  predicate WellFormed(t: Table)
  {
    forall i :: 0 <= i < |t.rows| ==> t.rows[i].Keys == t.columns
  }

  /** `DataFrame.empty`: true when either axis has length zero. */
  predicate Empty(t: Table)
  {
    |t.rows| == 0 || |t.columns| == 0
  }

  /** `pd.DataFrame()`: no columns, no rows. */
  const EmptyFrame := Table({}, [])

  /** The failure of a frame operation: pandas raises `KeyError` naming the
      labels it could not find. */
  datatype Outcome<T> = Ok(value: T) | KeyError(missing: set<string>)

  /** The cell of `r` under `c`, or the missing value when there is none. */
  function Cell(r: Row, c: string): Value
  {
    if c in r then r[c] else Null
  }

  /** `fillna` on one cell. */
  function FillNa(v: Value, fill: Value): (w: Value)
    ensures w != Null || fill == Null
    ensures v != Null ==> w == v
  {
    if v == Null then fill else v
  }

  /** `df[c] = ...`: sets column `c` of every row to `f` of that row, adding
      the column when it is new and leaving every other cell alone. */
  function Assign(t: Table, c: string, f: Row -> Value): (out: Table)
    requires WellFormed(t)
    ensures WellFormed(out)
    ensures out.columns == t.columns + {c}
    ensures |out.rows| == |t.rows|
    ensures forall i :: 0 <= i < |t.rows| ==> out.rows[i] == t.rows[i][c := f(t.rows[i])]
  {
    Table(t.columns + {c}, seq(|t.rows|, i requires 0 <= i < |t.rows| => t.rows[i][c := f(t.rows[i])]))
  }

  /** The label `rename(columns=names)` gives to column `k`. */
  function Relabel(names: map<string, string>, k: string): string
  {
    if k in names then names[k] else k
  }

  /** Renaming the columns `cols` gives them pairwise distinct labels. */
  ghost predicate RenameInjective(names: map<string, string>, cols: set<string>)
  {
    forall k1, k2 {:trigger Relabel(names, k1), Relabel(names, k2)} ::
      k1 in cols && k2 in cols && k1 != k2 ==> Relabel(names, k1) != Relabel(names, k2)
  }

  /** One row under `rename(columns=names)`: the same cells under new labels. */
  function RenameRow(names: map<string, string>, r: Row): (out: Row)
    requires RenameInjective(names, r.Keys)
    ensures out.Keys == set k | k in r :: Relabel(names, k)
    ensures forall k :: k in r ==> Relabel(names, k) in out && out[Relabel(names, k)] == r[k]
  {
    map k | k in r :: Relabel(names, k) := r[k]
  }

  /** `df.rename(columns=names)` for a renaming that creates no duplicate label. */
  function Rename(t: Table, names: map<string, string>): (out: Table)
    requires WellFormed(t)
    requires RenameInjective(names, t.columns)
    ensures WellFormed(out)
    ensures out.columns == set k | k in t.columns :: Relabel(names, k)
    ensures |out.rows| == |t.rows|
    ensures forall i :: 0 <= i < |t.rows| ==> out.rows[i] == RenameRow(names, t.rows[i])
  {
    Table(set k | k in t.columns :: Relabel(names, k),
          seq(|t.rows|, i requires 0 <= i < |t.rows| => RenameRow(names, t.rows[i])))
  }

  /** None of the cells of `r` under `subset` is missing. */
  predicate NoNa(r: Row, subset: set<string>)
  {
    forall k :: k in subset ==> Cell(r, k) != Null
  }

  /** `NoNa` as a row mask. */
  function NotNaIn(subset: set<string>): Row -> bool
  {
    r => NoNa(r, subset)
  }

  /** `df.dropna(subset=...)`: keeps the rows with no missing cell in `subset`,
      in order; raises `KeyError` when a label of `subset` is not a column. */
  function DropNa(t: Table, subset: set<string>): (out: Outcome<Table>)
    requires WellFormed(t)
    ensures out.KeyError? <==> !(subset <= t.columns)
    ensures out.KeyError? ==> out.missing == subset - t.columns && out.missing != {}
    ensures out.Ok? ==> WellFormed(out.value) && out.value.columns == t.columns
    ensures out.Ok? ==> forall j :: 0 <= j < |out.value.rows| ==> NoNa(out.value.rows[j], subset)
    ensures out.Ok? ==>
      SelectsExactly(t.rows, out.value.rows, KeptIndices(t.rows, NotNaIn(subset)), NotNaIn(subset))
  {
    if subset <= t.columns then
      var kept := Filter(t.rows, NotNaIn(subset));
      FilterSelects(t.rows, NotNaIn(subset));
      assert forall j :: 0 <= j < |kept| ==> kept[j] in t.rows && NotNaIn(subset)(kept[j]);
      Ok(Table(t.columns, kept))
    else
      var k :| k in subset && k !in t.columns;
      assert k in subset - t.columns;
      KeyError(subset - t.columns)
  }

  /** `inv` undoes the renaming `names`. */
  ghost predicate Inverse(names: map<string, string>, inv: map<string, string>)
  {
    && (forall k :: k in names ==> names[k] in inv && inv[names[k]] == k)
    && (forall l :: l in inv ==> inv[l] in names && names[inv[l]] == l)
  }

  /** The cell of `r` that `rename(columns=names)` moves under `name`, with
      `inv` the inverse of `names`: the renamed column's cell when `r` has it,
      else `r`'s own cell under `name`. */
  function RenameSource(inv: map<string, string>, r: Row, name: string): Value
  {
    if name in inv && inv[name] in r then r[inv[name]] else Cell(r, name)
  }

  /** What a label that is not itself renamed holds after renaming. */
  lemma RenamedCell(names: map<string, string>, inv: map<string, string>, r: Row, name: string)
    requires RenameInjective(names, r.Keys)
    requires Inverse(names, inv)
    requires name !in names
    ensures Cell(RenameRow(names, r), name) == RenameSource(inv, r, name)
  {
    var renamed := RenameRow(names, r);
    if name in inv && inv[name] in r {
      assert Relabel(names, inv[name]) == name;
    } else if name in r {
      assert Relabel(names, name) == name;
    }
  }

  /** Setting a cell that is neither `name` nor its renamed source leaves the
      cell moved under `name` alone. */
  lemma RenameSourceUpdate(inv: map<string, string>, r: Row, a: string, v: Value, name: string)
    requires a != name
    requires name in inv ==> inv[name] != a
    ensures RenameSource(inv, r[a := v], name) == RenameSource(inv, r, name)
  {
  }

  /** A label that renaming neither moves nor produces keeps its cell. */
  lemma RenameKeepsCell(names: map<string, string>, r: Row, name: string)
    requires RenameInjective(names, r.Keys)
    requires name !in names
    requires forall k :: k in names ==> names[k] != name
    ensures Cell(RenameRow(names, r), name) == Cell(r, name)
  {
    if name in r {
      assert Relabel(names, name) == name;
    }
  }
}
