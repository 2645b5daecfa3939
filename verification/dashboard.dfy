/** The sidebar line filter and the home-page metrics of the dashboard
    (app.py:94-117). The multiselect widget is not modelled: the set of lines
    the user left selected is an input. */
module Dashboard {
  import opened Seqs
  import opened Frames
  import opened Cleaning
  import opened Loading

  const Free := "Gratuit"

  /** The filter is bypassed: the frame is empty, has no `Ligne` column, or the
      user deselected every line. */
  predicate Bypassed(t: Table, sel: set<Value>)
  {
    Empty(t) || LigneLabel !in t.columns || sel == {}
  }

  /** `df['Ligne'].isin(sel)` on one row. */
  function OnLines(sel: set<Value>): Row -> bool
  {
    r => Cell(r, LigneLabel) in sel
  }

  /** The rows shown once the user has picked the lines `sel`: the rows whose
      `Ligne` is selected, in their original order, unless the filter is
      bypassed, in which case the whole frame. The whole frame is shown
      exactly when the filter is bypassed or every line of the frame is
      selected, as it is by the widget's default of all distinct lines. */
  function FilterByLines(t: Table, sel: set<Value>): (out: Table)
    requires WellFormed(t)
    ensures WellFormed(out) && out.columns == t.columns
    ensures Bypassed(t, sel) ==> out == t
    ensures !Bypassed(t, sel) ==>
      var idx := KeptIndices(t.rows, OnLines(sel));
      && |out.rows| == |idx|
      && Ascending(idx)
      && (forall j :: 0 <= j < |idx| ==> 0 <= idx[j] < |t.rows| && out.rows[j] == t.rows[idx[j]])
      && (forall i :: 0 <= i < |t.rows| ==> (i in idx <==> t.rows[i][LigneLabel] in sel))
    ensures out == t <==> Bypassed(t, sel) || DistinctLines(t) <= sel
  {
    if Bypassed(t, sel) then t
    else
      SelectingByLines(t, sel);
      SelectingAllLines(t, sel);
      Table(t.columns, Filter(t.rows, OnLines(sel)))
  }

  /** The rows selected by lines are the rows at the positions whose `Ligne`
      is selected, and they have the frame's columns. */
  lemma SelectingByLines(t: Table, sel: set<Value>)
    requires WellFormed(t)
    requires LigneLabel in t.columns
    ensures var kept, idx := Filter(t.rows, OnLines(sel)), KeptIndices(t.rows, OnLines(sel));
      && |kept| == |idx|
      && Ascending(idx)
      && (forall j :: 0 <= j < |idx| ==> 0 <= idx[j] < |t.rows| && kept[j] == t.rows[idx[j]])
      && (forall i :: 0 <= i < |t.rows| ==> (i in idx <==> t.rows[i][LigneLabel] in sel))
      && (forall j :: 0 <= j < |kept| ==> kept[j].Keys == t.columns)
  {
    var kept := Filter(t.rows, OnLines(sel));
    FilterSelects(t.rows, OnLines(sel));
    assert forall j :: 0 <= j < |kept| ==> kept[j] in t.rows;
  }

  /** The options the multiselect offers, `df['Ligne'].unique()`, as a set. */
  function DistinctLines(t: Table): (lines: set<Value>)
    ensures forall i :: 0 <= i < |t.rows| ==> Cell(t.rows[i], LigneLabel) in lines
    ensures forall v :: v in lines ==> exists i :: 0 <= i < |t.rows| && Cell(t.rows[i], LigneLabel) == v
  {
    set i | 0 <= i < |t.rows| :: Cell(t.rows[i], LigneLabel)
  }

  /** Selecting by lines keeps every row exactly when every line of the frame
      is selected. */
  lemma SelectingAllLines(t: Table, sel: set<Value>)
    ensures Filter(t.rows, OnLines(sel)) == t.rows <==> DistinctLines(t) <= sel
  {
    FilterDropsFailing(t.rows, OnLines(sel));
    if DistinctLines(t) <= sel {
      assert forall i :: 0 <= i < |t.rows| ==> OnLines(sel)(t.rows[i]);
    } else {
      var v :| v in DistinctLines(t) && v !in sel;
      var i :| 0 <= i < |t.rows| && Cell(t.rows[i], LigneLabel) == v;
      assert !OnLines(sel)(t.rows[i]);
    }
  }

  /** Applying the same selection to the filtered view changes nothing more. */
  lemma FilterByLinesIdempotent(t: Table, sel: set<Value>)
    requires WellFormed(t)
    ensures FilterByLines(FilterByLines(t, sel), sel) == FilterByLines(t, sel)
  {
    if !Bypassed(t, sel) {
      var once := FilterByLines(t, sel);
      FilterIdempotent(t.rows, OnLines(sel));
      if !Bypassed(once, sel) {
        assert FilterByLines(once, sel).rows == Filter(once.rows, OnLines(sel));
      }
    }
  }

  /** `df_filtre['Tarif'] == 'Gratuit'` on one row. */
  predicate IsFree(r: Row)
  {
    Cell(r, TarifLabel) == Str(Free)
  }

  /** `len(df[df['Tarif'] == 'Gratuit'])`: the number of rows selected by the
      mask, which is the number of positions whose tariff is `Gratuit`; it
      equals the row count exactly when every row is free. */
  function FreeCount(t: Table): (n: nat)
    ensures n == |set i | 0 <= i < |t.rows| && IsFree(t.rows[i])|
    ensures n <= |t.rows|
    ensures n == |t.rows| <==> forall i :: 0 <= i < |t.rows| ==> IsFree(t.rows[i])
  {
    FilterCount(t.rows, IsFree);
    FilterDropsFailing(t.rows, IsFree);
    assert Positions(t.rows, IsFree) == set i | 0 <= i < |t.rows| && IsFree(t.rows[i]);
    |Filter(t.rows, IsFree)|
  }

  /** The free count computed by one pass over the rows. */
  method CountFree(t: Table) returns (n: nat)
    ensures n == FreeCount(t)
    ensures n <= |t.rows|
  {
    n := 0;
    var i := 0;
    while i < |t.rows|
      invariant 0 <= i <= |t.rows|
      invariant n == |Filter(t.rows[..i], IsFree)|
    {
      assert t.rows[..i + 1][..i] == t.rows[..i];
      if IsFree(t.rows[i]) {
        n := n + 1;
      }
      i := i + 1;
    }
    assert t.rows[..i] == t.rows;
  }

  /** What the home page shows: nothing when the cleaned frame is empty,
      otherwise the number of stations in the filtered view and how many of
      them are free. */
  datatype Home = NoData | Metrics(stations: nat, free: nat)

  /** The home page (app.py:111-117). Selecting `Tarif` from a frame without
      that column raises `KeyError`. */
  function HomeView(df: Table, sel: set<Value>): (out: Outcome<Home>)
    requires WellFormed(df)
    ensures out == Ok(NoData) <==> Empty(df)
    ensures out.KeyError? <==> !Empty(df) && TarifLabel !in df.columns
    ensures out.Ok? && out.value.Metrics? ==>
      && out.value.stations == |FilterByLines(df, sel).rows|
      && out.value.free == FreeCount(FilterByLines(df, sel))
      && out.value.free <= out.value.stations
      && out.value.free <= FreeCount(df)
  {
    if Empty(df) then Ok(NoData)
    else if TarifLabel !in df.columns then KeyError({TarifLabel})
    else
      var shown := FilterByLines(df, sel);
      FilterCommutes(df.rows, OnLines(sel), IsFree);
      Ok(Metrics(|shown.rows|, FreeCount(shown)))
  }

  /** On a cleaned frame the home page never raises. */
  lemma CleanedHomeView(t: Table, sel: set<Value>)
    requires WellFormed(t)
    requires Empty(t) || NoLabelClash(t.columns)
    ensures HomeView(Clean(t), sel).Ok?
  {
  }

  /** Two free toilets and one paying one give a free count of 2. */
  lemma TwoFreeOnePaying()
    ensures var t := Table({TarifLabel, LigneLabel},
                           [map[TarifLabel := Str(Free), LigneLabel := Str("1")],
                            map[TarifLabel := Str("Payant"), LigneLabel := Str("1")],
                            map[TarifLabel := Str(Free), LigneLabel := Str("4")]]);
      HomeView(t, {}) == Ok(Metrics(3, 2))
  {
    var t := Table({TarifLabel, LigneLabel},
                   [map[TarifLabel := Str(Free), LigneLabel := Str("1")],
                    map[TarifLabel := Str("Payant"), LigneLabel := Str("1")],
                    map[TarifLabel := Str(Free), LigneLabel := Str("4")]]);
    var a, b, c := t.rows[0], t.rows[1], t.rows[2];
    assert IsFree(a) && !IsFree(b) && IsFree(c);
    assert [a, b, c][..2] == [a, b] && [a, b][..1] == [a] && [a][..0] == [];
    assert Filter([a], IsFree) == [a];
    assert Filter([a, b], IsFree) == [a];
    assert Filter(t.rows, IsFree) == [a, c];
  }

  /** A reply with status 500 loads an empty frame with a connection alert,
      cleaning leaves it empty, and the home page shows no metrics. */
  lemma ServerErrorShowsNoData(body: Body, sel: set<Value>)
    ensures Load(Response(500, body)) == Loaded(EmptyFrame, ConnectionAlert)
    ensures Clean(EmptyFrame) == EmptyFrame
    ensures HomeView(Clean(Load(Response(500, body)).raw), sel) == Ok(NoData)
  {
  }
}
