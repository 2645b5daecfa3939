/** `clean_data` (app.py): turns the raw API frame into the frame the pages
    display. The frame-level definition `Clean` follows the source column by
    column; `CleanRecord` says what the same steps do to a single record, and
    the contract of `Clean` states that the frame is the record-level
    cleaning of the surviving records, in their original order. */
module Cleaning {
  import opened Seqs
  import opened Frames
  import opened Text

  const CoordGeo := "coord_geo"
  const Lat := "lat"
  const Lon := "lon"
  const Gps: set<string> := {Lat, Lon}
  const TarifLabel := "Tarif"
  const LigneLabel := "Ligne"
  const ColorLabel := "color"
  const UnknownTarif := "Inconnu"
  const UnknownLine := "Inconnue"
  const MarkerColor := "#FF0000"

  /** API field name -> display name; every other column keeps its name. */
  const DisplayNames: map<string, string> := map[
    "ligne" := "Ligne",
    "station" := "Station",
    "tarif_gratuit_payant" := "Tarif",
    "acces_bouton_poussoir" := "Accessibilité",
    "en_zone_controlee_ou_hors_zone_controlee_station" := "Zone"]

  /** Display name -> API field name, the inverse of `DisplayNames`. */
  const ApiNames: map<string, string> := map[
    "Ligne" := "ligne",
    "Station" := "station",
    "Tarif" := "tarif_gratuit_payant",
    "Accessibilité" := "acces_bouton_poussoir",
    "Zone" := "en_zone_controlee_ou_hors_zone_controlee_station"]

  /** The facts about the two name tables that the proofs rely on. */
  lemma DisplayNamesFacts()
    ensures Inverse(DisplayNames, ApiNames)
    ensures forall k :: k in DisplayNames ==> k !in {CoordGeo, Lat, Lon, TarifLabel, LigneLabel, ColorLabel}
    ensures forall k :: k in DisplayNames ==> DisplayNames[k] !in {CoordGeo, Lat, Lon, ColorLabel}
    ensures forall l :: l in ApiNames ==> ApiNames[l] !in {Lat, Lon}
  {
  }

  /** Where `Ligne` and `Tarif` come from. */
  lemma ApiNamesOfStandardised()
    ensures LigneLabel in ApiNames && ApiNames[LigneLabel] == "ligne"
    ensures TarifLabel in ApiNames && ApiNames[TarifLabel] == "tarif_gratuit_payant"
  {
  }

  /** The label a column carries after the rename step. */
  function DisplayName(k: string): string
  {
    Relabel(DisplayNames, k)
  }

  /** No column already carries the display name of an API field that is also
      a column; otherwise `rename` would produce two columns with one name. */
  predicate NoLabelClash(cols: set<string>)
  {
    forall k {:trigger DisplayNames[k]} :: k in DisplayNames && k in cols ==> DisplayNames[k] !in cols
  }

  lemma NoClashRenamesInjectively(cols: set<string>)
    requires NoLabelClash(cols)
    ensures RenameInjective(DisplayNames, cols)
  {
    forall k1, k2 | k1 in cols && k2 in cols && k1 != k2
      ensures DisplayName(k1) != DisplayName(k2)
    {
    }
  }

  /* ---------------------------------------------------------------------- */
  /* Coordinates (app.py:40-48)                                              */

  /** Element `k` of a two-element list, the missing value for anything else. */
  function Coordinate(v: Value, k: nat): Value
    requires k < 2
  {
    if v.Lst? && |v.items| == 2 then v.items[k] else Null
  }

  function LatOf(r: Row): Value { Coordinate(Cell(r, CoordGeo), 0) }

  function LonOf(r: Row): Value { Coordinate(Cell(r, CoordGeo), 1) }

  /** The columns after the coordinate step. */
  function LocatedColumns(cols: set<string>): set<string>
  {
    if CoordGeo in cols then cols + Gps else cols
  }

  /** The coordinate step on one record of a frame whose columns are `cols`:
      with a `coord_geo` column, `lat` and `lon` are elements 0 and 1 of a
      two-element list and missing for any other value; nothing else changes.
      The record then has both coordinates exactly when it `Survives`. */
  function Locate(cols: set<string>, r: Row): (out: Row)
    ensures CoordGeo !in cols ==> out == r
    ensures CoordGeo in cols ==> out.Keys == r.Keys + Gps
    ensures CoordGeo in cols && Cell(r, CoordGeo).Lst? && |Cell(r, CoordGeo).items| == 2 ==>
      out[Lat] == Cell(r, CoordGeo).items[0] && out[Lon] == Cell(r, CoordGeo).items[1]
    ensures CoordGeo in cols && !(Cell(r, CoordGeo).Lst? && |Cell(r, CoordGeo).items| == 2) ==>
      out[Lat] == Null && out[Lon] == Null
    ensures forall k :: k in r && k !in Gps ==> k in out && out[k] == r[k]
    ensures NoNa(out, Gps) <==> Survives(cols, r)
  {
    if CoordGeo in cols then r[Lat := LatOf(r)][Lon := LonOf(r)] else r
  }

  /** `df['lat'] = ...; df['lon'] = ...` when the frame has `coord_geo`. */
  function WithCoordinates(t: Table): (out: Table)
    requires WellFormed(t)
    ensures WellFormed(out)
    ensures out.columns == LocatedColumns(t.columns)
    ensures |out.rows| == |t.rows|
    ensures forall i :: 0 <= i < |t.rows| ==> out.rows[i] == Locate(t.columns, t.rows[i])
  {
    if CoordGeo in t.columns then Assign(Assign(t, Lat, LatOf), Lon, LonOf) else t
  }

  /* ---------------------------------------------------------------------- */
  /* Dropping rows without coordinates (app.py:52-53)                         */

  /** A two-element list of present values. */
  predicate ValidPair(v: Value)
  {
    v.Lst? && |v.items| == 2 && v.items[0] != Null && v.items[1] != Null
  }

  /** Whether a raw record of a frame with columns `cols` keeps its place in the
      cleaned frame: its `coord_geo` is a pair of present values or, in a frame
      without `coord_geo`, its own `lat` and `lon` are present. */
  predicate Survives(cols: set<string>, r: Row)
  {
    if CoordGeo in cols then ValidPair(Cell(r, CoordGeo))
    else Cell(r, Lat) != Null && Cell(r, Lon) != Null
  }

  function SurvivesIn(cols: set<string>): Row -> bool
  {
    r => Survives(cols, r)
  }

  /** The drop step, with a frame lacking `lat` or `lon` treated as having
      no coordinates at all: exactly the rows with both coordinates present,
      in their original order. */
  function DropWithoutGps(t: Table): (out: Table)
    requires WellFormed(t)
    ensures WellFormed(out)
    ensures out.columns == t.columns
    ensures |out.rows| <= |t.rows|
    ensures forall j :: 0 <= j < |out.rows| ==> NoNa(out.rows[j], Gps)
    ensures SelectsExactly(t.rows, out.rows, KeptIndices(t.rows, NotNaIn(Gps)), NotNaIn(Gps))
  {
    var kept := Filter(t.rows, NotNaIn(Gps));
    FilterSelects(t.rows, NotNaIn(Gps));
    assert forall j :: 0 <= j < |kept| ==> kept[j] in t.rows && NotNaIn(Gps)(kept[j]);
    Table(t.columns, kept)
  }

  /* ---------------------------------------------------------------------- */
  /* Renaming and standardisation (app.py:55-78)                              */

  function FilledTarif(r: Row): Value { FillNa(Cell(r, TarifLabel), Str(UnknownTarif)) }

  function DefaultTarif(r: Row): Value { Str(UnknownTarif) }

  function LigneText(r: Row): Value { Str(ToText(Cell(r, LigneLabel))) }

  function DefaultLigne(r: Row): Value { Str(UnknownLine) }

  function Marker(r: Row): Value { Str(MarkerColor) }

  /** `fillna('Inconnu')` on an existing `Tarif` column, else a constant column. */
  function StandardTarif(t: Table): (out: Table)
    requires WellFormed(t)
    ensures WellFormed(out)
    ensures out.columns == t.columns + {TarifLabel}
    ensures |out.rows| == |t.rows|
    ensures forall i :: 0 <= i < |t.rows| ==> out.rows[i] == t.rows[i][TarifLabel := FilledTarif(t.rows[i])]
  {
    if TarifLabel in t.columns then Assign(t, TarifLabel, FilledTarif)
    else Assign(t, TarifLabel, DefaultTarif)
  }

  /** `astype(str)` on an existing `Ligne` column, else a constant column. */
  function StandardLigne(t: Table): (out: Table)
    requires WellFormed(t)
    ensures WellFormed(out)
    ensures out.columns == t.columns + {LigneLabel}
    ensures |out.rows| == |t.rows|
    ensures forall i :: 0 <= i < |t.rows| ==>
      out.rows[i] == t.rows[i][LigneLabel := if LigneLabel in t.rows[i] then LigneText(t.rows[i]) else DefaultLigne(t.rows[i])]
  {
    if LigneLabel in t.columns then Assign(t, LigneLabel, LigneText)
    else Assign(t, LigneLabel, DefaultLigne)
  }

  /** Everything after the drop step. */
  function Finish(d: Table): (out: Table)
    requires WellFormed(d)
    requires NoLabelClash(d.columns)
    ensures WellFormed(out)
    ensures |out.rows| == |d.rows|
    ensures out.columns == (set k | k in d.columns :: DisplayName(k)) + {TarifLabel, LigneLabel, ColorLabel}
  {
    NoClashRenamesInjectively(d.columns);
    Assign(StandardLigne(StandardTarif(Rename(d, DisplayNames))), ColorLabel, Marker)
  }

  /** The same steps on one record that has survived the drop step, for a
      renaming `names`. */
  function FinishRecordWith(names: map<string, string>, r: Row): Row
    requires RenameInjective(names, r.Keys)
  {
    var renamed := RenameRow(names, r);
    var ligne := if LigneLabel in renamed then LigneText(renamed) else DefaultLigne(renamed);
    renamed[TarifLabel := FilledTarif(renamed)][LigneLabel := ligne][ColorLabel := Marker(renamed)]
  }

  function FinishRecord(r: Row): Row
    requires NoLabelClash(r.Keys)
  {
    NoClashRenamesInjectively(r.Keys);
    FinishRecordWith(DisplayNames, r)
  }

  lemma LocatedNoClash(cols: set<string>)
    requires NoLabelClash(cols)
    ensures NoLabelClash(LocatedColumns(cols))
  {
  }

  /* ---------------------------------------------------------------------- */
  /* What the steps do to one record                                         */

  /** The raw cell that the rename step moves under `name`: the API field
      renamed to `name` when the record has it, else the record's own cell
      under `name`, else the missing value. */
  function SourceCell(r: Row, name: string): Value
  {
    RenameSource(ApiNames, r, name)
  }

  /** The coordinate step does not touch the cell the rename step moves under
      any label other than `lat` and `lon`. */
  lemma SourceCellLocated(cols: set<string>, r: Row, name: string)
    requires name !in Gps
    ensures SourceCell(Locate(cols, r), name) == SourceCell(r, name)
  {
  }

  /** The cells of a finished record in terms of the renamed record. */
  lemma FinishRecordCells(names: map<string, string>, r: Row)
    requires RenameInjective(names, r.Keys)
    ensures var renamed, out := RenameRow(names, r), FinishRecordWith(names, r);
      && out.Keys == renamed.Keys + {TarifLabel, LigneLabel, ColorLabel}
      && out[TarifLabel] == FilledTarif(renamed)
      && out[LigneLabel] == (if LigneLabel in renamed then LigneText(renamed) else DefaultLigne(renamed))
      && out[ColorLabel] == Str(MarkerColor)
      && forall name :: name !in {TarifLabel, LigneLabel, ColorLabel} ==> Cell(out, name) == Cell(renamed, name)
  {
  }

  lemma FinishRecordUnfold(x: Row)
    requires NoLabelClash(x.Keys)
    ensures RenameInjective(DisplayNames, x.Keys)
    ensures FinishRecord(x) == FinishRecordWith(DisplayNames, x)
  {
    NoClashRenamesInjectively(x.Keys);
  }

  /** A label that renaming by `names` neither moves nor produces, and that
      standardisation does not set, keeps its cell through the finishing steps. */
  lemma FinishKeepsWith(names: map<string, string>, x: Row, name: string)
    requires RenameInjective(names, x.Keys)
    requires name !in names
    requires forall k :: k in names ==> names[k] != name
    requires name !in {TarifLabel, LigneLabel, ColorLabel}
    ensures Cell(FinishRecordWith(names, x), name) == Cell(x, name)
  {
  }

  lemma GpsNotRenamed()
    ensures Lat !in DisplayNames && Lon !in DisplayNames
    ensures forall k :: k in DisplayNames ==> DisplayNames[k] != Lat && DisplayNames[k] != Lon
  {
  }

  /** The finishing steps keep the coordinates. */
  lemma FinishKeepsGps(x: Row)
    requires NoLabelClash(x.Keys)
    ensures Cell(FinishRecord(x), Lat) == Cell(x, Lat)
    ensures Cell(FinishRecord(x), Lon) == Cell(x, Lon)
  {
    FinishRecordUnfold(x);
    GpsNotRenamed();
    FinishKeepsWith(DisplayNames, x, Lat);
    FinishKeepsWith(DisplayNames, x, Lon);
  }

  lemma FinishRenamesWith(names: map<string, string>, x: Row)
    requires RenameInjective(names, x.Keys)
    ensures FinishRecordWith(names, x).Keys == (set k | k in x :: Relabel(names, k)) + {TarifLabel, LigneLabel, ColorLabel}
    ensures forall k :: k in x && Relabel(names, k) !in {TarifLabel, LigneLabel, ColorLabel} ==>
      Relabel(names, k) in FinishRecordWith(names, x) && FinishRecordWith(names, x)[Relabel(names, k)] == x[k]
  {
    FinishRecordCells(names, x);
    var renamed, out := RenameRow(names, x), FinishRecordWith(names, x);
    forall k | k in x && Relabel(names, k) !in {TarifLabel, LigneLabel, ColorLabel}
      ensures Relabel(names, k) in out && out[Relabel(names, k)] == x[k]
    {
      assert Cell(out, Relabel(names, k)) == Cell(renamed, Relabel(names, k));
    }
  }

  /** The finishing steps move every cell to its display name, except the
      ones `Tarif`, `Ligne` and `color` overwrite. */
  lemma FinishRenames(x: Row)
    requires NoLabelClash(x.Keys)
    ensures FinishRecord(x).Keys == (set k | k in x :: DisplayName(k)) + {TarifLabel, LigneLabel, ColorLabel}
    ensures forall k :: k in x && DisplayName(k) !in {TarifLabel, LigneLabel, ColorLabel} ==>
      DisplayName(k) in FinishRecord(x) && FinishRecord(x)[DisplayName(k)] == x[k]
  {
  }

  lemma FinishTarif(x: Row)
    requires NoLabelClash(x.Keys)
    ensures TarifLabel in FinishRecord(x)
    ensures FinishRecord(x)[TarifLabel] == FillNa(SourceCell(x, TarifLabel), Str(UnknownTarif))
  {
    FinishRecordUnfold(x);
    FinishRecordCells(DisplayNames, x);
    DisplayNamesFacts();
    RenamedCell(DisplayNames, ApiNames, x, TarifLabel);
  }

  /** `Ligne` after renaming by `names`, whose inverse `inv` gives the field
      renamed to `Ligne`. */
  lemma FinishLigneWith(names: map<string, string>, inv: map<string, string>, x: Row)
    requires RenameInjective(names, x.Keys)
    requires Inverse(names, inv)
    requires LigneLabel !in names && LigneLabel in inv
    ensures LigneLabel in FinishRecordWith(names, x)
    ensures FinishRecordWith(names, x)[LigneLabel] ==
      if inv[LigneLabel] in x || LigneLabel in x then Str(ToText(RenameSource(inv, x, LigneLabel))) else Str(UnknownLine)
  {
    FinishRecordCells(names, x);
    RenamedCell(names, inv, x, LigneLabel);
    var renamed := RenameRow(names, x);
    if inv[LigneLabel] in x {
      assert Relabel(names, inv[LigneLabel]) == LigneLabel;
    } else if LigneLabel in x {
      assert Relabel(names, LigneLabel) == LigneLabel;
    } else {
      assert LigneLabel !in renamed;
    }
  }

  lemma FinishLigne(x: Row)
    requires NoLabelClash(x.Keys)
    ensures LigneLabel in FinishRecord(x)
    ensures FinishRecord(x)[LigneLabel] ==
      if "ligne" in x || LigneLabel in x then Str(ToText(SourceCell(x, LigneLabel))) else Str(UnknownLine)
  {
    FinishRecordUnfold(x);
    DisplayNamesFacts();
    ApiNamesOfStandardised();
    FinishLigneWith(DisplayNames, ApiNames, x);
  }

  lemma FinishColor(x: Row)
    requires NoLabelClash(x.Keys)
    ensures ColorLabel in FinishRecord(x) && FinishRecord(x)[ColorLabel] == Str(MarkerColor)
  {
  }

  /** Coordinates of a surviving record after all steps. */
  lemma LocatedRecordCoordinates(cols: set<string>, r: Row)
    requires r.Keys == cols
    requires NoLabelClash(Locate(cols, r).Keys)
    requires Survives(cols, r)
    ensures var out := FinishRecord(Locate(cols, r));
      && Lat in out && Lon in out
      && out[Lat] != Null && out[Lon] != Null
      && (CoordGeo in cols ==> out[Lat] == Cell(r, CoordGeo).items[0] && out[Lon] == Cell(r, CoordGeo).items[1])
      && (CoordGeo !in cols ==> out[Lat] == r[Lat] && out[Lon] == r[Lon])
  {
  }

  /** Labels and moved cells of a record after all steps. */
  lemma LocatedRecordRenames(cols: set<string>, r: Row)
    requires r.Keys == cols
    requires NoLabelClash(Locate(cols, r).Keys)
    ensures var out := FinishRecord(Locate(cols, r));
      && out.Keys == (set k | k in LocatedColumns(cols) :: DisplayName(k)) + {TarifLabel, LigneLabel, ColorLabel}
      && forall k :: k in r && (CoordGeo in cols ==> k !in Gps) && DisplayName(k) !in {TarifLabel, LigneLabel, ColorLabel} ==>
           DisplayName(k) in out && out[DisplayName(k)] == r[k]
  {
    var located := Locate(cols, r);
    FinishRenames(located);
    assert located.Keys == LocatedColumns(cols);
    assert (set k | k in located :: DisplayName(k)) == (set k | k in LocatedColumns(cols) :: DisplayName(k));
    forall k | k in r && (CoordGeo in cols ==> k !in Gps)
      ensures k in located && located[k] == r[k]
    {
    }
  }

  /** `Tarif` of a record after all steps. */
  lemma LocatedRecordTarif(cols: set<string>, r: Row)
    requires r.Keys == cols
    requires NoLabelClash(Locate(cols, r).Keys)
    ensures var out := FinishRecord(Locate(cols, r));
      && TarifLabel in out
      && out[TarifLabel] == FillNa(SourceCell(r, TarifLabel), Str(UnknownTarif))
  {
    FinishTarif(Locate(cols, r));
    SourceCellLocated(cols, r, TarifLabel);
  }

  /** `Ligne` of a record after all steps. */
  lemma LocatedRecordLigne(cols: set<string>, r: Row)
    requires r.Keys == cols
    requires NoLabelClash(Locate(cols, r).Keys)
    ensures var out := FinishRecord(Locate(cols, r));
      && LigneLabel in out
      && out[LigneLabel] == if "ligne" in cols || LigneLabel in cols then Str(ToText(SourceCell(r, LigneLabel))) else Str(UnknownLine)
  {
    var located := Locate(cols, r);
    FinishLigne(located);
    SourceCellLocated(cols, r, LigneLabel);
    assert "ligne" in located <==> "ligne" in cols;
    assert LigneLabel in located <==> LigneLabel in cols;
  }

  /** What every row of a non-empty cleaned frame offers the pages: both
      coordinates, a tariff, a line as text and the marker colour. */
  predicate Displayable(r: Row)
  {
    && Cell(r, Lat) != Null && Cell(r, Lon) != Null
    && Cell(r, TarifLabel) != Null
    && Cell(r, LigneLabel).Str?
    && Cell(r, ColorLabel) == Str(MarkerColor)
  }

  /** The cleaning of one raw record of a frame with columns `cols`.
      - Renaming: the labels are the display names of the located columns
        plus `Tarif`, `Ligne` and `color`, and every raw cell that neither
        the coordinate step nor the standardisation overwrites is found,
        unchanged, under its display name.
      - Coordinates of a surviving record: elements 0 and 1 of its
        `coord_geo` pair, or its own `lat` and `lon` in a frame without
        `coord_geo`.
      - `Tarif` keeps a present raw tariff and is `Inconnu` when it is
        missing or the frame has no tariff column.
      - `Ligne` is the `str` of the raw line when the frame has a line column
        under either name, `Inconnue` when it has none.
      - `color` is the red marker. */
  function CleanRecord(cols: set<string>, r: Row): (out: Row)
    requires r.Keys == cols
    requires NoLabelClash(cols)
    ensures out.Keys == (set k | k in LocatedColumns(cols) :: DisplayName(k)) + {TarifLabel, LigneLabel, ColorLabel}
    ensures forall k :: k in r && (CoordGeo in cols ==> k !in Gps) && DisplayName(k) !in {TarifLabel, LigneLabel, ColorLabel} ==>
      DisplayName(k) in out && out[DisplayName(k)] == r[k]
    ensures Survives(cols, r) ==> Lat in out && Lon in out && out[Lat] != Null && out[Lon] != Null
    ensures Survives(cols, r) && CoordGeo in cols ==>
      Lat in out && Lon in out && out[Lat] == Cell(r, CoordGeo).items[0] && out[Lon] == Cell(r, CoordGeo).items[1]
    ensures Survives(cols, r) && CoordGeo !in cols ==> Lat in out && Lon in out && out[Lat] == r[Lat] && out[Lon] == r[Lon]
    ensures TarifLabel in out
    ensures SourceCell(r, TarifLabel) != Null ==> out[TarifLabel] == SourceCell(r, TarifLabel)
    ensures SourceCell(r, TarifLabel) == Null ==> out[TarifLabel] == Str(UnknownTarif)
    ensures LigneLabel in out && out[LigneLabel].Str?
    ensures "ligne" in cols || LigneLabel in cols ==> out[LigneLabel] == Str(ToText(SourceCell(r, LigneLabel)))
    ensures !("ligne" in cols || LigneLabel in cols) ==> out[LigneLabel] == Str(UnknownLine)
    ensures ColorLabel in out && out[ColorLabel] == Str(MarkerColor)
    ensures Survives(cols, r) ==> Displayable(out)
  {
    LocatedNoClash(cols);
    LocatedRecordRenames(cols, r);
    LocatedRecordTarif(cols, r);
    LocatedRecordLigne(cols, r);
    FinishColor(Locate(cols, r));
    if Survives(cols, r) then
      LocatedRecordCoordinates(cols, r);
      FinishRecord(Locate(cols, r))
    else
      FinishRecord(Locate(cols, r))
  }

  /* ---------------------------------------------------------------------- */
  /* clean_data                                                              */

  /** The frame-level steps after the drop act on each record alone. */
  lemma FinishIsRecordwise(d: Table)
    requires WellFormed(d)
    requires NoLabelClash(d.columns)
    ensures forall j :: 0 <= j < |d.rows| ==> Finish(d).rows[j] == FinishRecord(d.rows[j])
  {
    NoClashRenamesInjectively(d.columns);
    var renamed := Rename(d, DisplayNames);
    var tarif := StandardTarif(renamed);
    var ligne := StandardLigne(tarif);
    forall j | 0 <= j < |d.rows|
      ensures Finish(d).rows[j] == FinishRecord(d.rows[j])
    {
      var r := renamed.rows[j];
      assert r == RenameRow(DisplayNames, d.rows[j]);
      assert tarif.rows[j] == r[TarifLabel := FilledTarif(r)];
      assert LigneLabel in tarif.rows[j] <==> LigneLabel in r;
      assert LigneText(tarif.rows[j]) == LigneText(r);
    }
  }

  /** The steps after the empty check, on a non-empty frame. */
  function CleanNonEmpty(t: Table): Table
    requires WellFormed(t)
    requires NoLabelClash(t.columns)
  {
    LocatedNoClash(t.columns);
    Finish(DropWithoutGps(WithCoordinates(t)))
  }

  /** `CleanNonEmpty` is, row for row, `CleanRecord` of the raw records that
      survive, kept in their original order. */
  lemma CleanNonEmptyIsRecordwise(t: Table)
    requires WellFormed(t)
    requires NoLabelClash(t.columns)
    ensures var out, idx := CleanNonEmpty(t), KeptIndices(t.rows, SurvivesIn(t.columns));
      && |out.rows| == |idx|
      && Ascending(idx)
      && (forall i :: 0 <= i < |t.rows| ==> (i in idx <==> Survives(t.columns, t.rows[i])))
      && (forall j :: 0 <= j < |idx| ==> 0 <= idx[j] < |t.rows| && out.rows[j] == CleanRecord(t.columns, t.rows[idx[j]]))
      && (forall j :: 0 <= j < |out.rows| ==> Displayable(out.rows[j]))
  {
    LocatedNoClash(t.columns);
    var located := WithCoordinates(t);
    var dropped := DropWithoutGps(located);
    var out, idx := CleanNonEmpty(t), KeptIndices(t.rows, SurvivesIn(t.columns));
    FilterSelects(located.rows, NotNaIn(Gps));
    FilterSelects(t.rows, SurvivesIn(t.columns));
    forall i | 0 <= i < |t.rows|
      ensures NotNaIn(Gps)(located.rows[i]) == SurvivesIn(t.columns)(t.rows[i])
    {
      assert located.rows[i] == Locate(t.columns, t.rows[i]);
    }
    KeptIndicesAgree(located.rows, NotNaIn(Gps), t.rows, SurvivesIn(t.columns));
    FinishIsRecordwise(dropped);
    forall j | 0 <= j < |idx|
      ensures out.rows[j] == CleanRecord(t.columns, t.rows[idx[j]])
      ensures Displayable(out.rows[j])
    {
      assert dropped.rows[j] == located.rows[idx[j]] == Locate(t.columns, t.rows[idx[j]]);
      assert idx[j] in idx;
    }
  }

  /** `clean_data`, with the drop step corrected as recorded under Findings in
      the README: a frame without coordinate columns loses every row instead of
      raising `KeyError`. An empty frame (no rows, or no columns) is returned
      unchanged. Otherwise the result holds `CleanRecord` of exactly the
      records that survive, in their original order, so every row of it is
      `Displayable`. */
  function Clean(t: Table): (out: Table)
    requires WellFormed(t)
    requires Empty(t) || NoLabelClash(t.columns)
    ensures WellFormed(out)
    ensures Empty(t) ==> out == t
    ensures |out.rows| <= |t.rows|
    ensures !Empty(t) ==>
      out.columns == (set k | k in LocatedColumns(t.columns) :: DisplayName(k)) + {TarifLabel, LigneLabel, ColorLabel}
    ensures !Empty(t) ==>
      var idx := KeptIndices(t.rows, SurvivesIn(t.columns));
      && |out.rows| == |idx|
      && Ascending(idx)
      && (forall i :: 0 <= i < |t.rows| ==> (i in idx <==> Survives(t.columns, t.rows[i])))
      && (forall j :: 0 <= j < |idx| ==> 0 <= idx[j] < |t.rows| && out.rows[j] == CleanRecord(t.columns, t.rows[idx[j]]))
    ensures !Empty(t) ==> forall j :: 0 <= j < |out.rows| ==> Displayable(out.rows[j])
  {
    if Empty(t) then t
    else
      CleanNonEmptyIsRecordwise(t);
      CleanNonEmpty(t)
  }

  /** `clean_data` as written: `dropna(subset=['lat', 'lon'])` raises
      `KeyError` when the frame has neither `coord_geo` nor its own `lat` and
      `lon` columns. Whenever it returns, it returns what `Clean` returns. */
  function CleanAsWritten(t: Table): (out: Outcome<Table>)
    requires WellFormed(t)
    requires Empty(t) || NoLabelClash(t.columns)
    ensures out.KeyError? <==> !Empty(t) && CoordGeo !in t.columns && !(Gps <= t.columns)
    ensures out.KeyError? ==> out.missing == Gps - t.columns
    ensures out.Ok? ==> out.value == Clean(t)
  {
    if Empty(t) then Ok(t)
    else
      LocatedNoClash(t.columns);
      match DropNa(WithCoordinates(t), Gps)
      case KeyError(missing) => KeyError(missing)
      case Ok(d) => Ok(Finish(d))
  }

  /** The input `[{"ligne": "4"}]`: as written, cleaning raises; corrected,
      it yields a frame with no rows. */
  lemma MissingCoordinatesRaises()
    ensures var t := Table({"ligne"}, [map["ligne" := Str("4")]]);
      && CleanAsWritten(t) == KeyError(Gps)
      && Clean(t).rows == []
  {
    var t := Table({"ligne"}, [map["ligne" := Str("4")]]);
    var located := WithCoordinates(t);
    assert located == t;
    assert !NoNa(t.rows[0], Gps);
    assert Filter(t.rows, NotNaIn(Gps)) == [];
  }

  /** A one-row frame whose row survives cleans to that row's cleaning. */
  lemma CleanSingleRow(r: Row)
    requires NoLabelClash(r.Keys)
    requires Survives(r.Keys, r)
    ensures var out := Clean(Table(r.Keys, [r]));
      |out.rows| == 1 && out.rows[0] == CleanRecord(r.Keys, r)
  {
    var t := Table(r.Keys, [r]);
    assert CoordGeo in r || Lat in r;
    var idx := KeptIndices(t.rows, SurvivesIn(t.columns));
    assert 0 in idx;
  }

  /** The record of the one-station example, cleaned. */
  lemma OneStationRecord(r: Row)
    requires r.Keys == {CoordGeo, "ligne", "tarif_gratuit_payant"}
    requires r[CoordGeo] == Lst([Num(4885), Num(235)])
    requires r["ligne"] == Str("1") && r["tarif_gratuit_payant"] == Str("Payant")
    ensures NoLabelClash(r.Keys) && Survives(r.Keys, r)
    ensures var out := CleanRecord(r.Keys, r);
      && Cell(out, Lat) == Num(4885) && Cell(out, Lon) == Num(235)
      && Cell(out, LigneLabel) == Str("1")
      && Cell(out, TarifLabel) == Str("Payant")
      && Cell(out, ColorLabel) == Str(MarkerColor)
  {
    assert Survives(r.Keys, r);
    assert SourceCell(r, LigneLabel) == Str("1") && SourceCell(r, TarifLabel) == Str("Payant") by {
      ApiNamesOfStandardised();
    }
  }

  /** One station with a `coord_geo` pair, a line and a tariff: it survives,
      its coordinates are the pair's elements, and its line and tariff are
      kept under their display names. */
  lemma OneStationCleaned()
    ensures var r := map[CoordGeo := Lst([Num(4885), Num(235)]), "ligne" := Str("1"), "tarif_gratuit_payant" := Str("Payant")];
      var out := Clean(Table(r.Keys, [r]));
      && |out.rows| == 1
      && Cell(out.rows[0], Lat) == Num(4885) && Cell(out.rows[0], Lon) == Num(235)
      && Cell(out.rows[0], LigneLabel) == Str("1")
      && Cell(out.rows[0], TarifLabel) == Str("Payant")
      && Cell(out.rows[0], ColorLabel) == Str(MarkerColor)
  {
    var r := map[CoordGeo := Lst([Num(4885), Num(235)]), "ligne" := Str("1"), "tarif_gratuit_payant" := Str("Payant")];
    OneStationRecord(r);
    CleanSingleRow(r);
  }
}
