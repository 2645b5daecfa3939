/** `load_data_from_api` (app.py:10-30) with the HTTP exchange made an input:
    the reply of the open-data service is a value, and the function decides
    which frame and which alert the dashboard gets from it. Caching, the URL
    and the text of the alerts are not modelled. */
module Loading {
  import opened Frames

  /** One element of the reply's `records` list: the `fields` object holding
      the station's attributes, or an element without one. */
  datatype ApiRecord = WithFields(fields: Row) | WithoutFields

  /** The decoded reply body: not JSON at all, a JSON value that is not an
      object, an object without `records`, or an object with them. */
  datatype Body = Malformed | NotAnObject | NoRecords | Records(records: seq<ApiRecord>)

  /** The outcome of the HTTP request: no reply at all (the request raised),
      or a reply with a status code and a body. */
  datatype Reply = NoReply | Response(status: int, body: Body)

  /** The message the page shows besides the frame. */
  datatype Alert = Silent | ConnectionAlert | TechnicalAlert

  datatype Loaded = Loaded(raw: Table, alert: Alert)

  const Ok200 := 200
  const FieldsKey := "fields"

  /** Every column label some record carries. */
  function KeysOf(records: seq<Row>): (keys: set<string>)
    ensures forall c :: c in keys <==> exists i :: 0 <= i < |records| && c in records[i]
  {
    if |records| == 0 then {}
    else
      var front := records[..|records| - 1];
      var keys := KeysOf(front) + records[|records| - 1].Keys;
      assert forall i :: 0 <= i < |front| ==> front[i] == records[i];
      keys
  }

  /** `pd.DataFrame(records)`: one column per label any record carries, one
      row per record, in order, with a missing value where a record lacks
      a label. */
  function FromRecords(records: seq<Row>): (t: Table)
    ensures WellFormed(t) && |t.rows| == |records|
    ensures forall c :: c in t.columns <==> exists i :: 0 <= i < |records| && c in records[i]
    ensures forall i, c :: 0 <= i < |records| && c in records[i] ==> c in t.rows[i] && t.rows[i][c] == records[i][c]
    ensures forall i, c :: 0 <= i < |records| && c in t.columns && c !in records[i] ==> t.rows[i][c] == Null
    ensures forall i :: 0 <= i < |records| && records[i].Keys == t.columns ==> t.rows[i] == records[i]
  {
    var cols := KeysOf(records);
    Table(cols, seq(|records|, i requires 0 <= i < |records| => map c | c in cols :: Cell(records[i], c)))
  }

  /** Records that all share one schema come back unchanged as the rows. */
  lemma FromUniformRecords(records: seq<Row>, schema: set<string>)
    requires forall i :: 0 <= i < |records| ==> records[i].Keys == schema
    ensures FromRecords(records).rows == records
    ensures |records| > 0 ==> FromRecords(records).columns == schema
  {
    var t := FromRecords(records);
    forall i | 0 <= i < |records|
      ensures t.rows[i] == records[i]
    {
      assert t.rows[i].Keys == records[i].Keys;
    }
    if |records| > 0 {
      assert forall c :: c in schema ==> c in records[0];
    }
  }

  /** `[r['fields'] for r in records]`: the `fields` of every record, or a
      `KeyError` as soon as one record has none. */
  function FieldsOf(records: seq<ApiRecord>): (out: Outcome<seq<Row>>)
    ensures out.Ok? <==> forall i :: 0 <= i < |records| ==> records[i].WithFields?
    ensures out.Ok? ==> |out.value| == |records|
    ensures out.Ok? ==> forall i :: 0 <= i < |records| ==> out.value[i] == records[i].fields
    ensures out.KeyError? ==> out.missing == {FieldsKey}
  {
    if |records| == 0 then Ok([])
    else
      var last := records[|records| - 1];
      match FieldsOf(records[..|records| - 1])
      case KeyError(missing) => KeyError(missing)
      case Ok(front) =>
        if last.WithoutFields? then KeyError({FieldsKey})
        else Ok(front + [last.fields])
  }

  /** The fetch: a frame of the records' fields and no alert on a successful
      reply, otherwise an empty frame and a connection alert (status other
      than 200) or a technical alert (no reply, a body that is not a JSON
      object, a record without `fields`). A body without `records` is an
      empty list of records. */
  function Load(reply: Reply): (out: Loaded)
    ensures out.alert != Silent ==> out.raw == EmptyFrame
    ensures out.alert == ConnectionAlert <==> reply.Response? && reply.status != Ok200
    ensures out.alert == Silent <==>
      && reply.Response? && reply.status == Ok200
      && (reply.body.NoRecords? || reply.body.Records?)
      && (reply.body.Records? ==> forall i :: 0 <= i < |reply.body.records| ==> reply.body.records[i].WithFields?)
    ensures out.alert == Silent && reply.body.Records? ==>
      out.raw == FromRecords(seq(|reply.body.records|, i requires 0 <= i < |reply.body.records| => reply.body.records[i].fields))
    ensures out.alert == Silent && reply.body.NoRecords? ==> out.raw == EmptyFrame
  {
    match reply
    case NoReply => Loaded(EmptyFrame, TechnicalAlert)
    case Response(status, body) =>
      if status != Ok200 then Loaded(EmptyFrame, ConnectionAlert)
      else
        match body
        case Malformed => Loaded(EmptyFrame, TechnicalAlert)
        case NotAnObject => Loaded(EmptyFrame, TechnicalAlert)
        case NoRecords => Loaded(FromRecords([]), Silent)
        case Records(records) =>
          match FieldsOf(records)
          case KeyError(_) => Loaded(EmptyFrame, TechnicalAlert)
          case Ok(rows) =>
            assert rows == seq(|records|, i requires 0 <= i < |records| => records[i].fields);
            Loaded(FromRecords(rows), Silent)
  }
}
