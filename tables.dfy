/** `build_parameter_table`, `build_responses_table` and `find_response`: the two tables
  * of one operation. The HTML of a table is left abstract; a table is its list of rows. */
module Tables {
  import opened Wrappers
  import opened Swagger
  import opened PyStrings

  datatype ParamRow = ParamRow(name: string, typeName: string, description: string)
  datatype RespRow = RespRow(code: string, description: string)

  /** The fixed "No parameters" table, or the "Parameters" subsection with its rows. */
  datatype ParamTable = NoParameters | Parameters(rows: seq<ParamRow>)

  /** The empty string, or the "Responses" subsection with its rows. */
  datatype RespTable = NoResponses | Responses(rows: seq<RespRow>)

  const Undefined := "undefined"

  /** The type shown for a parameter: its own `type`, else its schema's `type`, else
    * "undefined". */
  function ParamType(p: Parameter): (r: string)
    ensures p.typeName.Some? ==> r == p.typeName.value
    ensures p.typeName.None? && p.schema.Some? && p.schema.value.typeName.Some? ==>
              r == p.schema.value.typeName.value
    ensures p.typeName.None? && (p.schema.None? || p.schema.value.typeName.None?) ==> r == Undefined
  {
    match p.typeName
    case Some(t) => t
    case None =>
      match p.schema
      case Some(Schema(Some(t))) => t
      case _ => Undefined
  }

  /** The row of one parameter; `row['name']` fails on a parameter without a name. */
  function ParamRowOf(p: Parameter): Result<ParamRow, Failure> {
    match p.name
    case None => Err(KeyError("name"))
    case Some(n) => Ok(ParamRow(n, ParamType(p), p.description.GetOr("")))
  }

  /** The rows of a `parameters` list: one per parameter, in order; the first parameter
    * without a name stops the run. */
  function ParamRows(ps: seq<Parameter>): (r: Result<seq<ParamRow>, Failure>)
    ensures r.Ok? <==> forall i :: 0 <= i < |ps| ==> ps[i].name.Some?
    ensures r.Err? ==> r.error == KeyError("name")
    ensures r.Ok? ==> |r.value| == |ps|
    ensures r.Ok? ==> forall i :: 0 <= i < |ps| ==>
              r.value[i] == ParamRow(ps[i].name.value, ParamType(ps[i]), ps[i].description.GetOr(""))
    decreases |ps|
  {
    if ps == [] then Ok([])
    else
      var init := ps[..|ps| - 1];
      match ParamRows(init)
      case Err(e) => Err(e)
      case Ok(rows) =>
        match ParamRowOf(ps[|ps| - 1])
        case Err(e) => Err(e)
        case Ok(row) => Ok(rows + [row])
  }

  /** Every parameter of the operation has a name. */
  predicate Named(op: Operation) {
    op.parameters.Some? ==> forall k :: 0 <= k < |op.parameters.value| ==> op.parameters.value[k].name.Some?
  }

  /** What `build_parameter_table(api)` returns. */
  function ParameterTable(op: Operation): (r: Result<ParamTable, Failure>)
    ensures r.Ok? <==> Named(op)
    ensures r.Err? ==> r.error == KeyError("name")
    ensures op.parameters.None? ==> r == Ok(NoParameters)
    ensures op.parameters.Some? && r.Ok? ==>
              && r.value.Parameters?
              && |r.value.rows| == |op.parameters.value|
              && forall i :: 0 <= i < |r.value.rows| ==>
                   var p := op.parameters.value[i];
                   r.value.rows[i] == ParamRow(p.name.value, ParamType(p), p.description.GetOr(""))
  {
    match op.parameters
    case None => Ok(NoParameters)
    case Some(ps) =>
      match ParamRows(ps)
      case Err(e) => Err(e)
      case Ok(rows) => Ok(Parameters(rows))
  }

  /** `build_parameter_table(api)`: appends one row per parameter. */
  method BuildParameterTable(op: Operation) returns (r: Result<ParamTable, Failure>)
    ensures r == ParameterTable(op)
  {
    if op.parameters.None? {
      return Ok(NoParameters);
    }
    var ps := op.parameters.value;
    var rows: seq<ParamRow> := [];
    var i := 0;
    while i < |ps|
      invariant 0 <= i <= |ps|
      invariant ParamRows(ps[..i]) == Ok(rows)
    {
      assert ps[..i + 1][..i] == ps[..i];
      var row := ps[i];
      if row.name.None? {
        assert ParamRows(ps).Err? by { assert !ps[i].name.Some?; }
        return Err(KeyError("name"));
      }
      rows := rows + [ParamRow(row.name.value, ParamType(row), row.description.GetOr(""))];
      i := i + 1;
    }
    assert ps[..i] == ps;
    r := Ok(Parameters(rows));
  }

  /** `needle.split('/')[-1]`: the last '/'-separated segment of a `$ref`. */
  function LastSegment(needle: string): (r: string)
    ensures !Contains(r, "/")
  {
    var parts := Split(needle, "/");
    SplitPiecesFree(needle, "/");
    parts[|parts| - 1]
  }

  /** `find_response(needle, haystack)`: the description of the shared response that a
    * `$ref` names, or "" when there is no `responses` table, no such entry, or the
    * entry has no description. */
  function FindResponse(needle: string, doc: Document): (r: string)
    ensures doc.responses.None? ==> r == ""
    ensures r != "" ==>
              exists i :: 0 <= i < |doc.responses.value| &&
                          doc.responses.value[i] == (LastSegment(needle), SharedResponse(Some(r)))
  {
    match doc.responses
    case None => ""
    case Some(table) =>
      match Lookup(table, LastSegment(needle))
      case Some(entry) => entry.description.GetOr("")
      case None => ""
  }

  /** A `$ref` of the form `prefix/name` resolves to the shared response `name`. */
  lemma ResolvePointer(prefix: string, name: string, doc: Document)
    requires !Contains(name, "/")
    ensures doc.responses.None? ==> FindResponse(prefix + "/" + name, doc) == ""
    ensures doc.responses.Some? && Lookup(doc.responses.value, name).None? ==>
              FindResponse(prefix + "/" + name, doc) == ""
    ensures doc.responses.Some? && Lookup(doc.responses.value, name).Some? ==>
              FindResponse(prefix + "/" + name, doc) ==
              Lookup(doc.responses.value, name).value.description.GetOr("")
  {
    SplitLastAfterSeparator(prefix, "/", name);
  }

  /** The description shown for one response: the resolved `$ref`, or "" without one.
    * An inline `description` is never shown. */
  function ResponseDescription(resp: Response, doc: Document): string {
    match resp.reference
    case Some(ref) => FindResponse(ref, doc)
    case None => ""
  }

  /** The rows of a `responses` dict: one per status code, in order. */
  function ResponseRows(rs: Object<Response>, doc: Document): (r: seq<RespRow>)
    ensures |r| == |rs|
    ensures forall i :: 0 <= i < |rs| ==> r[i] == RespRow(rs[i].0, ResponseDescription(rs[i].1, doc))
    decreases |rs|
  {
    if rs == [] then []
    else
      var last := rs[|rs| - 1];
      ResponseRows(rs[..|rs| - 1], doc) + [RespRow(last.0, ResponseDescription(last.1, doc))]
  }

  /** What `build_responses_table(api, json_data)` returns. */
  function ResponseTable(op: Operation, doc: Document): (r: RespTable)
    ensures r.NoResponses? <==> op.responses.None?
    ensures r.Responses? ==>
              && |r.rows| == |op.responses.value|
              && forall i :: 0 <= i < |r.rows| ==>
                   && r.rows[i].code == op.responses.value[i].0
                   && (op.responses.value[i].1.reference.None? ==> r.rows[i].description == "")
  {
    match op.responses
    case None => NoResponses
    case Some(rs) => Responses(ResponseRows(rs, doc))
  }

  /** `build_responses_table(api, json_data)`: appends one row per status code. */
  method BuildResponsesTable(op: Operation, doc: Document) returns (r: RespTable)
    ensures r == ResponseTable(op, doc)
  {
    if op.responses.None? {
      return NoResponses;
    }
    var rs := op.responses.value;
    var rows: seq<RespRow> := [];
    var i := 0;
    while i < |rs|
      invariant 0 <= i <= |rs|
      invariant rows == ResponseRows(rs[..i], doc)
    {
      assert rs[..i + 1][..i] == rs[..i];
      var (code, row) := rs[i];
      var description := if row.reference.Some? then FindResponse(row.reference.value, doc) else "";
      rows := rows + [RespRow(code, description)];
      i := i + 1;
    }
    assert rs[..i] == rs;
    r := Responses(rows);
  }

  /** Two `responses` dicts with the same codes and `$ref`s, in the same order. */
  predicate SameReferences(a: Object<Response>, b: Object<Response>) {
    |a| == |b| && forall i :: 0 <= i < |a| ==> a[i].0 == b[i].0 && a[i].1.reference == b[i].1.reference
  }

  /** The response table does not depend on inline descriptions. */
  lemma InlineDescriptionIgnored(op: Operation, op': Operation, doc: Document)
    requires op.responses.Some? <==> op'.responses.Some?
    requires op.responses.Some? ==> SameReferences(op.responses.value, op'.responses.value)
    ensures ResponseTable(op, doc) == ResponseTable(op', doc)
  {
    if op.responses.Some? {
      var a, b := ResponseRows(op.responses.value, doc), ResponseRows(op'.responses.value, doc);
      assert forall i :: 0 <= i < |a| ==> a[i] == b[i];
    }
  }
}
