/**
 * The generic `Controller` of the admin backend: the request-decision logic
 * of its index, edit, save (create or update) and delete actions.
 *
 * The model backend and the persistence layer are a `Backend` value whose
 * function fields give the answers of `validate`, `Db::check_fields`,
 * `save_before`, `create`, `update`, `delete` and `fetch_row` (with the
 * database state folded into them).  What the actions ask of the backend is
 * made observable as a trace: `Edit`, the save methods and `Delete` return
 * the calls they made, in order, so that "validation failure skips
 * persistence" and the pipeline order can be stated.  `Index` makes no call
 * here: the result of `get_records` is one of its parameters.
 */
module Controllers {
  import opened Wrappers
  import opened IdList

  /** A submitted form, and the whitelisted fields built from it. */
  type Fields = map<string, string>

  /** `validate`'s `Result<(), String>`. */
  datatype Validation = Accepted | Rejected(message: string)

  /** `DataSet::create()` or `DataSet::update()`. */
  datatype DataSetKind = ForCreate | ForUpdate

  /** The field-to-value set handed to `create` or `update`. */
  datatype DataSet = DataSet(kind: DataSetKind, values: map<string, string>)

  /** `cond!["id" => id]` or `cond![in_range => ["id" => ids]]`. */
  datatype Condition =
    | Equals(field: string, value: Usize)
    | InRange(field: string, values: string)

  /** The response an action answers with. */
  datatype Response = Ok | Error(message: string)

  /** One call of the controller into the backend. */
  datatype Call =
    | Validate(post: Fields)
    | CheckFields(table: string, post: Fields, isUpdate: bool)
    | SaveBefore(checked: Fields)
    | Create(data: DataSet)
    | Update(data: DataSet, cond: Condition)
    | DeleteRows(cond: Condition)
    | FetchRow(fields: seq<string>, cond: Condition)

  /** What one resource type supplies to the generic controller. */
  datatype Backend<!Row, Rec> = Backend(
    tableName: string,
    fields: seq<string>,
    default: Rec,
    validate: Fields -> Validation,
    checkFields: (string, Fields, bool) -> Fields,
    saveBefore: Fields -> Fields,
    create: DataSet -> int,
    update: (DataSet, Condition) -> int,
    delete: Condition -> nat,
    fetchRow: (seq<string>, Condition) -> Option<Row>,
    getRecord: Row -> Rec)

  const CREATE_FAILED: string := "增加記錄失敗"
  const UPDATE_FAILED: string := "修改記錄失敗"
  const BAD_PARAMETER: string := "错误的参数"
  const NOTHING_DELETED: string := "未删除任何记录"
  const BUTTON_SAVE: string := "保存记录"
  const BUTTON_ADD: string := "添加记录"

  // ---------------------------------------------------------------------
  // index
  // ---------------------------------------------------------------------

  /** What the listing template is rendered with. */
  datatype IndexView<Rec, Pager> = IndexView(
    actionName: string,
    controllerName: string,
    records: seq<Rec>,
    pager: Pager,
    breadPath: string,
    viewFile: string)

  /** The listing page.  `records` and `pager` are what `get_records`
      fetched; `breads` is the breadcrumb table keyed by URL path. */
  function Index<Row, Rec, Pager>(b: Backend<Row, Rec>, records: seq<Rec>, pager: Pager,
                                  breads: map<string, string>): (v: IndexView<Rec, Pager>)
    ensures v.controllerName == b.tableName && v.actionName == "index"
    ensures v.records == records && v.pager == pager
    ensures "/" + b.tableName in breads ==> v.breadPath == breads["/" + b.tableName]
    ensures "/" + b.tableName !in breads ==> v.breadPath == ""
    ensures v.viewFile == b.tableName + "/index.html"
  {
    var key := "/" + b.tableName;
    var breadPath := if key in breads then breads[key] else "";
    IndexView("index", b.tableName, records, pager, breadPath, b.tableName + "/index.html")
  }

  // ---------------------------------------------------------------------
  // edit
  // ---------------------------------------------------------------------

  /** What the edit form is rendered with. */
  datatype EditView<Rec> = EditView(
    controllerName: string,
    row: Rec,
    buttonText: string,
    id: Usize,
    viewFile: string)

  /** The edit form for `id`, with the backend calls it made: id 0 is a
      blank create form; any other id is looked up, and a missing row
      also gives the blank form. */
  function Edit<Row, Rec>(b: Backend<Row, Rec>, id: Usize): (r: (EditView<Rec>, seq<Call>))
    ensures id == 0 ==> r.1 == [] && r.0.row == b.default
    ensures id > 0 ==> r.1 == [FetchRow(b.fields, Equals("id", id))]
    ensures id > 0 && b.fetchRow(b.fields, Equals("id", id)).None? ==> r.0.row == b.default
    ensures id > 0 && b.fetchRow(b.fields, Equals("id", id)).Some? ==>
              r.0.row == b.getRecord(b.fetchRow(b.fields, Equals("id", id)).value)
    ensures r.0.buttonText == BUTTON_SAVE <==> id > 0
    ensures r.0.buttonText == BUTTON_ADD <==> id == 0
    ensures r.0.id == id && r.0.controllerName == b.tableName
    ensures r.0.viewFile == b.tableName + "/edit.html"
  {
    var isUpdate := id > 0;
    var cond := Equals("id", id);
    var row := if !isUpdate then b.default
               else match b.fetchRow(b.fields, cond)
                 case Some(found) => b.getRecord(found)
                 case None => b.default;
    var calls := if isUpdate then [FetchRow(b.fields, cond)] else [];
    var buttonText := if isUpdate then BUTTON_SAVE else BUTTON_ADD;
    (EditView(b.tableName, row, buttonText, id, b.tableName + "/edit.html"), calls)
  }

  // ---------------------------------------------------------------------
  // save
  // ---------------------------------------------------------------------

  /** The loop that copies the checked fields into a fresh `DataSet`: the
      set holds exactly the checked key/value pairs, nothing more. */
  method FillDataSet(kind: DataSetKind, checked: Fields) returns (data: DataSet)
    ensures data.kind == kind
    ensures data.values == checked
  {
    var values: map<string, string> := map[];
    var remaining := checked.Keys;
    while remaining != {}
      invariant remaining <= checked.Keys
      invariant values.Keys == checked.Keys - remaining
      invariant forall k :: k in values ==> values[k] == checked[k]
      decreases remaining
    {
      var k :| k in remaining;
      values := values[k := checked[k]];
      remaining := remaining - {k};
    }
    assert values == checked;
    data := DataSet(kind, values);
  }

  /** What one save path promises: a rejected form answers with the
      validator's own message and nothing after `validate` is called; an
      accepted form goes through whitelisting, the `save_before` hook and
      one write of exactly the hooked fields, and succeeds iff the write
      reports a positive id or row count. */
  ghost predicate SavePathOutcome<Row, Rec>(b: Backend<Row, Rec>, post: Fields, isUpdate: bool,
                                            write: DataSet -> Call, written: DataSet -> int,
                                            failure: string, resp: Response, calls: seq<Call>)
  {
    match b.validate(post)
    case Rejected(message) =>
      resp == Error(message) && calls == [Validate(post)]
    case Accepted =>
      var checked := b.checkFields(b.tableName, post, isUpdate);
      var data := DataSet(if isUpdate then ForUpdate else ForCreate, b.saveBefore(checked));
      && calls == [Validate(post), CheckFields(b.tableName, post, isUpdate), SaveBefore(checked), write(data)]
      && (resp == Ok <==> written(data) > 0)
      && (resp != Ok ==> resp == Error(failure))
  }

  ghost predicate CreatePathOutcome<Row, Rec>(b: Backend<Row, Rec>, post: Fields,
                                              resp: Response, calls: seq<Call>)
  {
    SavePathOutcome(b, post, false, data => Create(data), b.create, CREATE_FAILED, resp, calls)
  }

  ghost predicate UpdatePathOutcome<Row, Rec>(b: Backend<Row, Rec>, id: Usize, post: Fields,
                                              resp: Response, calls: seq<Call>)
  {
    SavePathOutcome(b, post, true, data => Update(data, Equals("id", id)),
                    data => b.update(data, Equals("id", id)), UPDATE_FAILED, resp, calls)
  }

  method SaveForCreate<Row, Rec>(b: Backend<Row, Rec>, post: Fields)
    returns (resp: Response, calls: seq<Call>)
    ensures CreatePathOutcome(b, post, resp, calls)
  {
    calls := [Validate(post)];
    var validation := b.validate(post);
    if validation.Rejected? {
      return Error(validation.message), calls;
    }
    var checked := b.checkFields(b.tableName, post, false);
    calls := calls + [CheckFields(b.tableName, post, false), SaveBefore(checked)];
    checked := b.saveBefore(checked);
    var data := FillDataSet(ForCreate, checked);
    calls := calls + [Create(data)];
    var id := b.create(data);
    if id > 0 {
      return Ok, calls;
    }
    resp := Error(CREATE_FAILED);
  }

  method SaveForUpdate<Row, Rec>(b: Backend<Row, Rec>, id: Usize, post: Fields)
    returns (resp: Response, calls: seq<Call>)
    ensures UpdatePathOutcome(b, id, post, resp, calls)
  {
    calls := [Validate(post)];
    var validation := b.validate(post);
    if validation.Rejected? {
      return Error(validation.message), calls;
    }
    var checked := b.checkFields(b.tableName, post, true);
    calls := calls + [CheckFields(b.tableName, post, true), SaveBefore(checked)];
    checked := b.saveBefore(checked);
    var data := FillDataSet(ForUpdate, checked);
    var cond := Equals("id", id);
    calls := calls + [Update(data, cond)];
    var affected := b.update(data, cond);
    if affected > 0 {
      return Ok, calls;
    }
    resp := Error(UPDATE_FAILED);
  }

  /** Id 0 creates a record; any other id updates the record with that id. */
  method Save<Row, Rec>(b: Backend<Row, Rec>, id: Usize, post: Fields)
    returns (resp: Response, calls: seq<Call>)
    ensures id == 0 ==> CreatePathOutcome(b, post, resp, calls)
    ensures id != 0 ==> UpdatePathOutcome(b, id, post, resp, calls)
  {
    if id == 0 {
      resp, calls := SaveForCreate(b, post);
    } else {
      resp, calls := SaveForUpdate(b, id, post);
    }
  }

  /** Read off the trace of any save: `validate` runs first; a write
      happens only for an accepted form, as the last call, with exactly the
      hooked whitelisted fields; it is a `create` iff the id is 0 and
      otherwise an `update` of that id; and `Ok` needs that write. */
  lemma SaveTrace<Row, Rec>(b: Backend<Row, Rec>, id: Usize, post: Fields,
                            resp: Response, calls: seq<Call>)
    requires id == 0 ==> CreatePathOutcome(b, post, resp, calls)
    requires id != 0 ==> UpdatePathOutcome(b, id, post, resp, calls)
    ensures |calls| >= 1 && calls[0] == Validate(post)
    ensures b.validate(post).Rejected? ==> resp == Error(b.validate(post).message) && |calls| == 1
    ensures forall i :: 0 <= i < |calls| && (calls[i].Create? || calls[i].Update?) ==>
              && b.validate(post) == Accepted
              && i == |calls| - 1
              && calls[i].data.values == b.saveBefore(b.checkFields(b.tableName, post, id != 0))
              && (calls[i].Create? <==> id == 0)
              && (calls[i].Update? ==> calls[i].cond == Equals("id", id))
    ensures resp == Ok ==>
              b.validate(post) == Accepted && |calls| == 4 && (calls[3].Create? || calls[3].Update?)
  {
  }

  // ---------------------------------------------------------------------
  // delete
  // ---------------------------------------------------------------------

  /** Deletes the records whose ids are listed, comma-separated, in
      `idStrings`.  Any segment that is not a `usize` aborts the request
      before anything is deleted; otherwise one `delete` runs over the
      rebuilt list, which is `idStrings` itself. */
  method Delete<Row, Rec>(b: Backend<Row, Rec>, idStrings: string)
    returns (resp: Response, calls: seq<Call>)
    ensures (exists i :: 0 <= i < |Split(idStrings)| && ParseUsize(Split(idStrings)[i]).None?) ==>
              resp == Error(BAD_PARAMETER) && calls == []
    ensures (forall i :: 0 <= i < |Split(idStrings)| ==> ParseUsize(Split(idStrings)[i]).Some?) ==>
              && calls == [DeleteRows(InRange("id", idStrings))]
              && (resp == Error(NOTHING_DELETED) <==> b.delete(InRange("id", idStrings)) == 0)
              && (resp != Error(NOTHING_DELETED) ==> resp == Ok)
  {
    var parts := Split(idStrings);
    var idsString := "";
    var index := 0;
    while index < |parts|
      invariant 0 <= index <= |parts|
      invariant forall i :: 0 <= i < index ==> ParseUsize(parts[i]).Some?
      invariant idsString == Join(parts[..index])
    {
      var value := parts[index];
      if ParseUsize(value).None? {
        return Error(BAD_PARAMETER), [];
      }
      if index > 0 {
        idsString := idsString + ",";
      }
      idsString := idsString + value;
      assert parts[..index + 1] == parts[..index] + [value];
      if index > 0 {
        JoinSnoc(parts[..index], value);
      }
      index := index + 1;
    }
    assert parts[..index] == parts;
    JoinSplit(idStrings);
    var cond := InRange("id", idsString);
    calls := [DeleteRows(cond)];
    var affectedRows := b.delete(cond);
    resp := if affectedRows == 0 then Error(NOTHING_DELETED) else Ok;
  }
}
