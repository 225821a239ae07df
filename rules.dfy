/** The rules of the `/videos` collection as pure functions of the table: the
    request validators, the truthiness merge of an update, and for each handler the
    response it sends and the table it leaves. The `videos` table is a map from id
    to row. */
module Rules {
  import opened Js
  import opened Models
  import opened Http

  type Table = map<string, Row>

  /** Every row sits under its own id: the table's primary key is the `id` column. */
  predicate WellKeyed(t: Table)
  {
    forall k :: k in t ==> t[k].id == k
  }

  const IdNotString := "'id' deve ser string"
  const TitleNotString := "'title' deve ser string"
  const DurationNotNumber := "'duration' deve ser number"
  const IdExists := "'id' já existe"
  const IdNotFound := "'id' não encontrado"
  const NothingToUpdate := "'title' e/ou 'duration' devem existir para fazer a edição"
  const Created := "Vídeo enviado com sucesso"
  const Updated := "Vídeo atualizado"
  const Deleted := "Vídeo excluído com sucesso"

  datatype Result<T> = Ok(value: T) | Err(message: string)

  /** The fields of a create request that passed its type checks. */
  datatype NewVideo = NewVideo(id: string, title: string, duration: int)

  /** The type checks of a create request, in the order the handler runs them; the
      message is that of the first check that fails. */
  function ValidateCreate(body: map<string, JsValue>): (r: Result<NewVideo>)
    ensures !Field(body, "id").JStr? ==> r == Err(IdNotString)
    ensures Field(body, "id").JStr? && !Field(body, "title").JStr? ==> r == Err(TitleNotString)
    ensures Field(body, "id").JStr? && Field(body, "title").JStr? && !Field(body, "duration").JNum?
            ==> r == Err(DurationNotNumber)
    ensures r.Ok? <==> Field(body, "id").JStr? && Field(body, "title").JStr? && Field(body, "duration").JNum?
    ensures r.Ok? ==> r.value == NewVideo(Field(body, "id").s, Field(body, "title").s, Field(body, "duration").n)
  {
    var id, title, duration := Field(body, "id"), Field(body, "title"), Field(body, "duration");
    if TypeOf(id) != "string" then Err(IdNotString)
    else if TypeOf(title) != "string" then Err(TitleNotString)
    else if TypeOf(duration) != "number" then Err(DurationNotNumber)
    else Ok(NewVideo(id.s, title.s, duration.n))
  }

  /** The title and duration of an update request, as given. */
  datatype Patch = Patch(title: JsValue, duration: JsValue)

  /** A patch that passed the update checks: each field absent or of the right type. */
  predicate WellTyped(p: Patch)
  {
    (p.title.JUndefined? || p.title.JStr?) && (p.duration.JUndefined? || p.duration.JNum?)
  }

  /** The checks of an update request that follow the lookup, in the handler's order.
      "Absent" here means falsy: an explicit "" title together with a 0 duration is
      refused as if neither were given. A null field is not undefined, so it fails
      the type check when the other field is truthy. */
  function ValidateUpdate(body: map<string, JsValue>): (r: Result<Patch>)
    ensures !Truthy(Field(body, "title")) && !Truthy(Field(body, "duration")) ==> r == Err(NothingToUpdate)
    ensures (Truthy(Field(body, "title")) || Truthy(Field(body, "duration")))
            && !(Field(body, "title").JUndefined? || Field(body, "title").JStr?)
            ==> r == Err(TitleNotString)
    ensures (Truthy(Field(body, "title")) || Truthy(Field(body, "duration")))
            && (Field(body, "title").JUndefined? || Field(body, "title").JStr?)
            && !(Field(body, "duration").JUndefined? || Field(body, "duration").JNum?)
            ==> r == Err(DurationNotNumber)
    ensures r.Ok? <==> (Truthy(Field(body, "title")) || Truthy(Field(body, "duration")))
                       && WellTyped(Patch(Field(body, "title"), Field(body, "duration")))
    ensures r.Ok? ==> r.value == Patch(Field(body, "title"), Field(body, "duration"))
  {
    var title, duration := Field(body, "title"), Field(body, "duration");
    if !Truthy(title) && !Truthy(duration) then Err(NothingToUpdate)
    else if title != JUndefined && TypeOf(title) != "string" then Err(TitleNotString)
    else if duration != JUndefined && TypeOf(duration) != "number" then Err(DurationNotNumber)
    else Ok(Patch(title, duration))
  }

  /** The row an update writes: `title || current.title` and `duration || current.duration`,
      with the current id and upload. A supplied "" or 0 is discarded for the current value. */
  function MergedRow(current: Row, p: Patch): (r: Row)
    requires WellTyped(p)
    ensures r.id == current.id && r.upload == current.upload
    ensures r.title == (if p.title.JStr? && p.title.s != "" then p.title.s else current.title)
    ensures r.duration == (if p.duration.JNum? && p.duration.n != 0 then p.duration.n else current.duration)
  {
    var title := Or(p.title, JStr(current.title));
    var duration := Or(p.duration, JNum(current.duration));
    Row(current.id, title.s, duration.n, current.upload)
  }

  /** What a handler leaves behind: the response sent and the new table. */
  datatype Outcome = Outcome(response: Response, table: Table)

  /** A handler that set `status` and threw an `Error` with `message`, table untouched. */
  function Refused(status: int, reqStatus: Option<int>, message: string, table: Table): Outcome
  {
    Outcome(CatchResponse(status, reqStatus, ErrorObj(message)), table)
  }

  /** A query that threw before any `res.status(...)`, table as it stands. */
  function Crashed(reqStatus: Option<int>, fault: Fault, table: Table): Outcome
    requires fault.FailAt?
  {
    Outcome(CatchResponse(DefaultStatus, reqStatus, fault.thrown), table)
  }

  /** Create runs its queries in order: 0 looks the id up, 1 inserts, 2 reads the row back. */
  predicate CreateInserts(table: Table, body: map<string, JsValue>, fault: Fault)
  {
    && ValidateCreate(body).Ok?
    && !Throws(fault, 0)
    && ValidateCreate(body).value.id !in table
    && !Throws(fault, 1)
  }

  function NewRow(v: NewVideo, now: string): Row
  {
    Row(v.id, v.title, v.duration, now)
  }

  /** POST /videos. */
  function CreateRule(table: Table, body: map<string, JsValue>, reqStatus: Option<int>, fault: Fault, now: string): (r: Outcome)
    // the type checks, in order, before any query
    ensures ValidateCreate(body).Err? ==> r == Refused(400, reqStatus, ValidateCreate(body).message, table)
    // then the duplicate-id check
    ensures ValidateCreate(body).Ok? && !Throws(fault, 0) && ValidateCreate(body).value.id in table
            ==> r == Refused(400, reqStatus, IdExists, table)
    // a query that throws goes to the catch block with the status still at its default
    ensures ValidateCreate(body).Ok? && Throws(fault, 0) ==> r == Crashed(reqStatus, fault, table)
    ensures ValidateCreate(body).Ok? && ValidateCreate(body).value.id !in table && Throws(fault, 1)
            ==> r == Crashed(reqStatus, fault, table)
    ensures CreateInserts(table, body, fault) && Throws(fault, 2)
            ==> r.response == CatchResponse(DefaultStatus, reqStatus, fault.thrown)
    // at most one new entry, at a fresh id, with upload = now; every other entry kept
    ensures r.table == if CreateInserts(table, body, fault)
                       then table[ValidateCreate(body).value.id := NewRow(ValidateCreate(body).value, now)]
                       else table
    ensures forall k :: k in table ==> k in r.table && r.table[k] == table[k]
    // 201 exactly when the insert and the read-back both completed, with the stored row
    ensures r.response.status == 201 <==> CreateInserts(table, body, fault) && !Throws(fault, 2)
    ensures r.response.status == 201 ==>
              r.response.body == MessageAndRow(Created, NewRow(ValidateCreate(body).value, now))
    ensures WellKeyed(table) ==> WellKeyed(r.table)
  {
    match ValidateCreate(body)
    case Err(message) => Refused(400, reqStatus, message, table)
    case Ok(v) =>
      if Throws(fault, 0) then Crashed(reqStatus, fault, table)
      else if v.id in table then Refused(400, reqStatus, IdExists, table)
      else if Throws(fault, 1) then Crashed(reqStatus, fault, table)
      else
        var table' := table[v.id := NewRow(v, now)];
        if Throws(fault, 2) then Crashed(reqStatus, fault, table')
        else Outcome(Response(201, MessageAndRow(Created, table'[v.id])), table')
  }

  /** Update runs its queries in order: 0 looks the id up, 1 overwrites the row. */
  predicate UpdateWrites(table: Table, id: string, body: map<string, JsValue>, fault: Fault)
  {
    && !Throws(fault, 0)
    && id in table
    && ValidateUpdate(body).Ok?
    && !Throws(fault, 1)
  }

  /** PUT /videos/:id. */
  function UpdateRule(table: Table, id: string, body: map<string, JsValue>, reqStatus: Option<int>, fault: Fault): (r: Outcome)
    ensures Throws(fault, 0) ==> r == Crashed(reqStatus, fault, table)
    // the lookup comes first: a missing id is 404 whatever the body holds
    ensures !Throws(fault, 0) && id !in table ==> r == Refused(404, reqStatus, IdNotFound, table)
    ensures !Throws(fault, 0) && id in table && ValidateUpdate(body).Err?
            ==> r == Refused(400, reqStatus, ValidateUpdate(body).message, table)
    ensures !Throws(fault, 0) && id in table && ValidateUpdate(body).Ok? && Throws(fault, 1)
            ==> r == Crashed(reqStatus, fault, table)
    // only the entry at id changes, to the merged row
    ensures r.table == if UpdateWrites(table, id, body, fault)
                       then table[id := MergedRow(table[id], ValidateUpdate(body).value)]
                       else table
    ensures forall k :: k in table ==> k in r.table && r.table[k].id == table[k].id
                                       && r.table[k].upload == table[k].upload
    ensures r.table.Keys == table.Keys
    ensures r.response.body.MessageAndRow? <==> UpdateWrites(table, id, body, fault)
    ensures UpdateWrites(table, id, body, fault) ==>
              r.response == Response(200, MessageAndRow(Updated, r.table[id]))
    ensures WellKeyed(table) ==> WellKeyed(r.table)
  {
    if Throws(fault, 0) then Crashed(reqStatus, fault, table)
    else if id !in table then Refused(404, reqStatus, IdNotFound, table)
    else match ValidateUpdate(body)
      case Err(message) => Refused(400, reqStatus, message, table)
      case Ok(p) =>
        var row := MergedRow(table[id], p);
        if Throws(fault, 1) then Crashed(reqStatus, fault, table)
        else Outcome(Response(200, MessageAndRow(Updated, row)), table[id := row])
  }

  /** Delete runs its queries in order: 0 looks the id up, 1 removes the row. */
  predicate DeleteRemoves(table: Table, id: string, fault: Fault)
  {
    !Throws(fault, 0) && id in table && !Throws(fault, 1)
  }

  /** DELETE /videos/:id. */
  function DeleteRule(table: Table, id: string, reqStatus: Option<int>, fault: Fault): (r: Outcome)
    ensures Throws(fault, 0) ==> r == Crashed(reqStatus, fault, table)
    ensures !Throws(fault, 0) && id !in table ==> r == Refused(404, reqStatus, IdNotFound, table)
    ensures !Throws(fault, 0) && id in table && Throws(fault, 1) ==> r == Crashed(reqStatus, fault, table)
    // exactly the key id goes, and only after a completed delete
    ensures r.table == if DeleteRemoves(table, id, fault) then table - {id} else table
    ensures id !in r.table <==> id !in table || DeleteRemoves(table, id, fault)
    ensures forall k :: k in table && k != id ==> k in r.table && r.table[k] == table[k]
    ensures r.response.body == Message(Deleted) <==> DeleteRemoves(table, id, fault)
    ensures DeleteRemoves(table, id, fault) ==> r.response.status == 200
    ensures WellKeyed(table) ==> WellKeyed(r.table)
  {
    if Throws(fault, 0) then Crashed(reqStatus, fault, table)
    else if id !in table then Refused(404, reqStatus, IdNotFound, table)
    else if Throws(fault, 1) then Crashed(reqStatus, fault, table)
    else Outcome(Response(200, Message(Deleted)), table - {id})
  }

  /** The requests that change the table (a list leaves it as it is). */
  datatype Op =
    | ListVideos
    | CreateVideo(body: map<string, JsValue>)
    | UpdateVideo(id: string, body: map<string, JsValue>)
    | DeleteVideo(id: string)

  /** One request: the operation, the request's own status, the database fault that
      hits it (if any) and the clock reading when it is handled. */
  datatype Request = Request(op: Op, reqStatus: Option<int>, fault: Fault, now: string)

  /** The table after one request. */
  function Step(table: Table, req: Request): Table
  {
    match req.op
    case ListVideos => table
    case CreateVideo(body) => CreateRule(table, body, req.reqStatus, req.fault, req.now).table
    case UpdateVideo(id, body) => UpdateRule(table, id, body, req.reqStatus, req.fault).table
    case DeleteVideo(id) => DeleteRule(table, id, req.reqStatus, req.fault).table
  }

  /** The table after requests handled one after the other. */
  function Run(table: Table, reqs: seq<Request>): Table
    decreases |reqs|
  {
    if reqs == [] then table else Run(Step(table, reqs[0]), reqs[1..])
  }

  /** Whatever the requests, every row stays under its own id. */
  lemma {:induction false} RunKeepsWellKeyed(table: Table, reqs: seq<Request>)
    requires WellKeyed(table)
    ensures WellKeyed(Run(table, reqs))
    decreases |reqs|
  {
    if reqs != [] {
      RunKeepsWellKeyed(Step(table, reqs[0]), reqs[1..]);
    }
  }

  predicate DeletesKey(req: Request, k: string)
  {
    req.op.DeleteVideo? && req.op.id == k
  }

  /** A stored row keeps its id and its upload time for as long as no request asks to
      delete it: create never overwrites, update changes only title and duration. */
  lemma {:induction false} RowIdentityStable(table: Table, reqs: seq<Request>, k: string)
    requires k in table
    requires forall i :: 0 <= i < |reqs| ==> !DeletesKey(reqs[i], k)
    ensures k in Run(table, reqs)
    ensures Run(table, reqs)[k].id == table[k].id
    ensures Run(table, reqs)[k].upload == table[k].upload
    decreases |reqs|
  {
    if reqs != [] {
      var next := Step(table, reqs[0]);
      assert !DeletesKey(reqs[0], k);
      assert k in next && next[k].id == table[k].id && next[k].upload == table[k].upload;
      RowIdentityStable(next, reqs[1..], k);
      assert Run(table, reqs) == Run(next, reqs[1..]);
    }
  }

  /** The request sequence of the service's usage scenario, for a server-side request
      (status null, `None`) with no database failure: create "v1", change its duration,
      delete it. */
  lemma CreateUpdateDeleteScenario(table: Table, now: string)
    requires "v1" !in table
    ensures var c := CreateRule(table, map["id" := JStr("v1"), "title" := JStr("Intro"), "duration" := JNum(120)], None, NoFault, now);
            && c.response.status == 201
            && c.table["v1"] == Row("v1", "Intro", 120, now)
            && var u := UpdateRule(c.table, "v1", map["duration" := JNum(180)], None, NoFault);
            && u.response.status == 200
            && u.table["v1"] == Row("v1", "Intro", 180, now)
            && var d := DeleteRule(u.table, "v1", None, NoFault);
            && d.response.status == 200
            && "v1" !in d.table
            && d.table == table
  {
  }
}
