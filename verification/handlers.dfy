/** The five `/tasks` route handlers, each a pure function from the store
    (and the request's parameters) to the HTTP response and the new store. */
module Handlers {

  import opened Wrappers
  import opened Schema

  const InvalidData: string := "Datos inválidos"
  const InvalidStatus: string := "Estado inválido"
  const TaskNotFound: string := "Tarea no encontrada"

  /** The JSON body `{ title, description, status }` of POST and PUT. */
  datatype TaskInput = TaskInput(
    title: Option<string>,
    description: Option<string>,
    status: Option<string>
  )

  /** What a response carries: one row, an array of rows, an `{ error }`
      object, or nothing (204). */
  datatype Payload =
    | OneTask(task: Task)
    | TaskList(tasks: seq<Task>)
    | ErrorMessage(error: string)
    | NoBody

  datatype Response = Response(code: nat, payload: Payload)

  /** The outcome of one handler: its response and the store after it. */
  datatype Step = Step(response: Response, store: Store)

  function Fail(code: nat, message: string): Response {
    Response(code, ErrorMessage(message))
  }

  /** JavaScript truthiness of an optional string field: absent, `null`
      and `""` are falsy. */
  predicate Truthy(o: Option<string>) {
    o.Some? && o.value != ""
  }

  /** `['pending', 'in_progress', 'done'].includes(status)`: an absent
      status is not included. */
  predicate IncludedStatus(o: Option<string>) {
    o.Some? && IsStatus(o.value)
  }

  /** POST /tasks. Validation happens before anything is written; the new
      row takes the next AUTOINCREMENT id and the supplied timestamp, and
      the response is that row read back by its id. */
  function Create(s: Store, body: TaskInput, now: string): (r: Step)
    ensures r.response.code == 201 || r.response.code == 400
    ensures r.response.code == 201 <==>
              body.title.Some? && body.title.value != "" &&
              body.status.Some? && body.status.value in Statuses
    ensures r.response.code == 400 ==>
              r.response == Fail(400, InvalidData) && r.store == s
    ensures r.response.code == 201 ==>
              && s.nextId in r.store.rows
              && r.response.payload == OneTask(r.store.rows[s.nextId])
              && r.store.rows[s.nextId].id == s.nextId
              && r.store.rows[s.nextId].title == body.title.value
              && r.store.rows[s.nextId].status == body.status.value
              && r.store.rows[s.nextId].createdAt == now
              && (body.description.None? ==> r.store.rows[s.nextId].description == "")
              && (body.description.Some? ==>
                    r.store.rows[s.nextId].description == body.description.value)
              && r.store.nextId == s.nextId + 1
    ensures forall k :: k != s.nextId ==>
              (k in r.store.rows <==> k in s.rows) &&
              (k in s.rows ==> r.store.rows[k] == s.rows[k])
  {
    if !Truthy(body.title) || !IncludedStatus(body.status) then
      Step(Fail(400, InvalidData), s)
    else
      var id := s.nextId;
      var description := if Truthy(body.description) then body.description.value else "";
      var row := Task(id, body.title.value, description, body.status.value, now);
      var s' := Store(s.rows[id := row], id + 1);
      Step(Response(201, OneTask(s'.rows[id])), s')
  }

  /** The keys of `rows` below `n`, in ascending order: the scan behind
      `SELECT * FROM tasks`. */
  function KeysBelow(rows: map<nat, Task>, n: nat): (ks: seq<nat>)
    ensures forall i, j :: 0 <= i < j < |ks| ==> ks[i] < ks[j]
    ensures forall k :: k in ks <==> k in rows && k < n
  {
    if n == 0 then []
    else
      var prefix := KeysBelow(rows, n - 1);
      assert forall i :: 0 <= i < |prefix| ==> prefix[i] < n - 1 by {
        forall i | 0 <= i < |prefix| ensures prefix[i] < n - 1 {
          assert prefix[i] in prefix;
        }
      }
      if n - 1 in rows then prefix + [n - 1] else prefix
  }

  /** The rows at the keys `ks` list exactly the stored rows, in ascending
      id order, when `ks` are all the keys below the counter in ascending
      order and the store satisfies the table invariants. */
  lemma RowsAtKeys(s: Store, ks: seq<nat>, tasks: seq<Task>)
    requires forall k :: k in ks <==> k in s.rows && k < s.nextId
    requires |tasks| == |ks|
    requires forall i :: 0 <= i < |ks| ==> tasks[i] == s.rows[ks[i]]
    ensures Valid(s) ==> forall t :: t in tasks <==> t in s.rows.Values
    ensures Valid(s) && (forall i, j :: 0 <= i < j < |ks| ==> ks[i] < ks[j]) ==>
              forall i, j :: 0 <= i < j < |tasks| ==> tasks[i].id < tasks[j].id
  {
  }

  /** GET /tasks: every stored row, in ascending id order (the order of
      SQLite's rowid scan; the handler itself asks for none). */
  function List(s: Store): (r: Response)
    ensures r.code == 200 && r.payload.TaskList?
    ensures Valid(s) ==>
              forall t :: t in r.payload.tasks <==> t in s.rows.Values
    ensures Valid(s) ==>
              forall i, j :: 0 <= i < j < |r.payload.tasks| ==>
                r.payload.tasks[i].id < r.payload.tasks[j].id
  {
    var ks := KeysBelow(s.rows, s.nextId);
    var tasks := seq(|ks|, i requires 0 <= i < |ks| => s.rows[ks[i]]);
    RowsAtKeys(s, ks, tasks);
    Response(200, TaskList(tasks))
  }

  /** GET /tasks/:id. */
  function Get(s: Store, id: nat): (r: Response)
    ensures r.code == 200 <==> id in s.rows
    ensures id in s.rows ==> r.payload == OneTask(s.rows[id])
    ensures id !in s.rows ==> r == Fail(404, TaskNotFound)
  {
    if id in s.rows then Response(200, OneTask(s.rows[id])) else Fail(404, TaskNotFound)
  }

  /** The row PUT writes: each supplied field replaces the stored one
      (`??`), an absent or `null` field keeps it; `id` and `createdAt` are
      not columns of the UPDATE. */
  function Merge(before: Task, body: TaskInput): (after: Task)
    ensures after.id == before.id && after.createdAt == before.createdAt
    ensures body.title.Some? ==> after.title == body.title.value
    ensures body.title.None? ==> after.title == before.title
    ensures body.description.Some? ==> after.description == body.description.value
    ensures body.description.None? ==> after.description == before.description
    ensures body.status.Some? ==> after.status == body.status.value
    ensures body.status.None? ==> after.status == before.status
  {
    before.(
      title := body.title.GetOr(before.title),
      description := body.description.GetOr(before.description),
      status := body.status.GetOr(before.status))
  }

  /** PUT /tasks/:id: lookup first (404), then merge, then check only the
      merged status (400), then write and read the row back. */
  function Update(s: Store, id: nat, body: TaskInput): (r: Step)
    ensures r.store.nextId == s.nextId
    ensures id !in s.rows ==> r == Step(Fail(404, TaskNotFound), s)
    ensures r.response.code == 400 ==>
              r.response == Fail(400, InvalidStatus) && r.store == s
    ensures id in s.rows ==>
              (r.response.code == 200 <==> IsStatus(Merge(s.rows[id], body).status)) &&
              (r.response.code == 400 <==> !IsStatus(Merge(s.rows[id], body).status))
    ensures r.response.code == 200 ==>
              && id in s.rows && id in r.store.rows
              && r.store.rows[id] == Merge(s.rows[id], body)
              && r.response.payload == OneTask(r.store.rows[id])
    ensures r.store.rows.Keys == s.rows.Keys
    ensures forall k :: k in s.rows && k != id ==> r.store.rows[k] == s.rows[k]
  {
    if id !in s.rows then
      Step(Fail(404, TaskNotFound), s)
    else
      var updated := Merge(s.rows[id], body);
      if !IsStatus(updated.status) then
        Step(Fail(400, InvalidStatus), s)
      else
        var s' := s.(rows := s.rows[id := updated]);
        Step(Response(200, OneTask(s'.rows[id])), s')
  }

  /** How many rows `DELETE FROM tasks WHERE id = ?` removes. */
  function Changes(s: Store, id: nat): nat {
    if id in s.rows then 1 else 0
  }

  /** DELETE /tasks/:id: 404 exactly when no row changed, 204 otherwise. */
  function Delete(s: Store, id: nat): (r: Step)
    ensures r.store.nextId == s.nextId
    ensures r.response.code == 204 <==> id in s.rows
    ensures id !in s.rows ==> r == Step(Fail(404, TaskNotFound), s)
    ensures id in s.rows ==> r.response == Response(204, NoBody)
    ensures r.store.rows.Keys == s.rows.Keys - {id}
    ensures forall k :: k in r.store.rows ==> r.store.rows[k] == s.rows[k]
  {
    if Changes(s, id) == 0 then
      Step(Fail(404, TaskNotFound), s)
    else
      Step(Response(204, NoBody), s.(rows := s.rows - {id}))
  }
}
