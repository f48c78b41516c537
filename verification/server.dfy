/** Routing: a request names one of the five handlers, and a session is a
    sequence of requests served one after another against one store. */
module Server {

  import opened Schema
  import opened Handlers

  /** A request as routed by method and path. The clock reading that
      POST stamps into `created_at` travels with the request. */
  datatype Request =
    | PostTask(body: TaskInput, now: string)
    | GetTasks
    | GetTask(id: nat)
    | PutTask(id: nat, body: TaskInput)
    | DeleteTask(id: nat)

  /** Dispatch one request. Only POST, PUT and DELETE can change the store,
      and the AUTOINCREMENT counter moves only on a 201. */
  function Handle(s: Store, req: Request): (r: Step)
    ensures (req.GetTasks? || req.GetTask?) ==> r.store == s
    ensures r.response.code == 201 <==>
              req.PostTask? && Create(s, req.body, req.now).response.code == 201
    ensures r.response.code == 201 ==>
              r.store.nextId == s.nextId + 1 &&
              r.response.payload.OneTask? && r.response.payload.task.id == s.nextId
    ensures r.response.code != 201 ==> r.store.nextId == s.nextId
  {
    match req
    case PostTask(body, now) => Create(s, body, now)
    case GetTasks => Step(List(s), s)
    case GetTask(id) => Step(Get(s, id), s)
    case PutTask(id, body) => Update(s, id, body)
    case DeleteTask(id) => Delete(s, id)
  }

  /** The responses of a session, in request order, and the final store. */
  datatype Session = Session(responses: seq<Response>, store: Store)

  /** Serve `reqs` in order, each against the store the previous one left. */
  function Run(s: Store, reqs: seq<Request>): (r: Session)
    ensures |r.responses| == |reqs|
    ensures s.nextId <= r.store.nextId
    decreases |reqs|
  {
    if |reqs| == 0 then Session([], s)
    else
      var step := Handle(s, reqs[0]);
      var rest := Run(step.store, reqs[1..]);
      Session([step.response] + rest.responses, rest.store)
  }

  /** The ids of the rows created in a session, in the order of the 201
      responses that returned them. */
  function CreatedIds(rs: seq<Response>): seq<nat> {
    if |rs| == 0 then []
    else
      var head := if rs[0].code == 201 && rs[0].payload.OneTask? then [rs[0].payload.task.id] else [];
      head + CreatedIds(rs[1..])
  }
}
