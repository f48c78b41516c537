/** Properties of the task store: the table invariants every handler
    preserves, the relations between consecutive requests, and the
    AUTOINCREMENT guarantees over whole sessions. */
module Properties {

  import opened Wrappers
  import opened Schema
  import opened Handlers
  import opened Server

  // ---------------------------------------------------------------------
  // The table invariants are preserved by every handler.
  // ---------------------------------------------------------------------

  lemma CreatePreservesValid(s: Store, body: TaskInput, now: string)
    requires Valid(s)
    ensures Valid(Create(s, body, now).store)
  {
  }

  lemma UpdatePreservesValid(s: Store, id: nat, body: TaskInput)
    requires Valid(s)
    ensures Valid(Update(s, id, body).store)
  {
  }

  lemma DeletePreservesValid(s: Store, id: nat)
    requires Valid(s)
    ensures Valid(Delete(s, id).store)
  {
  }

  lemma HandlePreservesValid(s: Store, req: Request)
    requires Valid(s)
    ensures Valid(Handle(s, req).store)
  {
  }

  /** Initialisation is idempotent, and a second startup after the table
      was first created still finds it empty, lists nothing, and hands out
      id 1 to the first successful create. */
  lemma CreateTableIdempotent(db: Database, body: TaskInput, now: string)
    ensures CreateTableIfNotExists(Some(CreateTableIfNotExists(db))) == CreateTableIfNotExists(db)
    ensures var s := CreateTableIfNotExists(Some(CreateTableIfNotExists(None)));
            && List(s) == Response(200, TaskList([]))
            && (Create(s, body, now).response.code == 201 ==>
                  Create(s, body, now).response.payload.task.id == 1)
  {
  }

  // ---------------------------------------------------------------------
  // create
  // ---------------------------------------------------------------------

  /** A successful create takes an id no stored row has and that is above
      every stored id, and adds exactly one row. */
  lemma CreateAssignsFreshId(s: Store, body: TaskInput, now: string)
    requires Valid(s)
    ensures var r := Create(s, body, now);
            r.response.code == 201 ==>
              && s.nextId !in s.rows
              && (forall k :: k in s.rows ==> k < s.nextId)
              && r.store.rows.Keys == s.rows.Keys + {s.nextId}
              && |r.store.rows| == |s.rows| + 1
  {
  }

  /** A rejected create writes nothing: the listing is what it was. */
  lemma CreateRejectedWritesNothing(s: Store, body: TaskInput, now: string)
    requires !Truthy(body.title) || !IncludedStatus(body.status)
    ensures Create(s, body, now) == Step(Fail(400, InvalidData), s)
    ensures List(Create(s, body, now).store) == List(s)
  {
  }

  /** Reading the created id back returns the row the create returned. */
  lemma CreateThenGet(s: Store, body: TaskInput, now: string)
    ensures var r := Create(s, body, now);
            r.response.code == 201 ==> Get(r.store, s.nextId) == Response(200, r.response.payload)
  {
  }

  // ---------------------------------------------------------------------
  // update
  // ---------------------------------------------------------------------

  /** Reading the updated id back returns the row the update returned. */
  lemma UpdateThenGet(s: Store, id: nat, body: TaskInput)
    ensures var r := Update(s, id, body);
            r.response.code == 200 ==> Get(r.store, id) == r.response
  {
  }

  /** Repeating an update changes nothing further and answers the same. */
  lemma UpdateIdempotent(s: Store, id: nat, body: TaskInput)
    ensures var r := Update(s, id, body);
            Update(r.store, id, body) == r
  {
  }

  /** A supplied status outside the three values is refused with 400 and
      the row is left exactly as it was, whatever else the body holds. */
  lemma UpdateInvalidStatusKeepsRow(s: Store, id: nat, body: TaskInput)
    requires id in s.rows
    requires body.status.Some? && !IsStatus(body.status.value)
    ensures Update(s, id, body) == Step(Fail(400, InvalidStatus), s)
  {
  }

  /** An unknown id answers 404 before the body is looked at, even when
      the body's status is not one of the three values. */
  lemma UpdateNotFoundFirst(s: Store, id: nat, body: TaskInput)
    requires id !in s.rows
    requires body.status.Some? && !IsStatus(body.status.value)
    ensures Update(s, id, body).response == Fail(404, TaskNotFound)
    ensures Update(s, id, body).store == s
  {
  }

  /** Update re-checks only the status: an empty title, which create
      refuses, is written by update. */
  lemma UpdateAcceptsEmptyTitle(s: Store, id: nat)
    requires Valid(s) && id in s.rows
    ensures var r := Update(s, id, TaskInput(Some(""), None, None));
            && r.response.code == 200
            && r.store.rows[id].title == ""
            && r.store.rows[id].description == s.rows[id].description
            && r.store.rows[id].status == s.rows[id].status
  {
  }

  /** Setting only the status keeps title, description and creation time. */
  lemma UpdateStatusOnly(s: Store, id: nat, status: string)
    requires id in s.rows && IsStatus(status)
    ensures var r := Update(s, id, TaskInput(None, None, Some(status)));
            && r.response.code == 200
            && r.store.rows[id] == s.rows[id].(status := status)
  {
  }

  // ---------------------------------------------------------------------
  // delete
  // ---------------------------------------------------------------------

  /** A second delete of the same id finds nothing and changes nothing. */
  lemma DeleteTwiceNotFound(s: Store, id: nat)
    ensures var r := Delete(Delete(s, id).store, id);
            r.response == Fail(404, TaskNotFound) && r.store == Delete(s, id).store
  {
  }

  lemma DeleteThenGet(s: Store, id: nat)
    ensures Get(Delete(s, id).store, id) == Fail(404, TaskNotFound)
  {
  }

  /** A create after a delete never hands out the deleted id again. */
  lemma DeleteThenCreateFreshId(s: Store, id: nat, body: TaskInput, now: string)
    requires Valid(s) && id in s.rows
    ensures var d := Delete(s, id).store;
            var r := Create(d, body, now);
            r.response.code == 201 ==>
              r.response.payload.task.id > id && id !in r.store.rows
  {
  }

  // ---------------------------------------------------------------------
  // list
  // ---------------------------------------------------------------------

  /** Taking off a first element that does not recur removes exactly one
      element from the set of elements. */
  lemma CardSplitFirst(ks: seq<nat>)
    requires |ks| > 0 && ks[0] !in ks[1..]
    ensures |set k: nat | k in ks| == |set k: nat | k in ks[1..]| + 1
  {
    var rest := set k: nat | k in ks[1..];
    assert ks == [ks[0]] + ks[1..];
    assert (set k: nat | k in ks) == rest + {ks[0]};
    assert |rest + {ks[0]}| == |rest| + 1;
  }

  /** A strictly ascending sequence has no repeats, so it is as long as
      the set of its elements is large. */
  lemma {:induction false} AscendingCard(ks: seq<nat>)
    requires forall i, j :: 0 <= i < j < |ks| ==> ks[i] < ks[j]
    ensures |set k: nat | k in ks| == |ks|
  {
    if |ks| > 0 {
      AscendingCard(ks[1..]);
      assert ks[0] !in ks[1..] by {
        forall i | 0 <= i < |ks| - 1 ensures ks[1..][i] != ks[0] {
          assert ks[i + 1] == ks[1..][i];
        }
      }
      CardSplitFirst(ks);
    }
  }

  /** The listing holds each stored row exactly once. */
  lemma ListCount(s: Store)
    requires Valid(s)
    ensures |List(s).payload.tasks| == |s.rows|
  {
    var ks := KeysBelow(s.rows, s.nextId);
    AscendingCard(ks);
    assert (set k: nat | k in ks) == s.rows.Keys by {
      forall k | k in s.rows ensures k in ks {
        assert ValidRow(k, s.rows[k], s.nextId);
      }
    }
  }

  // ---------------------------------------------------------------------
  // sessions
  // ---------------------------------------------------------------------

  /** Over one request, a row that survives keeps its id and creation
      time, and an id below the counter that is free stays free. */
  lemma HandleKeepsIdentity(s: Store, req: Request)
    requires Valid(s)
    ensures var t := Handle(s, req).store;
            forall k :: k in s.rows && k in t.rows ==>
              t.rows[k].id == s.rows[k].id && t.rows[k].createdAt == s.rows[k].createdAt
    ensures var t := Handle(s, req).store;
            forall k :: k !in s.rows && k < s.nextId ==> k !in t.rows
  {
  }

  /** Over a session: the invariants hold at the end, ids are never reused
      (the ids handed out are strictly increasing, all at or above the
      starting counter, so none is a stored or deleted id), a freed id stays
      free, and surviving rows keep their id and creation time. */
  lemma {:induction false} RunGuarantees(s: Store, reqs: seq<Request>)
    requires Valid(s)
    ensures var r := Run(s, reqs);
            && Valid(r.store)
            && (forall i, j :: 0 <= i < j < |CreatedIds(r.responses)| ==>
                  CreatedIds(r.responses)[i] < CreatedIds(r.responses)[j])
            && (forall i :: 0 <= i < |CreatedIds(r.responses)| ==>
                  s.nextId <= CreatedIds(r.responses)[i] < r.store.nextId &&
                  CreatedIds(r.responses)[i] !in s.rows)
            && (forall k :: k !in s.rows && k < s.nextId ==> k !in r.store.rows)
            && (forall k :: k in s.rows && k in r.store.rows ==>
                  r.store.rows[k].id == s.rows[k].id &&
                  r.store.rows[k].createdAt == s.rows[k].createdAt)
    decreases |reqs|
  {
    if |reqs| > 0 {
      var step := Handle(s, reqs[0]);
      var t := step.store;
      HandlePreservesValid(s, reqs[0]);
      HandleKeepsIdentity(s, reqs[0]);
      RunGuarantees(t, reqs[1..]);
      var rest := Run(t, reqs[1..]);
      var r := Run(s, reqs);
      assert r.responses[1..] == rest.responses;
      var ids: seq<nat> := CreatedIds(r.responses);
      var tail: seq<nat> := CreatedIds(rest.responses);
      assert ids == (if step.response.code == 201 && step.response.payload.OneTask?
                     then [step.response.payload.task.id] else []) + tail;
      assert forall k :: k in s.rows ==> k < s.nextId by {
        forall k | k in s.rows ensures k < s.nextId {
          assert ValidRow(k, s.rows[k], s.nextId);
        }
      }
      forall k | k in s.rows && k in r.store.rows
        ensures r.store.rows[k].id == s.rows[k].id &&
                r.store.rows[k].createdAt == s.rows[k].createdAt
      {
        assert ValidRow(k, s.rows[k], s.nextId);
        assert k in t.rows;
      }
    }
  }

  /** A session on a new table: create "A" (id 1, empty description),
      list it, delete it, and find it gone. */
  lemma FreshTableSession(ts: string)
    ensures var s := CreateTableIfNotExists(None);
            var row := Task(1, "A", "", Pending, ts);
            Run(s, [ PostTask(TaskInput(Some("A"), None, Some(Pending)), ts),
                     GetTasks,
                     DeleteTask(1),
                     GetTask(1) ]).responses
            == [ Response(201, OneTask(row)),
                 Response(200, TaskList([row])),
                 Response(204, NoBody),
                 Fail(404, TaskNotFound) ]
  {
    var s0 := CreateTableIfNotExists(None);
    var row := Task(1, "A", "", Pending, ts);
    var reqs := [ PostTask(TaskInput(Some("A"), None, Some(Pending)), ts),
                  GetTasks,
                  DeleteTask(1),
                  GetTask(1) ];
    var s1 := Store(map[1 := row], 2);
    var s2 := Store(map[], 2);
    assert Handle(s0, reqs[0]) == Step(Response(201, OneTask(row)), s1);
    assert KeysBelow(s1.rows, 0) == [];
    assert KeysBelow(s1.rows, 1) == [];
    assert KeysBelow(s1.rows, 2) == [1];
    assert Handle(s1, reqs[1]) == Step(Response(200, TaskList([row])), s1);
    assert Handle(s1, reqs[2]) == Step(Response(204, NoBody), s2);
    assert Handle(s2, reqs[3]) == Step(Fail(404, TaskNotFound), s2);
    assert Run(s2, reqs[4..]).responses == [];
    assert Run(s2, reqs[3..]).responses == [Fail(404, TaskNotFound)];
    assert Run(s1, reqs[2..]).responses == [Response(204, NoBody), Fail(404, TaskNotFound)];
    assert Run(s1, reqs[1..]).responses ==
           [Response(200, TaskList([row])), Response(204, NoBody), Fail(404, TaskNotFound)];
  }
}
