# Task store of the `/tasks` CRUD service

A Dafny model of the task store behind the Express handlers of a small
task-tracking API backed by SQLite. The store is an immutable value: a map
from id to row plus the AUTOINCREMENT counter that hands out the next id.
Each handler is a pure function from the store and the request to the HTTP
response (status code and JSON payload) and the store after the request.

- `wrappers.dfy` — `Option`, used for request-body fields. `None` stands for
  a field that is absent or JSON `null`.
- `schema.dfy` — module `Schema`: the `tasks` row (`Task`), the three status
  values, the store (`Store`), and the table invariants (`Valid`). Those are
  the CHECK constraint on `status`, ids above zero and below the counter, and
  each row's `id` column equal to its key. Also the create-if-absent table
  initialisation.
- `handlers.dfy` — module `Handlers`: POST, GET all, GET one, PUT and DELETE
  on `/tasks`. Error bodies carry the source's own messages: `"Datos inválidos"`
  (400 on create), `"Estado inválido"` (400 on update), `"Tarea no encontrada"`
  (404).
- `server.dfy` — module `Server`: routing one request to its handler, and
  running a session of requests in order.
- `properties.dfy` — module `Properties`: every handler preserves the table
  invariants, and the relations between handlers hold (create then get, update
  then get, delete then get, delete twice). It also proves that ids are never
  reused over any session.

`index.js` and `tests/app.js` hold the same five handlers line for line, so
one model covers both. Each handler is cited below at whichever copy states
the property most directly.

The clock is a parameter: `PostTask` carries the timestamp that POST writes
into `created_at`. Ids are natural numbers. The string route parameter is not
modelled, since SQLite compares it with the integer key.

Points where the model spells out what the code does beyond its own API
annotations:
- The Swagger block for POST (index.js:30-32) lists `title` and `status` as
  required, and the block for PUT (index.js:126-133) requires nothing. The code
  checks for a non-empty title only on create. On update,
  `title ?? task.title` keeps a supplied `""`, and only the merged status is
  checked, so an update may write an empty title
  (`Properties.UpdateAcceptsEmptyTitle`).
- Update's read-merge-write runs without a transaction (index.js:144-161).
  The model is sequential, so no other writer can come between the read and
  the write.
- `list` in the code asks for no order. The model returns rows in ascending id
  order, which is SQLite's rowid-scan order. The contract states the contents
  exactly and states the order as the model's choice.

## Model

| member | source | states |
|---|---|---|
| Schema.CreateTableIfNotExists | db.js:26-34 | an existing table is kept unchanged; a missing one is created empty with its AUTOINCREMENT counter at 1, satisfying the table invariants |
| Handlers.Create | index.js:47-63 | 201 exactly when the title is supplied and non-empty and the status is one of the three values, otherwise 400 "Datos inválidos" with the store unchanged; on 201 the new row takes the counter's id, the given title and status, the supplied timestamp, and description "" when absent or the given one otherwise; the response is the stored row, the counter advances by one, and no other row changes |
| Handlers.KeysBelow | tests/app.js:24-27 | the scan yields every stored key below the bound and nothing else, strictly ascending |
| Handlers.List | index.js:77-80 | always 200 with an array; on a valid store the array holds exactly the stored rows, in strictly ascending id order |
| Handlers.Get | index.js:101-105 | 200 with the stored row exactly when the id is stored, otherwise 404 "Tarea no encontrada" |
| Handlers.Merge | index.js:147-151 | each supplied field replaces the stored one and each absent or null field keeps it; id and created_at are always kept |
| Handlers.Update | index.js:141-165 | an unknown id gives 404 with the store unchanged, whatever the body; otherwise 200 exactly when the merged status is valid, and 400 "Estado inválido" with the store unchanged when it is not; on 200 the row becomes the merge and the response is that stored row; no other row, no key and not the counter changes |
| Handlers.Delete | index.js:187-192 | 204 with no body exactly when the id was stored, otherwise 404 with the store unchanged; exactly that key leaves the table, every other row and the counter are unchanged |
| Server.Handle | tests/app.js:10-64 | reads never change the store; a 201 comes only from a successful create, hands out the counter's id and advances the counter by one; every other response leaves the counter unchanged |
| Server.Run | db.js:28 | a session answers every request once and the AUTOINCREMENT counter never decreases |
| Properties.CreatePreservesValid | db.js:28-32 | create keeps every table invariant |
| Properties.UpdatePreservesValid | index.js:153-161 | update keeps every table invariant, so no status outside the three values is ever written |
| Properties.DeletePreservesValid | db.js:28 | delete keeps every table invariant |
| Properties.HandlePreservesValid | db.js:26-34 | every request, whatever its route, keeps the table invariants |
| Properties.CreateTableIdempotent | db.js:26-28 | running the initialisation against an existing table changes nothing; a second startup after the first one still lists no rows, and the first successful create there receives id 1 |
| Properties.CreateAssignsFreshId | db.js:28 | a successful create takes an id above every stored id, so not a stored one, and adds exactly one row |
| Properties.CreateRejectedWritesNothing | tests/app.js:12-14 | a missing or empty title or an unlisted status gives 400 "Datos inválidos", and the listing afterwards is the listing before |
| Properties.CreateThenGet | tests/app.js:19-21 | reading back the created id returns the row the create returned |
| Properties.UpdateThenGet | tests/app.js:50-57 | reading back an updated id returns the row the update returned |
| Properties.UpdateIdempotent | index.js:147-161 | repeating an update gives the same response and the same store |
| Properties.UpdateInvalidStatusKeepsRow | index.js:151-155 | on a stored id, a supplied status outside the three values gives 400 "Estado inválido" and the store stays as it was, whatever title and description are supplied |
| Properties.UpdateNotFoundFirst | tests/app.js:37-48 | on an unknown id, 404 takes precedence over an invalid status and the store is unchanged |
| Properties.UpdateAcceptsEmptyTitle | index.js:147-155 | a supplied empty title is written by update, which only re-checks the status; description and status are kept |
| Properties.UpdateStatusOnly | index.js:147-151 | a body with only a valid status changes only the status; title, description, id and created_at are kept |
| Properties.DeleteTwiceNotFound | tests/app.js:60-64 | deleting an id a second time gives 404 and changes nothing |
| Properties.DeleteThenGet | tests/app.js:29-33 | after a delete, get of that id gives 404 |
| Properties.DeleteThenCreateFreshId | db.js:28 | a create after a delete never receives the deleted id; the new id is above it |
| Properties.ListCount | tests/app.js:24-27 | the listing of a valid store holds as many rows as the store: each row exactly once |
| Properties.HandleKeepsIdentity | index.js:157-161 | across any request, a surviving row keeps its id and created_at, and a free id below the counter stays free |
| Properties.RunGuarantees | db.js:28-32 | across any session from a valid store: the store stays valid; the ids of 201 responses are strictly increasing, at or above the starting counter and below the final one, so none was ever stored; a deleted id never comes back; surviving rows keep id and created_at |
| Properties.FreshTableSession | index.js:47-192 | on a new table: create "A" gives id 1 with description ""; the listing is exactly that row; its delete gives 204; its get gives 404 |

## Left out

- Express setup, JSON body parsing, routing by path, Swagger registration and `app.listen`. These are framework plumbing.
- The database file probe, and discarding and recreating a corrupt file at startup. This is file-system and driver I/O. The model starts from `CreateTableIfNotExists`.
- SQL text, SQLite type affinity, and the string `:id` route parameter. Ids are `nat`.
- JavaScript truthiness and coercion of non-string bodies (numbers, booleans, objects as title or status). Only absent, `null` and `""` are modelled.
- `new Date().toISOString()`. The timestamp is an opaque string parameter, so it is neither formatted nor shown to be after the request time.
- Concurrency. Update's read-merge-write sequence is not in a transaction in the source, and the model is sequential.
- Handlers.Create: ids are unbounded naturals. SQLite's AUTOINCREMENT fails once the largest 64-bit rowid has been used (an exception Express turns into a 500), and the model never reaches that failure.
- Handlers.List: the source asks the database for no order. The model fixes ascending id order. Contents and order are promised only for a store that satisfies the table invariants.
- The nullability of `description`. The column is nullable, but every write in the source supplies a string (`description || ''` on create, a merge with the stored string on update), so the model holds it as a string.
- tests/tasks.test.js is a supertest harness, not handler code. Its assertions match `Handlers.List` (GET), `Handlers.Create` (POST, valid and invalid), `Handlers.Update` (PUT), and `Handlers.Delete` (204 on a created id, 404 on the never-created id 999999).
