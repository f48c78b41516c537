/** The `tasks` table: its row type, the constraints its definition places on
    every row, and the create-if-absent initialisation. */
module Schema {

  import opened Wrappers

  const Pending: string := "pending"
  const InProgress: string := "in_progress"
  const Done: string := "done"

  /** The values the `status` column's CHECK constraint admits. */
  const Statuses: seq<string> := [Pending, InProgress, Done]

  predicate IsStatus(s: string) {
    s in Statuses
  }

  /** One row of `tasks`. `title`, `status` and `createdAt` are NOT NULL
      columns; `description` is nullable in the schema, but every write
      supplies a string, so the model keeps it as a string. */
  datatype Task = Task(
    id: nat,
    title: string,
    description: string,
    status: string,
    createdAt: string
  )

  /** The table's contents plus the AUTOINCREMENT sequence: `nextId` is the
      id the next insert receives, and it only ever grows, whatever is
      deleted. */
  datatype Store = Store(rows: map<nat, Task>, nextId: nat)

  /** The row constraints of the table definition, together with the
      AUTOINCREMENT facts: ids start at 1 and every stored id is below the
      sequence counter. */
  predicate ValidRow(key: nat, t: Task, nextId: nat) {
    && t.id == key
    && 0 < key < nextId
    && IsStatus(t.status)
  }

  predicate Valid(s: Store) {
    && 1 <= s.nextId
    && forall k :: k in s.rows ==> ValidRow(k, s.rows[k], s.nextId)
  }

  const Empty: Store := Store(map[], 1)

  /** The database as found at startup: `None` when it has no `tasks`
      table yet. */
  type Database = Option<Store>

  /** CREATE TABLE IF NOT EXISTS: an existing table is kept as it is, a
      missing one is created empty with its sequence at the start. */
  function CreateTableIfNotExists(db: Database): (s: Store)
    ensures db.Some? ==> s == db.value
    ensures db.None? ==> s == Store(map[], 1) && Valid(s)
  {
    match db
    case Some(existing) => existing
    case None => Empty
  }
}
