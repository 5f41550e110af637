/**
 * The data the handlers work on: the `users` and `tasks` tables as maps, the Flask
 * session, and the responses a handler can answer with.
 */
module Schema {
  import opened Wrappers

  /** The two values the `status` column ever holds. */
  datatype Status = Pending | Completed

  /** The text stored in the `status` column and used in forms and URLs. */
  function Label(s: Status): string {
    match s
    case Pending => "Pendiente"
    case Completed => "Completada"
  }

  /** The `status in ['Pendiente', 'Completada']` test, keeping the recognised value. */
  function ParseStatus(raw: Option<string>): (r: Option<Status>)
    ensures r.Some? <==> raw == Some("Pendiente") || raw == Some("Completada")
    ensures r.Some? ==> raw == Some(Label(r.value))
  {
    if raw == Some("Pendiente") then Some(Pending)
    else if raw == Some("Completada") then Some(Completed)
    else None
  }

  lemma ParseLabel(s: Status)
    ensures ParseStatus(Some(Label(s))) == Some(s)
  {
  }

  /**
   * A salted one-way password hash, kept symbolic: only `CheckPasswordHash` looks
   * inside it. The stored credential has this type, never `string`, so a plaintext
   * password cannot end up in the `password` column.
   */
  datatype PasswordHash = Salted(salt: nat, secret: string)

  function HashPassword(password: string, salt: nat): PasswordHash {
    Salted(salt, password)
  }

  predicate CheckPasswordHash(h: PasswordHash, password: string) {
    h.secret == password
  }

  /** A hash accepts exactly the password it was made from, whatever the salt. */
  lemma CheckHashedPassword(password: string, guess: string, salt: nat)
    ensures CheckPasswordHash(HashPassword(password, salt), guess) <==> guess == password
  {
  }

  /** A row of `users`. */
  datatype User = User(id: nat, username: string, password: PasswordHash)

  /** A row of `tasks`; `description` and `dueDate` are nullable TEXT columns, stored as sent. */
  datatype Task = Task(
    id: nat,
    userId: nat,
    title: string,
    description: Option<string>,
    dueDate: Option<string>,
    status: Status,
    createdAt: nat)

  /**
   * The database. `users` is keyed by the UNIQUE username, `tasks` by id. The
   * AUTOINCREMENT counters never hand out an id twice; `clock` stands for
   * CURRENT_TIMESTAMP and grows with every insert.
   */
  datatype Store = Store(
    users: map<string, User>,
    tasks: map<nat, Task>,
    nextUserId: nat,
    nextTaskId: nat,
    clock: nat)

  /** The Flask session: either no `user_id`, or both `user_id` and `username`. */
  datatype Session = Anonymous | SignedIn(userId: nat, username: string)

  datatype State = State(db: Store, session: Session)

  datatype Method = Get | Post

  datatype Page = RegisterPage | LoginPage | TaskFormPage

  /** The messages the forms are re-rendered with. */
  datatype FormError =
    | MissingCredentials
    | UsernameTaken
    | InvalidCredentials
    | MissingTitle
    | PastDueDate
    | BadDateFormat

  datatype Response =
    | RedirectToLogin
    | RedirectToTasks
      /** A required form key is absent: Flask answers 400 Bad Request. */
    | BadRequest
      /** An exception escapes the handler: Flask answers 500 Internal Server Error. */
    | ServerError
    | Form(page: Page, task: Option<Task>, error: Option<FormError>)
    | TaskPage(tasks: seq<Task>, username: string, statusArg: Option<string>, searchArg: Option<string>)

  /** What one request does: the state after it and the answer sent back. */
  datatype Step = Step(state: State, response: Response)

  /** The largest value of SQLite's signed 64-bit INTEGER. */
  const MaxSqlInteger: nat := 0x7FFF_FFFF_FFFF_FFFF

  /**
   * Python's `sqlite3` binds an `int` parameter only when it fits SQLite's INTEGER;
   * a larger one raises OverflowError before the statement runs.
   */
  predicate Bindable(n: nat) {
    n <= MaxSqlInteger
  }

  predicate UserExists(users: map<string, User>, id: nat) {
    exists name :: name in users && users[name].id == id
  }

  /** The `WHERE id = ? AND user_id = ?` predicate every task lookup and mutation uses. */
  predicate Owned(tasks: map<nat, Task>, id: nat, userId: nat) {
    id in tasks && tasks[id].userId == userId
  }

  /** Every row with the same created_at is the same row. */
  ghost predicate DistinctCreation(tasks: map<nat, Task>) {
    forall i, j :: i in tasks && j in tasks && tasks[i].createdAt == tasks[j].createdAt ==> i == j
  }

  /** The schema's constraints plus what the handlers keep true of the rows they write. */
  ghost predicate ValidStore(db: Store) {
    && (forall n :: n in db.users ==> db.users[n].username == n && |n| > 0 && db.users[n].id < db.nextUserId)
    && (forall n, m :: n in db.users && m in db.users && db.users[n].id == db.users[m].id ==> n == m)
    && (forall k :: k in db.tasks ==>
          && db.tasks[k].id == k
          && k < db.nextTaskId
          && db.tasks[k].createdAt < db.clock
          && |db.tasks[k].title| > 0
          && UserExists(db.users, db.tasks[k].userId))
    && DistinctCreation(db.tasks)
  }

  /** A signed-in session names a user that exists, under that user's name. */
  ghost predicate Valid(st: State) {
    && ValidStore(st.db)
    && (st.session.SignedIn? ==>
          st.session.username in st.db.users && st.db.users[st.session.username].id == st.session.userId)
  }

  /** Every row owned by `viewer` is the same before and after, and none appeared. */
  ghost predicate OwnRowsKept(before: map<nat, Task>, after: map<nat, Task>, viewer: nat) {
    && (forall k :: k in before && before[k].userId == viewer ==> k in after && after[k] == before[k])
    && (forall k :: k in after && after[k].userId == viewer ==> k in before && before[k] == after[k])
  }

  /**
   * Ownership isolation between two states: every task not owned by `userId` is kept
   * as it was, and no task owned by someone else appears or changes.
   */
  ghost predicate OthersUntouched(before: map<nat, Task>, after: map<nat, Task>, userId: nat) {
    && (forall k :: k in before && before[k].userId != userId ==> k in after && after[k] == before[k])
    && (forall k :: k in after && after[k].userId != userId ==> k in before && before[k] == after[k])
  }
}
