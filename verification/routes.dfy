/**
 * The routing layer: one request value per writing endpoint and the handler it reaches.
 * `tasks_list` only reads and is `Listing.TasksList`.
 */
module Routes {
  import opened Wrappers
  import opened Dates
  import opened Schema
  import opened Auth
  import opened TaskHandlers
  import opened Invariants
  import opened Listing

  datatype Request =
    | RegisterRequest(verb: Method, username: Option<string>, password: Option<string>, salt: nat)
    | LoginRequest(verb: Method, username: Option<string>, password: Option<string>)
    | LogoutRequest
    | AddTaskRequest(verb: Method, title: Option<string>, description: Option<string>, dueDate: Option<string>, today: Date)
    | EditTaskRequest(
        verb: Method, taskId: nat, title: Option<string>, description: Option<string>,
        dueDate: Option<string>, status: Option<string>, today: Date)
    | DeleteTaskRequest(taskId: nat)
    | MarkTaskRequest(taskId: nat, statusLabel: string)

  /** The endpoints wrapped in `login_required`. */
  predicate Gated(req: Request) {
    !req.RegisterRequest? && !req.LoginRequest?
  }

  /**
   * The endpoint table. A gated request without a session is turned away untouched;
   * only `login` and `logout` touch the session; only `register` adds users, and it
   * alone leaves the task table to others.
   */
  function Handle(st: State, req: Request): (r: Step)
    ensures Gated(req) && st.session.Anonymous? ==> r == Step(st, RedirectToLogin)
    ensures r.state.session != st.session ==> req.LoginRequest? || req.LogoutRequest?
    ensures !req.RegisterRequest? ==> r.state.db.users == st.db.users
    ensures !Gated(req) || req.LogoutRequest? ==> r.state.db.tasks == st.db.tasks
  {
    match req
    case RegisterRequest(verb, username, password, salt) => Register(st, verb, username, password, salt)
    case LoginRequest(verb, username, password) => Login(st, verb, username, password)
    case LogoutRequest => Logout(st)
    case AddTaskRequest(verb, title, description, dueDate, today) => AddTask(st, verb, title, description, dueDate, today)
    case EditTaskRequest(verb, taskId, title, description, dueDate, status, today) =>
      EditTask(st, verb, taskId, title, description, dueDate, status, today)
    case DeleteTaskRequest(taskId) => DeleteTask(st, taskId)
    case MarkTaskRequest(taskId, statusLabel) => MarkTask(st, taskId, statusLabel)
  }

  /** `login_required`: a gated request without `user_id` in the session is sent to the login page and changes nothing. */
  lemma GateShortCircuits(st: State, req: Request)
    requires st.session.Anonymous? && Gated(req)
    ensures Handle(st, req) == Step(st, RedirectToLogin)
  {
  }

  /**
   * A signed-in request naming a task id beyond SQLite's INTEGER range fails with a
   * server error and changes nothing, whether or not such a task exists: edit and delete
   * always bind the id, mark only after its label is recognised.
   */
  lemma OversizedTaskIdFails(st: State, req: Request)
    requires st.session.SignedIn?
    requires req.EditTaskRequest? || req.DeleteTaskRequest? || (req.MarkTaskRequest? && ParseStatus(Some(req.statusLabel)).Some?)
    requires !Bindable(req.taskId)
    ensures Handle(st, req) == Step(st, ServerError)
  {
  }

  /** Every request keeps the store and session invariants. */
  lemma HandleKeepsValid(st: State, req: Request)
    requires Valid(st)
    ensures Valid(Handle(st, req).state)
  {
    match req
    case AddTaskRequest(verb, title, description, dueDate, today) =>
      AddTaskKeepsValid(st, verb, title, description, dueDate, today);
    case EditTaskRequest(verb, taskId, title, description, dueDate, status, today) =>
      EditTaskKeepsValid(st, verb, taskId, title, description, dueDate, status, today);
    case DeleteTaskRequest(taskId) =>
      DeleteTaskKeepsValid(st, taskId);
    case MarkTaskRequest(taskId, statusLabel) =>
      MarkTaskKeepsValid(st, taskId, statusLabel);
    case _ =>
  }

  /** No request touches, adds or removes a row of a user other than the session's. */
  lemma HandleKeepsOthersRows(st: State, req: Request, viewer: nat)
    requires Valid(st)
    requires st.session.SignedIn? ==> viewer != st.session.userId
    ensures OwnRowsKept(st.db.tasks, Handle(st, req).state.db.tasks, viewer)
  {
    var after := Handle(st, req).state.db.tasks;
    if st.session.SignedIn? && Gated(req) {
      assert OthersUntouched(st.db.tasks, after, st.session.userId);
    } else {
      assert after == st.db.tasks;
    }
  }

  /** Ownership isolation end to end: no request changes what another user's task list shows. */
  lemma HandleKeepsOthersListing(
    st: State, req: Request, viewer: nat, statusArg: Option<string>, searchArg: Option<string>,
    seen: seq<Task>, seenAfter: seq<Task>)
    requires Valid(st)
    requires st.session.SignedIn? ==> viewer != st.session.userId
    requires IsListing(seen, st.db.tasks, viewer, statusArg, searchArg)
    requires IsListing(seenAfter, Handle(st, req).state.db.tasks, viewer, statusArg, searchArg)
    ensures seen == seenAfter
  {
    HandleKeepsOthersRows(st, req, viewer);
    ListingDependsOnOwnRows(st.db.tasks, Handle(st, req).state.db.tasks, viewer, statusArg, searchArg, seen, seenAfter);
  }
}
