/**
 * The task handlers that write: `add_task`, `edit_task`, `delete_task` and `mark_task`.
 * Each sits behind the login gate and touches only rows owned by the session user.
 */
module TaskHandlers {
  import opened Wrappers
  import opened Text
  import opened Dates
  import opened Schema
  import opened Validation

  /**
   * `after` is `before` plus one new row owned by `userId` with the given fields,
   * status Pending, and a created_at later than every earlier row's.
   */
  ghost predicate InsertsOne(
    before: map<nat, Task>, after: map<nat, Task>,
    userId: nat, title: string, description: Option<string>, dueDate: Option<string>)
  {
    exists id :: id !in before && id in after && after == before[id := after[id]] &&
      var t := after[id];
      && t.id == id && t.userId == userId
      && t.title == title && t.description == description && t.dueDate == dueDate
      && t.status == Pending
      && (forall k :: k in before ==> before[k].createdAt < t.createdAt)
  }

  /** Only row `id` may differ, and it keeps its id, owner and created_at. */
  ghost predicate ChangesOnly(before: map<nat, Task>, after: map<nat, Task>, id: nat) {
    && id in before
    && after.Keys == before.Keys
    && (forall k :: k in before && k != id ==> after[k] == before[k])
    && after[id].id == before[id].id
    && after[id].userId == before[id].userId
    && after[id].createdAt == before[id].createdAt
  }

  /**
   * GET/POST /add_task. A POST needs a non-empty title and a due date that is absent,
   * empty, or a parseable date not before `today`; then one row is inserted. Every
   * rejected request leaves the state as it was.
   */
  function AddTask(
    st: State, verb: Method, title: Option<string>, description: Option<string>,
    dueDate: Option<string>, today: Date): (r: Step)
    ensures st.session.Anonymous? ==> r == Step(st, RedirectToLogin)
    ensures r.state.session == st.session && r.state.db.users == st.db.users
    ensures r.response == RedirectToTasks <==>
      st.session.SignedIn? && verb.Post? && Filled(title) && ValidateDueDate(dueDate, today).None?
    ensures r.response != RedirectToTasks ==> r.state == st
    ensures st.session.SignedIn? && verb.Post? && title.Some? && !Filled(title) ==>
      r.response == Form(TaskFormPage, None, Some(MissingTitle))
    ensures st.session.SignedIn? && verb.Post? && Filled(title) && ValidateDueDate(dueDate, today).Some? ==>
      r.response == Form(TaskFormPage, None, ValidateDueDate(dueDate, today))
    ensures Valid(st) && r.response == RedirectToTasks ==>
      InsertsOne(st.db.tasks, r.state.db.tasks, st.session.userId, title.value, description, dueDate)
    ensures Valid(st) && st.session.SignedIn? ==> OthersUntouched(st.db.tasks, r.state.db.tasks, st.session.userId)
  {
    if st.session.Anonymous? then
      Step(st, RedirectToLogin)
    else if verb.Get? then
      Step(st, Form(TaskFormPage, None, None))
    else if title.None? then
      Step(st, BadRequest)
    else if !Filled(title) then
      Step(st, Form(TaskFormPage, None, Some(MissingTitle)))
    else
      match ValidateDueDate(dueDate, today)
      case Some(e) => Step(st, Form(TaskFormPage, None, Some(e)))
      case None =>
        var task := Task(st.db.nextTaskId, st.session.userId, title.value, description, dueDate, Pending, st.db.clock);
        var db := st.db.(
          tasks := st.db.tasks[task.id := task],
          nextTaskId := st.db.nextTaskId + 1,
          clock := st.db.clock + 1);
        assert db.tasks == st.db.tasks[task.id := db.tasks[task.id]];
        Step(st.(db := db), RedirectToTasks)
  }

  /** Every condition `edit_task` checks before it runs the UPDATE. */
  predicate EditAccepted(st: State, taskId: nat, verb: Method, title: Option<string>, dueDate: Option<string>, today: Date) {
    && st.session.SignedIn?
    && Bindable(taskId)
    && Owned(st.db.tasks, taskId, st.session.userId)
    && verb.Post?
    && Filled(title)
    && ValidateDueDate(dueDate, today).None?
  }

  /**
   * GET/POST /edit_task/<id>. An id too large for SQLite's INTEGER makes the lookup
   * raise (500). A task that is missing or owned by someone else sends the caller back
   * to the list. A POST rewrites title, description and due date under the
   * same checks as `AddTask`; a status other than the two labels keeps the old status.
   */
  function EditTask(
    st: State, verb: Method, taskId: nat, title: Option<string>, description: Option<string>,
    dueDate: Option<string>, status: Option<string>, today: Date): (r: Step)
    ensures st.session.Anonymous? ==> r == Step(st, RedirectToLogin)
    ensures st.session.SignedIn? && !Bindable(taskId) ==> r == Step(st, ServerError)
    ensures st.session.SignedIn? && Bindable(taskId) && !Owned(st.db.tasks, taskId, st.session.userId) ==> r == Step(st, RedirectToTasks)
    ensures r.state.session == st.session && r.state.db.users == st.db.users
    ensures !EditAccepted(st, taskId, verb, title, dueDate, today) ==> r.state == st
    ensures st.session.SignedIn? && Bindable(taskId) && Owned(st.db.tasks, taskId, st.session.userId) && verb.Get? ==>
      r.response == Form(TaskFormPage, Some(st.db.tasks[taskId]), None)
    ensures st.session.SignedIn? && Bindable(taskId) && Owned(st.db.tasks, taskId, st.session.userId) && verb.Post? && title.Some? && !Filled(title) ==>
      r.response == Form(TaskFormPage, Some(st.db.tasks[taskId]), Some(MissingTitle))
    ensures (st.session.SignedIn? && Bindable(taskId) && Owned(st.db.tasks, taskId, st.session.userId) && verb.Post? && Filled(title)
             && ValidateDueDate(dueDate, today).Some?) ==>
      r.response == Form(TaskFormPage, Some(st.db.tasks[taskId]), ValidateDueDate(dueDate, today))
    ensures EditAccepted(st, taskId, verb, title, dueDate, today) ==>
      && r.response == RedirectToTasks
      && ChangesOnly(st.db.tasks, r.state.db.tasks, taskId)
      && r.state.db.tasks[taskId].title == title.value
      && r.state.db.tasks[taskId].description == description
      && r.state.db.tasks[taskId].dueDate == dueDate
      && (ParseStatus(status).Some? ==> status == Some(Label(r.state.db.tasks[taskId].status)))
      && (ParseStatus(status).None? ==> r.state.db.tasks[taskId].status == st.db.tasks[taskId].status)
    ensures st.session.SignedIn? ==> OthersUntouched(st.db.tasks, r.state.db.tasks, st.session.userId)
  {
    if st.session.Anonymous? then
      Step(st, RedirectToLogin)
    else if !Bindable(taskId) then
      Step(st, ServerError)
    else if !Owned(st.db.tasks, taskId, st.session.userId) then
      Step(st, RedirectToTasks)
    else
      var task := st.db.tasks[taskId];
      if verb.Get? then
        Step(st, Form(TaskFormPage, Some(task), None))
      else if title.None? then
        Step(st, BadRequest)
      else if !Filled(title) then
        Step(st, Form(TaskFormPage, Some(task), Some(MissingTitle)))
      else
        match ValidateDueDate(dueDate, today)
        case Some(e) => Step(st, Form(TaskFormPage, Some(task), Some(e)))
        case None =>
          var edited := task.(
            title := title.value,
            description := description,
            dueDate := dueDate,
            status := NormalizeStatus(status, task.status));
          Step(st.(db := st.db.(tasks := st.db.tasks[taskId := edited])), RedirectToTasks)
  }

  /**
   * POST /delete_task/<id>: `DELETE ... WHERE id = ? AND user_id = ?`. An owned task is
   * removed and nothing else; a missing or foreign one is a silent no-op; an id too
   * large for SQLite's INTEGER makes the statement raise (500) before anything is deleted.
   */
  function DeleteTask(st: State, taskId: nat): (r: Step)
    ensures st.session.Anonymous? ==> r == Step(st, RedirectToLogin)
    ensures st.session.SignedIn? && !Bindable(taskId) ==> r == Step(st, ServerError)
    ensures st.session.SignedIn? && Bindable(taskId) ==> r.response == RedirectToTasks
    ensures r.state.session == st.session && r.state.db.users == st.db.users
    ensures st.session.SignedIn? && !Owned(st.db.tasks, taskId, st.session.userId) ==> r.state == st
    ensures st.session.SignedIn? && Bindable(taskId) && Owned(st.db.tasks, taskId, st.session.userId) ==>
      && r.state.db.tasks.Keys == st.db.tasks.Keys - {taskId}
      && (forall k :: k in r.state.db.tasks ==> r.state.db.tasks[k] == st.db.tasks[k])
    ensures st.session.SignedIn? ==> OthersUntouched(st.db.tasks, r.state.db.tasks, st.session.userId)
  {
    if st.session.Anonymous? then
      Step(st, RedirectToLogin)
    else if !Bindable(taskId) then
      Step(st, ServerError)
    else if Owned(st.db.tasks, taskId, st.session.userId) then
      Step(st.(db := st.db.(tasks := st.db.tasks - {taskId})), RedirectToTasks)
    else
      Step(st, RedirectToTasks)
  }

  /**
   * POST /mark_task/<id>/<status>: sets the status of an owned task when `status` is one
   * of the two labels; any other value, or a task that is missing or foreign, changes nothing.
   * Only a recognised label reaches the UPDATE, so only then does an id too large for
   * SQLite's INTEGER raise (500).
   */
  function MarkTask(st: State, taskId: nat, status: string): (r: Step)
    ensures st.session.Anonymous? ==> r == Step(st, RedirectToLogin)
    ensures st.session.SignedIn? && ParseStatus(Some(status)).Some? && !Bindable(taskId) ==> r == Step(st, ServerError)
    ensures st.session.SignedIn? && (ParseStatus(Some(status)).None? || Bindable(taskId)) ==> r.response == RedirectToTasks
    ensures r.state.session == st.session && r.state.db.users == st.db.users
    ensures ParseStatus(Some(status)).None? ==> r.state == st
    ensures st.session.SignedIn? && !Owned(st.db.tasks, taskId, st.session.userId) ==> r.state == st
    ensures st.session.SignedIn? && Bindable(taskId) && Owned(st.db.tasks, taskId, st.session.userId) && ParseStatus(Some(status)).Some? ==>
      && ChangesOnly(st.db.tasks, r.state.db.tasks, taskId)
      && r.state.db.tasks[taskId] == st.db.tasks[taskId].(status := r.state.db.tasks[taskId].status)
      && Label(r.state.db.tasks[taskId].status) == status
    ensures st.session.SignedIn? ==> OthersUntouched(st.db.tasks, r.state.db.tasks, st.session.userId)
  {
    if st.session.Anonymous? then
      Step(st, RedirectToLogin)
    else
      match ParseStatus(Some(status))
      case Some(s) =>
        if !Bindable(taskId) then
          Step(st, ServerError)
        else if Owned(st.db.tasks, taskId, st.session.userId) then
          var marked := st.db.tasks[taskId].(status := s);
          Step(st.(db := st.db.(tasks := st.db.tasks[taskId := marked])), RedirectToTasks)
        else
          Step(st, RedirectToTasks)
      case None => Step(st, RedirectToTasks)
  }
}
