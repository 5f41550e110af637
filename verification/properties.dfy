/** Properties that relate a writing handler to what `tasks_list` shows afterwards. */
module Properties {
  import opened Wrappers
  import opened Dates
  import opened Schema
  import opened TaskHandlers
  import opened Invariants
  import opened Listing

  /**
   * A task just added heads its owner's unfiltered (or Pendiente-filtered) listing,
   * with the title, description and due date it was given and status Pending.
   */
  lemma AddedTaskListedFirst(
    st: State, title: Option<string>, description: Option<string>, dueDate: Option<string>,
    today: Date, statusArg: Option<string>, listed: seq<Task>)
    requires Valid(st)
    requires AddTask(st, Post, title, description, dueDate, today).response == RedirectToTasks
    requires ParseStatus(statusArg) != Some(Completed)
    requires IsListing(listed, AddTask(st, Post, title, description, dueDate, today).state.db.tasks,
                       st.session.userId, statusArg, None)
    ensures |listed| > 0
    ensures listed[0].title == title.value && listed[0].description == description
    ensures listed[0].dueDate == dueDate && listed[0].status == Pending
  {
    var after := AddTask(st, Post, title, description, dueDate, today).state.db.tasks;
    var id :| id !in st.db.tasks && id in after && after == st.db.tasks[id := after[id]] &&
      var t := after[id];
      && t.id == id && t.userId == st.session.userId
      && t.title == title.value && t.description == description && t.dueDate == dueDate
      && t.status == Pending
      && (forall k :: k in st.db.tasks ==> st.db.tasks[k].createdAt < t.createdAt);
    var t := after[id];
    assert t in after.Values;
    assert t in listed;
    var j :| 0 <= j < |listed| && listed[j] == t;
    var head := listed[0];
    assert head in after.Values;
    var k :| k in after && after[k] == head;
  }

  /** After an owned task is marked `s`, the other status's filter no longer shows it. */
  lemma MarkedTaskLeavesOtherFilter(
    st: State, taskId: nat, s: Status, other: Status, searchArg: Option<string>, listed: seq<Task>)
    requires Valid(st) && st.session.SignedIn? && Bindable(taskId) && Owned(st.db.tasks, taskId, st.session.userId)
    requires s != other
    requires IsListing(listed, MarkTask(st, taskId, Label(s)).state.db.tasks, st.session.userId, Some(Label(other)), searchArg)
    ensures forall t :: t in listed ==> t.id != taskId
  {
    var after := MarkTask(st, taskId, Label(s)).state.db.tasks;
    ParseLabel(s);
    ParseLabel(other);
    assert after[taskId].status == s;
    MarkTaskKeepsValid(st, taskId, Label(s));
    forall t | t in listed
      ensures t.id != taskId
    {
      var k :| k in after && after[k] == t;
      assert Selected(t, st.session.userId, Some(Label(other)), searchArg);
      assert t.status == other;
    }
  }

  /** After an owned task is marked `s`, the `s` filter shows it. */
  lemma MarkedTaskUnderItsFilter(st: State, taskId: nat, s: Status, listed: seq<Task>)
    requires st.session.SignedIn? && Bindable(taskId) && Owned(st.db.tasks, taskId, st.session.userId)
    requires IsListing(listed, MarkTask(st, taskId, Label(s)).state.db.tasks, st.session.userId, Some(Label(s)), None)
    ensures exists t :: t in listed && t.id == st.db.tasks[taskId].id && t.status == s
  {
    var after := MarkTask(st, taskId, Label(s)).state.db.tasks;
    ParseLabel(s);
    var marked := after[taskId];
    assert marked.status == s;
    assert marked in after.Values;
    assert Selected(marked, st.session.userId, Some(Label(s)), None);
    assert marked in listed;
  }

  /** Once an owned task is deleted, no listing of anyone's shows a row with its id. */
  lemma DeletedTaskNotListed(
    st: State, taskId: nat, viewer: nat, statusArg: Option<string>, searchArg: Option<string>, listed: seq<Task>)
    requires Valid(st) && st.session.SignedIn? && Bindable(taskId) && Owned(st.db.tasks, taskId, st.session.userId)
    requires IsListing(listed, DeleteTask(st, taskId).state.db.tasks, viewer, statusArg, searchArg)
    ensures forall t :: t in listed ==> t.id != taskId
  {
    var after := DeleteTask(st, taskId).state.db.tasks;
    forall t | t in listed
      ensures t.id != taskId
    {
      var k :| k in after && after[k] == t;
      assert st.db.tasks[k] == t;
    }
  }

  /**
   * A task owned by someone else looks exactly like a missing one: editing either
   * answers with the same redirect and changes nothing. Both ids must fit SQLite's
   * INTEGER; a larger one fails the lookup itself (`Routes.OversizedTaskIdFails`).
   */
  lemma ForeignTaskLooksMissing(
    st: State, verb: Method, foreignId: nat, missingId: nat, title: Option<string>,
    description: Option<string>, dueDate: Option<string>, status: Option<string>, today: Date)
    requires st.session.SignedIn?
    requires foreignId in st.db.tasks && st.db.tasks[foreignId].userId != st.session.userId
    requires missingId !in st.db.tasks
    requires Bindable(foreignId) && Bindable(missingId)
    ensures EditTask(st, verb, foreignId, title, description, dueDate, status, today)
         == EditTask(st, verb, missingId, title, description, dueDate, status, today)
    ensures EditTask(st, verb, foreignId, title, description, dueDate, status, today) == Step(st, RedirectToTasks)
  {
  }
}
