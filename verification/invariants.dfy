/**
 * The task handlers keep the store's invariants: ids and created_at values stay
 * unique, every row has a title and an existing owner, and a signed-in session keeps
 * naming a real user.
 */
module Invariants {
  import opened Wrappers
  import opened Dates
  import opened Schema
  import opened TaskHandlers

  /** Inserting a row with the next id and the current clock, owned by the session user. */
  lemma InsertKeepsValid(st: State, t: Task)
    requires Valid(st) && st.session.SignedIn?
    requires t.id == st.db.nextTaskId && t.createdAt == st.db.clock
    requires t.userId == st.session.userId && |t.title| > 0
    ensures Valid(st.(db := st.db.(
      tasks := st.db.tasks[t.id := t],
      nextTaskId := st.db.nextTaskId + 1,
      clock := st.db.clock + 1)))
  {
    var db := st.db.(tasks := st.db.tasks[t.id := t], nextTaskId := st.db.nextTaskId + 1, clock := st.db.clock + 1);
    assert t.id !in st.db.tasks;
    assert UserExists(db.users, t.userId) by {
      assert st.db.users[st.session.username].id == t.userId;
    }
    forall k | k in db.tasks
      ensures db.tasks[k].id == k && k < db.nextTaskId && db.tasks[k].createdAt < db.clock
      ensures |db.tasks[k].title| > 0 && UserExists(db.users, db.tasks[k].userId)
    {
      if k != t.id {
        assert db.tasks[k] == st.db.tasks[k];
      }
    }
    forall i, j | i in db.tasks && j in db.tasks && db.tasks[i].createdAt == db.tasks[j].createdAt
      ensures i == j
    {
      if i != t.id && j != t.id {
        assert st.db.tasks[i].createdAt == st.db.tasks[j].createdAt;
      }
    }
  }

  /** Rewriting row `id` in place, keeping its id, owner, created_at and a non-empty title. */
  lemma RewriteKeepsValid(st: State, id: nat, t: Task)
    requires Valid(st) && id in st.db.tasks
    requires t.id == id && t.userId == st.db.tasks[id].userId && t.createdAt == st.db.tasks[id].createdAt
    requires |t.title| > 0
    ensures Valid(st.(db := st.db.(tasks := st.db.tasks[id := t])))
  {
    var db := st.db.(tasks := st.db.tasks[id := t]);
    forall i, j | i in db.tasks && j in db.tasks && db.tasks[i].createdAt == db.tasks[j].createdAt
      ensures i == j
    {
      assert db.tasks[i].createdAt == st.db.tasks[i].createdAt;
      assert db.tasks[j].createdAt == st.db.tasks[j].createdAt;
    }
  }

  lemma AddTaskKeepsValid(
    st: State, verb: Method, title: Option<string>, description: Option<string>,
    dueDate: Option<string>, today: Date)
    requires Valid(st)
    ensures Valid(AddTask(st, verb, title, description, dueDate, today).state)
  {
    if AddTask(st, verb, title, description, dueDate, today).response == RedirectToTasks {
      var task := Task(st.db.nextTaskId, st.session.userId, title.value, description, dueDate, Pending, st.db.clock);
      InsertKeepsValid(st, task);
    }
  }

  lemma EditTaskKeepsValid(
    st: State, verb: Method, taskId: nat, title: Option<string>, description: Option<string>,
    dueDate: Option<string>, status: Option<string>, today: Date)
    requires Valid(st)
    ensures Valid(EditTask(st, verb, taskId, title, description, dueDate, status, today).state)
  {
    if EditAccepted(st, taskId, verb, title, dueDate, today) {
      var after := EditTask(st, verb, taskId, title, description, dueDate, status, today).state;
      RewriteKeepsValid(st, taskId, after.db.tasks[taskId]);
      assert after.db.tasks == st.db.tasks[taskId := after.db.tasks[taskId]];
    }
  }

  lemma DeleteTaskKeepsValid(st: State, taskId: nat)
    requires Valid(st)
    ensures Valid(DeleteTask(st, taskId).state)
  {
  }

  lemma MarkTaskKeepsValid(st: State, taskId: nat, status: string)
    requires Valid(st)
    ensures Valid(MarkTask(st, taskId, status).state)
  {
    var after := MarkTask(st, taskId, status).state;
    if after != st {
      RewriteKeepsValid(st, taskId, after.db.tasks[taskId]);
      assert after.db.tasks == st.db.tasks[taskId := after.db.tasks[taskId]];
    }
  }
}
