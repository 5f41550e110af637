/** A concrete session from registration to a filtered list, on an empty database. */
module Scenario {
  import opened Wrappers
  import opened Dates
  import opened Schema
  import opened Validation
  import opened Auth
  import opened TaskHandlers
  import opened Listing

  /** The state `init_db` leaves: both tables empty, both counters at 1, nobody signed in. */
  function EmptyState(): State {
    State(Store(map[], map[], 1, 1, 0), Anonymous)
  }

  function Alice(): User {
    User(1, "alice", HashPassword("secret", 42))
  }

  function Report(): Task {
    Task(1, 1, "Write report", None, Some("2030-05-01"), Pending, 0)
  }

  function Registered(): State {
    State(Store(map["alice" := Alice()], map[], 2, 1, 0), Anonymous)
  }

  function SignedInAlice(): State {
    Registered().(session := SignedIn(1, "alice"))
  }

  function WithReport(): State {
    State(Store(map["alice" := Alice()], map[1 := Report()], 2, 2, 1), SignedIn(1, "alice"))
  }

  function ReportDone(): State {
    WithReport().(db := WithReport().db.(tasks := map[1 := Report().(status := Completed)]))
  }

  /** The fresh database satisfies the invariant every handler preserves. */
  lemma EmptyStateValid()
    ensures Valid(EmptyState())
  {
  }

  /** So does the stage after the add, with one user and one task. */
  lemma WithReportValid()
    ensures Valid(WithReport())
  {
    var db := WithReport().db;
    assert db.users.Keys == {"alice"} && db.tasks.Keys == {1};
    assert UserExists(db.users, 1) by { assert db.users["alice"].id == 1; }
  }

  /** "alice" registers on an empty database and is sent to the login page. */
  lemma AliceRegisters()
    ensures Register(EmptyState(), Post, Some("alice"), Some("secret"), 42) == Step(Registered(), RedirectToLogin)
  {
  }

  lemma AliceSignsIn()
    ensures Login(Registered(), Post, Some("alice"), Some("secret")) == Step(SignedInAlice(), RedirectToTasks)
  {
  }

  lemma FutureDueDateAccepted(today: Date)
    requires !Before(Date(2030, 5, 1), today)
    ensures ValidateDueDate(Some("2030-05-01"), today) == None
  {
    ParseFormatIso(Date(2030, 5, 1));
    assert FormatIso(Date(2030, 5, 1)) == "2030-05-01";
  }

  lemma AliceAddsReport(today: Date)
    requires !Before(Date(2030, 5, 1), today)
    ensures AddTask(SignedInAlice(), Post, Some("Write report"), None, Some("2030-05-01"), today)
         == Step(WithReport(), RedirectToTasks)
  {
    FutureDueDateAccepted(today);
  }

  lemma AliceCompletesReport()
    ensures MarkTask(WithReport(), 1, "Completada") == Step(ReportDone(), RedirectToTasks)
  {
  }

  /** The first rows of a listing are among its rows. */
  lemma LeadingRows(r: seq<Task>)
    ensures |r| > 0 ==> r[0] in r
    ensures |r| > 1 ==> r[1] in r
  {
  }

  /** Her list then holds exactly the new task, Pending, with its due date. */
  lemma ReportListed(listed: seq<Task>)
    requires IsListing(listed, WithReport().db.tasks, 1, None, None)
    ensures listed == [Report()]
  {
    var tasks := WithReport().db.tasks;
    assert tasks == map[1 := Report()];
    assert tasks[1] == Report();
    forall t | t in tasks.Values
      ensures t == Report()
    {
      var k :| k in tasks && tasks[k] == t;
    }
    assert Report() in listed;
    forall i | 0 <= i < |listed|
      ensures listed[i] == Report()
    {
      assert listed[i] in listed;
    }
    LeadingRows(listed);
  }

  /** Once the task is Completada, her Pendiente list is empty. */
  lemma NothingPending(pending: seq<Task>)
    requires IsListing(pending, ReportDone().db.tasks, 1, Some("Pendiente"), None)
    ensures pending == []
  {
    var tasks := ReportDone().db.tasks;
    assert tasks == map[1 := Report().(status := Completed)];
    forall t | t in tasks.Values
      ensures !Selected(t, 1, Some("Pendiente"), None)
    {
      var k :| k in tasks && tasks[k] == t;
    }
    LeadingRows(pending);
  }

  /** Month 13 and day 40 are rejected as a format error; a past date as a past date. */
  lemma DueDateExamples(today: Date)
    requires Before(Date(2000, 1, 1), today)
    ensures ValidateDueDate(Some("2099-13-40"), today) == Some(BadDateFormat)
    ensures ValidateDueDate(Some("2023-02-29"), today) == Some(BadDateFormat)
    ensures ValidateDueDate(Some("2000-01-01"), today) == Some(PastDueDate)
    ensures ValidateDueDate(None, today) == None
  {
    ParseFormatIso(Date(2000, 1, 1));
    assert FormatIso(Date(2000, 1, 1)) == "2000-01-01";
  }

  /** The parser also takes unpadded months and days, and a space-padded day, which are stored as typed. */
  lemma LenientDateSpellings()
    ensures ParseDate("2030-5-1") == Some(Date(2030, 5, 1))
    ensures ParseDate("2030-05- 1") == Some(Date(2030, 5, 1))
    ensures ParseDate("2024-2-29") == Some(Date(2024, 2, 29))
    ensures ParseDate("2030- 5-01") == None
    ensures ParseDate("2030-05-01 ") == None
  {
  }
}
