# Task manager: request handlers as verified state transitions

This project models the business logic of a small Flask task manager (`app.py`). Users
register and sign in. Each user keeps a private list of tasks: they can add, edit,
delete, mark Pendiente/Completada, filter and search them. Every handler is a pure
function from the application state (the `users` and `tasks` tables plus the Flask
session) to a `Step`: the next state and the response (a redirect, a form shown empty or
re-rendered with an error, the task page, 400 Bad Request, or 500 Internal Server
Error). The one exception is `tasks_list`.
It only reads, and it is a method, because it sorts.

Modules, one per concern of `app.py`:

- `Wrappers` (`wrappers.dfy`): `Option`.
- `Text` (`text.dfy`): form-field truthiness. Also the substring search behind `LIKE '%q%'`, proved equal to a reference definition.
- `Dates` (`dates.dfy`): `strptime(s, '%Y-%m-%d')` as CPython's regular expressions accept it, and `date` ordering.
- `Schema` (`schema.dfy`): status enum, symbolic password hash, rows, store, session, responses, and the store invariant `Valid`.
- `Validation` (`validation.dfy`): the due-date check and status coercion shared by add and edit.
- `Auth` (`auth.dfy`): `register`, `login`, `logout`.
- `TaskHandlers` (`tasks.dfy`): `add_task`, `edit_task`, `delete_task`, `mark_task`.
- `Invariants` (`invariants.dfy`): every task handler preserves `Valid`.
- `Listing` (`listing.dfy`): `tasks_list`, meaning the WHERE clause, `ORDER BY created_at DESC`, and the fact that the listing is unique.
- `Properties` (`properties.dfy`): what a write does to later listings.
- `Routes` (`routes.dfy`): one `Request` per writing endpoint. It proves the `login_required` gate, invariant preservation and ownership isolation for all of them.
- `Scenario` (`scenario.dfy`): a concrete register, sign in, add, list, mark and filter run on an empty database, plus date examples.

Points where the code does less, or other, than its own text suggests; the model follows the code:

- The due-date column is commented `Formato YYYY-MM-DD` (app.py:80), and the add and edit forms answer a bad date with "Use YYYY-MM-DD" (app.py:249, app.py:297). The check itself is `strptime(due_date, '%Y-%m-%d')`, which also accepts an unpadded month or day (`2030-5-1`) and a space-padded day (`2030-05- 1`). The string is stored exactly as typed (`Dates.ParseDateSpells`, `Scenario.LenientDateSpellings`).
- A rejected edit re-renders the form with the task as stored, not with what the user typed (app.py:285-297). A rejected add re-renders an empty form (`task=None`, app.py:237-249).
- `register` catches a taken username only as the UNIQUE constraint's `IntegrityError` (app.py:147-152). The model shows that as `UsernameTaken` with no change.
- The `tasks` table's foreign key to `users` has no ON DELETE CASCADE (app.py:93-100), and no handler deletes a user, so a user's rows are never removed except one by one through `delete_task`.

## Model

| member | source | states |
|---|---|---|
| Text.Contains | app.py:211-214 | the search test, with `LIKE '%q%'` read as plain case-sensitive containment, holds exactly when the query occurs as a contiguous substring (reference `IsSubstring`) |
| Dates.ParseDate | app.py:243 | a successful parse yields a real calendar date (year 1..9999, day within its month, leap years) from a string of 8..10 characters with a dash after a 4-digit year |
| Dates.ParseDateSpells | app.py:243 | `strptime` with `%Y-%m-%d` yields a date exactly when it is a real date and the string is one of its spellings: a four-digit year, a dash, the month in two digits or (below 10) one, a dash, the day in two digits or (below 10) one digit or a space and a digit |
| Dates.ParseFormatIso | app.py:243 | every real date written `YYYY-MM-DD` parses back to itself |
| Dates.BeforeIsStrictTotalOrder | app.py:244 | `date <`, modelled by `Dates.Before`, is irreflexive, transitive, asymmetric and total |
| Schema.ParseStatus | app.py:207 | a status argument is recognised exactly when it is `Pendiente` or `Completada`, and the recognised value's label is that argument |
| Schema.ParseLabel | app.py:336 | every status label is recognised as its own status |
| Schema.CheckHashedPassword | app.py:141-173 | `check_password_hash` (`CheckPasswordHash`, app.py:173) applied to the output of `generate_password_hash` (`HashPassword`, app.py:141): a stored hash accepts exactly the password it was made from, whatever the salt |
| Validation.ValidateDueDate | app.py:240-249 | absent or empty due date passes; an unparseable one is a format error; a parsed date before today is a past-date error; anything that passes is a real date not before today |
| Validation.ValidateIsoDueDate | app.py:240-249 | a real date written `YYYY-MM-DD` is accepted exactly when it is not before today, and is otherwise a past-date error |
| Validation.EmptyDueDateAccepted | app.py:240 | no due date and an empty due date both pass |
| Validation.NormalizeStatus | app.py:299-301 | a recognised status label is taken; anything else keeps the previous status |
| Auth.Register | app.py:134-155 | succeeds iff POST with non-empty username and password and the username is new; on success exactly one user is added, earlier users and tasks are kept, the stored value is the salted hash and checks against the password, and the id is fresh; each failure returns its message and changes nothing; the invariant is kept |
| Auth.Login | app.py:161-179 | signs in iff the username exists and the password checks against its stored hash, setting the session to that user's id and name; otherwise the session is kept with an error; the database never changes |
| Auth.Logout | app.py:182-188 | with or without a session, the result has no `user_id`/`username`, the database is unchanged and the answer is a redirect to login |
| Auth.LogoutIdempotent | app.py:186-188 | logging out twice equals logging out once |
| Auth.RegisterThenLogin | app.py:141-176 | after a successful registration, signing in with the same name succeeds with exactly the registered password and binds the session to the new user |
| Auth.RegisterTwiceConflicts | app.py:147-152 | registering a taken username fails with the conflict message and no change, whatever the non-empty password (an empty one gets the missing-credentials message first) |
| TaskHandlers.AddTask | app.py:227-259 | gated; succeeds iff POST with a non-empty title and a due date that passes; on success exactly one Pending row owned by the session user is inserted with the given fields and the newest created_at; a rejection returns its message and changes nothing; other users' rows are untouched |
| TaskHandlers.EditTask | app.py:264-310 | gated; an id beyond SQLite's 64-bit INTEGER is a server error with no change; a missing or foreign task redirects with no change; GET shows the stored task; a rejected POST changes nothing; an accepted POST changes only that row's title, description, due date and status (an unrecognised status keeps the old one), keeping id, owner and created_at |
| TaskHandlers.DeleteTask | app.py:315-324 | gated; an id beyond SQLite's 64-bit INTEGER is a server error with no change; otherwise an owned task is removed and every other row kept; a missing or foreign one changes nothing |
| TaskHandlers.MarkTask | app.py:329-342 | gated; an unrecognised status or a missing or foreign task changes nothing; a recognised status with an id beyond SQLite's 64-bit INTEGER is a server error with no change; otherwise only that row's status changes, to the given label |
| Invariants.InsertKeepsValid | app.py:253-256 | inserting with the next id and clock, owned by the signed-in user, keeps ids and created_at unique and every owner existing |
| Invariants.RewriteKeepsValid | app.py:303-306 | rewriting a row in place while keeping id, owner and created_at keeps the invariant |
| Invariants.AddTaskKeepsValid | app.py:251-257 | `add_task` preserves the store invariant |
| Invariants.EditTaskKeepsValid | app.py:303-307 | `edit_task` preserves the store invariant |
| Invariants.DeleteTaskKeepsValid | app.py:322-323 | `delete_task` preserves the store invariant |
| Invariants.MarkTaskKeepsValid | app.py:336-341 | `mark_task` preserves the store invariant |
| Listing.Selected | app.py:204-214 | the WHERE clause: a row is selected exactly when it is the user's, its status label equals the status argument unless that argument is not a recognised label, and, for a non-empty search, the search (`LIKE` read as plain case-sensitive containment) occurs as a substring of its title or of its non-NULL description |
| Listing.SortNewestFirst | app.py:216 | the result holds each given row exactly once, ordered by created_at descending |
| Listing.ListTasks | app.py:204-219 | exactly the rows passing the WHERE clause, each once, newest first; every row is the user's; a recognised status filter restricts to that status; a non-empty search restricts to rows whose title or description contains it; an unrecognised status applies no restriction |
| Listing.TasksList | app.py:195-222 | gated; never changes state; the page shows the session user's listing and echoes the username and both arguments |
| Listing.ListingUnique | app.py:216 | with created_at unique, two duplicate-free newest-first sequences of the same rows are equal |
| Listing.ListingDependsOnOwnRows | app.py:204-205 | a user's listing is determined by that user's rows alone |
| Properties.AddedTaskListedFirst | app.py:253-256 | a task just added heads its owner's unfiltered or Pendiente listing, with its title, description, due date and status Pending |
| Properties.MarkedTaskLeavesOtherFilter | app.py:336-340 | after marking an owned task `s`, the other status's filter never shows it |
| Properties.MarkedTaskUnderItsFilter | app.py:336-340 | after marking an owned task `s`, the `s` filter shows it with status `s` |
| Properties.DeletedTaskNotListed | app.py:322 | after deleting an owned task, no user's listing shows a row with its id |
| Properties.ForeignTaskLooksMissing | app.py:270-276 | for ids within SQLite's INTEGER range, editing a foreign task answers exactly as editing a missing one: redirect, no change |
| Routes.Handle | app.py:131-342 | the endpoint table: a gated request without a session is turned away untouched; only `login` and `logout` change the session; only `register` changes the users; `register`, `login` and `logout` leave the tasks as they were |
| Routes.OversizedTaskIdFails | app.py:270-340 | a signed-in edit, delete, or mark with a recognised status, naming a task id beyond SQLite's 64-bit INTEGER, is a server error (the OverflowError of binding it) and changes nothing |
| Routes.GateShortCircuits | app.py:115-118 | every gated request without a session redirects to login and changes nothing |
| Routes.HandleKeepsValid | app.py:134-342 | every request preserves the store and session invariant |
| Routes.HandleKeepsOthersRows | app.py:270-340 | no request touches, adds or removes a row of a user other than the session's |
| Routes.HandleKeepsOthersListing | app.py:204-216 | no request changes what another user's task list shows |
| Scenario.EmptyStateValid | app.py:34-105 | the empty tables `init_db` creates, with nobody signed in, satisfy the invariant every handler preserves |
| Scenario.WithReportValid | app.py:253-256 | the state after the scenario's add, one user and one task, satisfies the same invariant |
| Scenario.AliceRegisters | app.py:147-149 | registering on an empty database stores one user with the hashed password |
| Scenario.AliceSignsIn | app.py:173-176 | that user then signs in with the same credentials |
| Scenario.FutureDueDateAccepted | app.py:240-244 | `2030-05-01` passes on any day up to then |
| Scenario.AliceAddsReport | app.py:251-258 | adding "Write report" inserts one Pending row with id 1 |
| Scenario.AliceCompletesReport | app.py:336-341 | marking it Completada changes only its status |
| Scenario.ReportListed | app.py:204-219 | her listing is exactly that one task |
| Scenario.NothingPending | app.py:207-209 | once it is Completada, her Pendiente listing is empty |
| Scenario.DueDateExamples | app.py:240-249 | month 13 or Feb 29 of a common year is a format error; 2000-01-01 is in the past |
| Scenario.LenientDateSpellings | app.py:243 | unpadded months and days, and a space-padded day, parse; a space-padded month and trailing text do not |

## Left out

- Flask plumbing is not modelled: `render_template`, `url_for`, form parsing beyond "key present or not", HTTP 405 for wrong verbs, and the `app.run` entry point (app.py:346-352). Responses are the `Response` datatype.
- The connection lifecycle and DDL (`get_db`, `close_connection`, `init_db`, app.py:17-105) and `database.py` are I/O. The schema appears only as the `Valid` invariant and the AUTOINCREMENT counters; the empty database `init_db` leaves is `Scenario.EmptyState`.
- Any other exception from a database call (for example `OperationalError`, or the `except Exception` branch of `register`, app.py:153-154) is left out. The one modelled is the OverflowError of binding an oversized task id (see `Routes.OversizedTaskIdFails` and the AUTOINCREMENT line below).
- `generate_password_hash` and `check_password_hash` are symbolic (`Salted(salt, secret)`): the check is exact equality with the hashed password, and the random salt is a parameter. Collisions and timing are not modelled.
- `datetime.now().date()` is the parameter `today`. `strptime` is modelled for ASCII digits only. Python's `\d` also matches other Unicode decimal digits, which this model rejects.
- Text.Contains, Listing.Selected, Listing.ListTasks: the search is plain case-sensitive substring containment. SQLite's `LIKE` also folds ASCII case, and it treats `%` and `_` inside the query as wildcards. Those extra matches are not modelled.
- `created_at` is a counter that grows with each insert. `CURRENT_TIMESTAMP` has one-second resolution, so real rows can tie, and SQLite then orders the tied rows arbitrarily. The model has no ties.
- TaskHandlers.AddTask: "exactly one row is inserted" and "other users' rows are untouched" are promised only from a state satisfying `Valid`. A state whose id counter had already been used could overwrite a row, which AUTOINCREMENT rules out.
- The session is trusted as given. Cookie signing, the hard-coded secret key (app.py:11), and forged or stale sessions naming a user that does not exist are not modelled. SQLite does not enforce the foreign key by default, so a stale session could insert orphan rows.
- The AUTOINCREMENT counters are unbounded. Once SQLite's largest rowid (2^63 - 1) is used, a further insert fails with SQLITE_FULL; that failure of `register` and `add_task` is not modelled. Task ids in URLs beyond that range are modelled (`Routes.OversizedTaskIdFails`).
- Concurrency is not modelled. Each handler is one atomic transition.
