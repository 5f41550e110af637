/**
 * GET / (`tasks_list`): the session user's tasks, optionally restricted to one status
 * and to a search term, newest first.
 */
module Listing {
  import opened Wrappers
  import opened Text
  import opened Schema

  /**
   * The WHERE clause `tasks_list` builds: the owner filter, the status filter when the
   * argument is one of the two labels, and the title-or-description search when the
   * search argument is non-empty. A NULL description never matches.
   */
  function Selected(t: Task, userId: nat, statusArg: Option<string>, searchArg: Option<string>): (r: bool)
    ensures r <==>
      && t.userId == userId
      && (statusArg == Some(Label(t.status)) || ParseStatus(statusArg).None?)
      && (Filled(searchArg) ==> MentionsSearch(t, searchArg.value))
  {
    && t.userId == userId
    && (ParseStatus(statusArg).Some? ==> t.status == ParseStatus(statusArg).value)
    && (Filled(searchArg) ==>
          Contains(t.title, searchArg.value) || (t.description.Some? && Contains(t.description.value, searchArg.value)))
  }

  /** The search condition stated with the reference substring relation. */
  ghost predicate MentionsSearch(t: Task, q: string) {
    IsSubstring(q, t.title) || (t.description.Some? && IsSubstring(q, t.description.value))
  }

  /** `ORDER BY created_at DESC`. */
  ghost predicate NewestFirst(r: seq<Task>) {
    forall i, j :: 0 <= i < j < |r| ==> r[i].createdAt >= r[j].createdAt
  }

  ghost predicate Distinct(r: seq<Task>) {
    forall i, j :: 0 <= i < j < |r| ==> r[i] != r[j]
  }

  /** `r` holds each selected row exactly once, newest first. */
  ghost predicate IsListing(r: seq<Task>, tasks: map<nat, Task>, userId: nat, statusArg: Option<string>, searchArg: Option<string>) {
    && (forall t :: t in r <==> t in tasks.Values && Selected(t, userId, statusArg, searchArg))
    && Distinct(r)
    && NewestFirst(r)
  }

  predicate IsNewest(t: Task, s: set<Task>) {
    forall u :: u in s ==> u.createdAt <= t.createdAt
  }

  /** A non-empty set of rows has a newest one. */
  lemma {:induction false} NewestExists(s: set<Task>)
    requires s != {}
    ensures exists t :: t in s && IsNewest(t, s)
  {
    var x :| x in s;
    if s == {x} {
      assert IsNewest(x, s);
    } else {
      NewestExists(s - {x});
      var y :| y in s - {x} && IsNewest(y, s - {x});
      if x.createdAt <= y.createdAt {
        assert IsNewest(y, s);
      } else {
        assert IsNewest(x, s);
      }
    }
  }

  /** Orders a set of rows by created_at, newest first, by repeatedly taking the newest remaining row. */
  method SortNewestFirst(s: set<Task>) returns (r: seq<Task>)
    ensures forall t :: t in r <==> t in s
    ensures |r| == |s|
    ensures Distinct(r)
    ensures NewestFirst(r)
  {
    r := [];
    var rest := s;
    while rest != {}
      invariant rest <= s
      invariant forall t :: t in r <==> t in s && t !in rest
      invariant |r| + |rest| == |s|
      invariant Distinct(r)
      invariant NewestFirst(r)
      invariant forall i, u :: 0 <= i < |r| && u in rest ==> u.createdAt <= r[i].createdAt
      decreases |rest|
    {
      NewestExists(rest);
      var t :| t in rest && IsNewest(t, rest);
      r := r + [t];
      rest := rest - {t};
    }
  }

  /** The rows `tasks_list` fetches for `userId`. */
  method ListTasks(tasks: map<nat, Task>, userId: nat, statusArg: Option<string>, searchArg: Option<string>)
    returns (r: seq<Task>)
    ensures IsListing(r, tasks, userId, statusArg, searchArg)
    ensures forall t :: t in r ==> t in tasks.Values && t.userId == userId
    ensures ParseStatus(statusArg).Some? ==> forall t :: t in r ==> statusArg == Some(Label(t.status))
    ensures Filled(searchArg) ==> forall t :: t in r ==> MentionsSearch(t, searchArg.value)
    ensures ParseStatus(statusArg).None? ==>
      forall t :: t in tasks.Values && t.userId == userId && (Filled(searchArg) ==> MentionsSearch(t, searchArg.value)) ==> t in r
  {
    var selected := set t | t in tasks.Values && Selected(t, userId, statusArg, searchArg);
    r := SortNewestFirst(selected);
  }

  /**
   * The `tasks_list` handler, behind the login gate. It reads and never writes; the page
   * also echoes the session's username and both query arguments.
   */
  method TasksList(st: State, statusArg: Option<string>, searchArg: Option<string>) returns (r: Step)
    ensures r.state == st
    ensures st.session.Anonymous? ==> r.response == RedirectToLogin
    ensures st.session.SignedIn? ==>
      && r.response.TaskPage?
      && r.response == TaskPage(r.response.tasks, st.session.username, statusArg, searchArg)
      && IsListing(r.response.tasks, st.db.tasks, st.session.userId, statusArg, searchArg)
  {
    if st.session.Anonymous? {
      return Step(st, RedirectToLogin);
    }
    var tasks := ListTasks(st.db.tasks, st.session.userId, statusArg, searchArg);
    r := Step(st, TaskPage(tasks, st.session.username, statusArg, searchArg));
  }

  /** Two newest-first sequences of the same rows, created_at unique, start with the same row. */
  lemma SameNewest(a: seq<Task>, b: seq<Task>)
    requires |a| > 0
    requires forall t :: t in a <==> t in b
    requires NewestFirst(a) && NewestFirst(b)
    requires forall s, t :: s in a && t in a && s.createdAt == t.createdAt ==> s == t
    ensures |b| > 0 && a[0] == b[0]
  {
    assert a[0] in b;
    var m :| 0 <= m < |b| && b[m] == a[0];
    assert b[0] in a;
    var k :| 0 <= k < |a| && a[k] == b[0];
    assert a[0].createdAt >= a[k].createdAt;
    assert b[0].createdAt >= b[m].createdAt;
  }

  /** Removing the same first row from two duplicate-free sequences of the same rows leaves the same rows. */
  lemma SameRowsAfterHead(a: seq<Task>, b: seq<Task>)
    requires |a| > 0 && |b| > 0 && a[0] == b[0]
    requires forall t :: t in a <==> t in b
    requires Distinct(a) && Distinct(b)
    ensures forall t :: t in a[1..] <==> t in b[1..]
  {
    forall t
      ensures t in a[1..] ==> t in b[1..]
    {
      if t in a[1..] {
        var i :| 1 <= i < |a| && a[i] == t;
        assert t in a;
        var j :| 0 <= j < |b| && b[j] == t;
        assert j != 0;
        assert t == b[1..][j - 1];
      }
    }
    forall t
      ensures t in b[1..] ==> t in a[1..]
    {
      if t in b[1..] {
        var j :| 1 <= j < |b| && b[j] == t;
        assert t in b;
        var i :| 0 <= i < |a| && a[i] == t;
        assert i != 0;
        assert t == a[1..][i - 1];
      }
    }
  }

  /**
   * With created_at unique among the rows, the listing is determined by its rows: two
   * duplicate-free newest-first sequences of the same rows are equal.
   */
  lemma {:induction false} ListingUnique(a: seq<Task>, b: seq<Task>)
    requires forall t :: t in a <==> t in b
    requires Distinct(a) && Distinct(b)
    requires NewestFirst(a) && NewestFirst(b)
    requires forall s, t :: s in a && t in a && s.createdAt == t.createdAt ==> s == t
    ensures a == b
  {
    if |a| > 0 {
      SameNewest(a, b);
      SameRowsAfterHead(a, b);
      ListingUnique(a[1..], b[1..]);
      assert a == [a[0]] + a[1..];
      assert b == [b[0]] + b[1..];
    }
  }

  /**
   * A user's listing depends on that user's rows only: if they are kept, the listing
   * is the same, whatever happened to everyone else's rows.
   */
  lemma ListingDependsOnOwnRows(
    before: map<nat, Task>, after: map<nat, Task>, viewer: nat,
    statusArg: Option<string>, searchArg: Option<string>, seen: seq<Task>, seenAfter: seq<Task>)
    requires OwnRowsKept(before, after, viewer)
    requires DistinctCreation(before)
    requires IsListing(seen, before, viewer, statusArg, searchArg)
    requires IsListing(seenAfter, after, viewer, statusArg, searchArg)
    ensures seen == seenAfter
  {
    forall t
      ensures t in seen <==> t in seenAfter
    {
      if t in seen {
        var k :| k in before && before[k] == t;
        assert after[k] == t;
      }
      if t in seenAfter {
        var k :| k in after && after[k] == t;
        assert before[k] == t;
      }
    }
    forall s, t | s in seen && t in seen && s.createdAt == t.createdAt
      ensures s == t
    {
      var i :| i in before && before[i] == s;
      var j :| j in before && before[j] == t;
    }
    ListingUnique(seen, seenAfter);
  }
}
