/** Concrete runs over the four tasks the page starts with. */
module Scenarios {
  import opened Tasks
  import opened Selection
  import opened Query
  import opened Store
  import opened App

  /** Selecting from four tasks decides each of them on its own. */
  lemma SelectFour(a: Task, b: Task, c: Task, d: Task, p: Task -> bool)
    ensures Select([a, b, c, d], p) == (if p(a) then [a] else []) + (if p(b) then [b] else [])
                                       + (if p(c) then [c] else []) + (if p(d) then [d] else [])
  {
    SelectSnoc([], a, p);
    assert [a] == [] + [a] && [a, b] == [a] + [b] && [a, b, c] == [a, b] + [c] && [a, b, c, d] == [a, b, c] + [d];
    SelectSnoc([a], b, p);
    SelectSnoc([a, b], c, p);
    SelectSnoc([a, b, c], d, p);
  }

  /** Selecting from the seed list decides each seed task on its own. */
  lemma SelectSeed(p: Task -> bool)
    ensures var s := Seed();
      Select(s, p) == (if p(s[0]) then [s[0]] else []) + (if p(s[1]) then [s[1]] else [])
                      + (if p(s[2]) then [s[2]] else []) + (if p(s[3]) then [s[3]] else [])
  {
    var s := Seed();
    assert s == [s[0], s[1], s[2], s[3]];
    SelectFour(s[0], s[1], s[2], s[3], p);
  }

  /** With an empty search term only the two select boxes decide. */
  lemma EmptySearchMatchesAll(t: Task, status: Choice<Status>, priority: Choice<Priority>)
    ensures MatchesOf(Criteria(status, priority, ""))(t) == (Admits(status, t.status) && Admits(priority, t.priority))
  {
    ContainsEmpty(Lower(t.title));
  }

  /** The status filter on "completed" shows only the first seed task. */
  lemma FilterSeedCompleted()
    ensures Filter(Seed(), Criteria(Only(Completed), All, "")) == [Seed()[0]]
  {
    var s := Seed();
    var c := Criteria(Only(Completed), All, "");
    EmptySearchMatchesAll(s[0], Only(Completed), All);
    EmptySearchMatchesAll(s[1], Only(Completed), All);
    EmptySearchMatchesAll(s[2], Only(Completed), All);
    EmptySearchMatchesAll(s[3], Only(Completed), All);
    assert s == [s[0], s[1], s[2], s[3]];
    FilterFourOnly(s[0], s[1], s[2], s[3], c, 0);
  }

  /** When exactly one of four tasks matches, the view is that task alone. */
  lemma FilterFourOnly(a: Task, b: Task, c: Task, d: Task, crit: Criteria, k: int)
    requires 0 <= k < 4
    requires forall i :: 0 <= i < 4 ==> (Matches([a, b, c, d][i], crit) <==> i == k)
    ensures Filter([a, b, c, d], crit) == [[a, b, c, d][k]]
  {
    var s := [a, b, c, d];
    assert Matches(s[0], crit) == (k == 0) && Matches(s[1], crit) == (k == 1);
    assert Matches(s[2], crit) == (k == 2) && Matches(s[3], crit) == (k == 3);
    SelectFour(a, b, c, d, MatchesOf(crit));
  }

  /** The priority filter on "high" keeps exactly the high-priority tasks of four, in order. */
  lemma FilterFourHigh(a: Task, b: Task, c: Task, d: Task)
    requires a.priority == High && b.priority == High && c.priority != High && d.priority == High
    ensures Filter([a, b, c, d], Criteria(All, Only(High), "")) == [a, b, d]
  {
    EmptySearchMatchesAll(a, All, Only(High));
    EmptySearchMatchesAll(b, All, Only(High));
    EmptySearchMatchesAll(c, All, Only(High));
    EmptySearchMatchesAll(d, All, Only(High));
    SelectFour(a, b, c, d, MatchesOf(Criteria(All, Only(High), "")));
  }

  /** The priority filter on "high" hides only the third seed task. */
  lemma FilterSeedHighTasks()
    ensures var s := Seed(); Filter(s, Criteria(All, Only(High), "")) == [s[0], s[1], s[3]]
  {
    var s := Seed();
    assert s == [s[0], s[1], s[2], s[3]];
    FilterFourHigh(s[0], s[1], s[2], s[3]);
  }

  /** The priority filter on "high" shows tasks 1, 2 and 4, in that order. */
  lemma FilterSeedHigh()
    ensures Ids(Filter(Seed(), Criteria(All, Only(High), ""))) == [1, 2, 4]
  {
    var s := Seed();
    FilterSeedHighTasks();
    IdsOfThree(s[0], s[1], s[3]);
  }

  lemma IdsOfThree(a: Task, b: Task, c: Task)
    ensures Ids([a, b, c]) == [a.id, b.id, c.id]
  {
  }

  /** If the first character of `sub` occurs in `s` at most at position `k`, and is not followed
      there by the second character of `sub`, then `sub` does not occur in `s`. */
  lemma NotContainsPastFirst(s: string, sub: string, k: int)
    requires |sub| >= 2
    requires forall i :: 0 <= i < |s| && s[i] == sub[0] ==> i == k
    requires 0 <= k < |s| - 1 ==> s[k + 1] != sub[1]
    ensures !Contains(s, sub)
  {
    ContainsIff(s, sub);
  }

  /** A string whose only "j", ignoring case, is at position `k` and is not followed by an "a"
      does not include "jane", ignoring case. */
  lemma NoJaneIn(s: string, k: int)
    requires forall i :: 0 <= i < |s| && i != k ==> s[i] != 'j' && s[i] != 'J'
    requires 0 <= k < |s| - 1 ==> s[k + 1] != 'a' && s[k + 1] != 'A'
    ensures !Contains(Lower(s), Lower("jane"))
  {
    assert Lower("jane") == "jane";
    NotContainsPastFirst(Lower(s), "jane", k);
  }

  // The nine NoJaneIn<Task><Field> lemmas below each settle one text field of one seed task.
  // They are kept apart only so that each proof over the literal strings stays small for
  // the solver; NoJaneInFirst, NoJaneInThird and NoJaneInFourth combine them per task.

  lemma NoJaneInFirstTitle()
    ensures !Contains(Lower(Seed()[0].title), Lower("jane"))
  {
    NoJaneIn("Setup Development Environment", -1);
  }

  lemma NoJaneInFirstDescription()
    ensures !Contains(Lower(Seed()[0].description), Lower("jane"))
  {
    NoJaneIn("Configure React, Spring Boot, and MySQL", -1);
  }

  lemma NoJaneInFirstAssignee()
    ensures !Contains(Lower(Seed()[0].assignee), Lower("jane"))
  {
    NoJaneIn("John Doe", 0);
  }

  /** Seed task 1 does not match the search "jane". */
  lemma NoJaneInFirst()
    ensures !MatchesSearch(Seed()[0], "jane")
  {
    NoJaneInFirstTitle();
    NoJaneInFirstDescription();
    NoJaneInFirstAssignee();
  }

  lemma NoJaneInThirdTitle()
    ensures !Contains(Lower(Seed()[2].title), Lower("jane"))
  {
    NoJaneIn("Implement REST APIs", -1);
  }

  lemma NoJaneInThirdDescription()
    ensures !Contains(Lower(Seed()[2].description), Lower("jane"))
  {
    NoJaneIn("Create CRUD operations for task management", -1);
  }

  lemma NoJaneInThirdAssignee()
    ensures !Contains(Lower(Seed()[2].assignee), Lower("jane"))
  {
    NoJaneIn("Mike Johnson", 5);
  }

  /** Seed task 3 does not match the search "jane". */
  lemma NoJaneInThird()
    ensures !MatchesSearch(Seed()[2], "jane")
  {
    NoJaneInThirdTitle();
    NoJaneInThirdDescription();
    NoJaneInThirdAssignee();
  }

  lemma NoJaneInFourthTitle()
    ensures !Contains(Lower(Seed()[3].title), Lower("jane"))
  {
    NoJaneIn("Create User Authentication", -1);
  }

  lemma NoJaneInFourthDescription()
    ensures !Contains(Lower(Seed()[3].description), Lower("jane"))
  {
    NoJaneIn("Implement JWT-based authentication system", 10);
  }

  lemma NoJaneInFourthAssignee()
    ensures !Contains(Lower(Seed()[3].assignee), Lower("jane"))
  {
    NoJaneIn("Sarah Wilson", -1);
  }

  /** Seed task 4 does not match the search "jane". */
  lemma NoJaneInFourth()
    ensures !MatchesSearch(Seed()[3], "jane")
  {
    NoJaneInFourthTitle();
    NoJaneInFourthDescription();
    NoJaneInFourthAssignee();
  }

  lemma JaneInSecond()
    ensures MatchesSearch(Seed()[1], "jane")
  {
    assert Lower("jane") == "jane";
    assert Lower(Seed()[1].assignee)[..4] == "jane";
  }

  /** Searching for "jane" finds only the task assigned to Jane Smith. */
  lemma FilterSeedJane()
    ensures Filter(Seed(), Criteria(All, All, "jane")) == [Seed()[1]]
  {
    var s := Seed();
    NoJaneInFirst();
    JaneInSecond();
    NoJaneInThird();
    NoJaneInFourth();
    assert s == [s[0], s[1], s[2], s[3]];
    FilterFourSearch(s[0], s[1], s[2], s[3], "jane");
  }

  /** When the search term matches only the second of four tasks, the view is that task alone. */
  lemma FilterFourSearch(a: Task, b: Task, c: Task, d: Task, term: string)
    requires !MatchesSearch(a, term) && MatchesSearch(b, term)
    requires !MatchesSearch(c, term) && !MatchesSearch(d, term)
    ensures Filter([a, b, c, d], Criteria(All, All, term)) == [b]
  {
    SelectFour(a, b, c, d, MatchesOf(Criteria(All, All, term)));
  }

  /** The seed list counts one completed, one in progress and two pending tasks. */
  lemma SeedStats()
    ensures TaskStats(Seed()) == Stats(4, 1, 1, 2)
  {
    SelectSeed(HasStatus(Completed));
    SelectSeed(HasStatus(InProgress));
    SelectSeed(HasStatus(Pending));
  }

  /** Creating a task from the blank form with a title adds one pending task. */
  lemma CreateAddsPending(ts: seq<Task>, freshId: int, today: string)
    ensures var before, after := TaskStats(ts), TaskStats(Created(ts, DefaultDraft.(title := "X"), freshId, today));
      after.total == before.total + 1 && after.pending == before.pending + 1
      && after.completed == before.completed && after.inProgress == before.inProgress
  {
    StatsAppend(ts, Apply(DefaultDraft.(title := "X"), freshId, today));
  }

  /** Deleting task 2 shortens the seed list by one; deleting it again changes nothing. */
  lemma DeleteSeedTwice()
    ensures |Removed(Seed(), 2)| == 3
    ensures Removed(Removed(Seed(), 2), 2) == Removed(Seed(), 2)
  {
    assert Seed()[1].id == 2;
    RemovePresent(Seed(), 2);
    RemoveTwice(Seed(), 2);
  }

  /** Editing task 3, setting its priority to low and submitting changes just that field. */
  method EditSeedTask() returns (tasks: seq<Task>)
    ensures |tasks| == 4 && tasks[2] == Seed()[2].(priority := Low)
    ensures tasks[0] == Seed()[0] && tasks[1] == Seed()[1] && tasks[3] == Seed()[3]
  {
    var m := new TaskManager();
    var t := m.tasks[2];
    UniqueIdsAgree(m.tasks, t);
    m.HandleEdit(t);
    m.EditDraft(m.newTask.(priority := Low));
    m.HandleSubmit(0, "");
    assert m.FormReset();
    tasks := m.tasks;
  }
}
