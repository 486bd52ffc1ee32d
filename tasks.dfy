/** The task record of the task manager, the form draft it is edited through,
    the status cycle, and the four tasks the list starts with. */
module Tasks {

  datatype Status = Pending | InProgress | Completed

  datatype Priority = Low | Medium | High

  /** One task. `id` stands for the numeric id the component assigns (a millisecond
      timestamp for new tasks); dates are kept as the ISO strings the component stores. */
  datatype Task = Task(
    id: int,
    title: string,
    description: string,
    priority: Priority,
    status: Status,
    assignee: string,
    dueDate: string,
    createdAt: string)

  /** The editable fields of a task: what the create/edit form holds. */
  datatype Draft = Draft(
    title: string,
    description: string,
    priority: Priority,
    status: Status,
    assignee: string,
    dueDate: string)

  /** The empty form: blank text fields, medium priority, pending status. */
  const DefaultDraft := Draft("", "", Medium, Pending, "", "")

  /** The task built from a draft and the identity it is given. */
  function Apply(d: Draft, id: int, createdAt: string): (t: Task)
    ensures t.id == id && t.createdAt == createdAt
    ensures DraftOf(t) == d
  {
    Task(id, d.title, d.description, d.priority, d.status, d.assignee, d.dueDate, createdAt)
  }

  /** The draft the edit form is loaded with when a task is opened for editing. */
  function DraftOf(t: Task): Draft
  {
    Draft(t.title, t.description, t.priority, t.status, t.assignee, t.dueDate)
  }

  /** A task is recovered from its draft and its identity: the draft holds every
      field except `id` and `createdAt`. */
  lemma DraftRoundTrip(t: Task)
    ensures Apply(DraftOf(t), t.id, t.createdAt) == t
  {
  }

  /** One click on a task's status button: completed goes back to pending,
      pending goes to in-progress, anything else (in-progress) goes to completed. */
  function NextStatus(s: Status): (r: Status)
    ensures r != s
  {
    if s == Completed then Pending
    else if s == Pending then InProgress
    else Completed
  }

  /** The status cycle has length exactly three. */
  lemma StatusCycle(s: Status)
    ensures NextStatus(NextStatus(NextStatus(s))) == s
    ensures NextStatus(NextStatus(s)) != s
  {
  }

  /** The ids of a task list, in order. */
  function Ids(ts: seq<Task>): seq<int>
  {
    seq(|ts|, i requires 0 <= i < |ts| => ts[i].id)
  }

  /** No two tasks of the list share an id. */
  ghost predicate UniqueIds(ts: seq<Task>)
  {
    forall i, j :: 0 <= i < j < |ts| ==> ts[i].id != ts[j].id
  }

  /** Some task of the list has id `id`. */
  predicate HasId(ts: seq<Task>, id: int)
  {
    exists i :: 0 <= i < |ts| && ts[i].id == id
  }

  /** The list the component starts with. */
  function Seed(): (ts: seq<Task>)
    ensures |ts| == 4 && UniqueIds(ts)
    ensures Ids(ts) == [1, 2, 3, 4]
  {
    [ Task(1, "Setup Development Environment", "Configure React, Spring Boot, and MySQL",
           High, Completed, "John Doe", "2025-08-20", "2025-08-15"),
      Task(2, "Design Database Schema", "Create tables for tasks, users, and projects",
           High, InProgress, "Jane Smith", "2025-08-25", "2025-08-16"),
      Task(3, "Implement REST APIs", "Create CRUD operations for task management",
           Medium, Pending, "Mike Johnson", "2025-08-30", "2025-08-17"),
      Task(4, "Create User Authentication", "Implement JWT-based authentication system",
           High, Pending, "Sarah Wilson", "2025-09-01", "2025-08-18") ]
  }
}
