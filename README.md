# Task manager: the task store, its queries and its form, in Dafny

This project models the logic of the task-tracking page in
`frontend/src/App.js`. The page keeps an ordered, in-memory list of tasks. A
task has an id, a title, a description, a priority (low, medium or high), a
status (pending, in-progress or completed), an assignee, a due date and a
creation date. The page shows a filtered view of the list. A task passes the
filter when it matches the status select box ("all" or one status), the
priority select box ("all" or one priority), and a search term that occurs in
the title, the description or the assignee, ignoring case. A header shows the
total number of tasks and the number in each status. A modal form creates a
task or edits one. Each task has buttons to delete it and to move its status
one step round the cycle completed → pending → in-progress → completed.

Modules:

- `Selection` (selection.dfy): the array `filter` the component uses for the
  view, for deletion and for the counts. It is a generic, order-preserving
  selection, proved to be exactly the subsequence of the elements that pass.
- `Tasks` (tasks.dfy): the task record, the form draft, the status cycle and
  the four tasks the page starts with.
- `Query` (query.dfy): ASCII case folding, substring search, the
  three-condition filter and the header counts.
- `Store` (store.dfy): the list transformations behind the handlers:
  `Toggled`, `Edited`, `Removed` and `Created`.
- `App` (app.dfy): the component's state as the class `TaskManager`. Its
  fields are `tasks`, `isModalOpen`, `editingTask`, `newTask` and the three
  filter inputs. Its methods are the event handlers. Each method states the
  new state in terms of the functions above. The class invariant `Valid()`
  says that a closed form is always blank and in create mode, and that in edit
  mode every listed task with the target's id has the target's creation date.
- `Scenarios` (scenarios.dfy): concrete runs over the seed list.

The fresh id (`Date.now()` in the component) and today's date are parameters
of `HandleSubmit`. The model does not read a clock.

## Model

| member | source | states |
|---|---|---|
| `Tasks.Apply` | frontend/src/App.js:43 | the task built from a draft carries the given id and creation date, and every draft field unchanged |
| `Tasks.DraftOf` | frontend/src/App.js:72 | the draft loaded into the form is the task's editable fields; it is the inverse of `Apply` (see `Apply` and `DraftRoundTrip`) |
| `Tasks.DefaultDraft` | frontend/src/App.js:18-25 | the blank form: empty text fields, medium priority, pending status; `ResetForm` restores it (App.js:58-65) and `OpenForm` opens on it |
| `Tasks.DraftRoundTrip` | frontend/src/App.js:70-74 | loading a task into the form and submitting it with its own id and creation date gives back the same task |
| `Tasks.NextStatus` | frontend/src/App.js:83-84 | one click always changes the status |
| `Tasks.StatusCycle` | frontend/src/App.js:83-84 | three clicks restore the status and two clicks do not, so the cycle has length exactly three |
| `Tasks.Seed` | frontend/src/App.js:5-10 | the page starts with four tasks whose ids are 1, 2, 3 and 4, so ids are unique |
| `Selection.Select` | frontend/src/App.js:30-37 | `filter` returns no more elements than it is given, only elements of the input that pass, and every element of the input that passes |
| `Selection.SelectIsExactSubsequence` | frontend/src/App.js:30-37 | `filter` returns a subsequence of its input in the original order, made of exactly the positions whose element passes |
| `Selection.SelectAgreeing` | frontend/src/App.js:30-37 | `filter` with two predicates that agree on every element gives the same result |
| `Selection.SelectIdempotent` | frontend/src/App.js:30-37 | filtering twice with the same predicate gives the same result as filtering once |
| `Query.LowerChar` | frontend/src/App.js:33-35 | an upper-case ASCII letter becomes its lower-case partner, anything else is left alone, and the result is never an upper-case letter |
| `Query.Lower` | frontend/src/App.js:33-35 | lower-casing keeps the length and leaves no upper-case letter |
| `Query.LowerSameUpToCase` | frontend/src/App.js:33-35 | two strings that differ only in the case of their letters lower-case to the same string |
| `Query.SameUpToCaseLower` | frontend/src/App.js:33-35 | every string differs from its lower-cased form only in letter case |
| `Query.LowerIdempotent` | frontend/src/App.js:33-35 | lower-casing twice is the same as lower-casing once |
| `Query.Contains` | frontend/src/App.js:33-35 | String `includes`; it has no contract of its own, and `ContainsIff` gives its positional meaning |
| `Query.ContainsIff` | frontend/src/App.js:33-35 | `includes` holds exactly when the needle occurs at some position of the string |
| `Query.ContainsEmpty` | frontend/src/App.js:33-35 | every string includes the empty string |
| `Query.Admits` | frontend/src/App.js:31-32 | a select box passes a value when it is "all" or names exactly that value |
| `Query.MatchesSearch` | frontend/src/App.js:33-35 | the search term, lower-cased, occurs in the lower-cased title, description or assignee; `SearchTermCaseInsensitive` and `SearchFieldsCaseInsensitive` state its case independence |
| `Query.Matches` | frontend/src/App.js:30-36 | the filter callback: status box, priority box and search, all three; `Filter` and `FilterIsExactSubsequence` state what selecting by it gives |
| `Query.Filter` | frontend/src/App.js:30-37 | the view holds only tasks of the list that pass all three conditions, and every task of the list that passes them |
| `Query.FilterIsExactSubsequence` | frontend/src/App.js:30-37 | the view is the subsequence of the list, in order, made of exactly the positions whose task matches status, priority and search |
| `Query.SearchIgnoresCase` | frontend/src/App.js:33-35 | the result of the search does not depend on the case of the search term |
| `Query.SearchTermCaseInsensitive` | frontend/src/App.js:33-35 | two search terms that differ only in letter case match exactly the same tasks |
| `Query.SearchFieldsCaseInsensitive` | frontend/src/App.js:33-35 | two tasks whose title, description and assignee differ only in letter case match exactly the same search terms |
| `Query.FilterTermCaseInsensitive` | frontend/src/App.js:30-37 | two search terms that differ only in letter case give the same view, for any list and any select-box choices |
| `Query.FilterShowAll` | frontend/src/App.js:30-37 | with status "all", priority "all" and an empty search term, the view is the whole list, unchanged |
| `Query.FilterIdempotent` | frontend/src/App.js:30-37 | filtering the view again with the same criteria changes nothing |
| `Query.FilterAppend` | frontend/src/App.js:30-37 | the view of a longer list is the view of the old part followed by the view of the added part |
| `Query.CountStatus` | frontend/src/App.js:111-113 | a status count never exceeds the number of tasks |
| `Query.TaskStats` | frontend/src/App.js:109-114 | the total is the list length, and completed + in-progress + pending equals the total |
| `Query.StatsAddUp` | frontend/src/App.js:109-114 | the three status counts add up to the list length, because every task has exactly one status |
| `Query.StatsAppend` | frontend/src/App.js:109-114 | appending a task adds one to the total and one to the count of its status, and leaves the other counts unchanged |
| `Store.Toggled` | frontend/src/App.js:80-89 | the list keeps its length and its ids in order; tasks with another id are unchanged; a task with the id moves to the next status of the cycle completed → pending → in-progress → completed, and nothing else about it changes |
| `Store.ToggleThrice` | frontend/src/App.js:80-89 | three toggles of the same id give back the whole list |
| `Store.ToggleAbsent` | frontend/src/App.js:80-89 | toggling an id that is not in the list changes nothing |
| `Store.ToggleKeepsUnique` | frontend/src/App.js:80-89 | toggling keeps ids unique |
| `Store.Edited` | frontend/src/App.js:41-45 | an edit keeps the length and the ids in order; tasks with another id are unchanged; each task with the target's id becomes the draft, with the target's creation date |
| `Store.UniqueIdsAgree` | frontend/src/App.js:70-74 | a task taken from a list with unique ids has the creation date of every listed task with its id |
| `Store.EditKeepsIdentity` | frontend/src/App.js:41-45 | when every listed task with the target's id has the target's creation date, the edit leaves every task's id and creation date unchanged |
| `Store.ToggleKeepsAgreement` | frontend/src/App.js:80-89 | toggling keeps an edit target in agreement with the list's creation dates |
| `Store.RemoveKeepsAgreement` | frontend/src/App.js:76-78 | deleting keeps an edit target in agreement with the list's creation dates |
| `Store.EditAbsent` | frontend/src/App.js:41-45 | submitting an edit whose target has been deleted changes nothing |
| `Store.EditKeepsUnique` | frontend/src/App.js:41-45 | an edit keeps ids unique |
| `Store.Removed` | frontend/src/App.js:76-78 | after a delete, no task has the id; every remaining task was in the list; every task with another id remains |
| `Store.RemoveIsExactSubsequence` | frontend/src/App.js:76-78 | a delete keeps the other tasks in their order and drops exactly the positions with the id |
| `Store.RemoveAbsent` | frontend/src/App.js:76-78 | deleting an id that is not in the list changes nothing |
| `Store.RemoveTwice` | frontend/src/App.js:76-78 | deleting the same id a second time changes nothing |
| `Store.RemovePresent` | frontend/src/App.js:76-78 | in a list with unique ids, deleting an id that is present shortens the list by exactly one |
| `Store.RemoveKeepsUnique` | frontend/src/App.js:76-78 | a delete keeps ids unique |
| `Store.Created` | frontend/src/App.js:47-52 | creation appends exactly one task at the end: the draft with the fresh id and today's date; earlier tasks are unchanged |
| `Store.CreateKeepsUnique` | frontend/src/App.js:47-52 | creating with an id not yet in use keeps ids unique |
| `App.TaskManager.constructor` | frontend/src/App.js:5-25 | the page starts with the seed list, the form closed and blank in create mode, and nothing filtered |
| `App.TaskManager.FilteredTasks` | frontend/src/App.js:30-37 | the view for the current filter inputs holds exactly the tasks of the list that match them |
| `App.TaskManager.Header` | frontend/src/App.js:109-114 | the header total is the list length, and the three counts add up to it |
| `App.TaskManager.HandleSubmit` | frontend/src/App.js:39-55 | in edit mode the list becomes `Edited` and every task keeps its id and creation date; in create mode it becomes `Created`; then the form is reset; filters are unchanged; ids stay unique given a fresh id |
| `App.TaskManager.ResetForm` | frontend/src/App.js:57-68 | the draft becomes the default one, edit mode ends and the form closes; the list and the filters are unchanged |
| `App.TaskManager.HandleEdit` | frontend/src/App.js:70-74 | for a task of the list (the edit buttons are rendered from the filtered view, App.js:193-225): edit mode on the task, the draft loaded from it, the form open; the list is unchanged |
| `App.TaskManager.OpenForm` | frontend/src/App.js:123-126 | opening a closed form gives a blank draft in create mode |
| `App.TaskManager.EditDraft` | frontend/src/App.js:249-320 | typing into the open form replaces the draft and nothing else |
| `App.TaskManager.HandleDelete` | frontend/src/App.js:76-78 | the list becomes `Removed`; it keeps the class invariant and ids unique, drops exactly one task when the id is present and unique, and is unchanged when the id is absent |
| `App.TaskManager.ToggleStatus` | frontend/src/App.js:80-89 | the list becomes `Toggled`; it keeps the class invariant and ids unique, and is unchanged when the id is absent |
| `App.TaskManager.SetFilterStatus` | frontend/src/App.js:164-175 | only the status criterion changes; the class invariant is kept |
| `App.TaskManager.SetFilterPriority` | frontend/src/App.js:176-186 | only the priority criterion changes; the class invariant is kept |
| `App.TaskManager.SetSearchTerm` | frontend/src/App.js:156-162 | only the search term changes; the class invariant is kept |
| `Scenarios.FilterSeedCompleted` | frontend/src/App.js:5-37 | on the seed list, the status filter "completed" shows only task 1 |
| `Scenarios.FilterSeedHigh` | frontend/src/App.js:5-37 | on the seed list, the priority filter "high" shows tasks 1, 2 and 4, in that order |
| `Scenarios.FilterSeedJane` | frontend/src/App.js:5-37 | on the seed list, searching "jane" shows only task 2, which is assigned to Jane Smith |
| `Scenarios.SeedStats` | frontend/src/App.js:5-114 | the seed list counts 4 tasks: 1 completed, 1 in progress and 2 pending |
| `Scenarios.CreateAddsPending` | frontend/src/App.js:18-55 | creating a task from the blank form adds one to the total and one to the pending count |
| `Scenarios.DeleteSeedTwice` | frontend/src/App.js:5-78 | deleting task 2 from the seed list leaves three tasks; deleting it again changes nothing |
| `Scenarios.EditSeedTask` | frontend/src/App.js:5-74 | opening task 3 for editing, setting its priority to low and submitting changes that one field of that one task |

## Left out

- Rendering: the markup, CSS classes, icons and the colour helpers `getPriorityColor` and `getStatusColor` (frontend/src/App.js:91-107, 116-345). They affect only presentation.
- The clock: `Date.now()` and `new Date().toISOString()` become the parameters `freshId` and `today` of `HandleSubmit`. The component does not guarantee that a timestamp id is new, so uniqueness of ids is proved only when the caller supplies an id that is not in use.
- Query.Lower: case folding covers ASCII letters only. JavaScript's `toLowerCase` folds all of Unicode.
- Statuses and priorities are enumerations. The component stores them as strings, so an unknown status string would go to `completed` on toggle and would be counted in no status. The model cannot hold such values.
- The form draft keeps only the editable fields. After `handleEdit` the component's draft also carries the task's `id` and `createdAt`. Both submit branches overwrite these two fields, so the difference cannot be observed.
- App.TaskManager.HandleEdit: requires that the task is in the list and that every listed task with its id has its creation date. The component calls `handleEdit` only on a listed task, which gives the first part. The second part holds whenever ids are unique, and also when tasks that share an id share a creation date, as tasks created in the same millisecond do. `HandleSubmit` takes the date as a free parameter, so the model requires the agreement instead of deriving it.
- React's deferred state updates: each handler is modelled as an atomic replacement of the state it sets.
- The Java backend (controller, service, JPA entity and repository). The page does not call it, and its behaviour comes from the Spring framework and a database.

## Notes on the source

- On an edit, the component copies the creation date from the snapshot taken when editing began (`editingTask.createdAt`), not from the task now in the list. `Store.Edited` does the same. The two dates are equal: `HandleEdit` is only called on a task of the list whose creation date every listed task with its id shares, the class invariant `Valid()` keeps that agreement through toggles and deletes, and `HandleSubmit` then proves that an edit changes no task's id or creation date.
- A task's id is described as unique. The code does not enforce this: ids are `Date.now()` timestamps. The model follows the code. Every handler is proved to keep ids unique when they already are, and for a create only when the new id is not in use.
