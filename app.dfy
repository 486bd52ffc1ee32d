/** The task manager component's state and its event handlers. Each handler
    replaces whole pieces of state, as the component's state setters do. */
module App {
  import opened Tasks
  import opened Query
  import opened Store

  datatype Option<T> = None | Some(value: T)

  class TaskManager {
    /** The task list, in insertion order. */
    var tasks: seq<Task>
    /** Whether the create/edit form is shown. */
    var isModalOpen: bool
    /** The task being edited (as it was when editing began), or None in create mode. */
    var editingTask: Option<Task>
    /** What the form currently holds. */
    var newTask: Draft
    /** The two select boxes and the search box above the list. */
    var filterStatus: Choice<Status>
    var filterPriority: Choice<Priority>
    var searchTerm: string

    /** A closed form is always blank and in create mode: every way of closing it resets it.
        In edit mode the target's creation date is that of every listed task with its id,
        because the form is only opened on a listed task that agrees with the list
        (the precondition of HandleEdit), and toggles and deletes keep that agreement. */
    ghost predicate Valid()
      reads this
    {
      && (!isModalOpen ==> editingTask == None && newTask == DefaultDraft)
      && (editingTask.Some? ==> CreatedAtAgrees(tasks, editingTask.value))
    }

    /** The form is closed, blank and in create mode. */
    ghost predicate FormReset()
      reads this
    {
      !isModalOpen && editingTask == None && newTask == DefaultDraft
    }

    /** The page as first shown: the four seed tasks, nothing filtered, the form closed. */
    constructor ()
      ensures Valid() && FormReset()
      ensures tasks == Seed() && UniqueIds(tasks)
      ensures CurrentCriteria() == ShowAll
    {
      tasks := Seed();
      isModalOpen := false;
      editingTask := None;
      newTask := DefaultDraft;
      filterStatus := All;
      filterPriority := All;
      searchTerm := "";
    }

    function CurrentCriteria(): Criteria
      reads this
    {
      Criteria(filterStatus, filterPriority, searchTerm)
    }

    /** The list shown below the filters: the tasks that match the current criteria. */
    function FilteredTasks(): (r: seq<Task>)
      reads this
      ensures forall i :: 0 <= i < |r| ==> r[i] in tasks && Matches(r[i], CurrentCriteria())
      ensures forall i :: 0 <= i < |tasks| && Matches(tasks[i], CurrentCriteria()) ==> tasks[i] in r
    {
      Filter(tasks, CurrentCriteria())
    }

    /** The counts shown in the header. */
    function Header(): (st: Stats)
      reads this
      ensures st.total == |tasks|
      ensures st.completed + st.inProgress + st.pending == st.total
    {
      TaskStats(tasks)
    }

    /** Submit the form. In edit mode every task with the target's id is replaced by the
        draft, keeping the target's id and creation date; in create mode a task built from
        the draft, the fresh id and today's date is appended. Either way the form is reset.
        `freshId` and `today` stand for the clock readings the component takes. */
    method HandleSubmit(freshId: int, today: string)
      requires Valid()
      modifies this
      ensures Valid() && FormReset()
      ensures old(editingTask).Some? ==> tasks == Edited(old(tasks), old(editingTask).value, old(newTask))
      ensures old(editingTask).None? ==> tasks == Created(old(tasks), old(newTask), freshId, today)
      ensures CurrentCriteria() == old(CurrentCriteria())
      ensures UniqueIds(old(tasks)) && (old(editingTask).Some? || !HasId(old(tasks), freshId)) ==> UniqueIds(tasks)
      ensures old(editingTask).Some? ==> |tasks| == |old(tasks)|
      ensures old(editingTask).Some? ==>
                forall i :: 0 <= i < |tasks| ==> tasks[i].id == old(tasks)[i].id && tasks[i].createdAt == old(tasks)[i].createdAt
    {
      match editingTask {
        case Some(target) =>
          EditKeepsIdentity(tasks, target, newTask);
          if UniqueIds(tasks) {
            EditKeepsUnique(tasks, target, newTask);
          }
          tasks := Edited(tasks, target, newTask);
        case None =>
          if UniqueIds(tasks) && !HasId(tasks, freshId) {
            CreateKeepsUnique(tasks, newTask, freshId, today);
          }
          tasks := Created(tasks, newTask, freshId, today);
      }
      ResetForm();
    }

    /** Cancel, or the tail of a submit: blank the draft, leave edit mode, close the form. */
    method ResetForm()
      modifies this
      ensures Valid() && FormReset()
      ensures tasks == old(tasks) && CurrentCriteria() == old(CurrentCriteria())
    {
      newTask := DefaultDraft;
      editingTask := None;
      isModalOpen := false;
    }

    /** Open the form on a task of the list: edit mode, the draft loaded from the task. */
    method HandleEdit(t: Task)
      requires t in tasks && CreatedAtAgrees(tasks, t)
      modifies this
      ensures Valid() && isModalOpen
      ensures editingTask == Some(t) && newTask == DraftOf(t)
      ensures tasks == old(tasks) && CurrentCriteria() == old(CurrentCriteria())
    {
      editingTask := Some(t);
      newTask := DraftOf(t);
      isModalOpen := true;
    }

    /** The "Add Task" button: only opens the form, which is then blank and in create mode. */
    method OpenForm()
      requires Valid()
      modifies this`isModalOpen
      ensures Valid() && isModalOpen
      ensures old(!isModalOpen) ==> editingTask == None && newTask == DefaultDraft
    {
      isModalOpen := true;
    }

    /** Typing into the open form replaces the draft. */
    method EditDraft(d: Draft)
      requires Valid() && isModalOpen
      modifies this`newTask
      ensures Valid() && newTask == d
    {
      newTask := d;
    }

    /** Delete every task with id `id`. */
    method HandleDelete(id: int)
      requires Valid()
      modifies this`tasks
      ensures Valid()
      ensures tasks == Removed(old(tasks), id)
      ensures UniqueIds(old(tasks)) ==> UniqueIds(tasks)
      ensures UniqueIds(old(tasks)) && HasId(old(tasks), id) ==> |tasks| == |old(tasks)| - 1
      ensures !HasId(old(tasks), id) ==> tasks == old(tasks)
    {
      if UniqueIds(tasks) {
        RemoveKeepsUnique(tasks, id);
        if HasId(tasks, id) {
          RemovePresent(tasks, id);
        }
      }
      if !HasId(tasks, id) {
        RemoveAbsent(tasks, id);
      }
      if editingTask.Some? {
        RemoveKeepsAgreement(tasks, id, editingTask.value);
      }
      tasks := Removed(tasks, id);
    }

    /** The status button of a task: move every task with id `id` one step round the cycle. */
    method ToggleStatus(id: int)
      requires Valid()
      modifies this`tasks
      ensures Valid()
      ensures tasks == Toggled(old(tasks), id)
      ensures UniqueIds(old(tasks)) ==> UniqueIds(tasks)
      ensures !HasId(old(tasks), id) ==> tasks == old(tasks)
    {
      if UniqueIds(tasks) {
        ToggleKeepsUnique(tasks, id);
      }
      if !HasId(tasks, id) {
        ToggleAbsent(tasks, id);
      }
      if editingTask.Some? {
        ToggleKeepsAgreement(tasks, id, editingTask.value);
      }
      tasks := Toggled(tasks, id);
    }

    /** The status select box above the list. */
    method SetFilterStatus(s: Choice<Status>)
      requires Valid()
      modifies this`filterStatus
      ensures Valid()
      ensures CurrentCriteria() == old(CurrentCriteria()).(status := s)
    {
      filterStatus := s;
    }

    /** The priority select box above the list. */
    method SetFilterPriority(p: Choice<Priority>)
      requires Valid()
      modifies this`filterPriority
      ensures Valid()
      ensures CurrentCriteria() == old(CurrentCriteria()).(priority := p)
    {
      filterPriority := p;
    }

    /** The search box above the list. */
    method SetSearchTerm(term: string)
      requires Valid()
      modifies this`searchTerm
      ensures Valid()
      ensures CurrentCriteria() == old(CurrentCriteria()).(searchTerm := term)
    {
      searchTerm := term;
    }
  }
}
