/** The state of the `App` component and its event handlers. Each handler is one atomic
    transition of the component's state: the task list, the form fields, the add/edit
    mode (the `editId` state, null or the id of the task being edited) and the two
    selectors of the display list. */
module TodoApp {
  import opened Text
  import opened Tasks
  import opened View

  /** `editId === null` is Adding; `editId === id` is Editing(id). */
  datatype Mode = Adding | Editing(id: nat)

  /** The name and description pass the submit guard: neither trims to the empty string. */
  predicate Accepts(name: string, description: string) {
    Trim(name) != [] && Trim(description) != []
  }

  /** The guard rejects exactly the forms whose name or description is empty or whitespace only. */
  lemma AcceptsIffNotBlank(name: string, description: string)
    ensures Accepts(name, description) <==> !IsBlank(name) && !IsBlank(description)
  {
    TrimEmptyIffBlank(name);
    TrimEmptyIffBlank(description);
  }

  class TodoModel {
    var tasks: seq<Task>
    var name: string
    var description: string
    var dueDate: string
    var priority: Priority
    var mode: Mode
    var filter: Filter
    var sortBy: Sort

    /** Ids are creation timestamps: positive and pairwise distinct. The task being
        edited, if any, has a positive id too, so `if (editId)` is true exactly in Editing. */
    ghost predicate Valid()
      reads this
    {
      UniqueIds(tasks) && PositiveIds(tasks)
      && (mode.Editing? ==> mode.id > 0)
    }

    /** The initial state of every `useState` hook. */
    constructor ()
      ensures Valid()
      ensures tasks == [] && name == "" && description == "" && dueDate == "" && priority == Low
      ensures mode == Adding && filter == All && sortBy == None
    {
      tasks := [];
      name, description, dueDate, priority := "", "", "", Low;
      mode := Adding;
      filter, sortBy := All, None;
    }

    /** `handleAddTask`: the submit of the form. `freshId` stands for `Date.now()`. */
    method Submit(freshId: nat)
      requires Valid()
      requires freshId > 0 && freshId !in Ids(tasks)
      modifies this`tasks, this`name, this`description, this`dueDate, this`priority, this`mode
      ensures Valid()
      ensures !old(Accepts(name, description)) ==>
                tasks == old(tasks) && name == old(name) && description == old(description)
                && dueDate == old(dueDate) && priority == old(priority) && mode == old(mode)
      ensures old(Accepts(name, description)) && old(mode) == Adding ==>
                tasks == old(tasks) + [Task(freshId, old(name), old(description), old(dueDate),
                                            old(priority), false)]
      ensures old(Accepts(name, description)) && old(mode).Editing? ==>
                tasks == EditTasks(old(tasks), old(mode).id, old(name), old(description),
                                   old(dueDate), old(priority))
      ensures old(Accepts(name, description)) ==>
                name == "" && description == "" && dueDate == "" && priority == Low
                && mode == Adding
    {
      if !Accepts(name, description) {
        return;
      }
      if mode.Editing? && mode.id != 0 {
        ghost var before := tasks;
        tasks := EditTasks(tasks, mode.id, name, description, dueDate, priority);
        assert SameIds(before, tasks);
        SameIdsKeepUniqueIds(before, tasks);
        mode := Adding;
      } else {
        var newTask := Task(freshId, name, description, dueDate, priority, false);
        ghost var before := tasks;
        AppendKeepsUniqueIds(tasks, newTask);
        tasks := tasks + [newTask];
      }
      name := "";
      description := "";
      dueDate := "";
      priority := Low;
    }

    /** `handleComplete`: flip the completion of the task with id `id`. */
    method Complete(id: nat)
      requires Valid()
      modifies this`tasks
      ensures Valid()
      ensures tasks == ToggleTasks(old(tasks), id)
    {
      ghost var before := tasks;
      tasks := ToggleTasks(tasks, id);
      assert SameIds(before, tasks) by {
        forall i | 0 <= i < |tasks| ensures tasks[i].id == before[i].id {
          assert tasks[i].(completed := before[i].completed) == before[i];
        }
      }
      SameIdsKeepUniqueIds(before, tasks);
    }

    /** `handleDelete`: drop the task with id `id`. */
    method Delete(id: nat)
      requires Valid()
      modifies this`tasks
      ensures Valid()
      ensures tasks == DeleteTasks(old(tasks), id)
      ensures id in old(Ids(tasks)) ==> |tasks| == |old(tasks)| - 1
      ensures id !in old(Ids(tasks)) ==> tasks == old(tasks)
    {
      ghost var before := tasks;
      DeleteKeepsIds(tasks, id);
      tasks := DeleteTasks(tasks, id);
      if id in Ids(before) {
        DeleteRemovesOne(before, id);
      } else {
        DeleteAbsent(before, id);
      }
    }

    /** `handleEdit`: load `task` into the form and switch to editing it. The task comes
        from the rendered list, so it is one of the tasks. */
    method BeginEdit(task: Task)
      requires Valid() && task in tasks
      modifies this`name, this`description, this`dueDate, this`priority, this`mode
      ensures Valid()
      ensures name == task.name && description == task.description
              && dueDate == task.dueDate && priority == task.priority
      ensures mode == Editing(task.id)
    {
      name := task.name;
      description := task.description;
      dueDate := task.dueDate;
      priority := task.priority;
      mode := Editing(task.id);
    }

    /** The filter selector's `onChange`. */
    method SetFilter(f: Filter)
      requires Valid()
      modifies this`filter
      ensures Valid()
      ensures filter == f
    {
      filter := f;
    }

    /** The sort selector's `onChange`. */
    method SetSort(k: Sort)
      requires Valid()
      modifies this`sortBy
      ensures Valid()
      ensures sortBy == k
    {
      sortBy := k;
    }

    /** `sortedTasks`, the list the component renders. */
    function Display(): (r: seq<Task>)
      reads this
      ensures forall t :: t in r <==> t in tasks && Shows(filter, t)
      ensures forall t :: multiset(r)[t] == if Shows(filter, t) then multiset(tasks)[t] else 0
      ensures Sorted(r, sortBy)
    {
      DeriveView(tasks, filter, sortBy)
    }
  }
}
