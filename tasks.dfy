/** Task records and the new task lists the handlers build from the old one:
    the edit (`tasks.map` with a spread), the completion toggle (`tasks.map`) and
    the delete (`tasks.filter`). */
module Tasks {
  import opened Seqs

  datatype Priority = Low | Medium | High

  /** The table `{ High: 3, Medium: 2, Low: 1 }` the Priority sort compares by. */
  function Rank(p: Priority): nat {
    match p
    case High => 3
    case Medium => 2
    case Low => 1
  }

  /** A task: `id` is the creation timestamp, `dueDate` the raw value of the date input. */
  datatype Task = Task(id: nat, name: string, description: string, dueDate: string,
                       priority: Priority, completed: bool)

  function Ids(tasks: seq<Task>): set<nat> {
    set t | t in tasks :: t.id
  }

  predicate UniqueIds(tasks: seq<Task>) {
    forall i, j :: 0 <= i < j < |tasks| ==> tasks[i].id != tasks[j].id
  }

  /** Ids are `Date.now()` timestamps, all positive. */
  predicate PositiveIds(tasks: seq<Task>) {
    forall i :: 0 <= i < |tasks| ==> tasks[i].id > 0
  }

  /** The edit-submit map: every task with id `id` takes the form's name, description,
      due date and priority and keeps its id and completion; every other task is unchanged. */
  function EditTasks(tasks: seq<Task>, id: nat, name: string, description: string,
                     dueDate: string, priority: Priority): (r: seq<Task>)
    ensures |r| == |tasks|
    ensures forall i :: 0 <= i < |tasks| ==>
              r[i].id == tasks[i].id && r[i].completed == tasks[i].completed
    ensures forall i :: 0 <= i < |tasks| && tasks[i].id == id ==>
              r[i].name == name && r[i].description == description
              && r[i].dueDate == dueDate && r[i].priority == priority
    ensures forall i :: 0 <= i < |tasks| && tasks[i].id != id ==> r[i] == tasks[i]
  {
    if tasks == [] then []
    else
      var t := tasks[0];
      var t' := if t.id == id
                then t.(name := name, description := description, dueDate := dueDate, priority := priority)
                else t;
      [t'] + EditTasks(tasks[1..], id, name, description, dueDate, priority)
  }

  /** Editing a task that is no longer in the list (deleted while being edited) changes nothing. */
  lemma {:induction false} EditAbsent(tasks: seq<Task>, id: nat, name: string, description: string,
                                      dueDate: string, priority: Priority)
    requires id !in Ids(tasks)
    ensures EditTasks(tasks, id, name, description, dueDate, priority) == tasks
  {
    var r := EditTasks(tasks, id, name, description, dueDate, priority);
    forall i | 0 <= i < |tasks| ensures r[i] == tasks[i] {
      assert tasks[i] in tasks;
    }
  }

  /** Submitting an edit without changing the loaded fields leaves the list as it was:
      with unique ids, the only task carrying `t.id` is `t` itself. */
  lemma EditWithOwnFields(tasks: seq<Task>, t: Task)
    requires UniqueIds(tasks) && t in tasks
    ensures EditTasks(tasks, t.id, t.name, t.description, t.dueDate, t.priority) == tasks
  {
    var r := EditTasks(tasks, t.id, t.name, t.description, t.dueDate, t.priority);
    var m :| 0 <= m < |tasks| && tasks[m] == t;
    forall i | 0 <= i < |tasks| ensures r[i] == tasks[i] {
      assert tasks[i].id == t.id ==> i == m;
    }
  }

  /** The completion toggle: `completed` flips exactly on the tasks with id `id`,
      and no other field of any task changes. */
  function ToggleTasks(tasks: seq<Task>, id: nat): (r: seq<Task>)
    ensures |r| == |tasks|
    ensures forall i :: 0 <= i < |tasks| ==>
              r[i].(completed := tasks[i].completed) == tasks[i]
              && (r[i].completed != tasks[i].completed <==> tasks[i].id == id)
  {
    if tasks == [] then []
    else
      var t := tasks[0];
      [if t.id == id then t.(completed := !t.completed) else t] + ToggleTasks(tasks[1..], id)
  }

  /** Toggling the same id twice restores the list. */
  lemma ToggleTwice(tasks: seq<Task>, id: nat)
    ensures ToggleTasks(ToggleTasks(tasks, id), id) == tasks
  {
    var r := ToggleTasks(ToggleTasks(tasks, id), id);
    forall i | 0 <= i < |tasks| ensures r[i] == tasks[i] {
      var once := ToggleTasks(tasks, id);
      assert once[i].id == tasks[i].id by {
        assert once[i].(completed := tasks[i].completed) == tasks[i];
      }
    }
  }

  /** Toggling an id no task has changes nothing. */
  lemma ToggleAbsent(tasks: seq<Task>, id: nat)
    requires id !in Ids(tasks)
    ensures ToggleTasks(tasks, id) == tasks
  {
    var r := ToggleTasks(tasks, id);
    forall i | 0 <= i < |tasks| ensures r[i] == tasks[i] {
      assert tasks[i] in tasks;
    }
  }

  function HasOtherId(id: nat): Task -> bool {
    (t: Task) => t.id != id
  }

  /** The delete filter: exactly the tasks whose id is not `id`, in their original order. */
  function DeleteTasks(tasks: seq<Task>, id: nat): (r: seq<Task>)
    ensures forall t :: t in r <==> t in tasks && t.id != id
    ensures forall t :: multiset(r)[t] == if t.id != id then multiset(tasks)[t] else 0
    ensures IsSubsequence(r, tasks)
  {
    SelectIsSubsequence(tasks, HasOtherId(id));
    Select(tasks, HasOtherId(id))
  }

  /** Deleting an id no task has changes nothing. */
  lemma DeleteAbsent(tasks: seq<Task>, id: nat)
    requires id !in Ids(tasks)
    ensures DeleteTasks(tasks, id) == tasks
  {
    forall i | 0 <= i < |tasks| ensures HasOtherId(id)(tasks[i]) {
      assert tasks[i] in tasks;
    }
    SelectAll(tasks, HasOtherId(id));
  }

  /** Deleting the same id twice is deleting it once. */
  lemma DeleteTwice(tasks: seq<Task>, id: nat)
    ensures DeleteTasks(DeleteTasks(tasks, id), id) == DeleteTasks(tasks, id)
  {
    SelectIdempotent(tasks, HasOtherId(id));
  }

  /** With unique ids, deleting a present id removes exactly one task. */
  lemma {:induction false} DeleteRemovesOne(tasks: seq<Task>, id: nat)
    requires UniqueIds(tasks) && id in Ids(tasks)
    ensures |DeleteTasks(tasks, id)| == |tasks| - 1
  {
    var rest := tasks[1..];
    assert tasks == [tasks[0]] + rest;
    SelectCons(tasks[0], rest, HasOtherId(id));
    assert forall k :: 0 <= k < |rest| ==> rest[k].id != tasks[0].id by {
      forall k | 0 <= k < |rest| ensures rest[k].id != tasks[0].id {
        assert rest[k] == tasks[k + 1];
      }
    }
    if tasks[0].id == id {
      SelectAll(rest, HasOtherId(id));
    } else {
      assert UniqueIds(rest) by {
        forall i, j | 0 <= i < j < |rest| ensures rest[i].id != rest[j].id {
          assert rest[i] == tasks[i + 1] && rest[j] == tasks[j + 1];
        }
      }
      assert id in Ids(rest) by {
        var t :| t in tasks && t.id == id;
        assert t != tasks[0];
        assert t in rest;
      }
      DeleteRemovesOne(rest, id);
    }
  }

  /** Selecting from a list with unique ids keeps the ids unique. */
  lemma {:induction false} SelectKeepsUniqueIds(tasks: seq<Task>, p: Task -> bool)
    requires UniqueIds(tasks)
    ensures UniqueIds(Select(tasks, p))
  {
    if tasks != [] {
      var rest := tasks[1..];
      assert tasks == [tasks[0]] + rest;
      SelectCons(tasks[0], rest, p);
      SelectKeepsUniqueIds(rest, p);
      var r' := Select(rest, p);
      assert forall k :: 0 <= k < |r'| ==> r'[k].id != tasks[0].id by {
        forall k | 0 <= k < |r'| ensures r'[k].id != tasks[0].id {
          assert r'[k] in r';
          var m :| 0 <= m < |rest| && rest[m] == r'[k];
          assert rest[m] == tasks[m + 1];
        }
      }
      if p(tasks[0]) {
        ConsKeepsUniqueIds(tasks[0], r');
      }
    }
  }

  lemma ConsKeepsUniqueIds(t: Task, s: seq<Task>)
    requires UniqueIds(s) && forall k :: 0 <= k < |s| ==> s[k].id != t.id
    ensures UniqueIds([t] + s)
  {
    var r := [t] + s;
    forall i, j | 0 <= i < j < |r| ensures r[i].id != r[j].id {
      assert r[j] == s[j - 1];
      if i > 0 { assert r[i] == s[i - 1]; }
    }
  }

  /** Two lists with the same id at every position. */
  predicate SameIds(a: seq<Task>, b: seq<Task>) {
    |a| == |b| && forall i :: 0 <= i < |a| ==> a[i].id == b[i].id
  }

  lemma SameIdsKeepUniqueIds(a: seq<Task>, b: seq<Task>)
    requires SameIds(a, b) && UniqueIds(a) && PositiveIds(a)
    ensures UniqueIds(b) && PositiveIds(b)
  {
    forall i, j | 0 <= i < j < |b| ensures b[i].id != b[j].id {
      assert a[i].id != a[j].id;
    }
  }

  /** Appending a task with a new id keeps the ids unique. */
  lemma AppendKeepsUniqueIds(tasks: seq<Task>, t: Task)
    requires UniqueIds(tasks) && PositiveIds(tasks) && t.id !in Ids(tasks) && t.id > 0
    ensures UniqueIds(tasks + [t]) && PositiveIds(tasks + [t])
  {
    var r := tasks + [t];
    forall i, j | 0 <= i < j < |r| ensures r[i].id != r[j].id {
      assert r[i] == tasks[i];
      if j == |tasks| { assert tasks[i] in tasks; } else { assert r[j] == tasks[j]; }
    }
    forall i | 0 <= i < |r| ensures r[i].id > 0 {
      if i < |tasks| { assert r[i] == tasks[i]; }
    }
  }

  /** Deleting keeps the ids unique and positive. */
  lemma DeleteKeepsIds(tasks: seq<Task>, id: nat)
    requires UniqueIds(tasks) && PositiveIds(tasks)
    ensures UniqueIds(DeleteTasks(tasks, id)) && PositiveIds(DeleteTasks(tasks, id))
  {
    SelectKeepsUniqueIds(tasks, HasOtherId(id));
    var r := DeleteTasks(tasks, id);
    forall i | 0 <= i < |r| ensures r[i].id > 0 {
      assert r[i] in tasks;
    }
  }
}
