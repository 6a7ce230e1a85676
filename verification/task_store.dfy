/** The task store `useTaskStore`: its state (`tasks`, `filter`), the
    `filteredTasks` getter and the five actions. Each network call the store
    makes is replaced by a parameter holding the call's outcome, and each
    action returns the request it issues. */
module TaskStore {
  import opened TaskModel

  /** Outcome of one call to the task service: resolved with a payload, or
      rejected (connectivity or server failure). */
  datatype Response<T> = Success(payload: T) | Failure

  /** The one request an action sends to the task service. The record of
      `Add` is whatever the caller passed to `createTask`, forwarded unread;
      its `id` and `completed` stand for whatever that object holds (a new
      task has no id yet: the server assigns one). */
  datatype Request =
    | GetAll                            // getTasks()
    | Add(task: Task)                   // addTask(task)
    | Put(id: string, completed: bool)  // updateTask(id, {completed})
    | Delete(id: string)                // deleteTask(id)

  /** The linear scan of `findIndex`: the first index whose id is `id`, or -1. */
  method FindIndex(s: seq<Task>, id: string) returns (index: int)
    ensures index == IndexOf(s, id)
  {
    index := 0;
    while index < |s|
      invariant 0 <= index <= |s|
      invariant forall k :: 0 <= k < index ==> s[k].id != id
    {
      if s[index].id == id {
        return;
      }
      index := index + 1;
    }
    index := -1;
  }

  class Store {
    var tasks: seq<Task>
    var filter: string

    constructor ()
      ensures tasks == [] && filter == "all"
    {
      tasks := [];
      filter := "all";
    }

    /** The `filteredTasks` getter. It only reads the state. "completed" and
        "not_completed" give exactly the matching tasks in list order; any
        other filter value, "all" included, gives the list itself. */
    function FilteredTasks(): (r: seq<Task>)
      reads this
      ensures filter == "completed" ==> IsSelection(r, tasks, CompletedIs(true))
      ensures filter == "not_completed" ==> IsSelection(r, tasks, CompletedIs(false))
      ensures filter != "completed" && filter != "not_completed" ==> r == tasks
      ensures |r| <= |tasks| && forall t :: t in r ==> t in tasks
    {
      if filter == "completed" then
        FilterIsSelection(tasks, CompletedIs(true));
        Filter(tasks, CompletedIs(true))
      else if filter == "not_completed" then
        FilterIsSelection(tasks, CompletedIs(false));
        Filter(tasks, CompletedIs(false))
      else
        tasks
    }

    /** `fetchTasks`: on success the list is overwritten by the server's list. */
    method FetchTasks(response: Response<seq<Task>>) returns (sent: Request)
      modifies this
      ensures sent == GetAll
      ensures tasks == (if response.Success? then response.payload else old(tasks))
      ensures filter == old(filter)
    {
      sent := GetAll;
      if response.Success? {
        tasks := response.payload;
      }
    }

    /** `createTask`: the caller's task is sent as it is, and on success the
        record the server returns is pushed at the end. */
    method CreateTask(task: Task, response: Response<Task>) returns (sent: Request)
      modifies this
      ensures sent == Add(task)
      ensures tasks == (if response.Success? then old(tasks) + [response.payload] else old(tasks))
      ensures response.Success? ==> |tasks| == |old(tasks)| + 1 && tasks[..|old(tasks)|] == old(tasks)
      ensures filter == old(filter)
    {
      sent := Add(task);
      if response.Success? {
        tasks := tasks + [response.payload];
      }
    }

    /** `toggleTaskCompletion`: asks the server to flip `completed`; on success
        the first local entry with the same id is replaced by the returned
        record, and the list is left alone when no entry has that id. */
    method ToggleTaskCompletion(task: Task, response: Response<Task>) returns (sent: Request)
      modifies this
      ensures sent == Put(task.id, !task.completed)
      ensures tasks == (if response.Success? then ReplaceFirst(old(tasks), task.id, response.payload) else old(tasks))
      ensures filter == old(filter)
    {
      sent := Put(task.id, !task.completed);
      if response.Success? {
        var index := FindIndex(tasks, task.id);
        if index != -1 {
          tasks := tasks[index := response.payload];
        }
      }
    }

    /** `removeTask`: on success every entry with the id is dropped and the
        others keep their order. The delete confirmation is not read. */
    method RemoveTask(id: string, response: Response<()>) returns (sent: Request)
      modifies this
      ensures sent == Delete(id)
      ensures tasks == (if response.Success? then Filter(old(tasks), IdIsNot(id)) else old(tasks))
      ensures response.Success? ==> IsSelection(tasks, old(tasks), IdIsNot(id))
      ensures filter == old(filter)
    {
      sent := Delete(id);
      if response.Success? {
        FilterIsSelection(tasks, IdIsNot(id));
        tasks := Filter(tasks, IdIsNot(id));
      }
    }

    /** `setFilter`: any string is accepted as it is. */
    method SetFilter(f: string)
      modifies this
      ensures filter == f && tasks == old(tasks)
    {
      filter := f;
    }
  }

  /** A fresh store fetches two tasks, one of them completed, and switches
      to the "completed" view: only the completed task is visible. */
  method FetchThenShowCompleted() returns (visible: seq<Task>)
    ensures visible == [Task("2", "B", true)]
  {
    var a, b := Task("1", "A", false), Task("2", "B", true);
    var store := new Store();
    var _ := store.FetchTasks(Success([a, b]));
    store.SetFilter("completed");
    visible := store.FilteredTasks();
    SelectionUnique(visible, [a, b], CompletedIs(true));
    assert [a, b][1..] == [b];
  }
}
