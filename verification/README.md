# Task store model

A Dafny model of `useTaskStore`, the client-side store of the Task-Manager
web application (`frontend/src/stores/taskStore.js`). The store holds an
ordered list of task records (`_id`, `title`, `completed`) and a `filter`
string. It offers a derived view, `filteredTasks`, and five actions. Four
actions call the task service and apply the result to the list:
`fetchTasks`, `createTask`, `toggleTaskCompletion` and `removeTask`. The
fifth, `setFilter`, only assigns the filter.

The project has two modules:

- `TaskModel` (`task_model.dfy`) holds the values: the `Task` record and the
  three `filter` callbacks the store uses, written as one `Criterion` datatype.
  It also holds the order-preserving selection `Filter`, the `findIndex`
  search `IndexOf` and the in-place replacement `ReplaceFirst`. Beside them
  are lemmas: `Filter` is the one and only order-preserving selection of the
  matching tasks; selecting twice is selecting once; the two completion views
  partition the list. For task ids: removal keeps them unique; an append
  keeps them unique exactly when the server's record carries a fresh id; a
  toggle keeps them unique when the returned record carries the toggled id;
  a fetch takes the server's list as it is. The store itself checks none of
  these conditions.
- `TaskStore` (`task_store.dfy`) holds the class `Store`, with the fields
  `tasks` and `filter`, the getter and the five actions. It also holds
  `FindIndex`, the loop form of the `findIndex` scan. Every network call is
  a parameter `Response<T>`, either `Success(payload)` or `Failure`. Each
  action returns the `Request` it sends, and it changes the list only on
  `Success`. This matches the `try`/`catch` blocks of the source, which leave
  the state alone when a call rejects.

The comment above `toggleTaskCompletion` says it throws on failure
(`frontend/src/stores/taskStore.js:100`), but its code catches the error
and only logs it (lines 112-114). The model follows the code: a failed
toggle returns normally and leaves the state unchanged.

`filter` is kept as an arbitrary string, as in the source. Any value other
than `"completed"` and `"not_completed"` shows the whole list, just as
`"all"` does.

## Model

| member | source | states |
|---|---|---|
| `TaskStore.Store.constructor` | frontend/src/stores/taskStore.js:63-66 | a new store has an empty task list and the filter `"all"` |
| `TaskStore.Store.FilteredTasks` | frontend/src/stores/taskStore.js:68-75 | reads the state and changes nothing; `"completed"` yields an order-preserving selection holding every completed task as often as the list does and nothing else; `"not_completed"` does the same for open tasks; every other filter string yields the list unchanged; the result is never longer than the list and holds only tasks from it |
| `TaskStore.Store.FetchTasks` | frontend/src/stores/taskStore.js:78-84 | sends a list request; on success the list becomes exactly the server's list, with no merge; on failure the list is unchanged; the filter is never touched |
| `TaskStore.Store.CreateTask` | frontend/src/stores/taskStore.js:85-92 | sends the given task; on success the list is the old list followed by the returned record, one longer, with the earlier entries untouched; on failure nothing changes |
| `TaskStore.Store.ToggleTaskCompletion` | frontend/src/stores/taskStore.js:102-115 | always sends an update for `task.id` with `completed` set to the negation of `task.completed`; on success only the first entry with that id is replaced by the returned record, and the list is unchanged when no entry has that id; on failure nothing changes |
| `TaskStore.Store.RemoveTask` | frontend/src/stores/taskStore.js:126-133 | sends a delete for the id; on success the list is the order-preserving selection of the entries whose id differs, so no entry with the id remains and no other entry is lost; on failure nothing changes |
| `TaskStore.Store.SetFilter` | frontend/src/stores/taskStore.js:134-136 | the filter becomes the given string, unvalidated, and the list is unchanged |
| `TaskStore.FindIndex` | frontend/src/stores/taskStore.js:108 | the linear scan returns the first index whose id matches, or -1 exactly when no entry matches |
| `TaskStore.FetchThenShowCompleted` | frontend/src/stores/taskStore.js:62-136 | a new store that fetches one open and one completed task and then sets the filter to `"completed"` shows only the completed task |
| `TaskModel.Filter` | frontend/src/stores/taskStore.js:69-73 | with `Keeps` standing for the three callbacks `task.completed`, `!task.completed` (lines 70, 72) and `task._id !== id` (line 129): the selection is never longer than its input, and a task is in it exactly when it is in the input and meets the criterion |
| `TaskModel.FilterIsSelection` | frontend/src/stores/taskStore.js:69-73 | `Filter` keeps the input's order and holds every matching task as often as the input does, and nothing else |
| `TaskModel.SelectionUnique` | frontend/src/stores/taskStore.js:69-73 | any order-preserving selection that holds exactly the matching tasks equals `Filter`, so the getter's views and `removeTask`'s result are fully determined |
| `TaskModel.FilterIdempotent` | frontend/src/stores/taskStore.js:126-133 | selecting twice by the same criterion gives the same as selecting once; removing an id twice gives the same as removing it once |
| `TaskModel.CompletedPartition` | frontend/src/stores/taskStore.js:68-75 | the `"completed"` and `"not_completed"` views together hold every task of the list exactly as often as the list does, so their lengths add up to the list's |
| `TaskModel.IndexOf` | frontend/src/stores/taskStore.js:108 | the result is -1 exactly when no entry has the id; otherwise the entry there has the id and no earlier entry has it |
| `TaskModel.ReplaceFirst` | frontend/src/stores/taskStore.js:108-111 | the length is unchanged; the first entry with the id becomes the new record and every other index keeps its entry; the list is unchanged when no entry has the id |
| `TaskModel.AppendUniqueIds` | frontend/src/stores/taskStore.js:85-92 | after an append, ids are unique exactly when they were unique before and the new record's id was not yet in the list |
| `TaskModel.FilterUniqueIds` | frontend/src/stores/taskStore.js:126-133 | a selection of a list with unique ids has unique ids |
| `TaskModel.ReplaceFirstUniqueIds` | frontend/src/stores/taskStore.js:102-115 | when the returned record carries the toggled id, the replacement keeps ids unique, and that record is then the only entry with the id |

## Left out

- Asynchrony: each action is modelled as one step that completes. Suspension at `await` and interleavings of overlapping in-flight actions are not modelled.
- The task service (`frontend/src/services/taskService.js`) and the server (`backend/server.js`) are not part of this model. Their replies enter only as `Response` parameters. No property of the server is assumed, such as fresh ids or an update that honours the request. Lemmas that need such a property take it as a hypothesis.
- A successful update that returns no record: the server replies with a null body when the id no longer exists, and the source would then store that null in the list. `Response<Task>` cannot hold a null payload, so this case is not modelled. Nor is what follows from it: with a null entry in the list, `filteredTasks` under `"completed"` or `"not_completed"` would fail on reading `completed` (lines 70, 72).
- Error logging through `console.error` and the framework's reactivity are not modelled.
- The list is a `seq` value that the methods reassign. The source instead mutates its array in place (`push`, indexed assignment), and for any other filter the getter returns that same array rather than a copy. The model does not capture the aliasing these create.
