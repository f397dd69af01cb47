# Task tracker store, modelled in Dafny

The task tracker keeps an ordered list of task records in `tasks.json`.
Each task has an id, a description, a status (`todo`, `in-progress` or
`completed`), a creation date and a last-update date. Five operations act
on that list. `add` appends a new task. `update` and `mark` change the first
task with a given id. `delete` removes the first task with a given id and
then renumbers every task 1..N. `list_tasks` filters the tasks by status.

The model is functional. A store is a `seq<Task>`. Each operation is a pure
function. It takes the loaded store and returns the store that would be saved
together with the value the Python function returns. The current date is a
parameter (`today`).

Files:

- `tasks.dfy` (module `Tasks`): the `Task` record, the `Status` enumeration
  with its stored spelling, and the scans the operations share. `FindFirst` is
  the first-match loop, `MaxId` is the highest id, and `Renumber` assigns
  consecutive ids.
- `store.dfy` (module `TaskStore`): `Add`, `Update`, `Mark`, `Delete`,
  `Select` and `ListTasks`.
- `lemmas.dfy` (module `TaskStoreLemmas`): properties that relate the
  operations to each other and to the dense 1..N numbering.

Behaviour of the code worth knowing; the model follows it:

- `update` and `mark` on an id that is not in the store never report "not
  found". They return the loop variable, which is the last task, and the
  store is unchanged. A task record is always truthy, so the
  `confirm("Task not found.")` branches at project.py:37-38, 51-52 and
  58-59 can never run. On an empty store the loop variable is never bound,
  so the call fails (`Failure(EmptyStore)`). The file has already been
  saved by then.
- `delete` renumbers the tasks 1..N even when no task matched.
- `add` takes the highest id present, with no floor at 0. The new id is the
  length plus one exactly when the highest id equals the length, for
  instance when the store is numbered 1..N (`AddExtendsDense`).
- `delete` removes the task with `list.remove`, which removes the first
  element equal to the found record. No earlier record can be equal to it,
  because an equal record would carry the same id and would have matched
  first. So the model removes by index.

## Model

| member | source | states |
|---|---|---|
| Tasks.FindFirst | project.py:142-146 | the scan stops at the first task with the id: the index it returns holds the id, and no earlier task does; it finds nothing exactly when no task has the id |
| Tasks.MaxId | project.py:85-87 | `max_id` is 0 for an empty store; otherwise it is the id of some task, and no task has a higher id |
| Tasks.Renumber | project.py:131-132 | renumbering keeps the length and order, and gives position k the id from + k with every other field unchanged |
| TaskStore.Add | project.py:83-102 | appends exactly one task at the end and keeps every earlier task. The new task has the given description, status todo, and createdAt = updatedAt = today. Its id is 1 in an empty store, otherwise one more than some existing id, and greater than every existing id. The appended task is returned |
| TaskStore.Update | project.py:105-116 | an empty store is an error. Otherwise the length is kept and tasks with other ids are unchanged. If the id is present, only the description and updatedAt of its first task change, and that task is returned. If it is absent, the store is unchanged and the last task is returned |
| TaskStore.Mark | project.py:140-151 | an empty store is an error. Otherwise the length is kept and tasks with other ids are unchanged. If the id is present, only the status and updatedAt of its first task change, whatever the old status was, and that task is returned. If it is absent, the store is unchanged and the last task is returned |
| TaskStore.Delete | project.py:119-137 | the result is always numbered 1..N. None is returned exactly when no task has the id; then the length is kept and only ids change. Otherwise the first task with the id is returned with its old id, the store shrinks by one, and the survivors keep their order and all non-id fields |
| TaskStore.Select | project.py:162-163 | the filtered list holds a task exactly when the store holds it and its stored status equals the filter |
| TaskStore.ListTasks | project.py:160-171 | with a non-empty status filter, "No <status> tasks found." is shown exactly when no task has that status, and otherwise a table of the filtered list: exactly the matching tasks, in store order. With no filter or an empty filter, the message is shown exactly when the store is empty, and otherwise a table of the whole store. A table is never empty |
| TaskStoreLemmas.AddExtendsDense | project.py:85-97 | on a store numbered 1..N, add gives the new task id N+1, which equals the new length, and the store stays numbered 1..N+1 (the check in test_project.py:10-20) |
| TaskStoreLemmas.AddKeepsIdsUnique | project.py:85-97 | the id add picks is not in use, so ids that were unique stay unique |
| TaskStoreLemmas.FindFirstReadsOnlyIds | project.py:107-111 | the first-match scan depends only on the ids of the tasks |
| TaskStoreLemmas.UpdateKeepsIds | project.py:107-111 | update never changes an id, so a store numbered 1..N stays so and unique ids stay unique |
| TaskStoreLemmas.MarkKeepsIds | project.py:142-146 | mark never changes an id, so a store numbered 1..N stays so and unique ids stay unique |
| TaskStoreLemmas.UpdateIdempotent | project.py:105-116 | a second update with the same id, description and date changes neither the store nor the returned task |
| TaskStoreLemmas.MarkIdempotent | project.py:140-151 | a second mark with the same id, status and date changes neither the store nor the returned task |
| TaskStoreLemmas.RenumberDenseIsIdentity | project.py:131-132 | renumbering a store already numbered 1..N leaves it unchanged |
| TaskStoreLemmas.DeleteFromDense | project.py:119-137 | on a store numbered 1..N, deleting id k returns the k-th task (the check in test_project.py:32-36). Earlier tasks are untouched, and each later task moves down one place with its id reduced by one |
| TaskStoreLemmas.DeleteMissingFromDense | project.py:119-137 | on a store numbered 1..N, deleting an id outside 1..N returns None and leaves the store unchanged |
| TaskStoreLemmas.DeleteLeavesIdsUnique | project.py:130-132 | after delete no id is repeated, whatever ids the store held before |
| TaskStoreLemmas.SelectAppend | project.py:163 | filtering distributes over concatenation, so the filtered tasks keep store order |
| TaskStoreLemmas.SelectAllMatching | project.py:163 | when every task has the status, the filter keeps the whole store in order |
| TaskStoreLemmas.SelectNoneMatching | project.py:163-166 | when no task has the status, the filter is empty |
| TaskStoreLemmas.SelectIdempotent | project.py:163 | filtering twice by the same status is the same as filtering once |
| TaskStoreLemmas.Walkthrough | project.py:83-151 | from an empty store: add "buy milk" gives id 1, todo. Mark it completed. Add "buy eggs" gives id 2. Delete 1 returns the first task, and the store becomes the single task "buy eggs" renumbered to id 1 |

## Left out

- `main` (argument parsing, the first-truthy-action dispatch, help text): command-line plumbing. `mark` is called only with `completed` or `in-progress` there, so `Mark` takes a `Status` value, not an arbitrary string.
- Reading and writing `tasks.json` (`json.load`, `save`): file I/O. Each operation returns the store that `save` would write. A record whose status is not one of the three spellings cannot be expressed.
- `datetime.now()`: replaced by the `today` parameter. The ISO date format is not modelled.
- `int(args[0])` in `update`: the id is an `int` parameter, so a non-numeric id argument is not modelled.
- The `tabulate` table rendering and the text-to-speech in `confirm`: output only. `ListTasks` returns the rows of the table or the message text.
- Python's in-place mutation and dict aliasing: each operation returns a new value instead.
