/**
 The five operations of the task store. Each one takes the store loaded from
 tasks.json and returns the store that would be written back together with
 the value the operation returns; the current date is a parameter.
 */
module TaskStore {
  import opened Tasks

  /** Why an operation fails. `update` and `mark` on an empty store reach
      `return task` with the loop variable never bound. */
  datatype Error = EmptyStore

  datatype Result<+T> = Success(value: T) | Failure(error: Error)

  /** The store after an operation and the value the operation returns. */
  datatype Saved<+T> = Saved(store: Store, result: T)

  /** What `list_tasks` shows: the "no tasks found" message or a table of rows. */
  datatype Listing = NoneFound(message: string) | Table(rows: seq<Task>)

  /** `add`: appends a `todo` task created and updated today, whose id is one
      more than the highest id in the store (1 in an empty store). */
  function Add(s: Store, description: string, today: Date): (o: Saved<Task>)
    ensures |o.store| == |s| + 1
    ensures o.store[..|s|] == s
    ensures o.store[|s|] == o.result
    ensures o.result.description == description && o.result.status == Todo
    ensures o.result.createdAt == today && o.result.updatedAt == today
    ensures |s| == 0 ==> o.result.id == 1
    ensures |s| > 0 ==> exists i :: 0 <= i < |s| && o.result.id == s[i].id + 1
    ensures forall i :: 0 <= i < |s| ==> s[i].id < o.result.id
  {
    var t := Task(MaxId(s) + 1, description, Todo, today, today);
    Saved(s + [t], t)
  }

  /** `update`: gives the first task with the id a new description and
      today's date as updatedAt. With no such task the store is unchanged and
      the last task is returned; an empty store is an error. */
  function Update(s: Store, id: int, description: string, today: Date): (r: Result<Saved<Task>>)
    ensures r.Failure? <==> |s| == 0
    ensures r.Success? ==> |r.value.store| == |s|
    ensures r.Success? ==> forall k :: 0 <= k < |s| && s[k].id != id ==> r.value.store[k] == s[k]
    ensures r.Success? && FindFirst(s, id).Some? ==>
      var i := FindFirst(s, id).value;
      && (forall k :: 0 <= k < |s| && k != i ==> r.value.store[k] == s[k])
      && r.value.store[i].id == s[i].id
      && r.value.store[i].status == s[i].status
      && r.value.store[i].createdAt == s[i].createdAt
      && r.value.store[i].description == description
      && r.value.store[i].updatedAt == today
      && r.value.result == r.value.store[i]
    ensures r.Success? && Absent(s, id) ==> r.value.store == s && r.value.result == s[|s| - 1]
  {
    if |s| == 0 then Failure(EmptyStore)
    else match FindFirst(s, id)
      case Some(i) =>
        var t := s[i].(description := description, updatedAt := today);
        Success(Saved(s[i := t], t))
      case None => Success(Saved(s, s[|s| - 1]))
  }

  /** `mark`: gives the first task with the id the new status and today's
      date as updatedAt, from whatever status it had. With no such task the
      store is unchanged and the last task is returned; an empty store is an
      error. */
  function Mark(s: Store, id: int, status: Status, today: Date): (r: Result<Saved<Task>>)
    ensures r.Failure? <==> |s| == 0
    ensures r.Success? ==> |r.value.store| == |s|
    ensures r.Success? ==> forall k :: 0 <= k < |s| && s[k].id != id ==> r.value.store[k] == s[k]
    ensures r.Success? && FindFirst(s, id).Some? ==>
      var i := FindFirst(s, id).value;
      && (forall k :: 0 <= k < |s| && k != i ==> r.value.store[k] == s[k])
      && r.value.store[i].id == s[i].id
      && r.value.store[i].description == s[i].description
      && r.value.store[i].createdAt == s[i].createdAt
      && r.value.store[i].status == status
      && r.value.store[i].updatedAt == today
      && r.value.result == r.value.store[i]
    ensures r.Success? && Absent(s, id) ==> r.value.store == s && r.value.result == s[|s| - 1]
  {
    if |s| == 0 then Failure(EmptyStore)
    else match FindFirst(s, id)
      case Some(i) =>
        var t := s[i].(status := status, updatedAt := today);
        Success(Saved(s[i := t], t))
      case None => Success(Saved(s, s[|s| - 1]))
  }

  /** `delete`: removes the first task with the id and returns it with its
      old id, or returns None when there is none; either way the surviving
      tasks are then renumbered 1..N in their order. */
  function Delete(s: Store, id: int): (o: Saved<Option<Task>>)
    ensures Dense(o.store)
    ensures o.result.None? <==> Absent(s, id)
    ensures o.result.None? ==>
      && |o.store| == |s|
      && forall k :: 0 <= k < |s| ==> o.store[k] == s[k].(id := k + 1)
    ensures o.result.Some? ==>
      && FindFirst(s, id).Some?
      && var i := FindFirst(s, id).value;
      && o.result.value == s[i]
      && o.result.value.id == id
      && |o.store| == |s| - 1
      && (forall k :: 0 <= k < i ==> o.store[k] == s[k].(id := k + 1))
      && (forall k :: i <= k < |o.store| ==> o.store[k] == s[k + 1].(id := k + 1))
  {
    match FindFirst(s, id)
    case None => Saved(Renumber(s, 1), None)
    case Some(i) => Saved(Renumber(s[..i] + s[i + 1..], 1), Some(s[i]))
  }

  /** The tasks whose status is written `status`, in store order (the list
      comprehension of `list_tasks`). */
  function Select(s: Store, status: string): (r: Store)
    ensures |r| <= |s|
    ensures forall t :: t in r <==> t in s && t.status.Name() == status
  {
    if |s| == 0 then []
    else (if s[0].status.Name() == status then [s[0]] else []) + Select(s[1..], status)
  }

  /** `list_tasks`: with a non-empty status, the tasks having it; with no
      status or an empty one, every task. An empty selection gives the
      "no tasks found" message instead of a table. */
  function ListTasks(s: Store, status: Option<string>): (l: Listing)
    ensures l.Table? ==> |l.rows| > 0
    ensures status.Some? && status.value != "" ==>
      && (l.NoneFound? <==> forall k :: 0 <= k < |s| ==> s[k].status.Name() != status.value)
      && (l.NoneFound? ==> l.message == "No " + status.value + " tasks found.")
      && (l.Table? ==> forall t :: t in l.rows <==> t in s && t.status.Name() == status.value)
      && (l.Table? ==> l.rows == Select(s, status.value))
    ensures (status.None? || status.value == "") ==>
      && (l.NoneFound? <==> |s| == 0)
      && (l.NoneFound? ==> l.message == "No tasks found.")
      && (l.Table? ==> l.rows == s)
  {
    if status.Some? && status.value != "" then
      var rows := Select(s, status.value);
      if |rows| == 0 then NoneFound("No " + status.value + " tasks found.")
      else assert rows[0] in rows; Table(rows)
    else if |s| == 0 then NoneFound("No tasks found.")
    else Table(s)
  }
}
