/**
 The task record of the task tracker and the read-only helpers every store
 operation is built from: looking a task up by id, the highest id in a store,
 and renumbering a store to consecutive ids.
 */
module Tasks {

  /** A value or its absence: what `delete` returns when no task has the id. */
  datatype Option<+T> = None | Some(value: T)

  /** The status of a task. `Name` is the string stored in tasks.json and
      compared against by the list filter. */
  datatype Status = Todo | InProgress | Completed {
    function Name(): string {
      match this
      case Todo => "todo"
      case InProgress => "in-progress"
      case Completed => "completed"
    }
  }

  /** A calendar date, the value of `datetime.now().date()`. */
  datatype Date = Date(year: int, month: int, day: int)

  /** One task record, with the five keys of a tasks.json object. */
  datatype Task = Task(id: int, description: string, status: Status, createdAt: Date, updatedAt: Date)

  /** The store: the ordered list of tasks held in tasks.json. */
  type Store = seq<Task>

  /** Ids are exactly 1, 2, ..., |s| in store order. */
  predicate Dense(s: Store) {
    forall k :: 0 <= k < |s| ==> s[k].id == k + 1
  }

  /** No two tasks share an id. */
  predicate UniqueIds(s: Store) {
    forall i, j :: 0 <= i < j < |s| ==> s[i].id != s[j].id
  }

  /** No task of the store carries `id`. */
  predicate Absent(s: Store, id: int) {
    forall k :: 0 <= k < |s| ==> s[k].id != id
  }

  /** The index of the first task whose id is `id`: the linear scan with
      `break` that update, delete and mark share. */
  function FindFirst(s: Store, id: int): (r: Option<nat>)
    ensures r.Some? ==> r.value < |s| && s[r.value].id == id
    ensures r.Some? ==> forall j :: 0 <= j < r.value ==> s[j].id != id
    ensures r.None? <==> Absent(s, id)
  {
    if |s| == 0 then None
    else if s[0].id == id then Some(0)
    else match FindFirst(s[1..], id)
      case None => None
      case Some(k) => Some(k + 1)
  }

  /** The highest id in the store, or 0 for an empty store. Like Python's
      `max`, there is no floor at 0 once the store is non-empty. */
  function MaxId(s: Store): (m: int)
    ensures |s| == 0 ==> m == 0
    ensures |s| > 0 ==> exists i :: 0 <= i < |s| && s[i].id == m
    ensures forall i :: 0 <= i < |s| ==> s[i].id <= m
  {
    if |s| == 0 then 0
    else if |s| == 1 then s[0].id
    else
      var rest := MaxId(s[1..]);
      if s[0].id >= rest then s[0].id else rest
  }

  /** The store with ids `from`, `from + 1`, ... assigned in order and every
      other field kept. */
  function Renumber(s: Store, from: int): (r: Store)
    ensures |r| == |s|
    ensures forall k :: 0 <= k < |s| ==> r[k] == s[k].(id := from + k)
  {
    if |s| == 0 then [] else [s[0].(id := from)] + Renumber(s[1..], from + 1)
  }
}
