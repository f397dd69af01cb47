/**
 Properties relating the store operations to each other and to the dense
 1..N numbering that `delete` re-establishes.
 */
module TaskStoreLemmas {
  import opened Tasks
  import opened TaskStore

  /** In a store numbered 1..N the highest id is N. */
  lemma MaxIdOfDense(s: Store)
    requires Dense(s)
    ensures MaxId(s) == |s|
  {
    if |s| > 0 {
      assert s[|s| - 1].id == |s|;
    }
  }

  /** Adding to a store numbered 1..N gives the new task the id N + 1, which
      is the new length, so the numbering stays 1..N+1. */
  lemma AddExtendsDense(s: Store, description: string, today: Date)
    requires Dense(s)
    ensures Add(s, description, today).result.id == |s| + 1
    ensures |Add(s, description, today).store| == |s| + 1
    ensures Dense(Add(s, description, today).store)
  {
    MaxIdOfDense(s);
  }

  /** The id `add` picks is fresh, so ids that were unique stay unique. */
  lemma AddKeepsIdsUnique(s: Store, description: string, today: Date)
    requires UniqueIds(s)
    ensures UniqueIds(Add(s, description, today).store)
  {
  }

  /** The first-match scan looks at ids only. */
  lemma FindFirstReadsOnlyIds(a: Store, b: Store, id: int)
    requires |a| == |b|
    requires forall k :: 0 <= k < |a| ==> a[k].id == b[k].id
    ensures FindFirst(a, id) == FindFirst(b, id)
  {
  }

  /** `update` never changes an id, so a store numbered 1..N stays so. */
  lemma UpdateKeepsIds(s: Store, id: int, description: string, today: Date)
    requires |s| > 0
    ensures var s' := Update(s, id, description, today).value.store;
      |s'| == |s| && forall k :: 0 <= k < |s| ==> s'[k].id == s[k].id
    ensures Dense(s) ==> Dense(Update(s, id, description, today).value.store)
    ensures UniqueIds(s) ==> UniqueIds(Update(s, id, description, today).value.store)
  {
  }

  /** `mark` never changes an id, so a store numbered 1..N stays so. */
  lemma MarkKeepsIds(s: Store, id: int, status: Status, today: Date)
    requires |s| > 0
    ensures var s' := Mark(s, id, status, today).value.store;
      |s'| == |s| && forall k :: 0 <= k < |s| ==> s'[k].id == s[k].id
    ensures Dense(s) ==> Dense(Mark(s, id, status, today).value.store)
    ensures UniqueIds(s) ==> UniqueIds(Mark(s, id, status, today).value.store)
  {
  }

  /** Repeating an `update` on the same day changes nothing further. */
  lemma UpdateIdempotent(s: Store, id: int, description: string, today: Date)
    requires |s| > 0
    ensures var o := Update(s, id, description, today).value;
      Update(o.store, id, description, today) == Success(o)
  {
    var o := Update(s, id, description, today).value;
    FindFirstReadsOnlyIds(s, o.store, id);
    if FindFirst(s, id).Some? {
      var i := FindFirst(s, id).value;
      assert o.store[i := o.store[i].(description := description, updatedAt := today)] == o.store;
    }
  }

  /** Repeating a `mark` with the same status on the same day changes
      nothing further. */
  lemma MarkIdempotent(s: Store, id: int, status: Status, today: Date)
    requires |s| > 0
    ensures var o := Mark(s, id, status, today).value;
      Mark(o.store, id, status, today) == Success(o)
  {
    var o := Mark(s, id, status, today).value;
    FindFirstReadsOnlyIds(s, o.store, id);
    if FindFirst(s, id).Some? {
      var i := FindFirst(s, id).value;
      assert o.store[i := o.store[i].(status := status, updatedAt := today)] == o.store;
    }
  }

  /** Renumbering a store already numbered 1..N changes nothing. */
  lemma RenumberDenseIsIdentity(s: Store)
    requires Dense(s)
    ensures Renumber(s, 1) == s
  {
  }

  /** Deleting id k from a store numbered 1..N removes the k-th task and
      returns it: the tasks before it are untouched and each one after it
      moves down one place and takes an id one lower. */
  lemma DeleteFromDense(s: Store, id: int)
    requires Dense(s) && 1 <= id <= |s|
    ensures Delete(s, id).result == Some(s[id - 1])
    ensures |Delete(s, id).store| == |s| - 1
    ensures forall k :: 0 <= k < id - 1 ==> Delete(s, id).store[k] == s[k]
    ensures forall k :: id - 1 <= k < |s| - 1 ==>
      Delete(s, id).store[k] == s[k + 1].(id := s[k + 1].id - 1)
  {
  }

  /** Deleting an id that a store numbered 1..N does not hold leaves the
      store as it was and returns None. */
  lemma DeleteMissingFromDense(s: Store, id: int)
    requires Dense(s) && !(1 <= id <= |s|)
    ensures Delete(s, id) == Saved(s, None)
  {
  }

  /** `delete` leaves ids 1..N, so no id is repeated afterwards, whatever
      the store held before. */
  lemma DeleteLeavesIdsUnique(s: Store, id: int)
    ensures UniqueIds(Delete(s, id).store)
  {
  }

  /** Selecting by status distributes over concatenation, so the selection
      keeps store order. */
  lemma {:induction false} SelectAppend(a: Store, b: Store, status: string)
    ensures Select(a + b, status) == Select(a, status) + Select(b, status)
  {
    if |a| == 0 {
      assert a + b == b;
    } else {
      assert (a + b)[1..] == a[1..] + b;
      SelectAppend(a[1..], b, status);
    }
  }

  /** When every task has the status, the selection is the whole store. */
  lemma {:induction false} SelectAllMatching(s: Store, status: string)
    requires forall k :: 0 <= k < |s| ==> s[k].status.Name() == status
    ensures Select(s, status) == s
  {
    if |s| > 0 {
      SelectAllMatching(s[1..], status);
    }
  }

  /** When no task has the status, the selection is empty. */
  lemma SelectNoneMatching(s: Store, status: string)
    requires forall k :: 0 <= k < |s| ==> s[k].status.Name() != status
    ensures Select(s, status) == []
  {
  }

  /** Filtering twice by the same status is filtering once. */
  lemma SelectIdempotent(s: Store, status: string)
    ensures Select(Select(s, status), status) == Select(s, status)
  {
    var r := Select(s, status);
    assert forall k :: 0 <= k < |r| ==> r[k] in r;
    SelectAllMatching(r, status);
  }

  /** From an empty store: add "buy milk", mark it completed, add "buy eggs",
      delete task 1. The remaining task is renumbered to 1. */
  lemma Walkthrough(today: Date)
    ensures var s1 := Add([], "buy milk", today);
      && s1.result.id == 1 && s1.result.status == Todo
      && var s2 := Mark(s1.store, 1, Completed, today).value;
      && s2.result.id == 1 && s2.result.status == Completed
      && var s3 := Add(s2.store, "buy eggs", today);
      && s3.result.id == 2
      && var s4 := Delete(s3.store, 1);
      && s4.result.Some? && s4.result.value.id == 1
      && s4.store == [Task(1, "buy eggs", Todo, today, today)]
  {
  }
}
