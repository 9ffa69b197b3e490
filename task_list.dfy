/** The task panel's list logic: the unassigned tasks of the selected
    business, the drop handler that moves one of them, and `commitReorder`,
    which appends the ids of every task not shown. */
module TaskList {
  import opened Wrappers
  import opened Types
  import opened SortByOrder
  import opened Lists
  import opened Splice

  /** Shown in the unassigned list: no (truthy) assignee and the selected business. */
  predicate IsUnassignedIn(t: Task, business: BusinessKey) {
    !IsTruthy(t.assignedTo) && t.business == business
  }

  /** `tasks.filter(t => !t.assignedTo && t.business === selectedBusiness)`. */
  function Unassigned(tasks: seq<Task>, business: BusinessKey): (r: seq<Task>)
    ensures |r| <= |tasks|
    ensures forall i :: 0 <= i < |r| ==> r[i] in tasks && IsUnassignedIn(r[i], business)
    ensures forall i :: 0 <= i < |tasks| && IsUnassignedIn(tasks[i], business) ==> tasks[i] in r
  {
    if tasks == [] then []
    else
      var rest := Unassigned(tasks[1..], business);
      assert forall i :: 1 <= i < |tasks| ==> tasks[i] == tasks[1..][i - 1];
      (if IsUnassignedIn(tasks[0], business) then [tasks[0]] else []) + rest
  }

  /** The filter keeps input order: it distributes over concatenation. */
  lemma {:induction false} UnassignedAppend(a: seq<Task>, b: seq<Task>, business: BusinessKey)
    ensures Unassigned(a + b, business) == Unassigned(a, business) + Unassigned(b, business)
  {
    if a == [] {
      assert a + b == b;
    } else {
      assert (a + b)[1..] == a[1..] + b;
      UnassignedAppend(a[1..], b, business);
      var head := if IsUnassignedIn(a[0], business) then [a[0]] else [];
      assert head + (Unassigned(a[1..], business) + Unassigned(b, business))
          == (head + Unassigned(a[1..], business)) + Unassigned(b, business);
    }
  }

  /** Filtering the filtered list again changes nothing. */
  lemma {:induction false} UnassignedIdempotent(tasks: seq<Task>, business: BusinessKey)
    ensures Unassigned(Unassigned(tasks, business), business) == Unassigned(tasks, business)
  {
    if tasks != [] {
      UnassignedIdempotent(tasks[1..], business);
      var rest := Unassigned(tasks[1..], business);
      if IsUnassignedIn(tasks[0], business) {
        assert ([tasks[0]] + rest)[1..] == rest;
      } else {
        assert [] + rest == rest;
      }
    }
  }

  /** `tasks.filter(t => !visibleSet.has(t.id)).map(t => t.id)`. */
  function OtherIds(tasks: seq<Task>, visible: seq<string>): (r: seq<string>)
    ensures forall i :: 0 <= i < |r| ==> r[i] !in visible && exists k :: 0 <= k < |tasks| && tasks[k].id == r[i]
    ensures forall k :: 0 <= k < |tasks| && tasks[k].id !in visible ==> tasks[k].id in r
  {
    if tasks == [] then []
    else
      var rest := OtherIds(tasks[1..], visible);
      assert forall k :: 1 <= k < |tasks| ==> tasks[k] == tasks[1..][k - 1];
      (if tasks[0].id !in visible then [tasks[0].id] else []) + rest
  }

  /** The hidden ids keep task-list order: the filter distributes over
      concatenation. */
  lemma {:induction false} OtherIdsAppend(a: seq<Task>, b: seq<Task>, visible: seq<string>)
    ensures OtherIds(a + b, visible) == OtherIds(a, visible) + OtherIds(b, visible)
  {
    if a == [] {
      assert a + b == b;
    } else {
      assert (a + b)[1..] == a[1..] + b;
      OtherIdsAppend(a[1..], b, visible);
      var head := if a[0].id !in visible then [a[0].id] else [];
      assert head + (OtherIds(a[1..], visible) + OtherIds(b, visible))
          == (head + OtherIds(a[1..], visible)) + OtherIds(b, visible);
    }
  }

  lemma {:induction false} OtherIdsDistinct(tasks: seq<Task>, visible: seq<string>)
    requires DistinctIds(tasks, TaskId)
    ensures Distinct(OtherIds(tasks, visible))
  {
    if tasks != [] {
      var rest := tasks[1..];
      DistinctIdsTail(tasks, TaskId);
      OtherIdsDistinct(rest, visible);
      var o := OtherIds(rest, visible);
      if tasks[0].id !in visible {
        forall i | 0 <= i < |o| ensures o[i] != tasks[0].id {
          var k :| 0 <= k < |rest| && rest[k].id == o[i];
          assert TaskId(tasks[0]) != TaskId(tasks[k + 1]);
        }
        DistinctCons(tasks[0].id, o);
        assert OtherIds(tasks, visible) == [tasks[0].id] + o;
      } else {
        assert OtherIds(tasks, visible) == o;
      }
    }
  }

  lemma DistinctCons(x: string, s: seq<string>)
    requires Distinct(s) && forall i :: 0 <= i < |s| ==> s[i] != x
    ensures Distinct([x] + s)
  {
    var r := [x] + s;
    forall i, j | 0 <= i < j < |r| ensures r[i] != r[j] {
      assert r[j] == s[j - 1];
      if i > 0 {
        assert r[i] == s[i - 1];
      }
    }
  }

  /** The id list `commitReorder` hands on: the visible ids in their new
      order, then every other task id in task-list order. */
  function CommitReorder(tasks: seq<Task>, nextIds: seq<string>): (r: seq<string>)
    ensures |r| >= |nextIds| && r[..|nextIds|] == nextIds
    ensures forall k :: 0 <= k < |tasks| ==> tasks[k].id in r
  {
    nextIds + OtherIds(tasks, nextIds)
  }

  /** With distinct task ids and distinct visible ids that all name tasks,
      every task id appears in the reorder list exactly once, and nothing
      else does. */
  lemma CommitReorderOnce(tasks: seq<Task>, nextIds: seq<string>)
    requires DistinctIds(tasks, TaskId) && Distinct(nextIds)
    requires forall i :: 0 <= i < |nextIds| ==> exists k :: 0 <= k < |tasks| && tasks[k].id == nextIds[i]
    ensures Distinct(CommitReorder(tasks, nextIds))
    ensures forall x :: x in CommitReorder(tasks, nextIds) <==> exists k :: 0 <= k < |tasks| && tasks[k].id == x
  {
    var o := OtherIds(tasks, nextIds);
    var r := CommitReorder(tasks, nextIds);
    OtherIdsDistinct(tasks, nextIds);
    forall i, j | 0 <= i < j < |r| ensures r[i] != r[j] {
      if j >= |nextIds| && i < |nextIds| {
        assert r[j] == o[j - |nextIds|];
      } else if i >= |nextIds| {
        assert r[i] == o[i - |nextIds|] && r[j] == o[j - |nextIds|];
      }
    }
    forall x | x in r ensures exists k :: 0 <= k < |tasks| && tasks[k].id == x {
      var i :| 0 <= i < |r| && r[i] == x;
      if i >= |nextIds| {
        assert r[i] == o[i - |nextIds|];
      }
    }
  }

  /** The task panel's drop handler: the reorder list it sends, or `None`
      when it returns early. */
  method OnDrop(tasks: seq<Task>, business: BusinessKey, dragged: Option<string>, target: string)
    returns (r: Option<seq<string>>)
    ensures var ids := MapSeq(Unassigned(tasks, business), TaskId);
      r.None? <==> !IsTruthy(dragged) || dragged.value == target || dragged.value !in ids || target !in ids
    ensures var ids := MapSeq(Unassigned(tasks, business), TaskId);
      r.Some? ==>
        exists next ::
          && |next| == |ids| && multiset(next) == multiset(ids)
          && next[IndexOf(ids, target)] == dragged.value
          && RemoveAt(next, IndexOf(ids, target)) == RemoveAt(ids, IndexOf(ids, dragged.value))
          && r.value == CommitReorder(tasks, next)
  {
    var ids := MapSeq(Unassigned(tasks, business), TaskId);
    var moved := DropMove(ids, dragged, target);
    if moved.None? {
      return None;
    }
    return Some(CommitReorder(tasks, moved.value));
  }
}
