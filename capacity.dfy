/** Capacity bookkeeping of the store: the minutes assigned to a member,
    the derived per-member `stats`, the assignment and the member-deletion
    cascade, and what each does to the capacity and reference invariants. */
module Capacity {
  import opened Wrappers
  import opened Types
  import opened Lists
  import opened SortByOrder
  import opened Board

  /** `tasks.filter(t => t.assignedTo === memberId)`. */
  function AssignedTasks(tasks: seq<Task>, memberId: string): (r: seq<Task>)
    ensures forall i :: 0 <= i < |r| ==> r[i] in tasks && r[i].assignedTo == Some(memberId)
  {
    if tasks == [] then []
    else
      assert tasks == [tasks[0]] + tasks[1..];
      (if tasks[0].assignedTo == Some(memberId) then [tasks[0]] else []) + AssignedTasks(tasks[1..], memberId)
  }

  /** Every task assigned to the member is kept. */
  lemma {:induction false} AssignedTasksComplete(tasks: seq<Task>, memberId: string)
    ensures forall k :: 0 <= k < |tasks| && tasks[k].assignedTo == Some(memberId) ==> tasks[k] in AssignedTasks(tasks, memberId)
  {
    if tasks != [] {
      AssignedTasksComplete(tasks[1..], memberId);
      forall k | 1 <= k < |tasks| ensures tasks[k] == tasks[1..][k - 1] {
      }
    }
  }

  /** The filter keeps task-list order: it distributes over concatenation. */
  lemma {:induction false} AssignedTasksAppend(a: seq<Task>, b: seq<Task>, memberId: string)
    ensures AssignedTasks(a + b, memberId) == AssignedTasks(a, memberId) + AssignedTasks(b, memberId)
  {
    if a == [] {
      assert a + b == b;
    } else {
      assert (a + b)[1..] == a[1..] + b;
      AssignedTasksAppend(a[1..], b, memberId);
      var head := if a[0].assignedTo == Some(memberId) then [a[0]] else [];
      assert head + (AssignedTasks(a[1..], memberId) + AssignedTasks(b, memberId))
          == (head + AssignedTasks(a[1..], memberId)) + AssignedTasks(b, memberId);
    }
  }

  /** The `reduce` that adds up task durations. */
  function SumMinutes(tasks: seq<Task>): int {
    if tasks == [] then 0 else tasks[0].minutes + SumMinutes(tasks[1..])
  }

  /** `taskAssignedMinutes`: the minutes of work assigned to `memberId`. */
  function TaskAssignedMinutes(tasks: seq<Task>, memberId: string): int {
    SumMinutes(AssignedTasks(tasks, memberId))
  }

  /** What one task adds to a member's assigned minutes. */
  function Contribution(t: Task, memberId: string): int {
    if t.assignedTo == Some(memberId) then t.minutes else 0
  }

  lemma AssignedMinutesCons(t: Task, rest: seq<Task>, memberId: string)
    ensures TaskAssignedMinutes([t] + rest, memberId) == Contribution(t, memberId) + TaskAssignedMinutes(rest, memberId)
  {
    assert ([t] + rest)[1..] == rest;
    var tail := AssignedTasks(rest, memberId);
    if t.assignedTo == Some(memberId) {
      assert AssignedTasks([t] + rest, memberId) == [t] + tail;
      assert ([t] + tail)[1..] == tail;
    } else {
      assert AssignedTasks([t] + rest, memberId) == [] + tail;
      assert [] + tail == tail;
    }
  }

  ghost predicate NonNegativeMinutes(tasks: seq<Task>) {
    forall i :: 0 <= i < |tasks| ==> tasks[i].minutes >= 0
  }

  lemma {:induction false} AssignedMinutesNonNegative(tasks: seq<Task>, memberId: string)
    requires NonNegativeMinutes(tasks)
    ensures TaskAssignedMinutes(tasks, memberId) >= 0
  {
    if tasks != [] {
      AssignedMinutesCons(tasks[0], tasks[1..], memberId);
      assert tasks == [tasks[0]] + tasks[1..];
      AssignedMinutesNonNegative(tasks[1..], memberId);
    }
  }

  /** The capacity figures of one member (`assignedMinutes` is the
      source's `assigned`, a Dafny keyword). */
  datatype Stat = Stat(assignedMinutes: int, available: int, remaining: int, over: bool)

  function StatOf(m: Member, tasks: seq<Task>): Stat {
    var done := TaskAssignedMinutes(tasks, m.id);
    var available := SumAvailabilityMinutes(m);
    Stat(done, available, available - done, available - done < 0)
  }

  /** No later member shares the id of the member at `i`. */
  ghost predicate LastWithId(members: seq<Member>, i: int) {
    0 <= i < |members| && forall j :: i < j < |members| ==> members[j].id != members[i].id
  }

  /** `stats`: the capacity figures keyed by member id, written in member
      order. */
  function StatsOf(members: seq<Member>, tasks: seq<Task>): map<string, Stat>
    decreases |members|
  {
    if members == [] then map[]
    else
      var init := members[..|members| - 1];
      var m := members[|members| - 1];
      StatsOf(init, tasks)[m.id := StatOf(m, tasks)]
  }

  /** One entry per member id; when ids repeat, the entry of the last
      member with that id wins, as the loop writes it. */
  lemma {:induction false} StatsOfSpec(members: seq<Member>, tasks: seq<Task>)
    decreases |members|
    ensures StatsOf(members, tasks).Keys == set i | 0 <= i < |members| :: members[i].id
    ensures forall i :: LastWithId(members, i) ==> StatsOf(members, tasks)[members[i].id] == StatOf(members[i], tasks)
  {
    if members != [] {
      var init := members[..|members| - 1];
      StatsOfSpec(init, tasks);
      StatsOfStep(members, tasks, StatsOf(init, tasks));
    }
  }

  lemma StatsOfStep(members: seq<Member>, tasks: seq<Task>, prev: map<string, Stat>)
    requires members != []
    requires var init := members[..|members| - 1];
      && prev.Keys == (set i | 0 <= i < |init| :: init[i].id)
      && forall i :: LastWithId(init, i) ==> prev[init[i].id] == StatOf(init[i], tasks)
    ensures var m := members[|members| - 1];
      var r := prev[m.id := StatOf(m, tasks)];
      && r.Keys == (set i | 0 <= i < |members| :: members[i].id)
      && forall i :: LastWithId(members, i) ==> r[members[i].id] == StatOf(members[i], tasks)
  {
    var init := members[..|members| - 1];
    var m := members[|members| - 1];
    var r := prev[m.id := StatOf(m, tasks)];
    forall i | LastWithId(members, i) ensures r[members[i].id] == StatOf(members[i], tasks) {
      if i < |init| {
        assert members[i].id != m.id;
        assert init[i] == members[i];
        assert LastWithId(init, i) by {
          forall j | i < j < |init| ensures init[j].id != init[i].id {
            assert init[j] == members[j];
          }
        }
      }
    }
    StatsOfKeys(members, init, prev, m.id);
  }

  lemma StatsOfKeys<V>(members: seq<Member>, init: seq<Member>, prev: map<string, V>, id: string)
    requires members != [] && id == members[|members| - 1].id && init == members[..|members| - 1]
    requires prev.Keys == (set i | 0 <= i < |init| :: init[i].id)
    ensures prev.Keys + {id} == (set i | 0 <= i < |members| :: members[i].id)
  {
    var all := set i | 0 <= i < |members| :: members[i].id;
    forall x | x in all ensures x in prev.Keys + {id} {
      var i :| 0 <= i < |members| && members[i].id == x;
      if i < |init| { assert init[i].id == x; }
    }
    forall x | x in prev.Keys ensures x in all {
      var i :| 0 <= i < |init| && init[i].id == x;
      assert members[i].id == x;
    }
  }

  /** Every member's assigned minutes are within their weekly availability. */
  ghost predicate WithinCapacity(tasks: seq<Task>, members: seq<Member>) {
    forall m :: m in members ==> TaskAssignedMinutes(tasks, m.id) <= SumAvailabilityMinutes(m)
  }

  /** With distinct member ids, each member's entry is its own figures. */
  lemma StatsOfDistinct(members: seq<Member>, tasks: seq<Task>, i: int)
    requires DistinctIds(members, MemberId) && 0 <= i < |members|
    ensures members[i].id in StatsOf(members, tasks)
    ensures StatsOf(members, tasks)[members[i].id] == StatOf(members[i], tasks)
  {
    StatsOfSpec(members, tasks);
    assert LastWithId(members, i) by {
      forall j | i < j < |members| ensures members[j].id != members[i].id {
        assert MemberId(members[i]) != MemberId(members[j]);
      }
    }
  }

  /** With distinct member ids, the capacity invariant holds exactly when
      no entry of `stats` is flagged `over`. */
  lemma CapacityIffNoneOver(tasks: seq<Task>, members: seq<Member>)
    requires DistinctIds(members, MemberId)
    ensures WithinCapacity(tasks, members)
      <==> forall id :: id in StatsOf(members, tasks) ==> !StatsOf(members, tasks)[id].over
  {
    var st := StatsOf(members, tasks);
    StatsOfSpec(members, tasks);
    if WithinCapacity(tasks, members) {
      forall id | id in st ensures !st[id].over {
        var i :| 0 <= i < |members| && members[i].id == id;
        StatsOfDistinct(members, tasks, i);
        assert members[i] in members;
      }
    } else {
      var m :| m in members && TaskAssignedMinutes(tasks, m.id) > SumAvailabilityMinutes(m);
      var i :| 0 <= i < |members| && members[i] == m;
      StatsOfDistinct(members, tasks, i);
      assert st[m.id].over;
    }
  }

  /** `tasks.map(t => t.id === taskId ? { ...t, assignedTo } : t)`. */
  function WithAssignee(tasks: seq<Task>, taskId: string, assignee: Option<string>): (r: seq<Task>)
    ensures |r| == |tasks|
    ensures forall i :: 0 <= i < |tasks| ==>
      r[i] == if tasks[i].id == taskId then tasks[i].(assignedTo := assignee) else tasks[i]
  {
    PatchedTasks(tasks, taskId, AssigneePatch(assignee))
  }

  /** The capacity check of `assignTask`: the member's assigned minutes
      plus the task's would exceed their availability. A member without an
      entry counts 0 for both. */
  predicate CapacityExceeded(stats: map<string, Stat>, memberId: string, minutes: int) {
    var done := if memberId in stats then stats[memberId].assignedMinutes else 0;
    var available := if memberId in stats then stats[memberId].available else 0;
    done + minutes > available
  }

  /** A member without an entry counts as having nothing assigned and
      nothing available (`?? 0`), so any positive duration is refused. */
  lemma CapacityExceededAbsent(stats: map<string, Stat>, memberId: string, minutes: int)
    requires memberId !in stats
    ensures CapacityExceeded(stats, memberId, minutes) <==> minutes > 0
  {
  }

  /** With an entry, the capacity check refuses exactly when the duration is more
      than the entry's remaining minutes. */
  lemma CapacityExceededRemaining(members: seq<Member>, tasks: seq<Task>, i: int, minutes: int)
    requires DistinctIds(members, MemberId) && 0 <= i < |members|
    ensures members[i].id in StatsOf(members, tasks)
    ensures CapacityExceeded(StatsOf(members, tasks), members[i].id, minutes)
      <==> minutes > StatsOf(members, tasks)[members[i].id].remaining
  {
    StatsOfDistinct(members, tasks, i);
  }

  /** With distinct task ids, assigning moves exactly the task's minutes
      from its old assignee to its new one. */
  lemma {:induction false} AssignedMinutesAfterAssign(tasks: seq<Task>, taskId: string, assignee: Option<string>, x: string)
    requires DistinctIds(tasks, TaskId)
    requires FindById(tasks, TaskId, taskId).Some?
    ensures var t := FindById(tasks, TaskId, taskId).value;
      TaskAssignedMinutes(WithAssignee(tasks, taskId, assignee), x)
      == TaskAssignedMinutes(tasks, x) - Contribution(t, x) + (if assignee == Some(x) then t.minutes else 0)
  {
    var rest := tasks[1..];
    assert tasks == [tasks[0]] + rest;
    var r := WithAssignee(tasks, taskId, assignee);
    assert r == [r[0]] + r[1..];
    assert r[1..] == WithAssignee(rest, taskId, assignee);
    AssignedMinutesCons(tasks[0], rest, x);
    AssignedMinutesCons(r[0], r[1..], x);
    DistinctIdsTail(tasks, TaskId);
    if tasks[0].id == taskId {
      assert WithAssignee(rest, taskId, assignee) == rest;
    } else {
      AssignedMinutesAfterAssign(rest, taskId, assignee, x);
    }
  }

  /** Pointing tasks away from `x` never adds to `x`'s assigned minutes. */
  lemma {:induction false} AssignedMinutesAfterUnassign(tasks: seq<Task>, taskId: string, assignee: Option<string>, x: string)
    requires NonNegativeMinutes(tasks)
    requires assignee != Some(x)
    ensures TaskAssignedMinutes(WithAssignee(tasks, taskId, assignee), x) <= TaskAssignedMinutes(tasks, x)
  {
    if tasks != [] {
      var rest := tasks[1..];
      assert tasks == [tasks[0]] + rest;
      var r := WithAssignee(tasks, taskId, assignee);
      assert r == [r[0]] + r[1..];
      assert r[1..] == WithAssignee(rest, taskId, assignee);
      AssignedMinutesCons(tasks[0], rest, x);
      AssignedMinutesCons(r[0], r[1..], x);
      AssignedMinutesAfterUnassign(rest, taskId, assignee, x);
    }
  }

  /** One member's share of `AssignKeepsCapacity`. */
  lemma AssignKeepsMember(tasks: seq<Task>, members: seq<Member>, taskId: string, memberId: string, i: int)
    requires 0 <= i < |members|
    requires TaskAssignedMinutes(tasks, members[i].id) <= SumAvailabilityMinutes(members[i])
    requires DistinctIds(members, MemberId) && DistinctIds(tasks, TaskId)
    requires FindById(tasks, TaskId, taskId).Some? && FindById(tasks, TaskId, taskId).value.minutes >= 0
    requires !CapacityExceeded(StatsOf(members, tasks), memberId, FindById(tasks, TaskId, taskId).value.minutes)
    ensures TaskAssignedMinutes(WithAssignee(tasks, taskId, Some(memberId)), members[i].id)
      <= SumAvailabilityMinutes(members[i])
  {
    AssignedMinutesAfterAssign(tasks, taskId, Some(memberId), members[i].id);
    if members[i].id == memberId {
      StatsOfDistinct(members, tasks, i);
    }
  }

  /** An assignment that passes the capacity check keeps every member within
      capacity (given distinct ids and durations that are not negative). */
  lemma AssignKeepsCapacity(tasks: seq<Task>, members: seq<Member>, taskId: string, memberId: string)
    requires WithinCapacity(tasks, members)
    requires DistinctIds(members, MemberId) && DistinctIds(tasks, TaskId) && NonNegativeMinutes(tasks)
    requires FindById(tasks, TaskId, taskId).Some?
    requires !CapacityExceeded(StatsOf(members, tasks), memberId, FindById(tasks, TaskId, taskId).value.minutes)
    ensures WithinCapacity(WithAssignee(tasks, taskId, Some(memberId)), members)
  {
    var t := FindById(tasks, TaskId, taskId).value;
    assert t in tasks;
    forall m | m in members
      ensures TaskAssignedMinutes(WithAssignee(tasks, taskId, Some(memberId)), m.id) <= SumAvailabilityMinutes(m)
    {
      var i :| 0 <= i < |members| && members[i] == m;
      AssignKeepsMember(tasks, members, taskId, memberId, i);
    }
  }

  /** Unassigning (or assigning to an id no member has) keeps every member
      within capacity. */
  lemma UnassignKeepsCapacity(tasks: seq<Task>, members: seq<Member>, taskId: string, assignee: Option<string>)
    requires WithinCapacity(tasks, members) && NonNegativeMinutes(tasks)
    requires forall m :: m in members ==> assignee != Some(m.id)
    ensures WithinCapacity(WithAssignee(tasks, taskId, assignee), members)
  {
    forall m | m in members
      ensures TaskAssignedMinutes(WithAssignee(tasks, taskId, assignee), m.id) <= SumAvailabilityMinutes(m)
    {
      AssignedMinutesAfterUnassign(tasks, taskId, assignee, m.id);
    }
  }

  /** The check is not stricter than needed: when it rejects a task not yet
      assigned to the member, the assignment would have overflowed them. */
  lemma CapacityCheckTight(tasks: seq<Task>, members: seq<Member>, taskId: string, i: int)
    requires DistinctIds(members, MemberId) && DistinctIds(tasks, TaskId)
    requires 0 <= i < |members|
    requires FindById(tasks, TaskId, taskId).Some?
    requires FindById(tasks, TaskId, taskId).value.assignedTo != Some(members[i].id)
    requires CapacityExceeded(StatsOf(members, tasks), members[i].id, FindById(tasks, TaskId, taskId).value.minutes)
    ensures TaskAssignedMinutes(WithAssignee(tasks, taskId, Some(members[i].id)), members[i].id)
      > SumAvailabilityMinutes(members[i])
  {
    AssignedMinutesAfterAssign(tasks, taskId, Some(members[i].id), members[i].id);
    StatsOfDistinct(members, tasks, i);
  }

  /** `tasks.map(t => t.assignedTo === memberId ? { ...t, assignedTo: undefined } : t)`. */
  function ClearAssignee(tasks: seq<Task>, memberId: string): (r: seq<Task>)
    ensures |r| == |tasks|
    ensures forall i :: 0 <= i < |r| ==> r[i].assignedTo != Some(memberId)
    ensures forall i :: 0 <= i < |tasks| ==>
      r[i] == if tasks[i].assignedTo == Some(memberId) then tasks[i].(assignedTo := None) else tasks[i]
  {
    if tasks == [] then []
    else
      [if tasks[0].assignedTo == Some(memberId) then tasks[0].(assignedTo := None) else tasks[0]]
      + ClearAssignee(tasks[1..], memberId)
  }

  /** Every truthy assignee names a member on the board. */
  ghost predicate NoDangling(tasks: seq<Task>, members: seq<Member>) {
    forall i :: 0 <= i < |tasks| && IsTruthy(tasks[i].assignedTo) ==>
      exists j :: 0 <= j < |members| && members[j].id == tasks[i].assignedTo.value
  }

  /** The deletion cascade leaves no task pointing at a missing member. */
  lemma DeleteMemberNoDangling(tasks: seq<Task>, members: seq<Member>, memberId: string)
    requires NoDangling(tasks, members)
    ensures NoDangling(ClearAssignee(tasks, memberId), WithoutId(members, MemberId, memberId))
  {
    var r := ClearAssignee(tasks, memberId);
    var ms := WithoutId(members, MemberId, memberId);
    forall i | 0 <= i < |r| && IsTruthy(r[i].assignedTo)
      ensures exists j :: 0 <= j < |ms| && ms[j].id == r[i].assignedTo.value
    {
      var v := r[i].assignedTo.value;
      assert tasks[i].assignedTo == r[i].assignedTo;
      var j :| 0 <= j < |members| && members[j].id == v;
      assert MemberId(members[j]) != memberId;
      assert members[j] in ms;
      var k :| 0 <= k < |ms| && ms[k] == members[j];
    }
  }

  /** A new task list that assigns no one the old one did not leaves no
      dangling reference behind. */
  lemma AssigneesNoDangling(tasks: seq<Task>, tasks2: seq<Task>, members: seq<Member>)
    requires NoDangling(tasks, members)
    requires forall i :: 0 <= i < |tasks2| && IsTruthy(tasks2[i].assignedTo) ==>
      exists k :: 0 <= k < |tasks| && tasks[k].assignedTo == tasks2[i].assignedTo
    ensures NoDangling(tasks2, members)
  {
    forall i | 0 <= i < |tasks2| && IsTruthy(tasks2[i].assignedTo)
      ensures exists j :: 0 <= j < |members| && members[j].id == tasks2[i].assignedTo.value
    {
      var k :| 0 <= k < |tasks| && tasks[k].assignedTo == tasks2[i].assignedTo;
    }
  }

  /** A new task list whose every element comes from the old one leaves no
      dangling reference behind. */
  lemma SubsetTasksNoDangling(tasks: seq<Task>, tasks2: seq<Task>, members: seq<Member>)
    requires NoDangling(tasks, members)
    requires forall i :: 0 <= i < |tasks2| ==> tasks2[i] in tasks
    ensures NoDangling(tasks2, members)
  {
    forall i | 0 <= i < |tasks2| && IsTruthy(tasks2[i].assignedTo)
      ensures exists k :: 0 <= k < |tasks| && tasks[k].assignedTo == tasks2[i].assignedTo
    {
      var k :| 0 <= k < |tasks| && tasks[k] == tasks2[i];
    }
    AssigneesNoDangling(tasks, tasks2, members);
  }

  /** A new member list that keeps every old member id leaves no dangling
      reference behind. */
  lemma SupersetMembersNoDangling(tasks: seq<Task>, members: seq<Member>, members2: seq<Member>)
    requires NoDangling(tasks, members)
    requires forall j :: 0 <= j < |members| ==> exists l :: 0 <= l < |members2| && members2[l].id == members[j].id
    ensures NoDangling(tasks, members2)
  {
    forall i | 0 <= i < |tasks| && IsTruthy(tasks[i].assignedTo)
      ensures exists l :: 0 <= l < |members2| && members2[l].id == tasks[i].assignedTo.value
    {
      var j :| 0 <= j < |members| && members[j].id == tasks[i].assignedTo.value;
      var l :| 0 <= l < |members2| && members2[l].id == members[j].id;
    }
  }

  /** Sorting the task list leaves no dangling reference behind. */
  lemma SortTasksNoDangling(tasks: seq<Task>, members: seq<Member>, key: Task -> SortKey)
    requires NoDangling(tasks, members)
    ensures NoDangling(Sort(tasks, key), members)
  {
    var ts := Sort(tasks, key);
    forall i | 0 <= i < |ts| ensures ts[i] in tasks {
      assert ts[i] in multiset(tasks);
    }
    SubsetTasksNoDangling(tasks, ts, members);
  }

  /** Sorting the member list leaves no dangling reference behind. */
  lemma SortMembersNoDangling(tasks: seq<Task>, members: seq<Member>, key: Member -> SortKey)
    requires NoDangling(tasks, members)
    ensures NoDangling(tasks, Sort(members, key))
  {
    var ms := Sort(members, key);
    forall j | 0 <= j < |members| ensures exists l :: 0 <= l < |ms| && ms[l].id == members[j].id {
      assert members[j] in multiset(ms);
      var l :| 0 <= l < |ms| && ms[l] == members[j];
    }
    SupersetMembersNoDangling(tasks, members, ms);
  }

  /** Adding an unassigned task (`createTask`, `duplicateTask`) leaves no
      dangling reference behind. */
  lemma AddUnassignedNoDangling(tasks: seq<Task>, members: seq<Member>, t: Task)
    requires t.assignedTo == None && NoDangling(tasks, members)
    ensures NoDangling(Sort([t] + tasks, TaskKey), members)
  {
    var ts := [t] + tasks;
    forall i | 0 <= i < |ts| && IsTruthy(ts[i].assignedTo)
      ensures exists k :: 0 <= k < |tasks| && tasks[k].assignedTo == ts[i].assignedTo
    {
      assert ts[i] == tasks[i - 1];
    }
    AssigneesNoDangling(tasks, ts, members);
    SortTasksNoDangling(ts, members, TaskKey);
  }

  /** `deleteTask` leaves no dangling reference behind. */
  lemma DeleteTaskNoDangling(tasks: seq<Task>, members: seq<Member>, taskId: string)
    requires NoDangling(tasks, members)
    ensures NoDangling(WithoutId(tasks, TaskId, taskId), members)
  {
    SubsetTasksNoDangling(tasks, WithoutId(tasks, TaskId, taskId), members);
  }

  /** `reorderTasks` touches no assignee, so it leaves no dangling
      reference behind. */
  lemma ReorderTasksNoDangling(tasks: seq<Task>, members: seq<Member>, ids: seq<string>)
    requires NoDangling(tasks, members)
    ensures NoDangling(Reordered(tasks, TaskId, TaskKey, SetTaskOrder, ids), members)
  {
    var w := WithOrders(tasks, TaskId, SetTaskOrder, OrderMap(ids));
    forall i | 0 <= i < |w| && IsTruthy(w[i].assignedTo)
      ensures exists k :: 0 <= k < |tasks| && tasks[k].assignedTo == w[i].assignedTo
    {
      assert tasks[i].assignedTo == w[i].assignedTo;
    }
    AssigneesNoDangling(tasks, w, members);
    SortTasksNoDangling(w, members, TaskKey);
  }

  /** `reorderMembers` touches no member id, so it leaves no dangling
      reference behind. */
  lemma ReorderMembersNoDangling(tasks: seq<Task>, members: seq<Member>, ids: seq<string>)
    requires NoDangling(tasks, members)
    ensures NoDangling(tasks, Reordered(members, MemberId, MemberKey, SetMemberOrder, ids))
  {
    var w := WithOrders(members, MemberId, SetMemberOrder, OrderMap(ids));
    forall j | 0 <= j < |members| ensures exists l :: 0 <= l < |w| && w[l].id == members[j].id {
      assert w[j].id == members[j].id;
    }
    SupersetMembersNoDangling(tasks, members, w);
    SortMembersNoDangling(tasks, w, MemberKey);
  }

  /** `reorderMembers` touches no availability, so it keeps every member
      within capacity. */
  lemma ReorderMembersKeepsCapacity(tasks: seq<Task>, members: seq<Member>, ids: seq<string>)
    requires WithinCapacity(tasks, members)
    ensures WithinCapacity(tasks, Reordered(members, MemberId, MemberKey, SetMemberOrder, ids))
  {
    var w := WithOrders(members, MemberId, SetMemberOrder, OrderMap(ids));
    forall m | m in w ensures TaskAssignedMinutes(tasks, m.id) <= SumAvailabilityMinutes(m) {
      var i :| 0 <= i < |w| && w[i] == m;
      assert members[i] in members;
      SumAvailabilityExplicit(m);
      SumAvailabilityExplicit(members[i]);
    }
    SortMembersKeepsCapacity(tasks, w, MemberKey);
  }

  /** `updateMemberName` touches no member id, so it leaves no dangling
      reference behind. */
  lemma RenameNoDangling(tasks: seq<Task>, members: seq<Member>, memberId: string, name: string)
    requires NoDangling(tasks, members)
    ensures NoDangling(tasks, Sort(PatchedMembers(members, memberId, NamePatch(name)), MemberKey))
  {
    var ms := PatchedMembers(members, memberId, NamePatch(name));
    forall j | 0 <= j < |members| ensures exists l :: 0 <= l < |ms| && ms[l].id == members[j].id {
      assert ms[j].id == members[j].id;
    }
    SupersetMembersNoDangling(tasks, members, ms);
    SortMembersNoDangling(tasks, ms, MemberKey);
  }

  /** `createMember` only adds an id, so it leaves no dangling reference
      behind. */
  lemma AddMemberNoDangling(tasks: seq<Task>, members: seq<Member>, m: Member)
    requires NoDangling(tasks, members)
    ensures NoDangling(tasks, Sort([m] + members, MemberKey))
  {
    var ms := [m] + members;
    forall i | 0 <= i < |tasks| && IsTruthy(tasks[i].assignedTo)
      ensures exists l :: 0 <= l < |ms| && ms[l].id == tasks[i].assignedTo.value
    {
      var j :| 0 <= j < |members| && members[j].id == tasks[i].assignedTo.value;
      assert ms[j + 1] == members[j];
    }
    SortMembersNoDangling(tasks, ms, MemberKey);
  }

  /** A member id that no task is assigned to has no assigned minutes. */
  lemma {:induction false} AssignedMinutesNone(tasks: seq<Task>, x: string)
    requires forall i :: 0 <= i < |tasks| ==> tasks[i].assignedTo != Some(x)
    ensures TaskAssignedMinutes(tasks, x) == 0
  {
    if tasks != [] {
      assert tasks == [tasks[0]] + tasks[1..];
      AssignedMinutesCons(tasks[0], tasks[1..], x);
      AssignedMinutesNone(tasks[1..], x);
    }
  }

  /** `createMember` with an id that is new and not empty keeps every member
      within capacity: no task can point at an id that was not on the board,
      so the new member starts with nothing assigned. */
  lemma {:induction false} FreshIdUnassigned(tasks: seq<Task>, members: seq<Member>, x: string)
    requires NoDangling(tasks, members)
    requires x != "" && forall k :: 0 <= k < |members| ==> members[k].id != x
    ensures forall i :: 0 <= i < |tasks| ==> tasks[i].assignedTo != Some(x)
  {
    forall i | 0 <= i < |tasks| ensures tasks[i].assignedTo != Some(x) {
      if IsTruthy(tasks[i].assignedTo) {
        var j :| 0 <= j < |members| && members[j].id == tasks[i].assignedTo.value;
        assert members[j].id != x;
      }
    }
  }

  lemma {:induction false} AddMemberKeepsCapacity(tasks: seq<Task>, members: seq<Member>, m: Member)
    requires WithinCapacity(tasks, members) && NoDangling(tasks, members)
    requires m.id != "" && forall k :: 0 <= k < |members| ==> members[k].id != m.id
    requires SumAvailabilityMinutes(m) >= 0
    ensures WithinCapacity(tasks, Sort([m] + members, MemberKey))
  {
    FreshIdUnassigned(tasks, members, m.id);
    AssignedMinutesNone(tasks, m.id);
    var ms := [m] + members;
    forall n | n in ms ensures TaskAssignedMinutes(tasks, n.id) <= SumAvailabilityMinutes(n) {
      if n != m {
        assert n in members;
      }
    }
    SortMembersKeepsCapacity(tasks, ms, MemberKey);
  }

  lemma {:induction false} ClearedMinutes(tasks: seq<Task>, memberId: string, x: string)
    requires x != memberId
    ensures TaskAssignedMinutes(ClearAssignee(tasks, memberId), x) == TaskAssignedMinutes(tasks, x)
  {
    if tasks != [] {
      var r := ClearAssignee(tasks, memberId);
      assert tasks == [tasks[0]] + tasks[1..];
      assert r == [r[0]] + r[1..];
      assert r[1..] == ClearAssignee(tasks[1..], memberId);
      AssignedMinutesCons(tasks[0], tasks[1..], x);
      AssignedMinutesCons(r[0], r[1..], x);
      ClearedMinutes(tasks[1..], memberId, x);
    }
  }

  /** Deleting a member keeps the remaining members within capacity. */
  lemma DeleteMemberKeepsCapacity(tasks: seq<Task>, members: seq<Member>, memberId: string)
    requires WithinCapacity(tasks, members)
    ensures WithinCapacity(ClearAssignee(tasks, memberId), WithoutId(members, MemberId, memberId))
  {
    var ms := WithoutId(members, MemberId, memberId);
    forall m | m in ms
      ensures TaskAssignedMinutes(ClearAssignee(tasks, memberId), m.id) <= SumAvailabilityMinutes(m)
    {
      var k :| 0 <= k < |ms| && ms[k] == m;
      ClearedMinutes(tasks, memberId, m.id);
    }
  }

  /** An assignment to nobody or to a member on the board creates no
      dangling reference. */
  lemma AssignNoDangling(tasks: seq<Task>, members: seq<Member>, taskId: string, assignee: Option<string>)
    requires NoDangling(tasks, members)
    requires IsTruthy(assignee) ==> exists j :: 0 <= j < |members| && members[j].id == assignee.value
    ensures NoDangling(WithAssignee(tasks, taskId, assignee), members)
  {
  }

  lemma {:induction false} AssignedMinutesInsert(x: Task, s: seq<Task>, key: Task -> SortKey, memberId: string)
    ensures TaskAssignedMinutes(Insert(x, s, key), memberId)
      == Contribution(x, memberId) + TaskAssignedMinutes(s, memberId)
  {
    if s == [] {
      AssignedMinutesCons(x, [], memberId);
      assert [x] + [] == [x];
    } else if Leq(key(x), key(s[0])) {
      AssignedMinutesCons(x, s, memberId);
    } else {
      AssignedMinutesCons(s[0], Insert(x, s[1..], key), memberId);
      AssignedMinutesInsert(x, s[1..], key, memberId);
      AssignedMinutesCons(s[0], s[1..], memberId);
      assert [s[0]] + s[1..] == s;
    }
  }

  /** Sorting the task list changes no member's assigned minutes. */
  lemma {:induction false} AssignedMinutesSort(tasks: seq<Task>, key: Task -> SortKey, memberId: string)
    ensures TaskAssignedMinutes(Sort(tasks, key), memberId) == TaskAssignedMinutes(tasks, memberId)
  {
    if tasks != [] {
      AssignedMinutesSort(tasks[1..], key, memberId);
      AssignedMinutesInsert(tasks[0], Sort(tasks[1..], key), key, memberId);
      AssignedMinutesCons(tasks[0], tasks[1..], memberId);
      assert [tasks[0]] + tasks[1..] == tasks;
    }
  }

  /** Sorting the task list keeps every member within capacity. */
  lemma SortTasksKeepsCapacity(tasks: seq<Task>, members: seq<Member>, key: Task -> SortKey)
    requires WithinCapacity(tasks, members)
    ensures WithinCapacity(Sort(tasks, key), members)
  {
    forall m | m in members ensures TaskAssignedMinutes(Sort(tasks, key), m.id) <= SumAvailabilityMinutes(m) {
      AssignedMinutesSort(tasks, key, m.id);
    }
  }

  /** Sorting the member list keeps every member within capacity. */
  lemma SortMembersKeepsCapacity(tasks: seq<Task>, members: seq<Member>, key: Member -> SortKey)
    requires WithinCapacity(tasks, members)
    ensures WithinCapacity(tasks, Sort(members, key))
  {
    forall m | m in Sort(members, key) ensures TaskAssignedMinutes(tasks, m.id) <= SumAvailabilityMinutes(m) {
      assert m in multiset(Sort(members, key));
    }
  }

  /** Rewriting orders moves no minutes between members. */
  lemma {:induction false} AssignedMinutesWithOrders(tasks: seq<Task>, orders: map<string, int>, x: string)
    ensures TaskAssignedMinutes(WithOrders(tasks, TaskId, SetTaskOrder, orders), x) == TaskAssignedMinutes(tasks, x)
  {
    if tasks != [] {
      var r := WithOrders(tasks, TaskId, SetTaskOrder, orders);
      assert tasks == [tasks[0]] + tasks[1..];
      assert r == [r[0]] + r[1..];
      assert r[1..] == WithOrders(tasks[1..], TaskId, SetTaskOrder, orders);
      AssignedMinutesCons(tasks[0], tasks[1..], x);
      AssignedMinutesCons(r[0], r[1..], x);
      AssignedMinutesWithOrders(tasks[1..], orders, x);
    }
  }

  /** `reorderTasks` keeps every member within capacity. */
  lemma ReorderTasksKeepsCapacity(tasks: seq<Task>, members: seq<Member>, ids: seq<string>)
    requires WithinCapacity(tasks, members)
    ensures WithinCapacity(Reordered(tasks, TaskId, TaskKey, SetTaskOrder, ids), members)
  {
    var w := WithOrders(tasks, TaskId, SetTaskOrder, OrderMap(ids));
    forall m | m in members ensures TaskAssignedMinutes(w, m.id) <= SumAvailabilityMinutes(m) {
      AssignedMinutesWithOrders(tasks, OrderMap(ids), m.id);
    }
    SortTasksKeepsCapacity(w, members, TaskKey);
  }

  /** Adding an unassigned task (`createTask`, `duplicateTask`) keeps every
      member within capacity. */
  lemma AddUnassignedKeepsCapacity(tasks: seq<Task>, members: seq<Member>, t: Task)
    requires t.assignedTo == None && WithinCapacity(tasks, members)
    ensures WithinCapacity(Sort([t] + tasks, TaskKey), members)
  {
    forall m | m in members ensures TaskAssignedMinutes([t] + tasks, m.id) <= SumAvailabilityMinutes(m) {
      AssignedMinutesCons(t, tasks, m.id);
    }
    SortTasksKeepsCapacity([t] + tasks, members, TaskKey);
  }

  /** Removing a task never adds to anyone's assigned minutes. */
  lemma {:induction false} AssignedMinutesWithoutId(tasks: seq<Task>, taskId: string, x: string)
    requires NonNegativeMinutes(tasks)
    ensures TaskAssignedMinutes(WithoutId(tasks, TaskId, taskId), x) <= TaskAssignedMinutes(tasks, x)
  {
    if tasks != [] {
      var rest := tasks[1..];
      var kept := WithoutId(rest, TaskId, taskId);
      assert NonNegativeMinutes(rest) by {
        forall i | 0 <= i < |rest| ensures rest[i].minutes >= 0 {
          assert rest[i] == tasks[i + 1];
        }
      }
      AssignedMinutesWithoutId(rest, taskId, x);
      AssignedMinutesCons(tasks[0], rest, x);
      assert tasks == [tasks[0]] + rest;
      assert Contribution(tasks[0], x) >= 0 by { assert tasks[0].minutes >= 0; }
      if tasks[0].id != taskId {
        assert WithoutId(tasks, TaskId, taskId) == [tasks[0]] + kept;
        AssignedMinutesCons(tasks[0], kept, x);
      } else {
        assert WithoutId(tasks, TaskId, taskId) == kept;
      }
    }
  }

  /** `deleteTask` keeps every member within capacity. */
  lemma DeleteTaskKeepsCapacity(tasks: seq<Task>, members: seq<Member>, taskId: string)
    requires WithinCapacity(tasks, members) && NonNegativeMinutes(tasks)
    ensures WithinCapacity(WithoutId(tasks, TaskId, taskId), members)
  {
    forall m | m in members ensures TaskAssignedMinutes(WithoutId(tasks, TaskId, taskId), m.id) <= SumAvailabilityMinutes(m) {
      AssignedMinutesWithoutId(tasks, taskId, m.id);
    }
  }

  /** `updateMemberName` keeps every member within capacity: a rename
      touches neither ids nor availability. */
  lemma RenameKeepsCapacity(tasks: seq<Task>, members: seq<Member>, memberId: string, name: string)
    requires WithinCapacity(tasks, members)
    ensures WithinCapacity(tasks, Sort(PatchedMembers(members, memberId, NamePatch(name)), MemberKey))
  {
    var ms := PatchedMembers(members, memberId, NamePatch(name));
    forall m | m in ms ensures TaskAssignedMinutes(tasks, m.id) <= SumAvailabilityMinutes(m) {
      var i :| 0 <= i < |ms| && ms[i] == m;
      assert members[i] in members;
      SumAvailabilityExplicit(m);
      SumAvailabilityExplicit(members[i]);
    }
    SortMembersKeepsCapacity(tasks, ms, MemberKey);
  }
}
