/** The workspace board store (`useWorkspaceStore`): the state it holds, the
    derived `stats` and year-month list, and one method per operation. In
    demo mode each operation rewrites the local lists; in live mode it only
    sends a request to the server, so the local lists stay as they are
    until a snapshot arrives. */
module WorkspaceStore {
  import opened Wrappers
  import opened Types
  import opened Text
  import opened SortByOrder
  import opened Lists
  import opened Periods
  import opened Capacity
  import opened Board

  datatype Mode = Demo | Firebase

  const END_BEFORE_START_TOAST: string := "❌ 종료일이 시작일보다 빠릅니다."
  const PERIOD_CREATED_TOAST: string := "✅ 기간 탭을 생성했습니다."

  /** The toast of a rejected assignment, naming the member. */
  function OverCapacityToast(name: string): string {
    "❌ 할당 불가: " + name + " 가용시간을 초과합니다."
  }

  /** The `stats` loop: one entry per member, written in list order. */
  method ComputeStats(members: seq<Member>, tasks: seq<Task>) returns (st: map<string, Stat>)
    ensures st == StatsOf(members, tasks)
  {
    st := map[];
    var i := 0;
    while i < |members|
      invariant 0 <= i <= |members|
      invariant st == StatsOf(members[..i], tasks)
    {
      var m := members[i];
      var done := TaskAssignedMinutes(tasks, m.id);
      var available := SumAvailabilityMinutes(m);
      var remaining := available - done;
      st := st[m.id := Stat(done, available, remaining, remaining < 0)];
      StatsOfSnoc(members, tasks, i);
      i := i + 1;
    }
    assert members[..i] == members;
  }

  lemma StatsOfSnoc(members: seq<Member>, tasks: seq<Task>, i: int)
    requires 0 <= i < |members|
    ensures StatsOf(members[..i + 1], tasks) == StatsOf(members[..i], tasks)[members[i].id := StatOf(members[i], tasks)]
  {
    var pre := members[..i + 1];
    assert pre[..|pre| - 1] == members[..i];
    assert pre[|pre| - 1] == members[i];
  }

  /** The `forEach` that fills `idToOrder`. */
  method BuildOrderMap(ids: seq<string>) returns (m: map<string, int>)
    ensures m == OrderMap(ids)
  {
    m := map[];
    var idx := 0;
    while idx < |ids|
      invariant 0 <= idx <= |ids|
      invariant m == OrderMap(ids[..idx])
    {
      OrderMapSnoc(ids, idx);
      m := m[ids[idx] := (idx + 1) * ORDER_STEP];
      idx := idx + 1;
    }
    assert ids[..idx] == ids;
  }

  /** `assignTask` gets past its guards: the task exists, a period is
      selected, and a truthy `memberId` names a member with room for the
      task's minutes. */
  predicate AssignAccepted(tasks: seq<Task>, members: seq<Member>, selected: Option<string>,
                           taskId: string, memberId: Option<string>)
  {
    && FindById(tasks, TaskId, taskId).Some?
    && IsTruthy(selected)
    && (IsTruthy(memberId) ==>
          && FindById(members, MemberId, memberId.value).Some?
          && !CapacityExceeded(StatsOf(members, tasks), memberId.value, FindById(tasks, TaskId, taskId).value.minutes))
  }

  /** `assignTask` stops at the capacity check. */
  predicate AssignRejected(tasks: seq<Task>, members: seq<Member>, selected: Option<string>,
                           taskId: string, memberId: Option<string>)
  {
    && FindById(tasks, TaskId, taskId).Some?
    && IsTruthy(selected)
    && IsTruthy(memberId)
    && FindById(members, MemberId, memberId.value).Some?
    && CapacityExceeded(StatsOf(members, tasks), memberId.value, FindById(tasks, TaskId, taskId).value.minutes)
  }

  /** The assumptions under which the assignment keeps capacity: ids are
      distinct and member ids are not empty (as the store generates them),
      and no task has a negative duration. */
  ghost predicate WellFormed(tasks: seq<Task>, members: seq<Member>) {
    DistinctIds(tasks, TaskId) && DistinctIds(members, MemberId)
    && NonNegativeMinutes(tasks) && NonEmptyMemberIds(members)
  }

  /** Ids the store generates are never empty. */
  ghost predicate NonEmptyMemberIds(members: seq<Member>) {
    forall i :: 0 <= i < |members| ==> members[i].id != ""
  }

  /** An accepted assignment keeps every member within capacity. */
  lemma AssignAcceptedKeepsCapacity(tasks: seq<Task>, members: seq<Member>, selected: Option<string>,
                                    taskId: string, memberId: Option<string>)
    requires AssignAccepted(tasks, members, selected, taskId, memberId)
    requires WithinCapacity(tasks, members) && NonNegativeMinutes(tasks)
    requires DistinctIds(members, MemberId) && DistinctIds(tasks, TaskId) && NonEmptyMemberIds(members)
    ensures WithinCapacity(WithAssignee(tasks, taskId, memberId), members)
  {
    if IsTruthy(memberId) {
      AssignKeepsCapacity(tasks, members, taskId, memberId.value);
      assert WithAssignee(tasks, taskId, Some(memberId.value)) == WithAssignee(tasks, taskId, memberId);
    } else {
      forall m | m in members ensures memberId != Some(m.id) {
        var i :| 0 <= i < |members| && members[i] == m;
      }
      UnassignKeepsCapacity(tasks, members, taskId, memberId);
    }
  }

  /** An accepted assignment points the task at nobody or at a member on
      the board. */
  lemma AssignAcceptedNoDangling(tasks: seq<Task>, members: seq<Member>, selected: Option<string>,
                                 taskId: string, memberId: Option<string>)
    requires AssignAccepted(tasks, members, selected, taskId, memberId)
    requires NoDangling(tasks, members)
    ensures NoDangling(WithAssignee(tasks, taskId, memberId), members)
  {
    if IsTruthy(memberId) {
      var m := FindById(members, MemberId, memberId.value).value;
      var j :| 0 <= j < |members| && members[j] == m && MemberId(members[j]) == memberId.value;
    }
    AssignNoDangling(tasks, members, taskId, memberId);
  }

  /** A rejection of a task the member does not already hold is never
      spurious: assigning it anyway would have put the member over their
      availability. Re-assigning a task to its current holder is the
      exception, see `ReassignToHolderRejected`. */
  lemma AssignRejectedWouldOverflow(tasks: seq<Task>, members: seq<Member>, selected: Option<string>,
                                    taskId: string, memberId: Option<string>)
    requires AssignRejected(tasks, members, selected, taskId, memberId)
    requires DistinctIds(members, MemberId) && DistinctIds(tasks, TaskId)
    requires FindById(tasks, TaskId, taskId).value.assignedTo != memberId
    ensures exists i ::
      && 0 <= i < |members| && members[i].id == memberId.value
      && TaskAssignedMinutes(WithAssignee(tasks, taskId, memberId), members[i].id) > SumAvailabilityMinutes(members[i])
  {
    var m := FindById(members, MemberId, memberId.value).value;
    var i :| 0 <= i < |members| && members[i] == m && MemberId(members[i]) == memberId.value;
    CapacityCheckTight(tasks, members, taskId, i);
    assert WithAssignee(tasks, taskId, Some(members[i].id)) == WithAssignee(tasks, taskId, memberId);
  }

  /** The capacity check counts a task its target member already holds
      twice: `stats[memberId].assigned` includes it and its minutes are
      added again. Here a 100-minute task held by a member with 150 minutes
      available is refused, although the assignment would change nothing
      and the member is within capacity. */
  lemma ReassignToHolderRejected()
    ensures var m := Member("m1", "Kim", map[Mon := 150, Tue := 0, Wed := 0, Thu := 0, Fri := 0, Sat := 0, Sun := 0],
                            Some(100), Some(0));
      var t := Task("t1", "Report", "", 100, "main", false, Some("m1"), Some(100), Some(0));
      && AssignRejected([t], [m], Some("p1"), "t1", Some("m1"))
      && WithAssignee([t], "t1", Some("m1")) == [t]
      && WithinCapacity([t], [m])
  {
    var m := Member("m1", "Kim", map[Mon := 150, Tue := 0, Wed := 0, Thu := 0, Fri := 0, Sat := 0, Sun := 0],
                    Some(100), Some(0));
    var t := Task("t1", "Report", "", 100, "main", false, Some("m1"), Some(100), Some(0));
    SumAvailabilityExplicit(m);
    assert SumAvailabilityMinutes(m) == 150;
    AssignedMinutesCons(t, [], "m1");
    assert [t] + [] == [t];
    assert TaskAssignedMinutes([t], "m1") == 100;
    assert StatsOf([m], [t]) == StatsOf([], [t])["m1" := StatOf(m, [t])];
    assert StatsOf([m], [t])["m1"] == Stat(100, 150, 50, false);
    assert FindById([t], TaskId, "t1") == Some(t);
    assert FindById([m], MemberId, "m1") == Some(m);
    assert WithAssignee([t], "t1", Some("m1"))[0] == t;
  }

  /** The board of `BatchedAssignsOverflow`: one member with 150 minutes
      and two unassigned 100-minute tasks. */
  const BATCH_MEMBER := Member("m1", "Kim", map[Mon := 150, Tue := 0, Wed := 0, Thu := 0, Fri := 0, Sat := 0, Sun := 0],
                               Some(100), Some(0))
  const BATCH_TASKS := [Task("t1", "Report", "", 100, "main", false, None, Some(100), Some(0)),
                        Task("t2", "Review", "", 100, "main", false, None, Some(200), Some(0))]

  lemma BatchStats()
    ensures StatsOf([BATCH_MEMBER], BATCH_TASKS)["m1"] == Stat(0, 150, 150, false)
  {
    var t1, t2 := BATCH_TASKS[0], BATCH_TASKS[1];
    SumAvailabilityExplicit(BATCH_MEMBER);
    AssignedMinutesCons(t2, [], "m1");
    assert [t2] + [] == [t2];
    AssignedMinutesCons(t1, [t2], "m1");
    assert [t1] + [t2] == BATCH_TASKS;
    assert StatsOf([BATCH_MEMBER], BATCH_TASKS) == StatsOf([], BATCH_TASKS)["m1" := StatOf(BATCH_MEMBER, BATCH_TASKS)];
  }

  lemma BatchAfterOverflows()
    ensures !WithinCapacity(WithAssignee(WithAssignee(BATCH_TASKS, "t1", Some("m1")), "t2", Some("m1")), [BATCH_MEMBER])
  {
    var u1 := BATCH_TASKS[0].(assignedTo := Some("m1"));
    var u2 := BATCH_TASKS[1].(assignedTo := Some("m1"));
    var after := WithAssignee(WithAssignee(BATCH_TASKS, "t1", Some("m1")), "t2", Some("m1"));
    assert after == [u1, u2];
    SumAvailabilityExplicit(BATCH_MEMBER);
    AssignedMinutesCons(u2, [], "m1");
    assert [u2] + [] == [u2];
    AssignedMinutesCons(u1, [u2], "m1");
    assert [u1] + [u2] == after;
    assert BATCH_MEMBER in [BATCH_MEMBER];
  }

  lemma BatchAccepted(k: int)
    requires 0 <= k < 2
    ensures AssignAccepted(BATCH_TASKS, [BATCH_MEMBER], Some("p1"), BATCH_TASKS[k].id, Some("m1"))
  {
    BatchStats();
    assert FindById(BATCH_TASKS, TaskId, BATCH_TASKS[k].id) == Some(BATCH_TASKS[k]);
    assert FindById([BATCH_MEMBER], MemberId, "m1") == Some(BATCH_MEMBER);
  }

  /** Each assignment is checked against the state it starts from. Two
      assignments that each pass against the same board can together
      overflow a member: two 100-minute tasks both fit a member with 150
      minutes, but not at once. */
  lemma BatchedAssignsOverflow()
    ensures AssignAccepted(BATCH_TASKS, [BATCH_MEMBER], Some("p1"), "t1", Some("m1"))
    ensures AssignAccepted(BATCH_TASKS, [BATCH_MEMBER], Some("p1"), "t2", Some("m1"))
    ensures !WithinCapacity(WithAssignee(WithAssignee(BATCH_TASKS, "t1", Some("m1")), "t2", Some("m1")), [BATCH_MEMBER])
  {
    BatchAccepted(0);
    BatchAccepted(1);
    BatchAfterOverflows();
  }

  /** The guards of `assignTask`, in its order: find the task, require a
      selected period, and for a truthy `memberId` find the member and run
      the capacity check on a fresh `stats`. `rejectedName` is the name the
      rejection toast shows. */
  method CheckAssign(tasks: seq<Task>, members: seq<Member>, selected: Option<string>,
                     taskId: string, memberId: Option<string>)
    returns (accepted: bool, rejectedName: Option<string>)
    ensures accepted <==> AssignAccepted(tasks, members, selected, taskId, memberId)
    ensures rejectedName.Some? <==> AssignRejected(tasks, members, selected, taskId, memberId)
    ensures rejectedName.Some? ==> rejectedName.value == FindById(members, MemberId, memberId.value).value.name
    ensures !(accepted && rejectedName.Some?)
  {
    var task := FindById(tasks, TaskId, taskId);
    if task.None? || !IsTruthy(selected) {
      return false, None;
    }
    if IsTruthy(memberId) {
      var m := FindById(members, MemberId, memberId.value);
      if m.None? {
        return false, None;
      }
      var st := ComputeStats(members, tasks);
      if CapacityExceeded(st, memberId.value, task.value.minutes) {
        return false, Some(m.value.name);
      }
    }
    return true, None;
  }

  /** What an accepted assignment keeps: the capacity invariant (under the
      store's id assumptions) and the absence of dangling assignees. */
  lemma AssignPreserves(tasks: seq<Task>, members: seq<Member>, selected: Option<string>,
                        taskId: string, memberId: Option<string>)
    requires AssignAccepted(tasks, members, selected, taskId, memberId)
    ensures WellFormed(tasks, members) && WithinCapacity(tasks, members)
      ==> WithinCapacity(WithAssignee(tasks, taskId, memberId), members)
    ensures NoDangling(tasks, members) ==> NoDangling(WithAssignee(tasks, taskId, memberId), members)
    ensures SortedBy(tasks, TaskKey) ==> SortedBy(WithAssignee(tasks, taskId, memberId), TaskKey)
  {
    if SortedBy(tasks, TaskKey) {
      SortedSameKeys(tasks, WithAssignee(tasks, taskId, memberId), TaskKey);
    }
    if WellFormed(tasks, members) && WithinCapacity(tasks, members) {
      AssignAcceptedKeepsCapacity(tasks, members, selected, taskId, memberId);
    }
    if NoDangling(tasks, members) {
      AssignAcceptedNoDangling(tasks, members, selected, taskId, memberId);
    }
  }

  /** Each element is lexicographically greater than every later one. */
  predicate StrictlyDescending(s: seq<string>) {
    forall i, j :: 0 <= i < j < |s| ==> LexLess(s[j], s[i])
  }

  /** Adds `x` to a descending list unless it is already there. */
  function InsertDesc(x: string, s: seq<string>): (r: seq<string>)
    ensures forall y :: y in r <==> y == x || y in s
  {
    if s == [] then [x]
    else if x == s[0] then s
    else if LexLess(s[0], x) then [x] + s
    else [s[0]] + InsertDesc(x, s[1..])
  }

  lemma {:induction false} InsertDescDescending(x: string, s: seq<string>)
    requires StrictlyDescending(s)
    ensures StrictlyDescending(InsertDesc(x, s))
  {
    if s != [] && x != s[0] {
      var r := InsertDesc(x, s);
      if LexLess(s[0], x) {
        forall j | 1 <= j < |r| ensures LexLess(r[j], r[0]) {
          if j > 1 { LexLessTransitive(s[j - 1], s[0], x); }
        }
      } else {
        LexLessTotal(x, s[0]);
        InsertDescDescending(x, s[1..]);
        var t := InsertDesc(x, s[1..]);
        forall j | 0 <= j < |t| ensures LexLess(t[j], s[0]) {
          assert t[j] == x || t[j] in s[1..];
        }
      }
    }
  }

  class Store {
    var mode: Mode
    var periods: seq<Period>
    var selectedPeriodId: Option<string>
    var members: seq<Member>
    var tasks: seq<Task>
    /** The message on screen, if any. */
    var toast: Option<string>

    /** Every list the store writes is sorted by `sortByOrder`. */
    ghost predicate Valid()
      reads this
    {
      SortedBy(tasks, TaskKey) && SortedBy(members, MemberKey)
    }

    /** The initial state. */
    constructor()
      ensures Valid()
      ensures mode == Demo && periods == [] && selectedPeriodId == None
      ensures members == [] && tasks == [] && toast == None
    {
      mode := Demo;
      periods := [];
      selectedPeriodId := None;
      members := [];
      tasks := [];
      toast := None;
    }

    /** The mount effect. Without a database the board becomes the demo
        board of the week `start`..`end`; with one, the store goes live. */
    method Open(workspaceId: string, hasDatabase: bool, start: string, end: string, now: int,
                demoMembers: seq<Member>, demoTasks: seq<Task>)
      requires Valid()
      modifies this
      ensures Valid() && toast == old(toast)
      ensures workspaceId == "" ==>
        mode == old(mode) && periods == old(periods) && selectedPeriodId == old(selectedPeriodId)
        && members == old(members) && tasks == old(tasks)
      ensures workspaceId != "" && !hasDatabase ==>
        && mode == Demo && periods == [MakePeriod(start, end, now)]
        && selectedPeriodId == Some(PeriodId(start, end))
        && members == Sort(demoMembers, MemberKey) && tasks == Sort(demoTasks, TaskKey)
      ensures workspaceId != "" && hasDatabase ==>
        mode == Firebase && periods == old(periods) && selectedPeriodId == old(selectedPeriodId)
        && members == old(members) && tasks == old(tasks)
    {
      if workspaceId == "" {
        return;
      }
      if !hasDatabase {
        var p := MakePeriod(start, end, now);
        mode := Demo;
        periods := [p];
        selectedPeriodId := Some(p.id);
        members := Sort(demoMembers, MemberKey);
        tasks := Sort(demoTasks, TaskKey);
        return;
      }
      mode := Firebase;
    }

    /** `selectedPeriod`: the period whose id is selected, if any. */
    function SelectedPeriod(): (r: Option<Period>)
      reads this
      ensures r.Some? ==> IsTruthy(selectedPeriodId) && r.value in periods && r.value.id == selectedPeriodId.value
      ensures r.None? <==>
        || !IsTruthy(selectedPeriodId)
        || forall i :: 0 <= i < |periods| ==> periods[i].id != selectedPeriodId.value
    {
      if !IsTruthy(selectedPeriodId) then None else FindById(periods, PeriodIdOf, selectedPeriodId.value)
    }

    method SelectPeriod(id: string)
      requires Valid()
      modifies this
      ensures Valid() && selectedPeriodId == Some(id)
      ensures mode == old(mode) && periods == old(periods) && members == old(members)
      ensures tasks == old(tasks) && toast == old(toast)
    {
      selectedPeriodId := Some(id);
    }

    /** `createPeriod`. In live mode `requestOk` says whether the server
        accepted the request; only then does the store select the period. */
    method CreatePeriod(start: string, end: string, now: int, requestOk: bool)
      requires Valid()
      modifies this
      ensures Valid()
      ensures mode == old(mode) && members == old(members) && tasks == old(tasks)
      ensures start == "" || end == "" ==>
        periods == old(periods) && selectedPeriodId == old(selectedPeriodId) && toast == old(toast)
      ensures start != "" && end != "" && EndBeforeStart(start, end) ==>
        periods == old(periods) && selectedPeriodId == old(selectedPeriodId) && toast == Some(END_BEFORE_START_TOAST)
      ensures start != "" && end != "" && !EndBeforeStart(start, end) && old(mode) == Demo ==>
        && periods == UpsertPeriod(old(periods), MakePeriod(start, end, now))
        && selectedPeriodId == Some(PeriodId(start, end))
        && SelectedPeriod() == Some(MakePeriod(start, end, now))
        && toast == Some(PERIOD_CREATED_TOAST)
      ensures start != "" && end != "" && !EndBeforeStart(start, end) && old(mode) == Firebase ==>
        && periods == old(periods)
        && selectedPeriodId == (if requestOk then Some(PeriodId(start, end)) else old(selectedPeriodId))
        && toast == (if requestOk then Some(PERIOD_CREATED_TOAST) else old(toast))
    {
      if start == "" || end == "" {
        return;
      }
      if EndBeforeStart(start, end) {
        toast := Some(END_BEFORE_START_TOAST);
        return;
      }
      var id := PeriodId(start, end);
      if mode == Demo {
        periods := UpsertPeriod(periods, MakePeriod(start, end, now));
        selectedPeriodId := Some(id);
        toast := Some(PERIOD_CREATED_TOAST);
        return;
      }
      if requestOk {
        selectedPeriodId := Some(id);
        toast := Some(PERIOD_CREATED_TOAST);
      }
    }

    /** `assignTask`: `memberId` `None` stands for `null` (unassign). */
    method AssignTask(taskId: string, memberId: Option<string>)
      requires Valid()
      modifies this
      ensures Valid()
      ensures mode == old(mode) && periods == old(periods) && selectedPeriodId == old(selectedPeriodId)
      ensures members == old(members)
      ensures tasks == if old(mode) == Demo && AssignAccepted(old(tasks), old(members), old(selectedPeriodId), taskId, memberId)
        then WithAssignee(old(tasks), taskId, memberId) else old(tasks)
      ensures toast == if AssignRejected(old(tasks), old(members), old(selectedPeriodId), taskId, memberId)
        then Some(OverCapacityToast(FindById(old(members), MemberId, memberId.value).value.name)) else old(toast)
      ensures WellFormed(old(tasks), old(members)) && WithinCapacity(old(tasks), old(members))
        ==> WithinCapacity(tasks, members)
      ensures NoDangling(old(tasks), old(members)) ==> NoDangling(tasks, members)
    {
      var accepted, rejectedName := CheckAssign(tasks, members, selectedPeriodId, taskId, memberId);
      if rejectedName.Some? {
        toast := Some(OverCapacityToast(rejectedName.value));
        return;
      }
      if !accepted {
        return;
      }
      if mode == Demo {
        AssignPreserves(tasks, members, selectedPeriodId, taskId, memberId);
        tasks := WithAssignee(tasks, taskId, memberId);
      }
    }

    /** `updateMemberAvailability`: the member's record is patched and the
        list sorted again. */
    method UpdateMemberAvailability(memberId: string, patch: MemberPatch)
      requires Valid()
      modifies this
      ensures Valid()
      ensures mode == old(mode) && periods == old(periods) && selectedPeriodId == old(selectedPeriodId)
      ensures tasks == old(tasks) && toast == old(toast)
      ensures members == if old(mode) == Demo && IsTruthy(old(selectedPeriodId))
        then Sort(PatchedMembers(old(members), memberId, patch), MemberKey) else old(members)
    {
      if !IsTruthy(selectedPeriodId) {
        return;
      }
      if mode == Demo {
        members := Sort(PatchedMembers(members, memberId, patch), MemberKey);
      }
    }

    /** `updateMemberName`: the trimmed name replaces the old one; a blank
        name changes nothing. */
    method UpdateMemberName(memberId: string, name: string)
      requires Valid()
      modifies this
      ensures Valid()
      ensures mode == old(mode) && periods == old(periods) && selectedPeriodId == old(selectedPeriodId)
      ensures tasks == old(tasks) && toast == old(toast)
      ensures members == if old(mode) == Demo && IsTruthy(old(selectedPeriodId)) && Trim(name) != []
        then Sort(PatchedMembers(old(members), memberId, NamePatch(Trim(name))), MemberKey) else old(members)
      ensures WithinCapacity(old(tasks), old(members)) ==> WithinCapacity(tasks, members)
      ensures NoDangling(old(tasks), old(members)) ==> NoDangling(tasks, members)
    {
      if !IsTruthy(selectedPeriodId) {
        return;
      }
      var newName := Trim(name);
      if newName == [] {
        return;
      }
      if mode == Demo {
        if WithinCapacity(tasks, members) {
          RenameKeepsCapacity(tasks, members, memberId, newName);
        }
        if NoDangling(tasks, members) {
          RenameNoDangling(tasks, members, memberId, newName);
        }
        members := Sort(PatchedMembers(members, memberId, NamePatch(newName)), MemberKey);
      }
    }

    /** `deleteMember`: the member goes, and so does every reference to it. */
    method DeleteMember(memberId: string)
      requires Valid()
      modifies this
      ensures Valid()
      ensures mode == old(mode) && periods == old(periods) && selectedPeriodId == old(selectedPeriodId)
      ensures toast == old(toast)
      ensures members == if old(mode) == Demo && IsTruthy(old(selectedPeriodId))
        then WithoutId(old(members), MemberId, memberId) else old(members)
      ensures tasks == if old(mode) == Demo && IsTruthy(old(selectedPeriodId))
        then ClearAssignee(old(tasks), memberId) else old(tasks)
      ensures WithinCapacity(old(tasks), old(members)) ==> WithinCapacity(tasks, members)
      ensures NoDangling(old(tasks), old(members)) ==> NoDangling(tasks, members)
    {
      if !IsTruthy(selectedPeriodId) {
        return;
      }
      if mode == Demo {
        if WithinCapacity(tasks, members) {
          DeleteMemberKeepsCapacity(tasks, members, memberId);
        }
        if NoDangling(tasks, members) {
          DeleteMemberNoDangling(tasks, members, memberId);
        }
        WithoutIdSorted(members, MemberId, memberId, MemberKey);
        ghost var before := tasks;
        members := WithoutId(members, MemberId, memberId);
        tasks := ClearAssignee(tasks, memberId);
        SortedSameKeys(before, tasks, TaskKey);
      }
    }

    /** `updateTask`: the task's record is patched and the list sorted again. */
    method UpdateTask(taskId: string, patch: TaskPatch)
      requires Valid()
      modifies this
      ensures Valid()
      ensures mode == old(mode) && periods == old(periods) && selectedPeriodId == old(selectedPeriodId)
      ensures members == old(members) && toast == old(toast)
      ensures tasks == if old(mode) == Demo && IsTruthy(old(selectedPeriodId))
        then Sort(PatchedTasks(old(tasks), taskId, patch), TaskKey) else old(tasks)
    {
      if !IsTruthy(selectedPeriodId) {
        return;
      }
      if mode == Demo {
        tasks := Sort(PatchedTasks(tasks, taskId, patch), TaskKey);
      }
    }

    method DeleteTask(taskId: string)
      requires Valid()
      modifies this
      ensures Valid()
      ensures mode == old(mode) && periods == old(periods) && selectedPeriodId == old(selectedPeriodId)
      ensures members == old(members) && toast == old(toast)
      ensures tasks == if old(mode) == Demo && IsTruthy(old(selectedPeriodId))
        then WithoutId(old(tasks), TaskId, taskId) else old(tasks)
      ensures WithinCapacity(old(tasks), old(members)) && NonNegativeMinutes(old(tasks)) ==> WithinCapacity(tasks, members)
      ensures NoDangling(old(tasks), old(members)) ==> NoDangling(tasks, members)
    {
      if !IsTruthy(selectedPeriodId) {
        return;
      }
      if mode == Demo {
        if WithinCapacity(tasks, members) && NonNegativeMinutes(tasks) {
          DeleteTaskKeepsCapacity(tasks, members, taskId);
        }
        if NoDangling(tasks, members) {
          DeleteTaskNoDangling(tasks, members, taskId);
        }
        WithoutIdSorted(tasks, TaskId, taskId, TaskKey);
        tasks := WithoutId(tasks, TaskId, taskId);
      }
    }

    /** `createTask`; `freshId` and `now` stand for the random id and
        `Date.now()`. */
    method CreateTask(title: string, mins: Num, business: BusinessKey, important: bool, description: string,
                      freshId: string, now: int)
      requires Valid()
      modifies this
      ensures Valid()
      ensures mode == old(mode) && periods == old(periods) && selectedPeriodId == old(selectedPeriodId)
      ensures members == old(members) && toast == old(toast)
      ensures tasks == if old(mode) == Demo && IsTruthy(old(selectedPeriodId))
        then Sort([NewTask(freshId, title, mins, business, important, description,
                           NextOrder(old(tasks), TaskKey), now)] + old(tasks), TaskKey)
        else old(tasks)
      ensures WithinCapacity(old(tasks), old(members)) ==> WithinCapacity(tasks, members)
      ensures NoDangling(old(tasks), old(members)) ==> NoDangling(tasks, members)
    {
      if !IsTruthy(selectedPeriodId) {
        return;
      }
      var t := NewTask(freshId, title, mins, business, important, description, NextOrder(tasks, TaskKey), now);
      if mode == Demo {
        if WithinCapacity(tasks, members) {
          AddUnassignedKeepsCapacity(tasks, members, t);
        }
        if NoDangling(tasks, members) {
          AddUnassignedNoDangling(tasks, members, t);
        }
        tasks := Sort([t] + tasks, TaskKey);
      }
    }

    /** `duplicateTask`: an unassigned copy with a new id, order and time. */
    method DuplicateTask(taskId: string, freshId: string, now: int)
      requires Valid()
      modifies this
      ensures Valid()
      ensures mode == old(mode) && periods == old(periods) && selectedPeriodId == old(selectedPeriodId)
      ensures members == old(members) && toast == old(toast)
      ensures tasks == if old(mode) == Demo && IsTruthy(old(selectedPeriodId)) && FindById(old(tasks), TaskId, taskId).Some?
        then Sort([DuplicateOf(FindById(old(tasks), TaskId, taskId).value, freshId, NextOrder(old(tasks), TaskKey), now)]
                  + old(tasks), TaskKey)
        else old(tasks)
      ensures WithinCapacity(old(tasks), old(members)) ==> WithinCapacity(tasks, members)
      ensures NoDangling(old(tasks), old(members)) ==> NoDangling(tasks, members)
    {
      if !IsTruthy(selectedPeriodId) {
        return;
      }
      var src := FindById(tasks, TaskId, taskId);
      if src.None? {
        return;
      }
      var copy := DuplicateOf(src.value, freshId, NextOrder(tasks, TaskKey), now);
      if mode == Demo {
        if WithinCapacity(tasks, members) {
          AddUnassignedKeepsCapacity(tasks, members, copy);
        }
        if NoDangling(tasks, members) {
          AddUnassignedNoDangling(tasks, members, copy);
        }
        tasks := Sort([copy] + tasks, TaskKey);
      }
    }

    /** `createMember`: a member with an empty week. */
    method CreateMember(name: string, freshId: string, now: int)
      requires Valid()
      modifies this
      ensures Valid()
      ensures mode == old(mode) && periods == old(periods) && selectedPeriodId == old(selectedPeriodId)
      ensures tasks == old(tasks) && toast == old(toast)
      ensures members == if old(mode) == Demo && IsTruthy(old(selectedPeriodId))
        then Sort([NewMember(freshId, name, NextOrder(old(members), MemberKey), now)] + old(members), MemberKey)
        else old(members)
      ensures WithinCapacity(old(tasks), old(members)) && NoDangling(old(tasks), old(members))
        && freshId != "" && (forall k :: 0 <= k < |old(members)| ==> old(members)[k].id != freshId)
        ==> WithinCapacity(tasks, members)
      ensures NoDangling(old(tasks), old(members)) ==> NoDangling(tasks, members)
    {
      if !IsTruthy(selectedPeriodId) {
        return;
      }
      var m := NewMember(freshId, name, NextOrder(members, MemberKey), now);
      if mode == Demo {
        if NoDangling(tasks, members) {
          AddMemberNoDangling(tasks, members, m);
          if WithinCapacity(tasks, members) && freshId != "" && forall k :: 0 <= k < |members| ==> members[k].id != freshId {
            AddMemberKeepsCapacity(tasks, members, m);
          }
        }
        members := Sort([m] + members, MemberKey);
      }
    }

    /** `reorderTasks`. */
    method ReorderTasks(orderedIds: seq<string>)
      requires Valid()
      modifies this
      ensures Valid()
      ensures mode == old(mode) && periods == old(periods) && selectedPeriodId == old(selectedPeriodId)
      ensures members == old(members) && toast == old(toast)
      ensures tasks == if old(mode) == Demo && IsTruthy(old(selectedPeriodId))
        then Reordered(old(tasks), TaskId, TaskKey, SetTaskOrder, orderedIds) else old(tasks)
      ensures WithinCapacity(old(tasks), old(members)) ==> WithinCapacity(tasks, members)
      ensures NoDangling(old(tasks), old(members)) ==> NoDangling(tasks, members)
    {
      if !IsTruthy(selectedPeriodId) {
        return;
      }
      var idToOrder := BuildOrderMap(orderedIds);
      var next := Sort(WithOrders(tasks, TaskId, SetTaskOrder, idToOrder), TaskKey);
      if mode == Demo {
        if WithinCapacity(tasks, members) {
          ReorderTasksKeepsCapacity(tasks, members, orderedIds);
        }
        if NoDangling(tasks, members) {
          ReorderTasksNoDangling(tasks, members, orderedIds);
        }
        tasks := next;
      }
    }

    /** `reorderMembers`. */
    method ReorderMembers(orderedIds: seq<string>)
      requires Valid()
      modifies this
      ensures Valid()
      ensures mode == old(mode) && periods == old(periods) && selectedPeriodId == old(selectedPeriodId)
      ensures tasks == old(tasks) && toast == old(toast)
      ensures members == if old(mode) == Demo && IsTruthy(old(selectedPeriodId))
        then Reordered(old(members), MemberId, MemberKey, SetMemberOrder, orderedIds) else old(members)
      ensures WithinCapacity(old(tasks), old(members)) ==> WithinCapacity(tasks, members)
      ensures NoDangling(old(tasks), old(members)) ==> NoDangling(tasks, members)
    {
      if !IsTruthy(selectedPeriodId) {
        return;
      }
      var idToOrder := BuildOrderMap(orderedIds);
      var next := Sort(WithOrders(members, MemberId, SetMemberOrder, idToOrder), MemberKey);
      if mode == Demo {
        if WithinCapacity(tasks, members) {
          ReorderMembersKeepsCapacity(tasks, members, orderedIds);
        }
        if NoDangling(tasks, members) {
          ReorderMembersNoDangling(tasks, members, orderedIds);
        }
        members := next;
      }
    }

    /** `stats`. */
    method Stats() returns (st: map<string, Stat>)
      ensures st == StatsOf(members, tasks)
    {
      st := ComputeStats(members, tasks);
    }

    /** `periodYearMonths`: the distinct `YYYY-MM` of the periods' start
        dates, newest first. */
    method PeriodYearMonths() returns (r: seq<string>)
      ensures StrictlyDescending(r)
      ensures forall x :: x in r <==> exists k :: 0 <= k < |periods| && YearMonthOf(periods[k]) == x
    {
      r := [];
      var i := 0;
      while i < |periods|
        invariant 0 <= i <= |periods|
        invariant StrictlyDescending(r)
        invariant forall x :: x in r <==> exists k :: 0 <= k < i && YearMonthOf(periods[k]) == x
      {
        InsertDescDescending(YearMonthOf(periods[i]), r);
        r := InsertDesc(YearMonthOf(periods[i]), r);
        i := i + 1;
      }
    }
  }
}
