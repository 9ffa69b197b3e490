/** The list updaters behind the demo-mode branches of the store: the order
    headroom of new records, the records `createTask`, `duplicateTask` and
    `createMember` build, the `{ ...x, ...patch }` updates, and the bulk
    reorder through an id-to-order map. */
module Board {
  import opened Wrappers
  import opened Types
  import opened Text
  import opened SortByOrder
  import opened Lists

  const DEFAULT_TASK_TITLE: string := "새 업무"
  const DEFAULT_MEMBER_NAME: string := "새 구성원"
  /** The gap between consecutive `order` values the store hands out. */
  const ORDER_STEP: int := 100

  function TaskKey(t: Task): SortKey { SortKey(t.order, t.createdAt) }
  function MemberKey(m: Member): SortKey { SortKey(m.order, m.createdAt) }

  /** `Number(x.order) || 0`: a missing order counts as 0. */
  function OrderOrZero(o: Option<int>): int { o.GetOr(0) }

  /** `s.reduce((mx, x) => Math.max(mx, Number(x.order) || 0), 0)`. */
  function MaxOrder<T>(s: seq<T>, key: T -> SortKey): (r: int)
    ensures r >= 0
  {
    if s == [] then 0
    else
      var mx := MaxOrder(s[..|s| - 1], key);
      var v := OrderOrZero(key(s[|s| - 1]).order);
      if mx >= v then mx else v
  }

  /** The maximum bounds every order (a missing one counts as 0) and is
      either 0 or the order of some record. */
  lemma {:induction false} MaxOrderSpec<T>(s: seq<T>, key: T -> SortKey)
    ensures forall i :: 0 <= i < |s| ==> OrderOrZero(key(s[i]).order) <= MaxOrder(s, key)
    ensures var r := MaxOrder(s, key);
      r == 0 || exists i :: 0 <= i < |s| && key(s[i]).order == Some(r)
  {
    if s != [] {
      var init := s[..|s| - 1];
      MaxOrderSpec(init, key);
      assert forall i :: 0 <= i < |init| ==> s[i] == init[i];
    }
  }

  /** The order a new record gets: at least one step above 0. */
  function NextOrder<T>(s: seq<T>, key: T -> SortKey): (r: int)
    ensures r >= ORDER_STEP
  {
    MaxOrder(s, key) + ORDER_STEP
  }

  /** The next order is strictly above every existing order. */
  lemma NextOrderAbove<T>(s: seq<T>, key: T -> SortKey)
    ensures forall i :: 0 <= i < |s| && key(s[i]).order.Some? ==> key(s[i]).order.value < NextOrder(s, key)
  {
    MaxOrderSpec(s, key);
  }

  /** A record given the next order sorts after every existing record that
      has an order of its own. */
  lemma NewSortsAfterOrdered<T>(s: seq<T>, x: T, key: T -> SortKey, p: int, q: int)
    requires key(x).order == Some(NextOrder(s, key))
    requires var r := Sort([x] + s, key);
      && 0 <= p < |r| && 0 <= q < |r| && r[q] == x
      && r[p] in s && key(r[p]).order.Some?
    ensures p < q
  {
    var r := Sort([x] + s, key);
    NextOrderAbove(s, key);
    var k :| 0 <= k < |s| && s[k] == r[p];
    assert Compare(key(r[p]), key(r[q])) < 0;
    SortedPrecedes(r, key, p, q);
  }

  /** The value that `x.trim() || fallback` yields. */
  function TrimOr(s: string, fallback: string): (r: string)
    ensures (forall k :: 0 <= k < |s| ==> IsWhitespace(s[k])) ==> r == fallback
    ensures (exists k :: 0 <= k < |s| && !IsWhitespace(s[k])) ==> r == Trim(s) && r != []
    ensures r == fallback || (r == Trim(s) && r != [])
  {
    TrimEmpty(s);
    var t := Trim(s);
    if t == [] then fallback else t
  }

  /** With a fallback that neither starts nor ends with whitespace, the
      value is never blank at either end. */
  lemma TrimOrEnds(s: string, fallback: string)
    requires fallback != [] && !IsWhitespace(fallback[0]) && !IsWhitespace(fallback[|fallback| - 1])
    ensures var r := TrimOr(s, fallback);
      r != [] && !IsWhitespace(r[0]) && !IsWhitespace(r[|r| - 1])
  {
    var r := TrimOr(s, fallback);
    if r != fallback {
      var t := Trim(s);
      assert r == t && t != [];
      assert !IsWhitespace(t[0]) && !IsWhitespace(t[|t| - 1]);
    }
  }

  /** The task `createTask` builds. */
  function NewTask(id: string, title: string, mins: Num, business: BusinessKey, important: bool,
                   description: string, order: int, now: int): (t: Task)
    ensures t.id == id && t.business == business && t.important == important
    ensures t.title == TrimOr(title, DEFAULT_TASK_TITLE) && t.description == Trim(description)
    ensures t.minutes == Minutes(mins)
    ensures t.title != [] && !IsWhitespace(t.title[0]) && !IsWhitespace(t.title[|t.title| - 1])
    ensures t.description == [] || !IsWhitespace(t.description[0])
    ensures t.minutes >= 0 && (mins.Finite? && mins.value >= 0.0 ==> t.minutes as real - 0.5 <= mins.value < t.minutes as real + 0.5)
    ensures t.assignedTo == None && t.order == Some(order) && t.createdAt == Some(now)
  {
    TrimOrEnds(title, DEFAULT_TASK_TITLE);
    Task(id, TrimOr(title, DEFAULT_TASK_TITLE), Trim(description), Minutes(mins), business, important,
         None, Some(order), Some(now))
  }

  /** The copy `duplicateTask` builds: every field of `src` except the id,
      the order and the creation time, and no assignee. */
  function DuplicateOf(src: Task, id: string, order: int, now: int): (r: Task)
    ensures r.(id := src.id, assignedTo := src.assignedTo, order := src.order, createdAt := src.createdAt) == src
    ensures r.id == id && r.assignedTo == None && r.order == Some(order) && r.createdAt == Some(now)
  {
    src.(id := id, assignedTo := None, order := Some(order), createdAt := Some(now))
  }

  /** A week with no available minutes on any day. */
  const EMPTY_WEEK: Availability := map[Mon := 0, Tue := 0, Wed := 0, Thu := 0, Fri := 0, Sat := 0, Sun := 0]

  /** The member `createMember` builds. */
  function NewMember(id: string, name: string, order: int, now: int): (m: Member)
    ensures m.id == id && m.order == Some(order) && m.createdAt == Some(now)
    ensures m.name == TrimOr(name, DEFAULT_MEMBER_NAME)
    ensures m.name != [] && !IsWhitespace(m.name[0]) && !IsWhitespace(m.name[|m.name| - 1])
    ensures forall k: DayKey :: k in m.availabilityByDay && m.availabilityByDay[k] == 0
    ensures SumAvailabilityMinutes(m) == 0
  {
    TrimOrEnds(name, DEFAULT_MEMBER_NAME);
    var m := Member(id, TrimOr(name, DEFAULT_MEMBER_NAME), EMPTY_WEEK, Some(order), Some(now));
    SumAvailabilityExplicit(m);
    EmptyWeekZero();
    m
  }

  lemma EmptyWeekZero()
    ensures forall k: DayKey :: k in EMPTY_WEEK && EMPTY_WEEK[k] == 0
  {
    forall k: DayKey ensures k in EMPTY_WEEK && EMPTY_WEEK[k] == 0 {
      match k
      case Mon => case Tue => case Wed => case Thu => case Fri => case Sat => case Sun =>
    }
  }

  /** A `Partial<Task>`: `None` is a key the patch does not have. An
      optional field patched to `undefined` is `Some(None)`. */
  datatype TaskPatch = TaskPatch(
    id: Option<string>, title: Option<string>, description: Option<string>, minutes: Option<int>,
    business: Option<BusinessKey>, important: Option<bool>, assignedTo: Option<Option<string>>,
    order: Option<Option<int>>, createdAt: Option<Option<int>>)

  /** A `Partial<Member>`, read as `TaskPatch` is. */
  datatype MemberPatch = MemberPatch(
    id: Option<string>, name: Option<string>, availabilityByDay: Option<Availability>,
    order: Option<Option<int>>, createdAt: Option<Option<int>>)

  const EMPTY_TASK_PATCH := TaskPatch(None, None, None, None, None, None, None, None, None)
  const EMPTY_MEMBER_PATCH := MemberPatch(None, None, None, None, None)

  /** `{ ...t, ...patch }`. */
  function PatchTask(t: Task, p: TaskPatch): (r: Task)
  {
    Task(p.id.GetOr(t.id), p.title.GetOr(t.title), p.description.GetOr(t.description),
         p.minutes.GetOr(t.minutes), p.business.GetOr(t.business), p.important.GetOr(t.important),
         p.assignedTo.GetOr(t.assignedTo), p.order.GetOr(t.order), p.createdAt.GetOr(t.createdAt))
  }

  /** `{ ...m, ...patch }`. */
  function PatchMember(m: Member, p: MemberPatch): (r: Member)
  {
    Member(p.id.GetOr(m.id), p.name.GetOr(m.name), p.availabilityByDay.GetOr(m.availabilityByDay),
           p.order.GetOr(m.order), p.createdAt.GetOr(m.createdAt))
  }

  /** A patch changes exactly the fields it has: with no keys it changes
      nothing, and applying it twice is applying it once. */
  lemma PatchTaskLaws(t: Task, p: TaskPatch)
    ensures PatchTask(t, EMPTY_TASK_PATCH) == t
    ensures PatchTask(PatchTask(t, p), p) == PatchTask(t, p)
    ensures p.title.None? ==> PatchTask(t, p).title == t.title
    ensures p.assignedTo.None? ==> PatchTask(t, p).assignedTo == t.assignedTo
    ensures p.order.None? && p.createdAt.None? ==> TaskKey(PatchTask(t, p)) == TaskKey(t)
  {
  }

  lemma PatchMemberLaws(m: Member, p: MemberPatch)
    ensures PatchMember(m, EMPTY_MEMBER_PATCH) == m
    ensures PatchMember(PatchMember(m, p), p) == PatchMember(m, p)
    ensures p.order.None? && p.createdAt.None? ==> MemberKey(PatchMember(m, p)) == MemberKey(m)
    ensures p.availabilityByDay.None? ==> SumAvailabilityMinutes(PatchMember(m, p)) == SumAvailabilityMinutes(m)
  {
  }

  /** `s.map(x => x.id === id ? f(x) : x)`. */
  function UpdateWhere<T>(s: seq<T>, idOf: T -> string, id: string, f: T -> T): (r: seq<T>)
    ensures |r| == |s|
    ensures forall i :: 0 <= i < |s| ==> r[i] == if idOf(s[i]) == id then f(s[i]) else s[i]
  {
    if s == [] then []
    else [if idOf(s[0]) == id then f(s[0]) else s[0]] + UpdateWhere(s[1..], idOf, id, f)
  }

  /** `tasks.map(t => t.id === taskId ? { ...t, ...patch } : t)`. */
  function PatchedTasks(tasks: seq<Task>, taskId: string, p: TaskPatch): (r: seq<Task>)
    ensures |r| == |tasks|
    ensures forall i :: 0 <= i < |tasks| ==> r[i] == if tasks[i].id == taskId then PatchTask(tasks[i], p) else tasks[i]
  {
    UpdateWhere(tasks, TaskId, taskId, (t: Task) => PatchTask(t, p))
  }

  /** `members.map(m => m.id === memberId ? { ...m, ...patch } : m)`. */
  function PatchedMembers(members: seq<Member>, memberId: string, p: MemberPatch): (r: seq<Member>)
    ensures |r| == |members|
    ensures forall i :: 0 <= i < |members| ==> r[i] == if members[i].id == memberId then PatchMember(members[i], p) else members[i]
  {
    UpdateWhere(members, MemberId, memberId, (m: Member) => PatchMember(m, p))
  }

  /** The patch `{ assignedTo }` of `assignTask`. */
  function AssigneePatch(assignee: Option<string>): TaskPatch {
    EMPTY_TASK_PATCH.(assignedTo := Some(assignee))
  }

  /** The patch `{ name }` of `updateMemberName`. */
  function NamePatch(name: string): MemberPatch {
    EMPTY_MEMBER_PATCH.(name := Some(name))
  }

  /** `orderedIds.forEach((id, idx) => idToOrder.set(id, (idx + 1) * 100))`:
      a later occurrence of an id overwrites an earlier one. */
  function OrderMap(ids: seq<string>): (m: map<string, int>)
    ensures m.Keys == set i | 0 <= i < |ids| :: ids[i]
    ensures forall i :: 0 <= i < |ids| && ids[i] !in ids[i + 1..] ==> m[ids[i]] == (i + 1) * ORDER_STEP
  {
    if ids == [] then map[]
    else
      var prev := OrderMap(ids[..|ids| - 1]);
      OrderMapStep(ids, prev);
      prev[ids[|ids| - 1] := |ids| * ORDER_STEP]
  }

  /** `forEach` one index further: the next id is set to its order. */
  lemma OrderMapSnoc(ids: seq<string>, idx: int)
    requires 0 <= idx < |ids|
    ensures OrderMap(ids[..idx + 1]) == OrderMap(ids[..idx])[ids[idx] := (idx + 1) * ORDER_STEP]
  {
    assert ids[..idx + 1][..idx] == ids[..idx];
  }

  lemma OrderMapStep(ids: seq<string>, prev: map<string, int>)
    requires ids != []
    requires var init := ids[..|ids| - 1];
      && prev.Keys == (set i | 0 <= i < |init| :: init[i])
      && forall i :: 0 <= i < |init| && init[i] !in init[i + 1..] ==> prev[init[i]] == (i + 1) * ORDER_STEP
    ensures var r := prev[ids[|ids| - 1] := |ids| * ORDER_STEP];
      && r.Keys == (set i | 0 <= i < |ids| :: ids[i])
      && forall i :: 0 <= i < |ids| && ids[i] !in ids[i + 1..] ==> r[ids[i]] == (i + 1) * ORDER_STEP
  {
    var init := ids[..|ids| - 1];
    var r := prev[ids[|ids| - 1] := |ids| * ORDER_STEP];
    OrderMapStepKeys(ids, init, prev, r);
    forall i | 0 <= i < |ids| && ids[i] !in ids[i + 1..] ensures r[ids[i]] == (i + 1) * ORDER_STEP {
      if i < |init| {
        LastOccurrenceInInit(ids, i);
        assert init[i] == ids[i];
      }
      OrderMapStepAt(ids, prev, i);
    }
  }

  lemma OrderMapStepKeys(ids: seq<string>, init: seq<string>, prev: map<string, int>, r: map<string, int>)
    requires ids != [] && init == ids[..|ids| - 1]
    requires prev.Keys == (set i | 0 <= i < |init| :: init[i])
    requires r.Keys == prev.Keys + {ids[|ids| - 1]}
    ensures r.Keys == (set i | 0 <= i < |ids| :: ids[i])
  {
    var last := ids[|ids| - 1];
    forall x | x in r.Keys ensures exists i :: 0 <= i < |ids| && ids[i] == x {
      if x != last {
        var i :| 0 <= i < |init| && init[i] == x;
        assert ids[i] == x;
      }
    }
    forall i | 0 <= i < |ids| ensures ids[i] in r.Keys {
      if i < |init| { assert init[i] == ids[i]; }
    }
  }

  lemma OrderMapStepAt(ids: seq<string>, prev: map<string, int>, i: int)
    requires 0 <= i < |ids| && ids[i] !in ids[i + 1..]
    requires i < |ids| - 1 ==> ids[i] in prev && prev[ids[i]] == (i + 1) * ORDER_STEP
    ensures prev[ids[|ids| - 1] := |ids| * ORDER_STEP][ids[i]] == (i + 1) * ORDER_STEP
  {
    if i < |ids| - 1 {
      LastOccurrenceInInit(ids, i);
    }
  }

  /** An id that does not occur after index `i` is not the last id, and
      does not occur after `i` in the list without its last id either. */
  lemma LastOccurrenceInInit(ids: seq<string>, i: int)
    requires 0 <= i < |ids| - 1 && ids[i] !in ids[i + 1..]
    ensures ids[i] != ids[|ids| - 1]
    ensures ids[i] !in ids[..|ids| - 1][i + 1..]
  {
    var later, tail := ids[i + 1..], ids[..|ids| - 1][i + 1..];
    assert later[|ids| - 2 - i] == ids[|ids| - 1];
    forall k | 0 <= k < |tail| ensures tail[k] != ids[i] {
      assert tail[k] == later[k];
    }
  }

  lemma OrderMapHas(ids: seq<string>, id: string)
    ensures id in OrderMap(ids) <==> id in ids
  {
    if id in ids {
      var i :| 0 <= i < |ids| && ids[i] == id;
    }
  }

  /** `x.(order := v)`, for the two record kinds. */
  function SetTaskOrder(t: Task, v: int): Task { t.(order := Some(v)) }
  function SetMemberOrder(m: Member, v: int): Member { m.(order := Some(v)) }

  /** `setOrder` writes the order and touches neither the id nor the
      creation time. */
  ghost predicate OrderSetter<T(!new)>(idOf: T -> string, key: T -> SortKey, setOrder: (T, int) -> T) {
    forall x, v :: idOf(setOrder(x, v)) == idOf(x) && key(setOrder(x, v)) == SortKey(Some(v), key(x).createdAt)
  }

  lemma TaskOrderSetter()
    ensures OrderSetter(TaskId, TaskKey, SetTaskOrder)
  {
  }

  lemma MemberOrderSetter()
    ensures OrderSetter(MemberId, MemberKey, SetMemberOrder)
  {
  }

  /** `s.map(x => idToOrder.has(x.id) ? { ...x, order: idToOrder.get(x.id) } : x)`. */
  function WithOrders<T>(s: seq<T>, idOf: T -> string, setOrder: (T, int) -> T, m: map<string, int>): (r: seq<T>)
    ensures |r| == |s|
    ensures forall i :: 0 <= i < |s| ==> r[i] == if idOf(s[i]) in m then setOrder(s[i], m[idOf(s[i])]) else s[i]
  {
    if s == [] then []
    else
      [if idOf(s[0]) in m then setOrder(s[0], m[idOf(s[0])]) else s[0]] + WithOrders(s[1..], idOf, setOrder, m)
  }

  /** The list `reorderTasks` / `reorderMembers` writes. */
  function Reordered<T>(s: seq<T>, idOf: T -> string, key: T -> SortKey, setOrder: (T, int) -> T,
                        ids: seq<string>): (r: seq<T>)
    ensures |r| == |s| && SortedBy(r, key)
  {
    var w := WithOrders(s, idOf, setOrder, OrderMap(ids));
    var r := Sort(w, key);
    assert |r| == |multiset(r)| == |multiset(w)| == |w|;
    r
  }

  /** The index in the input of the record at `p` of the reordered list. */
  lemma ReorderedSource<T>(s: seq<T>, idOf: T -> string, key: T -> SortKey, setOrder: (T, int) -> T,
                           ids: seq<string>, p: int) returns (q: int)
    requires 0 <= p < |s|
    ensures 0 <= q < |s|
    ensures Reordered(s, idOf, key, setOrder, ids)[p] == WithOrders(s, idOf, setOrder, OrderMap(ids))[q]
  {
    var w := WithOrders(s, idOf, setOrder, OrderMap(ids));
    var r := Reordered(s, idOf, key, setOrder, ids);
    assert r == Sort(w, key);
    assert r[p] in multiset(w);
    q :| 0 <= q < |w| && w[q] == r[p];
  }

  /** Each record of the reordered list is a record of the old list, with
      its order rewritten exactly when its id is listed. */
  lemma ReorderedOrigin<T>(s: seq<T>, idOf: T -> string, key: T -> SortKey, setOrder: (T, int) -> T,
                           ids: seq<string>, p: int)
    requires 0 <= p < |s|
    ensures exists q :: 0 <= q < |s| && var x := Reordered(s, idOf, key, setOrder, ids)[p];
      if idOf(s[q]) in ids then x == setOrder(s[q], OrderMap(ids)[idOf(s[q])]) else x == s[q]
  {
    var q := ReorderedSource(s, idOf, key, setOrder, ids, p);
    OrderMapHas(ids, idOf(s[q]));
  }

  /** The record of the listed id at index `i` gets order `(i + 1) * 100`
      (the last listing of an id is the one that counts). */
  lemma ReorderedListedOrder<T(!new)>(s: seq<T>, idOf: T -> string, key: T -> SortKey, setOrder: (T, int) -> T,
                                ids: seq<string>, i: int, p: int)
    requires OrderSetter(idOf, key, setOrder)
    requires 0 <= i < |ids| && ids[i] !in ids[i + 1..]
    requires 0 <= p < |s| && idOf(Reordered(s, idOf, key, setOrder, ids)[p]) == ids[i]
    ensures key(Reordered(s, idOf, key, setOrder, ids)[p]).order == Some((i + 1) * ORDER_STEP)
  {
    var m := OrderMap(ids);
    var q := ReorderedSource(s, idOf, key, setOrder, ids, p);
    var x := Reordered(s, idOf, key, setOrder, ids)[p];
    OrderMapHas(ids, ids[i]);
    WithOrderAt(idOf, key, setOrder, s[q], m);
    assert m[ids[i]] == (i + 1) * ORDER_STEP;
  }

  /** What `WithOrders` does to one record: the id stays, and a listed
      record gets the mapped order. */
  lemma WithOrderAt<T(!new)>(idOf: T -> string, key: T -> SortKey, setOrder: (T, int) -> T,
                             y: T, m: map<string, int>)
    requires OrderSetter(idOf, key, setOrder)
    ensures var x := if idOf(y) in m then setOrder(y, m[idOf(y)]) else y;
      idOf(x) == idOf(y) && (idOf(y) in m ==> key(x).order == Some(m[idOf(y)]))
  {
    if idOf(y) in m {
      var v := m[idOf(y)];
      assert idOf(setOrder(y, v)) == idOf(y) && key(setOrder(y, v)).order == Some(v);
    }
  }

  /** A record whose id is not listed comes through unchanged. */
  lemma ReorderedUnlisted<T(!new)>(s: seq<T>, idOf: T -> string, key: T -> SortKey, setOrder: (T, int) -> T,
                             ids: seq<string>, p: int)
    requires OrderSetter(idOf, key, setOrder)
    requires 0 <= p < |s| && idOf(Reordered(s, idOf, key, setOrder, ids)[p]) !in ids
    ensures Reordered(s, idOf, key, setOrder, ids)[p] in s
  {
    var m := OrderMap(ids);
    var q := ReorderedSource(s, idOf, key, setOrder, ids, p);
    var x := Reordered(s, idOf, key, setOrder, ids)[p];
    OrderMapHas(ids, idOf(x));
    WithOrderAt(idOf, key, setOrder, s[q], m);
  }

  /** Records of listed ids come out in the listed order. */
  lemma ReorderedFollowsIds<T(!new)>(s: seq<T>, idOf: T -> string, key: T -> SortKey, setOrder: (T, int) -> T,
                               ids: seq<string>, i: int, j: int, p: int, q: int)
    requires OrderSetter(idOf, key, setOrder)
    requires 0 <= i < j < |ids| && ids[i] !in ids[i + 1..] && ids[j] !in ids[j + 1..]
    requires 0 <= p < |s| && idOf(Reordered(s, idOf, key, setOrder, ids)[p]) == ids[i]
    requires 0 <= q < |s| && idOf(Reordered(s, idOf, key, setOrder, ids)[q]) == ids[j]
    ensures p < q
  {
    var r := Reordered(s, idOf, key, setOrder, ids);
    ReorderedListedOrder(s, idOf, key, setOrder, ids, i, p);
    ReorderedListedOrder(s, idOf, key, setOrder, ids, j, q);
    assert Compare(key(r[p]), key(r[q])) < 0;
    SortedPrecedes(r, key, p, q);
  }

  /** Reordering permutes the records: the ids are the same, with the
      same multiplicities. */
  lemma ReorderedPermutesIds<T(!new)>(s: seq<T>, idOf: T -> string, key: T -> SortKey, setOrder: (T, int) -> T,
                                ids: seq<string>)
    requires OrderSetter(idOf, key, setOrder)
    ensures multiset(MapSeq(Reordered(s, idOf, key, setOrder, ids), idOf)) == multiset(MapSeq(s, idOf))
  {
    var w := WithOrders(s, idOf, setOrder, OrderMap(ids));
    SortPermutesProjection(w, key, idOf);
    WithOrdersKeepsIds(s, idOf, key, setOrder, OrderMap(ids));
  }

  lemma WithOrdersKeepsIds<T(!new)>(s: seq<T>, idOf: T -> string, key: T -> SortKey, setOrder: (T, int) -> T,
                                    m: map<string, int>)
    requires OrderSetter(idOf, key, setOrder)
    ensures MapSeq(WithOrders(s, idOf, setOrder, m), idOf) == MapSeq(s, idOf)
  {
    var w := WithOrders(s, idOf, setOrder, m);
    forall i | 0 <= i < |s| ensures idOf(w[i]) == idOf(s[i]) {
      WithOrderAt(idOf, key, setOrder, s[i], m);
    }
  }
}
