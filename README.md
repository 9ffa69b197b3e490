# Workspace board store, modelled in Dafny

This project models the core of a weekly task-allocation board. A workspace
has periods, each one a week. A period has members, each with a number of
available minutes per weekday, and tasks, each with a duration in minutes,
a business, and at most one assignee. The store (`useWorkspaceStore`) holds:

- `periods`;
- `selectedPeriodId`;
- `members`;
- `tasks`.

It derives two views: per-member capacity `stats`, and the list of
year-months of the periods.

Each operation has a demo branch and a live branch. The demo branch rewrites
the local lists directly. The live branch only posts a request to the server.

The two list views compute a new id order from a drag and drop:

- the unassigned-task list, which also appends the ids of the tasks it does
  not show;
- the member grid.

## Modules

- `Wrappers` (`wrappers.dfy`): `Option`.
- `Types` (`types.dfy`): the records of `src/types.ts`; JavaScript
  truthiness of optional ids; `sumAvailabilityMinutes`; `minutes`.
  - `Num` stands for a JavaScript number: finite, NaN, or ±Infinity.
- `Text` (`text.dfy`): `String.prototype.trim` (the ECMAScript white-space
  and line-terminator set), `slice(0, n)`, and the lexicographic string
  order.
- `SortByOrder` (`sort_by_order.dfy`): the comparator `sortByOrder`.
  `Array.prototype.sort` with this comparator is modelled as a stable
  insertion sort, since ECMAScript requires `sort` to be stable.
- `Lists` (`lists.dfy`): `find` and `filter` by id, and the one notion of
  distinct ids (`DistinctIds` for records, `Distinct` for id lists).
- `Periods` (`periods.dfy`): `periodId`, `formatLabel`, the Monday and
  Sunday offsets, the period upsert, and `startDate.slice(0, 7)`.
- `Board` (`board.dfy`): the demo updaters.
  - The order headroom of new records.
  - The records built by `createTask`, `duplicateTask` and `createMember`.
  - `{ ...x, ...patch }` updates.
  - The id-to-order map and the bulk reorder.
- `Capacity` (`capacity.dfy`): `taskAssignedMinutes`, the `stats` map, the
  capacity check, the member-deletion cascade, and the capacity and
  no-dangling-reference invariants.
- `WorkspaceStore` (`workspace_store.dfy`): class `Store`, with the fields
  of `StoreState` plus the toast, and one method per operation.
  - The `stats` loop is the method `ComputeStats`.
  - The `forEach` that fills `idToOrder` is the method `BuildOrderMap`.
  - `Store.Valid()` says that both entity lists are sorted by
    `sortByOrder`. Every method keeps it.
- `Splice`, `TaskList`, `MemberGrid` (`splice.dfy`, `task_list.dfy`,
  `member_grid.dfy`): the drop handlers.
  - Both handlers share the same guard and the same two `splice` calls.
    These are written once, as `Splice.DropMove` and `Splice.MoveId`.

## Naming and representation

- `label` (a period's label) and `assigned` (a stat) are Dafny keywords, so
  these fields are named `labelText` and `assignedMinutes`.
- `order` and `createdAt` of tasks and members are `Option<int>`. `None`
  stands for a missing or non-numeric value.
- Durations and availabilities are whole numbers, so the `|| 0` fallbacks
  on them are the identity.
- `Date.now()` and the random ids (`Math.random`) are the parameters `now`
  and `freshId`.
- Whether a live request succeeded is the parameter `requestOk`. Only
  `createPeriod` changes local state after its request.
- `toYmd` and `mondayOfWeek` need a calendar. `Store.Open` takes the default
  period's start and end dates as parameters.
- `mondayOfWeek`'s day arithmetic is `Periods.MondayOffset`.

## Model

| member | source | states |
|---|---|---|
| Types.DayKeysComplete | src/types.ts:1-3 | `DAY_KEYS` lists all seven day keys, each exactly once |
| Types.SumAvailabilityMinutes | src/types.ts:49-51 | `sumAvailabilityMinutes`, the sum over `DAY_KEYS`; its laws are the four `SumAvailability*` lemmas below |
| Types.SumAvailabilityExplicit | src/types.ts:49-51 | `sumAvailabilityMinutes` is exactly the sum of the seven day entries (a missing entry counts 0) |
| Types.SumAvailabilityNonNegative | src/types.ts:49-51 | when no day is negative, the total is not negative |
| Types.SumAvailabilitySplit | src/types.ts:49-51 | the total is one day's value plus the total of the other six days |
| Types.SumAvailabilityUpdate | src/types.ts:49-51 | setting one day to `v` changes the total by exactly `v` minus the old value |
| Types.OtherDays | src/types.ts:3 | six day keys, none of them the given one |
| Types.Minutes | src/types.ts:53-57 | the result is never negative; NaN, ±Infinity and negative input give 0; otherwise the result is the input rounded to the nearest integer, halves up |
| Types.MinutesIdentity | src/types.ts:53-57 | `minutes` is the identity on non-negative whole numbers |
| Types.MinutesIdempotent | src/types.ts:53-57 | `minutes(minutes(n)) == minutes(n)` |
| Text.TrimStart | src/lib/workspaceStore.ts:291 | result is no longer than the input and does not start with white space |
| Text.TrimStartSpec | src/lib/workspaceStore.ts:291 | the result is a suffix of the input and only white space was removed |
| Text.TrimEnd | src/lib/workspaceStore.ts:291 | result is no longer than the input and does not end with white space |
| Text.TrimEndSpec | src/lib/workspaceStore.ts:291 | the result is a prefix of the input and only white space was removed |
| Text.Trim | src/lib/workspaceStore.ts:291 | result is no longer than the input and neither of its ends is white space |
| Text.TrimSlice | src/lib/workspaceStore.ts:291 | the trimmed text is a slice of the input and only white space was cut on either side |
| Text.TrimEmpty | src/lib/workspaceStore.ts:291-292 | trimming gives the empty string exactly when the input is all white space |
| Text.TrimIdempotent | src/lib/workspaceStore.ts:291 | trimming twice is trimming once |
| Text.SliceTo | src/lib/workspaceStore.ts:466 | `slice(0, n)` is the prefix of length `min(n, length)` |
| Text.LexLessIrreflexive | src/lib/workspaceStore.ts:467 | the string order is irreflexive |
| Text.LexLessTransitive | src/lib/workspaceStore.ts:467 | the string order is transitive |
| Text.LexLessTotal | src/lib/workspaceStore.ts:467 | any two distinct strings are ordered one way or the other |
| Text.LexLessAsymmetric | src/lib/workspaceStore.ts:467 | the string order is asymmetric |
| SortByOrder.Compare | src/lib/workspaceStore.ts:40-47 | negative exactly when the effective order is smaller, or equal with a smaller effective `createdAt`; zero exactly when both are equal (missing order is 999999, missing `createdAt` is 0) |
| SortByOrder.CompareAntisymmetric | src/lib/workspaceStore.ts:40-47 | swapping the arguments negates the result |
| SortByOrder.CompareTransitive | src/lib/workspaceStore.ts:40-47 | the comparator is transitive, so it is a total preorder |
| SortByOrder.MissingOrderSortsLast | src/lib/workspaceStore.ts:41-43 | a record without an order sorts after any record whose order is below 999999 |
| SortByOrder.Insert | src/lib/workspaceStore.ts:124-125 | insertion adds exactly the one element |
| SortByOrder.InsertSorted | src/lib/workspaceStore.ts:124-125 | insertion keeps a sorted list sorted |
| SortByOrder.Sort | src/lib/workspaceStore.ts:124-125 | `.sort(sortByOrder)` yields a sorted permutation of its input |
| SortByOrder.TiedInsert | src/lib/workspaceStore.ts:124-125 | insertion puts the element after every element that ties with it |
| SortByOrder.SortStable | src/lib/workspaceStore.ts:124-125 | the sort is stable: elements that compare equal keep their relative order |
| SortByOrder.SortedPrecedes | src/lib/workspaceStore.ts:40-47 | in a sorted list, an element that compares strictly smaller comes first |
| SortByOrder.SortedSameKeys | src/lib/workspaceStore.ts:264 | a pointwise change that keeps every sort key keeps the list sorted |
| SortByOrder.SortPermutesProjection | src/lib/workspaceStore.ts:431-433 | sorting permutes any projection of the records, for example their ids |
| Lists.FindById | src/lib/workspaceStore.ts:243 | `find` by id returns nothing exactly when no element has the id, and otherwise the first element with it |
| Lists.FindByIdUnique | src/lib/workspaceStore.ts:243 | with distinct ids, `find` returns the one element with that id |
| Lists.WithoutId | src/lib/workspaceStore.ts:341 | `filter(x => x.id !== id)` keeps exactly the elements with another id (its order and multiplicity are `WithoutIdAppend`) |
| Lists.WithoutIdAppend | src/lib/workspaceStore.ts:341 | the filter distributes over concatenation, so the kept elements keep their order and their multiplicity |
| Lists.WithoutIdAbsent | src/lib/workspaceStore.ts:341 | filtering out an id nobody has changes nothing |
| Lists.WithoutIdIdempotent | src/lib/workspaceStore.ts:341 | filtering out the same id twice is filtering it out once |
| Lists.WithoutIdSorted | src/lib/workspaceStore.ts:312 | filtering keeps a sorted list sorted |
| Lists.WithoutIdDistinct | src/lib/workspaceStore.ts:312 | filtering keeps ids distinct |
| Lists.DistinctIdsTail | src/lib/workspaceStore.ts:243 | the tail of a list with distinct ids has distinct ids, none of them the head's |
| Periods.PeriodIdAt | src/lib/workspaceStore.ts:22-24 | the characters of `start__end`, position by position |
| Periods.PeriodIdInjective | src/lib/workspaceStore.ts:22-24 | for start dates without `_`, `periodId` determines both dates |
| Periods.FormatLabel | src/lib/workspaceStore.ts:19-21 | `formatLabel`; its laws are `FormatLabelParts` and `FormatLabelInjective` |
| Periods.FormatLabelParts | src/lib/workspaceStore.ts:19-21 | the label is the start date, then `" ~ "`, then the end date, and nothing else |
| Periods.FormatLabelInjective | src/lib/workspaceStore.ts:19-21 | for start dates without a space, the label determines both dates |
| Periods.PeriodId | src/lib/workspaceStore.ts:22-24 | `periodId`; its laws are `PeriodIdAt` and `PeriodIdInjective` |
| Periods.MakePeriod | src/lib/workspaceStore.ts:224-228 | the period record of `createPeriod`; its law is `MakePeriodIds` |
| Periods.MakePeriodIds | src/lib/workspaceStore.ts:224-228 | the same range gives the same id and label at any time; for start dates without `_`, different ranges give different ids |
| Periods.EndBeforeStart | src/lib/workspaceStore.ts:217-222 | the date check of `createPeriod`; its law is `EndBeforeStartOrder` |
| Periods.EndBeforeStartOrder | src/lib/workspaceStore.ts:217-222 | a one-day range passes the date check, and of a range and its reverse at most one is refused |
| Periods.MondayOffset | src/lib/workspaceStore.ts:25-27 | the offset is between -6 and 0 and lands on a Monday (day 1) |
| Periods.MondayOffsetUnique | src/lib/workspaceStore.ts:25-27 | it is the only such offset |
| Periods.SundayOffset | src/lib/workspaceStore.ts:33-38 | the offset is between 0 and 6 and lands on a Sunday (day 0) |
| Periods.UpsertPeriod | src/lib/workspaceStore.ts:228-230 | the new period comes first, no other entry has its id, and the other periods keep their entries |
| Periods.UpsertPeriodIdempotent | src/lib/workspaceStore.ts:228-230 | creating the same range again only replaces the record |
| Periods.YearMonthOf | src/lib/workspaceStore.ts:466 | the year-month is the prefix of the start date of length seven, or the whole start date when it is shorter |
| Board.MaxOrder | src/lib/workspaceStore.ts:353 | the `reduce` is at least 0 |
| Board.MaxOrderSpec | src/lib/workspaceStore.ts:353 | the `reduce` is at least every present order, and is 0 or some record's order |
| Board.NextOrder | src/lib/workspaceStore.ts:353-362 | a new order is at least 100 |
| Board.NextOrderAbove | src/lib/workspaceStore.ts:353-362 | a new order is strictly above every existing order |
| Board.NewSortsAfterOrdered | src/lib/workspaceStore.ts:362-367 | after the sort, a newly created record comes after every record that has an order |
| Board.TrimOr | src/lib/workspaceStore.ts:357 | `s.trim() \|\| fallback` is the fallback for blank input and the non-empty trimmed text otherwise |
| Board.TrimOrEnds | src/lib/workspaceStore.ts:357 | with a fallback that is non-empty and not padded, the result is non-empty and not padded either |
| Board.NewTask | src/lib/workspaceStore.ts:355-364 | the title is `title.trim()` or the placeholder when that is blank (so never blank or padded), the description is `description.trim()`, the duration is `minutes(mins)` (0 for NaN, infinite or negative input), no assignee, the given order and the creation time |
| Board.DuplicateOf | src/lib/workspaceStore.ts:384-391 | the copy equals the source except for id, order and creation time, and it has no assignee |
| Board.NewMember | src/lib/workspaceStore.ts:408-414 | the name is `name.trim()` or the placeholder when that is blank (so never blank or padded), zero minutes on every day (total 0), the given order and the creation time |
| Board.PatchTaskLaws | src/lib/workspaceStore.ts:328 | `{ ...t, ...patch }`: an empty patch changes nothing, a patch is idempotent, and fields the patch lacks are kept |
| Board.PatchMemberLaws | src/lib/workspaceStore.ts:279 | the same laws for members; a patch without availability keeps the member's total |
| Board.PatchTask | src/lib/workspaceStore.ts:328 | `{ ...t, ...patch }` on tasks; its laws are `PatchTaskLaws` |
| Board.PatchMember | src/lib/workspaceStore.ts:279 | `{ ...m, ...patch }` on members; its laws are `PatchMemberLaws` |
| Board.UpdateWhere | src/lib/workspaceStore.ts:279 | `map` by id changes exactly the elements with that id |
| Board.PatchedTasks | src/lib/workspaceStore.ts:328 | only the tasks with the id are patched |
| Board.PatchedMembers | src/lib/workspaceStore.ts:279 | only the members with the id are patched |
| Board.OrderMap | src/lib/workspaceStore.ts:428-429 | the map's keys are the listed ids, and an id listed last at index `i` maps to `(i + 1) * 100` |
| Board.OrderMapSnoc | src/lib/workspaceStore.ts:429 | one more `forEach` step sets the next id to `(idx + 1) * 100` |
| Board.OrderMapHas | src/lib/workspaceStore.ts:432 | `idToOrder.has(id)` exactly when the id is listed |
| Board.TaskOrderSetter | src/lib/workspaceStore.ts:432 | `{ ...t, order }` changes only the order of the sort key, and not the id |
| Board.MemberOrderSetter | src/lib/workspaceStore.ts:452 | the same for members |
| Board.WithOrders | src/lib/workspaceStore.ts:431-432 | a record gets the mapped order when its id is in the map, and is unchanged otherwise |
| Board.Reordered | src/lib/workspaceStore.ts:431-433 | the reordered list has the same length and is sorted |
| Board.ReorderedOrigin | src/lib/workspaceStore.ts:431-433 | every output record is an input record, with its order rewritten exactly when its id is listed |
| Board.ReorderedListedOrder | src/lib/workspaceStore.ts:428-433 | the record of the id at index `i` of `orderedIds` has order `(i + 1) * 100` |
| Board.ReorderedUnlisted | src/lib/workspaceStore.ts:432 | a record whose id is not listed comes through unchanged |
| Board.ReorderedFollowsIds | src/lib/workspaceStore.ts:428-433 | records of listed ids come out in the listed order |
| Board.ReorderedPermutesIds | src/lib/workspaceStore.ts:431-433 | the reordered list is a permutation of the old one (same ids, same multiplicities) |
| Capacity.AssignedTasks | src/lib/workspaceStore.ts:50-51 | the filter keeps only tasks of the input that are assigned to the member |
| Capacity.AssignedTasksComplete | src/lib/workspaceStore.ts:50-51 | every task assigned to the member is kept |
| Capacity.AssignedTasksAppend | src/lib/workspaceStore.ts:50-51 | the filter distributes over concatenation, so task-list order is kept |
| Capacity.TaskAssignedMinutes | src/lib/workspaceStore.ts:49-53 | `taskAssignedMinutes`; its laws are `AssignedMinutesCons` and the `AssignedMinutes*` lemmas below |
| Capacity.AssignedMinutesCons | src/lib/workspaceStore.ts:49-53 | a task adds its minutes to its assignee's total and nothing to anyone else's |
| Capacity.AssignedMinutesNonNegative | src/lib/workspaceStore.ts:49-53 | with no negative durations, assigned minutes are not negative |
| Capacity.StatOf | src/lib/workspaceStore.ts:200-203 | one member's entry of `stats`; `StatsOfSpec` states its fields |
| Capacity.StatsOf | src/lib/workspaceStore.ts:197-206 | the `stats` map; its laws are `StatsOfSpec` and `StatsOfDistinct` |
| Capacity.StatsOfSpec | src/lib/workspaceStore.ts:197-206 | one entry per member id; the entry of the last member with an id holds its assigned minutes, its availability, their difference, and `over` exactly when that difference is negative |
| Capacity.StatsOfDistinct | src/lib/workspaceStore.ts:197-206 | with distinct ids, every member's entry is its own figures |
| Capacity.CapacityIffNoneOver | src/lib/workspaceStore.ts:197-206 | with distinct ids, every member is within capacity exactly when no entry is `over` |
| Capacity.CapacityExceeded | src/lib/workspaceStore.ts:252-255 | the capacity check of `assignTask`; its laws are `CapacityExceededAbsent` and `CapacityExceededRemaining` |
| Capacity.CapacityExceededAbsent | src/lib/workspaceStore.ts:252-255 | a member without an entry (`?? 0` on both sides) is refused exactly a positive duration |
| Capacity.CapacityExceededRemaining | src/lib/workspaceStore.ts:252-255 | with distinct member ids, the capacity check refuses exactly a duration above the member's `remaining` |
| Capacity.WithAssignee | src/lib/workspaceStore.ts:262-265 | exactly the tasks with the id get the new assignee |
| Capacity.AssignedMinutesAfterAssign | src/lib/workspaceStore.ts:262-265 | with distinct task ids, an assignment moves exactly the task's minutes from the old assignee to the new one |
| Capacity.AssignedMinutesAfterUnassign | src/lib/workspaceStore.ts:262-265 | re-pointing tasks away from a member never adds to that member's minutes |
| Capacity.AssignKeepsMember | src/lib/workspaceStore.ts:252-258 | one member's share of `AssignKeepsCapacity` |
| Capacity.AssignKeepsCapacity | src/lib/workspaceStore.ts:248-265 | an assignment that passes the check (`assigned + minutes <= available`) keeps every member within capacity |
| Capacity.UnassignKeepsCapacity | src/lib/workspaceStore.ts:262-265 | unassigning keeps every member within capacity |
| Capacity.CapacityCheckTight | src/lib/workspaceStore.ts:252-258 | for a task the member does not already hold, the check rejects only assignments that would overflow the member, so equality is allowed; a task the member holds is counted twice (see `ReassignToHolderRejected`) |
| Capacity.ClearAssignee | src/lib/workspaceStore.ts:313 | no task is left assigned to the deleted member; exactly those tasks lose their assignee |
| Capacity.DeleteMemberNoDangling | src/lib/workspaceStore.ts:309-315 | the cascade leaves no task pointing at a missing member |
| Capacity.ClearedMinutes | src/lib/workspaceStore.ts:313 | the cascade changes no other member's assigned minutes |
| Capacity.DeleteMemberKeepsCapacity | src/lib/workspaceStore.ts:309-315 | deleting a member keeps the rest within capacity |
| Capacity.AssignNoDangling | src/lib/workspaceStore.ts:248-265 | assigning to nobody or to an existing member creates no dangling reference |
| Capacity.AssigneesNoDangling | src/lib/workspaceStore.ts:341 | a task list that assigns no one the old list did not keeps the no-dangling invariant |
| Capacity.SubsetTasksNoDangling | src/lib/workspaceStore.ts:341 | a task list made of old tasks keeps the no-dangling invariant |
| Capacity.SupersetMembersNoDangling | src/lib/workspaceStore.ts:417 | a member list that keeps every old member id keeps the no-dangling invariant |
| Capacity.SortTasksNoDangling | src/lib/workspaceStore.ts:328 | sorting tasks keeps the no-dangling invariant |
| Capacity.SortMembersNoDangling | src/lib/workspaceStore.ts:297 | sorting members keeps the no-dangling invariant |
| Capacity.AddUnassignedNoDangling | src/lib/workspaceStore.ts:367 | adding an unassigned task keeps the no-dangling invariant |
| Capacity.DeleteTaskNoDangling | src/lib/workspaceStore.ts:341 | `deleteTask` keeps the no-dangling invariant |
| Capacity.ReorderTasksNoDangling | src/lib/workspaceStore.ts:431-436 | `reorderTasks` keeps the no-dangling invariant |
| Capacity.ReorderMembersNoDangling | src/lib/workspaceStore.ts:451-456 | `reorderMembers` keeps the no-dangling invariant |
| Capacity.ReorderMembersKeepsCapacity | src/lib/workspaceStore.ts:451-456 | `reorderMembers` keeps the capacity invariant |
| Capacity.RenameNoDangling | src/lib/workspaceStore.ts:294-298 | `updateMemberName` keeps the no-dangling invariant |
| Capacity.AddMemberNoDangling | src/lib/workspaceStore.ts:416-418 | `createMember` keeps the no-dangling invariant |
| Capacity.AssignedMinutesNone | src/lib/workspaceStore.ts:49-53 | an id that no task is assigned to has no assigned minutes |
| Capacity.FreshIdUnassigned | src/lib/workspaceStore.ts:408-409 | with no dangling assignee, no task is assigned to a non-empty id that no member has |
| Capacity.AddMemberKeepsCapacity | src/lib/workspaceStore.ts:416-418 | adding a member with a new, non-empty id and a non-negative total keeps every member within capacity |
| Capacity.AssignedMinutesInsert | src/lib/workspaceStore.ts:367 | inserting a task adds exactly its contribution |
| Capacity.AssignedMinutesSort | src/lib/workspaceStore.ts:328 | sorting tasks changes no member's assigned minutes |
| Capacity.SortTasksKeepsCapacity | src/lib/workspaceStore.ts:328 | sorting tasks keeps the capacity invariant |
| Capacity.SortMembersKeepsCapacity | src/lib/workspaceStore.ts:297 | sorting members keeps the capacity invariant |
| Capacity.AssignedMinutesWithOrders | src/lib/workspaceStore.ts:431-432 | rewriting orders moves no minutes |
| Capacity.ReorderTasksKeepsCapacity | src/lib/workspaceStore.ts:431-436 | `reorderTasks` keeps the capacity invariant |
| Capacity.AddUnassignedKeepsCapacity | src/lib/workspaceStore.ts:367 | adding an unassigned task keeps the capacity invariant |
| Capacity.AssignedMinutesWithoutId | src/lib/workspaceStore.ts:341 | removing a task never adds to anyone's minutes |
| Capacity.DeleteTaskKeepsCapacity | src/lib/workspaceStore.ts:340-342 | `deleteTask` keeps the capacity invariant |
| Capacity.RenameKeepsCapacity | src/lib/workspaceStore.ts:294-298 | `updateMemberName` keeps the capacity invariant |
| WorkspaceStore.ComputeStats | src/lib/workspaceStore.ts:197-206 | the loop builds exactly `StatsOf(members, tasks)` |
| WorkspaceStore.BuildOrderMap | src/lib/workspaceStore.ts:428-429 | the `forEach` builds exactly `OrderMap(orderedIds)` |
| WorkspaceStore.CheckAssign | src/lib/workspaceStore.ts:243-259 | the guards accept exactly when the task exists, a period is selected, and a truthy member id names a member with room; they reject with that member's name exactly when the capacity check fails |
| WorkspaceStore.AssignAccepted | src/lib/workspaceStore.ts:242-259 | the guards of `assignTask` let the assignment through; its laws are `CheckAssign` and the `AssignAccepted*` lemmas |
| WorkspaceStore.AssignRejected | src/lib/workspaceStore.ts:252-257 | the capacity guard refuses the assignment; its laws are `CheckAssign`, `AssignRejectedWouldOverflow` and `ReassignToHolderRejected` |
| WorkspaceStore.AssignAcceptedKeepsCapacity | src/lib/workspaceStore.ts:242-266 | an accepted assignment keeps every member within capacity |
| WorkspaceStore.AssignAcceptedNoDangling | src/lib/workspaceStore.ts:242-266 | an accepted assignment creates no dangling assignee |
| WorkspaceStore.AssignRejectedWouldOverflow | src/lib/workspaceStore.ts:252-258 | a rejected assignment of a task the member does not already hold would have overflowed the member |
| WorkspaceStore.ReassignToHolderRejected | src/lib/workspaceStore.ts:252-255 | re-assigning a 100-minute task to the member holding it, with 150 minutes available, is refused although it changes nothing and the member is within capacity: the held task's minutes are counted twice |
| WorkspaceStore.BatchedAssignsOverflow | src/lib/workspaceStore.ts:242-265 | two assignments that each pass the guards against the same board (two 100-minute tasks, one member with 150 minutes) together leave the member over capacity |
| WorkspaceStore.AssignPreserves | src/lib/workspaceStore.ts:242-266 | both invariants, and the sort order of the task list, hold across an accepted assignment |
| WorkspaceStore.InsertDesc | src/lib/workspaceStore.ts:465-467 | adding a year-month gives the old elements plus the new one, without duplicates |
| WorkspaceStore.InsertDescDescending | src/lib/workspaceStore.ts:467 | the list stays strictly descending |
| WorkspaceStore.Store.constructor | src/lib/workspaceStore.ts:64-70 | the initial state: demo mode, no periods, nothing selected, empty lists |
| WorkspaceStore.Store.Open | src/lib/workspaceStore.ts:107-130 | with no workspace id, nothing changes; without a database, the demo board of the default week with both lists sorted; with one, live mode |
| WorkspaceStore.Store.SelectedPeriod | src/lib/workspaceStore.ts:192-195 | the selected period is the one whose id is selected; there is none when no id is selected or no period has that id |
| WorkspaceStore.Store.SelectPeriod | src/lib/workspaceStore.ts:208-210 | only the selection changes |
| WorkspaceStore.Store.CreatePeriod | src/lib/workspaceStore.ts:212-240 | see below |
| WorkspaceStore.Store.AssignTask | src/lib/workspaceStore.ts:242-270 | see below |
| WorkspaceStore.Store.UpdateMemberAvailability | src/lib/workspaceStore.ts:272-285 | in demo mode with a selected period, the members become the sorted, patched list; nothing else changes |
| WorkspaceStore.Store.UpdateMemberName | src/lib/workspaceStore.ts:287-303 | a blank name or no selected period changes nothing; otherwise the trimmed name is patched in and the list sorted; capacity and the no-dangling invariant are kept |
| WorkspaceStore.Store.DeleteMember | src/lib/workspaceStore.ts:305-319 | removes the member and clears exactly its assignments; keeps capacity and the no-dangling invariant |
| WorkspaceStore.Store.UpdateTask | src/lib/workspaceStore.ts:321-334 | the tasks become the sorted, patched list |
| WorkspaceStore.Store.DeleteTask | src/lib/workspaceStore.ts:336-346 | the tasks lose exactly the tasks with that id; capacity and the no-dangling invariant are kept |
| WorkspaceStore.Store.CreateTask | src/lib/workspaceStore.ts:348-372 | the new task, with order above every existing one, joins the sorted list; capacity and the no-dangling invariant are kept |
| WorkspaceStore.Store.DuplicateTask | src/lib/workspaceStore.ts:374-399 | an unknown task changes nothing; otherwise the copy joins the sorted list; capacity and the no-dangling invariant are kept |
| WorkspaceStore.Store.CreateMember | src/lib/workspaceStore.ts:401-422 | the new member joins the sorted list; the no-dangling invariant is kept, and so is capacity when the fresh id is new and not empty |
| WorkspaceStore.Store.ReorderTasks | src/lib/workspaceStore.ts:424-442 | the tasks become `Reordered(...)`, whose properties are the `Board.Reordered*` lemmas; capacity and the no-dangling invariant are kept |
| WorkspaceStore.Store.ReorderMembers | src/lib/workspaceStore.ts:444-462 | the members become `Reordered(...)`; capacity and the no-dangling invariant are kept |
| WorkspaceStore.Store.Stats | src/lib/workspaceStore.ts:197-206 | `stats` is `StatsOf(members, tasks)` |
| WorkspaceStore.Store.PeriodYearMonths | src/lib/workspaceStore.ts:464-468 | strictly descending, and holding exactly the year-months of the periods' start dates |
| Splice.IndexOf | src/components/MemberGrid.tsx:67-68 | `indexOf` is -1 exactly when the id is absent, and otherwise the first index of it |
| Splice.RemoveAt | src/components/MemberGrid.tsx:72 | `splice(i, 1)` drops exactly the element at `i` |
| Splice.MoveId | src/components/MemberGrid.tsx:71-73 | same length and same ids; the dragged id sits at `toIdx`; removing it gives the old list minus the dragged id, so the other ids keep their relative order |
| Splice.DropMove | src/components/MemberGrid.tsx:62-73 | no result exactly when there is no truthy dragged id, the drop is onto the dragged item itself, or either id is missing; otherwise the move above |
| Splice.MoveBack | src/components/MemberGrid.tsx:71-73 | the original list is recovered by moving the id back |
| TaskList.Unassigned | src/components/TaskList.tsx:51-54 | exactly the tasks with no truthy assignee and the selected business |
| TaskList.UnassignedAppend | src/components/TaskList.tsx:51-54 | the filter distributes over concatenation, so input order is kept |
| TaskList.UnassignedIdempotent | src/components/TaskList.tsx:51-54 | filtering twice is filtering once |
| TaskList.OtherIds | src/components/TaskList.tsx:60-61 | exactly the task ids not among the visible ids |
| TaskList.OtherIdsAppend | src/components/TaskList.tsx:60-61 | the filter distributes over concatenation, so the hidden ids come in task-list order |
| TaskList.OtherIdsDistinct | src/components/TaskList.tsx:60-61 | with distinct task ids, these ids are distinct |
| TaskList.CommitReorder | src/components/TaskList.tsx:59-63 | the new visible order comes first, and every task id appears (the tail is `OtherIds`, whose task-list order `OtherIdsAppend` states) |
| TaskList.CommitReorderOnce | src/components/TaskList.tsx:59-63 | with distinct ids, every task id appears exactly once, and nothing else appears |
| TaskList.OnDrop | src/components/TaskList.tsx:152-167 | the guards of `DropMove` on the unassigned ids; otherwise the moved ids followed by all other task ids |
| MemberGrid.OnDrop | src/components/MemberGrid.tsx:61-75 | no result exactly in the guard cases; otherwise a permutation of the member ids with the dragged id at the target's index and the others in order |
| MemberGrid.DropSendsEachMemberOnce | src/components/MemberGrid.tsx:71-74 | with distinct member ids, the sent order holds each member id exactly once |

`Store.CreatePeriod` has four outcomes:

- An empty date changes nothing.
- An end before the start changes only the toast, to the error message.
- In demo mode, the periods become the upsert, the new period is selected
  (`SelectedPeriod()` is the new period), and the success toast shows.
- In live mode, the period is selected and the toast shows only if the
  request succeeded.

`Store.AssignTask` behaves as follows:

- The tasks change, by `WithAssignee`, only in demo mode when the guards
  accept.
- A capacity rejection shows a toast naming the member. Nothing else
  changes.
- Unknown tasks, unknown members and a missing period are no-ops.
- Capacity is kept given distinct ids, non-empty member ids and
  non-negative durations.
- The no-dangling invariant is kept.

## Left out

- Live mode. The Firestore subscriptions, the workspace bootstrap and the
  HTTP `apiPost` calls are network I/O.
  - Live branches are modelled as "no local change", apart from the
    selection and toast after a successful `createPeriod`.
  - Snapshot delivery (`onSnapshot`, which replaces the lists wholesale) is
    not modelled.
- The 2.6-second timer that clears the toast, because it depends on the
  clock. A shown toast stays in `toast` until the next one.
- Calendar arithmetic: `toYmd`, `parseYmd`, `Date`, `setDate`, `setHours`.
  Only the day-of-week offsets of `mondayOfWeek` and `sundayOfWeek` are
  modelled.
- Periods.EndBeforeStart: compares the date strings lexicographically
  instead of as parsed dates. This agrees for zero-padded `YYYY-MM-DD`
  dates. It does not capture `parseYmd`'s tolerance of malformed strings
  (NaN dates, missing parts defaulting to 1).
- Sort fields: fractional or infinite `order` and `createdAt` values.
  Orders and creation times are integers or missing.
- Durations and availabilities: non-integer or NaN values.
- Text.LexLess: compares code points. The default `Array.prototype.sort`
  compares UTF-16 code units, which differs only for characters outside
  the Basic Multilingual Plane.
- WorkspaceStore.Store.PeriodYearMonths: the `Set`, then `sort()`, then
  `reverse()` is computed as one insertion into a descending list. The
  contract states the result of the source's pipeline.
- Id collisions from `Math.random`: the fresh id is a parameter. The
  capacity lemmas assume distinct ids where they need them.
- `updateTask` and `updateMemberAvailability` can break the capacity
  invariant, for example by raising a duration or lowering availability.
  The source allows this and shows the member as `over`, so no
  preservation is claimed for them.
- WorkspaceStore.AssignRejectedWouldOverflow and Capacity.CapacityCheckTight:
  "a rejection is never spurious" is claimed only for a task the member
  does not already hold. `assignTask` adds a held task's minutes to a
  `stats[memberId].assigned` that already contains them, so re-assigning
  it to its holder can be refused although nothing would change
  (`WorkspaceStore.ReassignToHolderRejected`). The model keeps this
  behaviour as written. The board's own drag handlers only assign
  unassigned tasks, so they never reach this case.
- WorkspaceStore.Store: each operation is one atomic step on one state.
  In the source, the guards and derived values (`find`, the `stats`
  capacity check, `maxOrder`, the reordered `next`) read the render
  snapshot `state`. The demo update is applied to the `prev` that
  `setState`'s updater receives. The model takes the two to be the same,
  so several updates batched before one re-render are not modelled. The
  capacity claims fail for such batches: two assignments that each pass
  against the same snapshot can together overflow a member
  (`WorkspaceStore.BatchedAssignsOverflow`). The board's own handlers
  fire one operation per drop.
- WorkspaceStore.Store.Open: the live branch does not check that the
  effect runs only once per workspace id, because that is React scheduling.
- The display helpers `minutesToHours`, `hoursToMinutes` and the progress
  percentage (floating point), and all JSX rendering and drag-event
  plumbing.
- `DAY_LABEL` and `BUSINESS_OPTIONS`: display constants.
  `BusinessKey` is any string here.
- `src/lib/firebase.ts`, `src/lib/firebaseAdmin.ts` and the API routes:
  configuration and SDK setup.
- `src/lib/demoData.ts`: fixture constants. The demo lists are parameters
  of `Store.Open`.
