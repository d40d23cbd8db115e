# goal-oriented: goal view, task lists, drag-and-drop reordering and the record store

goal-oriented is a browser to-do app built around goals. Every goal and
task is a record in one flat list, and a task points at its goal through
`parentGoalId`. This project models the core of `js/render.js` and
`js/helpers.js` in Dafny. The four parts are:

- **The goal view.** The top-level goals are put in the order of the
  persisted `goalOrder` (self-healing: stale ids are dropped and
  unlisted goals are appended). They are then split into a completed
  section (newest first) and hidden and active sections (by hide time).
  Each goal id is placed at most once (modules `GoalOrder`, `Sorting`
  and `Buckets`).
- **The task lists of a goal.** These are its active tasks and its
  completed tasks. A task hidden into the future is in neither (module
  `Tasks`).
- **The record handlers.** These cover unhide, hide, edit, complete,
  delete goal, delete task, add task, the two task drag-and-drop
  handlers and the goal drag-and-drop. Each loads the list from the
  store, edits it (in place on the cached array, or into a new array)
  and saves it (modules `Edits`, `Reorder`, `Handlers` and `GoalDrag`).
- **The store and the date helpers.** The store is `loadDecisions`,
  `saveDecisions` and `saveGoalOrder`, with the in-memory cache and the
  sample list shown to visitors (module `Store`). The date helpers are
  `parseNaturalDate` and `formatDaysUntil` (module `Dates`). Module
  `Text` holds the string built-ins used (`trim`, `toLowerCase`,
  `startsWith`).

State that the source changes in place is modelled as classes:

- `Store.RecordList` is a JavaScript array that the cache and the
  handlers share by reference.
- `Store.Store` is the cache together with the user's document.
- `GoalDrag.GoalBoard` is `dragSrcEl` plus the goal cards of
  `#goalList`.

The splice move of the first task-drop handler is an in-place array
method (`Reorder.SpliceMove`). The goal view's placing loop is a method
with loop invariants (`Buckets.PlaceGoals`). Everything else is a
function on values, with lemmas stating what the source promises.

Times are integers: milliseconds for hide times and `now`, and day
numbers (days since 1970-01-01) for dates. The clock, the signed-in
user, the document in the database, `generateId` and the dialog answers
are all parameters or fields.

## Model

| member | source | states |
|---|---|---|
| Records.IndexOfId | js/render.js:240-241 | `findIndex` by id: -1 exactly when no record has the id; otherwise the first record with it |
| GoalOrder.GoalMapGet | js/render.js:84 | `goalMap[id]`: None exactly when no goal has the id; otherwise a goal with that id, the last one in the list |
| GoalOrder.SortedGoals | js/render.js:83-94 | `sortedGoals`: the top-level goals in persisted order, then the unlisted ones; its contract is stated by the rows `SortedGoalsAreTopGoals`, `LookupOrderIds`, `NoGoalDropped`, `NoGoalDroppedUnique` and `NoStoredOrderKeepsListOrder` |
| GoalOrder.SortedGoalsAreTopGoals | js/render.js:83-94 | the resolved goal sequence holds only top-level goals of the loaded list |
| GoalOrder.LookupOrderIds | js/render.js:91-92 | the goals taken from the persisted order are exactly the order's ids that name a goal, in the order's order |
| GoalOrder.NoGoalDropped | js/render.js:86-94 | self-healing: the id of every top-level goal appears in the resolved sequence, whatever the persisted order holds |
| GoalOrder.NoGoalDroppedUnique | js/render.js:86-94 | with unique ids, every top-level goal itself is in the resolved sequence |
| GoalOrder.NoStoredOrderKeepsListOrder | js/render.js:87-94 | with no persisted order (and unique ids) the goals keep list order |
| Sorting.SortByKey | js/render.js:153-165 | the comparator sorts return a sorted permutation of their input |
| Sorting.SortStable | js/render.js:153-165 | the sort is stable: records with equal keys keep their input order |
| Sorting.StableSortUnique | js/render.js:153-165 | any sorted, stable arrangement of the input is the sort's result, so the sections' order is fully determined |
| Buckets.FinalList | js/render.js:153-168 | `finalList`: the dated completed goals followed by the open ones; stated by the rows `FinalListMembers` and `SectionsSorted` |
| Buckets.FirstById | js/render.js:170-171 | what survives the `renderedGoalIds` check: unique ids, the same id set as the input, only input records (line 79 declares the set); which records and in what order is stated by the next three rows |
| Buckets.FirstByIdIsFirstFrom | js/render.js:170-171 | the selection equals the front-to-back `forEach` that skips an id already placed, so it keeps list order |
| Buckets.FirstByIdKeepsFirst | js/render.js:170-171 | the first record with each id is kept |
| Buckets.FirstByIdOnlyFirst | js/render.js:170-171 | every kept record is the first record with its id |
| Buckets.PlaceGoals | js/render.js:170-256 | the `finalList.forEach` loop fills the completed, hidden and active sections with exactly the first-of-each-id records that are completed / hidden into the future / neither |
| Buckets.PlacedAtMostOnce | js/render.js:170-254 | no goal id is placed twice, within or across sections |
| Buckets.EveryIdPlaced | js/render.js:168-256 | every goal id of `finalList` is placed in some section |
| Buckets.FinalListMembers | js/render.js:153-168 | `finalList` holds exactly the goals completed with a date and the goals not completed |
| Buckets.GoalSection | js/render.js:83-256 | with unique ids, a top-level goal lands in the completed section iff completed with a date, in the hidden section iff open and hidden into the future, in the active section iff open and not hidden; a completed goal with no date is shown nowhere |
| Buckets.SectionsSorted | js/render.js:153-165 | completed goals come newest first; hidden and active goals come by hide time, soonest first (placed by the loop at lines 170-256) |
| Tasks.TaskPartition | js/render.js:525-540 | a record is an active task iff it is a child, not completed, and its hide time is absent or reached; it is a completed task iff it is a completed child; a child hidden into the future is in neither |
| Tasks.TasksKeepListOrder | js/render.js:526-540 | both task lists are one filter over the whole list, so they keep list order |
| Tasks.ChildrenSplitThreeWays | js/render.js:526-540 | every child is in exactly one of: active, completed, parked by a future hide time |
| Tasks.ActiveTasks | js/render.js:529-538 | `activeTasks`: stated by the rows `TaskPartition`, `TasksKeepListOrder` and `ChildrenSplitThreeWays` |
| Tasks.CompletedTasks | js/render.js:540 | `completedTasks`: stated by the rows `TaskPartition`, `TasksKeepListOrder` and `ChildrenSplitThreeWays` |
| Reorder.UnderGoalOthersSplit | js/render.js:59-60 | `underGoal` and `others` are complementary and together hold the list |
| Reorder.MovedAt | js/render.js:67-68 | after the splice pair, the moved element is at `to` and the elements between shift by one toward `from` |
| Reorder.MovedPermutation | js/render.js:67-68 | the splice move is a permutation |
| Reorder.MovedBack | js/render.js:67-68 | moving the element back from `to` to `from` restores the sequence |
| Reorder.SpliceMove | js/render.js:67-68 | the in-place array move leaves the array equal to `Moved` of its old contents |
| Reorder.TaskDropResult | js/render.js:54-71 | the list `enableTaskDrag` saves, or none where it returns early; stated by the rows `TaskDrop`, `TaskDropRefused`, `TaskDropPermutation` and `TaskDropSaved` |
| Reorder.InsertBefore | js/render.js:765 | the DOM `insertBefore` move keeps the same elements (the same move at line 822) |
| Reorder.DomMoveIsSplice | js/render.js:762-765 | inserting before the target's next sibling (or the target itself when moving up) is the splice move from the dragged index to the target index (the same at lines 816-822) |
| Reorder.TaskDrop | js/render.js:54-71 | the drop handler's array code computes `TaskDropResult` |
| Reorder.TaskDropRefused | js/render.js:54-65 | the drop is refused exactly when an id is empty, the ids are equal, or either is not an incomplete task of the goal |
| Reorder.TaskDropPermutation | js/render.js:59-71 | a saved reorder is a permutation of the loaded list |
| Reorder.TaskDropSaved | js/render.js:59-71 | in a saved reorder the other records come first in their order, followed by the goal's incomplete tasks with the dropped one moved to the target's index |
| Reorder.NewTaskOrder | js/render.js:811-826 | the rows' ids after the DOM move, or none where the handler returns early; stated by the row `NewTaskOrderSpec` |
| Reorder.NewTaskOrderSpec | js/render.js:811-826 | the drop is refused exactly when an id is empty, the ids are equal, or either has no row; otherwise the new order is a rearrangement of the rows' ids |
| Reorder.FindById | js/render.js:832 | `find` by id: None exactly when no record has the id; otherwise a record of the list with that id |
| Reorder.FindByIdFirst | js/render.js:832 | `find` returns the first record with the id |
| Reorder.ResolveIds | js/render.js:832 | the resolved records are list records whose ids are named, at most one per id |
| Reorder.ResolveIdsIds | js/render.js:832 | the ids of the resolved records are exactly the named ids that some record has, in the order named |
| Reorder.DomTaskDropAsWritten | js/render.js:827-834 | the live drop's saved list as written: `others`, then the records named by the rows; stated by the rows `AsWrittenLosesUnshownTask`, `AsWrittenLosesHiddenTaskExample` and `DomTaskDropAgreesWhenAllShown` |
| Reorder.DomTaskDrop | js/render.js:827-834 | the corrected saved list, which keeps the goal's tasks that have no row; stated by the rows `DomTaskDropKeepsEveryRecord`, `DomTaskDropPermutation` and `DomTaskDropAgreesWhenAllShown` |
| Reorder.AsWrittenLosesUnshownTask | js/render.js:824-834 | as written, an incomplete task of the goal that has no row is missing from the saved list |
| Reorder.LostTaskListRows | js/render.js:529-538 | before its hide time, task "h" of the example list has no row: the active tasks of goal "g" are exactly "a" and "b" |
| Reorder.AsWrittenLosesHiddenTaskExample | js/render.js:803-834 | a concrete list where, before the hide time of task "h", a drop saves a list without "h" |
| Reorder.DomTaskDropKeepsEveryRecord | js/render.js:803-834 | with unique ids, the corrected live drop saves every loaded record and no other |
| Reorder.DomTaskDropPermutation | js/render.js:827-834 | with unique ids and one row per task, the corrected live drop saves a rearrangement of the loaded list: every record exactly once |
| Reorder.DomTaskDropAgreesWhenAllShown | js/render.js:826-834 | when every incomplete task of the goal has a row, the corrected drop saves the same list as the code as written |
| Edits.DeleteGoalRemovesGoalAndChildren | js/render.js:380 | the goal delete removes exactly the goal and its children, and the goal has no tasks left |
| Edits.DeleteGoalIdempotent | js/render.js:380 | deleting the same goal twice is deleting it once |
| Edits.DeleteGoalPartwise | js/render.js:380 | the goal delete keeps the other records in order |
| Edits.DeleteTaskRemovesOnlyId | js/render.js:710 | the task delete removes the records with that id and keeps all others |
| Edits.DeleteGoal | js/render.js:380 | the list the goal delete saves; stated by the rows `DeleteGoalRemovesGoalAndChildren`, `DeleteGoalIdempotent` and `DeleteGoalPartwise` |
| Edits.DeleteTask | js/render.js:710 | the list the task delete saves; stated by the row `DeleteTaskRemovesOnlyId` |
| Edits.UpdateById | js/render.js:240-243 | the update of the first record with the id; stated by the row `UpdateByIdOnlyTarget` |
| Edits.UpdateByIdOnlyTarget | js/render.js:240-243 | the in-place update by id changes only the first record with the id, and changes nothing when there is none (the same update at lines 326-330, 416-421 and 464-467) |
| Edits.UnhideShows | js/render.js:242 | an unhidden record is visible at any time, and nothing else about it changes |
| Edits.HideTarget | js/render.js:328 | for every offered duration, the hide time is between one hour and thirty days after `now` |
| Edits.HideHidesForDuration | js/render.js:297-306 | for every offered duration, the record is hidden from the hide time on and visible once the duration has passed (applied at lines 328-329) |
| Edits.Completed | js/render.js:460-467 | the record the completion handler writes back; stated by the row `CompletedGoalIsDated` |
| Edits.CompletedGoalIsDated | js/render.js:460-467 | a completed record carries a completion date and the given resolution, and its goal/task standing is unchanged |
| Edits.NewTask | js/render.js:610-618 | the added task has the given id and text, belongs to the goal, is not completed and is visible at every time |
| Edits.AddedTaskIsLastActive | js/render.js:610-618 | the added task becomes the goal's last active task; the completed tasks are unchanged |
| Store.SampleDecisions | js/helpers.js:5-163 | `SAMPLE_DECISIONS`; stated by the row `SampleIsValid` |
| Store.SampleIsValid | js/helpers.js:5-163 | the sample list has 17 records and holds a valid record |
| Store.RecordList.Push | js/render.js:621 | `push` appends the record |
| Store.RecordList.Set | js/render.js:242 | an index assignment replaces one record (also lines 329, 419-420 and 467) |
| Store.Store.constructor | js/helpers.js:192-193 | the cache starts empty; the sample array holds `SAMPLE_DECISIONS`; a document that does not exist has neither items nor a goal order (`DocConsistent`), which every store method preserves |
| Store.Store.Load | js/helpers.js:198-213 | returns the cached array unless forced; with no user it caches and returns the sample array; otherwise it caches and returns a fresh array of the stored items (empty when missing) |
| Store.Store.SaveDecisions | js/helpers.js:215-232 | with a user, an array and a valid record, the items are stored and cached; otherwise nothing changes |
| Store.Store.SaveGoalOrder | js/helpers.js:234-245 | with a user and a non-empty order, the order is stored when the document exists and rejected (the update throws) when it does not; otherwise nothing happens |
| Handlers.UpdateAndSave | js/render.js:238-246 | load, then update the record with the id in the cached array, then save; the edit lands in the cache even when the save is refused (the same handler shape at lines 324-335, 412-426 and 453-470). The document exists afterwards exactly when it did before or the save was accepted. The cached array is edited in place: it stays the cache, and with no cache and no user it is the sample array itself; the sample array is untouched unless it is the array loaded. |
| Handlers.OnUnhide | js/render.js:238-246 | the unhide button clears the record's hide time in the loaded array, and stores the result when the save is accepted. The document exists afterwards exactly when it did before or the save was accepted. The cached array is edited in place: it stays the cache, and with no cache and no user it is the sample array itself; the sample array is untouched unless it is the array loaded. |
| Handlers.OnHide | js/render.js:324-335 | a hide option sets the hide time to `now` plus the chosen hours in the loaded array, and stores the result when the save is accepted. The document exists afterwards exactly when it did before or the save was accepted. The cached array is edited in place: it stays the cache, and with no cache and no user it is the sample array itself; the sample array is untouched unless it is the array loaded. |
| Handlers.OnEdit | js/render.js:412-426 | the edit writes the trimmed text and deadline into the loaded array, and stores the result when the save is accepted. The document exists afterwards exactly when it did before or the save was accepted. The cached array is edited in place: it stays the cache, and with no cache and no user it is the sample array itself; the sample array is untouched unless it is the array loaded. |
| Handlers.OnComplete | js/render.js:453-470 | an empty or cancelled resolution changes nothing; otherwise the rendered record, completed with today's date, replaces the one with its id in the loaded array, which is stored when the save is accepted. The document exists afterwards exactly when it did before or the save was accepted. The cached array is edited in place: it stays the cache, and with no cache and no user it is the sample array itself; the sample array is untouched unless it is the array loaded. |
| Handlers.LoadComputeSave | js/render.js:377-383 | load, compute a new array, save it (the same at lines 707-713); the signed-in flag is unchanged, and the document exists afterwards exactly when it did before or the save was accepted |
| Handlers.OnDeleteGoal | js/render.js:377-383 | a cancelled `confirm` changes nothing (line 378); otherwise the list without the goal and its children is stored and cached when the save is accepted, and the loaded list stays cached when it is refused; the signed-in flag is unchanged, and the document exists afterwards exactly when it did before or the save was accepted |
| Handlers.OnDeleteTask | js/render.js:707-713 | a cancelled `confirm` changes nothing (line 708); otherwise the list without the task is stored and cached when the save is accepted, and the loaded list stays cached when it is refused; the signed-in flag is unchanged, and the document exists afterwards exactly when it did before or the save was accepted |
| Handlers.LastGoalDeleteRefused | js/render.js:377-383 | deleting the only goal (with its tasks) leaves nothing valid, so the save is refused and the goal stays stored |
| Handlers.OnAddTask | js/render.js:604-626 | blank text changes nothing; otherwise the new task is pushed onto the loaded array, which is stored when the save is accepted. The document exists afterwards exactly when it did before or the save was accepted. The cached array is edited in place: it stays the cache, and with no cache and no user it is the sample array itself; the sample array is untouched unless it is the array loaded. |
| Handlers.AddTaskAccepted | js/render.js:610-622 | a list with an added task always holds a valid record, so a signed-in add is never refused |
| Handlers.OnTaskDrag | js/render.js:50-71 | the first task-drop handler saves `TaskDropResult` of the loaded list; an early return changes nothing; the document exists afterwards exactly when it did before or the save was accepted |
| Handlers.OnTaskRowDrop | js/render.js:803-844 | the live task-row drop as written: an early return changes nothing; otherwise it saves `DomTaskDropAsWritten` of the loaded list, and the goal's rows are drawn again from the list loaded before the save, so they show the order from before the drop (lines 836-842); the document exists afterwards exactly when it did before or the save was accepted |
| Handlers.RowsShowOrderBeforeDrop | js/render.js:836-842 | on the example list, dropping row "a" on row "b" moves "a" after "b", and the rows drawn again come back as "a", "b" |
| Handlers.OnTaskRowDropCorrected | js/render.js:827-834 | the same handler saving the corrected `DomTaskDrop`, which keeps the goal's tasks that have no row; the document exists afterwards exactly when it did before or the save was accepted |
| GoalDrag.MovedGoalList | js/render.js:760-766 | the goal cards after the drop are a rearrangement of the cards before it |
| GoalDrag.GoalDropMoves | js/render.js:760-770 | the saved goal order is the splice move of the dragged goal to the target's index when both are in the list, else the list unchanged |
| GoalDrag.GoalDropPlacesDragged | js/render.js:760-770 | the saved order has the same ids with the dragged goal at the target's place, and dragging it back restores the list |
| GoalDrag.GoalBoard.constructor | js/render.js:7 | no drag is in progress |
| GoalDrag.GoalBoard.StartGoalDrag | js/render.js:721-731 | a drag starting on a goal card records it; one starting on a task row inside the card is ignored |
| GoalDrag.GoalBoard.StartTaskDrag | js/render.js:784-790 | a drag starting on a task row records the row |
| GoalDrag.GoalBoard.DropOnGoal | js/render.js:746-776 | a drop on a task row is ignored; with no source or a self-drop the source is cleared; missing ids change nothing; otherwise the card moves, the order is saved, and the source is cleared unless the save is rejected |
| Text.Trim | js/render.js:413-414 | `trim` returns the slice between leading and trailing white space, with no white space at either end (also line 607) |
| Text.TrimIdempotent | js/render.js:413-414 | trimming twice is trimming once (also line 607) |
| Text.ToLower | js/helpers.js:250 | `toLowerCase` maps the ASCII capitals to small letters and keeps the other characters |
| Dates.WeekdayPrefixUnique | js/helpers.js:249-255 | an input that starts with a weekday name selects that weekday |
| Dates.DaysAheadLands | js/helpers.js:257-259 | moving ahead to a weekday takes 1 to 7 days and lands on that weekday; on the same weekday it takes 7 |
| Dates.ParseTodayIff | js/helpers.js:250-253 | the result is today exactly for the input "today", in any case and with surrounding white space |
| Dates.ParseWeekday | js/helpers.js:254-262 | for a weekday name the result is the next such weekday, 1 to 7 days ahead |
| Dates.ParseNoneIff | js/helpers.js:263 | the result is null exactly for input that is neither "today" nor starts with a weekday name |
| Dates.ParseNaturalDate | js/helpers.js:247-264 | a parsed date is never before today and at most a week ahead; its cases are stated by the rows `ParseTodayIff`, `ParseWeekday` and `ParseNoneIff` |
| Dates.NatToString | js/helpers.js:274-275 | the decimal form is non-empty and made of digits |
| Dates.LabelRoundTrip | js/helpers.js:266-276 | every label of a date reads back as that date's distance from today |
| Dates.SingularIff | js/helpers.js:274-275 | "day" is singular exactly when the distance is one day either way |
| Dates.FormatDaysUntil | js/helpers.js:266-276 | the label is empty exactly for a missing date and is "today" exactly for today's date; the other labels are stated by the rows `LabelRoundTrip`, `SingularIff` and `LabelExamples` |
| Dates.LabelExamples | js/helpers.js:266-276 | the labels of sample days: "", "today", "in 1 day", "in 3 days", "overdue by 1 day", "overdue by 12 days" |

## Left out

- Rendering: the DOM elements, icons, styles, collapse state (`openGoalIds`) and the text of each card are not modelled. The model stops at which record goes into which section or list, and in what order.
- The dialogs are modelled by their answers, which the handlers take as parameters: `confirmed` for the `confirm` of the two delete buttons, the resolution (empty when the `prompt` is cancelled or left empty) for the completion, and the chosen hours for the hide menu.
- Firestore and authentication are modelled as fields of `Store.Store`. Network failures and write errors other than a missing document are left out. So is the asynchrony between handlers, including races between overlapping loads and saves.
- `renderGoalsAndSubitems` reads `currentUser.uid` without a null check (js/render.js:86). The model assumes a signed-in user there, because the app only renders the goal view for one.
- Clocks and time zones: `now` and "today" are parameters. `dateCompleted` and due dates are day numbers. Date strings that do not parse, the difference between UTC dates (`toISOString`) and local weekdays (`getDay`), and the rounding of a date difference across daylight-saving changes are left out.
- Edits.HideTarget: keeps the hide time as a number of milliseconds. The source stores it as a local-time string (`toLocaleString('en-CA')`) and parses it back. That round trip drops the milliseconds and depends on the locale's format.
- Edits.Completed: stores the completion date as a day number. The source stores the local date string of `toLocaleDateString('en-CA')`.
- Dates.ParseNaturalDate: returns a day number rather than an ISO date string.
- `generateId` is random, so the new id is a parameter of `Handlers.OnAddTask`.
- Buckets.NewestFirst, Buckets.HideTime: assume every completion date and hide time is a number, so comparators that return NaN on unparseable dates are not modelled.
- GoalOrder.GoalMapGet: ids that clash with `Object.prototype` keys (such as "constructor") are treated like any other id.
- Text.ToLower: maps only ASCII capitals. The full Unicode case mapping of `toLowerCase` is left out.
- Reorder.NewTaskOrder: rows are identified by task id, so two rows with the same id are not told apart. Element identity in the DOM is not modelled.
- Handlers.OnTaskRowDrop: assumes the row sits inside a `.goal-children` container, so the `parentContainer` check is not modelled; the drawn rows are modelled by their task ids.
- GoalDrag.GoalBoard.DropOnGoal: goal cards in the completed and hidden containers, the drag-over highlighting and the re-render after the drop are left out.
- Handlers.OnComplete: takes the rendered record as a value `item`, which is more general than the source. There `goal` is the record object of the cached array loaded at js/render.js:80, so it is completed in place (lines 460-462) and written back (line 467) with any edits other handlers made to it in the meantime. The model does not state that `item` is the cached record.
- Store.SampleIsValid: does not state that the sample ids are unique.
- `loadLists`, `saveLists` and `makeIconBtn` in js/helpers.js, and the modules `js/main.js` and `js/travel.js`, are not part of this model.

## Findings

| source | as written | input that shows it | evidently intended | confidence | as-written member | corrected member |
|---|---|---|---|---|---|---|
| js/render.js:829-834 | the live task-row drop saves `others` followed by the records named by the rows, so an incomplete task of the goal that has no row (hidden into the future) is left out of the saved list | `LostTaskList(1000)` at any time from 0 to 999: goal "g" with rows "a" and "b" and a task "h" hidden until 1000; dropping "a" on "b" saves a list without "h" | the drop only reorders the rows and keeps every record | not executed | Reorder.DomTaskDropAsWritten, Reorder.AsWrittenLosesHiddenTaskExample | Reorder.DomTaskDrop, Reorder.DomTaskDropPermutation |
